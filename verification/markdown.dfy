/**
 * `convert_markdown_table_to_html`: a line-by-line translation of the plan
 * text into HTML.  Pipe rows become a table (the first row the header),
 * separator rows are dropped, `### `, `## ` and `- ` lines become headings and
 * list items, and any other non-blank line a paragraph.
 *
 * The translation is modelled in two stages: each line yields HTML pieces
 * (`Chunk`s), and the pieces are rendered as text.
 */
module MarkdownHtml {
  import opened Text

  /** A piece of the generated HTML. */
  datatype Chunk =
    | TableHead(cells: seq<string>)
    | TableRow(cells: seq<string>)
    | TableEnd(gap: bool)
    | Heading3(text: string)
    | Heading2(text: string)
    | ListItem(text: string)
    | Paragraph(text: string)
  {
    predicate IsContent() {
      !TableEnd?
    }

    /** Rows and table ends belong inside a table; everything else outside one. */
    predicate NeedsOpenTable() {
      TableRow? || TableEnd?
    }

    /** After a header or a row the table is still open. */
    predicate LeavesOpenTable() {
      TableHead? || TableRow?
    }
  }

  /** `"".join(f"<{tag}>{c}</{tag}>" for c in cells)`. */
  function Cells(tag: string, cells: seq<string>): string
    decreases |cells|
  {
    if cells == [] then "" else "<" + tag + ">" + cells[0] + "</" + tag + ">" + Cells(tag, cells[1..])
  }

  function RenderChunk(c: Chunk): string {
    match c
    case TableHead(cells) => "<table class='tbl'><thead><tr>" + Cells("th", cells) + "</tr></thead><tbody>"
    case TableRow(cells) => "<tr>" + Cells("td", cells) + "</tr>"
    case TableEnd(gap) => "</tbody></table>" + (if gap then "<br>" else "")
    case Heading3(t) => "<h3>" + t + "</h3>"
    case Heading2(t) => "<h2>" + t + "</h2>"
    case ListItem(t) => "<li>" + t + "</li>"
    case Paragraph(t) => "<p>" + t + "</p>"
  }

  function Render(cs: seq<Chunk>): string
    decreases |cs|
  {
    if cs == [] then "" else RenderChunk(cs[0]) + Render(cs[1..])
  }

  lemma {:induction false} RenderAppend(a: seq<Chunk>, b: seq<Chunk>)
    ensures Render(a + b) == Render(a) + Render(b)
    decreases |a|
  {
    if a != [] {
      assert (a + b)[0] == a[0];
      assert (a + b)[1..] == a[1..] + b;
      RenderAppend(a[1..], b);
    } else {
      assert a + b == b;
    }
  }

  // ---------------------------------------------------------------------------
  // Classifying a line

  predicate IsSeparatorChar(c: char) {
    c == '-' || c == '|' || IsSpace(c)
  }

  /**
   * `re.match(r"^\|?\s*-[-\s|]*\|?$", t)`: after an optional leading `|` and
   * whitespace comes a `-`, and every later character is `-`, `|` or
   * whitespace (the final `\|?` is covered by the class).
   */
  predicate IsSeparatorRow(t: string) {
    var u := if t != [] && t[0] == '|' then t[1..] else t;
    var v := LStrip(u);
    v != [] && v[0] == '-' && forall i :: 1 <= i < |v| ==> IsSeparatorChar(v[i])
  }

  predicate IsPipeRow(t: string) {
    StartsWith(t, "|") && EndsWith(t, "|")
  }

  /**
   * `[c.strip() for c in t.split("|")[1:-1]]`: the stripped text between each
   * pair of neighbouring pipes.
   */
  function RowCells(t: string): (cells: seq<string>)
    requires IsPipeRow(t)
    ensures |cells| == CountChar(t, '|') - 1
    ensures forall k :: 0 <= k < |cells| ==> '|' !in cells[k]
    ensures forall k :: 0 <= k < |cells| ==> cells[k] == [] || (!IsSpace(cells[k][0]) && !IsSpace(cells[k][|cells[k]| - 1]))
  {
    var parts := Split(t, '|');
    assert t[0] == '|';
    PipeCount(t);
    var inner := parts[1..|parts| - 1];
    seq(|inner|, k requires 0 <= k < |inner| => StripNoPipe(inner[k]))
  }

  /** Cell `k` is the stripped piece after the `k`-th pipe. */
  lemma RowCellAt(t: string, k: nat)
    requires IsPipeRow(t) && k < |RowCells(t)|
    ensures RowCells(t)[k] == Strip(Split(t, '|')[k + 1])
  {
  }

  lemma PipeCount(t: string)
    requires t != [] && t[0] == '|'
    ensures CountChar(t, '|') >= 1
  {
  }

  /** `Strip` of a piece without pipes, with that fact carried along. */
  function StripNoPipe(s: string): (r: string)
    requires '|' !in s
    ensures '|' !in r
    ensures r == [] || (!IsSpace(r[0]) && !IsSpace(r[|r| - 1]))
  {
    StripNoChar(s, '|');
    Strip(s)
  }

  /** How one line of the plan is handled. */
  datatype LineKind = Separator | Pipes(cells: seq<string>) | Other(text: string)

  /** The line's stripped text (`raw.rstrip().strip()`) decides its kind. */
  function Classify(raw: string): (k: LineKind)
    ensures Strip(RStrip(raw)) == [] ==> k == Other([])
    ensures k.Other? ==> k.text == [] || (!IsSpace(k.text[0]) && !IsSpace(k.text[|k.text| - 1]))
    ensures k.Pipes? ==> forall i :: 0 <= i < |k.cells| ==> '|' !in k.cells[i]
  {
    var t := Strip(RStrip(raw));
    if IsSeparatorRow(t) then Separator
    else if IsPipeRow(t) then Pipes(RowCells(t))
    else Other(t)
  }

  /** The content piece for a stripped line outside a table, if any. */
  function Block(t: string): (cs: seq<Chunk>)
    ensures |cs| == (if t == [] then 0 else 1)
    ensures forall i :: 0 <= i < |cs| ==> cs[i].IsContent() && !cs[i].NeedsOpenTable() && !cs[i].LeavesOpenTable()
  {
    if StartsWith(t, "### ") then [Heading3(t[4..])]
    else if StartsWith(t, "## ") then [Heading2(t[3..])]
    else if StartsWith(t, "- ") then [ListItem(t[2..])]
    else if t != [] then [Paragraph(t)]
    else []
  }

  // ---------------------------------------------------------------------------
  // The HTML of one line outside the table rows

  /** `</tbody></table><br>` when a table was open before the line, otherwise nothing. */
  function CloseOpenTable(inside: bool): string {
    if inside then "</tbody></table><br>" else ""
  }

  /** A line `### x` gives `<h3>x</h3>`, after closing an open table. */
  lemma Heading3Line(inside: bool, raw: string, x: string)
    requires Strip(RStrip(raw)) == "### " + x
    ensures Render(Step(inside, Classify(raw)).1) == CloseOpenTable(inside) + "<h3>" + x + "</h3>"
  {
    HashLineIsOther(raw);
    Heading3Text(inside, Strip(RStrip(raw)), x);
  }

  lemma Heading3Text(inside: bool, t: string, x: string)
    requires t == "### " + x
    ensures Render(Step(inside, Other(t)).1) == CloseOpenTable(inside) + "<h3>" + x + "</h3>"
  {
    assert t[..4] == "### " && t[4..] == x;
    OtherLineHtml(inside, t, Heading3(x));
  }

  /** A line `## x` gives `<h2>x</h2>`, after closing an open table (it never reads as `### `). */
  lemma Heading2Line(inside: bool, raw: string, x: string)
    requires Strip(RStrip(raw)) == "## " + x
    ensures Render(Step(inside, Classify(raw)).1) == CloseOpenTable(inside) + "<h2>" + x + "</h2>"
  {
    HashLineIsOther(raw);
    Heading2Text(inside, Strip(RStrip(raw)), x);
  }

  lemma Heading2Text(inside: bool, t: string, x: string)
    requires t == "## " + x
    ensures Render(Step(inside, Other(t)).1) == CloseOpenTable(inside) + "<h2>" + x + "</h2>"
  {
    if |t| >= 4 {
      assert t[..4][2] == ' ';
    }
    assert t[..3] == "## " && t[3..] == x;
    OtherLineHtml(inside, t, Heading2(x));
  }

  /**
   * A line `- x` gives `<li>x</li>`, after closing an open table, unless the
   * whole line is a separator row (`x` only dashes, pipes and whitespace),
   * which is skipped.
   */
  lemma ListItemLine(inside: bool, raw: string, x: string)
    requires Strip(RStrip(raw)) == "- " + x
    ensures IsSeparatorRow("- " + x) ==> Render(Step(inside, Classify(raw)).1) == ""
    ensures !IsSeparatorRow("- " + x) ==> Render(Step(inside, Classify(raw)).1) == CloseOpenTable(inside) + "<li>" + x + "</li>"
  {
    var t := Strip(RStrip(raw));
    DashTextIsNoPipeRow(t);
    if IsSeparatorRow(t) {
      assert Classify(raw) == Separator;
    } else {
      assert Classify(raw) == Other(t);
      ListItemText(inside, t, x);
    }
  }

  lemma DashTextIsNoPipeRow(t: string)
    requires t != [] && t[0] == '-'
    ensures !IsPipeRow(t)
  {
    assert t[..1] == "-";
  }

  lemma ListItemText(inside: bool, t: string, x: string)
    requires t == "- " + x
    ensures Render(Step(inside, Other(t)).1) == CloseOpenTable(inside) + "<li>" + x + "</li>"
  {
    if |t| >= 4 {
      assert t[..4][0] == '-';
    }
    if |t| >= 3 {
      assert t[..3][0] == '-';
    }
    assert t[..2] == "- " && t[2..] == x;
    OtherLineHtml(inside, t, ListItem(x));
  }

  /** Any other non-blank line gives `<p>t</p>` of its stripped text `t`, after closing an open table. */
  lemma ParagraphLine(inside: bool, raw: string)
    requires var t := Strip(RStrip(raw));
      && t != [] && !IsSeparatorRow(t) && !IsPipeRow(t)
      && !StartsWith(t, "### ") && !StartsWith(t, "## ") && !StartsWith(t, "- ")
    ensures Render(Step(inside, Classify(raw)).1) == CloseOpenTable(inside) + "<p>" + Strip(RStrip(raw)) + "</p>"
  {
    var t := Strip(RStrip(raw));
    assert Classify(raw) == Other(t);
    ParagraphText(inside, t);
  }

  lemma ParagraphText(inside: bool, t: string)
    requires t != [] && !StartsWith(t, "### ") && !StartsWith(t, "## ") && !StartsWith(t, "- ")
    ensures Render(Step(inside, Other(t)).1) == CloseOpenTable(inside) + "<p>" + t + "</p>"
  {
    OtherLineHtml(inside, t, Paragraph(t));
  }

  /** A line whose stripped text starts with `#` is neither a separator row nor a pipe row. */
  lemma HashLineIsOther(raw: string)
    requires var t := Strip(RStrip(raw)); t != [] && t[0] == '#'
    ensures Classify(raw) == Other(Strip(RStrip(raw)))
  {
    HashTextIsOther(Strip(RStrip(raw)));
  }

  lemma HashTextIsOther(t: string)
    requires t != [] && t[0] == '#'
    ensures !IsSeparatorRow(t) && !IsPipeRow(t)
  {
    assert t[..1] == "#";
    assert LStrip(t) == t;
  }

  /** The HTML of a non-table line is the closing of an open table followed by its one piece. */
  lemma OtherLineHtml(inside: bool, t: string, c: Chunk)
    requires Block(t) == [c]
    ensures Render(Step(inside, Other(t)).1) == CloseOpenTable(inside) + RenderChunk(c)
  {
    var pre: seq<Chunk> := if inside then [TableEnd(true)] else [];
    RenderAppend(pre, [c]);
    assert Render([c]) == RenderChunk(c) + Render([]);
    if inside {
      assert Render(pre) == RenderChunk(TableEnd(true)) + Render([]);
    }
  }

  /** The kind of every line, in order. */
  function Kinds(lines: seq<string>): (ks: seq<LineKind>)
    ensures |ks| == |lines| && forall i :: 0 <= i < |lines| ==> ks[i] == Classify(lines[i])
  {
    seq(|lines|, i requires 0 <= i < |lines| => Classify(lines[i]))
  }

  /** One iteration of the loop: the pieces a line adds and whether a table is open afterwards. */
  function Step(inside: bool, k: LineKind): (bool, seq<Chunk>) {
    match k
    case Separator => (inside, [])
    case Pipes(cells) => (true, [if inside then TableRow(cells) else TableHead(cells)])
    case Other(t) => (false, (if inside then [TableEnd(true)] else []) + Block(t))
  }

  /** The pieces for a run of lines, starting inside a table or not; an open table is closed at the end. */
  function Scan(inside: bool, ks: seq<LineKind>): seq<Chunk>
    decreases |ks|
  {
    if ks == [] then (if inside then [TableEnd(false)] else [])
    else
      var (inside', cs) := Step(inside, ks[0]);
      cs + Scan(inside', ks[1..])
  }

  /**
   * `convert_markdown_table_to_html(md)`: the rendering of a run of pieces in
   * which every table is opened before its rows and closed once, and every line
   * that is neither blank nor a separator yields exactly one content piece.
   */
  function ConvertMarkdown(md: string): (html: string)
    ensures md == [] ==> html == []
    ensures md != [] ==> var ks := Kinds(SplitLines(md)); var cs := Scan(false, ks);
      html == Render(cs) && NestedFrom(false, cs) && ContentCount(cs) == ContentLines(ks)
  {
    if md == [] then ""
    else
      var ks := Kinds(SplitLines(md));
      ScanNested(false, ks);
      EveryContentLineRendered(false, ks);
      Render(Scan(false, ks))
  }

  lemma ScanFrom(inside: bool, ks: seq<LineKind>, i: nat)
    requires i < |ks|
    ensures Scan(inside, ks[i..]) == Step(inside, ks[i]).1 + Scan(Step(inside, ks[i]).0, ks[i + 1..])
  {
    assert ks[i..][0] == ks[i];
    assert ks[i..][1..] == ks[i + 1..];
  }

  /** The loop of `convert_markdown_table_to_html`, appending to `html` line by line. */
  method ConvertMarkdownTableToHtml(md: string) returns (html: string)
    ensures html == ConvertMarkdown(md)
    ensures md == [] ==> html == []
  {
    if md == [] {
      return "";
    }
    var lines := SplitLines(md);
    ghost var ks := Kinds(lines);
    ghost var done: seq<Chunk> := [];
    html := "";
    var inside := false;
    var i := 0;
    while i < |lines|
      invariant 0 <= i <= |lines| && |ks| == |lines|
      invariant done + Scan(inside, ks[i..]) == Scan(false, ks)
      invariant html == Render(done)
    {
      var k := Classify(lines[i]);
      assert k == ks[i];
      var (inside', cs) := Step(inside, k);
      LoopStep(done, inside, ks, i, Scan(false, ks));
      assert (inside', cs) == Step(inside, ks[i]);
      html := html + Render(cs);
      done := done + cs;
      inside := inside';
      i := i + 1;
    }
    LoopEnd(done, inside, ks, Scan(false, ks));
    if inside {
      html := html + RenderChunk(TableEnd(false));
    }
  }

  /** One line moves its pieces from the remaining scan to the pieces done. */
  lemma LoopStep(done: seq<Chunk>, inside: bool, ks: seq<LineKind>, i: nat, all: seq<Chunk>)
    requires i < |ks| && done + Scan(inside, ks[i..]) == all
    ensures (done + Step(inside, ks[i]).1) + Scan(Step(inside, ks[i]).0, ks[i + 1..]) == all
    ensures Render(done + Step(inside, ks[i]).1) == Render(done) + Render(Step(inside, ks[i]).1)
  {
    var st := Step(inside, ks[i]);
    ScanFrom(inside, ks, i);
    ConcatAssoc(done, st.1, Scan(st.0, ks[i + 1..]));
    RenderAppend(done, st.1);
  }

  lemma ConcatAssoc(a: seq<Chunk>, b: seq<Chunk>, c: seq<Chunk>)
    ensures a + (b + c) == (a + b) + c
  {
  }

  /** After the last line only the closing of an open table remains. */
  lemma LoopEnd(done: seq<Chunk>, inside: bool, ks: seq<LineKind>, all: seq<Chunk>)
    requires done + Scan(inside, ks[|ks|..]) == all
    ensures Render(all) == Render(done) + (if inside then RenderChunk(TableEnd(false)) else "")
  {
    assert ks[|ks|..] == [];
    RenderAppend(done, Scan(inside, []));
    if inside {
      assert Render([TableEnd(false)]) == RenderChunk(TableEnd(false)) + Render([]);
    }
  }

  // ---------------------------------------------------------------------------
  // Properties

  /**
   * Tables are properly nested: a header opens one, rows only occur inside
   * it, an end closes it, headings, items and paragraphs only occur outside,
   * and nothing is left open at the end.
   */
  predicate NestedFrom(inside: bool, cs: seq<Chunk>)
    decreases |cs|
  {
    if cs == [] then !inside
    else cs[0].NeedsOpenTable() == inside && NestedFrom(cs[0].LeavesOpenTable(), cs[1..])
  }

  lemma NestedCons(inside: bool, c: Chunk, rest: seq<Chunk>)
    requires c.NeedsOpenTable() == inside && NestedFrom(c.LeavesOpenTable(), rest)
    ensures NestedFrom(inside, [c] + rest)
  {
    assert ([c] + rest)[0] == c && ([c] + rest)[1..] == rest;
  }

  lemma BlockNested(t: string, rest: seq<Chunk>)
    requires NestedFrom(false, rest)
    ensures NestedFrom(false, Block(t) + rest)
  {
    var b := Block(t);
    if b != [] {
      assert b == [b[0]];
      NestedCons(false, b[0], rest);
    } else {
      assert b + rest == rest;
    }
  }

  lemma StepNested(inside: bool, k: LineKind, rest: seq<Chunk>)
    requires NestedFrom(Step(inside, k).0, rest)
    ensures NestedFrom(inside, Step(inside, k).1 + rest)
  {
    match k
    case Separator =>
      assert Step(inside, k).1 + rest == rest;
    case Pipes(cells) =>
      var c := if inside then TableRow(cells) else TableHead(cells);
      assert Step(inside, k).1 == [c];
      NestedCons(inside, c, rest);
    case Other(t) =>
      OtherNested(inside, t, rest);
  }

  lemma OtherNested(inside: bool, t: string, rest: seq<Chunk>)
    requires NestedFrom(false, rest)
    ensures NestedFrom(inside, Step(inside, Other(t)).1 + rest)
  {
    var b := Block(t);
    BlockNested(t, rest);
    if inside {
      assert Step(inside, Other(t)).1 + rest == [TableEnd(true)] + (b + rest);
      NestedCons(true, TableEnd(true), b + rest);
    } else {
      assert Step(inside, Other(t)).1 + rest == b + rest;
    }
  }

  lemma {:induction false} ScanNested(inside: bool, ks: seq<LineKind>)
    ensures NestedFrom(inside, Scan(inside, ks))
    decreases |ks|
  {
    if ks == [] {
      if inside {
        NestedCons(true, TableEnd(false), []);
      }
    } else {
      var (inside', cs) := Step(inside, ks[0]);
      ScanNested(inside', ks[1..]);
      StepNested(inside, ks[0], Scan(inside', ks[1..]));
    }
  }

  /** The pieces of any plan have balanced tables. */
  lemma ConvertNested(md: string)
    ensures NestedFrom(false, Scan(false, Kinds(SplitLines(md))))
  {
    ScanNested(false, Kinds(SplitLines(md)));
  }

  /** Whether a line produces a content piece: it is neither a separator nor blank. */
  function LineContent(k: LineKind): nat {
    match k
    case Separator => 0
    case Pipes(_) => 1
    case Other(t) => if t == [] then 0 else 1
  }

  function ContentLines(ks: seq<LineKind>): nat
    decreases |ks|
  {
    if ks == [] then 0 else LineContent(ks[0]) + ContentLines(ks[1..])
  }

  function ContentCount(cs: seq<Chunk>): nat
    decreases |cs|
  {
    if cs == [] then 0 else (if cs[0].IsContent() then 1 else 0) + ContentCount(cs[1..])
  }

  lemma {:induction false} ContentCountAppend(a: seq<Chunk>, b: seq<Chunk>)
    ensures ContentCount(a + b) == ContentCount(a) + ContentCount(b)
    decreases |a|
  {
    if a != [] {
      assert (a + b)[0] == a[0];
      assert (a + b)[1..] == a[1..] + b;
      ContentCountAppend(a[1..], b);
    } else {
      assert a + b == b;
    }
  }

  lemma StepContent(inside: bool, k: LineKind)
    ensures ContentCount(Step(inside, k).1) == LineContent(k)
  {
    match k
    case Separator =>
    case Pipes(cells) =>
    case Other(t) =>
      var b := Block(t);
      ContentCountAppend(if inside then [TableEnd(true)] else [], b);
      if b != [] {
        assert b == [b[0]];
      }
  }

  /** Every non-blank, non-separator line yields exactly one row, heading, item or paragraph; no other line yields one. */
  lemma {:induction false} EveryContentLineRendered(inside: bool, ks: seq<LineKind>)
    ensures ContentCount(Scan(inside, ks)) == ContentLines(ks)
    decreases |ks|
  {
    if ks != [] {
      var (inside', cs) := Step(inside, ks[0]);
      EveryContentLineRendered(inside', ks[1..]);
      ContentCountAppend(cs, Scan(inside', ks[1..]));
      StepContent(inside, ks[0]);
    }
  }

  /** Separator rows produce nothing and leave the table state alone: inserting one anywhere changes nothing. */
  lemma {:induction false} SeparatorIgnored(inside: bool, before: seq<LineKind>, after: seq<LineKind>)
    ensures Scan(inside, before + [Separator] + after) == Scan(inside, before + after)
    decreases |before|
  {
    if before == [] {
      assert before + [Separator] + after == [Separator] + after && before + after == after;
      assert ([Separator] + after)[0] == Separator;
      assert ([Separator] + after)[1..] == after;
    } else {
      var (inside', cs) := Step(inside, before[0]);
      assert (before + [Separator] + after)[0] == before[0];
      assert (before + after)[0] == before[0];
      assert (before + [Separator] + after)[1..] == before[1..] + [Separator] + after;
      assert (before + after)[1..] == before[1..] + after;
      SeparatorIgnored(inside', before[1..], after);
    }
  }

  /** A blank line outside a table produces nothing; inside one it closes the table with a line break. */
  lemma BlankLine(inside: bool, after: seq<LineKind>)
    ensures Scan(inside, [Other([])] + after) == (if inside then [TableEnd(true)] else []) + Scan(false, after)
  {
    assert ([Other([])] + after)[0] == Other([]);
    assert ([Other([])] + after)[1..] == after;
  }

  /** A line whose stripped text is empty is blank, and one that is a separator row is a separator. */
  lemma ClassifyBlank(raw: string)
    requires Strip(RStrip(raw)) == []
    ensures Classify(raw) == Other([])
  {
  }

  /** Cells written between pipes are read back exactly, as long as they are stripped and pipe-free. */
  lemma RowCellsOfJoin(cells: seq<string>)
    requires cells != []
    requires forall k :: 0 <= k < |cells| ==> '|' !in cells[k]
    requires forall k :: 0 <= k < |cells| ==> cells[k] == [] || (!IsSpace(cells[k][0]) && !IsSpace(cells[k][|cells[k]| - 1]))
    ensures IsPipeRow("|" + Join("|", cells) + "|")
    ensures RowCells("|" + Join("|", cells) + "|") == cells
  {
    var t := "|" + Join("|", cells) + "|";
    JoinedRowSplit(cells);
    RowCellsCount(t, cells);
    forall k | 0 <= k < |cells| ensures RowCells(t)[k] == cells[k] {
      RowCellOfJoin(t, cells, k);
    }
  }

  lemma RowCellsCount(t: string, cells: seq<string>)
    requires IsPipeRow(t) && Split(t, '|') == [""] + cells + [""]
    ensures |RowCells(t)| == |cells|
  {
  }

  lemma RowCellOfJoin(t: string, cells: seq<string>, k: nat)
    requires IsPipeRow(t) && Split(t, '|') == [""] + cells + [""]
    requires k < |cells| && |RowCells(t)| == |cells|
    requires cells[k] == [] || (!IsSpace(cells[k][0]) && !IsSpace(cells[k][|cells[k]| - 1]))
    ensures RowCells(t)[k] == cells[k]
  {
    RowCellAt(t, k);
    assert Split(t, '|')[k + 1] == cells[k];
    StripUnpadded(cells[k]);
  }

  /** A row written with a pipe on each side splits into an empty piece, the cells, and an empty piece. */
  lemma JoinedRowSplit(cells: seq<string>)
    requires cells != []
    requires forall k :: 0 <= k < |cells| ==> '|' !in cells[k]
    ensures var t := "|" + Join("|", cells) + "|";
      IsPipeRow(t) && Split(t, '|') == [""] + cells + [""]
  {
    var t := "|" + Join("|", cells) + "|";
    PipeEnds(Join("|", cells));
    JoinOuter(cells);
    PaddedNoPipe(cells);
    SplitJoin([""] + cells + [""], '|');
  }

  /** A text with a pipe on each side is a pipe row. */
  lemma PipeEnds(body: string)
    ensures IsPipeRow("|" + body + "|")
  {
    var t := "|" + body + "|";
    assert t[..1] == "|";
    assert t[|t| - 1..] == "|";
  }

  /** Empty pieces around pipe-free cells leave every piece pipe-free. */
  lemma PaddedNoPipe(cells: seq<string>)
    requires forall k :: 0 <= k < |cells| ==> '|' !in cells[k]
    ensures var parts := [""] + cells + [""]; forall k :: 0 <= k < |parts| ==> '|' !in parts[k]
  {
    var parts := [""] + cells + [""];
    forall k | 0 <= k < |parts| ensures '|' !in parts[k] {
      if 0 < k < |parts| - 1 {
        assert parts[k] == cells[k - 1];
      }
    }
  }

  /** Joining with empty pieces on both sides puts a separator at each end. */
  lemma JoinOuter(cells: seq<string>)
    requires cells != []
    ensures Join("|", [""] + cells + [""]) == "|" + Join("|", cells) + "|"
  {
    JoinSnoc(cells, "");
    assert ([""] + cells + [""])[1..] == cells + [""];
  }

  lemma {:induction false} JoinSnoc(parts: seq<string>, last: string)
    requires parts != []
    ensures Join("|", parts + [last]) == Join("|", parts) + "|" + last
    decreases |parts|
  {
    if |parts| > 1 {
      assert (parts + [last])[1..] == parts[1..] + [last];
      JoinSnoc(parts[1..], last);
    } else {
      assert (parts + [last])[1..] == [last];
    }
  }

  /** A header row, a separator row and a body row make one complete table. */
  lemma SmallTable()
    ensures Scan(false, [Pipes(["Day", "Task"]), Separator, Pipes(["Mon", "Math"])])
         == [TableHead(["Day", "Task"]), TableRow(["Mon", "Math"]), TableEnd(false)]
  {
    var ks := [Pipes(["Day", "Task"]), Separator, Pipes(["Mon", "Math"])];
    assert ks[1..] == [Separator, Pipes(["Mon", "Math"])];
    assert ks[1..][1..] == [Pipes(["Mon", "Math"])];
    assert ks[1..][1..][1..] == [];
  }

  /** A line without surrounding whitespace is classified by its own text. */
  lemma ClassifyUnpadded(raw: string)
    requires raw != [] && !IsSpace(raw[0]) && !IsSpace(raw[|raw| - 1])
    ensures Classify(raw) == if IsSeparatorRow(raw) then Separator else if IsPipeRow(raw) then Pipes(RowCells(raw)) else Other(raw)
  {
    assert RStrip(raw) == raw;
    StripUnpadded(raw);
  }

  /** The separator row of that table is recognised as one. */
  lemma SeparatorExample()
    ensures Classify("|---|---|") == Separator
  {
    SeparatorRowExample();
    ClassifyUnpadded("|---|---|");
  }

  lemma SeparatorRowExample()
    ensures IsSeparatorRow("|---|---|")
  {
    assert "|---|---|"[1..] == "---|---|";
    DashesUnpadded();
    DashesAndPipes();
  }

  lemma DashesUnpadded()
    ensures LStrip("---|---|") == "---|---|"
  {
  }

  lemma DashesAndPipes()
    ensures forall i :: 1 <= i < |"---|---|"| ==> IsSeparatorChar("---|---|"[i])
  {
    var v := "---|---|";
    forall i | 1 <= i < |v| ensures IsSeparatorChar(v[i]) {
      assert v[i] in "-|";
    }
  }
}
