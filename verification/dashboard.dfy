/**
 * The dashboard's table parser: every line of the plan that looks like a
 * markdown table row with a numeric third column adds that many hours to the
 * subject in its second column; when no line does, a fixed fallback of three
 * subjects is shown instead.
 */
module Dashboard {
  import opened Common
  import opened Text
  import opened Dicts
  import opened Rounding

  /** One table row that counted: its subject (second cell) and hours (third cell). */
  datatype Entry = Entry(subject: string, hours: real)

  /** `{"Math": 6, "DBMS": 6, "AI": 6}`, shown when no row counted. */
  function FallbackHours(): (d: Dict<string, real>)
    ensures Valid(d) && d.keys == ["Math", "DBMS", "AI"]
    ensures forall k :: k in d.values ==> d.values[k] == 6.0
  {
    Dict(["Math", "DBMS", "AI"], map["Math" := 6.0, "DBMS" := 6.0, "AI" := 6.0])
  }

  // ---------------------------------------------------------------------------
  // Cells

  /** `[p.strip() for p in parts if p.strip()]`. */
  function NonBlankStripped(parts: seq<string>): (r: seq<string>)
    ensures |r| <= |parts|
    ensures forall i :: 0 <= i < |r| ==> r[i] != []
    decreases |parts|
  {
    if parts == [] then []
    else KeepNonBlank(Strip(parts[0]), NonBlankStripped(parts[1..]))
  }

  /** `[x] + rest` when `x` is not blank, otherwise `rest`. */
  function KeepNonBlank(x: string, rest: seq<string>): (r: seq<string>)
    requires forall i :: 0 <= i < |rest| ==> rest[i] != []
    ensures |r| <= |rest| + 1
    ensures forall i :: 0 <= i < |r| ==> r[i] != []
  {
    if x != [] then [x] + rest else rest
  }

  /** A blank part is dropped and a non-blank one kept, stripped, in its place. */
  lemma NonBlankStrippedCons(p: string, parts: seq<string>)
    ensures NonBlankStripped([p] + parts)
      == (if Strip(p) != [] then [Strip(p)] else []) + NonBlankStripped(parts)
  {
    assert ([p] + parts)[1..] == parts;
  }

  /** When no part is blank, every part is kept, stripped, in order. */
  lemma {:induction false} NonBlankStrippedKeepsAll(parts: seq<string>)
    requires forall j :: 0 <= j < |parts| ==> Strip(parts[j]) != []
    ensures |NonBlankStripped(parts)| == |parts|
    ensures forall j :: 0 <= j < |parts| ==> NonBlankStripped(parts)[j] == Strip(parts[j])
    decreases |parts|
  {
    if parts != [] {
      var rest := parts[1..];
      forall j | 0 <= j < |rest| ensures Strip(rest[j]) != [] {
        assert rest[j] == parts[j + 1];
      }
      NonBlankStrippedKeepsAll(rest);
      var tail := NonBlankStripped(rest);
      var r := NonBlankStripped(parts);
      assert r == [Strip(parts[0])] + tail;
      forall j | 0 <= j < |parts| ensures r[j] == Strip(parts[j]) {
        if j > 0 {
          assert r[j] == tail[j - 1] && rest[j - 1] == parts[j];
        }
      }
    }
  }

  /** The cells of a row: `[p.strip() for p in line.split("|") if p.strip()]`. */
  function Cells(line: string): seq<string> {
    NonBlankStripped(Split(line, '|'))
  }

  // ---------------------------------------------------------------------------
  // Numbers

  predicate AllDigits(s: string) {
    forall i :: 0 <= i < |s| ==> IsAsciiDigit(s[i])
  }

  /** The value of a string of decimal digits, the empty string counting as 0. */
  function DigitsValue(s: string): nat
    requires AllDigits(s)
    decreases |s|
  {
    if s == [] then 0 else 10 * DigitsValue(s[..|s| - 1]) + DigitValue(s[|s| - 1])
  }

  /** Digits written after other digits shift those left: `int(a + b) == int(a) * 10^len(b) + int(b)`. */
  lemma {:induction false} DigitsValueConcat(a: string, b: string)
    requires AllDigits(a) && AllDigits(b)
    ensures AllDigits(a + b)
    ensures DigitsValue(a + b) == DigitsValue(a) * Pow10(|b|) + DigitsValue(b)
    decreases |b|
  {
    AllDigitsConcat(a, b);
    if b == [] {
      assert a + b == a;
    } else {
      var init, last := b[..|b| - 1], b[|b| - 1];
      assert (a + b)[..|a + b| - 1] == a + init;
      assert (a + b)[|a + b| - 1] == last;
      DigitsValueConcat(a, init);
      ShiftDigit(DigitsValue(a), DigitsValue(init), Pow10(|init|), DigitValue(last));
    }
  }

  lemma AllDigitsConcat(a: string, b: string)
    requires AllDigits(a) && AllDigits(b)
    ensures AllDigits(a + b)
  {
    forall i | 0 <= i < |a + b| ensures IsAsciiDigit((a + b)[i]) {
      if i >= |a| { assert (a + b)[i] == b[i - |a|]; }
    }
  }

  /** The pieces of a string of digits are strings of digits. */
  lemma AllDigitsSlice(s: string, lo: nat, hi: nat)
    requires AllDigits(s) && lo <= hi <= |s|
    ensures AllDigits(s[lo..hi])
  {
    forall j | 0 <= j < hi - lo ensures IsAsciiDigit(s[lo..hi][j]) {
      assert s[lo..hi][j] == s[lo + j];
    }
  }

  /** One more digit `v` after the shifted digits: `10 * (x * p + y) + v == x * (10 * p) + (10 * y + v)`. */
  lemma ShiftDigit(x: int, y: int, p: int, v: int)
    ensures 10 * (x * p + y) + v == x * (10 * p) + (10 * y + v)
  {
  }

  /** `col3.replace(".", "", 1).isdigit()`: digits with at most one decimal point, and at least one digit. */
  predicate IsNumeral(s: string) {
    var t := RemoveFirst(s, '.');
    t != [] && AllDigits(t)
  }

  /** Where the decimal point of a numeral sits, as a split into whole and fractional digits. */
  function PointSplit(s: string): (p: (string, string))
    requires IsNumeral(s)
    ensures AllDigits(p.0) && AllDigits(p.1)
    ensures p.0 + p.1 == RemoveFirst(s, '.')
    ensures '.' !in s ==> p == (s, "")
    ensures '.' in s ==> s == p.0 + "." + p.1 && |p.0| == FirstIndex(s, '.')
  {
    if '.' !in s then (s, "")
    else
      var i := FirstIndex(s, '.');
      DigitsAroundPoint(s, i);
      assert s == s[..i] + [s[i]] + s[i + 1..];
      (s[..i], s[i + 1..])
  }

  /** The text before and after the first point of a numeral is digits, and together it is the numeral without its point. */
  lemma DigitsAroundPoint(s: string, i: nat)
    requires IsNumeral(s) && i < |s| && s[i] == '.'
    requires forall j :: 0 <= j < i ==> s[j] != '.'
    ensures RemoveFirst(s, '.') == s[..i] + s[i + 1..]
    ensures AllDigits(s[..i]) && AllDigits(s[i + 1..])
  {
    RemoveFirstAt(s, '.', i);
    var t := RemoveFirst(s, '.');
    AllDigitsSlice(t, 0, i);
    AllDigitsSlice(t, i, |t|);
    assert t[0..i] == s[..i];
    assert t[i..|t|] == s[i + 1..];
  }

  /** How many digits follow the decimal point of a numeral (0 without one). */
  function FractionDigits(s: string): nat
    requires IsNumeral(s)
  {
    |PointSplit(s).1|
  }

  /**
   * `float(col3)` for a numeral, as an exact decimal: the integer its digits
   * spell with the point removed, over `10^k` for `k` fraction digits.
   */
  function ParseFloat(s: string): (x: real)
    requires IsNumeral(s)
    ensures x >= 0.0
  {
    DigitsValue(RemoveFirst(s, '.')) as real / Pow10(FractionDigits(s)) as real
  }

  /** The value read is the whole part plus the fractional digits over `10^k`. */
  lemma ParseFloatDecimal(s: string)
    requires IsNumeral(s)
    ensures var p := PointSplit(s);
      ParseFloat(s) == DigitsValue(p.0) as real + DigitsValue(p.1) as real / Pow10(|p.1|) as real
  {
    var p := PointSplit(s);
    DigitsValueConcat(p.0, p.1);
    var n, w, f, q := DigitsValue(RemoveFirst(s, '.')), DigitsValue(p.0), DigitsValue(p.1), Pow10(|p.1|);
    DivideSplit(n, w, f, q);
    DecimalBack(s, n, w, f, q);
  }

  /** `(w * q + f) / q == w + f / q`. */
  lemma DivideSplit(n: nat, w: nat, f: nat, q: nat)
    requires q >= 1 && n == w * q + f
    ensures n as real / q as real == w as real + f as real / q as real
  {
    var qr := q as real;
    assert n as real == w as real * qr + f as real;
    assert (w as real * qr) / qr == w as real;
  }

  lemma DecimalBack(s: string, n: nat, w: nat, f: nat, q: nat)
    requires IsNumeral(s)
    requires var p := PointSplit(s);
      n == DigitsValue(RemoveFirst(s, '.')) && w == DigitsValue(p.0) && f == DigitsValue(p.1) && q == Pow10(|p.1|)
    requires n as real / q as real == w as real + f as real / q as real
    ensures var p := PointSplit(s);
      ParseFloat(s) == DigitsValue(p.0) as real + DigitsValue(p.1) as real / Pow10(|p.1|) as real
  {
  }

  /** A numeral without a point is read as the integer its digits spell. */
  lemma ParseWholeNumber(s: string)
    requires IsNumeral(s) && '.' !in s
    ensures ParseFloat(s) == DigitsValue(s) as real
  {
    WholeNumberParts(s);
    OverPow10Zero(DigitsValue(s) as real);
  }

  lemma WholeNumberParts(s: string)
    requires IsNumeral(s) && '.' !in s
    ensures RemoveFirst(s, '.') == s && FractionDigits(s) == 0
  {
    assert PointSplit(s) == (s, "");
  }

  lemma OverPow10Zero(x: real)
    ensures x / Pow10(0) as real == x
  {
    assert Pow10(0) == 1;
  }

  /** Every character of a numeral is a digit or its single decimal point. */
  lemma NumeralChars(s: string)
    requires IsNumeral(s)
    ensures forall i :: 0 <= i < |s| ==> IsAsciiDigit(s[i]) || s[i] == '.'
    ensures forall i, j :: 0 <= i < j < |s| && s[i] == '.' ==> s[j] != '.'
  {
    if '.' in s {
      var p := PointSplit(s);
      forall i | 0 <= i < |s| ensures IsAsciiDigit(s[i]) || s[i] == '.' {
        NumeralCharAt(s, p.0, p.1, i);
      }
      forall i, j | 0 <= i < j < |s| && s[i] == '.' ensures s[j] != '.' {
        NumeralCharAt(s, p.0, p.1, i);
        NumeralCharAt(s, p.0, p.1, j);
      }
    } else {
      assert RemoveFirst(s, '.') == s;
    }
  }

  /** Character `i` of `w + "." + f`: a digit of `w`, the point, or a digit of `f`. */
  lemma NumeralCharAt(s: string, w: string, f: string, i: nat)
    requires s == w + "." + f && AllDigits(w) && AllDigits(f) && i < |s|
    ensures i < |w| ==> IsAsciiDigit(s[i])
    ensures i == |w| ==> s[i] == '.'
    ensures i > |w| ==> IsAsciiDigit(s[i])
  {
    if i < |w| {
      assert s[i] == w[i];
    } else if i > |w| {
      assert s[i] == f[i - |w| - 1];
    }
  }

  // ---------------------------------------------------------------------------
  // Rows

  /** The entry a plan line contributes, if it is a table row with numeric hours in its third cell. */
  function ParseRow(line: string): (r: Option<Entry>)
    ensures r.Some? ==> '|' in line && r.value.subject != [] && r.value.hours >= 0.0
  {
    if '|' !in line then None
    else
      var cells := Cells(line);
      if |cells| < 3 then None
      else if !IsNumeral(cells[2]) then None
      else
        Some(Entry(cells[1], ParseFloat(cells[2])))
  }

  /** A row whose third cell holds anything but digits and one point (a header, a `---` rule) is skipped. */
  lemma NonNumericThirdCellSkipped(line: string, i: nat)
    requires |Cells(line)| >= 3 && i < |Cells(line)[2]|
    requires !IsAsciiDigit(Cells(line)[2][i]) && Cells(line)[2][i] != '.'
    ensures ParseRow(line) == None
  {
    if IsNumeral(Cells(line)[2]) {
      NumeralChars(Cells(line)[2]);
      assert false;
    }
  }

  /** A markdown table row of three cells, `| a | b | c |`. */
  function TableLine(a: string, b: string, c: string): string {
    "| " + a + " | " + b + " | " + c + " |"
  }

  /** A cell text with no pipe and no whitespace at either end. */
  predicate PlainCell(x: string) {
    x != [] && '|' !in x && !IsSpace(x[0]) && !IsSpace(x[|x| - 1])
  }

  /** The cells of a well-formed three-cell row are its three cell texts. */
  lemma TableLineCells(a: string, b: string, c: string)
    requires PlainCell(a) && PlainCell(b) && PlainCell(c)
    ensures Cells(TableLine(a, b, c)) == [a, b, c]
  {
    TableLineSplit(a, b, c);
    StripPadded(a);
    StripPadded(b);
    StripPadded(c);
    PaddedCells(" " + a + " ", " " + b + " ", " " + c + " ", a, b, c);
  }

  lemma TableLineSplit(a: string, b: string, c: string)
    requires PlainCell(a) && PlainCell(b) && PlainCell(c)
    ensures Split(TableLine(a, b, c), '|') == ["", " " + a + " ", " " + b + " ", " " + c + " ", ""]
  {
    var pa, pb, pc := " " + a + " ", " " + b + " ", " " + c + " ";
    var parts := ["", pa, pb, pc, ""];
    assert Join("|", parts) == TableLine(a, b, c) by {
      assert Join("|", parts[4..]) == "";
      assert Join("|", parts[3..]) == pc + "|";
      assert Join("|", parts[2..]) == pb + "|" + pc + "|";
      assert Join("|", parts[1..]) == pa + "|" + pb + "|" + pc + "|";
    }
    assert '|' !in pa && '|' !in pb && '|' !in pc;
    SplitJoin(parts, '|');
  }

  lemma PaddedCells(pa: string, pb: string, pc: string, a: string, b: string, c: string)
    requires Strip(pa) == a && Strip(pb) == b && Strip(pc) == c && a != [] && b != [] && c != []
    ensures NonBlankStripped(["", pa, pb, pc, ""]) == [a, b, c]
  {
    var l3 := [pb] + ([pc] + ([""] + []));
    var l4 := [pa] + l3;
    PaddedLastTwo(pb, pc, b, c);
    ConsKept(pa, l3, [b, c]);
    FiveConses("", pa, pb, pc, "");
    LeadingEmptyDropped(["", pa, pb, pc, ""], l4, a, [b, c]);
    ConsThree(a, b, c);
  }

  /** A list that is an empty piece followed by `parts` has the cells of `parts`. */
  lemma LeadingEmptyDropped(whole: seq<string>, parts: seq<string>, x: string, rest: seq<string>)
    requires whole == [""] + parts && NonBlankStripped(parts) == [x] + rest
    ensures NonBlankStripped(whole) == [x] + rest
  {
    EmptyPieceDropped(parts, [x] + rest);
  }

  lemma ConsThree<T>(a: T, b: T, c: T)
    ensures [a] + [b, c] == [a, b, c]
  {
  }

  lemma PaddedLastTwo(pb: string, pc: string, b: string, c: string)
    requires Strip(pb) == b && Strip(pc) == c && b != [] && c != []
    ensures NonBlankStripped([pb] + ([pc] + ([""] + []))) == [b, c]
  {
    PaddedLast(pc, c);
    ConsKept(pb, [pc] + ([""] + []), [c]);
  }

  /** The last padded cell and the empty piece after the closing pipe. */
  lemma PaddedLast(pc: string, c: string)
    requires Strip(pc) == c && c != []
    ensures NonBlankStripped([pc] + ([""] + [])) == [c]
  {
    EmptyPieceDropped([], []);
    ConsKept(pc, [""] + [], []);
  }

  /** The empty piece before an opening or after a closing pipe adds no cell. */
  lemma EmptyPieceDropped(parts: seq<string>, tail: seq<string>)
    requires NonBlankStripped(parts) == tail
    ensures NonBlankStripped([""] + parts) == tail
  {
    assert Strip("") == [];
    ConsDropped("", parts, tail);
  }

  lemma FiveConses<T>(x0: T, x1: T, x2: T, x3: T, x4: T)
    ensures [x0] + ([x1] + ([x2] + ([x3] + ([x4] + [])))) == [x0, x1, x2, x3, x4]
  {
  }

  /** A part that is not blank is kept, stripped, in front of the cells of the rest. */
  lemma ConsKept(p: string, parts: seq<string>, tail: seq<string>)
    requires NonBlankStripped(parts) == tail && Strip(p) != []
    ensures NonBlankStripped([p] + parts) == [Strip(p)] + tail
  {
    NonBlankStrippedCons(p, parts);
  }

  /** A blank part adds no cell. */
  lemma ConsDropped(p: string, parts: seq<string>, tail: seq<string>)
    requires NonBlankStripped(parts) == tail && Strip(p) == []
    ensures NonBlankStripped([p] + parts) == tail
  {
    NonBlankStrippedCons(p, parts);
  }

  /** A row whose third cell is a numeral is read as that subject and that many hours. */
  lemma DataRowRead(a: string, b: string, c: string)
    requires PlainCell(a) && PlainCell(b) && PlainCell(c) && IsNumeral(c)
    ensures ParseRow(TableLine(a, b, c)) == Some(Entry(b, ParseFloat(c)))
  {
    TableLineCells(a, b, c);
    assert TableLine(a, b, c)[0] == '|';
  }

  /** A header row such as `| Day | Subject | Hours |`, whose third cell is no numeral, is skipped. */
  lemma HeaderRowSkipped(a: string, b: string, c: string)
    requires PlainCell(a) && PlainCell(b) && PlainCell(c) && !IsNumeral(c)
    ensures ParseRow(TableLine(a, b, c)) == None
  {
    TableLineCells(a, b, c);
  }

  /** `float("2.5") == 2.5`. */
  lemma ParseFloatExample()
    ensures IsNumeral("2.5") && ParseFloat("2.5") == 2.5
  {
    assert RemoveFirst("2.5", '.') == "25" by {
      RemoveFirstAt("2.5", '.', 1);
      assert "2.5"[..1] == "2" && "2.5"[2..] == "5";
    }
    assert FirstIndex("2.5", '.') == 1;
    assert PointSplit("2.5").1 == "5";
    assert DigitsValue("25") == 25 by {
      assert "25"[..1] == "2";
    }
    assert Pow10(1) == 10;
  }

  /** The entries of the lines that count, in order. */
  function Entries(lines: seq<string>): (es: seq<Entry>)
    ensures |es| <= |lines|
    decreases |lines|
  {
    if lines == [] then []
    else
      var init := Entries(lines[..|lines| - 1]);
      match ParseRow(lines[|lines| - 1])
      case Some(e) => init + [e]
      case None => init
  }

  /** No entries exactly when no line counts. */
  lemma {:induction false} EntriesEmpty(lines: seq<string>)
    ensures Entries(lines) == [] <==> forall k :: 0 <= k < |lines| ==> ParseRow(lines[k]) == None
    decreases |lines|
  {
    if lines != [] {
      var init := lines[..|lines| - 1];
      EntriesEmpty(init);
      assert forall k :: 0 <= k < |init| ==> init[k] == lines[k];
    }
  }

  /** One more line adds its entry, if it has one, at the end. */
  lemma EntriesPrefix(lines: seq<string>, i: nat)
    requires i < |lines|
    ensures ParseRow(lines[i]).None? ==> Entries(lines[..i + 1]) == Entries(lines[..i])
    ensures ParseRow(lines[i]).Some? ==> Entries(lines[..i + 1]) == Entries(lines[..i]) + [ParseRow(lines[i]).value]
  {
    assert lines[..i + 1][..i] == lines[..i];
  }

  // ---------------------------------------------------------------------------
  // Totals

  /** `subjects[subject] = subjects.get(subject, 0) + hours`. */
  function AddEntry(d: Dict<string, real>, e: Entry): (r: Dict<string, real>)
    requires Valid(d)
    ensures Valid(r)
  {
    Put(d, e.subject, GetOr(d, e.subject, 0.0) + e.hours)
  }

  /** The accumulated hours per subject after the given entries, in first-seen order. */
  function Totals(es: seq<Entry>): (d: Dict<string, real>)
    ensures Valid(d)
    decreases |es|
  {
    if es == [] then Empty() else AddEntry(Totals(es[..|es| - 1]), es[|es| - 1])
  }

  lemma TotalsSnoc(es: seq<Entry>, e: Entry)
    ensures Totals(es + [e]) == AddEntry(Totals(es), e)
  {
    assert (es + [e])[..|es|] == es;
  }

  function Subjects(es: seq<Entry>): (ss: seq<string>)
    ensures |ss| == |es| && forall i :: 0 <= i < |es| ==> ss[i] == es[i].subject
  {
    seq(|es|, i requires 0 <= i < |es| => es[i].subject)
  }

  /** The hours of the entries for `subject`, in order. */
  function HoursFor(es: seq<Entry>, subject: string): seq<real>
    decreases |es|
  {
    if es == [] then []
    else
      var init := HoursFor(es[..|es| - 1], subject);
      if es[|es| - 1].subject == subject then init + [es[|es| - 1].hours] else init
  }

  /**
   * The totals list each subject once, in the order it first appears, and
   * hold for it the sum of all its entries' hours.
   */
  lemma {:induction false} TotalsAreSums(es: seq<Entry>)
    ensures TotalsAreSumsOf(es)
    decreases |es|
  {
    if es == [] {
    } else {
      var init := es[..|es| - 1];
      var e := es[|es| - 1];
      TotalsAreSums(init);
      assert es == init + [e];
      TotalsStep(init, e);
    }
  }

  /** The totals list each subject seen once, in first-seen order, with the sum of its hours. */
  ghost predicate TotalsAreSumsOf(es: seq<Entry>) {
    && Totals(es).keys == Dedup(Subjects(es))
    && (forall k :: k in Totals(es).values <==> k in Subjects(es))
    && (forall k :: k in Totals(es).values ==> Totals(es).values[k] == Sum(HoursFor(es, k)))
  }

  /** Adding one entry keeps the totals the sums of the entries' hours. */
  lemma TotalsStep(init: seq<Entry>, e: Entry)
    requires TotalsAreSumsOf(init)
    ensures TotalsAreSumsOf(init + [e])
  {
    var es := init + [e];
    TotalsSnoc(init, e);
    SubjectsSnoc(init, e);
    DedupSnoc(Subjects(init), e.subject);
    var r := Totals(es);
    forall k | k in r.values ensures r.values[k] == Sum(HoursFor(es, k)) {
      TotalsStepAt(init, e, k);
    }
  }

  /** The total of one subject after one more entry. */
  lemma TotalsStepAt(init: seq<Entry>, e: Entry, k: string)
    requires TotalsAreSumsOf(init)
    requires k in Totals(init + [e]).values
    ensures Totals(init + [e]).values[k] == Sum(HoursFor(init + [e], k))
  {
    var es := init + [e];
    var d := Totals(init);
    TotalsSnoc(init, e);
    HoursForSnoc(init, e, k);
    if k == e.subject {
      if k in d.values {
        SumSnoc(HoursFor(init, k), e.hours);
      } else {
        HoursForAbsent(init, k);
        SumSnoc([], e.hours);
      }
    }
  }

  lemma HoursForSnoc(init: seq<Entry>, e: Entry, k: string)
    ensures HoursFor(init + [e], k) == if e.subject == k then HoursFor(init, k) + [e.hours] else HoursFor(init, k)
  {
    assert (init + [e])[..|init|] == init;
  }

  lemma SumSnoc(xs: seq<real>, x: real)
    ensures Sum(xs + [x]) == Sum(xs) + x
  {
    assert (xs + [x])[..|xs|] == xs;
  }

  lemma SubjectsSnoc(init: seq<Entry>, e: Entry)
    ensures Subjects(init + [e]) == Subjects(init) + [e.subject]
  {
    var a, b := Subjects(init + [e]), Subjects(init) + [e.subject];
    forall i | 0 <= i < |a| ensures a[i] == b[i] {
      if i < |init| { assert (init + [e])[i] == init[i]; }
    }
  }

  /** A subject with no entry has no hours. */
  lemma {:induction false} HoursForAbsent(es: seq<Entry>, subject: string)
    requires subject !in Subjects(es)
    ensures HoursFor(es, subject) == []
    decreases |es|
  {
    if es != [] {
      var init := es[..|es| - 1];
      assert es == init + [es[|es| - 1]];
      SubjectsSnoc(init, es[|es| - 1]);
      HoursForAbsent(init, subject);
    }
  }

  /** Deduplicating a list with one more element at the end. */
  lemma DedupSnoc(xs: seq<string>, x: string)
    ensures x in xs ==> Dedup(xs + [x]) == Dedup(xs)
    ensures x !in xs ==> Dedup(xs + [x]) == Dedup(xs) + [x]
  {
    assert (xs + [x])[..|xs|] == xs;
  }

  // ---------------------------------------------------------------------------
  // The parser

  /** The subject hours the dashboard charts for a plan: never an empty chart, never a negative bar. */
  function DashboardHours(raw: string): (d: Dict<string, real>)
    ensures Valid(d) && d.keys != []
    ensures forall k :: k in d.values ==> d.values[k] >= 0.0
  {
    var es := Entries(SplitLines(raw));
    EntriesNonNegative(SplitLines(raw));
    TotalsNonNegative(es);
    var totals := Totals(es);
    if totals.keys == [] then FallbackHours() else totals
  }

  /** Every counted row has a non-negative number of hours. */
  lemma {:induction false} EntriesNonNegative(lines: seq<string>)
    ensures forall i :: 0 <= i < |Entries(lines)| ==> Entries(lines)[i].hours >= 0.0
    decreases |lines|
  {
    if lines != [] {
      EntriesNonNegative(lines[..|lines| - 1]);
    }
  }

  /** Adding up non-negative hours gives non-negative totals. */
  lemma {:induction false} TotalsNonNegative(es: seq<Entry>)
    requires forall i :: 0 <= i < |es| ==> es[i].hours >= 0.0
    ensures forall k :: k in Totals(es).values ==> Totals(es).values[k] >= 0.0
    decreases |es|
  {
    if es != [] {
      var init := es[..|es| - 1];
      assert forall i :: 0 <= i < |init| ==> init[i] == es[i];
      TotalsNonNegative(init);
    }
  }

  /** When no line of the plan counts, the fallback is shown. */
  lemma FallbackWhenNoRow(raw: string)
    requires forall k :: 0 <= k < |SplitLines(raw)| ==> ParseRow(SplitLines(raw)[k]) == None
    ensures DashboardHours(raw) == FallbackHours()
  {
    EntriesEmpty(SplitLines(raw));
  }

  /**
   * When some line counts, the parsed totals are shown, never the fallback
   * (even if they happen to equal it), and that line's subject is among them.
   */
  lemma TotalsWhenSomeRow(raw: string, k: nat)
    requires k < |SplitLines(raw)|
    ensures ParseRow(SplitLines(raw)[k]).Some? ==>
      && DashboardHours(raw) == Totals(Entries(SplitLines(raw)))
      && ParseRow(SplitLines(raw)[k]).value.subject in DashboardHours(raw).values
  {
    var lines := SplitLines(raw);
    if ParseRow(lines[k]).Some? {
      var es := Entries(lines);
      var i := EntryPosition(lines, k);
      TotalsAreSums(es);
      assert Subjects(es)[i] == es[i].subject;
    }
  }

  /** The entry of a line that counts is among the entries, at the returned position. */
  lemma EntriesContain(lines: seq<string>, k: nat) returns (i: nat)
    requires k < |lines|
    ensures ParseRow(lines[k]).Some? ==> i < |Entries(lines)| && Entries(lines)[i] == ParseRow(lines[k]).value
  {
    i := 0;
    if ParseRow(lines[k]).Some? {
      i := EntryPosition(lines, k);
    }
  }

  /** The position among the entries of the entry of a line that counts. */
  lemma {:induction false} EntryPosition(lines: seq<string>, k: nat) returns (i: nat)
    requires k < |lines| && ParseRow(lines[k]).Some?
    ensures i < |Entries(lines)| && Entries(lines)[i] == ParseRow(lines[k]).value
    decreases |lines|
  {
    var n := |lines| - 1;
    var init := lines[..n];
    var es, ei := Entries(lines), Entries(init);
    EntriesLast(lines);
    if k < n {
      assert init[k] == lines[k];
      i := EntryPosition(init, k);
      PrefixIndex(ei, es, i);
    } else {
      i := |es| - 1;
    }
  }

  /** The entries of all but the last line are a prefix; the last line adds its own entry, if any. */
  lemma EntriesLast(lines: seq<string>)
    requires lines != []
    ensures Entries(lines[..|lines| - 1]) <= Entries(lines)
    ensures ParseRow(lines[|lines| - 1]).Some? ==>
      Entries(lines) == Entries(lines[..|lines| - 1]) + [ParseRow(lines[|lines| - 1]).value]
  {
    var init := Entries(lines[..|lines| - 1]);
    match ParseRow(lines[|lines| - 1])
    case Some(e) =>
      assert Entries(lines) == init + [e];
    case None =>
      assert Entries(lines) == init;
  }

  lemma PrefixIndex(a: seq<Entry>, b: seq<Entry>, i: nat)
    requires a <= b && i < |a|
    ensures i < |b| && b[i] == a[i]
  {
  }

  /** An empty plan text, as left behind by a failed request, holds no rows and shows the fallback. */
  lemma EmptyPlanFallback()
    ensures DashboardHours("") == FallbackHours()
  {
  }

  /**
   * The dashboard parser: `for line in raw.splitlines()`, skipping lines that
   * do not count, then the fallback.
   */
  method ParseDashboardHours(raw: string) returns (subjects: Dict<string, real>)
    ensures subjects == DashboardHours(raw)
  {
    subjects := AccumulateHours(SplitLines(raw));
    if subjects.keys == [] {
      subjects := FallbackHours();
    }
  }

  /** The loop: each line that counts adds its hours to its subject. */
  method AccumulateHours(lines: seq<string>) returns (subjects: Dict<string, real>)
    ensures subjects == Totals(Entries(lines))
  {
    subjects := Empty();
    var i := 0;
    while i < |lines|
      invariant 0 <= i <= |lines|
      invariant subjects == Totals(Entries(lines[..i]))
    {
      EntriesPrefix(lines, i);
      var row := ParseRow(lines[i]);
      if row.Some? {
        TotalsSnoc(Entries(lines[..i]), row.value);
        subjects := AddEntry(subjects, row.value);
      }
      i := i + 1;
    }
    assert lines[..i] == lines;
  }
}
