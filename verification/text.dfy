/**
 * The string operations the program relies on, over `seq<char>`: whitespace
 * stripping, searching, splitting, joining and line splitting.  Each follows
 * the Python `str` method of the same purpose.
 */
module Text {

  /**
   * Python's `str.isspace` for one character: tab to carriage return, the four
   * information separators, space, NEL, no-break space, and the Unicode spaces
   * and line/paragraph separators.
   */
  predicate IsSpace(c: char) {
    || c == ' '
    || '\t' <= c <= '\r'
    || '\U{001C}' <= c <= '\U{001F}'
    || c == '\U{0085}' || c == '\U{00A0}' || c == '\U{1680}'
    || '\U{2000}' <= c <= '\U{200A}'
    || c == '\U{2028}' || c == '\U{2029}' || c == '\U{202F}' || c == '\U{205F}' || c == '\U{3000}'
  }

  /**
   * The characters at which Python's `str.splitlines` ends a line: line feed to
   * carriage return, the file, group and record separators, NEL, and the
   * Unicode line and paragraph separators.
   */
  predicate IsLineBreak(c: char) {
    || '\n' <= c <= '\r'
    || '\U{001C}' <= c <= '\U{001E}'
    || c == '\U{0085}' || c == '\U{2028}' || c == '\U{2029}'
  }

  predicate IsAsciiLetter(c: char) {
    'a' <= c <= 'z' || 'A' <= c <= 'Z'
  }

  predicate IsAsciiDigit(c: char) {
    '0' <= c <= '9'
  }

  /** The digit character of a number below ten. */
  function DigitChar(n: int): (c: char)
    requires 0 <= n < 10
    ensures IsAsciiDigit(c)
  {
    ('0' as int + n) as char
  }

  /** The number a digit character stands for; `DigitChar` undoes it. */
  function DigitValue(c: char): (n: nat)
    requires IsAsciiDigit(c)
    ensures n < 10 && DigitChar(n) == c
  {
    c as int - '0' as int
  }

  /** `s.lstrip()`: the suffix left after dropping leading whitespace. */
  function LStrip(s: string): (r: string)
    ensures |r| <= |s| && r == s[|s| - |r|..]
    ensures forall i :: 0 <= i < |s| - |r| ==> IsSpace(s[i])
    ensures r == [] || !IsSpace(r[0])
    decreases |s|
  {
    if s != [] && IsSpace(s[0]) then LStrip(s[1..]) else s
  }

  /** `s.rstrip()`: the prefix left after dropping trailing whitespace. */
  function RStrip(s: string): (r: string)
    ensures |r| <= |s| && r == s[..|r|]
    ensures forall i :: |r| <= i < |s| ==> IsSpace(s[i])
    ensures r == [] || !IsSpace(r[|r| - 1])
    decreases |s|
  {
    if s != [] && IsSpace(s[|s| - 1]) then RStrip(s[..|s| - 1]) else s
  }

  /** `s.strip()`: a contiguous piece of `s` with whitespace on neither end. */
  function Strip(s: string): (r: string)
    ensures |r| <= |s|
    ensures r == [] || (!IsSpace(r[0]) && !IsSpace(r[|r| - 1]))
    ensures exists a, b ::
      && 0 <= a <= b <= |s| && r == s[a..b]
      && (forall j :: 0 <= j < a ==> IsSpace(s[j]))
      && (forall j :: b <= j < |s| ==> IsSpace(s[j]))
  {
    var l := LStrip(s);
    var r := RStrip(l);
    TrimmedInfix(s, l, r);
    r
  }

  /**
   * A whitespace-only prefix cut, then a whitespace-only suffix cut, leave an
   * infix with whitespace around it and on neither of its ends.
   */
  lemma TrimmedInfix(s: string, l: string, r: string)
    requires |l| <= |s| && l == s[|s| - |l|..] && forall i :: 0 <= i < |s| - |l| ==> IsSpace(s[i])
    requires l == [] || !IsSpace(l[0])
    requires |r| <= |l| && r == l[..|r|] && forall i :: |r| <= i < |l| ==> IsSpace(l[i])
    requires r == [] || !IsSpace(r[|r| - 1])
    ensures r == [] || (!IsSpace(r[0]) && !IsSpace(r[|r| - 1]))
    ensures exists a, b ::
      && 0 <= a <= b <= |s| && r == s[a..b]
      && (forall j :: 0 <= j < a ==> IsSpace(s[j]))
      && (forall j :: b <= j < |s| ==> IsSpace(s[j]))
  {
    assert r == [] || r[0] == l[0];
    var a, b := |s| - |l|, |s| - |l| + |r|;
    assert r == s[a..b];
    assert forall j :: b <= j < |s| ==> s[j] == l[j - a];
  }

  predicate StartsWith(s: string, prefix: string) {
    |prefix| <= |s| && s[..|prefix|] == prefix
  }

  predicate EndsWith(s: string, suffix: string) {
    |suffix| <= |s| && s[|s| - |suffix|..] == suffix
  }

  /** `pat` occurs in `s` starting at index `i`. */
  predicate OccursAt(s: string, pat: string, i: int) {
    0 <= i && i + |pat| <= |s| && s[i..i + |pat|] == pat
  }

  /** Python's `pat in s`. */
  predicate Contains(s: string, pat: string) {
    exists i :: 0 <= i <= |s| && OccursAt(s, pat, i)
  }

  /** `s.find(pat, i)`: the first occurrence at or after `i`, or -1. */
  function FindFrom(s: string, pat: string, i: nat): (r: int)
    ensures r == -1 || (i <= r && OccursAt(s, pat, r))
    ensures forall j :: i <= j && (r == -1 || j < r) ==> !OccursAt(s, pat, j)
    decreases |s| + 1 - i
  {
    if i > |s| then -1
    else if OccursAt(s, pat, i) then i
    else FindFrom(s, pat, i + 1)
  }

  /** `s.find(c, i)` for a one-character `c`: the first index at or after `i` holding `c`, or -1. */
  lemma FindFromChar(s: string, c: char, i: nat)
    ensures var r := FindFrom(s, [c], i);
      && (r == -1 || (i <= r < |s| && s[r] == c))
      && forall j :: i <= j < |s| && (r == -1 || j < r) ==> s[j] != c
  {
    var r := FindFrom(s, [c], i);
    if r != -1 {
      assert s[r..r + 1] == [c];
    }
    forall j | i <= j < |s| && (r == -1 || j < r) ensures s[j] != c {
      assert !OccursAt(s, [c], j);
      assert s[j..j + 1] == [s[j]];
    }
  }

  /** `s.find(pat)`: the index of the first occurrence of `pat`, or -1 when there is none. */
  function Find(s: string, pat: string): (r: int)
    ensures r == -1 <==> !Contains(s, pat)
    ensures r != -1 ==> 0 <= r && OccursAt(s, pat, r)
    ensures forall j :: 0 <= j && (r == -1 || j < r) ==> !OccursAt(s, pat, j)
  {
    FindFrom(s, pat, 0)
  }

  /** The lower-case letter for an ASCII capital; every other character is kept. */
  function LowerChar(c: char): char {
    if 'A' <= c <= 'Z' then (c as int - 'A' as int + 'a' as int) as char else c
  }

  /** `s.lower()` restricted to ASCII capitals. */
  function Lower(s: string): (r: string)
    ensures |r| == |s|
    ensures forall i :: 0 <= i < |s| ==> r[i] == LowerChar(s[i])
  {
    seq(|s|, i requires 0 <= i < |s| => LowerChar(s[i]))
  }

  /** The number of times `c` occurs in `s`. */
  function CountChar(s: string, c: char): nat
    decreases |s|
  {
    if s == [] then 0 else (if s[0] == c then 1 else 0) + CountChar(s[1..], c)
  }

  /** `s.split(sep)` for a one-character separator: the pieces between separators. */
  function Split(s: string, sep: char): (parts: seq<string>)
    ensures |parts| == CountChar(s, sep) + 1
    ensures forall k :: 0 <= k < |parts| ==> sep !in parts[k]
    decreases |s|
  {
    if sep !in s then
      assert CountChar(s, sep) == 0 by { NotInCountZero(s, sep); }
      [s]
    else
      var i := FindFrom(s, [sep], 0);
      assert OccursAt(s, [sep], i) by { InFind(s, sep); }
      assert s[i] == sep;
      assert forall j :: 0 <= j < i ==> s[j] != sep by {
        forall j | 0 <= j < i ensures s[j] != sep {
          assert !OccursAt(s, [sep], j);
          assert s[j..j + 1] == [s[j]];
        }
      }
      assert sep !in s[..i];
      CountCharSplit(s, sep, i);
      [s[..i]] + Split(s[i + 1..], sep)
  }

  lemma {:induction false} NotInCountZero(s: string, c: char)
    requires c !in s
    ensures CountChar(s, c) == 0
    decreases |s|
  {
    if s != [] {
      assert c !in s[1..];
      NotInCountZero(s[1..], c);
    }
  }

  /** A character that occurs in `s` is found by a search for it. */
  lemma InFind(s: string, c: char)
    requires c in s
    ensures FindFrom(s, [c], 0) != -1
  {
    var i :| 0 <= i < |s| && s[i] == c;
    assert s[i..i + 1] == [c];
    assert OccursAt(s, [c], i);
  }

  /** Counting splits at the first separator, which the prefix before it does not contain. */
  lemma {:induction false} CountCharSplit(s: string, c: char, i: nat)
    requires i < |s| && s[i] == c
    requires forall j :: 0 <= j < i ==> s[j] != c
    ensures CountChar(s, c) == 1 + CountChar(s[i + 1..], c)
    decreases i
  {
    if i > 0 {
      CountCharSplit(s[1..], c, i - 1);
      assert s[1..][i..] == s[i + 1..];
    } else {
      assert s[1..] == s[i + 1..];
    }
  }

  /** `sep.join(parts)`. */
  function Join(sep: string, parts: seq<string>): string
    decreases |parts|
  {
    if parts == [] then ""
    else if |parts| == 1 then parts[0]
    else parts[0] + sep + Join(sep, parts[1..])
  }

  /** Joining two non-empty lists of pieces is joining each and putting a separator between. */
  lemma {:induction false} JoinConcat(sep: string, a: seq<string>, b: seq<string>)
    requires a != [] && b != []
    ensures Join(sep, a + b) == Join(sep, a) + sep + Join(sep, b)
    decreases |a|
  {
    if |a| == 1 {
      assert (a + b)[0] == a[0] && (a + b)[1..] == b;
    } else {
      assert (a + b)[0] == a[0] && (a + b)[1..] == a[1..] + b;
      JoinConcat(sep, a[1..], b);
    }
  }

  /** Splitting at a separator and joining with it again gives back the original string. */
  lemma {:induction false} JoinSplit(s: string, sep: char)
    ensures Join([sep], Split(s, sep)) == s
    decreases |s|
  {
    if sep in s {
      var i := FindFrom(s, [sep], 0);
      InFind(s, sep);
      assert s[i..i + 1] == [sep];
      JoinSplit(s[i + 1..], sep);
      assert s == s[..i] + [sep] + s[i + 1..];
    }
  }

  /** Joining pieces free of the separator and splitting again gives the pieces back. */
  lemma {:induction false} SplitJoin(parts: seq<string>, sep: char)
    requires parts != [] && forall k :: 0 <= k < |parts| ==> sep !in parts[k]
    ensures Split(Join([sep], parts), sep) == parts
    decreases |parts|
  {
    if |parts| > 1 {
      var p := parts[0];
      var rest := Join([sep], parts[1..]);
      assert Join([sep], parts) == p + [sep] + rest;
      SplitAtFirst(p, rest, sep);
      SplitJoin(parts[1..], sep);
      assert parts == [p] + parts[1..];
    }
  }

  /** Splitting cuts at the first separator. */
  lemma SplitAtFirst(p: string, rest: string, sep: char)
    requires sep !in p
    ensures Split(p + [sep] + rest, sep) == [p] + Split(rest, sep)
  {
    var s := p + [sep] + rest;
    FindFromChar(s, sep, 0);
    assert s[|p|] == sep;
    assert forall j :: 0 <= j < |p| ==> s[j] == p[j];
    assert FindFrom(s, [sep], 0) == |p|;
    assert s[..|p|] == p && s[|p| + 1..] == rest;
  }

  /** A string with no whitespace at either end is its own strip. */
  lemma StripUnpadded(s: string)
    requires s == [] || (!IsSpace(s[0]) && !IsSpace(s[|s| - 1]))
    ensures Strip(s) == s
  {
  }

  /** Where the line starting at index 0 of `s` ends: the first line break, or `|s|`. */
  function LineEnd(s: string): (e: nat)
    ensures e <= |s|
    ensures e < |s| ==> IsLineBreak(s[e])
    ensures forall j :: 0 <= j < e ==> !IsLineBreak(s[j])
    decreases |s|
  {
    if s == [] || IsLineBreak(s[0]) then 0 else 1 + LineEnd(s[1..])
  }

  /** Where the line after the break at `e` starts: `\r\n` is one break. */
  function NextLineStart(s: string, e: nat): (n: nat)
    requires e < |s|
    ensures e < n <= |s|
    ensures n == e + 1 || (n == e + 2 && s[e] == '\r' && s[e + 1] == '\n')
  {
    if s[e] == '\r' && e + 1 < |s| && s[e + 1] == '\n' then e + 2 else e + 1
  }

  /** `s.splitlines()`: the lines of `s` without their terminators; `\r\n` ends one line. */
  function SplitLines(s: string): (lines: seq<string>)
    ensures lines == [] <==> s == []
    decreases |s|
  {
    if s == [] then []
    else
      var e := LineEnd(s);
      if e == |s| then [s]
      else
        [s[..e]] + SplitLines(s[NextLineStart(s, e)..])
  }

  /** A string holding no line break. */
  predicate NoLineBreak(t: string) {
    forall j :: 0 <= j < |t| ==> !IsLineBreak(t[j])
  }

  /** No line holds a line break: the breaks are exactly what was cut out. */
  lemma {:induction false} SplitLinesHaveNoBreaks(s: string)
    ensures forall k :: 0 <= k < |SplitLines(s)| ==> NoLineBreak(SplitLines(s)[k])
    decreases |s|
  {
    if s != [] {
      var e := LineEnd(s);
      FirstLineNoBreak(s);
      if e < |s| {
        var next := NextLineStart(s, e);
        var rest := SplitLines(s[next..]);
        SplitLinesHaveNoBreaks(s[next..]);
        ConsNoBreak(s[..e], rest);
      }
    }
  }

  lemma FirstLineNoBreak(s: string)
    ensures NoLineBreak(s[..LineEnd(s)])
  {
    var e := LineEnd(s);
    forall j | 0 <= j < e ensures !IsLineBreak(s[..e][j]) {
      assert s[..e][j] == s[j];
    }
  }

  lemma ConsNoBreak(first: string, rest: seq<string>)
    requires NoLineBreak(first) && forall k :: 0 <= k < |rest| ==> NoLineBreak(rest[k])
    ensures forall k :: 0 <= k < |[first] + rest| ==> NoLineBreak(([first] + rest)[k])
  {
    forall k | 0 <= k < |[first] + rest| ensures NoLineBreak(([first] + rest)[k]) {
      if k > 0 { assert ([first] + rest)[k] == rest[k - 1]; }
    }
  }

  /** Every line break in `s` is a `\n`. */
  predicate OnlyNewlineBreaks(s: string) {
    forall j :: 0 <= j < |s| && IsLineBreak(s[j]) ==> s[j] == '\n'
  }

  /**
   * For text whose only line break is `\n`, joining the lines with `\n` gives
   * the text back, less a final `\n` if there was one.
   */
  lemma {:induction false} SplitLinesJoin(s: string)
    requires OnlyNewlineBreaks(s)
    ensures Join("\n", SplitLines(s)) + (if s != [] && s[|s| - 1] == '\n' then "\n" else "") == s
    decreases |s|
  {
    if s != [] {
      var e := LineEnd(s);
      if e < |s| {
        var rest := s[e + 1..];
        assert OnlyNewlineBreaks(rest) by {
          forall j | 0 <= j < |rest| && IsLineBreak(rest[j]) ensures rest[j] == '\n' {
            assert rest[j] == s[e + 1 + j];
          }
        }
        var n := NextLineStart(s, e);
        assert s[e] == '\n' && n == e + 1;
        SplitLinesUnfold(s, e, n);
        var lines := SplitLines(rest);
        SplitLinesJoin(rest);
        JoinCons("\n", s[..e], lines);
        SplitAround(s, e);
        if rest == [] {
          assert lines == [];
        } else {
          assert s[|s| - 1] == rest[|rest| - 1];
          var tail := if rest[|rest| - 1] == '\n' then "\n" else "";
          Reassemble(s, s[..e], rest, Join("\n", lines), tail);
        }
      } else {
        assert SplitLines(s) == [s];
      }
    }
  }

  /** A string is its prefix, the character at `e` and its suffix. */
  lemma SplitAround(s: string, e: nat)
    requires e < |s|
    ensures s == s[..e] + [s[e]] + s[e + 1..]
  {
  }

  /** Reassociating the pieces of a line and the rest of the text. */
  lemma Reassemble(s: string, first: string, rest: string, joined: string, tail: string)
    requires s == first + "\n" + rest
    requires joined + tail == rest
    ensures first + "\n" + joined + tail == s
  {
  }

  /** A line break ends the first line and the rest is split on its own. */
  lemma SplitLinesUnfold(s: string, e: nat, n: nat)
    requires s != [] && e == LineEnd(s) && e < |s| && n == NextLineStart(s, e)
    ensures SplitLines(s) == [s[..e]] + SplitLines(s[n..])
  {
  }

  /** Joining a first piece onto further pieces puts one separator between them. */
  lemma JoinCons(sep: string, first: string, parts: seq<string>)
    ensures Join(sep, [first] + parts) == if parts == [] then first else first + sep + Join(sep, parts)
  {
    if parts != [] {
      assert ([first] + parts)[1..] == parts;
    }
  }

  /**
   * `s.replace(pat, rep)`: every occurrence of `pat`, taken left to right
   * without overlaps, replaced by `rep`.
   */
  function ReplaceAll(s: string, pat: string, rep: string): string
    requires pat != []
    decreases |s|
  {
    if |s| < |pat| then s
    else if s[..|pat|] == pat then rep + ReplaceAll(s[|pat|..], pat, rep)
    else [s[0]] + ReplaceAll(s[1..], pat, rep)
  }

  /** `s.replace(c, "", 1)`: the first occurrence of `c` removed. */
  function RemoveFirst(s: string, c: char): (r: string)
    ensures c in s ==> |r| == |s| - 1
    ensures c !in s ==> r == s
    decreases |s|
  {
    if s == [] then s
    else if s[0] == c then
      assert s == [s[0]] + s[1..];
      s[1..]
    else
      assert s == [s[0]] + s[1..];
      [s[0]] + RemoveFirst(s[1..], c)
  }

  /** Removing the first `c`, when it sits at `i`, leaves what is before and after it. */
  lemma {:induction false} RemoveFirstAt(s: string, c: char, i: nat)
    requires i < |s| && s[i] == c
    requires forall j :: 0 <= j < i ==> s[j] != c
    ensures RemoveFirst(s, c) == s[..i] + s[i + 1..]
    decreases i
  {
    if i > 0 {
      var t := s[1..];
      assert s[0] != c;
      assert RemoveFirst(s, c) == [s[0]] + RemoveFirst(t, c);
      RemoveFirstAt(t, c, i - 1);
      assert t[..i - 1] == s[1..i] && t[i..] == s[i + 1..];
      assert s[..i] == [s[0]] + s[1..i];
    } else {
      assert RemoveFirst(s, c) == s[1..];
    }
  }

  /** A character missing from a string is missing from each of its pieces. */
  lemma NotInSlice(s: string, lo: nat, hi: nat, c: char)
    requires lo <= hi <= |s| && c !in s
    ensures c !in s[lo..hi]
  {
    forall i | 0 <= i < hi - lo ensures s[lo..hi][i] != c {
      assert s[lo..hi][i] == s[lo + i];
    }
  }

  /** Stripping brings in no character. */
  lemma StripNoChar(s: string, c: char)
    requires c !in s
    ensures c !in Strip(s)
  {
    var l := LStrip(s);
    NotInSlice(s, |s| - |l|, |s|, c);
    NotInSlice(l, 0, |RStrip(l)|, c);
  }

  /** A cell padded with one space on each side strips back to the cell. */
  lemma StripPadded(a: string)
    requires a != [] && !IsSpace(a[0]) && !IsSpace(a[|a| - 1])
    ensures Strip(" " + a + " ") == a
  {
    var s := " " + a + " ";
    assert s[1..] == a + " ";
    assert LStrip(s) == LStrip(a + " ");
    assert LStrip(a + " ") == a + " ";
    assert (a + " ")[..|a|] == a;
    assert RStrip(a + " ") == RStrip(a);
  }
}
