/**
 * `sanitize_text`: markup-like tags whose name does not start with a letter
 * or `/` are deleted, a `<` or `>` standing next to a space is escaped, and
 * surrounding whitespace is stripped.
 */
module Sanitize {
  import opened Text

  /**
   * `s` starts with a match of the pattern `<[^a-zA-Z/][^>]*>`: a `<`, one
   * character that is neither an ASCII letter nor `/`, and a later `>`.
   */
  predicate OpensTag(s: string) {
    && |s| >= 2 && s[0] == '<' && !IsAsciiLetter(s[1]) && s[1] != '/'
    && FindFrom(s, ">", 2) != -1
  }

  /** The tag that `s` opens ends at the first `>` after its second character. */
  function TagEnd(s: string): (e: nat)
    requires OpensTag(s)
    ensures 2 <= e < |s| && s[e] == '>'
    ensures forall j :: 2 <= j < e ==> s[j] != '>'
  {
    FindFromChar(s, '>', 2);
    FindFrom(s, ">", 2)
  }

  /**
   * `re.sub(r"<[^a-zA-Z/][^>]*>", "", s)`: matches are found left to right
   * without overlapping and deleted; everything else is kept.
   */
  function StripTags(s: string): (r: string)
    ensures |r| <= |s|
    ensures forall i :: 0 <= i < |r| ==> r[i] in s
    decreases |s|
  {
    if s == [] then []
    else if OpensTag(s) then
      var rest := StripTags(s[TagEnd(s) + 1..]);
      assert forall i :: 0 <= i < |rest| ==> rest[i] in s[TagEnd(s) + 1..];
      rest
    else
      var rest := StripTags(s[1..]);
      assert forall i :: 0 <= i < |rest| ==> rest[i] in s[1..];
      [s[0]] + rest
  }

  /** Text before the first `<` is never part of a match, so it is kept as it is. */
  lemma {:induction false} StripTagsKeepsPlainPrefix(p: string, q: string)
    requires '<' !in p
    ensures StripTags(p + q) == p + StripTags(q)
    decreases |p|
  {
    if p == [] {
      assert p + q == q;
    } else {
      assert p[0] in p;
      var t := p[1..] + q;
      StripTagsPlainHead(p[0], t);
      StripTagsKeepsPlainPrefix(p[1..], q);
      Regroup(p, q, StripTags(q));
    }
  }

  /** Taking off the first character and putting it back, on both sides of the equation. */
  lemma Regroup(p: string, q: string, sq: string)
    requires p != []
    ensures p + q == [p[0]] + (p[1..] + q)
    ensures [p[0]] + (p[1..] + sq) == p + sq
  {
    assert p == [p[0]] + p[1..];
  }

  /** A first character other than `<` is kept. */
  lemma StripTagsPlainHead(c: char, t: string)
    requires c != '<'
    ensures StripTags([c] + t) == [c] + StripTags(t)
  {
    assert ([c] + t)[1..] == t;
  }

  /** A `<` followed by a letter or `/` starts no match: it is kept and the scan goes on after it. */
  lemma StripTagsKeepsLetterTag(c: char, q: string)
    requires IsAsciiLetter(c) || c == '/'
    ensures StripTags(['<', c] + q) == ['<'] + StripTags([c] + q)
  {
    assert (['<', c] + q)[1..] == [c] + q;
  }

  /** A `<`, a character neither a letter nor `/`, text without `>`, then `>`: the whole match is deleted. */
  lemma StripTagsDeletesTag(c: char, t: string, q: string)
    requires !IsAsciiLetter(c) && c != '/' && '>' !in t
    ensures StripTags(['<', c] + t + ['>'] + q) == StripTags(q)
  {
    var s := ['<', c] + t + ['>'] + q;
    var e := 2 + |t|;
    assert s[e] == '>';
    FindFromChar(s, '>', 2);
    assert forall j :: 2 <= j < e ==> s[j] == t[j - 2];
    assert OpensTag(s);
    assert TagEnd(s) == e;
    assert s[e + 1..] == q;
  }

  /**
   * No match of the tag pattern anywhere in `s`: every `<` with a `>` at least
   * two places after it is followed by a letter or `/`.
   */
  predicate NoTag(s: string) {
    forall i, j :: 0 <= i && i + 2 <= j < |s| && s[i] == '<' && s[j] == '>' ==> IsAsciiLetter(s[i + 1]) || s[i + 1] == '/'
  }

  /** A `<` that does not open a tag and is followed by a `>` at least two places on is followed by a letter or `/`. */
  lemma NotOpensTag(s: string, j: nat)
    requires !OpensTag(s) && |s| >= 2 && s[0] == '<' && 2 <= j < |s| && s[j] == '>'
    ensures IsAsciiLetter(s[1]) || s[1] == '/'
  {
    FindFromChar(s, '>', 2);
  }

  /** The first character kept from a string that does not open a tag is its own first character. */
  lemma StripTagsHead(s: string)
    requires s != [] && s[0] != '<'
    ensures StripTags(s) != [] && StripTags(s)[0] == s[0]
  {
  }

  /** Deleting the tags leaves no tag behind: the deletion never joins pieces into a new tag. */
  lemma {:induction false} StripTagsLeavesNoTag(s: string)
    ensures NoTag(StripTags(s))
    decreases |s|
  {
    if s == [] {
    } else if OpensTag(s) {
      StripTagsLeavesNoTag(s[TagEnd(s) + 1..]);
    } else {
      var rest := StripTags(s[1..]);
      StripTagsLeavesNoTag(s[1..]);
      var r := [s[0]] + rest;
      forall i, j | 0 <= i && i + 2 <= j < |r| && r[i] == '<' && r[j] == '>'
        ensures IsAsciiLetter(r[i + 1]) || r[i + 1] == '/'
      {
        if i > 0 {
          assert r[i] == rest[i - 1] && r[i + 1] == rest[i] && r[j] == rest[j - 1];
        } else {
          StripTagsAfterOpen(s, rest, j);
        }
      }
    }
  }

  /** The case of a kept leading `<`: what follows it in the output is a letter or `/`. */
  lemma StripTagsAfterOpen(s: string, rest: string, j: nat)
    requires s != [] && !OpensTag(s) && rest == StripTags(s[1..])
    requires s[0] == '<' && 2 <= j < 1 + |rest| && rest[j - 1] == '>'
    ensures IsAsciiLetter(rest[0]) || rest[0] == '/'
  {
    var t := s[1..];
    if IsAsciiLetter(s[1]) || s[1] == '/' {
      StripTagsHead(t);
    } else {
      // No `>` at all from index 2 on, yet `rest[j - 1]` is one.
      var tail := if OpensTag(t) then t[TagEnd(t) + 1..] else t[1..];
      assert rest[1..] == StripTags(tail) || rest == StripTags(tail);
      assert rest[j - 1] in tail by {
        if OpensTag(t) {
          assert rest == StripTags(tail);
        } else {
          assert rest == [t[0]] + StripTags(tail);
          assert rest[j - 1] == StripTags(tail)[j - 2];
        }
      }
      var k :| 0 <= k < |tail| && tail[k] == '>';
      var q := |s| - |tail| + k;
      assert tail == s[|s| - |tail|..];
      assert s[q] == '>' && q >= 2;
      NotOpensTag(s, q);
    }
  }

  /** A string without tags is left alone, so deleting tags twice is the same as once. */
  lemma {:induction false} StripTagsFixesTagFree(s: string)
    requires NoTag(s)
    ensures StripTags(s) == s
    decreases |s|
  {
    if s != [] {
      if OpensTag(s) {
        var e := TagEnd(s);
        assert false;
      }
      assert NoTag(s[1..]) by {
        forall i, j | 0 <= i && i + 2 <= j < |s[1..]| && s[1..][i] == '<' && s[1..][j] == '>'
          ensures IsAsciiLetter(s[1..][i + 1]) || s[1..][i + 1] == '/'
        {
          assert s[i + 1] == '<' && s[j + 1] == '>';
        }
      }
      StripTagsFixesTagFree(s[1..]);
    }
  }

  lemma StripTagsIdempotent(s: string)
    ensures StripTags(StripTags(s)) == StripTags(s)
  {
    StripTagsLeavesNoTag(s);
    StripTagsFixesTagFree(StripTags(s));
  }

  // ---------------------------------------------------------------------------
  // Escaping and stripping

  /** No `a` in `s` is directly followed by `b`. */
  predicate NoPair(s: string, a: char, b: char) {
    forall i :: 0 <= i < |s| - 1 ==> !(s[i] == a && s[i + 1] == b)
  }

  lemma NoPairConcat(x: string, y: string, a: char, b: char)
    requires NoPair(x, a, b) && NoPair(y, a, b)
    requires x == [] || y == [] || !(x[|x| - 1] == a && y[0] == b)
    ensures NoPair(x + y, a, b)
  {
    var xy := x + y;
    forall i | 0 <= i < |xy| - 1 ensures !(xy[i] == a && xy[i + 1] == b) {
      if i + 1 < |x| {
        assert xy[i] == x[i] && xy[i + 1] == x[i + 1];
      } else if i >= |x| {
        assert xy[i] == y[i - |x|] && xy[i + 1] == y[i - |x| + 1];
      }
    }
  }

  /** The first character of a replacement's output: the replacement's, or the input's own. */
  lemma ReplaceAllHead(s: string, pat: string, rep: string)
    requires |pat| == 2 && rep != [] && s != []
    ensures ReplaceAll(s, pat, rep) != []
    ensures ReplaceAll(s, pat, rep)[0] == if |s| >= 2 && s[..2] == pat then rep[0] else s[0]
  {
  }

  /**
   * Replacing every `ab` by a text that holds no `ab`, does not start with `b`
   * and does not end with `a` leaves no `ab` at all.
   */
  lemma {:induction false} ReplaceAllRemovesPair(s: string, a: char, b: char, rep: string)
    requires rep != [] && NoPair(rep, a, b) && rep[0] != b && rep[|rep| - 1] != a
    ensures NoPair(ReplaceAll(s, [a, b], rep), a, b)
    decreases |s|
  {
    var pat := [a, b];
    if |s| < 2 {
    } else if s[..2] == pat {
      ReplaceAllRemovesPair(s[2..], a, b, rep);
      NoPairConcat(rep, ReplaceAll(s[2..], pat, rep), a, b);
    } else {
      var rest := ReplaceAll(s[1..], pat, rep);
      ReplaceAllRemovesPair(s[1..], a, b, rep);
      ReplaceAllHead(s[1..], pat, rep);
      assert |s| >= 3 && s[1..][..2] == pat ==> s[1] == a;
      NoPairConcat([s[0]], rest, a, b);
    }
  }

  /**
   * A replacement keeps a string free of the pair `ab` when the replacement
   * text holds no `ab`, does not end with `a`, and starts with `b` only when
   * the pattern does too.
   */
  lemma {:induction false} ReplaceAllKeepsNoPair(s: string, pat: string, rep: string, a: char, b: char)
    requires |pat| == 2 && NoPair(s, a, b)
    requires rep != [] && NoPair(rep, a, b) && rep[|rep| - 1] != a && (rep[0] == b ==> pat[0] == b)
    ensures NoPair(ReplaceAll(s, pat, rep), a, b)
    decreases |s|
  {
    if |s| < 2 {
    } else if s[..2] == pat {
      assert NoPair(s[2..], a, b) by {
        forall i | 0 <= i < |s[2..]| - 1 ensures !(s[2..][i] == a && s[2..][i + 1] == b) {
          assert s[2..][i] == s[i + 2] && s[2..][i + 1] == s[i + 3];
        }
      }
      ReplaceAllKeepsNoPair(s[2..], pat, rep, a, b);
      NoPairConcat(rep, ReplaceAll(s[2..], pat, rep), a, b);
    } else {
      assert NoPair(s[1..], a, b) by {
        forall i | 0 <= i < |s[1..]| - 1 ensures !(s[1..][i] == a && s[1..][i + 1] == b) {
          assert s[1..][i] == s[i + 1] && s[1..][i + 1] == s[i + 2];
        }
      }
      var rest := ReplaceAll(s[1..], pat, rep);
      ReplaceAllKeepsNoPair(s[1..], pat, rep, a, b);
      ReplaceAllHead(s[1..], pat, rep);
      assert |s[1..]| >= 2 && s[1..][..2] == pat ==> s[1] == pat[0];
      assert !(s[0] == a && s[1] == b);
      NoPairConcat([s[0]], rest, a, b);
    }
  }

  /** A piece cut out of a string free of `ab` is free of `ab`. */
  lemma NoPairSlice(s: string, lo: nat, hi: nat, a: char, b: char)
    requires lo <= hi <= |s| && NoPair(s, a, b)
    ensures NoPair(s[lo..hi], a, b)
  {
    var t := s[lo..hi];
    forall i | 0 <= i < |t| - 1 ensures !(t[i] == a && t[i + 1] == b) {
      assert t[i] == s[lo + i] && t[i + 1] == s[lo + i + 1];
    }
  }

  /** Stripping whitespace keeps a string free of `ab`. */
  lemma StripKeepsNoPair(s: string, a: char, b: char)
    requires NoPair(s, a, b)
    ensures NoPair(Strip(s), a, b)
  {
    var l := LStrip(s);
    NoPairSlice(s, |s| - |l|, |s|, a, b);
    NoPairSlice(l, 0, |RStrip(l)|, a, b);
  }

  /** `sanitize_text(s)`: no tag match is left, and no `< ` or ` >` pair. */
  function SanitizeText(s: string): (r: string)
    ensures r == [] || (!IsSpace(r[0]) && !IsSpace(r[|r| - 1]))
    ensures NoPair(r, '<', ' ') && NoPair(r, ' ', '>')
    ensures NoTag(r)
  {
    var untagged := StripTags(s);
    var lt := ReplaceAll(untagged, "< ", "&lt; ");
    ReplaceAllRemovesPair(untagged, '<', ' ', "&lt; ");
    var gt := ReplaceAll(lt, " >", " &gt;");
    ReplaceAllRemovesPair(lt, ' ', '>', " &gt;");
    ReplaceAllKeepsNoPair(lt, " >", " &gt;", '<', ' ');
    StripKeepsNoPair(gt, '<', ' ');
    StripKeepsNoPair(gt, ' ', '>');
    EscapingKeepsNoTag(s);
    Strip(gt)
  }

  /** Both escapes and the final `strip()` keep the text free of tag matches. */
  lemma EscapingKeepsNoTag(s: string)
    ensures NoTag(Strip(ReplaceAll(ReplaceAll(StripTags(s), "< ", "&lt; "), " >", " &gt;")))
  {
    StripTagsLeavesNoTag(s);
    EscapesKeepNoTag(StripTags(s));
  }

  lemma EscapesKeepNoTag(u: string)
    requires NoTag(u)
    ensures NoTag(Strip(ReplaceAll(ReplaceAll(u, "< ", "&lt; "), " >", " &gt;")))
  {
    var lt := ReplaceAll(u, "< ", "&lt; ");
    ReplaceAllKeepsNoTag(u, "< ", "&lt; ");
    var gt := ReplaceAll(lt, " >", " &gt;");
    ReplaceAllKeepsNoTag(lt, " >", " &gt;");
    StripKeepsNoTag(gt);
  }

  /** Stripping whitespace keeps a text free of tag matches. */
  lemma StripKeepsNoTag(g: string)
    requires NoTag(g)
    ensures NoTag(Strip(g))
  {
    var l := LStrip(g);
    NoTagSlice(g, |g| - |l|, |g|);
    NoTagSlice(l, 0, |RStrip(l)|);
  }

  /** A character that may follow `<` in a kept tag. */
  predicate TagStart(c: char) {
    IsAsciiLetter(c) || c == '/'
  }

  /** A piece cut out of a text without tag matches has none. */
  lemma NoTagSlice(s: string, lo: nat, hi: nat)
    requires lo <= hi <= |s| && NoTag(s)
    ensures NoTag(s[lo..hi])
  {
    var t := s[lo..hi];
    forall i, j | 0 <= i && i + 2 <= j < |t| && t[i] == '<' && t[j] == '>'
      ensures TagStart(t[i + 1])
    {
      assert t[i] == s[lo + i] && t[j] == s[lo + j] && t[i + 1] == s[lo + i + 1];
    }
  }

  /** Text without `<` in front of a text without tag matches adds none. */
  lemma NoTagPrefixed(p: string, z: string)
    requires '<' !in p && NoTag(z)
    ensures NoTag(p + z)
  {
    var r := p + z;
    forall i, j | 0 <= i && i + 2 <= j < |r| && r[i] == '<' && r[j] == '>'
      ensures TagStart(r[i + 1])
    {
      assert i >= |p| by {
        forall k | 0 <= k < |p| ensures r[k] != '<' {
          assert r[k] == p[k];
        }
      }
      assert r[i] == z[i - |p|] && r[j] == z[j - |p|] && r[i + 1] == z[i + 1 - |p|];
    }
  }

  /** A `<` in front of a text without tag matches adds none when any later `>` finds it followed by a letter or `/`. */
  lemma NoTagAfterOpen(z: string)
    requires NoTag(z)
    requires |z| >= 2 && '>' in z[1..] ==> TagStart(z[0])
    ensures NoTag(['<'] + z)
  {
    var r := ['<'] + z;
    forall i, j | 0 <= i && i + 2 <= j < |r| && r[i] == '<' && r[j] == '>'
      ensures TagStart(r[i + 1])
    {
      if i == 0 {
        assert z[1..][j - 2] == '>';
      } else {
        assert r[i] == z[i - 1] && r[j] == z[j - 1] && r[i + 1] == z[i];
      }
    }
  }

  /** A replacement without `>` creates no `>`. */
  lemma {:induction false} ReplaceAllNoGt(t: string, pat: string, rep: string)
    requires |pat| == 2 && '>' !in t && '>' !in rep
    ensures '>' !in ReplaceAll(t, pat, rep)
    decreases |t|
  {
    if |t| >= 2 {
      if t[..2] == pat {
        ReplaceAllNoGt(t[2..], pat, rep);
      } else {
        ReplaceAllNoGt(t[1..], pat, rep);
      }
    }
  }

  /**
   * Replacing a pair that does not start with a letter or `/` by a text
   * without `<` or `>` keeps a text free of tag matches.
   */
  lemma {:induction false} ReplaceAllKeepsNoTag(s: string, pat: string, rep: string)
    requires |pat| == 2 && !TagStart(pat[0]) && '<' !in rep && '>' !in rep
    requires NoTag(s)
    ensures NoTag(ReplaceAll(s, pat, rep))
    decreases |s|
  {
    if |s| < 2 {
    } else if s[..2] == pat {
      NoTagSlice(s, 2, |s|);
      ReplaceAllKeepsNoTag(s[2..], pat, rep);
      NoTagPrefixed(rep, ReplaceAll(s[2..], pat, rep));
    } else {
      var z := ReplaceAll(s[1..], pat, rep);
      assert ReplaceAll(s, pat, rep) == [s[0]] + z;
      NoTagSlice(s, 1, |s|);
      ReplaceAllKeepsNoTag(s[1..], pat, rep);
      if s[0] != '<' {
        NoTagPrefixed([s[0]], z);
      } else {
        OpenStep(s, pat, rep);
        NoTagAfterOpen(z);
      }
    }
  }

  /** After a kept `<`, the replaced rest starts with the same character whenever a later `>` could close a tag. */
  lemma OpenStep(s: string, pat: string, rep: string)
    requires |pat| == 2 && !TagStart(pat[0]) && '>' !in rep
    requires NoTag(s) && |s| >= 2 && s[0] == '<' && s[..2] != pat
    ensures var z := ReplaceAll(s[1..], pat, rep);
      |z| >= 2 && '>' in z[1..] ==> TagStart(z[0])
  {
    var t := s[1..];
    var z := ReplaceAll(t, pat, rep);
    if TagStart(s[1]) {
      if |t| >= 2 {
        assert t[..2] != pat by {
          assert t[0] == s[1];
        }
        assert z == [t[0]] + ReplaceAll(t[1..], pat, rep);
      }
    } else {
      assert forall j :: 2 <= j < |s| ==> s[j] != '>';
      if |t| >= 2 && t[..2] == pat {
        assert '>' !in s[3..] by {
          forall k | 0 <= k < |s[3..]| ensures s[3..][k] != '>' {
            assert s[3..][k] == s[k + 3];
          }
        }
        assert t[2..] == s[3..];
        ReplaceAllNoGt(s[3..], pat, rep);
        assert z == rep + ReplaceAll(s[3..], pat, rep);
        assert '>' !in z;
        if |z| >= 2 {
          assert forall k :: 0 <= k < |z[1..]| ==> z[1..][k] == z[k + 1];
        }
      } else if |t| >= 2 {
        assert '>' !in s[2..] by {
          forall k | 0 <= k < |s[2..]| ensures s[2..][k] != '>' {
            assert s[2..][k] == s[k + 2];
          }
        }
        assert t[1..] == s[2..];
        ReplaceAllNoGt(s[2..], pat, rep);
        assert z == [t[0]] + ReplaceAll(s[2..], pat, rep);
        assert z[1..] == ReplaceAll(s[2..], pat, rep);
      }
    }
  }

  /** Text with nothing to delete, escape or strip comes back unchanged. */
  lemma {:induction false} SanitizeKeepsPlainText(s: string)
    requires '<' !in s && '>' !in s && (s == [] || (!IsSpace(s[0]) && !IsSpace(s[|s| - 1])))
    ensures SanitizeText(s) == s
  {
    assert NoTag(s);
    StripTagsFixesTagFree(s);
    ReplaceAllWithoutPattern(s, "< ", "&lt; ", 0);
    ReplaceAllWithoutPattern(s, " >", " &gt;", 1);
    SanitizeSteps(s);
  }

  lemma SanitizeSteps(s: string)
    requires StripTags(s) == s && ReplaceAll(s, "< ", "&lt; ") == s && ReplaceAll(s, " >", " &gt;") == s
    requires s == [] || (!IsSpace(s[0]) && !IsSpace(s[|s| - 1]))
    ensures SanitizeText(s) == s
  {
    StripUnpadded(s);
  }

  /** A string lacking one of the pattern's characters is left unchanged by a replacement. */
  lemma {:induction false} ReplaceAllWithoutPattern(s: string, pat: string, rep: string, k: nat)
    requires pat != [] && k < |pat| && pat[k] !in s
    ensures ReplaceAll(s, pat, rep) == s
    decreases |s|
  {
    if |s| >= |pat| {
      assert s[..|pat|][k] == s[k];
      ReplaceAllWithoutPattern(s[1..], pat, rep, k);
    }
  }
}
