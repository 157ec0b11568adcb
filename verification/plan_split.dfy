/**
 * `pretty_split_plan`: the plan text is cut into a weekly overview, a daily
 * breakdown and study tips at the first (case-insensitive) `daily` and `tips`;
 * when neither word occurs its lines are cut into three groups instead.
 */
module PlanSplit {
  import opened Common
  import opened Text

  /** The three sections of a plan, as `(weekly, daily, tips)`. */
  datatype Sections = Sections(weekly: string, daily: string, tips: string)

  const DailyWord := "daily"
  const TipsWord := "tips"

  /** The largest of 1 and `x`. */
  function AtLeastOne(x: int): (r: nat)
    ensures r >= 1 && r >= x && (r == 1 || r == x)
  {
    if x >= 1 then x else 1
  }

  /**
   * The fallback: `parts[:a]`, `parts[a:b]` and `parts[b:]` with
   * `a = max(1, n // 3)` and `b = max(1, 2 * n // 3)`, where `n = len(parts) or 1`.
   */
  function ThreeGroups(parts: seq<string>): (g: (seq<string>, seq<string>, seq<string>))
    ensures g.0 + g.1 + g.2 == parts
    ensures parts != [] ==> g.0 != []
    ensures |parts| >= 3 ==>
      && |g.0| == |parts| / 3
      && |parts| / 3 <= |g.1| <= |parts| / 3 + 1
      && |parts| / 3 <= |g.2| <= |parts| / 3 + 1
  {
    var n := if |parts| == 0 then 1 else |parts|;
    var a := AtLeastOne(n / 3);
    var b := AtLeastOne(2 * n / 3);
    var g := (Slice(parts, 0, a), Slice(parts, a, b), Slice(parts, b, |parts|));
    assert parts != [] ==> g.0 + g.1 + g.2 == parts[..a] + parts[a..b] + parts[b..];
    g
  }

  /** `s` ends `whole`. */
  predicate IsSuffix(s: string, whole: string) {
    |s| <= |whole| && whole[|whole| - |s|..] == s
  }

  /**
   * The sections cut at the positions `d` of `daily` and `t` of `tips` (-1
   * when absent), at least one of them found: the weekly section opens the
   * plan and the tips section closes it.
   */
  function KeywordSplit(raw: string, d: int, t: int): (r: Sections)
    requires -1 <= d <= |raw| && -1 <= t <= |raw| && (d != -1 || t != -1)
    ensures r.weekly <= raw && IsSuffix(r.tips, raw)
    ensures t == -1 ==> r.tips == ""
    ensures d == -1 ==> r.daily == ""
  {
    if d != -1 && t != -1 then
      Sections(Slice(raw, 0, d), Slice(raw, d, t), Slice(raw, t, |raw|))
    else if d != -1 then
      Sections(Slice(raw, 0, d), Slice(raw, d, |raw|), "")
    else
      Sections(Slice(raw, 0, t), "", Slice(raw, t, |raw|))
  }

  /**
   * `pretty_split_plan(raw)`: nothing for an empty plan; when a keyword is
   * found, the weekly section opens the plan and the tips section closes it.
   */
  function SplitPlan(raw: string): (r: Sections)
    ensures raw == [] ==> r.weekly == [] && r.daily == [] && r.tips == []
    ensures Contains(Lower(raw), DailyWord) || Contains(Lower(raw), TipsWord) ==>
      r.weekly <= raw && IsSuffix(r.tips, raw)
  {
    if raw == [] then Sections("", "", "")
    else
      var lower := Lower(raw);
      var d := Find(lower, DailyWord);
      var t := Find(lower, TipsWord);
      if d != -1 || t != -1 then
        KeywordSplit(raw, d, t)
      else
        var g := ThreeGroups(SplitLines(raw));
        Sections(Join("\n", g.0), Join("\n", g.1), Join("\n", g.2))
  }

  // ---------------------------------------------------------------------------
  // Properties

  /** An empty plan gives three empty sections. */
  lemma EmptyPlanSections()
    ensures SplitPlan("") == Sections("", "", "")
  {
  }

  /**
   * When one keyword is found, or both with `daily` first, the three sections
   * are consecutive pieces of the plan: nothing is lost or repeated.
   */
  lemma KeywordSplitReassembles(raw: string)
    requires var lower := Lower(raw);
      var d := Find(lower, DailyWord);
      var t := Find(lower, TipsWord);
      (d != -1 || t != -1) && !(d != -1 && t != -1 && t < d)
    ensures var r := SplitPlan(raw); r.weekly + r.daily + r.tips == raw
  {
    var lower := Lower(raw);
    var d := Find(lower, DailyWord);
    var t := Find(lower, TipsWord);
    KeywordPiecesJoin(raw, d, t);
  }

  /** Cutting at found positions, `daily` not after `tips`, gives consecutive pieces. */
  lemma KeywordPiecesJoin(raw: string, d: int, t: int)
    requires -1 <= d <= |raw| && -1 <= t <= |raw| && (d != -1 || t != -1)
    requires !(d != -1 && t != -1 && t < d)
    ensures var r := KeywordSplit(raw, d, t); r.weekly + r.daily + r.tips == raw
  {
    if d != -1 && t != -1 {
      assert raw == raw[..d] + raw[d..t] + raw[t..];
    } else if d != -1 {
      assert raw == raw[..d] + raw[d..];
    } else {
      assert raw == raw[..t] + raw[t..];
    }
  }

  /**
   * When `tips` comes before `daily`, the daily section is empty and the
   * weekly and tips sections overlap: the text between `tips` and `daily` is
   * in both.
   */
  lemma TipsBeforeDaily(raw: string)
    requires var lower := Lower(raw);
      var d := Find(lower, DailyWord);
      var t := Find(lower, TipsWord);
      d != -1 && t != -1 && t < d
    ensures var r := SplitPlan(raw);
      var t := Find(Lower(raw), TipsWord);
      r.daily == "" && r.weekly + r.tips[|r.weekly| - t..] == raw
  {
    var lower := Lower(raw);
    var d := Find(lower, DailyWord);
    var t := Find(lower, TipsWord);
    var r := SplitPlan(raw);
    assert r.weekly == raw[..d] && r.tips == raw[t..];
    OverlapJoin(raw, d, t);
  }

  /** The text before `d`, then the piece from `t` with its first `d - t` characters dropped, is the text. */
  lemma OverlapJoin(raw: string, d: int, t: int)
    requires 0 <= t <= d <= |raw|
    ensures raw[..d] + raw[t..][|raw[..d]| - t..] == raw
  {
    assert raw[t..][d - t..] == raw[d..];
    assert raw == raw[..d] + raw[d..];
  }

  /** `"Tips, then daily"`: the weekly and tips sections share `"Tips, then "`. */
  lemma TipsBeforeDailyExample()
    ensures SplitPlan("Tips, then daily") == Sections("Tips, then ", "", "Tips, then daily")
  {
    var raw := "Tips, then daily";
    ExampleFinds();
    assert raw[..11] == "Tips, then ";
  }

  lemma ExampleFinds()
    ensures Find(Lower("Tips, then daily"), TipsWord) == 0
    ensures Find(Lower("Tips, then daily"), DailyWord) == 11
  {
    var lower := "tips, then daily";
    LowerExample();
    assert lower[..4] == TipsWord;
    assert lower[11..16] == DailyWord;
    var before := lower[..11];
    assert before == "tips, then ";
    assert 'd' !in before;
    forall j | 0 <= j < 11 ensures !OccursAt(lower, DailyWord, j) {
      assert lower[j] == before[j];
      MismatchedHead(lower, DailyWord, j);
    }
  }

  /** A word does not occur where the text holds a character other than its first. */
  lemma MismatchedHead(s: string, word: string, j: nat)
    requires word != [] && j < |s| && s[j] != word[0]
    ensures !OccursAt(s, word, j)
  {
    if j + |word| <= |s| {
      assert s[j..j + |word|][0] == s[j];
    }
  }

  lemma LowerExample()
    ensures Lower("Tips, then daily") == "tips, then daily"
  {
  }

  /**
   * Without either keyword, a plan of three or more `\n`-separated lines is
   * the weekly, daily and tips sections joined by line breaks.
   */
  lemma FallbackReassembles(raw: string)
    requires Find(Lower(raw), DailyWord) == -1 && Find(Lower(raw), TipsWord) == -1
    requires OnlyNewlineBreaks(raw) && |SplitLines(raw)| >= 3
    ensures var r := SplitPlan(raw);
      r.weekly + "\n" + r.daily + "\n" + r.tips + (if raw[|raw| - 1] == '\n' then "\n" else "") == raw
  {
    var parts := SplitLines(raw);
    var g := ThreeGroups(parts);
    SplitLinesJoin(raw);
    JoinConcat("\n", g.0, g.1);
    JoinConcat("\n", g.0 + g.1, g.2);
  }

  /** A prefix of a lowered string is the lowered prefix. */
  lemma LowerPrefix(raw: string, n: nat)
    requires n <= |raw|
    ensures Lower(raw[..n]) == Lower(raw)[..n]
  {
  }

  /** A non-empty word that first occurs at `k` does not occur in the first `k` characters. */
  lemma NotBeforeFirst(s: string, word: string, k: nat)
    requires word != [] && k <= |s| && forall j :: 0 <= j < k ==> !OccursAt(s, word, j)
    ensures !Contains(s[..k], word)
  {
    forall j | 0 <= j <= k ensures !OccursAt(s[..k], word, j) {
      if j + |word| <= k {
        assert s[..k][j..j + |word|] == s[j..j + |word|];
        assert j < k && !OccursAt(s, word, j);
      }
    }
  }

  /** When a keyword is found, the weekly section does not hold `daily` in any letter case. */
  lemma WeeklyHasNoDaily(raw: string)
    requires Find(Lower(raw), DailyWord) != -1 || Find(Lower(raw), TipsWord) != -1
    ensures !Contains(Lower(SplitPlan(raw).weekly), DailyWord)
  {
    if raw != [] {
      var lower := Lower(raw);
      var d := Find(lower, DailyWord);
      var t := Find(lower, TipsWord);
      var w := SplitPlan(raw).weekly;
      if d != -1 {
        LowerPrefix(raw, d);
        NotBeforeFirst(lower, DailyWord, d);
      } else if t != -1 {
        LowerPrefix(raw, t);
        assert !Contains(lower, DailyWord);
        ContainsPrefix(lower, DailyWord, t);
      }
    }
  }

  /** A word missing from a string is missing from each of its prefixes. */
  lemma ContainsPrefix(s: string, word: string, k: nat)
    requires k <= |s| && !Contains(s, word)
    ensures !Contains(s[..k], word)
  {
    forall j | 0 <= j <= k ensures !OccursAt(s[..k], word, j) {
      if j + |word| <= k {
        assert s[..k][j..j + |word|] == s[j..j + |word|];
        assert !OccursAt(s, word, j);
      }
    }
  }

  /** The daily section, when `daily` was found, starts with it (in some letter case). */
  lemma DailyStartsWithKeyword(raw: string)
    requires raw != [] && Find(Lower(raw), DailyWord) != -1
    requires var t := Find(Lower(raw), TipsWord); t == -1 || t > Find(Lower(raw), DailyWord)
    ensures StartsWith(Lower(SplitPlan(raw).daily), DailyWord)
  {
    var lower := Lower(raw);
    var d := Find(lower, DailyWord);
    var t := Find(lower, TipsWord);
    assert lower[d..d + 5] == DailyWord;
    if t != -1 && t < d + 5 {
      TipsNotInsideDaily(lower, d, t);
      assert false;
    }
    var daily := SplitPlan(raw).daily;
    assert |daily| >= 5 && daily[..5] == raw[d..d + 5];
    KeywordPrefix(raw, daily, d, DailyWord);
  }

  /** `tips` cannot start inside an occurrence of `daily`. */
  lemma TipsNotInsideDaily(s: string, d: nat, t: nat)
    requires OccursAt(s, DailyWord, d) && d < t < d + 5
    ensures !OccursAt(s, TipsWord, t)
  {
    assert s[t] == DailyWord[t - d];
  }

  /** A section that starts where `word` was found in the lowered plan starts with it once lowered. */
  lemma KeywordPrefix(raw: string, section: string, at: nat, word: string)
    requires at + |word| <= |raw| && Lower(raw)[at..at + |word|] == word
    requires |word| <= |section| && section[..|word|] == raw[at..at + |word|]
    ensures StartsWith(Lower(section), word)
  {
    var n := |word|;
    forall i | 0 <= i < n ensures Lower(section)[i] == word[i] {
      assert section[i] == raw[at + i];
      assert Lower(raw)[at..at + n][i] == Lower(raw)[at + i];
    }
  }

  /** The tips section, when `tips` was found, starts with it (in some letter case). */
  lemma TipsStartsWithKeyword(raw: string)
    requires raw != [] && Find(Lower(raw), TipsWord) != -1
    ensures StartsWith(Lower(SplitPlan(raw).tips), TipsWord)
  {
    var lower := Lower(raw);
    var t := Find(lower, TipsWord);
    var tips := SplitPlan(raw).tips;
    assert lower[t..t + 4] == TipsWord;
    assert tips == raw[t..];
    KeywordPrefix(raw, tips, t, TipsWord);
  }
}
