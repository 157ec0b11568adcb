/**
 * The rule-based weekly scheduler (`PlannerTool.create_schedule`).
 *
 * A profile's priorities are normalised into weights, each weight becomes an
 * hour figure with a half-hour floor, each figure is cut into blocks of about
 * an hour and a half with round-robin start times, and the same block list is
 * given to every day of the week.  When a memory bank is attached the schedule
 * is also appended to the user's history.
 *
 * The day names (`week_days()`) and the clock reading for the history entry are
 * parameters.  The clock's date and seconds never reach the output, so times of
 * day are whole minutes.
 */
module Planner {
  import opened Common
  import opened Rounding
  import opened Dicts
  import opened Clock
  import opened Memory

  /** The profile dictionary; a field is `None` when its key is absent. */
  datatype Profile = Profile(
    name: Option<string>,
    subjects: Option<seq<string>>,
    weeklyHours: Option<real>,
    priority: Option<map<string, real>>)

  const DefaultWeeklyHours: real := 10.0
  const AnonymousUser: string := "anon"
  /** Every subject gets at least this many hours. */
  const FloorHours: real := 0.5
  /** The block length the block count aims at. */
  const TargetBlockHours: real := 1.5
  /** No block is shown longer than this. */
  const MaxBlockHours: real := 2.0
  /** Blocks start on the hour, from `FirstSlotHour` for `SlotCount` consecutive hours. */
  const FirstSlotHour: int := 9
  const SlotCount: int := 8

  function SubjectsOf(p: Profile): seq<string> { p.subjects.GetOr([]) }
  function WeeklyHoursOf(p: Profile): real { p.weeklyHours.GetOr(DefaultWeeklyHours) }
  function PriorityOf(p: Profile): map<string, real> { p.priority.GetOr(map[]) }

  /** The key the schedule is filed under: the `name` entry, or "anon" only when there is none. */
  function HistoryKey(p: Profile): (key: string)
    ensures p.name.Some? ==> key == p.name.value
    ensures p.name.None? ==> key == AnonymousUser
  {
    p.name.GetOr(AnonymousUser)
  }

  // ---------------------------------------------------------------------------
  // Weight normalisation

  /** The raw weight of each subject: its priority, or 1/N when it has none. */
  function RawWeights(subjects: seq<string>, priority: map<string, real>): (pv: seq<real>)
    ensures |pv| == |subjects|
    ensures forall i :: 0 <= i < |subjects| && subjects[i] in priority ==> pv[i] == priority[subjects[i]]
    ensures forall i :: 0 <= i < |subjects| && subjects[i] !in priority ==> pv[i] == 1.0 / |subjects| as real
  {
    seq(|subjects|, i requires 0 <= i < |subjects| =>
      if subjects[i] in priority then priority[subjects[i]] else 1.0 / |subjects| as real)
  }

  /** The divisor: the raw sum when it is positive, otherwise the number of subjects. */
  function Divisor(pv: seq<real>, n: nat): (c: real)
    ensures n > 0 ==> c > 0.0
    ensures c == Sum(pv) || c == n as real
    ensures c >= Sum(pv)
  {
    if Sum(pv) > 0.0 then Sum(pv) else n as real
  }

  /** The normalised weights, one per subject position: each raw weight scaled by one common divisor. */
  function Weights(subjects: seq<string>, priority: map<string, real>): (w: seq<real>)
    ensures |w| == |subjects|
    ensures var pv := RawWeights(subjects, priority);
      forall i :: 0 <= i < |subjects| ==> w[i] * Divisor(pv, |subjects|) == pv[i]
  {
    var pv := RawWeights(subjects, priority);
    if subjects == [] then [] else DivideAll(pv, Divisor(pv, |subjects|))
  }

  /** A subject missing from `priority` gets the raw weight 1/N. */
  lemma MissingPriorityDefault(subjects: seq<string>, priority: map<string, real>, i: nat)
    requires i < |subjects| && subjects[i] !in priority
    ensures RawWeights(subjects, priority)[i] == 1.0 / |subjects| as real
  {
  }

  /** With a positive raw sum each weight is its raw weight's share of that sum. */
  lemma WeightsProportional(subjects: seq<string>, priority: map<string, real>, i: nat)
    requires Sum(RawWeights(subjects, priority)) > 0.0
    requires i < |subjects|
    ensures Weights(subjects, priority)[i] == RawWeights(subjects, priority)[i] / Sum(RawWeights(subjects, priority))
  {
  }

  /** With a positive raw sum the weights sum to exactly 1. */
  lemma WeightsSumToOne(subjects: seq<string>, priority: map<string, real>)
    requires Sum(RawWeights(subjects, priority)) > 0.0
    ensures Sum(Weights(subjects, priority)) == 1.0
  {
    SumDividedBySum(RawWeights(subjects, priority));
  }

  /**
   * With a raw sum of zero or less the divisor is N, not the sum: each weight
   * is its raw weight over N, so the weights do not sum to 1.
   */
  lemma NonPositiveSumDividesByCount(subjects: seq<string>, priority: map<string, real>, i: nat)
    requires Sum(RawWeights(subjects, priority)) <= 0.0
    requires i < |subjects|
    ensures Weights(subjects, priority)[i] == RawWeights(subjects, priority)[i] / |subjects| as real
  {
  }

  /** When every subject has priority 0, every weight is 0 (not 1/N) and so sums to 0. */
  lemma AllZeroPrioritiesGiveZeroWeights(subjects: seq<string>, priority: map<string, real>)
    requires forall i :: 0 <= i < |subjects| ==> subjects[i] in priority && priority[subjects[i]] == 0.0
    ensures forall i :: 0 <= i < |subjects| ==> Weights(subjects, priority)[i] == 0.0
    ensures Sum(Weights(subjects, priority)) == 0.0
  {
    var pv := RawWeights(subjects, priority);
    SumOfZeros(pv);
    SumOfZeros(Weights(subjects, priority));
  }

  /** Two positions holding the same subject carry the same weight. */
  lemma SameSubjectSameWeight(subjects: seq<string>, priority: map<string, real>, i: nat, j: nat)
    requires i < |subjects| && j < |subjects| && subjects[i] == subjects[j]
    ensures Weights(subjects, priority)[i] == Weights(subjects, priority)[j]
  {
  }

  // ---------------------------------------------------------------------------
  // Hour allocation

  /**
   * `max(0.5, round(weight * weekly_hours, 1))`: never below the floor, within
   * 0.05 of the proportional share above it, and exactly the floor well below it.
   */
  function AllocatedHours(weight: real, weeklyHours: real): (h: real)
    ensures h >= FloorHours
    ensures -0.05 <= h - MaxReal(FloorHours, weight * weeklyHours) <= 0.05
    ensures weight * weeklyHours >= 0.55 ==> -0.05 <= h - weight * weeklyHours <= 0.05
    ensures weight * weeklyHours < 0.55 ==> h == FloorHours
  {
    var x := weight * weeklyHours;
    var r := Round1(x);
    MaxNear(FloorHours, x, r);
    Round1BelowHalfAndTwentieth(x);
    MaxReal(FloorHours, r)
  }

  /** Taking the larger with a constant moves two numbers at most as far apart as they were. */
  lemma MaxNear(a: real, x: real, r: real)
    requires -0.05 <= r - x <= 0.05
    ensures -0.05 <= MaxReal(a, r) - MaxReal(a, x) <= 0.05
  {
  }

  /** Below 0.55, `round(x, 1)` is at most 0.5: 5.5 tenths would be a tie, and it rounds up to 6. */
  lemma Round1BelowHalfAndTwentieth(x: real)
    ensures x < 0.55 ==> Round1(x) <= FloorHours
  {
    var n := Round1Tenths(x);
    assert n == RoundHalfEven(x * 10.0);
    assert x < 0.55 ==> n <= 5;
  }

  /** The allocation is a whole number of tenths of an hour. */
  lemma AllocatedHoursInTenths(weight: real, weeklyHours: real)
    ensures AllocatedHours(weight, weeklyHours) * 10.0 == (AllocatedHours(weight, weeklyHours) * 10.0).Floor as real
  {
    var x := weight * weeklyHours;
    var n := Round1Tenths(x);
    var a := AllocatedHours(weight, weeklyHours);
    if Round1(x) > FloorHours {
      assert a == n as real / 10.0;
      WholeTenths(n);
    } else {
      assert a * 10.0 == 5.0;
    }
  }

  /** `round(x, 1)` is some whole number of tenths. */
  lemma Round1Tenths(x: real) returns (n: int)
    ensures Round1(x) == n as real / 10.0
  {
    assert Pow10(1) == 10;
    n := RoundHalfEven(x * 10.0);
  }

  lemma WholeTenths(n: int)
    ensures (n as real / 10.0) * 10.0 == n as real
    ensures ((n as real / 10.0) * 10.0).Floor == n
  {
  }

  /** `hours_per_subject`: each subject, at its first position, with its allocated hours. */
  function HoursPerSubject(subjects: seq<string>, weights: seq<real>, weeklyHours: real): (d: Dict<string, real>)
    requires |weights| == |subjects|
    ensures Valid(d)
    ensures d.keys == Dedup(subjects)
    ensures forall k :: k in d.values ==> d.values[k] >= FloorHours
  {
    var ps := seq(|subjects|, i requires 0 <= i < |subjects| => (subjects[i], AllocatedHours(weights[i], weeklyHours)));
    assert Firsts(ps) == subjects;
    var d := FromPairs(ps);
    assert forall k :: k in d.values ==> d.values[k] >= FloorHours by {
      forall k | k in d.values ensures d.values[k] >= FloorHours {
        FromPairsSource(ps, k);
      }
    }
    d
  }

  /** The hours for a profile: weights from `Weights`, budget from `weekly_hours` (default 10). */
  function ProfileHours(p: Profile): (d: Dict<string, real>)
    ensures Valid(d)
    ensures d.keys == Dedup(SubjectsOf(p))
    ensures forall k :: k in d.values ==> d.values[k] >= FloorHours
  {
    HoursPerSubject(SubjectsOf(p), Weights(SubjectsOf(p), PriorityOf(p)), WeeklyHoursOf(p))
  }

  /**
   * A repeated subject collapses into one entry, and that entry carries the hours
   * computed at every one of its positions (in particular the last).
   */
  lemma HoursOfEveryOccurrence(subjects: seq<string>, priority: map<string, real>, weeklyHours: real, i: nat)
    requires i < |subjects|
    ensures var w := Weights(subjects, priority);
      var d := HoursPerSubject(subjects, w, weeklyHours);
      subjects[i] in d.values && d.values[subjects[i]] == AllocatedHours(w[i], weeklyHours)
  {
    var w := Weights(subjects, priority);
    var ps := seq(|subjects|, j requires 0 <= j < |subjects| => (subjects[j], AllocatedHours(w[j], weeklyHours)));
    var last := LastPosition(subjects, i);
    SameSubjectSameWeight(subjects, priority, i, last);
    FromPairsLastWins(ps, last);
  }

  /** The last position holding the same subject as position `i`. */
  function LastPosition(subjects: seq<string>, i: nat): (j: nat)
    requires i < |subjects|
    ensures i <= j < |subjects| && subjects[j] == subjects[i]
    ensures forall k :: j < k < |subjects| ==> subjects[k] != subjects[i]
    decreases |subjects| - i
  {
    if forall k :: i < k < |subjects| ==> subjects[k] != subjects[i] then i
    else
      var k :| i < k < |subjects| && subjects[k] == subjects[i];
      LastPosition(subjects, k)
  }

  /** Every subject gets at least the floor, so the total can exceed `weekly_hours`. */
  lemma FloorCanExceedBudget()
    ensures var p := Profile(None, Some(["A", "B", "C"]), Some(1.0), Some(map["A" := 0.98, "B" := 0.01, "C" := 0.01]));
      var d := ProfileHours(p);
      && "A" in d.values && "B" in d.values && "C" in d.values
      && d.values["A"] == 1.0 && d.values["B"] == 0.5 && d.values["C"] == 0.5
      && d.values["A"] + d.values["B"] + d.values["C"] > WeeklyHoursOf(p)
  {
    var subjects := ["A", "B", "C"];
    var priority := map["A" := 0.98, "B" := 0.01, "C" := 0.01];
    ExampleWeights();
    ExampleAllocations();
    HoursOfEveryOccurrence(subjects, priority, 1.0, 0);
    HoursOfEveryOccurrence(subjects, priority, 1.0, 1);
    HoursOfEveryOccurrence(subjects, priority, 1.0, 2);
  }

  lemma ExampleWeights()
    ensures Weights(["A", "B", "C"], map["A" := 0.98, "B" := 0.01, "C" := 0.01]) == [0.98, 0.01, 0.01]
  {
    var pv := RawWeights(["A", "B", "C"], map["A" := 0.98, "B" := 0.01, "C" := 0.01]);
    assert pv == [0.98, 0.01, 0.01];
    assert [0.98][..0] == [];
    assert Sum([0.98]) == 0.98;
    assert [0.98, 0.01][..1] == [0.98];
    assert Sum([0.98, 0.01]) == 0.99;
    assert pv[..2] == [0.98, 0.01];
    assert Sum(pv) == 1.0;
  }

  lemma ExampleAllocations()
    ensures AllocatedHours(0.98, 1.0) == 1.0
    ensures AllocatedHours(0.01, 1.0) == 0.5
  {
    assert Pow10(1) == 10;
    assert RoundHalfEven(9.8) == 10;
    assert RoundHalfEven(0.1) == 0;
  }

  // ---------------------------------------------------------------------------
  // Block splitting

  /** One study block: `{"subject", "hours", "start", "end"}` with times as "HH:MM". */
  datatype Block = Block(subject: string, hours: real, start: string, end: string)

  /**
   * `max(1, round(hrs / 1.5))`: at least one block, and from 0.75 hours up the
   * count whose 1.5-hour blocks come within 0.75 hours of the allocation.
   */
  function BlockCount(h: real): (n: int)
    ensures n >= 1
    ensures h >= 0.75 ==> -0.75 <= n as real * TargetBlockHours - h <= 0.75
    ensures h <= 0.75 ==> n == 1
  {
    var r := RoundHalfEven(h / TargetBlockHours);
    assert (r as real - h / 1.5) * 1.5 == r as real * 1.5 - h;
    assert h <= 0.75 ==> r <= 1;
    if r >= 1 then r else 1
  }

  /** Block `bi` starts on the hour `9 + bi mod 8`, given in minutes since midnight. */
  function StartMinutes(bi: nat): (m: int)
    ensures FirstSlotHour * 60 <= m <= (FirstSlotHour + SlotCount - 1) * 60
    ensures m % 60 == 0
  {
    (FirstSlotHour + bi % SlotCount) * 60
  }

  /** The whole minutes of `timedelta(hours=min(2, hrs))`: from half an hour to two hours. */
  function DurationMinutes(h: real): (d: int)
    requires h >= FloorHours
    ensures 30 <= d <= 120
  {
    (MinReal(MaxBlockHours, h) * 60.0).Floor
  }

  /** For an allocation in tenths of an hour, the block duration is exact: nothing is truncated. */
  lemma DurationExact(weight: real, weeklyHours: real)
    ensures var h := AllocatedHours(weight, weeklyHours);
      DurationMinutes(h) as real == MinReal(MaxBlockHours, h) * 60.0
  {
    var h := AllocatedHours(weight, weeklyHours);
    AllocatedHoursInTenths(weight, weeklyHours);
    var k := (h * 10.0).Floor;
    assert h * 60.0 == (6 * k) as real;
    if h <= MaxBlockHours {
      assert (h * 60.0).Floor == 6 * k;
    }
  }

  /** Block `bi` of `count` blocks for a subject with `h` hours. */
  function MakeBlock(subject: string, h: real, count: int, bi: nat): (b: Block)
    requires h >= FloorHours && count >= 1
    ensures b.subject == subject
    ensures -0.005 <= b.hours - h / count as real <= 0.005
  {
    var start := StartMinutes(bi);
    Block(subject, Round2(h / count as real), FormatClock(start), FormatClock(start + DurationMinutes(h)))
  }

  /** The blocks for one subject on one day. */
  function SubjectBlocks(subject: string, h: real): (bs: seq<Block>)
    requires h >= FloorHours
    ensures |bs| == BlockCount(h)
    ensures forall bi :: 0 <= bi < |bs| ==> bs[bi].subject == subject
  {
    var n := BlockCount(h);
    seq(n, bi requires 0 <= bi < n => MakeBlock(subject, h, n, bi))
  }

  /**
   * A block whose times read back as clock times, starting on the hour between
   * 09:00 and 16:00, lasting from 30 to 120 minutes and ending by 18:00.
   */
  predicate WellTimed(b: Block) {
    && ParseClock(b.start).Some? && ParseClock(b.end).Some?
    && var s := ParseClock(b.start).value;
    && var e := ParseClock(b.end).value;
    && FirstSlotHour * 60 <= s <= (FirstSlotHour + SlotCount - 1) * 60 && s % 60 == 0
    && 30 <= e - s <= 120
    && e <= 18 * 60
  }

  /** A block's times: the slot of its index, a 30- to 120-minute span, and well timed. */
  lemma MakeBlockTiming(subject: string, h: real, count: int, bi: nat)
    requires h >= FloorHours && count >= 1
    ensures var b := MakeBlock(subject, h, count, bi);
      && ParseClock(b.start) == Some(StartMinutes(bi))
      && ParseClock(b.end) == Some(StartMinutes(bi) + DurationMinutes(h))
      && WellTimed(b)
  {
    var s := StartMinutes(bi);
    var d := DurationMinutes(h);
    var b := MakeBlock(subject, h, count, bi);
    assert ParseClock(b.start) == Some(s);
    assert ParseClock(b.end) == Some(s + d);
  }

  /** Each block of a subject is well timed, starts in the slot of its index and lasts `DurationMinutes`. */
  lemma SubjectBlockTiming(subject: string, h: real, bi: nat)
    requires h >= FloorHours && bi < BlockCount(h)
    ensures var b := SubjectBlocks(subject, h)[bi];
      && WellTimed(b)
      && ParseClock(b.start) == Some(StartMinutes(bi))
      && ParseClock(b.end).value - ParseClock(b.start).value == DurationMinutes(h)
  {
    var bs := SubjectBlocks(subject, h);
    assert bs[bi] == MakeBlock(subject, h, BlockCount(h), bi);
    MakeBlockTiming(subject, h, BlockCount(h), bi);
  }

  /** Each block's `hours` field is the allocation's equal share, to two decimals. */
  lemma SubjectBlockHours(subject: string, h: real, bi: nat)
    requires h >= FloorHours && bi < BlockCount(h)
    ensures -0.005 <= SubjectBlocks(subject, h)[bi].hours - h / BlockCount(h) as real <= 0.005
  {
    var bs := SubjectBlocks(subject, h);
    assert bs[bi] == MakeBlock(subject, h, BlockCount(h), bi);
  }

  /** Blocks `bi` and `bi + 8` of a subject share their start time. */
  lemma SubjectBlockPeriod(subject: string, h: real, bi: nat)
    requires h >= FloorHours && bi + SlotCount < BlockCount(h)
    ensures SubjectBlocks(subject, h)[bi + SlotCount].start == SubjectBlocks(subject, h)[bi].start
  {
    var bs := SubjectBlocks(subject, h);
    assert bs[bi].start == FormatClock(StartMinutes(bi));
    assert bs[bi + SlotCount].start == FormatClock(StartMinutes(bi + SlotCount));
    StartsRepeat(bi);
  }

  lemma StartsRepeat(bi: nat)
    ensures StartMinutes(bi + SlotCount) == StartMinutes(bi)
  {
  }

  /** The blocks of the subjects `keys`, subject after subject. */
  function BlocksFor(keys: seq<string>, hours: map<string, real>): seq<Block>
    requires forall i :: 0 <= i < |keys| ==> keys[i] in hours && hours[keys[i]] >= FloorHours
    decreases |keys|
  {
    if keys == [] then []
    else
      var k := keys[|keys| - 1];
      BlocksFor(keys[..|keys| - 1], hours) + SubjectBlocks(k, hours[k])
  }

  /** `day_blocks`: every subject's blocks, in the dictionary's key order. */
  function DayBlocks(hours: Dict<string, real>): (bs: seq<Block>)
    requires Valid(hours) && forall k :: k in hours.values ==> hours.values[k] >= FloorHours
    ensures Dedup(BlockSubjects(bs)) == hours.keys
    ensures Grouped(BlockSubjects(bs))
    ensures forall i :: 0 <= i < |bs| ==> WellTimed(bs[i])
  {
    BlocksForSubjects(hours.keys, hours.values);
    BlocksForWellTimed(hours.keys, hours.values);
    BlocksFor(hours.keys, hours.values)
  }

  /**
   * The blocks of each subject `k` on a day are exactly `SubjectBlocks(k, hours[k])`:
   * `max(1, round(hrs / 1.5))` blocks of `round(hrs / blocks, 2)` hours, the
   * block index counting from 0 for every subject.
   */
  lemma DayBlocksRuns(hours: Dict<string, real>, k: string)
    requires Valid(hours) && forall k :: k in hours.values ==> hours.values[k] >= FloorHours
    requires k in hours.values
    ensures OfSubject(DayBlocks(hours), k) == SubjectBlocks(k, hours.values[k])
  {
    BlocksForOfSubject(hours.keys, hours.values, k);
  }

  /** The blocks of subject `k`, in their order in `bs`. */
  function OfSubject(bs: seq<Block>, k: string): (r: seq<Block>)
    ensures |r| <= |bs|
    ensures forall i :: 0 <= i < |r| ==> r[i].subject == k
  {
    if bs == [] then []
    else OfSubject(bs[..|bs| - 1], k) + (if bs[|bs| - 1].subject == k then [bs[|bs| - 1]] else [])
  }

  /** Picking one subject's blocks distributes over concatenation. */
  lemma {:induction false} OfSubjectAppend(a: seq<Block>, b: seq<Block>, k: string)
    ensures OfSubject(a + b, k) == OfSubject(a, k) + OfSubject(b, k)
    decreases |b|
  {
    if b == [] {
      assert a + b == a;
    } else {
      var b' := b[..|b| - 1];
      assert (a + b)[..|a + b| - 1] == a + b';
      OfSubjectAppend(a, b', k);
    }
  }

  /** A list of one subject's blocks is all kept when picking that subject, and all dropped for any other. */
  lemma {:induction false} OfSubjectRun(bs: seq<Block>, s: string, k: string)
    requires forall i :: 0 <= i < |bs| ==> bs[i].subject == s
    ensures OfSubject(bs, k) == if s == k then bs else []
    decreases |bs|
  {
    if bs != [] {
      var init := bs[..|bs| - 1];
      OfSubjectRun(init, s, k);
      assert bs == init + [bs[|bs| - 1]];
    }
  }

  /**
   * In the blocks built for distinct `keys`, the blocks of `k` are exactly
   * `SubjectBlocks(k, hours[k])` when `k` is one of the keys, and none otherwise.
   */
  lemma {:induction false} BlocksForOfSubject(keys: seq<string>, hours: map<string, real>, k: string)
    requires forall i :: 0 <= i < |keys| ==> keys[i] in hours && hours[keys[i]] >= FloorHours
    requires Distinct(keys)
    ensures k in keys ==> k in hours && OfSubject(BlocksFor(keys, hours), k) == SubjectBlocks(k, hours[k])
    ensures k !in keys ==> OfSubject(BlocksFor(keys, hours), k) == []
    decreases |keys|
  {
    if keys != [] {
      var init := keys[..|keys| - 1];
      var last := keys[|keys| - 1];
      assert keys == init + [last];
      assert Distinct(init);
      var a := BlocksFor(init, hours);
      var b := SubjectBlocks(last, hours[last]);
      BlocksForOfSubject(init, hours, k);
      OfSubjectAppend(a, b, k);
      OfSubjectRun(b, last, k);
      if k == last {
        assert k !in init;
      } else {
        assert (k in keys) == (k in init);
      }
    }
  }

  /**
   * Every subject's first block of the day starts at 09:00, so on a day with
   * more than one subject the subjects' blocks overlap in time.
   */
  lemma EverySubjectStartsAtNine(hours: Dict<string, real>, k: string)
    requires Valid(hours) && forall k :: k in hours.values ==> hours.values[k] >= FloorHours
    requires k in hours.values
    ensures var run := OfSubject(DayBlocks(hours), k);
      |run| >= 1 && run[0].start == "09:00"
  {
    DayBlocksRuns(hours, k);
    var h := hours.values[k];
    var run := SubjectBlocks(k, h);
    assert run[0] == MakeBlock(k, h, BlockCount(h), 0);
    assert StartMinutes(0) == 540;
    TenHourClock();
  }

  /** Every block built for a day is well timed. */
  lemma {:induction false} BlocksForWellTimed(keys: seq<string>, hours: map<string, real>)
    requires forall i :: 0 <= i < |keys| ==> keys[i] in hours && hours[keys[i]] >= FloorHours
    ensures forall i :: 0 <= i < |BlocksFor(keys, hours)| ==> WellTimed(BlocksFor(keys, hours)[i])
    decreases |keys|
  {
    if keys != [] {
      var init := keys[..|keys| - 1];
      var k := keys[|keys| - 1];
      BlocksForWellTimed(init, hours);
      var a := BlocksFor(init, hours);
      var b := SubjectBlocks(k, hours[k]);
      forall i | 0 <= i < |a + b| ensures WellTimed((a + b)[i]) {
        if i >= |a| {
          SubjectBlockTiming(k, hours[k], i - |a|);
        }
      }
    }
  }

  /** The subject of each block, in order. */
  function BlockSubjects(bs: seq<Block>): (ss: seq<string>)
    ensures |ss| == |bs| && forall i :: 0 <= i < |bs| ==> ss[i] == bs[i].subject
  {
    seq(|bs|, i requires 0 <= i < |bs| => bs[i].subject)
  }

  /** Appending a non-empty run of a new element adds that element once to `Dedup`. */
  lemma {:induction false} DedupAppendRun(xs: seq<string>, run: seq<string>, x: string)
    requires x !in xs && |run| >= 1 && forall i :: 0 <= i < |run| ==> run[i] == x
    ensures Dedup(xs + run) == Dedup(xs) + [x]
    decreases |run|
  {
    var all := xs + run;
    assert all[..|all| - 1] == xs + run[..|run| - 1];
    if |run| == 1 {
      assert all[..|all| - 1] == xs;
    } else {
      DedupAppendRun(xs, run[..|run| - 1], x);
    }
  }

  lemma BlockSubjectsAppend(a: seq<Block>, b: seq<Block>)
    ensures BlockSubjects(a + b) == BlockSubjects(a) + BlockSubjects(b)
  {
  }

  /** Every block built for `keys` belongs to one of `keys`. */
  lemma {:induction false} BlocksForSubjectsIn(keys: seq<string>, hours: map<string, real>)
    requires forall i :: 0 <= i < |keys| ==> keys[i] in hours && hours[keys[i]] >= FloorHours
    ensures forall i :: 0 <= i < |BlocksFor(keys, hours)| ==> BlocksFor(keys, hours)[i].subject in keys
    decreases |keys|
  {
    if keys != [] {
      var init := keys[..|keys| - 1];
      var k := keys[|keys| - 1];
      BlocksForSubjectsIn(init, hours);
      var a: seq<Block> := BlocksFor(init, hours);
      var b: seq<Block> := SubjectBlocks(k, hours[k]);
      var ab: seq<Block> := a + b;
      forall i | 0 <= i < |ab| ensures ab[i].subject in keys {
        if i < |a| {
          assert a[i].subject in init;
        }
      }
    }
  }

  /** Equal elements stand together: nothing else comes between two occurrences of one element. */
  predicate Grouped(ss: seq<string>)
  {
    forall i, j, l :: 0 <= i < j < l < |ss| && ss[i] == ss[l] ==> ss[j] == ss[i]
  }

  /** A grouped sequence followed by a run of an element it lacks is still grouped. */
  lemma GroupedAppendRun(sa: seq<string>, sb: seq<string>, k: string)
    requires Grouped(sa) && k !in sa
    requires forall i :: 0 <= i < |sb| ==> sb[i] == k
    ensures Grouped(sa + sb)
  {
    var ss := sa + sb;
    forall i, j, l | 0 <= i < j < l < |ss| && ss[i] == ss[l] ensures ss[j] == ss[i] {
      if l < |sa| {
        assert sa[i] == sa[l];
      } else if i >= |sa| {
        assert sb[i - |sa|] == k && sb[j - |sa|] == k;
      }
    }
  }

  /** Blocks are grouped by subject, subjects following the order of `keys`. */
  lemma {:induction false} BlocksForSubjects(keys: seq<string>, hours: map<string, real>)
    requires forall i :: 0 <= i < |keys| ==> keys[i] in hours && hours[keys[i]] >= FloorHours
    requires Distinct(keys)
    ensures Dedup(BlockSubjects(BlocksFor(keys, hours))) == keys
    ensures Grouped(BlockSubjects(BlocksFor(keys, hours)))
    decreases |keys|
  {
    if keys != [] {
      var init := keys[..|keys| - 1];
      var k := keys[|keys| - 1];
      assert keys == init + [k];
      assert Distinct(init);
      assert k !in init;
      var a := BlocksFor(init, hours);
      var b := SubjectBlocks(k, hours[k]);
      assert BlocksFor(keys, hours) == a + b;
      BlocksForSubjects(init, hours);
      BlocksForSubjectsIn(init, hours);
      BlockSubjectsAppend(a, b);
      var sa := BlockSubjects(a);
      var sb := BlockSubjects(b);
      assert k !in sa by {
        forall i | 0 <= i < |a| ensures sa[i] != k {
          assert a[i].subject in init;
        }
      }
      DedupAppendGroup(init, sa, sb, k);
      GroupedAppendRun(sa, sb, k);
    }
  }

  lemma DedupAppendGroup(init: seq<string>, sa: seq<string>, sb: seq<string>, k: string)
    requires Dedup(sa) == init && k !in sa
    requires |sb| >= 1 && forall i :: 0 <= i < |sb| ==> sb[i] == k
    ensures Dedup(sa + sb) == init + [k]
  {
    DedupAppendRun(sa, sb, k);
  }

  // ---------------------------------------------------------------------------
  // The schedule

  /** Day name to that day's blocks, in the order of `week_days()`. */
  type Schedule = Dict<string, seq<Block>>

  /** `{"schedule": schedule}`, the record filed in the memory bank. */
  datatype HistoryRecord = HistoryRecord(schedule: Schedule)

  /** The returned schedule and the memory bank after the optional hand-off. */
  datatype PlannerResult = PlannerResult(schedule: Schedule, memory: Option<MemoryBank<HistoryRecord>>)

  /** `schedule[d] = day_blocks` for every day `d`. */
  function BuildSchedule(days: seq<string>, blocks: seq<Block>): (s: Schedule)
    ensures Valid(s) && s.keys == Dedup(days)
    ensures forall d :: d in s.values ==> s.values[d] == blocks
  {
    var ps := seq(|days|, i requires 0 <= i < |days| => (days[i], blocks));
    assert Firsts(ps) == days;
    var s := FromPairs(ps);
    assert forall d :: d in s.values ==> s.values[d] == blocks by {
      forall d | d in s.values ensures s.values[d] == blocks {
        FromPairsSource(ps, d);
      }
    }
    s
  }

  /**
   * `PlannerTool.create_schedule(profile)` with `week_days()` given as `days`
   * and the memory bank, if any, as `memory`: every day gets the same block
   * list, and with a memory bank exactly one record holding the schedule is
   * appended to the history of the profile's `name` ("anon" only when absent).
   */
  function CreateSchedule(p: Profile, days: seq<string>, memory: Option<MemoryBank<HistoryRecord>>, now: Timestamp): (r: PlannerResult)
    ensures Valid(r.schedule) && r.schedule.keys == Dedup(days)
    ensures forall d :: d in r.schedule.values ==> r.schedule.values[d] == DayBlocks(ProfileHours(p))
    ensures memory.None? ==> r.memory.None?
    ensures memory.Some? ==> r.memory.Some?
    ensures memory.Some? ==>
      Query(r.memory.value, HistoryKey(p)) == Query(memory.value, HistoryKey(p)) + [Entry(now, HistoryRecord(r.schedule))]
    ensures memory.Some? ==> forall u :: u != HistoryKey(p) ==> Query(r.memory.value, u) == Query(memory.value, u)
  {
    var schedule := BuildSchedule(days, DayBlocks(ProfileHours(p)));
    var memory' := match memory
      case Some(bank) => Some(Add(bank, HistoryKey(p), HistoryRecord(schedule), now))
      case None => None;
    PlannerResult(schedule, memory')
  }

  /** Every day of the week gets the identical block list. */
  lemma EveryDayIdentical(p: Profile, days: seq<string>, memory: Option<MemoryBank<HistoryRecord>>, now: Timestamp, d1: string, d2: string)
    requires d1 in days && d2 in days
    ensures var s := CreateSchedule(p, days, memory, now).schedule;
      d1 in s.values && d2 in s.values && s.values[d1] == s.values[d2]
  {
  }

  /** With no subjects every day's block list is empty. */
  lemma NoSubjectsNoBlocks(p: Profile, days: seq<string>, memory: Option<MemoryBank<HistoryRecord>>, now: Timestamp, d: string)
    requires SubjectsOf(p) == [] && d in days
    ensures var s := CreateSchedule(p, days, memory, now).schedule;
      d in s.values && s.values[d] == []
  {
    assert ProfileHours(p).keys == [];
  }

  /** Every block of every day is well timed. */
  lemma ScheduleWellTimed(p: Profile, days: seq<string>, memory: Option<MemoryBank<HistoryRecord>>, now: Timestamp)
    ensures var s := CreateSchedule(p, days, memory, now).schedule;
      forall d, i :: d in s.values && 0 <= i < |s.values[d]| ==> WellTimed(s.values[d][i])
  {
    SameBlocksEveryDay(CreateSchedule(p, days, memory, now).schedule, DayBlocks(ProfileHours(p)));
  }

  /** When every day holds the same well-timed blocks, every block of every day is well timed. */
  lemma SameBlocksEveryDay(s: Dict<string, seq<Block>>, blocks: seq<Block>)
    requires forall d :: d in s.values ==> s.values[d] == blocks
    requires forall i :: 0 <= i < |blocks| ==> WellTimed(blocks[i])
    ensures forall d, i :: d in s.values && 0 <= i < |s.values[d]| ==> WellTimed(s.values[d][i])
  {
    forall d, i | d in s.values && 0 <= i < |s.values[d]| ensures WellTimed(s.values[d][i]) {
      assert s.values[d] == blocks;
    }
  }

  /**
   * Each day lists every subject of the profile, each subject's blocks together,
   * subjects in the order of their first occurrence in the profile.
   */
  lemma DaySubjectsFollowProfile(p: Profile, days: seq<string>, memory: Option<MemoryBank<HistoryRecord>>, now: Timestamp, d: string)
    requires d in days
    ensures var s := CreateSchedule(p, days, memory, now).schedule;
      d in s.values && Dedup(BlockSubjects(s.values[d])) == Dedup(SubjectsOf(p))
      && Grouped(BlockSubjects(s.values[d]))
  {
  }

  /** One subject, ten hours, no priorities: weight 1 and all ten hours go to that subject. */
  lemma SingleSubjectHours()
    ensures var h := ProfileHours(Profile(Some("Student"), Some(["Math"]), Some(10.0), None));
      h.keys == ["Math"] && "Math" in h.values && h.values["Math"] == 10.0
  {
    var p := Profile(Some("Student"), Some(["Math"]), Some(10.0), None);
    assert RawWeights(["Math"], map[]) == [1.0];
    assert Weights(["Math"], map[]) == [1.0];
    assert Pow10(1) == 10;
    assert RoundHalfEven(100.0) == 100;
    assert AllocatedHours(1.0, 10.0) == 10.0;
    HoursOfEveryOccurrence(["Math"], map[], 10.0, 0);
    assert ["Math"][..0] == [];
    assert Dedup(["Math"]) == ["Math"];
  }

  /** Ten hours for one subject: seven blocks of 1.43 hours, the first from 09:00 to 11:00. */
  lemma TenHourBlocks()
    ensures var bs := SubjectBlocks("Math", 10.0);
      |bs| == 7 && bs[0].start == "09:00" && bs[0].end == "11:00" && bs[0].hours == 1.43
  {
    TenHourNumbers();
    TenHourClock();
  }

  lemma TenHourNumbers()
    ensures RoundHalfEven(10.0 / 1.5) == 7
    ensures Round2(10.0 / 7.0) == 1.43
    ensures DurationMinutes(10.0) == 120
  {
    assert Pow10(2) == 100;
    assert RoundHalfEven(10.0 / 7.0 * 100.0) == 143;
  }

  lemma TenHourClock()
    ensures FormatClock(540) == "09:00" && FormatClock(660) == "11:00"
  {
  }
}
