/**
 * The row list of `generate_smart_timetable`: 7 days times 3 slots, subjects
 * handed out round-robin, each subject's weekly hours in proportion to
 * `1 + 0.1 * progress`, and a third of those hours in each of its slots.
 * `deadline` and `intensity` are accepted and ignored.
 */
module Timetable {
  import opened Common
  import opened Rounding
  import opened Dicts

  const Days: seq<string> := ["Monday", "Tuesday", "Wednesday", "Thursday", "Friday", "Saturday", "Sunday"]
  const Slots: seq<string> := ["Morning (9-12)", "Afternoon (1-4)", "Evening (6-8)"]
  const DefaultSubject := "General"
  const RowCount := 21
  /** `list(subjects) * 10`: how often the subject list is repeated before cycling through it. */
  const CycleRepeats := 10
  const Summary := "Weekly spaced revision recommended."

  /** One timetable row, `[day, slot, subject, hours]`. */
  datatype Row = Row(day: string, slot: string, subject: string, hours: real)

  /** `subjects`, or `["General"]` when it is empty. */
  function SubjectsOrDefault(subjects: seq<string>): (s: seq<string>)
    ensures s != []
    ensures subjects != [] ==> s == subjects
  {
    if subjects == [] then [DefaultSubject] else subjects
  }

  /** `1 + progress.get(s, 0) * 0.1`. */
  function Weight(progress: map<string, real>, s: string): real {
    1.0 + (if s in progress then progress[s] else 0.0) * 0.1
  }

  /** `{s: f(s) for s in keys}`: one entry per distinct key, in first-occurrence order. */
  function Tabulate(keys: seq<string>, f: string -> real): (d: Dict<string, real>)
    ensures Valid(d) && d.keys == Dedup(keys)
    ensures forall k :: k in d.values <==> k in keys
    ensures forall k :: k in d.values ==> d.values[k] == f(k)
  {
    var ps := seq(|keys|, i requires 0 <= i < |keys| => (keys[i], f(keys[i])));
    assert Firsts(ps) == keys;
    var d := FromPairs(ps);
    assert forall k :: k in d.values ==> d.values[k] == f(k) by {
      forall k | k in d.values ensures d.values[k] == f(k) {
        FromPairsFunctional(ps, f, k);
      }
    }
    assert forall k :: k in d.values <==> k in keys by {
      forall k ensures k in d.values <==> k in keys {
        assert k in d.values <==> k in d.keys;
      }
    }
    d
  }

  /** `weights = {s: 1 + progress.get(s, 0) * 0.1 for s in subjects}`. */
  function WeightTable(subjects: seq<string>, progress: map<string, real>): (d: Dict<string, real>)
    ensures Valid(d) && d.keys == Dedup(subjects)
    ensures forall k :: k in d.values <==> k in subjects
    ensures forall k :: k in d.values ==> d.values[k] == Weight(progress, k)
  {
    Tabulate(subjects, s => Weight(progress, s))
  }

  /** `sum(weights.values()) or 1`: the weights' total, with 1 in place of a zero total. */
  function TotalWeight(weights: Dict<string, real>): (t: real)
    requires Valid(weights)
    ensures t != 0.0
    ensures Sum(ValuesInOrder(weights)) != 0.0 ==> t == Sum(ValuesInOrder(weights))
    ensures Sum(ValuesInOrder(weights)) == 0.0 ==> t == 1.0
  {
    var t := Sum(ValuesInOrder(weights));
    if t == 0.0 then 1.0 else t
  }

  /** A subject's unrounded share of the weekly hours, `(weights[s] / total_weight) * weekly_hours`. */
  function Share(weights: Dict<string, real>, s: string, weeklyHours: real): real
    requires Valid(weights) && s in weights.values
  {
    weights.values[s] / TotalWeight(weights) * weeklyHours
  }

  /** `round((w / total_weight) * weekly_hours, 2)` for a subject of weight `w`. */
  function RoundedShare(weight: real, total: real, weeklyHours: real): real
    requires total != 0.0
  {
    Round2(weight / total * weeklyHours)
  }

  /** `subject_hours`: each distinct subject's share rounded to two decimals. */
  function SubjectHours(subjects: seq<string>, weeklyHours: real, progress: map<string, real>): (d: Dict<string, real>)
    ensures Valid(d) && d.keys == Dedup(subjects)
    ensures forall k :: k in d.values <==> k in subjects
    ensures forall k :: k in d.values ==>
      -0.005 <= d.values[k] - Share(WeightTable(subjects, progress), k, weeklyHours) <= 0.005
  {
    var w := WeightTable(subjects, progress);
    var total := TotalWeight(w);
    var d := Tabulate(subjects, s => RoundedShare(Weight(progress, s), total, weeklyHours));
    forall k | k in d.values
      ensures -0.005 <= d.values[k] - Share(w, k, weeklyHours) <= 0.005
    {
      RoundedShareNear(w, k, d.values[k], weeklyHours);
    }
    d
  }

  lemma RoundedShareNear(w: Dict<string, real>, k: string, v: real, weeklyHours: real)
    requires Valid(w) && k in w.values && v == RoundedShare(w.values[k], TotalWeight(w), weeklyHours)
    ensures -0.005 <= v - Share(w, k, weeklyHours) <= 0.005
  {
  }

  /** `list(subjects) * n`. */
  function Repeat(xs: seq<string>, n: nat): (r: seq<string>)
    ensures |r| == n * |xs|
  {
    if n == 0 then [] else
      var rest := Repeat(xs, n - 1);
      assert n * |xs| == |xs| + (n - 1) * |xs|;
      xs + rest
  }

  /** Position `i` of the repeated list is position `i % len(xs)` of the list. */
  lemma {:induction false} RepeatAt(xs: seq<string>, n: nat, i: nat)
    requires i < |Repeat(xs, n)|
    ensures Repeat(xs, n)[i] == xs[i % |xs|]
  {
    if n > 0 {
      var rest := Repeat(xs, n - 1);
      if i >= |xs| {
        RepeatAt(xs, n - 1, i - |xs|);
        ModShift(i - |xs|, |xs|);
      } else {
        ModUnique(i, |xs|, 0, i);
      }
    }
  }

  /** The slot hours: `round(subject_hours.get(sb, 0) / 3 if sb in subject_hours else round(weekly_hours / 21, 2), 2)`. */
  function SlotHours(subjectHours: Dict<string, real>, sb: string, weeklyHours: real): (h: real)
    ensures sb in subjectHours.values ==> -0.005 <= h - subjectHours.values[sb] / 3.0 <= 0.005
    ensures sb !in subjectHours.values ==> -0.01 <= h - weeklyHours / RowCount as real <= 0.01
  {
    Round2(if sb in subjectHours.values then subjectHours.values[sb] / 3.0 else Round2(weeklyHours / RowCount as real))
  }

  /** Row `k` of the timetable, in closed form. */
  function RowAt(subjects: seq<string>, subjectHours: Dict<string, real>, weeklyHours: real, k: nat): (r: Row)
    requires subjects != [] && k < RowCount
    ensures r.day in Days && r.slot in Slots && r.subject in subjects
    ensures r.subject in subjectHours.values ==> -0.005 <= r.hours - subjectHours.values[r.subject] / 3.0 <= 0.005
  {
    var sb := subjects[k % |subjects|];
    Row(Days[k / 3], Slots[k % 3], sb, SlotHours(subjectHours, sb, weeklyHours))
  }

  lemma {:induction false} MulAtLeast(x: nat, n: nat)
    requires x >= 1
    ensures x * n >= n
  {
    if x > 1 {
      MulAtLeast(x - 1, n);
      assert x * n == (x - 1) * n + n;
    }
  }

  /** The remainder is the unique `m < n` with `a == q * n + m`. */
  lemma ModUnique(a: nat, n: nat, q: nat, m: nat)
    requires n >= 1 && m < n && a == q * n + m
    ensures a % n == m
  {
    var q', m' := a / n, a % n;
    assert a == q' * n + m';
    if q > q' {
      MulAtLeast(q - q', n);
      assert false;
    } else if q < q' {
      MulAtLeast(q' - q, n);
      assert false;
    }
  }

  lemma ModShift(a: nat, n: nat)
    requires n >= 1
    ensures (a + n) % n == a % n
  {
    var q := a / n;
    assert a == q * n + a % n;
    assert a + n == (q + 1) * n + a % n;
    ModUnique(a + n, n, q + 1, a % n);
  }

  /** `(a % (m * n)) % n == a % n`: cycling through `m` copies of a list is cycling through the list. */
  lemma ModOfMultiple(a: nat, m: nat, n: nat)
    requires m >= 1 && n >= 1
    ensures (a % (m * n)) % n == a % n
  {
    var mn := m * n;
    MulAtLeast(m, n);
    var r := a % mn;
    DivMod(a, mn);
    DivMod(r, n);
    MulRegroup(a, a / mn, m, n, r / n, r % n);
    ModUnique(a, n, (a / mn) * m + r / n, r % n);
  }

  lemma DivMod(a: nat, d: nat)
    requires d >= 1
    ensures a == (a / d) * d + a % d && a % d < d
  {
  }

  lemma MulRegroup(a: nat, q: nat, m: nat, n: nat, q2: nat, r2: nat)
    requires a == q * (m * n) + (q2 * n + r2)
    ensures a == (q * m + q2) * n + r2
  {
    assert q * (m * n) == (q * m) * n;
    assert (q * m) * n + q2 * n == (q * m + q2) * n;
  }

  /** The row built for day `d` and slot `sl` from the repeated subject list is row `3 * d + sl`. */
  lemma CycleRow(subs: seq<string>, subjectHours: Dict<string, real>, weeklyHours: real, d: nat, sl: nat)
    requires subs != [] && d < |Days| && sl < |Slots|
    ensures var idx := 3 * d + sl;
      var cycle := Repeat(subs, CycleRepeats);
      var sb := cycle[idx % |cycle|];
      RowAt(subs, subjectHours, weeklyHours, idx) == Row(Days[d], Slots[sl], sb, SlotHours(subjectHours, sb, weeklyHours))
  {
    var idx := 3 * d + sl;
    var cycle := Repeat(subs, CycleRepeats);
    RepeatAt(subs, CycleRepeats, idx % |cycle|);
    ModOfMultiple(idx, CycleRepeats, |subs|);
    assert idx / 3 == d && idx % 3 == sl;
  }

  lemma AppendRow(subs: seq<string>, subjectHours: Dict<string, real>, weeklyHours: real, rows: seq<Row>, r: Row)
    requires subs != [] && |rows| < RowCount
    requires forall k :: 0 <= k < |rows| ==> rows[k] == RowAt(subs, subjectHours, weeklyHours, k)
    requires r == RowAt(subs, subjectHours, weeklyHours, |rows|)
    ensures forall k :: 0 <= k < |rows| + 1 ==> (rows + [r])[k] == RowAt(subs, subjectHours, weeklyHours, k)
  {
  }

  /**
   * `generate_smart_timetable(subjects, weekly_hours, deadline, intensity, progress)`,
   * returning the rows, `subject_hours` and the summary; the DataFrame and its
   * pivot are left to pandas.
   */
  method GenerateSmartTimetable(subjects: seq<string>, weeklyHours: real, progress: map<string, real>)
    returns (rows: seq<Row>, subjectHours: Dict<string, real>, summary: string)
    ensures subjectHours == SubjectHours(SubjectsOrDefault(subjects), weeklyHours, progress)
    ensures |rows| == RowCount
    ensures forall k :: 0 <= k < RowCount ==> rows[k] == RowAt(SubjectsOrDefault(subjects), subjectHours, weeklyHours, k)
    ensures summary == Summary
  {
    var subs := SubjectsOrDefault(subjects);
    subjectHours := SubjectHours(subs, weeklyHours, progress);
    rows := BuildRows(subs, subjectHours, weeklyHours);
    summary := Summary;
  }

  /** The two nested loops over days and slots, handing out `subject_cycle[idx % len(subject_cycle)]`. */
  method BuildRows(subs: seq<string>, subjectHours: Dict<string, real>, weeklyHours: real) returns (rows: seq<Row>)
    requires subs != []
    ensures |rows| == RowCount
    ensures forall k :: 0 <= k < RowCount ==> rows[k] == RowAt(subs, subjectHours, weeklyHours, k)
  {
    rows := [];
    var d := 0;
    while d < |Days|
      invariant 0 <= d <= |Days| && |rows| == 3 * d
      invariant forall k :: 0 <= k < |rows| ==> rows[k] == RowAt(subs, subjectHours, weeklyHours, k)
    {
      rows := BuildDay(subs, subjectHours, weeklyHours, d, rows);
      d := d + 1;
    }
  }

  /** The inner loop over the slots of day `d`, continuing the running index `idx == 3 * d + sl`. */
  method BuildDay(subs: seq<string>, subjectHours: Dict<string, real>, weeklyHours: real, d: nat, before: seq<Row>)
    returns (rows: seq<Row>)
    requires subs != [] && d < |Days| && |before| == 3 * d
    requires forall k :: 0 <= k < |before| ==> before[k] == RowAt(subs, subjectHours, weeklyHours, k)
    ensures |rows| == 3 * d + 3
    ensures forall k :: 0 <= k < |rows| ==> rows[k] == RowAt(subs, subjectHours, weeklyHours, k)
  {
    var cycle := Repeat(subs, CycleRepeats);
    rows := before;
    var idx := 3 * d;
    var sl := 0;
    while sl < |Slots|
      invariant 0 <= sl <= |Slots| && idx == 3 * d + sl && |rows| == idx
      invariant forall k :: 0 <= k < idx ==> rows[k] == RowAt(subs, subjectHours, weeklyHours, k)
    {
      var sb := cycle[idx % |cycle|];
      var hrs := SlotHours(subjectHours, sb, weeklyHours);
      CycleRow(subs, subjectHours, weeklyHours, d, sl);
      AppendRow(subs, subjectHours, weeklyHours, rows, Row(Days[d], Slots[sl], sb, hrs));
      rows := rows + [Row(Days[d], Slots[sl], sb, hrs)];
      idx := idx + 1;
      sl := sl + 1;
    }
  }

  // ---------------------------------------------------------------------------
  // Properties

  /** Every (day, slot) pair has exactly one row: row `3 * d + s` is day `d`, slot `s`. */
  lemma EachDaySlotOnce(subjects: seq<string>, subjectHours: Dict<string, real>, weeklyHours: real, d: nat, s: nat)
    requires subjects != [] && d < |Days| && s < |Slots|
    ensures var r := RowAt(subjects, subjectHours, weeklyHours, 3 * d + s);
      r.day == Days[d] && r.slot == Slots[s]
    ensures forall k :: 0 <= k < RowCount && k != 3 * d + s ==>
      var r := RowAt(subjects, subjectHours, weeklyHours, k);
      r.day != Days[d] || r.slot != Slots[s]
  {
    forall k | 0 <= k < RowCount && k != 3 * d + s
      ensures var r := RowAt(subjects, subjectHours, weeklyHours, k); r.day != Days[d] || r.slot != Slots[s]
    {
      var r := RowAt(subjects, subjectHours, weeklyHours, k);
      if k / 3 != d {
        DaysDistinct(k / 3, d);
      } else {
        assert k % 3 != s;
        SlotsDistinct(k % 3, s);
      }
    }
  }

  lemma DaysDistinct(i: nat, j: nat)
    requires i < |Days| && j < |Days| && i != j
    ensures Days[i] != Days[j]
  {
    assert Days[i][0] != Days[j][0] || Days[i][1] != Days[j][1];
  }

  lemma SlotsDistinct(i: nat, j: nat)
    requires i < |Slots| && j < |Slots| && i != j
    ensures Slots[i] != Slots[j]
  {
    assert Slots[i][0] != Slots[j][0];
  }

  /** The subjects repeat with period `N`: rows `k` and `k + N` have the same subject and hours. */
  lemma RoundRobin(subjects: seq<string>, subjectHours: Dict<string, real>, weeklyHours: real, k: nat)
    requires subjects != [] && k + |subjects| < RowCount
    ensures var a := RowAt(subjects, subjectHours, weeklyHours, k);
      var b := RowAt(subjects, subjectHours, weeklyHours, k + |subjects|);
      a.subject == b.subject && a.hours == b.hours
  {
    ModShift(k, |subjects|);
  }

  /** With at most 21 subjects in the list, every one of them gets at least one row. */
  lemma EverySubjectScheduled(subjects: seq<string>, subjectHours: Dict<string, real>, weeklyHours: real, s: string)
    requires s in subjects && |subjects| <= RowCount
    ensures exists k :: 0 <= k < RowCount && RowAt(subjects, subjectHours, weeklyHours, k).subject == s
  {
    var i := FirstIndex(subjects, s);
    ModUnique(i, |subjects|, 0, i);
    assert RowAt(subjects, subjectHours, weeklyHours, i).subject == s;
  }

  /** The slot hours are a third of the subject's hours: the fallback for an unknown subject never applies. */
  lemma SlotHoursAreThirds(subjects: seq<string>, weeklyHours: real, progress: map<string, real>, k: nat)
    requires k < RowCount
    ensures var subs := SubjectsOrDefault(subjects);
      var sh := SubjectHours(subs, weeklyHours, progress);
      var r := RowAt(subs, sh, weeklyHours, k);
      r.subject in sh.values && -0.005 <= r.hours - sh.values[r.subject] / 3.0 <= 0.005
  {
    var subs := SubjectsOrDefault(subjects);
    assert subs[k % |subs|] in subs;
  }

  /** The unrounded shares `(w / total_weight) * weekly_hours`, in key order. */
  function Shares(weights: Dict<string, real>, weeklyHours: real): (r: seq<real>)
    requires Valid(weights)
    ensures |r| == |weights.keys|
    ensures forall i :: 0 <= i < |r| ==> r[i] == ValuesInOrder(weights)[i] / TotalWeight(weights) * weeklyHours
  {
    seq(|weights.keys|, i requires 0 <= i < |weights.keys| => Share(weights, weights.keys[i], weeklyHours))
  }

  /**
   * Whenever the weights do not add up to zero, the unrounded shares add up
   * to the weekly hours: the split is proportional and loses nothing.
   */
  lemma SharesSumToWeekly(weights: Dict<string, real>, weeklyHours: real)
    requires Valid(weights) && Sum(ValuesInOrder(weights)) != 0.0
    ensures Sum(Shares(weights, weeklyHours)) == weeklyHours
  {
    SharesScaled(weights, weeklyHours);
    SumProportional(ValuesInOrder(weights), weeklyHours);
  }

  /** The shares are the weights divided by their total and scaled by the weekly hours. */
  lemma SharesScaled(weights: Dict<string, real>, weeklyHours: real)
    requires Valid(weights)
    ensures Shares(weights, weeklyHours) == ScaleAll(DivideAll(ValuesInOrder(weights), TotalWeight(weights)), weeklyHours)
  {
    PointwiseScaled(ValuesInOrder(weights), Shares(weights, weeklyHours), TotalWeight(weights), weeklyHours);
  }

  lemma PointwiseScaled(vs: seq<real>, shares: seq<real>, t: real, h: real)
    requires t != 0.0 && |shares| == |vs|
    requires forall i :: 0 <= i < |vs| ==> shares[i] == vs[i] / t * h
    ensures shares == ScaleAll(DivideAll(vs, t), h)
  {
    var scaled := ScaleAll(DivideAll(vs, t), h);
    forall i | 0 <= i < |vs| ensures shares[i] == scaled[i] {
      assert scaled[i] == DivideAll(vs, t)[i] * h;
    }
  }

  /** Weights built from non-negative progress never add up to zero, so the shares always add up. */
  lemma WeightsPositive(subjects: seq<string>, progress: map<string, real>)
    requires forall s :: s in progress ==> progress[s] >= 0.0
    requires subjects != []
    ensures Sum(ValuesInOrder(WeightTable(subjects, progress))) >= 1.0
  {
    var vs := ValuesInOrder(WeightTable(subjects, progress));
    WeightsAtLeastOne(subjects, progress);
    assert subjects[0] in Dedup(subjects);
    SumAtLeastOne(vs);
  }

  lemma WeightsAtLeastOne(subjects: seq<string>, progress: map<string, real>)
    requires forall s :: s in progress ==> progress[s] >= 0.0
    ensures var vs := ValuesInOrder(WeightTable(subjects, progress));
      |vs| == |Dedup(subjects)| && forall i :: 0 <= i < |vs| ==> vs[i] >= 1.0
  {
    var w := WeightTable(subjects, progress);
    var vs := ValuesInOrder(w);
    forall i | 0 <= i < |vs| ensures vs[i] >= 1.0 {
      assert vs[i] == Weight(progress, w.keys[i]);
    }
  }

  lemma {:induction false} SumAtLeastOne(xs: seq<real>)
    requires xs != [] && forall i :: 0 <= i < |xs| ==> xs[i] >= 1.0
    ensures Sum(xs) >= 1.0
    decreases |xs|
  {
    if |xs| > 1 {
      SumAtLeastOne(xs[..|xs| - 1]);
    }
  }

  /** Without progress every weight is 1, so the total weight is the number of distinct subjects. */
  lemma UnitWeightsTotal(subjects: seq<string>)
    requires subjects != []
    ensures TotalWeight(WeightTable(subjects, map[])) == |Dedup(subjects)| as real
  {
    var w := WeightTable(subjects, map[]);
    UnitValues(subjects);
    assert subjects[0] in Dedup(subjects);
    TotalOfUnitWeights(w);
  }

  /** Weights that are all 1 total the number of keys. */
  lemma TotalOfUnitWeights(w: Dict<string, real>)
    requires Valid(w) && w.keys != []
    requires forall i :: 0 <= i < |ValuesInOrder(w)| ==> ValuesInOrder(w)[i] == 1.0
    ensures TotalWeight(w) == |w.keys| as real
  {
    var vs := ValuesInOrder(w);
    SumConstant(vs, 1.0);
  }

  /** Without progress there is one weight of 1 per distinct subject. */
  lemma UnitValues(subjects: seq<string>)
    ensures var vs := ValuesInOrder(WeightTable(subjects, map[]));
      |vs| == |Dedup(subjects)| && forall i :: 0 <= i < |vs| ==> vs[i] == 1.0
  {
  }

  /** Without progress every distinct subject gets `round(weekly_hours / D, 2)`, `D` the number of distinct subjects. */
  lemma NoProgressEqualSplit(subjects: seq<string>, weeklyHours: real, s: string)
    requires s in subjects
    ensures var sh := SubjectHours(subjects, weeklyHours, map[]);
      s in sh.values && -0.005 <= sh.values[s] - weeklyHours / |Dedup(subjects)| as real <= 0.005
  {
    var w := WeightTable(subjects, map[]);
    UnitWeightsTotal(subjects);
    var n := |Dedup(subjects)| as real;
    UnitShare(w, s, weeklyHours, n);
  }

  lemma UnitShare(w: Dict<string, real>, s: string, weeklyHours: real, n: real)
    requires Valid(w) && s in w.values && w.values[s] == 1.0 && TotalWeight(w) == n
    ensures Share(w, s, weeklyHours) == weeklyHours / n
  {
  }

  /** No subjects at all: every row is the `General` subject with all the weekly hours. */
  lemma EmptySubjectsGeneral(weeklyHours: real, k: nat)
    requires k < RowCount
    ensures var subs := SubjectsOrDefault([]);
      var sh := SubjectHours(subs, weeklyHours, map[]);
      RowAt(subs, sh, weeklyHours, k).subject == DefaultSubject
      && -0.005 <= sh.values[DefaultSubject] - weeklyHours <= 0.005
  {
    assert SubjectsOrDefault([]) == [DefaultSubject];
    GeneralRow(SubjectHours([DefaultSubject], weeklyHours, map[]), weeklyHours, k);
    GeneralHours(weeklyHours);
  }

  lemma GeneralRow(sh: Dict<string, real>, weeklyHours: real, k: nat)
    requires k < RowCount
    ensures RowAt([DefaultSubject], sh, weeklyHours, k).subject == DefaultSubject
  {
    assert k % 1 == 0;
  }

  lemma GeneralHours(weeklyHours: real)
    ensures var sh := SubjectHours([DefaultSubject], weeklyHours, map[]);
      DefaultSubject in sh.values && -0.005 <= sh.values[DefaultSubject] - weeklyHours <= 0.005
  {
    var subs := [DefaultSubject];
    var sh := SubjectHours(subs, weeklyHours, map[]);
    NoProgressEqualSplit(subs, weeklyHours, DefaultSubject);
    DedupSingle(DefaultSubject);
    NearOverOne(sh.values[DefaultSubject], weeklyHours, |Dedup(subs)| as real);
  }

  lemma DedupSingle(x: string)
    ensures |Dedup([x])| == 1
  {
    assert [x][..0] == [];
  }

  lemma NearOverOne(v: real, w: real, n: real)
    requires n == 1.0 && -0.005 <= v - w / n <= 0.005
    ensures -0.005 <= v - w <= 0.005
  {
  }
}
