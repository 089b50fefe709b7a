/** The switching table that the PWM driver builds from its channels' duties:
    sorting, merging, taking time differences and dropping a leading zero entry
    all keep the waveform that the channels asked for. */
module PwmTable {

  /** One switching instant: pins to raise, pins to lower, and a time, first from
      the start of the period and later from the entry before. The 16-bit masks
      are sets of pin numbers. */
  datatype Entry = Entry(gpioSet: set<nat>, gpioClear: set<nat>, hTime: nat)

  type Table = seq<Entry>

  // ----- the building steps -----

  /** Step 1: an entry for the end of each channel's pulse, and one for the period. */
  function Initial(pins: seq<nat>, ticks: seq<nat>, total: nat): (s: Table)
    requires |ticks| == |pins|
    ensures |s| == |pins| + 1
  {
    seq(|pins|, i requires 0 <= i < |pins| => Entry({}, {pins[i]}, ticks[i])) + [Entry(AllPins(pins), {}, total)]
  }

  function AllPins(pins: seq<nat>): set<nat> {
    set p | p in pins
  }

  predicate Before(s: Table, j: nat, k: nat)
    requires j < k < |s|
  {
    s[j].hTime <= s[k].hTime
  }

  predicate Sorted(s: Table) {
    forall j, k :: 0 <= j < k < |s| ==> Before(s, j, k)
  }

  /** Insertion into a sorted table, behind entries with the same time. */
  function Insert(s: Table, x: Entry): (r: Table)
    ensures |r| == |s| + 1
  {
    if s != [] && x.hTime < s[|s| - 1].hTime then Insert(s[..|s| - 1], x) + [s[|s| - 1]] else s + [x]
  }

  /** Step 2. */
  function Sort(s: Table): (r: Table)
    ensures |r| == |s|
  {
    if s == [] then [] else Insert(Sort(s[..|s| - 1]), s[|s| - 1])
  }

  function Join(a: Entry, b: Entry): Entry {
    Entry(a.gpioSet + b.gpioSet, a.gpioClear + b.gpioClear, a.hTime)
  }

  /** Entries `i - 1` and `i` become one. */
  function JoinAt(s: Table, i: nat): (r: Table)
    requires 0 < i < |s|
    ensures |r| == |s| - 1
  {
    seq(|s| - 1, k requires 0 <= k < |s| - 1 =>
      if k < i - 1 then s[k] else if k == i - 1 then Join(s[i - 1], s[i]) else s[k + 1])
  }

  /** Step 3: from entry `i` down, entries with equal times are joined. */
  function MergeFrom(s: Table, i: nat): (r: Table)
    requires i < |s|
    ensures 1 <= |r| <= |s|
    decreases i
  {
    if i == 0 then s
    else if s[i].hTime == s[i - 1].hTime then MergeFrom(JoinAt(s, i), i - 1)
    else MergeFrom(s, i - 1)
  }

  predicate Rises(s: Table, k: nat)
    requires 0 < k < |s|
  {
    s[k - 1].hTime < s[k].hTime
  }

  predicate Increasing(s: Table, first: nat) {
    forall k :: first < k < |s| ==> Rises(s, k)
  }

  /** Step 4: times become differences. */
  function Delta(s: Table): (r: Table)
    requires Increasing(s, 0)
    ensures |r| == |s|
  {
    seq(|s|, k requires 0 <= k < |s| =>
      if k == 0 then s[0] else assert Rises(s, k); s[k].(hTime := s[k].hTime - s[k - 1].hTime))
  }

  /** Whether the first entry is dropped. */
  function Dropped(s: Table): nat
    requires s != []
  {
    if s[0].hTime == 0 then 1 else 0
  }

  /** The pins lowered at time 0, whose entry is dropped. */
  function AtZero(s: Table): set<nat>
    requires s != []
  {
    if Dropped(s) == 1 && |s| > 1 then s[0].gpioClear else {}
  }

  /** Steps 5 and 6: the last entry lowers nothing but the pins that would be
      lowered at time 0, and does not raise those. */
  function Finish(s: Table): (r: Table)
    requires s != []
    ensures |r| == |s| - Dropped(s)
  {
    var d := Dropped(s);
    seq(|s| - d, k requires 0 <= k < |s| - d =>
      var e := s[k + d];
      if k + d + 1 < |s| then e else Entry(e.gpioSet - AtZero(s), AtZero(s), e.hTime))
  }

  function Build(pins: seq<nat>, ticks: seq<nat>, total: nat): Table
    requires |ticks| == |pins|
  {
    var s := Sort(Initial(pins, ticks, total));
    SortSorts(Initial(pins, ticks, total));
    MergeKeepsEffect(s, |s| - 1);
    Finish(Delta(MergeFrom(s, |s| - 1)))
  }

  // ----- sorting -----

  lemma {:induction false} InsertSorts(s: Table, x: Entry)
    requires Sorted(s)
    ensures Sorted(Insert(s, x)) && multiset(Insert(s, x)) == multiset(s) + multiset{x}
  {
    if s != [] && x.hTime < s[|s| - 1].hTime {
      var n := |s| - 1;
      var up := s[..n];
      assert s == up + [s[n]];
      assert forall j, k :: 0 <= j < k < n ==> Before(s, j, k) ==> Before(up, j, k);
      InsertSorts(up, x);
      var r := Insert(up, x);
      forall j | 0 <= j < |r|
        ensures r[j].hTime <= s[n].hTime
      {
        InsertFrom(up, x, j);
        if k :| 0 <= k < n && r[j] == up[k] {
          assert Before(s, k, n);
        }
      }
      SortedSnoc(r, s[n]);
    } else {
      forall j | 0 <= j < |s|
        ensures s[j].hTime <= x.hTime
      {
        assert j < |s| - 1 ==> Before(s, j, |s| - 1);
      }
      SortedSnoc(s, x);
    }
  }

  lemma SortedSnoc(s: Table, x: Entry)
    requires Sorted(s) && forall j :: 0 <= j < |s| ==> s[j].hTime <= x.hTime
    ensures Sorted(s + [x])
  {
    forall j, k | 0 <= j < k < |s + [x]|
      ensures Before(s + [x], j, k)
    {
      assert k < |s| ==> Before(s, j, k);
    }
  }

  /** Every entry after an insertion is the new one or an old one. */
  lemma {:induction false} InsertFrom(s: Table, x: Entry, j: nat)
    requires j <= |s|
    ensures Insert(s, x)[j] == x || exists k :: 0 <= k < |s| && Insert(s, x)[j] == s[k]
  {
    if s != [] && x.hTime < s[|s| - 1].hTime {
      if j < |s| {
        InsertFrom(s[..|s| - 1], x, j);
      }
    }
  }

  lemma {:induction false} SortSorts(s: Table)
    ensures Sorted(Sort(s)) && multiset(Sort(s)) == multiset(s)
  {
    if s == [] {
    } else {
      var up := s[..|s| - 1];
      SortSorts(up);
      InsertSorts(Sort(up), s[|s| - 1]);
      assert s == up + [s[|s| - 1]];
    }
  }

  // ----- what a table with absolute times does -----

  function Mask(e: Entry, raise: bool): set<nat> {
    if raise then e.gpioSet else e.gpioClear
  }

  /** By time `t`, `p` has been raised, or lowered. */
  ghost predicate Hits(s: Table, p: nat, t: nat, raise: bool) {
    exists k :: 0 <= k < |s| && Hit(s[k], p, t, raise)
  }

  predicate Hit(e: Entry, p: nat, t: nat, raise: bool) {
    e.hTime <= t && p in Mask(e, raise)
  }

  ghost predicate SameEffect(a: Table, b: Table) {
    forall p: nat, t: nat, raise: bool :: Hits(a, p, t, raise) <==> Hits(b, p, t, raise)
  }

  lemma PermutationKeepsEffect(a: Table, b: Table)
    requires multiset(a) == multiset(b)
    ensures SameEffect(a, b)
  {
    forall p: nat, t: nat, raise: bool
      ensures Hits(a, p, t, raise) <==> Hits(b, p, t, raise)
    {
      IncludedEffect(a, b, p, t, raise);
      IncludedEffect(b, a, p, t, raise);
    }
  }

  lemma IncludedEffect(a: Table, b: Table, p: nat, t: nat, raise: bool)
    requires multiset(a) == multiset(b)
    ensures Hits(a, p, t, raise) ==> Hits(b, p, t, raise)
  {
    forall k | 0 <= k < |a|
      ensures exists j :: 0 <= j < |b| && b[j] == a[k]
    {
      assert a[k] in multiset(a);
      assert a[k] in b;
    }
  }

  lemma JoinAtIs(s: Table, i: nat)
    requires 0 < i < |s|
    ensures forall k {:trigger JoinAt(s, i)[k]} :: 0 <= k < |s| - 1 ==>
              JoinAt(s, i)[k] == if k < i - 1 then s[k] else if k == i - 1 then Join(s[i - 1], s[i]) else s[k + 1]
  {
  }

  lemma JoinKeepsEffect(s: Table, i: nat, p: nat, t: nat, raise: bool)
    requires 0 < i < |s| && s[i].hTime == s[i - 1].hTime
    ensures Hits(JoinAt(s, i), p, t, raise) <==> Hits(s, p, t, raise)
  {
    var r := JoinAt(s, i);
    JoinAtIs(s, i);
    if k :| 0 <= k < |s| && Hit(s[k], p, t, raise) {
      assert Hit(r[if k < i then k else k - 1], p, t, raise);
    }
    if j :| 0 <= j < |r| && Hit(r[j], p, t, raise) {
      assert Hit(s[if j < i then j else j + 1], p, t, raise) || (j == i - 1 && Hit(s[i], p, t, raise));
    }
  }

  lemma JoinKeepsAll(s: Table, i: nat)
    requires 0 < i < |s| && s[i].hTime == s[i - 1].hTime
    ensures SameEffect(JoinAt(s, i), s)
  {
    forall p: nat, t: nat, raise: bool
      ensures Hits(JoinAt(s, i), p, t, raise) <==> Hits(s, p, t, raise)
    {
      JoinKeepsEffect(s, i, p, t, raise);
    }
  }

  lemma SameEffectTransitive(a: Table, b: Table, c: Table)
    requires SameEffect(a, b) && SameEffect(b, c)
    ensures SameEffect(a, c)
  {
  }

  lemma JoinShape(s: Table, i: nat)
    requires 0 < i < |s| && s[i].hTime == s[i - 1].hTime && Sorted(s) && Increasing(s, i)
    ensures var r := JoinAt(s, i);
            Sorted(r) && Increasing(r, i - 1) && r[|r| - 1].hTime == s[|s| - 1].hTime
  {
    var r := JoinAt(s, i);
    JoinAtIs(s, i);
    forall j, k | 0 <= j < k < |r|
      ensures Before(r, j, k)
    {
      assert Before(s, if j < i then j else j + 1, if k < i then k else k + 1);
    }
    forall k | i - 1 < k < |r|
      ensures Rises(r, k)
    {
      assert Rises(s, k + 1);
    }
  }

  /** Joining equal times leaves strictly increasing ones and the same effect. */
  lemma {:induction false} MergeKeepsEffect(s: Table, i: nat)
    requires i < |s| && Sorted(s) && Increasing(s, i)
    ensures var r := MergeFrom(s, i);
            && Increasing(r, 0) && SameEffect(r, s)
            && r[|r| - 1].hTime == s[|s| - 1].hTime
    decreases i
  {
    if i == 0 {
    } else {
      if s[i].hTime == s[i - 1].hTime {
        JoinShape(s, i);
        JoinKeepsAll(s, i);
        MergeKeepsEffect(JoinAt(s, i), i - 1);
        SameEffectTransitive(MergeFrom(s, i), JoinAt(s, i), s);
      } else {
        assert Before(s, i - 1, i);
        assert Rises(s, i);
        MergeKeepsEffect(s, i - 1);
      }
    }
  }

  // ----- the waveform of a finished table -----

  /** A stretch of one cycle: the pins that are high, and for how many ticks. */
  datatype Segment = Segment(high: set<nat>, ticks: nat)

  function Apply(high: set<nat>, e: Entry): set<nat> {
    high + e.gpioSet - e.gpioClear
  }

  /** The pins that are high after the boundary and the first `k` entries. */
  function HighAfter(table: Table, before: set<nat>, k: nat): set<nat>
    requires k < |table|
  {
    if k == 0 then Apply(before, table[|table| - 1])
    else Apply(HighAfter(table, before, k - 1), table[k - 1])
  }

  /** One cycle: at the boundary the last entry is output, then the others each
      after the time before them. */
  function Cycle(table: Table, before: set<nat>): (c: seq<Segment>)
    ensures |c| == |table|
  {
    seq(|table|, k requires 0 <= k < |table| => Segment(HighAfter(table, before, k), table[k].hTime))
  }

  /** The pins that are high after a cold start and the first `k` entries: the start
      routine outputs the first entry, and the handler does so again. */
  function ColdHigh(table: Table, before: set<nat>, k: nat): set<nat>
    requires k < |table|
  {
    if k == 0 then Apply(before, table[0])
    else Apply(ColdHigh(table, before, k - 1), table[k - 1])
  }

  /** What is put out between a cold start and the first boundary. */
  function ColdCycle(table: Table, before: set<nat>): (c: seq<Segment>)
    ensures |c| == |table|
  {
    seq(|table|, k requires 0 <= k < |table| => Segment(ColdHigh(table, before, k), table[k].hTime))
  }

  /** Ticks before segment `k`. */
  function Elapsed(cycle: seq<Segment>, k: nat): nat
    requires k <= |cycle|
  {
    if k == 0 then 0 else Elapsed(cycle, k - 1) + cycle[k - 1].ticks
  }

  /** The pins that are high at tick `t` of a cycle, searching from segment `k`. */
  function HighAt(cycle: seq<Segment>, k: nat, t: nat): set<nat>
    requires k < |cycle|
    decreases |cycle| - k
  {
    if t < cycle[k].ticks || k + 1 == |cycle| then cycle[k].high
    else HighAt(cycle, k + 1, t - cycle[k].ticks)
  }

  /** The cycle lasts `total` ticks, and each pin is high for exactly the first
      ticks that its channel asks for. */
  ghost predicate PulsesAre(cycle: seq<Segment>, pins: seq<nat>, ticks: seq<nat>, total: nat)
    requires |ticks| == |pins|
  {
    && cycle != []
    && Elapsed(cycle, |cycle|) == total
    && forall t: nat, i: nat :: t < total && i < |pins| ==> (pins[i] in HighAt(cycle, 0, t) <==> t < ticks[i])
  }

  // ----- the finished table keeps the channels' pulses -----

  lemma {:induction false} IncreasingIsSorted(s: Table, j: nat, k: nat)
    requires Increasing(s, 0) && j <= k < |s|
    ensures s[j].hTime <= s[k].hTime && (j < k ==> s[j].hTime < s[k].hTime)
    decreases k
  {
    if j < k {
      assert Rises(s, k);
      IncreasingIsSorted(s, j, k - 1);
    }
  }

  /** `f` is the finished form of `s`: times are gaps, and the last entry takes
      over what happens at time 0. */
  ghost predicate Finishes(f: Table, s: Table) {
    && s != [] && |f| == |s| - Dropped(s)
    && forall k {:trigger f[k]} :: 0 <= k < |f| ==> FinishesAt(f, s, k)
  }

  ghost predicate FinishesAt(f: Table, s: Table, k: nat)
    requires s != [] && |f| == |s| - Dropped(s) && k < |f|
  {
    var i := k + Dropped(s);
    && f[k].hTime == s[i].hTime - (if i == 0 then 0 else s[i - 1].hTime)
    && f[k].gpioSet == (if i + 1 < |s| then s[i].gpioSet else s[i].gpioSet - AtZero(s))
    && f[k].gpioClear == if i + 1 < |s| then s[i].gpioClear else AtZero(s)
  }

  lemma DeltaIs(s: Table, k: nat)
    requires Increasing(s, 0) && k < |s|
    ensures k > 0 ==> Rises(s, k)
    ensures Delta(s)[k] == s[k].(hTime := s[k].hTime - if k == 0 then 0 else s[k - 1].hTime)
  {
  }

  lemma FinishIs(d: Table, k: nat)
    requires d != [] && k < |d| - Dropped(d)
    ensures Finish(d)[k] == var e := d[k + Dropped(d)];
                            if k + Dropped(d) + 1 < |d| then e else Entry(e.gpioSet - AtZero(d), AtZero(d), e.hTime)
  {
  }

  lemma FinishFinishes(s: Table)
    requires s != [] && Increasing(s, 0)
    ensures Finishes(Finish(Delta(s)), s)
  {
    DeltaIs(s, 0);
    forall k | 0 <= k < |s| - Dropped(s)
      ensures FinishesAt(Finish(Delta(s)), s, k)
    {
      FinishIs(Delta(s), k);
      DeltaIs(s, k + Dropped(s));
    }
  }

  /** The segments last as long as the entries say. */
  predicate Timed(c: seq<Segment>, f: Table) {
    |c| == |f| && forall k :: 0 <= k < |c| ==> c[k].ticks == f[k].hTime
  }

  /** The cycle reaches segment `k` at the absolute time of the entry before it. */
  lemma {:induction false} ElapsedIs(c: seq<Segment>, f: Table, s: Table, k: nat)
    requires Finishes(f, s) && Timed(c, f) && k <= |f|
    ensures Elapsed(c, k) == if k + Dropped(s) == 0 then 0 else s[k + Dropped(s) - 1].hTime
    decreases k
  {
    if k == 0 {
    } else {
      ElapsedIs(c, f, s, k - 1);
    }
  }

  /** A table with absolute times whose last entry, at a later time than the
      others, raises all pins, and whose other entries only lower pins. */
  ghost predicate Schedule(s: Table, all: set<nat>) {
    && s != [] && Increasing(s, 0) && s[|s| - 1].hTime > 0
    && s[|s| - 1].gpioSet == all
    && forall k :: 0 <= k < |s| - 1 ==> s[k].gpioSet == {}
  }

  /** A pin is high in segment `k` unless an entry up to there lowered it. */
  lemma {:induction false} HighIs(f: Table, s: Table, all: set<nat>, before: set<nat>, k: nat, p: nat)
    requires Finishes(f, s) && Schedule(s, all) && k < |f| && p in all
    ensures p in HighAfter(f, before, k)
       <==> forall j :: 0 <= j < k + Dropped(s) ==> p !in s[j].gpioClear
    decreases k
  {
    if k == 0 {
      assert f[|f| - 1].gpioSet == all - AtZero(s) && f[|f| - 1].gpioClear == AtZero(s);
      assert p in HighAfter(f, before, 0) <==> p !in AtZero(s);
    } else {
      HighIs(f, s, all, before, k - 1, p);
      var e := s[k - 1 + Dropped(s)];
      assert f[k - 1].gpioSet == {} && f[k - 1].gpioClear == e.gpioClear;
    }
  }

  /** The segment that tick `t` falls into. */
  lemma {:induction false} SegmentAt(c: seq<Segment>, k: nat, t: nat) returns (j: nat)
    requires k < |c| && Elapsed(c, k) + t < Elapsed(c, |c|)
    ensures k <= j < |c| && HighAt(c, k, t) == c[j].high
    ensures Elapsed(c, j) <= Elapsed(c, k) + t < Elapsed(c, j + 1)
    decreases |c| - k
  {
    j := k;
    if t >= c[k].ticks {
      j := SegmentAt(c, k + 1, t - c[k].ticks);
    }
  }

  /** What was lowered by `t` was lowered by the entries up to `t`. */
  lemma LoweredBefore(s: Table, n: nat, t: nat, p: nat)
    requires Increasing(s, 0) && n <= |s|
    requires (n > 0 ==> s[n - 1].hTime <= t) && (n < |s| ==> t < s[n].hTime)
    ensures Hits(s, p, t, false) <==> exists j :: 0 <= j < n && p in s[j].gpioClear
  {
    forall k | 0 <= k < |s|
      ensures s[k].hTime <= t <==> k < n
    {
      if k < n {
        IncreasingIsSorted(s, k, n - 1);
      } else {
        IncreasingIsSorted(s, n, k);
      }
    }
    if j :| 0 <= j < n && p in s[j].gpioClear {
      assert Hit(s[j], p, t, false);
    }
    if k :| 0 <= k < |s| && Hit(s[k], p, t, false) {
      assert k < n && p in s[k].gpioClear;
    }
  }

  /** At tick `t` exactly the pins are high that no entry has lowered by then. */
  lemma CycleFollowsSchedule(f: Table, s: Table, all: set<nat>, before: set<nat>, t: nat, p: nat)
    requires Finishes(f, s) && Schedule(s, all) && t < s[|s| - 1].hTime && p in all
    ensures var c := Cycle(f, before);
            && c != [] && Elapsed(c, |c|) == s[|s| - 1].hTime
            && (p in HighAt(c, 0, t) <==> !Hits(s, p, t, false))
  {
    CycleTimed(f, before);
    var j := TimedSegment(Cycle(f, before), f, s, t);
    HighIs(f, s, all, before, j, p);
    LoweredBefore(s, j + Dropped(s), t, p);
  }

  lemma CycleTimed(f: Table, before: set<nat>)
    ensures Timed(Cycle(f, before), f)
  {
  }

  /** The segment of tick `t`, and the entries up to there. */
  lemma TimedSegment(c: seq<Segment>, f: Table, s: Table, t: nat) returns (j: nat)
    requires Finishes(f, s) && Timed(c, f) && Increasing(s, 0) && t < s[|s| - 1].hTime
    ensures c != [] && Elapsed(c, |c|) == s[|s| - 1].hTime && j < |c| && HighAt(c, 0, t) == c[j].high
    ensures var n := Dropped(s) + j;
            n < |s| && (n > 0 ==> s[n - 1].hTime <= t) && t < s[n].hTime
    ensures Elapsed(c, j) <= t
  {
    ElapsedIs(c, f, s, |f|);
    j := SegmentAt(c, 0, t);
    ElapsedIs(c, f, s, j);
    ElapsedIs(c, f, s, j + 1);
  }

  /** Distinct pins, and pulses that fit the period. */
  ghost predicate Channels(pins: seq<nat>, ticks: seq<nat>, total: nat) {
    && |ticks| == |pins| && total > 0
    && (forall i, j :: 0 <= i < j < |pins| ==> pins[i] != pins[j])
    && forall i :: 0 <= i < |ticks| ==> ticks[i] <= total
  }

  lemma InitialEffect(pins: seq<nat>, ticks: seq<nat>, total: nat, p: nat, t: nat)
    requires |ticks| == |pins|
    ensures var s := Initial(pins, ticks, total);
            && (Hits(s, p, t, false) <==> exists i :: 0 <= i < |pins| && pins[i] == p && ticks[i] <= t)
            && (Hits(s, p, t, true) <==> p in pins && total <= t)
  {
    var s := Initial(pins, ticks, total);
    assert s[|pins|] == Entry(AllPins(pins), {}, total);
    assert forall i :: 0 <= i < |pins| ==> s[i] == Entry({}, {pins[i]}, ticks[i]);
    if i :| 0 <= i < |pins| && pins[i] == p && ticks[i] <= t {
      assert Hit(s[i], p, t, false);
    }
    if p in pins && total <= t {
      assert Hit(s[|pins|], p, t, true);
    }
  }

  /** Sorting and merging end in a table with the same effect as the channels. */
  function Merged(pins: seq<nat>, ticks: seq<nat>, total: nat): Table
    requires |ticks| == |pins|
  {
    MergeFrom(Sort(Initial(pins, ticks, total)), |pins|)
  }

  lemma LastIsLargest(r: Table, s: Table)
    requires r != [] && Sorted(r) && multiset(r) == multiset(s)
    ensures r[|r| - 1] in s && forall e :: e in s ==> e.hTime <= r[|r| - 1].hTime
  {
    assert r[|r| - 1] in multiset(r);
    forall e | e in s
      ensures e.hTime <= r[|r| - 1].hTime
    {
      assert e in multiset(r);
      var k :| 0 <= k < |r| && r[k] == e;
      assert k < |r| - 1 ==> Before(r, k, |r| - 1);
    }
  }

  lemma MergedEffect(pins: seq<nat>, ticks: seq<nat>, total: nat)
    requires |ticks| == |pins|
    ensures var m := Merged(pins, ticks, total);
            var s := Initial(pins, ticks, total);
            && Increasing(m, 0) && SameEffect(m, s)
            && (exists e :: e in s && m[|m| - 1].hTime == e.hTime)
            && (forall e :: e in s ==> e.hTime <= m[|m| - 1].hTime)
  {
    var s := Initial(pins, ticks, total);
    var r := Sort(s);
    SortSorts(s);
    PermutationKeepsEffect(r, s);
    MergeKeepsEffect(r, |pins|);
    LastIsLargest(r, s);
  }

  lemma MergedIsSchedule(pins: seq<nat>, ticks: seq<nat>, total: nat)
    requires Channels(pins, ticks, total)
    ensures var m := Merged(pins, ticks, total);
            Schedule(m, AllPins(pins)) && m[|m| - 1].hTime == total
  {
    var s := Initial(pins, ticks, total);
    var m := Merged(pins, ticks, total);
    var n := |m| - 1;
    MergedEffect(pins, ticks, total);
    assert s[|pins|] in s && s[|pins|].hTime == total;
    assert forall e :: e in s ==> e.hTime <= total;
    forall k, p: nat | 0 <= k < n
      ensures p !in m[k].gpioSet
    {
      InitialEffect(pins, ticks, total, p, m[k].hTime);
      IncreasingIsSorted(m, k, n);
      assert p in m[k].gpioSet ==> Hit(m[k], p, m[k].hTime, true);
    }
    forall p: nat
      ensures p in m[n].gpioSet <==> p in AllPins(pins)
    {
      InitialEffect(pins, ticks, total, p, total);
      if p in m[n].gpioSet {
        assert Hit(m[n], p, total, true);
      }
      if p in AllPins(pins) {
        assert Hits(m, p, total, true);
      }
    }
  }

  lemma BuildFinishes(pins: seq<nat>, ticks: seq<nat>, total: nat)
    requires |ticks| == |pins|
    ensures Finishes(Build(pins, ticks, total), Merged(pins, ticks, total))
  {
    MergedEffect(pins, ticks, total);
    FinishFinishes(Merged(pins, ticks, total));
  }

  /** For any pulses within the period, any cycle that the finished table drives
      lasts exactly the period, and every pin is high for exactly the first ticks
      of it that its channel asks for. */
  lemma BuildKeepsPulses(pins: seq<nat>, ticks: seq<nat>, total: nat, before: set<nat>)
    requires Channels(pins, ticks, total)
    ensures PulsesAre(Cycle(Build(pins, ticks, total), before), pins, ticks, total)
  {
    BuildFinishes(pins, ticks, total);
    MergedIsSchedule(pins, ticks, total);
    MergedEffect(pins, ticks, total);
    FinishedKeepsPulses(Build(pins, ticks, total), Merged(pins, ticks, total), pins, ticks, total, before);
  }

  lemma FinishedKeepsPulses(f: Table, m: Table, pins: seq<nat>, ticks: seq<nat>, total: nat, before: set<nat>)
    requires Channels(pins, ticks, total) && Finishes(f, m) && Schedule(m, AllPins(pins))
    requires m[|m| - 1].hTime == total && SameEffect(m, Initial(pins, ticks, total))
    ensures PulsesAre(Cycle(f, before), pins, ticks, total)
  {
    var c := Cycle(f, before);
    FinishedDuration(f, m, before);
    assert |f| > 0;
    forall t: nat, i: nat | t < total && i < |pins|
      ensures pins[i] in HighAt(c, 0, t) <==> t < ticks[i]
    {
      CycleFollowsSchedule(f, m, AllPins(pins), before, t, pins[i]);
      InitialEffect(pins, ticks, total, pins[i], t);
    }
  }

  /** For any tick counts at all, fitting or not, a cycle lasts as long as the
      largest of them. */
  lemma BuildDuration(pins: seq<nat>, ticks: seq<nat>, total: nat, before: set<nat>)
    requires |ticks| == |pins|
    ensures var c := Cycle(Build(pins, ticks, total), before);
            var d := Elapsed(c, |c|);
            && (d == total || d in ticks) && d >= total
            && forall i :: 0 <= i < |ticks| ==> ticks[i] <= d
  {
    BuildFinishes(pins, ticks, total);
    FinishedDuration(Build(pins, ticks, total), Merged(pins, ticks, total), before);
    MergedLast(pins, ticks, total);
  }

  lemma FinishedDuration(f: Table, m: Table, before: set<nat>)
    requires Finishes(f, m)
    ensures Elapsed(Cycle(f, before), |Cycle(f, before)|) == m[|m| - 1].hTime
  {
    CycleTimed(f, before);
    ElapsedIs(Cycle(f, before), f, m, |f|);
  }

  lemma MergedLast(pins: seq<nat>, ticks: seq<nat>, total: nat)
    requires |ticks| == |pins|
    ensures var m := Merged(pins, ticks, total);
            var d := m[|m| - 1].hTime;
            && (d == total || d in ticks) && d >= total
            && forall i :: 0 <= i < |ticks| ==> ticks[i] <= d
  {
    MergedEffect(pins, ticks, total);
    InitialTimes(pins, ticks, total);
  }

  lemma InitialTimes(pins: seq<nat>, ticks: seq<nat>, total: nat)
    requires |ticks| == |pins|
    ensures var s := Initial(pins, ticks, total);
            && (forall e :: e in s ==> e.hTime == total || e.hTime in ticks)
            && (exists e :: e in s && e.hTime == total)
            && forall i :: 0 <= i < |ticks| ==> exists e :: e in s && e.hTime == ticks[i]
  {
    var s := Initial(pins, ticks, total);
    assert s[|pins|] in s && s[|pins|].hTime == total;
    assert forall i :: 0 <= i < |pins| ==> s[i] in s && s[i].hTime == ticks[i];
  }

  // ----- how many entries a table has -----

  function Times(s: Table): set<nat> {
    set e | e in s :: e.hTime
  }

  /** The times at which something is switched: the ends of the pulses that are
      not empty, and the end of the period. */
  function SwitchTimes(ticks: seq<nat>, total: nat): set<nat> {
    (set t | t in ticks) + {total} - {0}
  }

  lemma JoinKeepsTimes(s: Table, i: nat)
    requires 0 < i < |s| && s[i].hTime == s[i - 1].hTime
    ensures Times(JoinAt(s, i)) == Times(s)
  {
    var r := JoinAt(s, i);
    JoinAtIs(s, i);
    forall k | 0 <= k < |s|
      ensures s[k].hTime in Times(r)
    {
      var j := if k < i then k else k - 1;
      assert r[j] in r && r[j].hTime == s[k].hTime;
    }
    forall j | 0 <= j < |r|
      ensures r[j].hTime in Times(s)
    {
      var k := if j < i then j else j + 1;
      assert s[k] in s && s[k].hTime == r[j].hTime;
    }
  }

  lemma {:induction false} MergeKeepsTimes(s: Table, i: nat)
    requires i < |s|
    ensures Times(MergeFrom(s, i)) == Times(s)
    decreases i
  {
    if i == 0 {
    } else if s[i].hTime == s[i - 1].hTime {
      JoinKeepsTimes(s, i);
      MergeKeepsTimes(JoinAt(s, i), i - 1);
    } else {
      MergeKeepsTimes(s, i - 1);
    }
  }

  lemma SortKeepsTimes(s: Table)
    ensures Times(Sort(s)) == Times(s)
  {
    SortSorts(s);
    forall e
      ensures e in Sort(s) <==> e in s
    {
      assert e in Sort(s) <==> e in multiset(Sort(s));
      assert e in s <==> e in multiset(s);
    }
  }

  lemma {:induction false} IncreasingTimes(s: Table)
    requires Increasing(s, 0)
    ensures |Times(s)| == |s|
  {
    if s == [] {
      assert Times(s) == {};
    } else {
      var up, last := s[..|s| - 1], s[|s| - 1];
      forall k | 0 < k < |up|
        ensures Rises(up, k)
      {
        assert Rises(s, k);
      }
      IncreasingTimes(up);
      forall e | e in up
        ensures e.hTime < last.hTime
      {
        var k :| 0 <= k < |up| && up[k] == e;
        IncreasingIsSorted(s, k, |s| - 1);
      }
      assert s == up + [last];
      assert Times(s) == Times(up) + {last.hTime};
    }
  }

  lemma InitialTimesAre(pins: seq<nat>, ticks: seq<nat>, total: nat)
    requires |ticks| == |pins|
    ensures Times(Initial(pins, ticks, total)) - {0} == SwitchTimes(ticks, total)
  {
    var s := Initial(pins, ticks, total);
    InitialTimes(pins, ticks, total);
    forall t | t in ticks
      ensures t in Times(s)
    {
      var i :| 0 <= i < |ticks| && ticks[i] == t;
      assert s[i] in s && s[i].hTime == t;
    }
  }

  /** The finished table has an entry for each different time at which something is
      switched, whatever the times are. */
  lemma BuildEntries(pins: seq<nat>, ticks: seq<nat>, total: nat)
    requires |ticks| == |pins|
    ensures |Build(pins, ticks, total)| == |SwitchTimes(ticks, total)|
  {
    MergedTimes(pins, ticks, total);
    BuildFinishes(pins, ticks, total);
    MergedEffect(pins, ticks, total);
    IncreasingTimes(Merged(pins, ticks, total));
    ZeroIsFirst(Merged(pins, ticks, total));
    WithoutZero(Times(Merged(pins, ticks, total)));
  }

  lemma MergedTimes(pins: seq<nat>, ticks: seq<nat>, total: nat)
    requires |ticks| == |pins|
    ensures Times(Merged(pins, ticks, total)) - {0} == SwitchTimes(ticks, total)
  {
    SortKeepsTimes(Initial(pins, ticks, total));
    MergeKeepsTimes(Sort(Initial(pins, ticks, total)), |pins|);
    InitialTimesAre(pins, ticks, total);
  }

  lemma WithoutZero(times: set<nat>)
    ensures |times - {0}| == |times| - if 0 in times then 1 else 0
  {
    if 0 !in times {
      assert times - {0} == times;
    }
  }

  lemma ZeroIsFirst(m: Table)
    requires m != [] && Increasing(m, 0)
    ensures 0 in Times(m) <==> Dropped(m) == 1
  {
    assert m[0] in m;
    if e :| e in m && e.hTime == 0 {
      var k :| 0 <= k < |m| && m[k] == e;
      IncreasingIsSorted(m, 0, k);
    }
  }

  /** There are two or more such times exactly if some pulse is neither empty nor as
      long as the period. */
  lemma SeveralTimesIff(ticks: seq<nat>, total: nat)
    requires total > 0
    ensures |SwitchTimes(ticks, total)| >= 1
    ensures |SwitchTimes(ticks, total)| >= 2 <==> exists i :: 0 <= i < |ticks| && ticks[i] != 0 && ticks[i] != total
  {
    var times := SwitchTimes(ticks, total);
    assert total in times;
    if i :| 0 <= i < |ticks| && ticks[i] != 0 && ticks[i] != total {
      assert ticks[i] in times - {total};
      assert |times - {total}| == |times| - 1;
    } else {
      forall t | t in ticks
        ensures t == 0 || t == total
      {
        var i :| 0 <= i < |ticks| && ticks[i] == t;
      }
      assert times == {total};
    }
  }

  // ----- a cold start -----

  function Later(a: nat, b: nat): nat {
    if a < b then b else a
  }

  /** After a cold start a pin is high in segment `k` if it was before, and no entry
      up to there, nor the first one, lowered it. */
  lemma {:induction false} ColdIs(f: Table, s: Table, all: set<nat>, before: set<nat>, k: nat, p: nat)
    requires Finishes(f, s) && Schedule(s, all) && |f| >= 2 && k < |f|
    ensures p in ColdHigh(f, before, k)
       <==> p in before && forall j :: Dropped(s) <= j < Dropped(s) + Later(k, 1) ==> p !in s[j].gpioClear
    decreases k
  {
    var e := f[Later(k, 1) - 1];
    assert e.gpioSet == {} && e.gpioClear == s[Later(k, 1) - 1 + Dropped(s)].gpioClear;
    if k == 0 {
    } else {
      ColdIs(f, s, all, before, k - 1, p);
    }
  }

  /** The segment of tick `t`, and the entries up to there or up to the first. */
  lemma ColdSegment(c: seq<Segment>, f: Table, s: Table, t: nat) returns (j: nat)
    requires Finishes(f, s) && Timed(c, f) && |f| >= 2 && Increasing(s, 0) && t < s[|s| - 1].hTime
    ensures Elapsed(c, |c|) == s[|s| - 1].hTime && j < |c| && HighAt(c, 0, t) == c[j].high
    ensures var n := Dropped(s) + Later(j, 1);
            n < |s| && s[n - 1].hTime <= Later(t, c[0].ticks) < s[n].hTime
  {
    j := TimedSegment(c, f, s, t);
    ElapsedIs(c, f, s, 1);
    assert Elapsed(c, 1) == c[0].ticks;
    var n := Dropped(s) + Later(j, 1);
    IncreasingIsSorted(s, Dropped(s), n - 1);
    IncreasingIsSorted(s, Dropped(s), n);
  }

  /** At tick `t` after a cold start, no pin is high that was not before; and a pin
      that was is high unless an entry from the first one on lowered it. */
  lemma ColdFollowsSchedule(f: Table, s: Table, all: set<nat>, before: set<nat>, t: nat, p: nat)
    requires Finishes(f, s) && Schedule(s, all) && |f| >= 2 && t < s[|s| - 1].hTime
    ensures var c := ColdCycle(f, before);
            && Elapsed(c, |c|) == s[|s| - 1].hTime
            && (p in HighAt(c, 0, t) ==> p in before)
            && (!Hits(s, p, 0, false) ==>
                  (p in HighAt(c, 0, t) <==> p in before && !Hits(s, p, Later(t, c[0].ticks), false)))
  {
    var c := ColdCycle(f, before);
    var j := ColdSegment(c, f, s, t);
    var n := Dropped(s) + Later(j, 1);
    ColdIs(f, s, all, before, j, p);
    LoweredBefore(s, n, Later(t, c[0].ticks), p);
    AtZeroHits(s, p);
    LoweredOrAtZero(s, n, p);
  }

  lemma LoweredOrAtZero(s: Table, n: nat, p: nat)
    requires s != [] && Dropped(s) <= n <= |s|
    ensures (exists j :: 0 <= j < n && p in s[j].gpioClear)
       <==> || (Dropped(s) == 1 && p in s[0].gpioClear)
            || !(forall j :: Dropped(s) <= j < n ==> p !in s[j].gpioClear)
  {
  }

  lemma AtZeroHits(s: Table, p: nat)
    requires s != []
    ensures Dropped(s) == 1 && p in s[0].gpioClear ==> Hits(s, p, 0, false)
  {
    if Dropped(s) == 1 && p in s[0].gpioClear {
      assert Hit(s[0], p, 0, false);
    }
  }

  /** What is put out after a cold start lasts the period, raises no pin, and lowers
      a pin with a pulse at its end, or at once if no pulse is shorter. */
  ghost predicate ColdPulsesAre(cycle: seq<Segment>, before: set<nat>, pins: seq<nat>, ticks: seq<nat>, total: nat)
    requires |ticks| == |pins|
  {
    && cycle != []
    && Elapsed(cycle, |cycle|) == total
    && (forall t: nat, p: nat :: t < total && p in HighAt(cycle, 0, t) ==> p in before)
    && forall t: nat, i: nat :: t < total && i < |pins| && ticks[i] > 0 ==>
         (pins[i] in HighAt(cycle, 0, t) <==> pins[i] in before && Later(t, cycle[0].ticks) < ticks[i])
  }

  lemma BuildColdPulses(pins: seq<nat>, ticks: seq<nat>, total: nat, before: set<nat>)
    requires Channels(pins, ticks, total) && |Build(pins, ticks, total)| >= 2
    ensures ColdPulsesAre(ColdCycle(Build(pins, ticks, total), before), before, pins, ticks, total)
  {
    BuildFinishes(pins, ticks, total);
    MergedIsSchedule(pins, ticks, total);
    MergedEffect(pins, ticks, total);
    FinishedColdPulses(Build(pins, ticks, total), Merged(pins, ticks, total), pins, ticks, total, before);
  }

  lemma FinishedColdPulses(f: Table, m: Table, pins: seq<nat>, ticks: seq<nat>, total: nat, before: set<nat>)
    requires Channels(pins, ticks, total) && Finishes(f, m) && Schedule(m, AllPins(pins)) && |f| >= 2
    requires m[|m| - 1].hTime == total && SameEffect(m, Initial(pins, ticks, total))
    ensures ColdPulsesAre(ColdCycle(f, before), before, pins, ticks, total)
  {
    var c := ColdCycle(f, before);
    ColdFollowsSchedule(f, m, AllPins(pins), before, 0, 0);
    forall t: nat, p: nat | t < total && p in HighAt(c, 0, t)
      ensures p in before
    {
      ColdFollowsSchedule(f, m, AllPins(pins), before, t, p);
    }
    forall t: nat, i: nat | t < total && i < |pins| && ticks[i] > 0
      ensures pins[i] in HighAt(c, 0, t) <==> pins[i] in before && Later(t, c[0].ticks) < ticks[i]
    {
      ColdFollowsSchedule(f, m, AllPins(pins), before, t, pins[i]);
      InitialEffect(pins, ticks, total, pins[i], 0);
      InitialEffect(pins, ticks, total, pins[i], Later(t, c[0].ticks));
    }
  }
}
