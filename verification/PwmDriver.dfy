/** The PWM driver: frequency and duty settings, the in-place table builder, and
    the start routine and interrupt handler over two table banks. */
module PwmDriver {
  import opened Arithmetic
  import opened PwmTable

  const PWM_DEPTH := 255
  const PWM_1S := 1000000
  const APB_CLK_FREQ := 80 * 1000000

  // ----- settings and tick counts -----

  /** Microseconds to timer ticks, in 32-bit arithmetic. */
  function UsToRtcTimerTicks(us: nat): nat {
    if us == 0 then 0
    else if us > 0x35A then
      ((us / 4) * ((APB_CLK_FREQ / 16) / 250000) + (us % 4) * ((APB_CLK_FREQ / 16) / 1000000)) % U32
    else (us * (APB_CLK_FREQ / 16)) % U32 / 1000000
  }

  /** What fits the 16-bit time field of a table entry. */
  function HTime(us: nat): nat {
    UsToRtcTimerTicks(us) % U16
  }

  function ClampFreq(freq: nat): (f: nat)
    ensures 1 <= f <= 500
  {
    if freq > 500 then 500 else if freq < 1 then 1 else freq
  }

  /** The period in microseconds, a 16-bit field. */
  function Period(freq: nat): nat {
    PWM_1S / ClampFreq(freq) % U16
  }

  function PulseUs(period: nat, duty: nat): nat {
    period * duty / PWM_DEPTH
  }

  datatype Settings = Settings(period: nat, duty: seq<nat>)
  {
    function Ticks(): (t: seq<nat>)
      ensures |t| == |duty|
    {
      seq(|duty|, i requires 0 <= i < |duty| => HTime(PulseUs(period, duty[i])))
    }

    function Total(): nat {
      HTime(period)
    }

    /** The pulse lengths the settings ask for, in ticks. */
    function Pulses(): (t: seq<nat>)
      ensures |t| == |duty|
    {
      seq(|duty|, i requires 0 <= i < |duty| => 5 * PulseUs(period, duty[i]))
    }
  }

  /** The conversion is exact on every 16-bit argument: no 32-bit product wraps. */
  lemma TicksAreFivefold(us: nat)
    requires us < U16
    ensures UsToRtcTimerTicks(us) == 5 * us
  {
    if us > 0x35A {
      assert us == 4 * (us / 4) + us % 4;
      assert (APB_CLK_FREQ / 16) / 250000 == 20 && (APB_CLK_FREQ / 16) / 1000000 == 5;
    } else if us > 0 {
      assert us * 5000000 < U32;
    }
  }

  lemma PulseWithinPeriod(period: nat, duty: nat)
    requires duty <= PWM_DEPTH
    ensures PulseUs(period, duty) <= period
    ensures duty == PWM_DEPTH ==> PulseUs(period, duty) == period
    ensures duty == 0 ==> PulseUs(period, duty) == 0
  {
    assert period * duty <= period * PWM_DEPTH;
    assert period * PWM_DEPTH / PWM_DEPTH == period;
  }

  lemma MulMonotone(a: nat, b: nat, c: nat)
    requires b <= c
    ensures a * b <= a * c
  {
  }

  lemma QuotientRange(d: nat, f: nat)
    requires d * f <= PWM_1S < (d + 1) * f && f <= 500
    ensures f >= 77 ==> 2000 <= d <= 12987
    ensures f < 77 ==> d >= 13157
  {
    if f >= 77 {
      MulMonotone(d, 77, f);
      MulMonotone(d + 1, f, 500);
    } else {
      MulMonotone(d + 1, f, 76);
    }
  }

  lemma Quotient(f: nat)
    requires f > 0
    ensures (PWM_1S / f) * f <= PWM_1S < (PWM_1S / f + 1) * f
  {
  }

  lemma PeriodRange(freq: nat)
    ensures var f := ClampFreq(freq);
            && (f >= 77 ==> 2000 <= Period(freq) == PWM_1S / f <= 12987)
            && (f < 77 ==> PWM_1S / f >= 13157)
  {
    var f := ClampFreq(freq);
    Quotient(f);
    QuotientRange(PWM_1S / f, f);
  }

  /** Settings that come from a frequency of at least 77 and 8-bit duties. */
  ghost predicate InRange(st: Settings, pins: seq<nat>) {
    && (exists freq: nat :: ClampFreq(freq) >= 77 && st.period == Period(freq))
    && |st.duty| == |pins|
    && (forall i :: 0 <= i < |st.duty| ==> st.duty[i] <= PWM_DEPTH)
    && (forall i, j :: 0 <= i < j < |pins| ==> pins[i] != pins[j])
  }

  lemma PulseIsExact(period: nat, duty: nat)
    requires duty <= PWM_DEPTH && period <= 12987
    ensures HTime(PulseUs(period, duty)) == 5 * PulseUs(period, duty) <= 5 * period
  {
    PulseWithinPeriod(period, duty);
    TicksAreFivefold(PulseUs(period, duty));
  }

  lemma InRangeIsExact(st: Settings, pins: seq<nat>)
    requires InRange(st, pins)
    ensures st.Total() == 5 * st.period > 0 && st.Ticks() == st.Pulses()
    ensures Channels(pins, st.Pulses(), 5 * st.period)
  {
    var freq: nat :| ClampFreq(freq) >= 77 && st.period == Period(freq);
    PeriodRange(freq);
    TicksAreFivefold(st.period);
    forall i | 0 <= i < |st.duty|
      ensures st.Ticks()[i] == st.Pulses()[i] <= 5 * st.period
    {
      PulseIsExact(st.period, st.duty[i]);
    }
  }

  /** From 77 Hz up, every cycle lasts exactly five ticks for each microsecond of
      the period, and channel `i` is high for exactly the first
      5 * floor(period * duty / 255) of them. */
  lemma TableIsExact(st: Settings, pins: seq<nat>, before: set<nat>)
    requires InRange(st, pins)
    ensures PulsesAre(Cycle(Build(pins, st.Ticks(), st.Total()), before), pins, st.Pulses(), 5 * st.period)
  {
    InRangeIsExact(st, pins);
    BuildKeepsPulses(pins, st.Pulses(), 5 * st.period, before);
  }

  /** The time from a cold start to the first boundary lasts the period, and a pin
      is high in it only if it was before. */
  lemma ColdStartIsGentle(st: Settings, pins: seq<nat>, before: set<nat>)
    requires InRange(st, pins) && |Build(pins, st.Ticks(), st.Total())| >= 2
    ensures var c := ColdCycle(Build(pins, st.Ticks(), st.Total()), before);
            ColdPulsesAre(c, before, pins, st.Pulses(), 5 * st.period)
  {
    InRangeIsExact(st, pins);
    BuildColdPulses(pins, st.Pulses(), 5 * st.period, before);
  }

  /** Each pulse is five ticks for each whole microsecond of its part of the period,
      in 255ths. */
  lemma PulseIsFloor(st: Settings, i: nat) returns (us: nat)
    requires i < |st.duty|
    ensures st.Pulses()[i] == 5 * us
    ensures 255 * us <= st.period * st.duty[i] < 255 * (us + 1)
  {
    us := PulseUs(st.period, st.duty[i]);
  }

  /** The period in whole microseconds is that of the frequency, as far as it fits
      16 bits, which it does from 16 Hz on; 0 counts as 1 Hz, and more than 500 Hz as
      500 Hz. */
  lemma PeriodIs(freq: nat) returns (lost: nat)
    ensures 1 <= freq <= 500 ==> (Period(freq) + lost * 65536) * freq <= 1000000
                                 < (Period(freq) + lost * 65536 + 1) * freq
    ensures lost == 0 <==> 16 <= freq
    ensures Period(freq) < 65536 && (freq > 500 ==> Period(freq) == 2000) && (freq == 0 ==> Period(freq) == 16960)
  {
    var f := ClampFreq(freq);
    Quotient(f);
    lost := PWM_1S / f / 65536;
    SixteenHertz(PWM_1S / f, f);
  }

  lemma SixteenHertz(q: nat, f: nat)
    requires q * f <= 1000000 < (q + 1) * f
    ensures q < 65536 <==> f >= 16
  {
    if f >= 16 {
      MulMonotone(q, 16, f);
    } else {
      MulMonotone(q + 1, f, 15);
    }
  }

  /** Below 77 Hz the 16-bit times overflow: a cycle has the length of the period
      if and only if the frequency is at least 77. */
  lemma CycleLengthIff(freq: nat, duty: seq<nat>, pins: seq<nat>, before: set<nat>)
    requires |duty| == |pins| && (forall i :: 0 <= i < |duty| ==> duty[i] <= PWM_DEPTH)
    requires forall i, j :: 0 <= i < j < |pins| ==> pins[i] != pins[j]
    ensures var st := Settings(Period(freq), duty);
            var c := Cycle(Build(pins, st.Ticks(), st.Total()), before);
            Elapsed(c, |c|) == 5 * (PWM_1S / ClampFreq(freq)) <==> ClampFreq(freq) >= 77
  {
    var st := Settings(Period(freq), duty);
    PeriodRange(freq);
    if ClampFreq(freq) >= 77 {
      TableIsExact(st, pins, before);
    } else {
      BuildDuration(pins, st.Ticks(), st.Total(), before);
      assert forall x :: x in st.Ticks() ==> x < U16;
    }
  }

  /** Duty 0 is never high and duty 255 never low. */
  lemma ExtremeDuties(st: Settings, pins: seq<nat>, before: set<nat>, i: nat, t: nat)
    requires InRange(st, pins) && i < |pins| && t < 5 * st.period
    ensures var c := Cycle(Build(pins, st.Ticks(), st.Total()), before);
            && c != []
            && (st.duty[i] == 0 ==> pins[i] !in HighAt(c, 0, t))
            && (st.duty[i] == PWM_DEPTH ==> pins[i] in HighAt(c, 0, t))
  {
    TableIsExact(st, pins, before);
    PulseWithinPeriod(st.period, st.duty[i]);
  }

  // ----- building the table in place -----

  lemma {:induction false} InsertSplits(s: Table, x: Entry, m: nat)
    requires m <= |s|
    requires forall k :: m <= k < |s| ==> x.hTime < s[k].hTime
    requires m > 0 ==> s[m - 1].hTime <= x.hTime
    ensures Insert(s, x) == s[..m] + [x] + s[m..]
  {
    if m < |s| {
      var up := s[..|s| - 1];
      InsertSplits(up, x, m);
      assert up[..m] == s[..m] && s[m..] == up[m..] + [s[|s| - 1]];
    }
  }

  /** `r` is `s` with the entries from `gap` up to `i` moved up by one place;
      what it holds at `gap` does not matter. */
  ghost predicate Opened(r: Table, s: Table, gap: nat, i: nat) {
    && |r| == |s| && gap <= i < |s|
    && (forall k :: 0 <= k < gap ==> r[k] == s[k])
    && (forall k :: gap < k <= i ==> r[k] == s[k - 1])
    && (forall k :: i < k < |s| ==> r[k] == s[k])
  }

  lemma OpenStep(r: Table, s: Table, gap: nat, i: nat)
    requires Opened(r, s, gap, i) && gap > 0
    ensures Opened(r[gap := r[gap - 1]], s, gap - 1, i) && r[gap - 1] == s[gap - 1]
  {
  }

  /** Moves the entries before `i` that are later than `x` up by one place. */
  method OpenGap(pwm: array<Entry>, i: nat, x: Entry) returns (gap: nat)
    requires 0 < i < pwm.Length && x.hTime < pwm[i - 1].hTime
    modifies pwm
    ensures Opened(pwm[..], old(pwm[..]), gap, i)
    ensures forall k :: gap <= k < i ==> x.hTime < old(pwm[k]).hTime
    ensures gap > 0 ==> old(pwm[gap - 1]).hTime <= x.hTime
  {
    ghost var s := pwm[..];
    pwm[i] := pwm[i - 1];
    var j: int := i - 1;
    while j >= 0 && x.hTime < pwm[j].hTime
      invariant -1 <= j < i
      invariant Opened(pwm[..], s, j + 1, i)
      invariant forall k :: j < k < i ==> x.hTime < s[k].hTime
    {
      OpenStep(pwm[..], s, j + 1, i);
      ghost var r := pwm[..];
      pwm[j + 1] := pwm[j];
      assert pwm[..] == r[j + 1 := r[j]];
      j := j - 1;
    }
    gap := j + 1;
  }

  /** Moves entry `i`, which is earlier than the one before it, to its place. */
  method ShiftIn(pwm: array<Entry>, i: nat)
    requires 0 < i < pwm.Length && pwm[i].hTime < pwm[i - 1].hTime
    modifies pwm
    ensures pwm[..i + 1] == Insert(old(pwm[..i]), old(pwm[i]))
    ensures forall k :: i < k < pwm.Length ==> pwm[k] == old(pwm[k])
  {
    ghost var s := pwm[..i];
    ghost var all := pwm[..];
    var tmp := pwm[i];
    var gap := OpenGap(pwm, i, tmp);
    ghost var r := pwm[..];
    pwm[gap] := tmp;
    InsertSplits(s, tmp, gap);
    assert forall k :: 0 <= k < pwm.Length && k != gap ==> pwm[k] == r[k];
    assert pwm[..i + 1] == s[..gap] + [tmp] + s[gap..];
  }

  method InsertSort(pwm: array<Entry>, n: nat)
    requires n <= pwm.Length && n <= 128
    modifies pwm
    ensures pwm[..n] == Sort(old(pwm[..n]))
    ensures forall k :: n <= k < pwm.Length ==> pwm[k] == old(pwm[k])
  {
    ghost var s := pwm[..];
    var i := 1;
    assert n > 0 ==> pwm[..1] == Insert([], s[0]) == Sort(s[..1]);
    while i < n
      invariant 1 <= i && (n > 0 ==> i <= n)
      invariant n > 0 ==> pwm[..i] == Sort(s[..i])
      invariant forall k :: (if n == 0 then 0 else i) <= k < pwm.Length ==> pwm[k] == s[k]
    {
      assert s[..i + 1][..i] == s[..i];
      InsertNext(pwm, i);
      i := i + 1;
    }
  }

  /** Brings entry `i` to its place among those before it. */
  method InsertNext(pwm: array<Entry>, i: nat)
    requires 0 < i < pwm.Length
    modifies pwm
    ensures pwm[..i + 1] == Insert(old(pwm[..i]), old(pwm[i]))
    ensures forall k :: i < k < pwm.Length ==> pwm[k] == old(pwm[k])
  {
    if pwm[i].hTime < pwm[i - 1].hTime {
      ShiftIn(pwm, i);
    } else {
      ghost var sorted := pwm[..i];
      assert pwm[i - 1] == sorted[i - 1];
      assert pwm[..i + 1] == sorted + [pwm[i]];
    }
  }

  /** Joins entry `i` into entry `i - 1` and closes the gap. */
  method JoinInto(local: array<Entry>, count: nat, i: nat)
    requires 0 < i < count <= local.Length
    modifies local
    ensures local[..count - 1] == JoinAt(old(local[..count]), i)
  {
    ghost var s := local[..count];
    local[i - 1] := Join(local[i - 1], local[i]);
    MoveDown(local, count, i);
    JoinedIs(local[..count - 1], s, i);
  }

  /** Moves the entries behind entry `i` down by one. */
  method MoveDown(local: array<Entry>, count: nat, i: nat)
    requires i < count <= local.Length
    modifies local
    ensures forall k :: 0 <= k < count - 1 ==> local[k] == old(local[if k < i then k else k + 1])
  {
    var j := i + 1;
    while j < count
      invariant i < j <= count
      invariant forall k :: 0 <= k < i ==> local[k] == old(local[k])
      invariant forall k :: i <= k < j - 1 ==> local[k] == old(local[k + 1])
      invariant forall k :: j <= k < count ==> local[k] == old(local[k])
    {
      local[j - 1] := local[j];
      j := j + 1;
    }
  }

  lemma JoinedIs(r: Table, s: Table, i: nat)
    requires 0 < i < |s| == |r| + 1
    requires forall k :: 0 <= k < i - 1 ==> r[k] == s[k]
    requires r[i - 1] == Join(s[i - 1], s[i])
    requires forall k :: i <= k < |r| ==> r[k] == s[k + 1]
    ensures r == JoinAt(s, i)
  {
  }

  method Merge(local: array<Entry>, n: nat) returns (count: nat)
    requires n < local.Length
    modifies local
    ensures 1 <= count <= n + 1
    ensures local[..count] == MergeFrom(old(local[..n + 1]), n)
  {
    count := n + 1;
    var i := n;
    while i > 0
      invariant 0 <= i < count <= n + 1
      invariant MergeFrom(local[..count], i) == MergeFrom(old(local[..n + 1]), n)
    {
      if local[i].hTime == local[i - 1].hTime {
        JoinInto(local, count, i);
        count := count - 1;
      }
      i := i - 1;
    }
  }

  method TakeDifferences(local: array<Entry>, count: nat)
    requires 0 < count <= local.Length && Increasing(local[..count], 0)
    modifies local
    ensures local[..count] == Delta(old(local[..count]))
  {
    ghost var s := local[..count];
    var i := count - 1;
    while i > 0
      invariant i < count
      invariant forall k :: 0 <= k <= i ==> local[k] == s[k]
      invariant forall k :: i < k < count ==> local[k] == Delta(s)[k]
    {
      DeltaIs(s, i);
      local[i] := local[i].(hTime := local[i].hTime - local[i - 1].hTime);
      i := i - 1;
    }
    DeltaIs(s, 0);
    assert forall k :: 0 <= k < count ==> local[..count][k] == Delta(s)[k];
  }

  /** The table with its last entry changed as steps 5 and 6 do, without the entry
      for time 0, is the finished one. */
  lemma FinishIsTail(s: Table, r: Table)
    requires |r| == |s| > 0 && r[..|s| - 1] == s[..|s| - 1]
    requires var last := s[|s| - 1]; r[|s| - 1] == Entry(last.gpioSet - AtZero(s), AtZero(s), last.hTime)
    ensures Finish(s) == r[Dropped(s)..]
  {
    var d := Dropped(s);
    forall k | 0 <= k < |s| - d
      ensures Finish(s)[k] == r[d..][k]
    {
      FinishIs(s, k);
      assert k + d < |s| - 1 ==> r[..|s| - 1][k + d] == s[..|s| - 1][k + d];
    }
  }

  method FinishTable(local: array<Entry>, count0: nat) returns (count: nat)
    requires 0 < count0 <= local.Length
    modifies local
    ensures count <= count0 && local[..count] == Finish(old(local[..count0]))
  {
    count := count0;
    ghost var s := local[..count];
    local[count - 1] := local[count - 1].(gpioClear := {});
    if local[0].hTime == 0 {
      LowerAtLast(local, count);
      FinishIsTail(s, local[..count]);
      MoveDown(local, count, 0);
      count := count - 1;
    } else {
      FinishIsTail(s, local[..count]);
    }
  }

  /** The last entry lowers the pins that would be lowered at time 0, and does not
      raise them. */
  method LowerAtLast(local: array<Entry>, count: nat)
    requires 0 < count <= local.Length
    modifies local
    ensures local[..count - 1] == old(local[..count - 1])
    ensures var first, last := old(local[0]).gpioClear, old(local[count - 1]);
            local[count - 1] == Entry(last.gpioSet - first, last.gpioClear + first, last.hTime)
  {
    var first := local[0].gpioClear;
    var last := local[count - 1];
    local[count - 1] := Entry(last.gpioSet - first, last.gpioClear + first, last.hTime);
  }

  method BuildTable(local: array<Entry>, pins: seq<nat>, st: Settings) returns (count: nat)
    requires |st.duty| == |pins| < 128 && local.Length == |pins| + 1
    modifies local
    ensures count <= local.Length && local[..count] == Build(pins, st.Ticks(), st.Total())
  {
    var n := |pins|;
    var i := 0;
    while i < n
      invariant i <= n
      invariant forall k :: 0 <= k < i ==> local[k] == Entry({}, {pins[k]}, st.Ticks()[k])
    {
      var us := PulseUs(st.period, st.duty[i]);
      local[i] := Entry({}, {pins[i]}, HTime(us));
      i := i + 1;
    }
    local[n] := Entry(AllPins(pins), {}, HTime(st.period));
    assert local[..n + 1] == Initial(pins, st.Ticks(), st.Total());
    InsertSort(local, n + 1);
    count := Merge(local, n);
    MergedEffect(pins, st.Ticks(), st.Total());
    TakeDifferences(local, count);
    count := FinishTable(local, count);
  }
}
