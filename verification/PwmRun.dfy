/** The PWM start routine and the timer interrupt handler over two table banks,
    and every interleaving of the two. */
module PwmRun {
  import opened Arithmetic
  import opened PwmTable
  import opened PwmDriver

  /** What start routine and handler share: the two banks (each up to its entry
      count), the bank to switch to at the next boundary, the bank in use, the
      handler's position in it, and the pins and timer they drive. */
  datatype Machine = Machine(
    tables: seq<Table>, toggle: nat, active: nat, current: nat, down: bool, gpio: set<nat>, load: nat)
  {
    ghost predicate Shaped() {
      |tables| == 2 && toggle < 2 && active < 2
    }

    function Spare(): nat
      requires toggle < 2
    {
      1 - toggle
    }

    /** The start routine stores a table in the spare bank. */
    function Store(t: Table): Machine
      requires Shaped()
    {
      this.(tables := tables[Spare() := t])
    }

    /** If the timer is down the start routine puts the spare bank in use. */
    function Kick(): Machine
      requires Shaped() && tables[Spare()] != []
    {
      var t := tables[Spare()];
      if !down then this
      else this.(active := Spare(), gpio := Apply(gpio, t[0]), down := |t| == 1,
                 load := if |t| != 1 then t[0].hTime else load)
    }

    /** The start routine makes the spare bank the next one. */
    function Flip(): Machine
      requires Shaped()
    {
      this.(toggle := Spare())
    }

    /** The handler is at the end of a cycle. */
    predicate AtBoundary()
      requires Shaped()
    {
      current == |tables[active]| - 1
    }

    /** All table positions that the handler reads exist. */
    ghost predicate Safe() {
      && Shaped()
      && current < |tables[active]|
      && (AtBoundary() ==> tables[toggle] != [])
    }

    /** The timer interrupt. */
    function Interrupt(): Machine
      requires Safe()
    {
      if AtBoundary() then
        var t := tables[toggle];
        var m := this.(active := toggle, current := 0, gpio := Apply(gpio, t[|t| - 1]));
        if |t| != 1 then m.(load := t[0].hTime) else m.(down := true)
      else
        var t := tables[active];
        this.(gpio := Apply(gpio, t[current]), current := current + 1, load := t[current + 1].hTime)
    }
  }

  lemma BuildNonEmpty(pins: seq<nat>, ticks: seq<nat>, total: nat)
    requires |ticks| == |pins| && total > 0
    ensures Build(pins, ticks, total) != []
  {
    BuildDuration(pins, ticks, total, {});
  }

  // ----- the driver itself -----

  class Driver {
    const pins: seq<nat>
    const bank: seq<array<Entry>>
    var counts: seq<nat>
    var toggle: nat
    var active: nat
    var current: nat
    var timerDown: bool
    var gpio: set<nat>
    var load: nat
    var period: nat
    var duty: seq<nat>

    ghost predicate Valid()
      reads this, bank
    {
      && |pins| < 128 && |duty| == |pins|
      && (forall i :: 0 <= i < |duty| ==> duty[i] <= PWM_DEPTH)
      && |bank| == 2 && bank[0] != bank[1] && |counts| == 2
      && (forall b :: 0 <= b < 2 ==> counts[b] <= bank[b].Length == |pins| + 1)
      && toggle < 2 && active < 2
    }

    ghost function View(): (m: Machine)
      requires Valid()
      reads this, bank
      ensures m.Shaped()
    {
      Machine([bank[0][..counts[0]], bank[1][..counts[1]]], toggle, active, current, timerDown, gpio, load)
    }

    constructor (pins: seq<nat>)
      requires |pins| < 128
      ensures Valid() && forall a :: a in bank ==> fresh(a)
      ensures View() == Machine([[], []], 1, 1, 0, true, {}, 0)
      ensures this.pins == pins
    {
      var a := new Entry[|pins| + 1](_ => Entry({}, {}, 0));
      var b := new Entry[|pins| + 1](_ => Entry({}, {}, 0));
      this.pins := pins;
      this.bank := [a, b];
      this.counts := [0, 0];
      this.toggle, this.active, this.current := 1, 1, 0;
      this.timerDown := true;
      this.gpio, this.load := {}, 0;
      this.period := 0;
      this.duty := seq(|pins|, _ => 0);
    }

    method SetDuty(d: nat, channel: nat)
      requires Valid() && channel < |pins| && d < 256
      modifies this`duty
      ensures Valid() && duty == old(duty)[channel := d]
    {
      if d < 1 {
        duty := duty[channel := 0];
      } else if d >= PWM_DEPTH {
        duty := duty[channel := PWM_DEPTH];
      } else {
        duty := duty[channel := d];
      }
    }

    method SetFreq(freq: nat)
      requires Valid()
      modifies this`period
      ensures Valid() && period == Period(freq)
    {
      var f := freq;
      if freq > 500 {
        f := 500;
      } else if freq < 1 {
        f := 1;
      }
      period := PWM_1S / f % U16;
    }

    /** The start routine builds the new table in the spare bank. */
    method FillSpare()
      requires Valid() && HTime(period) > 0
      modifies this`counts, bank[1 - toggle]
      ensures Valid()
      ensures var t := Build(pins, Settings(period, duty).Ticks(), HTime(period));
              t != [] && View() == old(View()).Store(t)
      ensures counts[1 - toggle] > 0
    {
      var b := 1 - toggle;
      ghost var st := Settings(period, duty);
      var count := BuildTable(bank[b], pins, Settings(period, duty));
      BuildNonEmpty(pins, st.Ticks(), st.Total());
      counts := counts[b := count];
    }

    /** It starts the timer from that bank if the timer is down. */
    method KickTimer()
      requires Valid() && counts[1 - toggle] > 0
      modifies this`active, this`gpio, this`timerDown, this`load
      ensures Valid() && View() == old(View()).Kick()
    {
      var b := 1 - toggle;
      var local := bank[b];
      assert View().tables[b] == local[..counts[b]];
      assert View().tables[b][0] == local[0];
      if timerDown {
        active := b;
        gpio := Apply(gpio, local[0]);
        if counts[b] != 1 {
          timerDown := false;
          load := local[0].hTime;
        }
        assert View().tables == old(View()).tables;
        assert View().gpio == old(View()).Kick().gpio;
        assert View().down == old(View()).Kick().down;
        assert View().load == old(View()).Kick().load;
        assert View().active == old(View()).Kick().active;
      }
    }

    /** Run without interruption, the start routine stores the new table, puts it
        in use at once if the timer is down, and makes it the next one. */
    method Start()
      requires Valid() && HTime(period) > 0
      modifies this`counts, this`active, this`gpio, this`timerDown, this`load, this`toggle, bank
      ensures Valid()
      ensures var t := Build(pins, Settings(period, duty).Ticks(), HTime(period));
              t != [] && View() == old(View()).Store(t).Kick().Flip()
    {
      ghost var m0 := View();
      ghost var t := Build(pins, Settings(period, duty).Ticks(), HTime(period));
      FillSpare();
      KickTimer();
      ghost var m2 := View();
      assert m2 == m0.Store(t).Kick();
      toggle := 1 - toggle;
      assert View() == m2.Flip();
    }

    method InterruptHandler()
      requires Valid() && View().Safe()
      modifies this`active, this`gpio, this`current, this`load, this`timerDown
      ensures Valid() && View() == old(View()).Interrupt()
    {
      if current == counts[active] - 1 {
        BeginCycle();
      } else {
        NextEntry();
      }
    }

    /** Goes over to the next bank and puts out its last entry. */
    method BeginCycle()
      requires Valid() && View().Safe() && View().AtBoundary()
      modifies this`active, this`gpio, this`current, this`load, this`timerDown
      ensures Valid() && View() == old(View()).Interrupt()
    {
      ghost var m := View();
      active := toggle;
      assert m.tables[active] == bank[active][..counts[active]];
      gpio := Apply(gpio, bank[active][counts[active] - 1]);
      current := 0;
      if counts[active] != 1 {
        load := bank[active][current].hTime;
      } else {
        timerDown := true;
      }
    }

    /** Puts out the current entry. */
    method NextEntry()
      requires Valid() && View().Safe() && !View().AtBoundary()
      modifies this`gpio, this`current, this`load
      ensures Valid() && View() == old(View()).Interrupt()
    {
      ghost var m := View();
      assert m.tables[active] == bank[active][..counts[active]];
      gpio := Apply(gpio, bank[active][current]);
      current := current + 1;
      load := bank[active][current].hTime;
    }
  }

  // ----- interleavings -----

  /** Which settings may be asked for, and the table that is built for them. */
  datatype Maker = Maker(ok: Settings -> bool, table: Settings -> Table)
  {
    ghost predicate Valid() {
      forall st :: ok(st) ==> table(st) != []
    }
  }

  /** How far a call of the start routine has got. */
  datatype Phase = Idle | Writing(st: Settings) | Built(st: Settings) | Kicked

  /** A finished cycle: the settings of its table, whether it began with a cold
      start, the pins before it, and what was put out up to the next boundary, each
      time for as many ticks as the timer was loaded with. */
  datatype Finished = Finished(st: Settings, cold: bool, before: set<nat>, cycle: seq<Segment>)

  /** The machine, the start routine's phase, the settings each bank was built
      from, and the history of what was put out: `exact` tells that the cycle under
      way began at a boundary, with `before` as the pins before it, and `inUse` are
      the settings of its table. After a read outside of a table (`broken`) nothing
      more is said. */
  datatype State = State(
    m: Machine, phase: Phase, made: seq<seq<Settings>>, published: bool, broken: bool,
    exact: bool, inUse: seq<Settings>, before: set<nat>, segs: seq<Segment>, finished: seq<Finished>)

  /** One step of the start routine, or one interrupt. While the start routine
      writes, the spare bank may hold anything. */
  datatype Event =
    | Begin(st: Settings)
    | Scribble(t: Table)
    | Complete
    | KickTimer
    | Publish
    | Tick

  ghost predicate Initial(s: State) {
    && s.m == Machine([[], []], 1, 1, 0, true, s.m.gpio, s.m.load)
    && s.phase == Idle && s.made == [[], []] && !s.published && !s.broken
    && !s.exact && s.inUse == [] && s.segs == [] && s.finished == []
  }

  /** The steps of a start come in order, and an interrupt comes at any moment at
      which the timer runs. */
  ghost predicate Enabled(s: State, e: Event, mk: Maker) {
    !s.broken && s.m.Shaped() && |s.made| == 2 &&
    match e
    case Begin(st) => s.phase == Idle && mk.ok(st)
    case Scribble(_) => s.phase.Writing?
    case Complete => s.phase.Writing?
    case KickTimer => s.phase.Built?
    case Publish => s.phase == Kicked
    case Tick => !s.m.down
  }

  /** A start does not begin before the table published last was picked up. */
  ghost predicate Timely(s: State, e: Event) {
    e.Begin? ==> s.m.down || s.m.active == s.m.toggle
  }

  ghost function Step(s: State, e: Event, mk: Maker): State
    requires Enabled(s, e, mk)
  {
    match e
    case Begin(st) => s.(phase := Writing(st))
    case Scribble(t) => s.(m := s.m.Store(t), made := s.made[s.m.Spare() := []])
    case Complete =>
      var st := s.phase.st;
      s.(m := s.m.Store(mk.table(st)), made := s.made[s.m.Spare() := [st]], phase := Built(st))
    case KickTimer =>
      if !s.m.down then s.(phase := Kicked)
      else if s.m.tables[s.m.Spare()] == [] then s.(broken := true)
      else
        var m := s.m.Kick();
        s.(m := m, phase := Kicked, exact := m.down, inUse := s.made[m.active], before := s.m.gpio,
           segs := [Segment(m.gpio, m.load)])
    case Publish => s.(m := s.m.Flip(), phase := Idle, published := true)
    case Tick =>
      if !s.m.Safe() then s.(broken := true)
      else if s.m.AtBoundary() then
        var m := s.m.Interrupt();
        s.(m := m, exact := true, inUse := s.made[m.active], before := s.m.gpio,
           segs := [Segment(m.gpio, m.load)],
           finished := if s.inUse != [] then s.finished + [Finished(s.inUse[0], !s.exact, s.before, s.segs)]
                       else s.finished)
      else
        var m := s.m.Interrupt();
        s.(m := m, segs := s.segs + [Segment(m.gpio, m.load)])
  }

  // ----- what every step keeps -----

  /** A bank that was completed holds the table of its settings. */
  ghost predicate Genuine(s: State, b: nat, mk: Maker)
    requires s.m.Shaped() && |s.made| == 2 && b < 2
  {
    s.made[b] != [] ==>
      var st := s.made[b][0];
      mk.ok(st) && s.m.tables[b] == mk.table(st)
  }

  /** The first `n + 1` segments of a cycle, or of what follows a cold start. */
  predicate Follows(segs: seq<Segment>, t: Table, exact: bool, before: set<nat>, n: nat)
    decreases n
  {
    && n < |t| && |segs| == n + 1
    && segs[n] == Segment(if exact then HighAfter(t, before, n) else ColdHigh(t, before, n), t[n].hTime)
    && (n > 0 ==> Follows(segs[..n], t, exact, before, n - 1))
  }

  /** The output since the start of the cycle follows the table in use. */
  ghost predicate OnTrack(s: State)
    requires s.m.Shaped()
  {
    && Follows(s.segs, s.m.tables[s.m.active], s.exact, s.before, s.m.current)
    && s.segs[s.m.current].high == s.m.gpio
  }

  ghost predicate IsCycle(f: Finished, mk: Maker) {
    && mk.ok(f.st)
    && var t := mk.table(f.st);
       && |t| >= 2
       && f.cycle == if f.cold then ColdCycle(t, f.before) else Cycle(t, f.before)
  }

  /** The pins hold the only level of the table put in use last. */
  ghost predicate Steady(s: State, mk: Maker) {
    && s.inUse != [] && mk.ok(s.inUse[0])
    && var t := mk.table(s.inUse[0]); |t| == 1 && s.m.gpio == Apply(s.before, t[0])
  }

  /** A running timer has a genuine table in use. */
  ghost predicate Running(s: State)
    requires s.m.Shaped() && |s.made| == 2
  {
    && s.made[s.m.active] != [] && s.inUse == s.made[s.m.active]
    && |s.m.tables[s.m.active]| >= 2 && s.m.current < |s.m.tables[s.m.active]|
    && OnTrack(s)
    && (!s.published ==> s.phase == Kicked)
  }

  ghost predicate Good(s: State, mk: Maker) {
    && s.m.Shaped() && |s.made| == 2
    && Genuine(s, 0, mk) && Genuine(s, 1, mk)
    && (s.published <==> s.made[s.m.toggle] != [])
    && (!s.published ==> s.m.tables[s.m.toggle] == [])
    // the bank being written is not one that the handler reads
    && (s.phase.Writing? || s.phase.Built? ==> (s.m.down || s.m.active == s.m.toggle) && mk.ok(s.phase.st))
    && (s.phase.Built? ==> s.made[s.m.Spare()] == [s.phase.st])
    && (s.phase == Kicked ==> s.made[s.m.Spare()] != [])
    && (!s.m.down ==> Running(s))
    && (s.m.down ==> s.m.current == 0)
    && (s.m.down && (s.m.active == s.m.toggle || s.phase == Kicked) ==> s.inUse == s.made[s.m.active])
    && (s.m.down && s.exact ==> Steady(s, mk))
  }

  ghost predicate Inv(s: State, mk: Maker) {
    && (!s.broken ==> Good(s, mk))
    && forall f :: f in s.finished ==> IsCycle(f, mk)
  }

  lemma GenuineNonEmpty(s: State, b: nat, mk: Maker)
    requires mk.Valid() && s.m.Shaped() && |s.made| == 2 && b < 2 && Genuine(s, b, mk) && s.made[b] != []
    ensures s.m.tables[b] != []
  {
  }

  lemma StoreKeepsGood(s: State, t: Table, made: seq<Settings>, phase: Phase, mk: Maker)
    requires Good(s, mk) && s.phase.Writing?
    requires made != [] ==> mk.ok(made[0]) && t == mk.table(made[0])
    requires phase == s.phase || (phase == Built(s.phase.st) && made == [s.phase.st])
    ensures Good(s.(m := s.m.Store(t), made := s.made[s.m.Spare() := made], phase := phase), mk)
  {
    var r := s.(m := s.m.Store(t), made := s.made[s.m.Spare() := made], phase := phase);
    var b := s.m.Spare();
    assert r.m.tables[b] == t && r.made[b] == made;
    assert r.m.tables[1 - b] == s.m.tables[1 - b] && r.made[1 - b] == s.made[1 - b];
    assert Genuine(r, b, mk) && Genuine(r, 1 - b, mk);
  }

  lemma PublishKeepsGood(s: State, mk: Maker)
    requires Good(s, mk) && Enabled(s, Publish, mk)
    ensures Good(Step(s, Publish, mk), mk)
  {
  }

  /** The table that the start routine has just built has an entry. */
  lemma KickKeepsGood(s: State, mk: Maker)
    requires mk.Valid() && Good(s, mk) && Enabled(s, KickTimer, mk)
    ensures !Step(s, KickTimer, mk).broken && Good(Step(s, KickTimer, mk), mk)
  {
    GenuineNonEmpty(s, s.m.Spare(), mk);
  }

  /** An interrupt reads outside of its table exactly if it ends a cycle before
      anything was published. */
  lemma TickBreaksIff(s: State, mk: Maker)
    requires mk.Valid() && Good(s, mk) && Enabled(s, Tick, mk)
    ensures Step(s, Tick, mk).broken <==> !s.m.Safe()
    ensures !s.m.Safe() <==> s.m.AtBoundary() && !s.published
  {
    if s.published {
      GenuineNonEmpty(s, s.m.toggle, mk);
    }
  }

  lemma InnerTickOnTrack(s: State, r: State)
    requires s.m.Safe() && !s.m.AtBoundary() && OnTrack(s)
    requires r.m == s.m.Interrupt() && r.segs == s.segs + [Segment(r.m.gpio, r.m.load)]
    requires r.exact == s.exact && r.before == s.before
    ensures OnTrack(r)
  {
    FollowsSnoc(s.segs, s.m.tables[s.m.active], s.exact, s.before, s.m.current);
  }

  lemma FollowsSnoc(segs: seq<Segment>, t: Table, exact: bool, before: set<nat>, n: nat)
    requires Follows(segs, t, exact, before, n) && n + 1 < |t|
    ensures Follows(segs + [Segment(Apply(segs[n].high, t[n]), t[n + 1].hTime)], t, exact, before, n + 1)
  {
    var r := segs + [Segment(Apply(segs[n].high, t[n]), t[n + 1].hTime)];
    assert r[..n + 1] == segs;
  }

  lemma {:induction false} FollowsAt(segs: seq<Segment>, t: Table, exact: bool, before: set<nat>, n: nat, k: nat)
    requires Follows(segs, t, exact, before, n) && k <= n
    ensures segs[k] == Segment(if exact then HighAfter(t, before, k) else ColdHigh(t, before, k), t[k].hTime)
    decreases n
  {
    if k == n {
    } else {
      FollowsAt(segs[..n], t, exact, before, n - 1, k);
    }
  }

  lemma FollowsAll(segs: seq<Segment>, t: Table, exact: bool, before: set<nat>)
    requires t != [] && Follows(segs, t, exact, before, |t| - 1)
    ensures segs == if exact then Cycle(t, before) else ColdCycle(t, before)
  {
    var c := if exact then Cycle(t, before) else ColdCycle(t, before);
    forall k | 0 <= k < |t|
      ensures segs[k] == c[k]
    {
      FollowsAt(segs, t, exact, before, |t| - 1, k);
    }
  }

  lemma InnerTickKeepsGood(s: State, mk: Maker)
    requires Good(s, mk) && Enabled(s, Tick, mk) && s.m.Safe() && !s.m.AtBoundary()
    ensures Good(Step(s, Tick, mk), mk)
  {
    InnerTickOnTrack(s, Step(s, Tick, mk));
  }

  lemma CycleEnds(s: State, mk: Maker)
    requires Good(s, mk) && Enabled(s, Tick, mk) && s.m.AtBoundary()
    ensures s.inUse != [] && IsCycle(Finished(s.inUse[0], !s.exact, s.before, s.segs), mk)
  {
    var t := s.m.tables[s.m.active];
    assert t == mk.table(s.inUse[0]);
    FollowsAll(s.segs, t, s.exact, s.before);
  }

  lemma BoundaryOnTrack(s: State, mk: Maker)
    requires Enabled(s, Tick, mk) && s.m.Safe() && s.m.AtBoundary()
    ensures !Step(s, Tick, mk).m.down ==> OnTrack(Step(s, Tick, mk))
  {
    var r := Step(s, Tick, mk);
    assert r.segs == [Segment(r.m.gpio, r.m.load)];
  }

  lemma BoundaryKeepsGood(s: State, mk: Maker)
    requires Good(s, mk) && Enabled(s, Tick, mk) && s.m.Safe() && s.m.AtBoundary()
    ensures Good(Step(s, Tick, mk), mk)
  {
    BoundaryOnTrack(s, mk);
  }

  lemma TickKeepsGood(s: State, mk: Maker)
    requires Good(s, mk) && Enabled(s, Tick, mk) && s.m.Safe()
    ensures Good(Step(s, Tick, mk), mk)
  {
    if s.m.AtBoundary() {
      BoundaryKeepsGood(s, mk);
    } else {
      InnerTickKeepsGood(s, mk);
    }
  }

  lemma StepKeepsGood(s: State, e: Event, mk: Maker)
    requires mk.Valid() && Good(s, mk) && Enabled(s, e, mk) && Timely(s, e)
    ensures Step(s, e, mk).broken <==> e.Tick? && s.m.AtBoundary() && !s.published
    ensures !Step(s, e, mk).broken ==> Good(Step(s, e, mk), mk)
  {
    match e
    case Begin(_) =>
    case Scribble(t) => StoreKeepsGood(s, t, [], s.phase, mk);
    case Complete =>
      var st := s.phase.st;
      StoreKeepsGood(s, mk.table(st), [st], Built(st), mk);
    case KickTimer => KickKeepsGood(s, mk);
    case Publish => PublishKeepsGood(s, mk);
    case Tick =>
      TickBreaksIff(s, mk);
      if s.m.Safe() {
        TickKeepsGood(s, mk);
      }
  }

  lemma StepKeepsInv(s: State, e: Event, mk: Maker)
    requires mk.Valid() && Inv(s, mk) && Enabled(s, e, mk) && Timely(s, e)
    ensures Inv(Step(s, e, mk), mk)
    ensures Step(s, e, mk).broken <==> e.Tick? && s.m.AtBoundary() && !s.published
  {
    StepKeepsGood(s, e, mk);
    if e.Tick? && s.m.AtBoundary() {
      CycleEnds(s, mk);
    }
  }

  // ----- whole runs -----

  ghost predicate Runs(s: State, events: seq<Event>, mk: Maker)
    decreases |events|
  {
    events == [] || (Enabled(s, events[0], mk) && Runs(Step(s, events[0], mk), events[1..], mk))
  }

  ghost function End(s: State, events: seq<Event>, mk: Maker): State
    requires Runs(s, events, mk)
    decreases |events|
  {
    if events == [] then s else End(Step(s, events[0], mk), events[1..], mk)
  }

  ghost predicate AllTimely(s: State, events: seq<Event>, mk: Maker)
    requires Runs(s, events, mk)
    decreases |events|
  {
    events == [] || (Timely(s, events[0]) && AllTimely(Step(s, events[0], mk), events[1..], mk))
  }

  lemma {:induction false} RunKeepsInv(s: State, events: seq<Event>, mk: Maker)
    requires mk.Valid() && Inv(s, mk) && Runs(s, events, mk) && AllTimely(s, events, mk)
    ensures Inv(End(s, events, mk), mk)
    decreases |events|
  {
    if events == [] {
    } else {
      StepKeepsInv(s, events[0], mk);
      RunKeepsInv(Step(s, events[0], mk), events[1..], mk);
    }
  }

  /** Over every interleaving of timely starts and interrupts, unless the handler
      has read outside of a table: it stays inside the table it uses and has one to
      go on with as soon as anything was published, and the start routine writes to
      a bank that the handler does not read. */
  lemma RunIsSafe(s: State, events: seq<Event>, mk: Maker)
    requires mk.Valid() && Initial(s) && Runs(s, events, mk) && AllTimely(s, events, mk)
    ensures var r := End(s, events, mk);
            !r.broken ==>
              && r.m.Shaped()
              && (r.phase.Writing? || r.phase.Built? ==> r.m.down || r.m.active != r.m.Spare())
              && (r.phase.Built? ==> r.m.tables[r.m.Spare()] != [])
              && (!r.m.down ==> r.m.current < |r.m.tables[r.m.active]|)
              && (!r.m.down && r.published ==> r.m.Safe())
  {
    RunKeepsInv(s, events, mk);
    var r := End(s, events, mk);
    if !r.broken && r.made[0] != [] {
      GenuineNonEmpty(r, 0, mk);
    }
    if !r.broken && r.made[1] != [] {
      GenuineNonEmpty(r, 1, mk);
    }
  }

  /** Over every interleaving: what is put out between two boundaries is the cycle
      of a single table. */
  lemma NoCycleMixesTables(s: State, events: seq<Event>, mk: Maker, f: Finished)
    requires mk.Valid() && Initial(s) && Runs(s, events, mk) && AllTimely(s, events, mk)
    requires f in End(s, events, mk).finished
    ensures mk.ok(f.st) && |mk.table(f.st)| >= 2
    ensures f.cycle == if f.cold then ColdCycle(mk.table(f.st), f.before) else Cycle(mk.table(f.st), f.before)
  {
    RunKeepsInv(s, events, mk);
  }

  /** While the timer is down after a boundary or a cold start, the pins hold the
      only level of the table put in use last. */
  lemma SteadyHoldsLevel(s: State, events: seq<Event>, mk: Maker) returns (st: Settings, before: set<nat>)
    requires mk.Valid() && Initial(s) && Runs(s, events, mk) && AllTimely(s, events, mk)
    requires var r := End(s, events, mk); !r.broken && r.m.down && r.exact
    ensures mk.ok(st) && |mk.table(st)| == 1
    ensures Cycle(mk.table(st), before)[0].high == End(s, events, mk).m.gpio
  {
    RunKeepsInv(s, events, mk);
    var r := End(s, events, mk);
    st, before := r.inUse[0], r.before;
  }

  // ----- the tables of the driver -----

  /** Settings for at least 77 Hz, and the tables that the builder makes of them. */
  ghost function PwmMaker(pins: seq<nat>): Maker {
    Maker((st: Settings) => InRange(st, pins),
          (st: Settings) => if |st.duty| == |pins| then Build(pins, st.Ticks(), st.Total()) else [])
  }

  lemma PwmMakerValid(pins: seq<nat>)
    ensures PwmMaker(pins).Valid()
  {
    forall st | InRange(st, pins)
      ensures PwmMaker(pins).table(st) != []
    {
      InRangeIsExact(st, pins);
      BuildNonEmpty(pins, st.Ticks(), st.Total());
    }
  }

  /** Over every interleaving, every cycle between two boundaries lasts exactly
      the period of the settings its table was built from, and gives each channel
      exactly its pulse; and the time from a cold start to the first boundary lasts
      the period, and raises no pin. */
  lemma EveryCycleIsExact(s: State, events: seq<Event>, pins: seq<nat>, f: Finished)
    requires Initial(s) && Runs(s, events, PwmMaker(pins)) && AllTimely(s, events, PwmMaker(pins))
    requires f in End(s, events, PwmMaker(pins)).finished
    ensures |f.st.duty| == |pins|
    ensures if f.cold then ColdPulsesAre(f.cycle, f.before, pins, f.st.Pulses(), 5 * f.st.period)
            else PulsesAre(f.cycle, pins, f.st.Pulses(), 5 * f.st.period)
  {
    PwmMakerValid(pins);
    NoCycleMixesTables(s, events, PwmMaker(pins), f);
    TableIsExact(f.st, pins, f.before);
    if f.cold {
      ColdStartIsGentle(f.st, pins, f.before);
    }
  }

  /** While the timer is down, the pins hold the level that the settings ask for
      at every tick of the period. */
  lemma SteadyIsExact(s: State, events: seq<Event>, pins: seq<nat>, t: nat, i: nat) returns (st: Settings)
    requires Initial(s) && Runs(s, events, PwmMaker(pins)) && AllTimely(s, events, PwmMaker(pins)) && i < |pins|
    requires var r := End(s, events, PwmMaker(pins)); !r.broken && r.m.down && r.exact
    ensures InRange(st, pins)
    ensures t < 5 * st.period ==> (pins[i] in End(s, events, PwmMaker(pins)).m.gpio <==> t < st.Pulses()[i])
  {
    var before;
    PwmMakerValid(pins);
    st, before := SteadyHoldsLevel(s, events, PwmMaker(pins));
    TableIsExact(st, pins, before);
    OneSegment(Cycle(Build(pins, st.Ticks(), st.Total()), before), t);
  }

  lemma OneSegment(c: seq<Segment>, t: nat)
    requires |c| == 1
    ensures HighAt(c, 0, t) == c[0].high
  {
  }
}
