/** Exactly when the start routine of the PWM loses against the timer interrupt: how
    many interrupts may come between starting the timer and publishing the bank. */
module PwmRace {
  import PwmTable
  import opened PwmDriver
  import opened PwmRun

  // ----- putting runs together -----

  lemma {:induction false} RunAppend(s: State, a: seq<Event>, b: seq<Event>, mk: Maker)
    requires Runs(s, a, mk) && Runs(End(s, a, mk), b, mk)
    ensures Runs(s, a + b, mk) && End(s, a + b, mk) == End(End(s, a, mk), b, mk)
    ensures AllTimely(s, a + b, mk) <==> AllTimely(s, a, mk) && AllTimely(End(s, a, mk), b, mk)
    decreases |a|
  {
    if a == [] {
      assert a + b == b;
    } else {
      assert (a + b)[1..] == a[1..] + b;
      RunAppend(Step(s, a[0], mk), a[1..], b, mk);
    }
  }

  lemma {:induction false} RunSplit(s: State, a: seq<Event>, b: seq<Event>, mk: Maker)
    requires Runs(s, a + b, mk)
    ensures Runs(s, a, mk) && Runs(End(s, a, mk), b, mk) && End(s, a + b, mk) == End(End(s, a, mk), b, mk)
    ensures AllTimely(s, a + b, mk) <==> AllTimely(s, a, mk) && AllTimely(End(s, a, mk), b, mk)
    decreases |a|
  {
    if a == [] {
      assert a + b == b;
    } else {
      assert (a + b)[0] == a[0] && (a + b)[1..] == a[1..] + b;
      RunSplit(Step(s, a[0], mk), a[1..], b, mk);
    }
  }

  lemma OneEvent(s: State, e: Event, mk: Maker)
    ensures Runs(s, [e], mk) <==> Enabled(s, e, mk)
    ensures Enabled(s, e, mk) ==> End(s, [e], mk) == Step(s, e, mk) && (AllTimely(s, [e], mk) <==> Timely(s, e))
  {
    var none: seq<Event> := [];
    assert [e][1..] == none;
    if Enabled(s, e, mk) {
      assert Runs(Step(s, e, mk), none, mk) && End(Step(s, e, mk), none, mk) == Step(s, e, mk);
    }
  }

  function Ticks(n: nat): (events: seq<Event>)
    ensures |events| == n
  {
    if n == 0 then [] else [Tick] + Ticks(n - 1)
  }

  lemma MoreTicks(n: nat)
    requires n > 0
    ensures Ticks(n)[0] == Tick && Ticks(n)[1..] == Ticks(n - 1)
  {
  }

  // ----- interrupts before anything is published -----

  /** The interrupts before the first bank is published. */
  function EarlyTicks(events: seq<Event>): nat
    decreases |events|
  {
    if events == [] || events[0].Publish? then 0
    else (if events[0].Tick? then 1 else 0) + EarlyTicks(events[1..])
  }

  /** How many interrupts the first start bears from here on. */
  ghost function Bears(s: State, st: Settings, mk: Maker): int
    requires s.m.Shaped()
  {
    if s.phase == Kicked && !s.m.down then |s.m.tables[s.m.active]| - s.m.current else |mk.table(st)|
  }

  /** The first start, for these settings, is under way. */
  ghost predicate FirstStart(s: State, st: Settings, mk: Maker) {
    && Good(s, mk) && !s.broken && !s.published && s.phase != Idle && mk.ok(st)
    && (s.phase.Writing? || s.phase.Built? ==> s.phase.st == st)
  }

  lemma {:induction false} PublishedIsSafe(s: State, events: seq<Event>, mk: Maker)
    requires mk.Valid() && Good(s, mk) && !s.broken && s.published
    requires Runs(s, events, mk) && AllTimely(s, events, mk)
    ensures !End(s, events, mk).broken
    decreases |events|
  {
    if events == [] {
    } else {
      StepKeepsGood(s, events[0], mk);
      PublishedIsSafe(Step(s, events[0], mk), events[1..], mk);
    }
  }

  lemma EarlyStep(s: State, st: Settings, e: Event, mk: Maker)
    requires mk.Valid() && FirstStart(s, st, mk) && Enabled(s, e, mk) && !e.Publish?
    ensures Bears(s, st, mk) > 0
    ensures var r := Step(s, e, mk);
            if r.broken then e.Tick? && Bears(s, st, mk) == 1
            else FirstStart(r, st, mk) && Bears(r, st, mk) == Bears(s, st, mk) - if e.Tick? then 1 else 0
  {
    StepKeepsGood(s, e, mk);
    assert mk.table(st) != [];
  }

  lemma {:induction false} BrokenEnds(s: State, events: seq<Event>, mk: Maker)
    requires s.broken && Runs(s, events, mk)
    ensures events == []
  {
  }

  lemma {:induction false} FirstStartBreaksIff(s: State, st: Settings, events: seq<Event>, mk: Maker)
    requires mk.Valid() && FirstStart(s, st, mk) && Runs(s, events, mk) && AllTimely(s, events, mk)
    ensures End(s, events, mk).broken <==> EarlyTicks(events) >= Bears(s, st, mk)
    decreases |events|
  {
    if events == [] {
      assert mk.table(st) != [];
    } else if events[0].Publish? {
      assert mk.table(st) != [];
      StepKeepsGood(s, Publish, mk);
      PublishedIsSafe(Step(s, Publish, mk), events[1..], mk);
    } else {
      EarlyStep(s, st, events[0], mk);
      var r := Step(s, events[0], mk);
      if r.broken {
        BrokenEnds(r, events[1..], mk);
      } else {
        FirstStartBreaksIff(r, st, events[1..], mk);
      }
    }
  }

  /** Over every interleaving of timely starts and interrupts: the handler reads
      outside of a table if and only if before the first bank is published there
      are as many interrupts as its table has entries. */
  lemma RunBreaksIff(s: State, events: seq<Event>, mk: Maker)
    requires mk.Valid() && PwmRun.Initial(s) && Runs(s, events, mk) && AllTimely(s, events, mk)
    ensures End(s, events, mk).broken
       <==> events != [] && events[0].Begin? && EarlyTicks(events) >= |mk.table(events[0].st)|
  {
    if events != [] {
      var st := events[0].st;
      FirstStartBreaksIff(Step(s, events[0], mk), st, events[1..], mk);
    }
  }

  // ----- which settings were asked for -----

  /** The settings of the last start that began. */
  function Asked(events: seq<Event>): seq<Settings> {
    if events == [] then []
    else
      var last := events[|events| - 1];
      if last.Begin? then [last.st] else Asked(events[..|events| - 1])
  }

  /** The settings of the last start that published its bank. */
  function Settled(events: seq<Event>): seq<Settings> {
    if events == [] then []
    else if events[|events| - 1].Publish? then Asked(events[..|events| - 1])
    else Settled(events[..|events| - 1])
  }

  function Entries(asked: seq<Settings>, mk: Maker): nat {
    if asked == [] then 0 else |mk.table(asked[0])|
  }

  /** What the banks hold, seen from the events. */
  ghost predicate Tracks(s: State, asked: seq<Settings>, settled: seq<Settings>)
    requires s.m.Shaped() && |s.made| == 2
  {
    && s.made[s.m.toggle] == settled
    && (s.phase.Writing? || s.phase.Built? ==> asked == [s.phase.st])
    && (s.phase == Kicked ==> s.made[s.m.Spare()] == asked)
  }

  lemma StepTracks(s: State, e: Event, asked: seq<Settings>, settled: seq<Settings>, mk: Maker)
    requires Enabled(s, e, mk) && Tracks(s, asked, settled)
    requires s.phase.Built? ==> s.made[s.m.Spare()] == [s.phase.st]
    ensures Tracks(Step(s, e, mk), if e.Begin? then [e.st] else asked, if e.Publish? then asked else settled)
  {
  }

  /** After any run, the next bank is that of the settings published last. */
  lemma {:induction false} RunTracks(s: State, events: seq<Event>, mk: Maker)
    requires mk.Valid() && PwmRun.Initial(s) && Runs(s, events, mk) && AllTimely(s, events, mk)
    requires !End(s, events, mk).broken
    ensures Good(End(s, events, mk), mk) && Tracks(End(s, events, mk), Asked(events), Settled(events))
    decreases |events|
  {
    if events == [] {
    } else {
      var up, last := events[..|events| - 1], events[|events| - 1];
      assert events == up + [last];
      RunSplit(s, up, [last], mk);
      OneEvent(End(s, up, mk), last, mk);
      RunTracks(s, up, mk);
      StepKeepsGood(End(s, up, mk), last, mk);
      StepTracks(End(s, up, mk), last, Asked(up), Settled(up), mk);
    }
  }

  // ----- interrupts in a later start -----

  /** The timer has stopped, and the table before the new one is in use. */
  ghost predicate Loses(s: State) {
    s.m.down && s.m.active == s.m.toggle
  }

  /** An interrupt that ends a cycle goes on with the next bank, any other with the
      next entry. */
  lemma OneTick(s: State, mk: Maker)
    requires mk.Valid() && Good(s, mk) && Enabled(s, Tick, mk) && (s.published || !s.m.AtBoundary())
    ensures var r := Step(s, Tick, mk);
            && Good(r, mk) && !r.broken && r.phase == s.phase && r.made == s.made && r.published == s.published
            && r.m.tables == s.m.tables && r.m.toggle == s.m.toggle
            && if s.m.AtBoundary()
               then r.m.active == s.m.toggle && r.inUse == s.made[s.m.toggle]
                    && (r.m.down <==> |s.m.tables[s.m.toggle]| == 1)
               else !r.m.down && r.m.active == s.m.active && r.m.current == s.m.current + 1
  {
    StepKeepsGood(s, Tick, mk);
    TickBreaksIff(s, mk);
  }

  /** Interrupts before a bank is published change only which table is in use: from
      the new one to the one before, which stops the timer if it has one entry. */
  lemma {:induction false} WindowTicks(s: State, n: nat, mk: Maker)
    requires mk.Valid() && Good(s, mk) && !s.broken && s.published && s.phase == Kicked && Runs(s, Ticks(n), mk)
    ensures AllTimely(s, Ticks(n), mk)
    ensures var r := End(s, Ticks(n), mk);
            && Good(r, mk) && !r.broken && r.published && r.phase == Kicked
            && r.made == s.made && r.m.tables == s.m.tables && r.m.toggle == s.m.toggle
            && (s.m.down ==> n == 0)
            && (!s.m.down && s.m.active == s.m.toggle ==> !r.m.down)
            && (!s.m.down && s.m.active != s.m.toggle ==>
                  (Loses(r) <==> n >= |s.m.tables[s.m.active]| - s.m.current && |s.m.tables[s.m.toggle]| == 1)
                  && (r.m.down ==> Loses(r)))
    decreases n
  {
    if n == 0 {
    } else {
      MoreTicks(n);
      OneTick(s, mk);
      GenuineNonEmpty(s, s.m.toggle, mk);
      WindowTicks(Step(s, Tick, mk), n - 1, mk);
    }
  }

  /** After this many interrupts the table of these settings is in use. */
  ghost predicate UsedAfter(s: State, k: nat, asked: seq<Settings>, mk: Maker) {
    Runs(s, Ticks(k), mk) && End(s, Ticks(k), mk).inUse == asked
  }

  /** Interrupts alone will bring the table of these settings into use. */
  ghost predicate ComesIntoUse(s: State, asked: seq<Settings>, mk: Maker) {
    exists k: nat :: UsedAfter(s, k, asked, mk)
  }

  lemma {:induction false} PickedUp(s: State, n: nat, mk: Maker)
    requires mk.Valid() && Good(s, mk) && !s.broken && s.published && !s.m.down
    requires n == |s.m.tables[s.m.active]| - s.m.current
    ensures UsedAfter(s, n, s.made[s.m.toggle], mk)
    decreases n
  {
    MoreTicks(n);
    OneTick(s, mk);
    var r := Step(s, Tick, mk);
    if n == 1 {
      assert Ticks(0) == [];
      assert End(r, [], mk) == r;
    } else {
      PickedUp(r, n - 1, mk);
    }
  }

  lemma UsedIff(s: State, mk: Maker)
    requires mk.Valid() && Good(s, mk) && !s.broken && s.published && s.phase == Idle
    requires s.m.down && s.m.active != s.m.toggle ==> s.inUse != s.made[s.m.toggle]
    ensures ComesIntoUse(s, s.made[s.m.toggle], mk) <==> !s.m.down || s.m.active == s.m.toggle
  {
    if !s.m.down {
      PickedUp(s, |s.m.tables[s.m.active]| - s.m.current, mk);
    } else {
      assert Ticks(0) == [];
      if s.m.active == s.m.toggle {
        assert UsedAfter(s, 0, s.made[s.m.toggle], mk);
      }
      forall k: nat | k > 0
        ensures !Runs(s, Ticks(k), mk)
      {
        MoreTicks(k);
      }
    }
  }

  lemma {:induction false} TicksAreEarly(n: nat)
    ensures EarlyTicks(Ticks(n)) == n
  {
    if n == 0 {
    } else {
      MoreTicks(n);
      TicksAreEarly(n - 1);
    }
  }

  /** Before anything was published, interrupts do not change the table in use. */
  lemma {:induction false} EarlyWindow(s: State, n: nat, mk: Maker)
    requires mk.Valid() && Good(s, mk) && !s.broken && !s.published && s.phase == Kicked && Runs(s, Ticks(n), mk)
    requires !End(s, Ticks(n), mk).broken
    ensures var r := End(s, Ticks(n), mk);
            && Good(r, mk) && r.phase == Kicked && !r.published
            && r.made == s.made && r.m.toggle == s.m.toggle && r.m.active == s.m.active && r.m.down == s.m.down
    ensures AllTimely(s, Ticks(n), mk)
    decreases n
  {
    if n == 0 {
    } else {
      MoreTicks(n);
      var r := Step(s, Tick, mk);
      StepKeepsGood(s, Tick, mk);
      if r.broken {
        BrokenEnds(r, Ticks(n - 1), mk);
      } else {
        EarlyWindow(r, n - 1, mk);
      }
    }
  }

  lemma Kicks(s: State, mk: Maker)
    requires mk.Valid() && Good(s, mk) && Enabled(s, KickTimer, mk)
    ensures var r := Step(s, KickTimer, mk);
            && Good(r, mk) && !r.broken && r.phase == Kicked && r.published == s.published
            && r.made == s.made && r.m.tables == s.m.tables && r.m.toggle == s.m.toggle
            && if s.m.down
               then r.m.active == s.m.Spare() && r.m.current == 0 && (r.m.down <==> |s.m.tables[s.m.Spare()]| == 1)
               else !r.m.down && r.m.active == s.m.toggle
  {
    StepKeepsGood(s, KickTimer, mk);
    GenuineNonEmpty(s, s.m.Spare(), mk);
  }

  /** After the window, the timer has lost against the interrupts exactly if these
      were as many as the new table has entries and the table before has one. */
  lemma KickAndTicks(s: State, n: nat, asked: seq<Settings>, settled: seq<Settings>, mk: Maker)
    requires mk.Valid() && Good(s, mk) && Enabled(s, KickTimer, mk) && Tracks(s, asked, settled)
    requires Runs(Step(s, KickTimer, mk), Ticks(n), mk) && !End(Step(s, KickTimer, mk), Ticks(n), mk).broken
    ensures var r := End(Step(s, KickTimer, mk), Ticks(n), mk);
            && Good(r, mk) && r.phase == Kicked && r.made == s.made && r.m.toggle == s.m.toggle
            && (Loses(r) <==> n >= Entries(asked, mk) && Entries(settled, mk) == 1)
            && (Loses(r) ==> Entries(asked, mk) >= 2)
            && (r.m.down ==> Loses(r) || r.m.active != r.m.toggle)
  {
    var s1 := Step(s, KickTimer, mk);
    Kicks(s, mk);
    if s.published {
      WindowTicks(s1, n, mk);
    } else {
      EarlyWindow(s1, n, mk);
      TicksAreEarly(n);
      FirstStartBreaksIff(s1, asked[0], Ticks(n), mk);
    }
  }

  /** The last steps of a start, with `n` interrupts among them. */
  function LastSteps(n: nat): seq<Event> {
    [KickTimer] + (Ticks(n) + [Publish])
  }

  lemma LastStepsRun(s: State, n: nat, mk: Maker)
    requires Runs(s, LastSteps(n), mk)
    ensures Enabled(s, KickTimer, mk)
    ensures var s1 := Step(s, KickTimer, mk);
            && Runs(s1, Ticks(n), mk) && Enabled(End(s1, Ticks(n), mk), Publish, mk)
            && End(s, LastSteps(n), mk) == Step(End(s1, Ticks(n), mk), Publish, mk)
  {
    var rest := Ticks(n) + [Publish];
    assert LastSteps(n)[0] == KickTimer && LastSteps(n)[1..] == rest;
    var s1 := Step(s, KickTimer, mk);
    RunSplit(s1, Ticks(n), [Publish], mk);
    OneEvent(End(s1, Ticks(n), mk), Publish, mk);
  }

  /** A start has published its bank, with `n` interrupts since it kicked the timer:
      the table comes into use if and only if these were fewer than its entries or
      the table before has not just one entry. */
  lemma TakesEffectIff(s: State, before: seq<Event>, n: nat, mk: Maker)
    requires mk.Valid() && PwmRun.Initial(s)
    requires Runs(s, before + LastSteps(n), mk) && AllTimely(s, before + LastSteps(n), mk)
    ensures var r := End(s, before + LastSteps(n), mk);
            && !r.broken && r.phase == Idle && r.m.Shaped() && |r.made| == 2 && r.made[r.m.toggle] == Asked(before)
            && (ComesIntoUse(r, Asked(before), mk)
                <==> n < Entries(Asked(before), mk) || Entries(Settled(before), mk) != 1)
            && (!ComesIntoUse(r, Asked(before), mk) ==> r.m.down && r.inUse == Settled(before))
  {
    RunSplit(s, before, LastSteps(n), mk);
    var b := End(s, before, mk);
    LastStepsRun(b, n, mk);
    RunTracks(s, before, mk);
    KickAndTicks(b, n, Asked(before), Settled(before), mk);
    var k := End(Step(b, KickTimer, mk), Ticks(n), mk);
    var r := Step(k, Publish, mk);
    StepKeepsGood(k, Publish, mk);
    UsedIff(r, mk);
  }

  /** Every run that has just published has this shape. */
  lemma {:induction false} PublishesSo(s: State, events: seq<Event>, mk: Maker) returns (before: seq<Event>, n: nat)
    requires PwmRun.Initial(s) && Runs(s, events, mk) && End(s, events, mk).phase == Kicked
    ensures events + [Publish] == before + LastSteps(n)
    decreases |events|
  {
    assert events != [];
    var up, last := events[..|events| - 1], events[|events| - 1];
    assert events == up + [last];
    RunSplit(s, up, [last], mk);
    OneEvent(End(s, up, mk), last, mk);
    if last == KickTimer {
      before, n := up, 0;
      assert events + [Publish] == up + ([KickTimer] + (Ticks(0) + [Publish]));
    } else {
      assert last == Tick;
      var m;
      before, m := PublishesSo(s, up, mk);
      n := m + 1;
      TicksSnoc(m);
      var front := before + [KickTimer] + Ticks(m);
      assert up + [Publish] == front + [Publish];
      assert up == (up + [Publish])[..|up|] == front;
      assert events + [Publish] == front + [Tick] + [Publish] == before + LastSteps(n);
    }
  }

  lemma {:induction false} TicksSnoc(n: nat)
    ensures Ticks(n + 1) == Ticks(n) + [Tick]
  {
    if n == 0 {
    } else {
      TicksSnoc(n - 1);
    }
  }

  // ----- runs in which it happens -----

  /** A whole start with `n` interrupts between kicking the timer and publishing. */
  function StartRun(st: Settings, n: nat): seq<Event> {
    [Begin(st), Complete] + LastSteps(n)
  }

  lemma Builds(s: State, st: Settings, mk: Maker)
    requires mk.Valid() && Good(s, mk) && !s.broken && s.phase == Idle && mk.ok(st) && Timely(s, Begin(st))
    ensures Runs(s, [Begin(st), Complete], mk) && AllTimely(s, [Begin(st), Complete], mk)
    ensures var r := End(s, [Begin(st), Complete], mk);
            && Good(r, mk) && !r.broken && r.phase == Built(st) && r.published == s.published
            && r.m == s.m.Store(mk.table(st)) && r.made[r.m.toggle] == s.made[s.m.toggle]
            && r.made[r.m.Spare()] == [st]
  {
    var s1 := Step(s, Begin(st), mk);
    StepKeepsGood(s, Begin(st), mk);
    StepKeepsGood(s1, Complete, mk);
    OneEvent(s, Begin(st), mk);
    OneEvent(s1, Complete, mk);
    RunAppend(s, [Begin(st)], [Complete], mk);
    assert [Begin(st)] + [Complete] == [Begin(st), Complete];
  }

  lemma LastStepsRunOn(s: State, n: nat, mk: Maker)
    requires mk.Valid() && Good(s, mk) && Enabled(s, KickTimer, mk)
    requires var s1 := Step(s, KickTimer, mk); Runs(s1, Ticks(n), mk) && !End(s1, Ticks(n), mk).broken
    ensures Runs(s, LastSteps(n), mk) && AllTimely(s, LastSteps(n), mk)
    ensures var k := End(Step(s, KickTimer, mk), Ticks(n), mk);
            && Enabled(k, Publish, mk)
            && End(s, LastSteps(n), mk) == Step(k, Publish, mk) && Good(Step(k, Publish, mk), mk)
  {
    var s1 := Step(s, KickTimer, mk);
    Kicks(s, mk);
    if s.published {
      WindowTicks(s1, n, mk);
    } else {
      EarlyWindow(s1, n, mk);
    }
    var k := End(s1, Ticks(n), mk);
    StepKeepsGood(k, Publish, mk);
    OneEvent(k, Publish, mk);
    RunAppend(s1, Ticks(n), [Publish], mk);
    OneEvent(s, KickTimer, mk);
    RunAppend(s, [KickTimer], Ticks(n) + [Publish], mk);
  }

  /** As many interrupts as there are entries left can come. */
  lemma {:induction false} TicksCome(s: State, n: nat, mk: Maker)
    requires mk.Valid() && Good(s, mk) && !s.broken && !s.m.down
    requires n <= |s.m.tables[s.m.active]| - s.m.current
    ensures Runs(s, Ticks(n), mk) && AllTimely(s, Ticks(n), mk)
    ensures n < |s.m.tables[s.m.active]| - s.m.current ==>
              var r := End(s, Ticks(n), mk);
              && Good(r, mk) && !r.broken && r.phase == s.phase && r.made == s.made && r.published == s.published
              && r.m.tables == s.m.tables && r.m.toggle == s.m.toggle && r.m.active == s.m.active
              && !r.m.down && r.m.current == s.m.current + n
    decreases n
  {
    if n == 0 {
    } else {
      MoreTicks(n);
      var r := Step(s, Tick, mk);
      if s.m.AtBoundary() {
        assert Ticks(0) == [];
        assert Runs(r, [], mk) && AllTimely(r, [], mk);
      } else {
        OneTick(s, mk);
        TicksCome(r, n - 1, mk);
      }
    }
  }

  /** A start with `n` interrupts, fewer than the new table has entries, or as many
      if there was a table before. */
  lemma Starts(s: State, st: Settings, n: nat, mk: Maker)
    requires mk.Valid() && Good(s, mk) && !s.broken && s.phase == Idle && mk.ok(st) && Timely(s, Begin(st))
    requires n == 0 || (s.m.down && |mk.table(st)| >= 2 && n <= |mk.table(st)| - if s.published then 0 else 1)
    ensures Runs(s, StartRun(st, n), mk) && AllTimely(s, StartRun(st, n), mk)
    ensures var r := End(s, StartRun(st, n), mk);
            Good(r, mk) && !r.broken && r.phase == Idle && r.published && r.made[r.m.toggle] == [st]
  {
    Builds(s, st, mk);
    var b := End(s, [Begin(st), Complete], mk);
    var s1 := Step(b, KickTimer, mk);
    Kicks(b, mk);
    if n == 0 {
      assert Ticks(0) == [];
    } else {
      TicksCome(s1, n, mk);
    }
    if b.published {
      WindowTicks(s1, n, mk);
    }
    LastStepsRunOn(b, n, mk);
    RunAppend(s, [Begin(st), Complete], LastSteps(n), mk);
  }

  /** The first start with as many interrupts as its table has entries. */
  lemma FirstStartRace(s: State, st: Settings, mk: Maker) returns (events: seq<Event>)
    requires mk.Valid() && PwmRun.Initial(s) && mk.ok(st) && |mk.table(st)| >= 2
    ensures events == [Begin(st), Complete] + ([KickTimer] + Ticks(|mk.table(st)|))
    ensures Runs(s, events, mk) && AllTimely(s, events, mk) && End(s, events, mk).broken
  {
    var ticks := Ticks(|mk.table(st)|);
    Builds(s, st, mk);
    var b := End(s, [Begin(st), Complete], mk);
    Kicks(b, mk);
    TicksCome(Step(b, KickTimer, mk), |mk.table(st)|, mk);
    OneEvent(b, KickTimer, mk);
    RunAppend(b, [KickTimer], ticks, mk);
    RunAppend(s, [Begin(st), Complete], [KickTimer] + ticks, mk);
    events := [Begin(st), Complete] + ([KickTimer] + ticks);
    TicksAreEarly(|mk.table(st)|);
    var e1 := [Complete] + ([KickTimer] + ticks);
    assert events[1..] == e1 && e1[1..] == [KickTimer] + ticks && ([KickTimer] + ticks)[1..] == ticks;
    assert EarlyTicks(e1) == EarlyTicks([KickTimer] + ticks) == EarlyTicks(ticks);
    RunBreaksIff(s, events, mk);
  }

  /** A start without an interrupt in its last steps. */
  lemma QuickStart(s: State, st: Settings, mk: Maker)
    requires mk.Valid() && Good(s, mk) && !s.broken && s.phase == Idle && mk.ok(st) && Timely(s, Begin(st))
    ensures Runs(s, StartRun(st, 0), mk)
    ensures var r := End(s, StartRun(st, 0), mk);
            && r.m.Shaped()
            && if s.m.down
               then (r.m.down <==> |mk.table(st)| == 1) && r.m.active == r.m.toggle && r.m.current == 0
                    && r.m.tables[r.m.active] == mk.table(st)
               else !r.m.down && r.m.active != r.m.toggle && r.m.current == s.m.current
                    && r.m.active == s.m.active && r.m.tables[r.m.active] == s.m.tables[s.m.active]
  {
    Starts(s, st, 0, mk);
    Builds(s, st, mk);
    var b := End(s, [Begin(st), Complete], mk);
    RunSplit(s, [Begin(st), Complete], LastSteps(0), mk);
    LastStepsRun(b, 0, mk);
    Kicks(b, mk);
    assert Ticks(0) == [];
    assert End(Step(b, KickTimer, mk), [], mk) == Step(b, KickTimer, mk);
  }

  /** The run in which a start of two or more entries after one of a single entry is
      interrupted as often as its table has entries. */
  function LostStart(st1: Settings, st2: Settings, mk: Maker): seq<Event> {
    StartRun(st1, 0) + StartRun(st2, |mk.table(st2)|)
  }

  /** It publishes a table that no interrupt brings into use. */
  lemma APublishedTableIsNotUsed(s: State, st1: Settings, st2: Settings, mk: Maker)
    requires mk.Valid() && PwmRun.Initial(s) && mk.ok(st1) && mk.ok(st2)
    requires |mk.table(st1)| == 1 && |mk.table(st2)| >= 2
    ensures Runs(s, LostStart(st1, st2, mk), mk) && AllTimely(s, LostStart(st1, st2, mk), mk)
    ensures var r := End(s, LostStart(st1, st2, mk), mk);
            && !r.broken && r.phase == Idle && r.m.Shaped() && |r.made| == 2
            && r.made[r.m.toggle] == [st2] && r.inUse == [st1] && !ComesIntoUse(r, [st2], mk)
  {
    var n := |mk.table(st2)|;
    var first, building := StartRun(st1, 0), [Begin(st2), Complete];
    Starts(s, st1, 0, mk);
    QuickStart(s, st1, mk);
    Starts(End(s, first, mk), st2, n, mk);
    RunAppend(s, first, StartRun(st2, n), mk);
    assert LostStart(st1, st2, mk) == (first + building) + LastSteps(n);
    AskedAndSettled(st1, st2);
    TakesEffectIff(s, first + building, n, mk);
  }

  lemma AskedAndSettled(st1: Settings, st2: Settings)
    ensures Asked(StartRun(st1, 0) + [Begin(st2), Complete]) == [st2]
    ensures Settled(StartRun(st1, 0) + [Begin(st2), Complete]) == [st1]
  {
    assert Ticks(0) == [];
    var e3 := [Begin(st1), Complete, KickTimer];
    var e4, e5 := e3 + [Publish], e3 + [Publish] + [Begin(st2)];
    assert StartRun(st1, 0) + [Begin(st2), Complete] == e5 + [Complete];
    assert (e5 + [Complete])[..5] == e5 && e5[..4] == e4 && e4[..3] == e3;
    assert e3[..2] == [Begin(st1), Complete] && [Begin(st1), Complete][..1] == [Begin(st1)];
    assert Asked(e5) == [st2];
    assert Asked([Begin(st1)]) == [st1];
    assert Asked([Begin(st1), Complete]) == [st1];
    assert Asked(e3) == [st1];
    assert Settled(e5) == Settled(e4) == [st1];
  }

  // ----- starts that are not timely -----

  /** A start before the table published last was picked up builds its table in the
      bank in use: the next interrupt reads outside of it if and only if it has no
      more entries than the handler has used. */
  lemma UntimelyStartIff(s: State, st: Settings, mk: Maker) returns (events: seq<Event>)
    requires mk.Valid() && Good(s, mk) && !s.broken && s.phase == Idle && mk.ok(st)
    requires !s.m.down && !Timely(s, Begin(st))
    ensures events == [Begin(st), Complete, Tick] && Runs(s, events, mk)
    ensures End(s, events, mk).broken <==> |mk.table(st)| <= s.m.current
  {
    var s1 := Step(s, Begin(st), mk);
    var s2 := Step(s1, Complete, mk);
    assert s2.m.tables[s2.m.active] == mk.table(st) && s2.m.tables[s2.m.toggle] == s.m.tables[s.m.toggle];
    GenuineNonEmpty(s, s.m.toggle, mk);
    OneEvent(s, Begin(st), mk);
    OneEvent(s1, Complete, mk);
    OneEvent(s2, Tick, mk);
    RunAppend(s1, [Complete], [Tick], mk);
    RunAppend(s, [Begin(st)], [Complete] + [Tick], mk);
    events := [Begin(st)] + ([Complete] + [Tick]);
  }

  /** Two starts in a row, and then `k` interrupts of the first one's cycle. */
  function TwoStarts(a: Settings, b: Settings, k: nat): seq<Event> {
    StartRun(a, 0) + StartRun(b, 0) + Ticks(k)
  }

  /** The run in which a third start comes before the second one's table was picked
      up: the next interrupt reads outside of a table if and only if the third table
      has no more entries than there were interrupts. */
  lemma ThirdStartIff(s: State, a: Settings, b: Settings, c: Settings, k: nat, mk: Maker)
    returns (events: seq<Event>)
    requires mk.Valid() && PwmRun.Initial(s) && mk.ok(a) && mk.ok(b) && mk.ok(c)
    requires 1 < |mk.table(a)| && k < |mk.table(a)|
    ensures Runs(s, TwoStarts(a, b, k), mk) && AllTimely(s, TwoStarts(a, b, k), mk)
    ensures events == TwoStarts(a, b, k) + [Begin(c), Complete, Tick] && Runs(s, events, mk)
    ensures End(s, events, mk).broken <==> |mk.table(c)| <= k
  {
    Starts(s, a, 0, mk);
    QuickStart(s, a, mk);
    var s1 := End(s, StartRun(a, 0), mk);
    Starts(s1, b, 0, mk);
    QuickStart(s1, b, mk);
    var s2 := End(s1, StartRun(b, 0), mk);
    TicksCome(s2, k, mk);
    RunAppend(s, StartRun(a, 0), StartRun(b, 0), mk);
    RunAppend(s, StartRun(a, 0) + StartRun(b, 0), Ticks(k), mk);
    var last := UntimelyStartIff(End(s2, Ticks(k), mk), c, mk);
    RunAppend(s, TwoStarts(a, b, k), last, mk);
    events := TwoStarts(a, b, k) + last;
  }

  // ----- the tables of the driver -----

  /** For the driver the entries are the different times at which a channel of the
      settings is switched off, with the end of the period. */
  lemma EntriesAre(st: Settings, pins: seq<nat>)
    requires InRange(st, pins)
    ensures Entries([st], PwmMaker(pins)) == |PwmTable.SwitchTimes(st.Pulses(), 5 * st.period)|
  {
    InRangeIsExact(st, pins);
    PwmTable.BuildEntries(pins, st.Ticks(), st.Total());
  }

  /** There are two or more, and the timer is needed, if and only if some pulse is
      neither empty nor the whole period. */
  lemma TimerNeededIff(st: Settings, pins: seq<nat>)
    requires InRange(st, pins)
    ensures Entries([st], PwmMaker(pins)) >= 1
    ensures Entries([st], PwmMaker(pins)) >= 2
       <==> exists i :: 0 <= i < |pins| && 0 < st.Pulses()[i] < 5 * st.period
  {
    InRangeIsExact(st, pins);
    EntriesAre(st, pins);
    PwmTable.SeveralTimesIff(st.Pulses(), 5 * st.period);
    assert forall i :: 0 <= i < |pins| ==> st.Pulses()[i] <= 5 * st.period;
  }
}
