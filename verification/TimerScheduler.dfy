/** The scheduler as it runs: globals, the one system timer it arms, and the
    callbacks that slice a wait, run the actions and start over. */
module TimerScheduler {
  import opened Arithmetic
  import opened TimerSchedule

  /** What the system timer is armed for, in milliseconds. */
  datatype Armed = Unarmed | Slice(ms: nat) | Final(ms: nat)

  /** A firing: its time, the milliseconds waited for it, and the actions run. */
  datatype Firing = Firing(time: nat, waited: nat, actions: seq<string>)

  class Scheduler {
    const timers: seq<Timer>
    var timestamp: nat
    var minWaitSecond: nat
    var actions: seq<string>         // the wait record: what to run when the wait is over
    var minTimeBackup: nat           // the wait record: seconds not yet armed
    var armed: Armed
    var plug: bool
    var elapsed: nat                 // milliseconds since the waits were computed

    ghost predicate Valid()
      reads this
    {
      AllValid(timers) && |timers| <= MAX_TIMERS && minWaitSecond <= MAX_WAIT
    }

    /** A wait is under way: the record belongs to the current time, and what
        has elapsed, is armed and remains adds up to the wait. */
    ghost predicate Waiting()
      reads this
    {
      && Valid()
      && minWaitSecond == MinWait(Waits(timers, timestamp))
      && actions == Selected(timers, Waits(timers, timestamp), minWaitSecond)
      && Sliced()
    }

    ghost predicate Sliced()
      reads this
    {
      match armed
      case Unarmed => false
      case Slice(ms) => ms == 3600000 && elapsed + ms + 1000 * minTimeBackup == 1000 * minWaitSecond
      case Final(ms) => ms < 3600000 && elapsed + ms == 1000 * minWaitSecond
    }

    constructor (timers: seq<Timer>, timestamp: nat, plug: bool)
      requires AllValid(timers) && |timers| <= MAX_TIMERS
      ensures Valid() && armed == Unarmed
      ensures this.timers == timers && this.timestamp == timestamp && this.plug == plug && minWaitSecond == 0
    {
      this.timers, this.timestamp, this.plug := timers, timestamp, plug;
      this.minWaitSecond, this.minTimeBackup := 0, 0;
      this.actions, this.armed := [], Unarmed;
      this.elapsed := 0;
    }

    method FindMinTime(waits: seq<int>)
      requires Valid()
      modifies this`minWaitSecond
      ensures Valid() && minWaitSecond == MinWait(waits)
    {
      minWaitSecond := MAX_WAIT;
      var i := 0;
      while i < |waits|
        invariant i <= |waits|
        invariant minWaitSecond == MinWait(waits[..i])
      {
        assert waits[..i + 1][..i] == waits[..i];
        if waits[i] < minWaitSecond && waits[i] >= 0 {
          minWaitSecond := waits[i];
        }
        i := i + 1;
      }
      assert waits[..i] == waits;
    }

    /** Arms one slice: an hour if at least that much remains, else the rest. */
    method OverflowCheck()
      requires Valid() && elapsed + 1000 * minTimeBackup == 1000 * minWaitSecond
      modifies this`armed, this`minTimeBackup
      ensures Valid() && Sliced()
      ensures armed.Slice? ==> minTimeBackup == old(minTimeBackup) - HOUR
    {
      if minTimeBackup >= HOUR {
        armed := Slice(1000 * HOUR);
      } else {
        armed := Final(1000 * minTimeBackup);
      }
      minTimeBackup := (minTimeBackup + U32 - HOUR) % U32;
    }

    /** Collects the actions of the timers that wait the shortest, and starts waiting. */
    method TimerAction(waits: seq<int>)
      requires Valid() && waits == Waits(timers, timestamp) && minWaitSecond == MinWait(waits)
      modifies this`actions, this`minTimeBackup, this`armed, this`elapsed
      ensures Waiting() && elapsed == 0
    {
      actions := [];
      var i := 0;
      while i < |timers|
        invariant i <= |timers|
        invariant actions == Selected(timers[..i], waits[..i], minWaitSecond)
      {
        assert timers[..i + 1][..i] == timers[..i] && waits[..i + 1][..i] == waits[..i];
        if waits[i] == minWaitSecond {
          actions := actions + [timers[i].action];
        }
        i := i + 1;
      }
      assert timers[..i] == timers && waits[..i] == waits;
      minTimeBackup := minWaitSecond;
      elapsed := 0;
      OverflowCheck();
    }

    /** Moves the clock to the end of the last wait and computes the next one. */
    method FirstStart()
      requires Valid() && timestamp + minWaitSecond < I32
      modifies this`timestamp, this`minWaitSecond, this`actions, this`minTimeBackup, this`armed, this`elapsed
      ensures Waiting() && elapsed == 0 && timestamp == old(timestamp + minWaitSecond)
    {
      timestamp := timestamp + minWaitSecond;
      var waits: seq<int> := [];
      var i := 0;
      while i < |timers|
        invariant i <= |timers| == |Waits(timers, timestamp)| && waits == Waits(timers, timestamp)[..i]
      {
        waits := waits + [Wait(timers[i], timestamp)];
        i := i + 1;
      }
      assert waits == Waits(timers, timestamp);
      FindMinTime(waits);
      TimerAction(waits);
    }

    /** Runs the collected actions and starts over, unless one is unknown. */
    method DeviceAction() returns (goesOn: bool)
      requires Waiting() && timestamp + minWaitSecond < I32
      modifies this
      ensures (plug, goesOn) == RunActions(old(plug), old(actions))
      ensures AllKnown(old(actions)) ==> goesOn && Leaves(old(plug), old(actions), plug)
      ensures goesOn ==> Waiting() && elapsed == 0 && timestamp == old(timestamp + minWaitSecond)
      ensures !goesOn ==> timestamp == old(timestamp) && armed == Unarmed
    {
      KnownGo(plug, actions);
      armed := Unarmed;
      var i := 0;
      while i < |actions| && !(actions[i] != "" && actions[i][0] == '0')
        invariant i <= |actions| && Valid() && armed == Unarmed
        invariant actions == old(actions) && timestamp == old(timestamp) && minWaitSecond == old(minWaitSecond)
        invariant RunActions(plug, actions[i..]) == RunActions(old(plug), actions)
      {
        assert actions[i..][1..] == actions[i + 1..];
        if actions[i] == "on_switch" {
          plug := true;
        } else if actions[i] == "off_switch" {
          plug := false;
        } else if actions[i] == "on_off_switch" {
          plug := !plug;
        } else {
          return false;
        }
        i := i + 1;
      }
      FirstStart();
      goesOn := true;
    }

    /** The system timer expires until the actions run: the slices together last
        exactly the computed wait. */
    method WaitAndFire() returns (goesOn: bool, waited: nat)
      requires Waiting() && elapsed == 0 && timestamp + minWaitSecond < I32
      modifies this
      ensures waited == 1000 * old(minWaitSecond)
      ensures (plug, goesOn) == RunActions(old(plug), old(actions))
      ensures goesOn ==> Waiting() && elapsed == 0 && timestamp == old(timestamp + minWaitSecond)
      ensures !goesOn ==> timestamp == old(timestamp) && armed == Unarmed
    {
      while armed.Slice?
        invariant Waiting() && timestamp == old(timestamp) && plug == old(plug)
        invariant minWaitSecond == old(minWaitSecond) && actions == old(actions)
        decreases armed.Slice?, minTimeBackup
      {
        elapsed := elapsed + armed.ms;
        OverflowCheck();
      }
      waited := elapsed + armed.ms;
      goesOn := DeviceAction();
    }
  }

  ghost predicate KnownTimers(timers: seq<Timer>) {
    forall i :: 0 <= i < |timers| ==> Known(timers[i].action)
  }

  /** What should happen after `now`: the firing time, reached by waiting exactly
      that long, and the actions due then. */
  function NextFiring(timers: seq<Timer>, now: nat): Firing
    requires AllValid(timers)
  {
    var t := FiringTime(timers, now);
    Firing(t, 1000 * (t - now), DueActions(timers, t))
  }

  /** One firing of recurring timers with known actions: it happens after exactly
      the gap to the next due instant and runs exactly the actions due then. */
  method Fire(s: Scheduler) returns (firing: Firing)
    requires s.Waiting() && s.elapsed == 0 && Recurring(s.timers) && KnownTimers(s.timers)
    requires s.timestamp >= FIRST_MONDAY && FiringTime(s.timers, s.timestamp) < I32
    modifies s
    ensures s.Waiting() && s.elapsed == 0 && s.timestamp == FiringTime(s.timers, old(s.timestamp))
    ensures firing == NextFiring(s.timers, old(s.timestamp)) && firing.time == s.timestamp
    ensures firing.waited == 1000 * (s.timestamp - old(s.timestamp))
    ensures s.plug == RunActions(old(s.plug), firing.actions).0
    ensures Leaves(old(s.plug), firing.actions, s.plug)
  {
    RecurringFiring(s.timers, s.timestamp);
    DueAreKnown(s.timers, FiringTime(s.timers, s.timestamp));
    KnownLeave(s.plug, s.actions);
    var actions := s.actions;
    var goesOn, waited := s.WaitAndFire();
    firing := Firing(s.timestamp, waited, actions);
  }

  /** The first `n` firings: the due instants in order, each with its actions. */
  function ExpectedLog(timers: seq<Timer>, start: nat, n: nat): seq<Firing>
    requires AllValid(timers)
  {
    if n == 0 then []
    else ExpectedLog(timers, start, n - 1) + [NextFiring(timers, TimeAfter(timers, start, n - 1))]
  }

  /** All actions of a log, in order. */
  function AllActions(log: seq<Firing>): seq<string> {
    if log == [] then [] else AllActions(log[..|log| - 1]) + log[|log| - 1].actions
  }

  lemma ActionsSnoc(plug: bool, log: seq<Firing>, firing: Firing)
    requires AllKnown(AllActions(log)) && AllKnown(firing.actions)
    ensures AllKnown(AllActions(log + [firing]))
    ensures RunActions(plug, AllActions(log + [firing])).0
         == RunActions(RunActions(plug, AllActions(log)).0, firing.actions).0
  {
    assert (log + [firing])[..|log|] == log;
    RunConcat(plug, AllActions(log), firing.actions);
  }

  /** The milliseconds waited for all firings together. */
  function TotalWait(log: seq<Firing>): nat {
    if log == [] then 0 else TotalWait(log[..|log| - 1]) + log[|log| - 1].waited
  }

  lemma {:induction false} WaitsAddUp(timers: seq<Timer>, start: nat, n: nat)
    requires AllValid(timers)
    ensures TotalWait(ExpectedLog(timers, start, n)) == 1000 * (TimeAfter(timers, start, n) - start)
  {
    if n == 0 {
    } else {
      var log := ExpectedLog(timers, start, n);
      assert log[..|log| - 1] == ExpectedLog(timers, start, n - 1);
      WaitsAddUp(timers, start, n - 1);
    }
  }

  /** `n` firings from a start: the times, the waits and the actions run are those
      of the first `n` firing times, the waits last together exactly that long, and
      the plug is as all these actions leave it. */
  method Run(s: Scheduler, n: nat) returns (log: seq<Firing>)
    requires s.Valid() && s.minWaitSecond == 0 && Recurring(s.timers) && KnownTimers(s.timers)
    requires s.timestamp >= FIRST_MONDAY && TimeAfter(s.timers, s.timestamp, n) < I32
    modifies s
    ensures log == ExpectedLog(s.timers, old(s.timestamp), n)
    ensures TotalWait(log) == 1000 * (TimeAfter(s.timers, old(s.timestamp), n) - old(s.timestamp))
    ensures Leaves(old(s.plug), AllActions(log), s.plug)
  {
    s.FirstStart();
    WaitsAddUp(s.timers, s.timestamp, n);
    log := FireTimes(s, n);
    KnownLeave(old(s.plug), AllActions(log));
  }

  method FireTimes(s: Scheduler, n: nat) returns (log: seq<Firing>)
    requires s.Waiting() && s.elapsed == 0 && Recurring(s.timers) && KnownTimers(s.timers)
    requires s.timestamp >= FIRST_MONDAY && TimeAfter(s.timers, s.timestamp, n) < I32
    modifies s
    ensures log == ExpectedLog(s.timers, old(s.timestamp), n)
    ensures AllKnown(AllActions(log)) && s.plug == RunActions(old(s.plug), AllActions(log)).0
  {
    ghost var start := s.timestamp;
    log := [];
    var i := 0;
    while i < n
      invariant i <= n
      invariant s.Waiting() && s.elapsed == 0 && s.timestamp == TimeAfter(s.timers, start, i)
      invariant log == ExpectedLog(s.timers, start, i)
      invariant AllKnown(AllActions(log)) && s.plug == RunActions(old(s.plug), AllActions(log)).0
    {
      TimesIncrease(s.timers, start, i + 1, n);
      var firing := Fire(s);
      DueAreKnown(s.timers, firing.time);
      ActionsSnoc(old(s.plug), log, firing);
      log := log + [firing];
      i := i + 1;
    }
  }

  lemma {:induction false} DueAreKnown(timers: seq<Timer>, t: int)
    requires AllValid(timers) && KnownTimers(timers)
    ensures AllKnown(DueActions(timers, t))
  {
    if timers == [] {
    } else {
      DueAreKnown(timers[..|timers| - 1], t);
    }
  }
}
