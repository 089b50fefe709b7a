/** The timer scheduler: waits of loop, weekly and fixed timers, the earliest
    firing, the hourly slices that bridge a long wait, and what is run when. */
module TimerSchedule {
  import opened Arithmetic

  const WEEK := 7 * 24 * 3600
  const FIRST_MONDAY := 1388937600
  const MAX_WAIT := 0xFFFFFFF
  const HOUR := 3600
  const MAX_TIMERS := 20

  datatype Timer =
    | Fixed(at: nat, action: string)
    | Loop(period: nat, action: string)
    | Weekly(second: nat, action: string)
  {
    predicate Valid() {
      Loop? ==> period > 0
    }

    /** The instants at which the timer is meant to go off. */
    predicate DueAt(t: int)
      requires Valid()
    {
      match this
      case Fixed(at, _) => t == at
      case Loop(p, _) => t % p == 0
      case Weekly(s, _) => (t - FIRST_MONDAY - s) % WEEK == 0
    }
  }

  /** Remainder as C computes it, with the sign of the dividend. */
  function CRem(a: int, b: int): int
    requires b > 0
  {
    if a >= 0 then a % b else -((-a) % b)
  }

  /** Seconds to wait from `now`, as the scheduler computes them. */
  function Wait(timer: Timer, now: nat): int
    requires timer.Valid()
  {
    match timer
    case Fixed(at, _) => at - now
    case Loop(p, _) => p - now % p
    case Weekly(s, _) =>
      var monday := CRem(now - FIRST_MONDAY, WEEK);
      if s > monday then s - monday else WEEK - monday + s
  }

  // ----- a wait leads to the next due instant -----

  /** `gap` seconds after `now` is the first due instant after `now`. */
  ghost predicate IsNext(timer: Timer, now: nat, gap: int)
    requires timer.Valid()
  {
    && gap > 0 && timer.DueAt(now + gap)
    && forall t :: now < t < now + gap ==> !timer.DueAt(t)
  }

  /** A gap of at most one cycle that ends at a due instant of a cyclic timer is
      the first one. */
  lemma CyclicNext(now: int, m: int, phase: int, gap: int, t: int)
    requires m > 0 && now < t < now + gap && gap <= m && (now + gap - phase) % m == 0
    ensures (t - phase) % m != 0
  {
    if (t - phase) % m == 0 {
      SameResidue(now + gap - phase, t - phase, m);
    }
  }

  lemma LoopWaitIsNext(timer: Timer, now: nat)
    requires timer.Valid() && timer.Loop?
    ensures IsNext(timer, now, Wait(timer, now))
  {
    var p := timer.period;
    var gap := Wait(timer, now);
    assert now + gap == (now / p + 1) * p + 0 by {
      assert now == (now / p) * p + now % p;
    }
    ModIs(now + gap, now / p + 1, p, 0);
    forall t | now < t < now + gap
      ensures !timer.DueAt(t)
    {
      CyclicNext(now, p, 0, gap, t);
    }
  }

  lemma WeeklyWaitIsDue(timer: Timer, now: nat)
    requires timer.Weekly?
    ensures timer.DueAt(now + Wait(timer, now)) && Wait(timer, now) > 0
  {
    var a := now - FIRST_MONDAY;
    var monday := CRem(a, WEEK);
    var k := if a >= 0 then a / WEEK else -((-a) / WEEK);
    assert a == k * WEEK + monday;
    var n := if timer.second > monday then k else k + 1;
    assert now + Wait(timer, now) - FIRST_MONDAY - timer.second == n * WEEK + 0;
    ModIs(now + Wait(timer, now) - FIRST_MONDAY - timer.second, n, WEEK, 0);
  }

  /** A weekly wait is not more than a week. The remainder that it is computed from
      is negative before the first Monday. */
  predicate Punctual(timer: Timer, now: nat) {
    timer.Weekly? ==> timer.second - CRem(now - FIRST_MONDAY, WEEK) <= WEEK
  }

  /** A weekly wait leads to the first due instant exactly when it is punctual. */
  lemma WeeklyWaitIff(timer: Timer, now: nat)
    requires timer.Weekly?
    ensures IsNext(timer, now, Wait(timer, now)) <==> Punctual(timer, now)
  {
    var gap := Wait(timer, now);
    WeeklyWaitIsDue(timer, now);
    if Punctual(timer, now) {
      forall t | now < t < now + gap
        ensures !timer.DueAt(t)
      {
        CyclicNext(now, WEEK, FIRST_MONDAY + timer.second, gap, t);
      }
    } else {
      var x := now + gap - FIRST_MONDAY - timer.second;
      assert x == (x / WEEK) * WEEK + 0;
      ModIs(x - WEEK, x / WEEK - 1, WEEK, 0);
      assert timer.DueAt(now + gap - WEEK);
    }
  }

  /** From the first Monday on, a weekly timer is always punctual exactly if its
      second is not behind the end of the week. */
  lemma AlwaysPunctualIff(timer: Timer)
    requires timer.Weekly?
    ensures (forall now: nat :: now >= FIRST_MONDAY ==> Punctual(timer, now)) <==> timer.second <= WEEK
  {
    assert Punctual(timer, FIRST_MONDAY) <==> timer.second <= WEEK;
  }

  /** At second 0 of the epoch a timer for a Thursday waits more than a week. */
  lemma EarlyWeeklyMissesItsInstant(action: string)
    ensures var timer := Weekly(300000, action);
            Wait(timer, 0) == 616800 && !IsNext(timer, 0, Wait(timer, 0))
  {
    WeeklyWaitIff(Weekly(300000, action), 0);
  }

  lemma FixedWaitIff(timer: Timer, now: nat)
    requires timer.Valid() && timer.Fixed?
    ensures IsNext(timer, now, Wait(timer, now)) <==> timer.at > now
  {
    assert timer.DueAt(now + Wait(timer, now));
  }

  // ----- one firing -----

  predicate AllValid(timers: seq<Timer>) {
    forall i :: 0 <= i < |timers| ==> timers[i].Valid()
  }

  function Waits(timers: seq<Timer>, now: nat): (w: seq<int>)
    requires AllValid(timers)
    ensures |w| == |timers|
  {
    seq(|timers|, i requires 0 <= i < |timers| => Wait(timers[i], now))
  }

  /** The smallest wait that is not negative, if it is below the limit. */
  function MinWait(waits: seq<int>): (m: nat)
    ensures m <= MAX_WAIT
  {
    if waits == [] then MAX_WAIT
    else
      var m := MinWait(waits[..|waits| - 1]);
      var w := waits[|waits| - 1];
      if 0 <= w < m then w else m
  }

  lemma {:induction false} MinWaitIsLeast(waits: seq<int>)
    ensures forall i :: 0 <= i < |waits| ==> waits[i] < 0 || MinWait(waits) <= waits[i] || waits[i] >= MAX_WAIT
    ensures MinWait(waits) == MAX_WAIT || MinWait(waits) in waits
  {
    if waits == [] {
    } else {
      MinWaitIsLeast(waits[..|waits| - 1]);
    }
  }

  function FiringTime(timers: seq<Timer>, now: nat): nat
    requires AllValid(timers)
  {
    now + MinWait(Waits(timers, now))
  }

  ghost predicate AnyDue(timers: seq<Timer>, t: int)
    requires AllValid(timers)
  {
    exists i :: 0 <= i < |timers| && timers[i].DueAt(t)
  }

  ghost predicate Earliest(timers: seq<Timer>, now: nat, t: int)
    requires AllValid(timers)
  {
    t > now && AnyDue(timers, t) && forall u :: now < u < t ==> !AnyDue(timers, u)
  }

  /** Seconds from `now` to the first due instant of a recurring timer: the wait,
      less the weeks that it is too long. */
  function FirstGap(timer: Timer, now: nat): int
    requires timer.Valid()
  {
    var w := Wait(timer, now);
    if timer.Weekly? then (w - 1) % WEEK + 1 else w
  }

  lemma FirstGapIsNext(timer: Timer, now: nat)
    requires timer.Valid() && !timer.Fixed?
    ensures IsNext(timer, now, FirstGap(timer, now))
    ensures if Punctual(timer, now) then FirstGap(timer, now) == Wait(timer, now)
            else FirstGap(timer, now) <= WEEK < Wait(timer, now)
    ensures timer.DueAt(now + Wait(timer, now))
  {
    if timer.Loop? {
      LoopWaitIsNext(timer, now);
    } else {
      var w, gap := Wait(timer, now), FirstGap(timer, now);
      WeeklyWaitIsDue(timer, now);
      var x := now + w - FIRST_MONDAY - timer.second;
      assert x == (x / WEEK) * WEEK + 0 && w - gap == ((w - 1) / WEEK) * WEEK;
      ModIs(x - (w - gap), x / WEEK - (w - 1) / WEEK, WEEK, 0);
      forall t | now < t < now + gap
        ensures !timer.DueAt(t)
      {
        CyclicNext(now, WEEK, FIRST_MONDAY + timer.second, gap, t);
      }
    }
  }

  /** No weekly timer that waits too long is due within `gap` seconds. */
  predicate OnTime(timers: seq<Timer>, now: nat, gap: int)
    requires AllValid(timers)
  {
    forall i :: 0 <= i < |timers| ==> Punctual(timers[i], now) || FirstGap(timers[i], now) > gap
  }

  /** A fixed timer is set to the current time. */
  predicate FiresAgain(timers: seq<Timer>, now: nat) {
    exists i :: 0 <= i < |timers| && timers[i] == Fixed(now, timers[i].action)
  }

  /** Some wait is within the limit. */
  predicate WithinLimit(timers: seq<Timer>, now: nat)
    requires AllValid(timers)
  {
    exists i :: 0 <= i < |timers| && 0 <= Wait(timers[i], now) <= MAX_WAIT
  }

  /** A timer is not due before the firing, and due at the firing if and only if it
      waits until then, exactly if it does not wait too long or is due later. */
  lemma DueIffSelected(timers: seq<Timer>, now: nat, i: nat)
    requires AllValid(timers) && i < |timers| && MinWait(Waits(timers, now)) > 0
    ensures var timer, m := timers[i], MinWait(Waits(timers, now));
            && (Wait(timer, now) == m ==> timer.DueAt(now + m))
            && ((forall t :: now < t < now + m ==> !timer.DueAt(t))
                <==> Punctual(timer, now) || FirstGap(timer, now) >= m)
            && (Punctual(timer, now) || FirstGap(timer, now) != m ==>
                  FirstGap(timer, now) >= m ==> (timer.DueAt(now + m) <==> Wait(timer, now) == m))
            && (!Punctual(timer, now) && FirstGap(timer, now) == m ==>
                  timer.DueAt(now + m) && Wait(timer, now) != m)
  {
    var waits := Waits(timers, now);
    MinWaitIsLeast(waits);
    assert waits[i] == Wait(timers[i], now);
    if !timers[i].Fixed? {
      FirstGapIsNext(timers[i], now);
    }
  }

  /** The next firing is at once exactly if a fixed timer is set to the current
      time. */
  lemma AtOnceIff(timers: seq<Timer>, now: nat)
    requires AllValid(timers)
    ensures MinWait(Waits(timers, now)) == 0 <==> FiresAgain(timers, now)
  {
    var waits := Waits(timers, now);
    MinWaitIsLeast(waits);
    if i :| 0 <= i < |timers| && timers[i] == Fixed(now, timers[i].action) {
      assert waits[i] == 0;
    }
    if m :| 0 <= m < |waits| && waits[m] == 0 {
      if !timers[m].Fixed? {
        FirstGapIsNext(timers[m], now);
      }
      assert timers[m] == Fixed(now, timers[m].action);
    }
  }

  /** Unless it is at once, a firing skips no due instant if and only if no weekly
      timer that waits too long is due before it. */
  lemma NothingSkippedIff(timers: seq<Timer>, now: nat)
    requires AllValid(timers) && !FiresAgain(timers, now)
    ensures FiringTime(timers, now) > now
    ensures (forall t :: now < t < FiringTime(timers, now) ==> !AnyDue(timers, t))
       <==> OnTime(timers, now, MinWait(Waits(timers, now)) - 1)
  {
    var m := MinWait(Waits(timers, now));
    AtOnceIff(timers, now);
    forall i | 0 <= i < |timers|
      ensures (forall t :: now < t < now + m ==> !timers[i].DueAt(t))
         <==> Punctual(timers[i], now) || FirstGap(timers[i], now) >= m
    {
      DueIffSelected(timers, now, i);
    }
    if !OnTime(timers, now, m - 1) {
      var i :| 0 <= i < |timers| && !(Punctual(timers[i], now) || FirstGap(timers[i], now) > m - 1);
      var t :| now < t < now + m && timers[i].DueAt(t);
      assert AnyDue(timers, t);
    }
  }

  /** If it skips nothing, it runs exactly what is due if and only if no weekly timer
      that waits too long is due just then; and then it runs nothing at all exactly
      if every wait is beyond the limit. */
  lemma RunsWhatIsDueIff(timers: seq<Timer>, now: nat)
    requires AllValid(timers) && !FiresAgain(timers, now)
    requires OnTime(timers, now, MinWait(Waits(timers, now)) - 1)
    ensures var m := MinWait(Waits(timers, now));
            && (Selected(timers, Waits(timers, now), m) == DueActions(timers, now + m) <==> OnTime(timers, now, m))
            && (AnyDue(timers, now + m) <==> WithinLimit(timers, now))
  {
    var waits := Waits(timers, now);
    var m := MinWait(waits);
    AtOnceIff(timers, now);
    MinWaitIsLeast(waits);
    forall i | 0 <= i < |timers|
      ensures waits[i] == m ==> timers[i].DueAt(now + m)
      ensures (timers[i].DueAt(now + m) <==> waits[i] == m)
         <==> Punctual(timers[i], now) || FirstGap(timers[i], now) > m
    {
      DueIffSelected(timers, now, i);
    }
    SelectedAreDueIff(timers, waits, m, now + m);
    if i :| 0 <= i < |timers| && 0 <= Wait(timers[i], now) <= MAX_WAIT {
      assert waits[i] >= 0 && MinWait(waits) in waits;
    }
    if i :| 0 <= i < |timers| && timers[i].DueAt(now + m) {
      DueIffSelected(timers, now, i);
      if !timers[i].Fixed? {
        FirstGapIsNext(timers[i], now);
      }
      assert Wait(timers[i], now) == waits[i];
    }
  }

  /** A firing is at the first due instant after the previous one if and only if no
      fixed timer is set to that previous instant, which fires again at once, no
      weekly timer that waits too long is due before, and some wait is within the
      limit. */
  lemma FiringIsEarliestIff(timers: seq<Timer>, now: nat)
    requires AllValid(timers)
    ensures Earliest(timers, now, FiringTime(timers, now))
       <==> && !FiresAgain(timers, now) && WithinLimit(timers, now)
            && OnTime(timers, now, MinWait(Waits(timers, now)) - 1)
  {
    AtOnceIff(timers, now);
    if !FiresAgain(timers, now) {
      NothingSkippedIff(timers, now);
      if OnTime(timers, now, MinWait(Waits(timers, now)) - 1) {
        RunsWhatIsDueIff(timers, now);
      }
    }
  }

  /** A loop of a minute does not keep a fixed timer from firing again at once. */
  lemma FixedFiresAgain(now: nat, a: string, b: string)
    ensures var timers := [Loop(60, a), Fixed(now, b)];
            FiringTime(timers, now) == now && !Earliest(timers, now, now)
  {
    var timers := [Loop(60, a), Fixed(now, b)];
    assert timers[1] == Fixed(now, timers[1].action);
    AtOnceIff(timers, now);
  }

  /** A loop that is longer than the limit is interrupted by an idle firing. */
  lemma LongLoopFiresIdly(a: string)
    ensures var timers := [Loop(2 * MAX_WAIT, a)];
            FiringTime(timers, 0) == 268435455 && !AnyDue(timers, 268435455)
  {
    var timers := [Loop(2 * MAX_WAIT, a)];
    assert Waits(timers, 0) == [2 * MAX_WAIT];
    assert Waits(timers, 0)[..0] == [];
    RunsWhatIsDueIff(timers, 0);
  }

  // ----- what is run -----

  /** The actions of the timers due at `t`, in the order of the list. */
  function DueActions(timers: seq<Timer>, t: int): seq<string>
    requires AllValid(timers)
  {
    if timers == [] then []
    else
      var up := timers[..|timers| - 1];
      var last := timers[|timers| - 1];
      DueActions(up, t) + if last.DueAt(t) then [last.action] else []
  }

  /** The action of a due timer comes right behind those of the due timers before it
      in the list. */
  lemma {:induction false} DueInOrder(timers: seq<Timer>, t: int, k: nat)
    requires AllValid(timers) && k < |timers| && timers[k].DueAt(t)
    ensures DueActions(timers[..k], t) + [timers[k].action] <= DueActions(timers, t)
    decreases |timers|
  {
    var n := |timers| - 1;
    if k < n {
      assert timers[..n][..k] == timers[..k];
      DueInOrder(timers[..n], t, k);
    }
  }

  /** The actions of the timers whose wait is `m`. */
  function Selected(timers: seq<Timer>, waits: seq<int>, m: int): (a: seq<string>)
    requires |waits| == |timers|
    ensures |a| <= |timers|
  {
    if timers == [] then []
    else
      Selected(timers[..|timers| - 1], waits[..|waits| - 1], m)
      + if waits[|waits| - 1] == m then [timers[|timers| - 1].action] else []
  }

  /** If the timers with wait `m` are due at `t`, their actions are all that are due
      exactly if no other timer is due. */
  lemma {:induction false} SelectedAreDueIff(timers: seq<Timer>, waits: seq<int>, m: int, t: int)
    requires AllValid(timers) && |waits| == |timers|
    requires forall i :: 0 <= i < |timers| ==> waits[i] == m ==> timers[i].DueAt(t)
    ensures |Selected(timers, waits, m)| <= |DueActions(timers, t)|
    ensures Selected(timers, waits, m) == DueActions(timers, t)
       <==> forall i :: 0 <= i < |timers| ==> (timers[i].DueAt(t) <==> waits[i] == m)
  {
    if timers == [] {
    } else {
      var n := |timers| - 1;
      SelectedAreDueIff(timers[..n], waits[..n], m, t);
      OneMoreSelected(Selected(timers[..n], waits[..n], m), DueActions(timers[..n], t), timers[n].action,
                      waits[n] == m, timers[n].DueAt(t));
    }
  }

  lemma OneMoreSelected(a: seq<string>, b: seq<string>, action: string, selected: bool, due: bool)
    requires |a| <= |b| && (selected ==> due)
    ensures var none: seq<string> := [];
            a + (if selected then [action] else none) == b + (if due then [action] else none)
            <==> a == b && selected == due
  {
    var none: seq<string> := [];
    var x, y := a + (if selected then [action] else none), b + (if due then [action] else none);
    if x == y {
      assert |x| == |y|;
      assert x[..|a|] == a && y[..|b|] == b;
    }
  }

  /** The effect of a list of actions on the plug, and whether the scheduler goes
      on after it: an unknown action ends it. */
  function RunActions(plug: bool, actions: seq<string>): (bool, bool)
    decreases |actions|
  {
    if actions == [] then (plug, true)
    else
      var a := actions[0];
      if a != "" && a[0] == '0' then (plug, true)
      else if a == "on_switch" then RunActions(true, actions[1..])
      else if a == "off_switch" then RunActions(false, actions[1..])
      else if a == "on_off_switch" then RunActions(!plug, actions[1..])
      else (plug, false)
  }

  predicate Known(a: string) {
    a == "on_switch" || a == "off_switch" || a == "on_off_switch"
  }

  predicate AllKnown(actions: seq<string>) {
    forall a :: a in actions ==> Known(a)
  }

  /** The action switches the plug to a state of its own. */
  predicate Sets(a: string) {
    a == "on_switch" || a == "off_switch"
  }

  /** The plug is changed to the other state an odd number of times. */
  predicate Toggles(actions: seq<string>) {
    multiset(actions)["on_off_switch"] % 2 == 1
  }

  /** From entry `j` on nothing sets the plug. */
  predicate NothingSets(actions: seq<string>, j: nat) {
    forall i :: j <= i < |actions| ==> !Sets(actions[i])
  }

  /** What actions leave: the last one that sets the plug decides, or the state
      before if none does, and then the changes to the other state behind it. */
  ghost predicate Leaves(plug: bool, actions: seq<string>, result: bool) {
    && (NothingSets(actions, 0) ==> (result <==> plug != Toggles(actions)))
    && forall j :: 0 <= j < |actions| && Sets(actions[j]) && NothingSets(actions, j + 1) ==>
         (result <==> (actions[j] == "on_switch") != Toggles(actions[j + 1..]))
  }

  lemma OneMoreAction(a: string, rest: seq<string>)
    ensures Toggles([a] + rest) == (if a == "on_off_switch" then !Toggles(rest) else Toggles(rest))
    ensures NothingSets([a] + rest, 0) <==> !Sets(a) && NothingSets(rest, 0)
  {
    var all := [a] + rest;
    assert multiset(all) == multiset{a} + multiset(rest);
    assert all[0] == a && forall i :: 0 <= i < |rest| ==> all[i + 1] == rest[i];
  }

  /** After known actions the plug is as these leave it. */
  lemma {:induction false} KnownLeave(plug: bool, actions: seq<string>)
    requires AllKnown(actions)
    ensures RunActions(plug, actions).1 && Leaves(plug, actions, RunActions(plug, actions).0)
    decreases |actions|
  {
    if actions == [] {
    } else {
      var a, rest := actions[0], actions[1..];
      var next := if a == "on_switch" then true else if a == "off_switch" then false else !plug;
      assert Known(a) && actions == [a] + rest;
      KnownLeave(next, rest);
      OneMoreAction(a, rest);
      LeavesCons(plug, a, rest, next, RunActions(plug, actions).0);
    }
  }

  lemma KnownGo(plug: bool, actions: seq<string>)
    ensures AllKnown(actions) ==> RunActions(plug, actions).1 && Leaves(plug, actions, RunActions(plug, actions).0)
  {
    if AllKnown(actions) {
      KnownLeave(plug, actions);
    }
  }

  lemma LeavesCons(plug: bool, a: string, rest: seq<string>, next: bool, result: bool)
    requires Known(a) && Leaves(next, rest, result)
    requires next == if a == "on_switch" then true else if a == "off_switch" then false else !plug
    ensures Leaves(plug, [a] + rest, result)
  {
    var all := [a] + rest;
    OneMoreAction(a, rest);
    forall j | 0 <= j < |all| && Sets(all[j]) && NothingSets(all, j + 1)
      ensures result <==> (all[j] == "on_switch") != Toggles(all[j + 1..])
    {
      LastSetIn(a, rest, j);
    }
  }

  lemma LastSetIn(a: string, rest: seq<string>, j: nat)
    requires j <= |rest| && NothingSets([a] + rest, j + 1)
    ensures NothingSets(rest, j)
    ensures var all := [a] + rest;
            all[j] == (if j == 0 then a else rest[j - 1]) && all[j + 1..] == rest[j..] && rest[0..] == rest
  {
    var all := [a] + rest;
    forall i | j <= i < |rest|
      ensures !Sets(rest[i])
    {
      assert all[i + 1] == rest[i];
    }
  }

  lemma {:induction false} RunPrefix(plug: bool, actions: seq<string>, k: nat)
    requires k <= |actions| && AllKnown(actions[..k])
    ensures RunActions(plug, actions) == RunActions(RunActions(plug, actions[..k]).0, actions[k..])
    decreases k
  {
    if k == 0 {
      assert actions[0..] == actions;
    } else {
      var a, rest := actions[0], actions[1..];
      assert actions[..k][0] == a && actions[..k][1..] == rest[..k - 1] && rest[k - 1..] == actions[k..];
      assert Known(a);
      forall b | b in rest[..k - 1]
        ensures Known(b)
      {
        assert b in actions[..k];
      }
      var next := if a == "on_switch" then true else if a == "off_switch" then false else !plug;
      RunPrefix(next, rest, k - 1);
    }
  }

  /** A list of actions stops at the first one that begins with `0`, after which the
      scheduler goes on, or that is not known, after which it does not; and the plug
      is as the actions before that leave it. */
  lemma RunActionsIs(plug: bool, actions: seq<string>, k: nat)
    requires k <= |actions| && AllKnown(actions[..k]) && (k < |actions| ==> !Known(actions[k]))
    ensures Leaves(plug, actions[..k], RunActions(plug, actions).0)
    ensures RunActions(plug, actions).1 <==> k == |actions| || (actions[k] != "" && actions[k][0] == '0')
  {
    KnownLeave(plug, actions[..k]);
    RunPrefix(plug, actions, k);
    if k == |actions| {
      assert actions[k..] == [];
    } else {
      assert actions[k..][0] == actions[k];
    }
  }

  lemma RunConcat(plug: bool, a: seq<string>, b: seq<string>)
    requires AllKnown(a)
    ensures RunActions(plug, a + b).0 == RunActions(RunActions(plug, a).0, b).0
  {
    assert (a + b)[..|a|] == a && (a + b)[|a|..] == b;
    RunPrefix(plug, a + b, |a|);
  }

  // ----- runs -----

  /** Loop timers, and weekly timers for a second of the week. */
  predicate Recurring(timers: seq<Timer>) {
    && AllValid(timers)
    && forall i :: 0 <= i < |timers| ==> !timers[i].Fixed? && (timers[i].Weekly? ==> timers[i].second <= WEEK)
  }

  /** The time of firing number `n`; number 0 is the start. */
  function TimeAfter(timers: seq<Timer>, start: nat, n: nat): (t: nat)
    requires AllValid(timers)
    ensures t >= start
  {
    if n == 0 then start else FiringTime(timers, TimeAfter(timers, start, n - 1))
  }

  /** A firing of recurring timers skips nothing and runs exactly what is due. */
  lemma RecurringFiring(timers: seq<Timer>, now: nat)
    requires Recurring(timers) && now >= FIRST_MONDAY
    ensures FiringTime(timers, now) > now
    ensures forall t :: now < t < FiringTime(timers, now) ==> !AnyDue(timers, t)
    ensures AnyDue(timers, FiringTime(timers, now)) <==> WithinLimit(timers, now)
    ensures Selected(timers, Waits(timers, now), MinWait(Waits(timers, now)))
         == DueActions(timers, FiringTime(timers, now))
  {
    NothingSkippedIff(timers, now);
    RunsWhatIsDueIff(timers, now);
  }

  /** Firing number `k` is at `t`, and it is not an idle one. */
  ghost predicate FiredAt(timers: seq<Timer>, start: nat, k: nat, t: int)
    requires AllValid(timers) && k > 0
  {
    t == TimeAfter(timers, start, k) && WithinLimit(timers, TimeAfter(timers, start, k - 1))
  }

  /** Over any number of firings, the instants after the start at which something
      is due are exactly the times of the firings that are not idle: none is skipped
      and none is made up. */
  lemma {:induction false} NoDueInstantIsSkipped(timers: seq<Timer>, start: nat, n: nat, t: int)
    requires Recurring(timers) && start >= FIRST_MONDAY && start < t <= TimeAfter(timers, start, n)
    ensures AnyDue(timers, t) <==> exists k :: 1 <= k <= n && FiredAt(timers, start, k, t)
  {
    if t <= TimeAfter(timers, start, n - 1) {
      NoDueInstantIsSkipped(timers, start, n - 1, t);
      FiredLater(timers, start, n, t);
      if AnyDue(timers, t) {
        var k :| 1 <= k <= n - 1 && FiredAt(timers, start, k, t);
        assert 1 <= k <= n;
      }
    } else {
      FiredBefore(timers, start, n, t);
      LastFiring(timers, start, n, t);
    }
  }

  lemma FiredLater(timers: seq<Timer>, start: nat, n: nat, t: int)
    requires Recurring(timers) && start >= FIRST_MONDAY && n > 0 && t <= TimeAfter(timers, start, n - 1)
    ensures !FiredAt(timers, start, n, t)
  {
    RecurringFiring(timers, TimeAfter(timers, start, n - 1));
  }

  lemma FiredBefore(timers: seq<Timer>, start: nat, n: nat, t: int)
    requires Recurring(timers) && start >= FIRST_MONDAY && n > 0 && t > TimeAfter(timers, start, n - 1)
    ensures forall k :: 1 <= k < n ==> !FiredAt(timers, start, k, t)
  {
    forall k | 1 <= k < n
      ensures !FiredAt(timers, start, k, t)
    {
      TimesIncrease(timers, start, k, n - 1);
    }
  }

  lemma LastFiring(timers: seq<Timer>, start: nat, n: nat, t: int)
    requires Recurring(timers) && start >= FIRST_MONDAY && n > 0
    requires TimeAfter(timers, start, n - 1) < t <= TimeAfter(timers, start, n)
    ensures AnyDue(timers, t) <==> FiredAt(timers, start, n, t)
  {
    RecurringFiring(timers, TimeAfter(timers, start, n - 1));
  }

  lemma {:induction false} TimesIncrease(timers: seq<Timer>, start: nat, j: nat, k: nat)
    requires Recurring(timers) && start >= FIRST_MONDAY && j <= k
    ensures TimeAfter(timers, start, j) + (k - j) <= TimeAfter(timers, start, k)
    decreases k
  {
    if j < k {
      TimesIncrease(timers, start, j, k - 1);
      RecurringFiring(timers, TimeAfter(timers, start, k - 1));
    }
  }
}
