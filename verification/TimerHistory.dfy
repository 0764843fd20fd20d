/** What the calls made on a timer manager (Helens/timer.cc) decide about what fires, over every run. */
module TimerHistory {
  import opened Options
  import opened TimerSet
  import opened Timer
  import opened TimerRuns

  // ----- what was asked for -----

  predicate Adds(act: Action, a: nat) { act.Add? && act.a == a }

  /** The call that made timer `a`; the length of the run if there is none. */
  function Making(run: seq<Action>, a: nat): (k: nat)
    ensures k <= |run|
    ensures k < |run| ==> Adds(run[k], a)
    ensures forall j :: 0 <= j < k ==> !Adds(run[j], a)
  {
    if run == [] then 0 else if Adds(run[0], a) then 0 else 1 + Making(run[1..], a)
  }

  /** `a` was refreshed or reset. */
  predicate Moved(run: seq<Action>, a: nat) {
    exists j :: 0 <= j < |run| && ((run[j].RefreshTimer? && run[j].a == a) || (run[j].ResetTimer? && run[j].a == a))
  }

  /** The time `a` was made to fire at. */
  function AskedFor(run: seq<Action>, a: nat): nat
    requires Making(run, a) < |run|
  {
    run[Making(run, a)].reading + run[Making(run, a)].ms
  }

  lemma MakingSnoc(run: seq<Action>, act: Action, a: nat)
    requires Making(run, a) < |run|
    ensures Making(run + [act], a) == Making(run, a) && (run + [act])[Making(run, a)] == run[Making(run, a)]
  {
    var k, k' := Making(run, a), Making(run + [act], a);
    assert Adds((run + [act])[k], a);
  }

  lemma MadeNow(run: seq<Action>, act: Action, a: nat)
    requires Making(run, a) == |run| && Adds(act, a)
    ensures Making(run + [act], a) == |run|
  {
    var k' := Making(run + [act], a);
    assert Adds((run + [act])[|run|], a);
  }

  lemma MovedSnoc(run: seq<Action>, act: Action, a: nat)
    requires !Moved(run + [act], a)
    ensures !Moved(run, a) && !(act.RefreshTimer? && act.a == a) && !(act.ResetTimer? && act.a == a)
  {
    assert (run + [act])[|run|] == act;
    assert forall j :: 0 <= j < |run| ==> (run + [act])[j] == run[j];
  }

  // ----- timers and firings follow it -----

  predicate HasFired(s: State, a: nat) { exists i :: 0 <= i < |s.fired| && s.fired[i].timer == a }

  /** A timer is what its call said; until it is moved it is not due earlier, and until it fires exactly then. */
  ghost predicate AsMade(s: State, past: seq<Action>, a: nat)
    requires a in s.m.timers
  {
    && Making(past, a) < |past|
    && var made, timer := past[Making(past, a)], s.m.timers[a];
    && timer.recurring == made.recurring
    && (timer.cb.Some? ==> timer.cb == Some(made.cb))
    && (!Moved(past, a) ==>
          && timer.ms == made.ms && timer.next >= made.reading + made.ms
          && (!HasFired(s, a) ==> timer.next == made.reading + made.ms))
  }

  /** What is handed out is what the call gave, not before its time. */
  ghost predicate FiredAsMade(past: seq<Action>, f: Firing) {
    && Making(past, f.timer) < |past|
    && f.cb == Some(past[Making(past, f.timer)].cb)
    && (!Moved(past, f.timer) ==> f.now >= AskedFor(past, f.timer))
  }

  ghost predicate Follows(s: State, past: seq<Action>) {
    && (forall a :: a in s.m.timers ==> AsMade(s, past, a))
    && (forall a :: Making(past, a) < |past| ==> a in s.m.timers)
    && (forall i :: 0 <= i < |s.fired| ==> FiredAsMade(past, s.fired[i]))
  }

  /** How each step changes one timer that is there. */
  lemma TimerStep(s: State, act: Action, a: nat)
    requires TimerRuns.Inv(s) && Enabled(s, act) && a in s.m.timers
    ensures var t := Apply(s, act);
      && a in t.m.timers && s.fired <= t.fired
      && var was, after := s.m.timers[a], t.m.timers[a];
      && after.recurring == was.recurring && (after.cb == was.cb || after.cb.None?)
      && (!(act.RefreshTimer? && act.a == a) && !(act.ResetTimer? && act.a == a) ==>
            after.ms == was.ms && (after.next == was.next || (HasFired(t, a) && after.next >= was.next)))
  {
    hide Sorted, Insert, Find, Erase, LowerBound, Apply, Enabled, HasFired, NoLostWakeUp, FiringsOk;
    match act
    case Tick(_) => QuietStep(s, act);
    case Next => QuietStep(s, act);
    case Add(b, ms, cb, recurring, reading) => AddStep(s, b, ms, cb, recurring, reading);
    case CancelTimer(b) => TouchStep(s, act);
    case RefreshTimer(b) => TouchStep(s, act);
    case ResetTimer(b, _, _) => TouchStep(s, act);
    case List(reading, probe) => ListStep(s, reading, probe, a);
  }

  lemma QuietStep(s: State, act: Action)
    requires TimerRuns.Inv(s) && Enabled(s, act) && (act.Tick? || act.Next?)
    ensures Apply(s, act).m.timers == s.m.timers && Apply(s, act).fired == s.fired
  {}

  lemma AddStep(s: State, b: nat, ms: nat, cb: nat, recurring: bool, reading: nat)
    requires TimerRuns.Inv(s) && Enabled(s, Add(b, ms, cb, recurring, reading))
    ensures var t := Apply(s, Add(b, ms, cb, recurring, reading));
      && t.fired == s.fired && t.m.timers.Keys == s.m.timers.Keys + {b}
      && (forall a :: a in s.m.timers ==> t.m.timers[a] == s.m.timers[a])
      && t.m.timers[b] == TimerSet.Timer(recurring, ms, reading + ms, Some(cb))
  {
    hide Sorted, Insert, Timer.AddTimer;
    AddTimerKeeps(s.m, b, ms, cb, recurring, reading);
  }

  lemma TouchStep(s: State, act: Action)
    requires TimerRuns.Inv(s) && Enabled(s, act) && (act.CancelTimer? || act.RefreshTimer? || act.ResetTimer?)
    ensures var t := Apply(s, act);
      && t.fired == s.fired && t.m.timers.Keys == s.m.timers.Keys
      && (forall a :: a in s.m.timers && a != act.a ==> t.m.timers[a] == s.m.timers[a])
      && t.m.timers[act.a].recurring == s.m.timers[act.a].recurring
      && (if act.CancelTimer? then t.m.timers[act.a] == s.m.timers[act.a].(cb := None) else t.m.timers[act.a].cb == s.m.timers[act.a].cb)
  {
    hide Sorted, Timer.Cancel, Timer.Refresh, Timer.Reset, Add64, Sub64;
    match act
    case CancelTimer(a) => CancelKeeps(s.m, a);
    case RefreshTimer(a) => RefreshKeeps(s.m, a, s.clock);
    case ResetTimer(a, ms, fromNow) => ResetKeeps(s.m, a, ms, fromNow, s.clock);
  }

  lemma ListStep(s: State, reading: nat, probe: nat, a: nat)
    requires TimerRuns.Inv(s) && Enabled(s, List(reading, probe)) && a in s.m.timers
    ensures var t := Apply(s, List(reading, probe));
      && a in t.m.timers && s.fired <= t.fired
      && var was, after := s.m.timers[a], t.m.timers[a];
      && after.recurring == was.recurring && (after.cb == was.cb || after.cb.None?)
      && after.ms == was.ms && (after.next == was.next || (HasFired(t, a) && after.next >= was.next))
  {
    hide Sorted, Apply, Due, NoLostWakeUp, FiringsOk, SetFromClock;
    ListMeans(s, reading, probe);
    var t, due, n := Apply(s, List(reading, probe)), Due(s, reading, probe), |s.fired|;
    if a in due {
      var i :| 0 <= i < |due| && due[i] == a;
      assert t.fired[n + i].timer == a;
    }
  }

  /** What a call of listExpiredCb hands out: the callback of each due timer, with its deadline. */
  lemma NewFirings(s: State, act: Action, i: nat)
    requires TimerRuns.Inv(s) && Enabled(s, act) && |s.fired| <= i < |Apply(s, act).fired|
    ensures var f := Apply(s, act).fired[i];
      && act.List? && f.timer in s.m.timers && f.timer in s.m.order
      && f.cb == s.m.timers[f.timer].cb && f.cb.Some? && f.now == act.reading && s.m.timers[f.timer].next <= f.now
  {
    hide Sorted, Apply, Due, NoLostWakeUp, FiringsOk, SetFromClock;
    SameLog(s, act);
    ListMeans(s, act.reading, act.probe);
    var due, n := Due(s, act.reading, act.probe), |s.fired|;
    assert Apply(s, act).fired[i] == Fires(s.m, due, act.reading, Callbacks(s.m.timers, due))[i - n];
    assert due[i - n] in due;
  }

  lemma SameLog(s: State, act: Action)
    requires TimerRuns.Inv(s) && Enabled(s, act)
    ensures !act.List? ==> Apply(s, act).fired == s.fired
  {
    hide Sorted, Insert, Find, Erase, LowerBound;
  }

  lemma FiredStays(s: State, t: State, a: nat)
    requires s.fired <= t.fired && HasFired(s, a)
    ensures HasFired(t, a)
  {
    var i :| 0 <= i < |s.fired| && s.fired[i].timer == a;
    assert t.fired[i].timer == a;
  }

  lemma KeepMade(s: State, past: seq<Action>, act: Action, a: nat)
    requires TimerRuns.Inv(s) && Enabled(s, act) && a in s.m.timers && AsMade(s, past, a)
    ensures a in Apply(s, act).m.timers && AsMade(Apply(s, act), past + [act], a)
  {
    hide Timer.Inv, SetFromClock, NoLostWakeUp, FiringsOk, Enabled, Apply, Moved, HasFired, Making;
    TimerStep(s, act, a);
    MakingSnoc(past, act, a);
    if !Moved(past + [act], a) {
      MovedSnoc(past, act, a);
      if HasFired(s, a) { FiredStays(s, Apply(s, act), a); }
    }
  }

  lemma NewMade(s: State, past: seq<Action>, act: Action)
    requires TimerRuns.Inv(s) && Enabled(s, act) && act.Add? && Follows(s, past)
    ensures act.a in Apply(s, act).m.timers && AsMade(Apply(s, act), past + [act], act.a)
    ensures Apply(s, act).m.timers.Keys == s.m.timers.Keys + {act.a} && Apply(s, act).fired == s.fired
  {
    hide TimerRuns.Inv, Apply, Moved, HasFired, Making;
    AddStep(s, act.a, act.ms, act.cb, act.recurring, act.reading);
    MadeNow(past, act, act.a);
  }

  lemma SameTimers(s: State, act: Action)
    requires TimerRuns.Inv(s) && Enabled(s, act) && !act.Add?
    ensures Apply(s, act).m.timers.Keys == s.m.timers.Keys
  {
    hide Sorted, Apply, SetFromClock, NoLostWakeUp, FiringsOk;
    match act
    case Tick(_) => QuietStep(s, act);
    case Next => QuietStep(s, act);
    case CancelTimer(_) => TouchStep(s, act);
    case RefreshTimer(_) => TouchStep(s, act);
    case ResetTimer(_, _, _) => TouchStep(s, act);
    case List(reading, probe) => ListMeans(s, reading, probe);
  }

  lemma KeepFirings(s: State, past: seq<Action>, act: Action, i: nat)
    requires TimerRuns.Inv(s) && Enabled(s, act) && Follows(s, past) && s.fired <= Apply(s, act).fired && i < |Apply(s, act).fired|
    ensures FiredAsMade(past + [act], Apply(s, act).fired[i])
  {
    hide Timer.Inv, SetFromClock, NoLostWakeUp, FiringsOk, Enabled, Apply, Moved, HasFired, Making;
    var f := Apply(s, act).fired[i];
    if i < |s.fired| {
      assert f == s.fired[i];
    } else {
      NewFirings(s, act, i);
      assert AsMade(s, past, f.timer);
    }
    MakingSnoc(past, act, f.timer);
    if !Moved(past + [act], f.timer) { MovedSnoc(past, act, f.timer); }
  }

  lemma FollowStep(s: State, past: seq<Action>, act: Action)
    requires TimerRuns.Inv(s) && Enabled(s, act) && Follows(s, past)
    ensures Follows(Apply(s, act), past + [act])
  {
    hide Timer.Inv, SetFromClock, NoLostWakeUp, FiringsOk, Enabled, Apply, AsMade, FiredAsMade, Making;
    var t := Apply(s, act);
    if act.Add? { NewMade(s, past, act); } else { SameTimers(s, act); }
    forall a | a in t.m.timers ensures AsMade(t, past + [act], a) {
      if a in s.m.timers { KeepMade(s, past, act, a); }
    }
    forall a | Making(past + [act], a) < |past + [act]| ensures a in t.m.timers {
      OnlyMade(past, act, a);
    }
    LogGrows(s, act);
    forall i | 0 <= i < |t.fired| ensures FiredAsMade(past + [act], t.fired[i]) {
      KeepFirings(s, past, act, i);
    }
  }

  lemma LogGrows(s: State, act: Action)
    requires TimerRuns.Inv(s) && Enabled(s, act)
    ensures s.fired <= Apply(s, act).fired
  {
    hide Sorted, Insert, Find, Erase, LowerBound;
  }

  lemma OnlyMade(past: seq<Action>, act: Action, a: nat)
    requires Making(past + [act], a) < |past| + 1
    ensures Making(past, a) < |past| || Adds(act, a)
  {
    var k := Making(past + [act], a);
    if k < |past| { assert (past + [act])[k] == past[k]; }
  }

  lemma {:induction false} RunFollows(s: State, past: seq<Action>, run: seq<Action>)
    requires TimerRuns.Inv(s) && Follows(s, past) && Legal(s, run)
    ensures TimerRuns.Inv(Run(s, run)) && Follows(Run(s, run), past + run)
    decreases |run|
  {
    hide TimerRuns.Inv, Follows, Enabled, Apply;
    if run == [] {
      assert past + run == past;
    } else {
      StepKeeps(s, run[0]);
      FollowStep(s, past, run[0]);
      RunFollows(Apply(s, run[0]), past + [run[0]], run[1..]);
      assert past + [run[0]] + run[1..] == past + run;
    }
  }

  lemma FromStart(clock: nat, run: seq<Action>)
    requires Legal(Initial(clock), run)
    ensures TimerRuns.Inv(Run(Initial(clock), run)) && Follows(Run(Initial(clock), run), run)
  {
    hide TimerRuns.Inv;
    InitialInv(clock);
    RunFollows(Initial(clock), [], run);
    assert [] + run == run;
  }

  /**
   Over every run, by the calls made in it: what a timer hands out is the callback its addTimer was
   given; unless it was reset or refreshed, not before the reading and the period of that call; and
   if that call asked for one shot, at most once.
   */
  lemma EveryFiring(clock: nat, run: seq<Action>, i: nat)
    requires Legal(Initial(clock), run) && i < |Run(Initial(clock), run).fired|
    ensures var t := Run(Initial(clock), run);
      var f := t.fired[i];
      var k := Making(run, f.timer);
      && k < |run| && f.cb == Some(run[k].cb)
      && (!Moved(run, f.timer) ==> f.now >= run[k].reading + run[k].ms)
      && (!run[k].recurring ==> forall j :: 0 <= j < |t.fired| && t.fired[j].timer == f.timer ==> j == i)
  {
    hide Timer.Inv, SetFromClock, NoLostWakeUp, Moved;
    FromStart(clock, run);
    var t := Run(Initial(clock), run);
    assert FiredAsMade(run, t.fired[i]);
    assert AsMade(t, run, t.fired[i].timer);
  }

  /**
   And it does fire: a timer that was not moved, has not fired and was not cancelled is handed out
   by the next listExpiredCb exactly if that reads the clock at the time asked for or later.
   */
  lemma FiresWhenAsked(clock: nat, run: seq<Action>, a: nat, reading: nat, probe: nat)
    requires Legal(Initial(clock), run) && Making(run, a) < |run| && !Moved(run, a)
    requires var t := Run(Initial(clock), run); a in t.m.order && !HasFired(t, a) && Enabled(t, List(reading, probe))
    ensures var t := Run(Initial(clock), run);
      TimerRuns.Inv(t) && (HasFired(Apply(t, List(reading, probe)), a) <==> reading >= AskedFor(run, a))
  {
    hide Sorted, SetFromClock, NoLostWakeUp, FiringsOk, Moved, Apply, Legal, Run, Due, Enabled;
    FromStart(clock, run);
    var s := Run(Initial(clock), run);
    assert AsMade(s, run, a);
    ListMeans(s, reading, probe);
    var t, due, n := Apply(s, List(reading, probe)), Due(s, reading, probe), |s.fired|;
    if a in due {
      var i :| 0 <= i < |due| && due[i] == a;
      assert t.fired[n + i].timer == a;
    }
    assert forall j :: 0 <= j < n ==> t.fired[j] == s.fired[j];
    if HasFired(t, a) {
      var i :| 0 <= i < |t.fired| && t.fired[i].timer == a;
      assert i >= n ==> t.fired[i].timer == due[i - n];
    }
  }

  /** Still waiting: a timer is in the set until it is cancelled or, being one-shot, fires. */
  lemma StillThere(s: State, act: Action, a: nat)
    requires TimerRuns.Inv(s) && Enabled(s, act) && a in s.m.order && a in s.m.timers
    ensures var t := Apply(s, act);
      a in t.m.order <==>
        act != CancelTimer(a) && !(act.List? && s.m.timers[a].next <= act.reading && !s.m.timers[a].recurring)
  {
    hide Sorted, Apply, Enabled, SetFromClock, NoLostWakeUp, FiringsOk, Known, Due;
    if act.List? {
      ListMeans(s, act.reading, act.probe);
      var t := Apply(s, act);
      assert a in t.m.timers && (t.m.timers[a].cb.Some? <==> a in t.m.order);
    } else {
      SameOrder(s, act, a);
    }
  }

  lemma SameOrder(s: State, act: Action, a: nat)
    requires TimerRuns.Inv(s) && Enabled(s, act) && a in s.m.order && a in s.m.timers && !act.List?
    ensures a in Apply(s, act).m.order <==> act != CancelTimer(a)
  {
    hide Sorted, Timer.Cancel, Timer.Refresh, Timer.Reset, Timer.AddTimer, SetFromClock, NoLostWakeUp, FiringsOk;
    match act
    case Tick(_) =>
    case Next =>
    case Add(b, ms, cb, recurring, reading) => AddTimerKeeps(s.m, b, ms, cb, recurring, reading);
    case CancelTimer(b) => CancelKeeps(s.m, b);
    case RefreshTimer(b) => RefreshKeeps(s.m, b, s.clock);
    case ResetTimer(b, ms, fromNow) => ResetKeeps(s.m, b, ms, fromNow, s.clock);
  }
}
