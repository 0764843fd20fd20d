/**
 Runs of the timer manager against a clock that does not go back: no wake-up is lost, nothing fires
 early or after a cancel, one-shots fire once.
 */
module TimerRuns {
  import opened Arith
  import opened Options
  import opened TimerSet
  import opened Timer

  /** A callback handed out: whose it is, its timer's deadline at that moment, and the time that was judged by. */
  datatype Firing = Firing(timer: nat, deadline: nat, now: nat, cb: Option<nat>)

  /**
   `clock` is the true time; `deadline` the first deadline seen by the last getNextTimer (None: there
   was no timer); `notified` whether onTimerInsertedAtFront has been called since then.
   */
  datatype State = State(m: Manager, clock: nat, deadline: Option<nat>, notified: bool, fired: seq<Firing>)

  datatype Action =
    | Tick(to: nat)
    | Add(a: nat, ms: nat, cb: nat, recurring: bool, reading: nat)
    | CancelTimer(a: nat)
    | RefreshTimer(a: nat)
    | ResetTimer(a: nat, ms: nat, fromNow: bool)
    | Next
    | List(reading: nat, probe: nat)

  /**
   Readings of the clock taken before the lock may be stale, never ahead; deadlines fit 64 bits; and
   listExpiredCb does not take the reading for a clock that was set back.
   */
  predicate Enabled(s: State, a: Action) {
    match a
    case Tick(to) => s.clock <= to
    case Add(t, ms, _, _, reading) => t !in s.m.timers && reading <= s.clock && s.clock + ms < U64_LIMIT
    case CancelTimer(t) => t in s.m.timers
    case RefreshTimer(t) => t in s.m.timers && s.clock + s.m.timers[t].ms < U64_LIMIT
    case ResetTimer(t, ms, _) => t in s.m.timers && s.clock + ms < U64_LIMIT
    case Next => true
    case List(reading, _) =>
      && reading <= s.clock && !Rollover(s.m.previous, reading)
      && forall t :: t in s.m.timers ==> s.clock + s.m.timers[t].ms < U64_LIMIT
  }

  function Fires(m: Manager, due: seq<nat>, now: nat, cbs: seq<Option<nat>>): (r: seq<Firing>)
    requires Known(m.timers, due) && |cbs| == |due|
    ensures |r| == |due| && forall i :: 0 <= i < |r| ==> r[i] == Firing(due[i], m.timers[due[i]].next, now, cbs[i])
  {
    seq(|due|, i requires 0 <= i < |due| => Firing(due[i], m.timers[due[i]].next, now, cbs[i]))
  }

  function Apply(s: State, a: Action): State
    requires Timer.Inv(s.m) && Enabled(s, a)
  {
    match a
    case Tick(to) => s.(clock := to)
    case Add(t, ms, cb, recurring, reading) =>
      var (m, front) := AddTimer(s.m, t, ms, cb, recurring, reading);
      s.(m := m, notified := s.notified || front)
    case CancelTimer(t) => s.(m := Cancel(s.m, t).0)
    case RefreshTimer(t) => s.(m := Refresh(s.m, t, s.clock).0)
    case ResetTimer(t, ms, fromNow) =>
      var (m, _, front) := Reset(s.m, t, ms, fromNow, s.clock);
      s.(m := m, notified := s.notified || front)
    case Next =>
      s.(m := GetNextTimer(s.m, s.clock).0,
         deadline := if s.m.order == [] then None else Some(s.m.timers[s.m.order[0]].next),
         notified := false)
    case List(reading, probe) =>
      ListExpiredKeeps(s.m, reading, probe);
      var (m, cbs) := ListExpired(s.m, reading, probe);
      s.(m := m, fired := s.fired + Fires(s.m, s.m.order[..DueCount(s.m, reading, probe)], reading, cbs))
  }

  // ----- the invariant -----

  /** Every stored deadline was set by a reading of the clock. */
  ghost predicate SetFromClock(s: State) {
    forall a :: a in s.m.order && a in s.m.timers ==>
      s.m.timers[a].ms <= s.m.timers[a].next <= s.clock + s.m.timers[a].ms
  }

  /** Unless an announcement is out, no stored timer is due before the deadline last seen. */
  ghost predicate NoLostWakeUp(s: State) {
    if s.m.tickled then s.notified
    else forall a :: a in s.m.order && a in s.m.timers ==> s.deadline.Some? && s.m.timers[a].next >= s.deadline.value
  }

  /** Nothing fired early; a one-shot that fired is out of the set; each one-shot fired once. */
  ghost predicate FiringsOk(s: State) {
    && (forall i :: 0 <= i < |s.fired| ==> s.fired[i].deadline <= s.fired[i].now <= s.clock && s.fired[i].timer in s.m.timers)
    && (forall i :: 0 <= i < |s.fired| ==>
          s.fired[i].timer in s.m.timers && (s.m.timers[s.fired[i].timer].recurring || s.m.timers[s.fired[i].timer].cb.None?))
    && (forall i, j :: 0 <= i < j < |s.fired| && s.fired[i].timer == s.fired[j].timer ==>
          s.fired[i].timer in s.m.timers && s.m.timers[s.fired[i].timer].recurring)
  }

  ghost predicate Inv(s: State) {
    Timer.Inv(s.m) && SetFromClock(s) && NoLostWakeUp(s) && FiringsOk(s)
  }

  function Initial(clock: nat): State { State(Manager(map[], [], false, clock), clock, None, false, []) }

  lemma InitialInv(clock: nat)
    ensures Inv(Initial(clock))
  {}

  lemma NoWrap(a: nat, b: nat)
    requires a + b < U64_LIMIT
    ensures Add64(a, b) == a + b
  {}

  lemma KeepAdd(s: State, a: nat, ms: nat, cb: nat, recurring: bool, reading: nat)
    requires Inv(s) && Enabled(s, Add(a, ms, cb, recurring, reading))
    ensures Inv(Apply(s, Add(a, ms, cb, recurring, reading)))
  {
    hide Known, Sorted, Insert, LowerBound, Add64;
    AddTimerKeeps(s.m, a, ms, cb, recurring, reading);
    NoWrap(reading, ms);
    var t := Apply(s, Add(a, ms, cb, recurring, reading));
    FrontIsLeast(t.m.timers, t.m.order);
  }

  lemma KeepCancel(s: State, a: nat)
    requires Inv(s) && Enabled(s, CancelTimer(a))
    ensures Inv(Apply(s, CancelTimer(a)))
  {
    hide Known, Sorted, Find, Erase;
    CancelKeeps(s.m, a);
  }

  /** refresh announces nothing, and need not: the deadline only moves back in the queue. */
  lemma KeepRefresh(s: State, a: nat)
    requires Inv(s) && Enabled(s, RefreshTimer(a))
    ensures Inv(Apply(s, RefreshTimer(a)))
  {
    hide Known, Sorted, Insert, Find, Erase, Add64;
    RefreshKeeps(s.m, a, s.clock);
    NoWrap(s.clock, s.m.timers[a].ms);
  }

  lemma KeepReset(s: State, a: nat, ms: nat, fromNow: bool)
    requires Inv(s) && Enabled(s, ResetTimer(a, ms, fromNow))
    ensures Inv(Apply(s, ResetTimer(a, ms, fromNow)))
  {
    hide Known, Sorted, Insert, Find, Erase, Add64, Sub64, Reset;
    ResetKeeps(s.m, a, ms, fromNow, s.clock);
    var t := Apply(s, ResetTimer(a, ms, fromNow));
    if a in s.m.order && t.m != s.m {
      StartIsPast(s, a, ms, fromNow);
      FrontIsLeast(t.m.timers, t.m.order);
    }
  }

  /** The instant a reset counts from is not in the future, so the new deadline is exact. */
  lemma StartIsPast(s: State, a: nat, ms: nat, fromNow: bool)
    requires Inv(s) && Enabled(s, ResetTimer(a, ms, fromNow)) && a in s.m.order
    ensures var start := if fromNow then s.clock else Sub64(s.m.timers[a].next, s.m.timers[a].ms);
      start <= s.clock && Add64(start, ms) == start + ms
  {
    hide Timer.Inv, NoLostWakeUp, FiringsOk;
  }

  lemma KeepNext(s: State)
    requires Inv(s)
    ensures Inv(Apply(s, Next))
  {
    if s.m.order != [] { FrontIsLeast(s.m.timers, s.m.order); }
  }

  // ----- handing out callbacks -----

  function Due(s: State, reading: nat, probe: nat): seq<nat>
    requires Known(s.m.timers, s.m.order)
  {
    s.m.order[..DueCount(s.m, reading, probe)]
  }

  /** What listExpiredCb does to each timer and to the log. */
  lemma ListMeans(s: State, reading: nat, probe: nat)
    requires Inv(s) && Enabled(s, List(reading, probe))
    ensures var t, due := Apply(s, List(reading, probe)), Due(s, reading, probe);
      && Timer.Inv(t.m) && t.m.timers.Keys == s.m.timers.Keys && t.m.tickled == s.m.tickled
      && Known(s.m.timers, due) && Distinct(due) && t.fired == s.fired + Fires(s.m, due, reading, Callbacks(s.m.timers, due))
      && t.clock == s.clock && t.deadline == s.deadline && t.notified == s.notified
      && (forall a :: a in due ==> a in s.m.order && a in s.m.timers && s.m.timers[a].next <= reading)
      && (forall a :: a in s.m.order && a in s.m.timers && s.m.timers[a].next <= reading ==> a in due)
      && (forall a :: a in t.m.order ==> a in s.m.order && (a in due ==> s.m.timers[a].recurring))
      && (forall a :: a in s.m.timers ==>
            (t.m.timers[a] == if a !in due then s.m.timers[a]
             else if s.m.timers[a].recurring then s.m.timers[a].(next := reading + s.m.timers[a].ms)
             else s.m.timers[a].(cb := None)))
  {
    hide Sorted, DueCount, ListExpired, SetFromClock, NoLostWakeUp, FiringsOk, Rollover, Add64;
    ListExpiredKeeps(s.m, reading, probe);
    SortedParts(s.m.timers, s.m.order, DueCount(s.m, reading, probe));
    forall a | a in s.m.timers ensures Add64(reading, s.m.timers[a].ms) == reading + s.m.timers[a].ms {
      NoWrap(reading, s.m.timers[a].ms);
    }
  }

  lemma KeepList(s: State, reading: nat, probe: nat)
    requires Inv(s) && Enabled(s, List(reading, probe))
    ensures Inv(Apply(s, List(reading, probe)))
  {
    hide Timer.Inv, Distinct, Apply, FiringsOk;
    ListMeans(s, reading, probe);
    ListFirings(s, reading, probe);
  }

  lemma ListFirings(s: State, reading: nat, probe: nat)
    requires Inv(s) && Enabled(s, List(reading, probe))
    ensures FiringsOk(Apply(s, List(reading, probe)))
  {
    hide Sorted, Apply, SetFromClock, NoLostWakeUp, Due, Fires, Rollover;
    ListMeans(s, reading, probe);
    var t, due, n := Apply(s, List(reading, probe)), Due(s, reading, probe), |s.fired|;
    forall i | n <= i < |t.fired|
      ensures t.fired[i].timer == due[i - n] && t.fired[i].deadline == s.m.timers[due[i - n]].next && t.fired[i].now == reading
    {
      assert t.fired[i] == Fires(s.m, due, reading, Callbacks(s.m.timers, due))[i - n];
    }
    forall i, j | 0 <= i < j < |t.fired| && t.fired[i].timer == t.fired[j].timer
      ensures t.fired[i].timer in t.m.timers && t.m.timers[t.fired[i].timer].recurring
    {
      if j < n {
        assert t.fired[i] == s.fired[i] && t.fired[j] == s.fired[j];
      } else if i < n {
        assert due[j - n] in due;
      }
    }
    forall i | 0 <= i < |t.fired|
      ensures t.fired[i].timer in t.m.timers && t.fired[i].deadline <= t.fired[i].now <= t.clock
      ensures t.m.timers[t.fired[i].timer].recurring || t.m.timers[t.fired[i].timer].cb.None?
    {
      if i >= n { assert due[i - n] in due; } else { assert t.fired[i] == s.fired[i]; }
    }
  }

  /** After a call, nothing with a positive period is still due. */
  lemma ListClears(s: State, reading: nat, probe: nat)
    requires Inv(s) && Enabled(s, List(reading, probe))
    ensures var t := Apply(s, List(reading, probe));
      forall a :: a in t.m.order && a in t.m.timers && t.m.timers[a].ms > 0 ==> t.m.timers[a].next > reading
  {
    hide Apply, Timer.Inv, Distinct, FiringsOk;
    ListMeans(s, reading, probe);
  }

  // ----- runs -----

  lemma StepKeeps(s: State, a: Action)
    requires Inv(s) && Enabled(s, a)
    ensures Inv(Apply(s, a))
  {
    hide Inv, Apply, Enabled;
    match a
    case Tick(to) => KeepTick(s, to);
    case Add(t, ms, cb, recurring, reading) => KeepAdd(s, t, ms, cb, recurring, reading);
    case CancelTimer(t) => KeepCancel(s, t);
    case RefreshTimer(t) => KeepRefresh(s, t);
    case ResetTimer(t, ms, fromNow) => KeepReset(s, t, ms, fromNow);
    case Next => KeepNext(s);
    case List(reading, probe) => KeepList(s, reading, probe);
  }

  lemma KeepTick(s: State, to: nat)
    requires Inv(s) && Enabled(s, Tick(to))
    ensures Inv(Apply(s, Tick(to)))
  {
    hide Timer.Inv;
  }

  ghost predicate Legal(s: State, run: seq<Action>)
    decreases |run|
  {
    run == [] || (Timer.Inv(s.m) && Enabled(s, run[0]) && Legal(Apply(s, run[0]), run[1..]))
  }

  ghost function Run(s: State, run: seq<Action>): State
    requires Legal(s, run)
    decreases |run|
  {
    if run == [] then s else Run(Apply(s, run[0]), run[1..])
  }

  lemma {:induction false} RunKeeps(s: State, run: seq<Action>)
    requires Inv(s) && Legal(s, run)
    ensures Inv(Run(s, run))
    decreases |run|
  {
    hide Inv, Apply, Enabled;
    if run != [] {
      StepKeeps(s, run[0]);
      RunKeeps(Apply(s, run[0]), run[1..]);
    }
  }

  /**
   Over every run: while m_tickled is false, nothing is due before the deadline the poller last saw, and
   while it is true, an announcement has been made since then; nothing fires before its deadline; a
   one-shot fires at most once.
   */
  lemma EveryRun(clock: nat, run: seq<Action>)
    requires Legal(Initial(clock), run)
    ensures var t := Run(Initial(clock), run);
      && (!t.m.tickled || !t.notified ==> forall a :: a in t.m.timers && t.m.timers[a].cb.Some? ==>
            t.deadline.Some? && t.m.timers[a].next >= t.deadline.value)
      && (t.m.tickled ==> t.notified)
      && (forall i :: 0 <= i < |t.fired| ==> t.fired[i].deadline <= t.fired[i].now <= t.clock)
      && (forall i, j :: 0 <= i < j < |t.fired| && t.fired[i].timer == t.fired[j].timer ==>
            t.fired[i].timer in t.m.timers && t.m.timers[t.fired[i].timer].recurring)
  {
    hide Known, Sorted;
    InitialInv(clock);
    RunKeeps(Initial(clock), run);
  }

  // ----- cancelled timers -----

  ghost predicate Retired(s: State, a: nat) { a in s.m.timers && s.m.timers[a].cb.None? }

  /** How often `a` occurs in the log. */
  function CountOf(fired: seq<Firing>, a: nat): nat {
    if fired == [] then 0 else (if fired[|fired| - 1].timer == a then 1 else 0) + CountOf(fired[..|fired| - 1], a)
  }

  lemma {:induction false} CountElsewhere(fired: seq<Firing>, more: seq<Firing>, a: nat)
    requires forall i :: 0 <= i < |more| ==> more[i].timer != a
    ensures CountOf(fired + more, a) == CountOf(fired, a)
    decreases |more|
  {
    if more == [] {
      assert fired + more == fired;
    } else {
      var n := |more| - 1;
      assert (fired + more)[..|fired + more| - 1] == fired + more[..n];
      CountElsewhere(fired, more[..n], a);
    }
  }

  lemma StepRetired(s: State, act: Action, a: nat)
    requires Inv(s) && Enabled(s, act) && Retired(s, a)
    ensures Retired(Apply(s, act), a) && CountOf(Apply(s, act).fired, a) == CountOf(s.fired, a)
  {
    hide Sorted, Insert, Find, Erase, LowerBound, CountOf;
    if act.List? {
      RetiredList(s, act.reading, act.probe, a);
    }
  }

  lemma RetiredList(s: State, reading: nat, probe: nat, a: nat)
    requires Inv(s) && Enabled(s, List(reading, probe)) && Retired(s, a)
    ensures var t := Apply(s, List(reading, probe));
      Retired(t, a) && CountOf(t.fired, a) == CountOf(s.fired, a)
  {
    hide Sorted, Apply, FiringsOk, NoLostWakeUp, SetFromClock, Due;
    ListMeans(s, reading, probe);
    var due := Due(s, reading, probe);
    forall i | 0 <= i < |due| ensures due[i] != a { assert due[i] in due; }
    CountElsewhere(s.fired, Fires(s.m, due, reading, Callbacks(s.m.timers, due)), a);
  }

  /** Whatever happens after a cancel, the timer stays cancelled and never fires again. */
  lemma {:induction false} RetiredForGood(s: State, run: seq<Action>, a: nat)
    requires Inv(s) && Legal(s, run) && Retired(s, a)
    ensures Retired(Run(s, run), a) && CountOf(Run(s, run).fired, a) == CountOf(s.fired, a)
    decreases |run|
  {
    hide Inv, Apply, Enabled, Retired, CountOf;
    if run != [] {
      StepKeeps(s, run[0]);
      StepRetired(s, run[0], a);
      RetiredForGood(Apply(s, run[0]), run[1..], a);
    }
  }

  /** cancel, at any moment of any run: no firing of that timer follows. */
  lemma CancelIsFinal(s: State, a: nat, run: seq<Action>)
    requires Inv(s) && Enabled(s, CancelTimer(a)) && Legal(Apply(s, CancelTimer(a)), run)
    ensures CountOf(Run(Apply(s, CancelTimer(a)), run).fired, a) == CountOf(s.fired, a)
  {
    hide Legal, Run;
    var t := Apply(s, CancelTimer(a));
    StepKeeps(s, CancelTimer(a));
    CancelKeeps(s.m, a);
    RetiredForGood(t, run, a);
  }
}
