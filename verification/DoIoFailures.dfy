/** Runs in which the timeout of a hooked I/O call (Helens/hook.cc, `do_io`) is lost, hides data, or hits another wait. */
module DoIoFailures {
  import opened EventTable
  import opened EventSafety
  import opened DoIo
  import opened DoIoTimeouts

  // ----- pieces of runs -----

  lemma TwoSteps(s: State, a: Action, b: Action)
    requires Enabled(s, a) && Enabled(Apply(s, a), b)
    ensures Legal(s, [a, b]) && Run(s, [a, b]) == Apply(Apply(s, a), b)
  {
    hide Enabled, Apply, Legal, Run;
    OneStep(Apply(s, a), b);
    FirstStep(s, a, [b]);
    assert [a, b] == [a] + [b];
  }

  /** A call with a timeout that is about to try, with a clear flag, no callback under way, and a free slot to wait in. */
  ghost predicate Fit(s: State, c: nat) {
    && c < |s.calls| && s.calls[c].phase.Trying? && s.calls[c].hasTimeout && s.calls[c].flag.Clear?
    && (forall b: Callback :: b.call == c ==> !UnderWay(s, b))
    && FreeFor(s.table, s.calls[c].fd, s.calls[c].event)
  }

  predicate FreeFor(t: Table, fd: nat, e: Event) {
    Finds(t, fd) && LiveIn(t.contexts, t.slots[fd], e).None? && !Elsewhere(t, t.slots[fd])
  }

  /** A first call is such a one. */
  lemma FirstCall(fiber: nat, fd: nat, e: Event)
    requires fd < 32
    ensures Enabled(Start, Enter(fiber, fd, e, true))
    ensures var s := Apply(Start, Enter(fiber, fd, e, true)); CallsInv(s) && |s.calls| == 1 && Fit(s, 0)
  {
    hide CallsInv;
    StartInv();
    FreshIsEmpty(32);
    StepKeeps(Start, Enter(fiber, fd, e, true));
  }

  /** The call as it is when it has gone to wait. */
  function Waits(s: State, call: Call): Call
    requires Finds(s.table, call.fd)
  {
    call.(phase := Waiting(s.table.slots[call.fd], s.table.next), attempts := call.attempts + 1)
  }

  /** Looking up and registering: the call parks, and nobody else is touched. */
  lemma Parks(s: State, c: nat)
    requires CallsInv(s) && c < |s.calls| && s.calls[c].phase.Arming? && FreeFor(s.table, s.calls[c].fd, s.calls[c].event)
    ensures var acts := [Place(c), Register(c, true, false)];
      && Legal(s, acts)
      && var t := Run(s, acts);
      && CallsInv(t) && t == s.(table := t.table, calls := s.calls[c := s.calls[c].(phase := Waiting(s.table.slots[s.calls[c].fd], s.table.next))])
      && t.table.slots == s.table.slots && |t.table.contexts| == |s.table.contexts|
      && Reachable(t, t.calls[c])
  {
    hide CallsInv, AddAt, LiveIn, Legal, Run;
    var call, p := s.calls[c], s.table.slots[s.calls[c].fd];
    TableOk(s);
    FindsBelow(s.table, call.fd);
    KeepPlace(s, c);
    var s1 := Apply(s, Place(c));
    AddAtKeeps(s.table, p, call.event, 0, FiberWaiter(call.fiber), true);
    KeepRegister(s1, c, true, false);
    TwoSteps(s, Place(c), Register(c, true, false));
    var t := Run(s, [Place(c), Register(c, true, false)]);
    TableOk(t);
    FindsBelow(t.table, call.fd);
    assert t.calls == s.calls[c := call.(phase := Waiting(p, s.table.next))];
  }

  /** A callback looks and raises the flag. */
  lemma Raises(s: State, b: Callback)
    requires CallsInv(s) && b in s.timers && !UnderWay(s, b) && b.call < |s.calls|
    requires !s.calls[b.call].phase.Done? && s.calls[b.call].flag.Clear?
    ensures var acts := [Look(b), Raise(b)];
      && Legal(s, acts)
      && var t, call := Run(s, acts), s.calls[b.call];
      && CallsInv(t) && t.table == s.table && t.timers == s.timers - {b} && t.looked == s.looked - {b}
      && t.raised == s.raised + {b} && t.found == s.found
      && t.calls == s.calls[b.call := call.(flag := Raised(b.attempt, call.attempts))]
  {
    hide CallsInv, Legal, Run;
    KeepLook(s, b);
    KeepRaise(Apply(s, Look(b)), b);
    TwoSteps(s, Look(b), Raise(b));
  }

  /** Setting the timer. */
  lemma Arms(s: State, c: nat)
    requires CallsInv(s) && Fit(s, c)
    ensures Legal(s, [SetTimer(c)])
    ensures var t, call, b := Run(s, [SetTimer(c)]), s.calls[c], Callback(c, s.calls[c].attempts);
      && CallsInv(t) && t == s.(calls := s.calls[c := call.(phase := Arming, attempts := call.attempts + 1)], timers := s.timers + {b})
      && !UnderWay(t, b)
  {
    hide CallsInv, Legal, Run, FreeFor;
    KeepTry(s, c, Arming);
    OneStep(s, SetTimer(c));
  }

  // ----- a flag raised too early -----

  /** The callback is through before the call parks: it found nothing to cancel, and no timer can end the wait. */
  lemma EarlyTimerIsLost(s: State, c: nat, ctl: bool)
    requires CallsInv(s) && Fit(s, c)
    ensures var b := Callback(c, s.calls[c].attempts);
      var acts := [SetTimer(c)] + ([Look(b), Raise(b)] + ([Find(b), Cancel(b, ctl)] + [Place(c), Register(c, true, false)]));
      && Legal(s, acts)
      && var t := Run(s, acts);
      && CallsInv(t) && c < |t.calls| && t.calls[c].phase.Waiting? && Spent(t, c) && !CanTimeOut(t, c)
  {
    hide CallsInv, Legal, Run, FreeFor, CanTimeOut;
    var b := Callback(c, s.calls[c].attempts);
    Arms(s, c);
    var s1 := Run(s, [SetTimer(c)]);
    Raises(s1, b);
    var s2 := Run(s1, [Look(b), Raise(b)]);
    CancelsNothing(s2, b, ctl);
    var s3 := Run(s2, [Find(b), Cancel(b, ctl)]);
    Parks(s3, c);
    var t := Run(s3, [Place(c), Register(c, true, false)]);
    Joined(s2, [Find(b), Cancel(b, ctl)], [Place(c), Register(c, true, false)]);
    Joined(s1, [Look(b), Raise(b)], [Find(b), Cancel(b, ctl)] + [Place(c), Register(c, true, false)]);
    Joined(s, [SetTimer(c)], [Look(b), Raise(b)] + ([Find(b), Cancel(b, ctl)] + [Place(c), Register(c, true, false)]));
    SpentCannot(t, c);
  }

  /** Nothing is armed where the callback cancels. */
  lemma CancelsNothing(s: State, b: Callback, ctl: bool)
    requires CallsInv(s) && b in s.raised && b !in s.found && b.call < |s.calls| && FreeFor(s.table, s.calls[b.call].fd, s.calls[b.call].event)
    ensures Legal(s, [Find(b), Cancel(b, ctl)])
    ensures var t := Run(s, [Find(b), Cancel(b, ctl)]);
      CallsInv(t) && t == s.(raised := s.raised - {b}, found := s.found)
  {
    hide CallsInv, Legal, Run, CancelAt;
    var s1 := Apply(s, Find(b));
    KeepFind(s, b);
    TableOk(s);
    CancelAtKeeps(s.table, s1.found[b], s.calls[b.call].event, ctl);
    KeepCancel(s1, b, ctl);
    TwoSteps(s, Find(b), Cancel(b, ctl));
    var t := Apply(s1, Cancel(b, ctl));
    assert t.calls == s.calls;
    assert t.found == s.found;
  }

  /** The callback raises the flag, and then the call parks. */
  lemma ParksFlagged(s: State, c: nat)
    requires CallsInv(s) && Fit(s, c)
    ensures var b := Callback(c, s.calls[c].attempts);
      var acts := [SetTimer(c)] + ([Look(b), Raise(b)] + [Place(c), Register(c, true, false)]);
      && Legal(s, acts)
      && var t := Run(s, acts);
      && CallsInv(t) && c < |t.calls| && Reachable(t, t.calls[c]) && t.calls[c].flag.Raised? && b in t.raised && b !in t.found
  {
    hide CallsInv, Legal, Run, FreeFor, Reachable, Enabled, Apply;
    var b := Callback(c, s.calls[c].attempts);
    Arms(s, c);
    var s1 := Run(s, [SetTimer(c)]);
    Raises(s1, b);
    var s2 := Run(s1, [Look(b), Raise(b)]);
    Parks(s2, c);
    Joined(s1, [Look(b), Raise(b)], [Place(c), Register(c, true, false)]);
    Joined(s, [SetTimer(c)], [Look(b), Raise(b)] + [Place(c), Register(c, true, false)]);
  }

  /**
   When the callback then goes on, it ends the wait: although the flag was raised before the call
   parked, its own timer wakes it, and it reports the timeout.
   */
  lemma FlagThenPark(s: State, c: nat, stopped: bool)
    requires CallsInv(s) && Fit(s, c)
    ensures var b := Callback(c, s.calls[c].attempts);
      var acts := [SetTimer(c)] + ([Look(b), Raise(b)] + [Place(c), Register(c, true, false)]);
      && Legal(s, acts)
      && var t := Run(s, acts);
      && c < |t.calls| && t.calls[c].phase.Waiting? && t.calls[c].flag.Raised? && EndsWait(t, b)
      && ComesBack(Run(t, Rest(t, b)), c, stopped, Done(TimedOut))
  {
    hide CallsInv, Legal, Run, EndsWait, FreeFor;
    ParksFlagged(s, c);
    var b := Callback(c, s.calls[c].attempts);
    var t := Run(s, [SetTimer(c)] + ([Look(b), Raise(b)] + [Place(c), Register(c, true, false)]));
    EndsExactly(t, b);
    TimeoutWakes(t, b, stopped);
  }

  // ----- a parked call -----

  /** Parked with a clear flag, its context looked up, its own timer not begun, nothing else of it under way. */
  ghost predicate Sound(s: State, c: nat) {
    && c < |s.calls| && s.calls[c].phase.Waiting? && s.calls[c].hasTimeout && s.calls[c].flag.Clear?
    && Reachable(s, s.calls[c]) && Own(c, s.calls[c]) in s.timers
    && (forall b: Callback :: b.call == c ==> !UnderWay(s, b))
  }

  /** A call that is fit and goes to wait is sound. */
  lemma GoesToWait(s: State, c: nat)
    requires CallsInv(s) && Fit(s, c)
    ensures var acts := [SetTimer(c)] + [Place(c), Register(c, true, false)];
      && Legal(s, acts)
      && var t := Run(s, acts);
      && CallsInv(t) && Sound(t, c) && t.calls == s.calls[c := Waits(s, s.calls[c])]
      && t.timers == s.timers + {Callback(c, s.calls[c].attempts)} && t.looked == s.looked && t.raised == s.raised && t.found == s.found
  {
    hide CallsInv, Legal, Run, FreeFor;
    Arms(s, c);
    var s1 := Run(s, [SetTimer(c)]);
    FreeFinds(s.table, s.calls[c].fd, s.calls[c].event);
    Parks(s1, c);
    Joined(s, [SetTimer(c)], [Place(c), Register(c, true, false)]);
  }

  lemma FreeFinds(t: Table, fd: nat, e: Event)
    requires FreeFor(t, fd, e)
    ensures Finds(t, fd)
  {}

  /** epoll_ctl fails in the callback: the call stays parked, and no timer can end the wait. */
  lemma FailedCancelParks(s: State, c: nat)
    requires CallsInv(s) && Sound(s, c)
    ensures var b := Own(c, s.calls[c]);
      var acts := [Look(b), Raise(b)] + [Find(b), Cancel(b, false)];
      && Legal(s, acts)
      && var t := Run(s, acts);
      && CallsInv(t) && c < |t.calls| && t.calls[c].phase == s.calls[c].phase && !CanTimeOut(t, c)
  {
    hide CallsInv, Legal, Run, CanTimeOut, CancelAt, LiveIn;
    var b := Own(c, s.calls[c]);
    Raises(s, b);
    var s1 := Run(s, [Look(b), Raise(b)]);
    var s2 := Apply(s1, Find(b));
    KeepFind(s1, b);
    ParkedReg(s, c);
    TableOk(s);
    FindsBelow(s.table, s.calls[c].fd);
    CancelExactly(s2, b, false, c);
    KeepCancel(s2, b, false);
    TwoSteps(s1, Find(b), Cancel(b, false));
    Joined(s, [Look(b), Raise(b)], [Find(b), Cancel(b, false)]);
    SpentCannot(Apply(s2, Cancel(b, false)), c);
  }

  /** A resize takes the lookup away: the timeout is lost, while a report still wakes the call. */
  lemma ShrinkLosesTimeout(s: State, c: nat, n: nat)
    requires CallsInv(s) && Sound(s, c) && 2 <= n <= s.calls[c].fd
    ensures Enabled(s, SetSize(n))
    ensures var t := Apply(s, SetSize(n));
      && CallsInv(t) && c < |t.calls| && t.calls[c] == s.calls[c] && !CanTimeOut(t, c)
      && Enabled(t, Ready(t.calls[c])) && c < |Apply(t, Ready(t.calls[c])).calls| && Apply(t, Ready(t.calls[c])).calls[c].phase.Woken?
  {
    hide CallsInv, CanTimeOut, Resize, EventSafety.Inv, LiveIn;
    var t := Apply(s, SetSize(n));
    KeepSetSize(s, n);
    ParkedReg(s, c);
    TableOk(s);
    ResizeKeeps(s.table, n);
    assert t.calls[c] == s.calls[c];
    TimeoutExactly(t, c);
    ReadyWakes(t, c);
  }

  /** A report ends the wait, the callback raises the flag before the fiber runs: the call reports a timeout all the same. */
  lemma LateCallbackHidesData(s: State, c: nat, stopped: bool)
    requires CallsInv(s) && Sound(s, c)
    ensures Enabled(s, Ready(s.calls[c]))
    ensures var b := Own(c, s.calls[c]);
      && var s1 := Apply(s, Ready(s.calls[c]));
      && Legal(s1, [Look(b), Raise(b)])
      && ComesBack(Run(s1, [Look(b), Raise(b)]), c, stopped, Done(TimedOut))
  {
    hide CallsInv, Legal, Run, LiveIn, DoIo.IO.Do, DoIo.IO.WellUsed;
    ReadyWakes(s, c);
    Raises(Apply(s, Ready(s.calls[c])), Own(c, s.calls[c]));
  }

  // ----- a callback left over -----

  /** A report ends the wait while the callback has been handed out but has not begun: it is left over for the next attempt. */
  lemma CallbackLeftOver(s: State, c: nat)
    requires CallsInv(s) && Sound(s, c)
    ensures var a := Ready(s.calls[c]);
      && Enabled(s, a) && Enabled(Apply(s, a), Resume(c, false))
      && var t := Apply(Apply(s, a), Resume(c, false));
      && CallsInv(t) && c < |t.calls| && t.calls[c].phase.Trying? && t.calls[c].flag.Clear? && t.calls[c].attempts == s.calls[c].attempts
      && Own(c, s.calls[c]) in t.timers
  {
    hide CallsInv, LiveIn, DoIo.IO.Do, DoIo.IO.WellUsed;
    ReadyWakes(s, c);
    KeepResume(Apply(s, Ready(s.calls[c])), c, false);
  }

  /** A callback left over from an earlier attempt ends the next wait, which reports a timeout while its own timer has not begun. */
  lemma LeftoverTimerEndsNextWait(s: State, c: nat, b: Callback, stopped: bool)
    requires CallsInv(s) && Sound(s, c) && b in s.timers && b.call == c && b != Own(c, s.calls[c])
    ensures EndsWait(s, b)
    ensures ComesBack(Run(s, Rest(s, b)), c, stopped, Done(TimedOut))
  {
    hide CallsInv, Legal, Run, EndsWait;
    EndsExactly(s, b);
    TimeoutWakes(s, b, stopped);
  }

  // ----- another call's timer -----

  /** The callback of a parked call raises the flag and finds the context. */
  lemma Strikes(s: State, a: nat)
    requires CallsInv(s) && Sound(s, a)
    ensures var b, call := Own(a, s.calls[a]), s.calls[a];
      && Legal(s, [Look(b), Raise(b)] + [Find(b)])
      && var t := Run(s, [Look(b), Raise(b)] + [Find(b)]);
      && CallsInv(t) && t.table == s.table && t.looked == s.looked - {b} && t.raised == s.raised + {b} - {b}
      && t.found == s.found[b := call.phase.ctx]
      && t.calls == s.calls[a := call.(flag := Raised(b.attempt, call.attempts))]
  {
    hide CallsInv, Legal, Run;
    var b := Own(a, s.calls[a]);
    Raises(s, b);
    var s1 := Run(s, [Look(b), Raise(b)]);
    FindsAttached(s1, b, a);
    OneStep(s1, Find(b));
    Joined(s, [Look(b), Raise(b)], [Find(b)]);
  }

  /** A report ends the wait, and the call returns; the slot is free then. */
  lemma Returns(s: State, a: nat, stopped: bool)
    requires CallsInv(s) && a < |s.calls| && Reachable(s, s.calls[a]) && s.calls[a].flag.Raised?
    ensures var acts := [Ready(s.calls[a]), Resume(a, stopped)];
      && Legal(s, acts)
      && var t := Run(s, acts);
      && CallsInv(t) && |t.calls| == |s.calls| && t.calls[a].phase.Done?
      && t.looked == s.looked && t.raised == s.raised && t.found == s.found
      && (forall d :: 0 <= d < |s.calls| && d != a && !s.calls[d].phase.Waiting? ==> t.calls[d] == s.calls[d])
      && FreeFor(t.table, s.calls[a].fd, s.calls[a].event)
      && Finds(t.table, s.calls[a].fd) && t.table.slots[s.calls[a].fd] == s.calls[a].phase.ctx
  {
    hide CallsInv, Legal, Run, LiveIn, FreeFor, DoIo.IO.Do, DoIo.IO.WellUsed;
    ReadyWakes(s, a);
    SlotFree(s, a);
    var s1 := Apply(s, Ready(s.calls[a]));
    KeepResume(s1, a, stopped);
    TwoSteps(s, Ready(s.calls[a]), Resume(a, stopped));
  }

  /**
   Call `a` is parked; its callback raises the flag and finds the context; a report ends the wait, and
   the call returns. Call `c` then parks in the same context, for the same event, with nothing of its
   own left over.
   */
  lemma ForeignTimerFinds(s: State, a: nat, c: nat, stopped: bool)
    requires CallsInv(s) && Sound(s, a) && a != c && SameSlot(s, c, a) && WouldFit(s, c)
    ensures var b := Own(a, s.calls[a]);
      var first, second, third := [Look(b), Raise(b)] + [Find(b)], [Ready(s.calls[a]), Resume(a, stopped)], [SetTimer(c)] + [Place(c), Register(c, true, false)];
      && Legal(s, first + (second + third))
      && var t := Run(s, first + (second + third));
      && CallsInv(t) && a < |t.calls| && t.calls[a].phase.Done? && t.calls[a].event == s.calls[a].event
      && Sound(t, c) && t.calls[c].event == s.calls[a].event
      && b in t.found && t.found[b] == t.calls[c].phase.ctx
  {
    hide CallsInv, Legal, Run, FreeFor, Enabled, Apply;
    var b := Own(a, s.calls[a]);
    Strikes(s, a);
    var s1 := Run(s, [Look(b), Raise(b)] + [Find(b)]);
    var second, third := [Ready(s.calls[a]), Resume(a, stopped)], [SetTimer(c)] + [Place(c), Register(c, true, false)];
    assert Ready(s1.calls[a]) == Ready(s.calls[a]);
    Returns(s1, a, stopped);
    var s2 := Run(s1, second);
    assert forall d: Callback :: d.call == c ==> !UnderWay(s2, d);
    GoesToWait(s2, c);
    Joined(s1, second, third);
    Joined(s, [Look(b), Raise(b)] + [Find(b)], second + third);
    SameEvent(s1, a, stopped);
  }

  lemma SameEvent(s: State, a: nat, stopped: bool)
    requires CallsInv(s) && a < |s.calls| && s.calls[a].phase.Waiting?
    requires Legal(s, [Ready(s.calls[a]), Resume(a, stopped)])
    ensures var t := Run(s, [Ready(s.calls[a]), Resume(a, stopped)]); a < |t.calls| && t.calls[a].event == s.calls[a].event
  {
    hide CallsInv, Enabled, Apply, Legal, Run;
    var r := Ready(s.calls[a]);
    assert [r, Resume(a, stopped)] == [r] + [Resume(a, stopped)];
    NotLegal(s, r, [Resume(a, stopped)]);
    StepKeeps(s, r);
    StepCalls(s, r, a);
    OneStep(Apply(s, r), Resume(a, stopped));
    StepCalls(Apply(s, r), Resume(a, stopped), a);
  }

  /** The callback's last step then ends that wait. The call does not report a timeout but tries again. */
  lemma ForeignTimerEndsWait(s: State, a: nat, c: nat, stopped: bool)
    requires CallsInv(s) && Sound(s, a) && a != c && SameSlot(s, c, a) && WouldFit(s, c)
    ensures var b := Own(a, s.calls[a]);
      var acts := [Look(b), Raise(b)] + [Find(b)] + ([Ready(s.calls[a]), Resume(a, stopped)] + ([SetTimer(c)] + [Place(c), Register(c, true, false)]));
      && Legal(s, acts)
      && var t := Run(s, acts);
      && Sound(t, c) && Enabled(t, Cancel(b, true))
      && ComesBack(Apply(t, Cancel(b, true)), c, stopped, Trying)
  {
    hide Parked, Legal, Run, CancelAt;
    ForeignTimerFinds(s, a, c, stopped);
    var b := Own(a, s.calls[a]);
    var t := Run(s, [Look(b), Raise(b)] + [Find(b)] + ([Ready(s.calls[a]), Resume(a, stopped)] + ([SetTimer(c)] + [Place(c), Register(c, true, false)])));
    assert CallbackOk(t, b);
    ForeignWakeRetries(t, b, c, stopped);
  }

  /** Fit but for the slot, which is taken. */
  ghost predicate WouldFit(s: State, c: nat) {
    && c < |s.calls| && s.calls[c].phase.Trying? && s.calls[c].hasTimeout && s.calls[c].flag.Clear?
    && (forall b: Callback :: b.call == c ==> !UnderWay(s, b))
  }

  lemma FindsAttached(s: State, b: Callback, c: nat)
    requires CallsInv(s) && b in s.raised && b !in s.found && b.call == c && c < |s.calls| && Reachable(s, s.calls[c])
    ensures Enabled(s, Find(b)) && CallsInv(Apply(s, Find(b)))
    ensures Apply(s, Find(b)) == s.(raised := s.raised - {b}, found := s.found[b := s.calls[c].phase.ctx])
  {
    hide CallsInv, EventSafety.Inv, LiveIn;
    KeepFind(s, b);
    ParkedReg(s, c);
    TableOk(s);
    FindsBelow(s.table, s.calls[c].fd);
  }

  /** After the report the slot is free for the next call. */
  lemma SlotFree(s: State, a: nat)
    requires CallsInv(s) && a < |s.calls| && Reachable(s, s.calls[a])
    ensures Enabled(s, Ready(s.calls[a])) && FreeFor(Apply(s, Ready(s.calls[a])).table, s.calls[a].fd, s.calls[a].event)
    ensures var t := Apply(s, Ready(s.calls[a])).table; Finds(t, s.calls[a].fd) && t.slots[s.calls[a].fd] == s.calls[a].phase.ctx
  {
    hide CallsInv, EventSafety.Inv, LiveIn, Dispatch, Firings;
    ReadyWakes(s, a);
    var call, t := s.calls[a], Apply(s, Ready(s.calls[a]));
    ParkedReg(s, a);
    TableOk(s);
    TableOk(t);
    DispatchKeeps(s.table, call.phase.ctx, {call.event}, false, true);
    FindsBelow(t.table, call.fd);
    NotElsewhere(s.table, call.phase.ctx, call.event);
  }

  /** The kernel watches the descriptor for this context or for none. */
  lemma NotElsewhere(t: Table, p: nat, e: Event)
    requires EventSafety.Inv(t) && p < |t.contexts| && LiveIn(t.contexts, p, e).Some?
    ensures var u := Dispatch(t, p, {e}, false, true).0; p < |u.contexts| && !Elsewhere(u, p)
  {
    hide Core, TriggerBoth;
    OpAccepted(t, p);
    var left := t.contexts[p].events - {e};
    assert e in t.contexts[p].events * RealEvents(t.contexts[p], {e}, false);
    assert RealEvents(t.contexts[p], {e}, false) == {e};
    var w := Unwatch(t, p, left);
    CoreIgnoresKernel(t, w);
    TriggerBothKeeps(w, p, {e}, Readiness);
  }

  /** Two first calls for one descriptor and event, one of which goes to wait, are in that position. */
  lemma TwoCalls(fiber: nat, other: nat, fd: nat, e: Event)
    requires fd < 32 && fiber != other
    ensures var acts := [Enter(fiber, fd, e, true), Enter(other, fd, e, true)] + ([SetTimer(0)] + [Place(0), Register(0, true, false)]);
      && Legal(Start, acts)
      && var s := Run(Start, acts);
      && CallsInv(s) && Sound(s, 0) && SameSlot(s, 1, 0) && WouldFit(s, 1)
  {
    hide CallsInv, Legal, Run;
    StartInv();
    FreshIsEmpty(32);
    var a, b := Enter(fiber, fd, e, true), Enter(other, fd, e, true);
    StepKeeps(Start, a);
    StepKeeps(Apply(Start, a), b);
    TwoSteps(Start, a, b);
    GoesToWait(Run(Start, [a, b]), 0);
    Joined(Start, [a, b], [SetTimer(0)] + [Place(0), Register(0, true, false)]);
  }
}
