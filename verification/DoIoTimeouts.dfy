/** When the timeout of a hooked I/O call (Helens/hook.cc, `do_io`) works, exactly, and the ways it fails. */
module DoIoTimeouts {
  import opened Options
  import opened EventTable
  import opened EventSafety
  import opened DoIo

  // ----- runs, step by step -----

  lemma NoStep(s: State)
    ensures Legal(s, []) && Run(s, []) == s
  {}

  lemma FirstStep(s: State, a: Action, rest: seq<Action>)
    requires Enabled(s, a) && Legal(Apply(s, a), rest)
    ensures Legal(s, [a] + rest) && Run(s, [a] + rest) == Run(Apply(s, a), rest)
  {
    assert ([a] + rest)[1..] == rest;
  }

  lemma OneStep(s: State, a: Action)
    requires Enabled(s, a)
    ensures Legal(s, [a]) && Run(s, [a]) == Apply(s, a)
  {
    hide Enabled, Apply;
    NoStep(Apply(s, a));
    FirstStep(s, a, []);
    assert [a] == [a] + [];
  }

  lemma {:induction false} Joined(s: State, a: seq<Action>, b: seq<Action>)
    requires Legal(s, a) && Legal(Run(s, a), b)
    ensures Legal(s, a + b) && Run(s, a + b) == Run(Run(s, a), b)
    decreases |a|
  {
    hide Enabled, Apply;
    if a == [] {
      assert a + b == b;
    } else {
      assert (a + b)[0] == a[0] && (a + b)[1..] == a[1..] + b;
      Joined(Apply(s, a[0]), a[1..], b);
    }
  }

  // ----- one cancel, one report -----

  /** The wait a callback that has found its context would end. */
  predicate Hits(s: State, b: Callback, call: Call) {
    && b in s.found && b.call < |s.calls|
    && call.phase.Waiting? && call.phase.ctx == s.found[b] && call.event == s.calls[b.call].event
  }

  /**
   The last step of a callback ends exactly the wait that is parked in the context it found, for its
   event, whoever's that is, and only if epoll_ctl succeeds. Flags are not touched.
   */
  lemma CancelExactly(s: State, b: Callback, ctl: bool, c: nat)
    requires CallsInv(s) && Enabled(s, Cancel(b, ctl)) && c < |s.calls|
    ensures var call, t := s.calls[c], Apply(s, Cancel(b, ctl));
      && |t.calls| == |s.calls|
      && t.calls[c] == if Hits(s, b, call) && ctl then call.(phase := Woken(call.phase.reg)) else call
  {
    hide EventSafety.Inv, CancelAt, LiveIn, FiredFor, Owned;
    var call, p, e := s.calls[c], s.found[b], s.calls[b.call].event;
    if call.phase.Waiting? {
      CancelAtKeeps(s.table, p, e, ctl);
      var t := CancelAt(s.table, p, e, ctl).0;
      ParkedReg(s, c);
      if Hits(s, b, call) && ctl {
        FiresFiber(s.table, t, p, e, call.fiber);
      } else {
        OnlyOwner(s, t, b, ctl, c);
      }
    }
  }

  lemma FiresFiber(t: Table, t': Table, p: nat, e: Event, f: nat)
    requires LiveIn(t.contexts, p, e).Some? && LiveIn(t.contexts, p, e).value.waiter == FiberWaiter(f)
    requires FiredOnly(t, t'.(interest := t.interest), p, e, Cancellation)
    ensures FiredFor(t'.log, |t.log|, f)
  {
    assert t'.log[|t.log|].Fired? && t'.log[|t.log|].reg.waiter == FiberWaiter(f);
  }

  lemma OnlyOwner(s: State, t: Table, b: Callback, ctl: bool, c: nat)
    requires CallsInv(s) && Enabled(s, Cancel(b, ctl)) && c < |s.calls| && s.calls[c].phase.Waiting?
    requires !(Hits(s, b, s.calls[c]) && ctl) && t == CancelAt(s.table, s.found[b], s.calls[b.call].event, ctl).0
    ensures !FiredFor(t.log, |s.table.log|, s.calls[c].fiber)
  {
    hide EventSafety.Inv, CancelAt, LiveIn, Owned, PhaseOk, FibersApart;
    var p, e, n := s.found[b], s.calls[b.call].event, |s.table.log|;
    CancelAtKeeps(s.table, p, e, ctl);
    if FiredFor(t.log, n, s.calls[c].fiber) {
      OneFiring(s, t, p, e);
      var i :| n <= i < |t.log| && t.log[i].Fired? && t.log[i].reg.waiter == FiberWaiter(s.calls[c].fiber);
      OwnFiring(s, t, c, i);
      assert false;
    }
  }

  lemma ParkedReg(s: State, c: nat)
    requires CallsInv(s) && c < |s.calls| && s.calls[c].phase.Waiting?
    ensures var call := s.calls[c];
      && MadeFor(s.table, call.phase.ctx, call.fd)
      && LiveIn(s.table.contexts, call.phase.ctx, call.event) == Some(RegOf(call, call.phase.reg))
  {
    hide EventSafety.Inv, LiveIn;
    assert PhaseOk(s.table, s.calls[c]);
  }

  /** Firing some of what is armed in one context wakes exactly the calls parked there for these events. */
  lemma SetWakes(s: State, t: Table, p: nat, wanted: set<Event>, how: How, c: nat)
    requires CallsInv(s) && EventSafety.Inv(t) && c < |s.calls|
    requires FiredSet(s.table, t, p, wanted, how) && wanted <= s.table.contexts[p].events
    ensures var call := s.calls[c];
      Wake(call, t.log, |s.table.log|) ==
      if call.phase.Waiting? && call.phase.ctx == p && call.event in wanted then call.(phase := Woken(call.phase.reg)) else call
  {
    hide EventSafety.Inv, Firings, Owned, FibersApart, FiredReg, FiredFor, Timed;
    var call := s.calls[c];
    if call.phase.Waiting? {
      SetFired(s, t, p, wanted, how);
      SetIsEach(s.table, t, p, wanted, how);
      if FiredFor(t.log, |s.table.log|, call.fiber) {
        FiredOn(s, t, c);
      } else {
        CallStep(s, t, c);
      }
    }
  }

  /** What schedules the fiber of a parked call is a firing of the event it is parked for, in its context. */
  lemma FiredOn(s: State, t: Table, c: nat)
    requires CallsInv(s) && FiredOnlyFrom(s, t) && c < |s.calls| && s.calls[c].phase.Waiting?
    requires FiredFor(t.log, |s.table.log|, s.calls[c].fiber)
    ensures exists i :: |s.table.log| <= i < |t.log| && t.log[i].ctx == s.calls[c].phase.ctx && t.log[i].event == s.calls[c].event
  {
    hide Parked, FiredOnlyFrom;
    var i :| |s.table.log| <= i < |t.log| && t.log[i].Fired? && t.log[i].reg.waiter == FiberWaiter(s.calls[c].fiber);
    OwnFiring(s, t, c, i);
  }

  /**
   A report wakes exactly the calls parked in the context it names: on an error or hang-up all of
   them, otherwise those whose event it names, and none if epoll_ctl fails.
   */
  lemma HandleExactly(s: State, r: DoIo.IO.Report, c: nat)
    requires CallsInv(s) && Enabled(s, Handle(r)) && c < |s.calls|
    ensures var call, t := s.calls[c], Apply(s, Handle(r));
      && |t.calls| == |s.calls|
      && t.calls[c] ==
         if call.phase.Waiting? && call.phase.ctx == r.ctx && r.ctl && (r.errorOrHup || call.event in r.events)
         then call.(phase := Woken(call.phase.reg)) else call
  {
    hide CallsInv, EventSafety.Inv, FiredFor, Dispatch, FiredSet, FiredEach;
    var call, events := s.calls[c], s.table.contexts[r.ctx].events;
    TableOk(s);
    DispatchKeeps(s.table, r.ctx, r.events, r.errorOrHup, r.ctl);
    var (u, outcome) := Dispatch(s.table, r.ctx, r.events, r.errorOrHup, r.ctl);
    if call.phase.Waiting? {
      ParkedReg(s, c);
      assert call.phase.ctx == r.ctx ==> call.event in events;
      if outcome == Success {
        SetWakes(s, u, r.ctx, if r.errorOrHup then events else r.events, Readiness, c);
      } else {
        assert call.event in r.events && call.event in events ==> call.event in events * r.events;
        NothingNew(u.log, call);
      }
    }
  }

  lemma NothingNew(log: seq<Entry>, call: Call)
    ensures Wake(call, log, |log|) == call
  {}

  /** Cancelling everything on a context wakes exactly the calls parked in it, if epoll_ctl succeeds. */
  lemma DescriptorExactly(s: State, p: nat, ctl: bool, c: nat)
    requires CallsInv(s) && Enabled(s, CancelDescriptor(p, ctl)) && c < |s.calls|
    ensures var call, t := s.calls[c], Apply(s, CancelDescriptor(p, ctl));
      && |t.calls| == |s.calls|
      && t.calls[c] ==
         if call.phase.Waiting? && call.phase.ctx == p && ctl then call.(phase := Woken(call.phase.reg)) else call
  {
    hide CallsInv, EventSafety.Inv, FiredFor, CancelAllAt, FiredSet;
    var call := s.calls[c];
    TableOk(s);
    CancelAllAtKeeps(s.table, p, ctl);
    var (u, outcome) := CancelAllAt(s.table, p, ctl);
    if call.phase.Waiting? {
      ParkedReg(s, c);
      assert call.phase.ctx == p ==> call.event in s.table.contexts[p].events;
      if outcome == Success {
        SetWakes(s, u, p, s.table.contexts[p].events, Cancellation, c);
      } else {
        NothingNew(u.log, call);
      }
    }
  }

  // ----- how calls end -----

  /**
   A call ends with what the system call returned when that need not wait, with a failure when its event
   cannot be registered, and with ETIMEDOUT when it resumes and finds its flag raised; if the flag
   is clear it tries again. Nothing else ends it. It takes its own timer away, if it still can, and no other.
   */
  lemma EndingExactly(s: State, a: Action, c: nat)
    requires CallsInv(s) && Enabled(s, a) && c < |s.calls| && !s.calls[c].phase.Done?
    ensures var call, t := s.calls[c], Apply(s, a);
      && |t.calls| >= |s.calls|
      && (t.calls[c].phase == Done(Data) <==> a == TryDone(c))
      && (t.calls[c].phase == Done(Failed) <==>
            a.Register? && a.c == c && !(a.ctl && call.phase.ctx < |s.table.contexts| && !Elsewhere(s.table, call.phase.ctx)))
      && (t.calls[c].phase == Done(TimedOut) <==> a.Resume? && a.c == c && call.flag.Raised?)
      && (t.calls[c].phase.Trying? && !call.phase.Trying? <==> a.Resume? && a.c == c && call.flag.Clear?)
      && (t.calls[c].phase.Done? || (a.Resume? && a.c == c) ==>
            t.timers == if a.TryDone? || !a.timerStopped then s.timers else s.timers - {Callback(c, call.attempts - 1)})
  {
    hide Parked, EventSafety.Inv, Dispatch, CancelAllAt, CancelAt, AddAt, Resize, LiveIn, FiredFor;
    var call := s.calls[c];
    assert TimedOk(s, call, c);
    if a.Register? {
      TableOk(s);
      AddAtKeeps(s.table, s.calls[a.c].phase.ctx, s.calls[a.c].event, 0, FiberWaiter(s.calls[a.c].fiber), a.ctl);
    }
  }

  lemma DoneStays(s: State, a: Action, c: nat)
    requires Enabled(s, a) && c < |s.calls| && s.calls[c].phase.Done?
    ensures var t := Apply(s, a); |t.calls| >= |s.calls| && t.calls[c].phase == s.calls[c].phase && a != TryDone(c)
  {
    hide AddAt, Dispatch, CancelAllAt, CancelAt, Resize, LiveIn, FiredFor;
  }

  /** Over a whole run, the calls that return what the system call did are exactly those whose system call did not have to wait. */
  lemma {:induction false} RunEndings(s: State, run: seq<Action>, c: nat)
    requires CallsInv(s) && Legal(s, run)
    ensures c < |Run(s, run).calls| && (c < |s.calls| ==> !s.calls[c].phase.Done?) ==>
      (Run(s, run).calls[c].phase == Done(Data) <==> TryDone(c) in run)
    ensures c < |s.calls| && s.calls[c].phase.Done? ==>
      |Run(s, run).calls| >= |s.calls| && Run(s, run).calls[c].phase == s.calls[c].phase && TryDone(c) !in run
    decreases |run|
  {
    hide CallsInv, Apply;
    if run != [] {
      var t := Apply(s, run[0]);
      StepKeeps(s, run[0]);
      RunEndings(t, run[1..], c);
      assert TryDone(c) in run <==> run[0] == TryDone(c) || TryDone(c) in run[1..];
      if c < |s.calls| {
        if s.calls[c].phase.Done? { DoneStays(s, run[0], c); } else { EndingExactly(s, run[0], c); }
      } else if c < |t.calls| {
        NewCall(s, run[0]);
      }
    }
  }

  lemma NewCall(s: State, a: Action)
    requires Enabled(s, a) && |Apply(s, a).calls| > |s.calls|
    ensures |Apply(s, a).calls| == |s.calls| + 1 && Apply(s, a).calls[|s.calls|].phase.Trying?
  {
    hide AddAt, Dispatch, CancelAllAt, CancelAt, Resize, LiveIn, FiredFor;
  }

  lemma EveryEnding(acts: seq<Action>, c: nat)
    requires Legal(Start, acts) && c < |Run(Start, acts).calls|
    ensures Run(Start, acts).calls[c].phase == Done(Data) <==> TryDone(c) in acts
  {
    StartInv();
    RunEndings(Start, acts, c);
  }

  /** A report of just the event a call is parked for. */
  function Ready(call: Call): Action
    requires call.phase.Waiting?
  {
    Handle(DoIo.IO.Report(call.phase.ctx, {call.event}, false, true))
  }

  /** It wakes that call and frees its slot, whether its context is still looked up or not. */
  lemma ReadyWakes(s: State, c: nat)
    requires CallsInv(s) && c < |s.calls| && s.calls[c].phase.Waiting?
    ensures var call, a := s.calls[c], Ready(s.calls[c]);
      && Enabled(s, a)
      && var t := Apply(s, a);
      && CallsInv(t) && |t.calls| == |s.calls|
      && t.timers == s.timers && t.looked == s.looked && t.raised == s.raised && t.found == s.found
      && t.calls[c] == call.(phase := Woken(call.phase.reg))
      && (forall d :: 0 <= d < |s.calls| && !s.calls[d].phase.Waiting? ==> t.calls[d] == s.calls[d])
      && LiveIn(t.table.contexts, call.phase.ctx, call.event).None?
      && t.table.slots == s.table.slots && |t.table.contexts| == |s.table.contexts|
  {
    hide CallsInv, EventSafety.Inv, FiredFor, Dispatch, Firings, FiredEach;
    var call, a := s.calls[c], Ready(s.calls[c]);
    ParkedReg(s, c);
    TableOk(s);
    var events := s.table.contexts[call.phase.ctx].events;
    assert call.event in events && events * {call.event} == {call.event};
    KeepHandle(s, a.report);
    DispatchKeeps(s.table, call.phase.ctx, {call.event}, false, true);
    var t := Apply(s, a);
    if t.calls[c].phase.Waiting? {
      ParkedReg(t, c);
      assert false;
    }
  }

  // ----- when a timeout can end a wait -----

  /** What a callback still does, if the vector stays as it is and epoll_ctl succeeds. */
  function Rest(s: State, b: Callback): seq<Action> {
    if b in s.found then [Cancel(b, true)]
    else if b in s.raised then [Find(b)] + [Cancel(b, true)]
    else if b in s.looked then [Raise(b)] + ([Find(b)] + [Cancel(b, true)])
    else [Look(b)] + ([Raise(b)] + ([Find(b)] + [Cancel(b, true)]))
  }

  /** Left to itself, the callback ends the wait its call is in. */
  ghost predicate EndsWait(s: State, b: Callback) {
    && Outstanding(s, b) && b.call < |s.calls| && s.calls[b.call].phase.Waiting? && Legal(s, Rest(s, b))
    && var t := Run(s, Rest(s, b));
    b.call < |t.calls| && t.calls[b.call].phase.Woken?
  }

  ghost predicate CanTimeOut(s: State, c: nat) {
    exists b: Callback :: b.call == c && EndsWait(s, b)
  }

  /** The descriptor of a parked call is still looked up to the context it is parked in. */
  predicate Reachable(s: State, call: Call) {
    call.phase.Waiting? && call.phase.ctx < |s.table.contexts| && Attached(s.table, call.phase.ctx)
  }

  /** What callback `b` of a parked call needs to end the wait. */
  predicate WouldEnd(s: State, b: Callback)
    requires b.call < |s.calls| && s.calls[b.call].phase.Waiting?
  {
    var call := s.calls[b.call];
    if b in s.found then s.found[b] == call.phase.ctx
    else Reachable(s, call) && (b in s.raised || b in s.looked || (b in s.timers && call.flag.Clear?))
  }

  lemma FoundEnds(s: State, b: Callback)
    requires CallsInv(s) && b in s.found && b.call < |s.calls| && s.calls[b.call].phase.Waiting?
    ensures Legal(s, [Cancel(b, true)])
    ensures var t := Run(s, [Cancel(b, true)]);
      && CallsInv(t) && |t.calls| == |s.calls|
      && t.calls[b.call].flag == s.calls[b.call].flag && s.calls[b.call].flag.Raised?
      && (t.calls[b.call].phase.Woken? <==> s.found[b] == s.calls[b.call].phase.ctx)
  {
    hide Parked, Legal, Run, CancelAt;
    assert CallbackOk(s, b);
    OneStep(s, Cancel(b, true));
    CancelExactly(s, b, true, b.call);
    KeepCancel(s, b, true);
  }

  ghost predicate TimedOutNow(s: State, c: nat) {
    CallsInv(s) && c < |s.calls| && s.calls[c].phase.Woken? && s.calls[c].flag.Raised?
  }

  lemma RaisedEnds(s: State, b: Callback)
    requires CallsInv(s) && b in s.raised && b.call < |s.calls| && s.calls[b.call].phase.Waiting?
    ensures var call, acts := s.calls[b.call], [Find(b)] + [Cancel(b, true)];
      && (Reachable(s, call) ==> Legal(s, acts) && TimedOutNow(Run(s, acts), b.call))
      && (!Reachable(s, call) && b !in s.found && Legal(s, acts) && b.call < |Run(s, acts).calls| ==> !Run(s, acts).calls[b.call].phase.Woken?)
  {
    hide Parked, CancelAt, Legal, Run, EventSafety.Inv, LiveIn;
    var call, acts, t := s.calls[b.call], [Find(b)] + [Cancel(b, true)], Apply(s, Find(b));
    KeepFind(s, b);
    ParkedReg(s, b.call);
    TableOk(s);
    FindsBelow(s.table, call.fd);
    OneStep(s, Find(b));
    if Finds(s.table, call.fd) {
      FoundEnds(t, b);
      FirstStep(s, Find(b), [Cancel(b, true)]);
    } else {
      NotLegal(s, Find(b), [Cancel(b, true)]);
      assert b !in s.found ==> !Enabled(t, Cancel(b, true));
    }
  }

  /** A run that is legal is legal step by step. */
  lemma NotLegal(s: State, a: Action, rest: seq<Action>)
    requires rest != []
    ensures Legal(s, [a] + rest) ==>
      Enabled(s, a) && Legal(Apply(s, a), rest) && Enabled(Apply(s, a), rest[0]) && Run(s, [a] + rest) == Run(Apply(s, a), rest)
  {
    assert ([a] + rest)[1..] == rest;
  }

  lemma LookedEnds(s: State, b: Callback)
    requires CallsInv(s) && b in s.looked && b !in s.found && b.call < |s.calls| && s.calls[b.call].phase.Waiting?
    ensures var call, acts := s.calls[b.call], [Raise(b)] + ([Find(b)] + [Cancel(b, true)]);
      && (Reachable(s, call) ==> Legal(s, acts) && TimedOutNow(Run(s, acts), b.call))
      && (!Reachable(s, call) && Legal(s, acts) && b.call < |Run(s, acts).calls| ==> !Run(s, acts).calls[b.call].phase.Woken?)
  {
    hide CallsInv, Legal, Run;
    var t, rest := Apply(s, Raise(b)), [Find(b)] + [Cancel(b, true)];
    KeepRaise(s, b);
    RaisedEnds(t, b);
    if Reachable(s, s.calls[b.call]) { FirstStep(s, Raise(b), rest); } else { NotLegal(s, Raise(b), rest); }
  }

  lemma TimerEnds(s: State, b: Callback)
    requires CallsInv(s) && b in s.timers && !UnderWay(s, b) && b.call < |s.calls| && s.calls[b.call].phase.Waiting?
    ensures var call, acts := s.calls[b.call], [Look(b)] + ([Raise(b)] + ([Find(b)] + [Cancel(b, true)]));
      && (Reachable(s, call) && call.flag.Clear? ==> Legal(s, acts) && TimedOutNow(Run(s, acts), b.call))
      && (!(Reachable(s, call) && call.flag.Clear?) && Legal(s, acts) && b.call < |Run(s, acts).calls| ==>
            !Run(s, acts).calls[b.call].phase.Woken?)
  {
    hide CallsInv, Legal, Run;
    var t, rest := Apply(s, Look(b)), [Raise(b)] + ([Find(b)] + [Cancel(b, true)]);
    KeepLook(s, b);
    NotLegal(s, Look(b), rest);
    if s.calls[b.call].flag.Clear? {
      LookedEnds(t, b);
      if Reachable(s, s.calls[b.call]) { FirstStep(s, Look(b), rest); }
    }
  }

  /** Callback by callback: it ends the wait iff it has found the right context, or can still find it and raise. */
  lemma EndsExactly(s: State, b: Callback)
    requires CallsInv(s) && Outstanding(s, b) && b.call < |s.calls| && s.calls[b.call].phase.Waiting?
    ensures EndsWait(s, b) <==> WouldEnd(s, b)
    ensures EndsWait(s, b) ==> CallsInv(Run(s, Rest(s, b))) && Run(s, Rest(s, b)).calls[b.call].flag.Raised?
  {
    hide CallsInv, Legal, Run;
    if b in s.found {
      FoundEnds(s, b);
    } else if b in s.raised {
      RaisedEnds(s, b);
    } else if b in s.looked {
      LookedEnds(s, b);
    } else {
      TimerEnds(s, b);
    }
  }

  /** Some callback of the call has begun, and what it has found or will find is the context of the wait. */
  ghost predicate Pending(s: State, c: nat)
    requires c < |s.calls| && s.calls[c].phase.Waiting?
  {
    exists b: Callback :: b.call == c && UnderWay(s, b) && WouldEnd(s, b)
  }

  /**
   A parked call with a timeout can time out iff its flag is clear and its context is still looked up,
   or a callback of its own is under way to that context.
   */
  lemma TimeoutExactly(s: State, c: nat)
    requires CallsInv(s) && c < |s.calls| && s.calls[c].phase.Waiting? && s.calls[c].hasTimeout
    ensures CanTimeOut(s, c) <==> (s.calls[c].flag.Clear? && Reachable(s, s.calls[c])) || Pending(s, c)
  {
    hide Parked, Legal, Run, EndsWait;
    var call := s.calls[c];
    if call.flag.Clear? && Reachable(s, call) {
      OwnOutstanding(s, c);
      EndsExactly(s, Own(c, call));
    }
    if Pending(s, c) {
      var b: Callback :| b.call == c && UnderWay(s, b) && WouldEnd(s, b);
      EndsExactly(s, b);
    }
    if CanTimeOut(s, c) {
      var b: Callback :| b.call == c && EndsWait(s, b);
      EndsOutstanding(s, b);
      EndsExactly(s, b);
    }
  }

  lemma EndsOutstanding(s: State, b: Callback)
    requires EndsWait(s, b)
    ensures Outstanding(s, b)
  {}

  lemma OwnOutstanding(s: State, c: nat)
    requires CallsInv(s) && c < |s.calls| && InAttempt(s.calls[c]) && s.calls[c].hasTimeout && s.calls[c].flag.Clear?
    ensures s.calls[c].attempts > 0 && (Own(c, s.calls[c]) in s.timers || Own(c, s.calls[c]) in s.looked)
    ensures forall b: Callback :: b.call == c ==> b !in s.raised && b !in s.found
  {
    hide Parked;
    assert TimedOk(s, s.calls[c], c);
    forall b: Callback | b.call == c ensures b !in s.raised && b !in s.found {
      if Outstanding(s, b) { assert CallbackOk(s, b); }
    }
  }

  /** The call is scheduled again and comes back in the phase given. */
  ghost predicate ComesBack(s: State, c: nat, stopped: bool, phase: Phase) {
    Enabled(s, Resume(c, stopped)) && Apply(s, Resume(c, stopped)).calls[c].phase == phase
  }

  /** Whichever callback of its own ends the wait, the call then reports the timeout. */
  lemma TimeoutWakes(s: State, b: Callback, stopped: bool)
    requires CallsInv(s) && EndsWait(s, b)
    ensures ComesBack(Run(s, Rest(s, b)), b.call, stopped, Done(TimedOut))
  {
    hide CallsInv, Legal, Run;
    EndsExactly(s, b);
  }

  // ----- what every step keeps of a call -----

  lemma StepCalls(s: State, a: Action, c: nat)
    requires CallsInv(s) && Enabled(s, a) && c < |s.calls|
    ensures var t := Apply(s, a);
      && |s.calls| <= |t.calls| && t.calls[c].attempts >= s.calls[c].attempts
      && t.calls[c].hasTimeout == s.calls[c].hasTimeout && t.calls[c].fd == s.calls[c].fd && t.calls[c].event == s.calls[c].event
      && (s.calls[c].flag.Raised? ==> t.calls[c].flag == s.calls[c].flag)
      && (s.calls[c].phase.Done? ==> t.calls[c].phase == s.calls[c].phase)
      && (t.calls[c].flag != s.calls[c].flag ==>
            && a.Raise? && a.callback.call == c && t.calls[c].flag == Raised(a.callback.attempt, s.calls[c].attempts))
  {
    hide CallsInv, AddAt, CancelAt, CancelAllAt, DoIo.IO.Do, FiredFor, LiveIn, DoIo.IO.WellUsed, Resize;
  }

  /** The flag is raised and no callback of the call is under way. */
  ghost predicate Spent(s: State, c: nat) {
    c < |s.calls| && s.calls[c].flag.Raised? && forall b: Callback :: b.call == c ==> !UnderWay(s, b)
  }

  lemma StepSpent(s: State, a: Action, c: nat)
    requires CallsInv(s) && Enabled(s, a) && Spent(s, c)
    ensures Spent(Apply(s, a), c)
  {
    hide CallsInv, AddAt, CancelAt, CancelAllAt, DoIo.IO.Do, FiredFor, LiveIn, DoIo.IO.WellUsed, Resize;
    StepCalls(s, a, c);
  }

  /** A spent call stays spent in every continuation: it retries and waits, but no timer of its own ends a wait again. */
  lemma {:induction false} SpentForGood(s: State, run: seq<Action>, c: nat)
    requires CallsInv(s) && Legal(s, run) && Spent(s, c)
    ensures Spent(Run(s, run), c) && !CanTimeOut(Run(s, run), c)
    decreases |run|
  {
    hide CallsInv, Enabled, Apply, CanTimeOut, Spent;
    if run == [] {
      SpentCannot(s, c);
    } else {
      StepKeeps(s, run[0]);
      StepSpent(s, run[0], c);
      SpentForGood(Apply(s, run[0]), run[1..], c);
    }
  }

  lemma SpentCannot(s: State, c: nat)
    requires CallsInv(s) && Spent(s, c)
    ensures !CanTimeOut(s, c)
  {
    hide CallsInv, EndsWait;
    if CanTimeOut(s, c) {
      var b: Callback :| b.call == c && EndsWait(s, b);
      EndsMeans(s, b);
      EndsExactly(s, b);
      assert false;
    }
  }

  lemma EndsMeans(s: State, b: Callback)
    requires EndsWait(s, b)
    ensures Outstanding(s, b) && b.call < |s.calls| && s.calls[b.call].phase.Waiting?
  {}

  // ----- over every run -----

  /**
   In every run of any number of calls: no wait is ended twice; what is scheduled is the fiber that
   registered; a parked call's registration is live and for its own fiber; a call that reports a
   timeout has one, and a callback of its own raised its flag; a parked call with a timeout can time
   out iff its flag is clear and its context is looked up, or a callback of its own is under way to
   it; and while the flag is clear the timer of the attempt has not passed it.
   */
  lemma TimeoutOrReadiness(acts: seq<Action>)
    requires Legal(Start, acts)
    ensures var s := Run(Start, acts); var log := s.table.log;
      && (forall i, j :: 0 <= i < j < |log| && log[i].Fired? && log[j].Fired? ==> log[i].reg.id != log[j].reg.id)
      && (forall i :: 0 <= i < |log| && log[i].Fired? ==> exists k :: DoIo.IO.Ends(log, k, i))
      && (forall c :: 0 <= c < |s.calls| && s.calls[c].phase.Waiting? ==>
            LiveIn(s.table.contexts, s.calls[c].phase.ctx, s.calls[c].event) == Some(RegOf(s.calls[c], s.calls[c].phase.reg)))
      && (forall c :: 0 <= c < |s.calls| && s.calls[c].phase == Done(TimedOut) ==>
            s.calls[c].hasTimeout && s.calls[c].flag.Raised? && s.calls[c].flag.source < s.calls[c].attempts)
      && (forall c :: 0 <= c < |s.calls| && s.calls[c].phase.Waiting? && s.calls[c].hasTimeout ==>
            (CanTimeOut(s, c) <==> (s.calls[c].flag.Clear? && Reachable(s, s.calls[c])) || Pending(s, c)))
      && (forall c :: 0 <= c < |s.calls| && InAttempt(s.calls[c]) && s.calls[c].hasTimeout && s.calls[c].flag.Clear? ==>
            Own(c, s.calls[c]) in s.timers || Own(c, s.calls[c]) in s.looked)
  {
    hide Run, Legal, Parked, CanTimeOut, Pending;
    StartInv();
    RunKeeps(Start, acts);
    var s := Run(Start, acts);
    TableOk(s);
    LogAgrees(s.table, 0, READ);
    DoIo.IO.LogPromises(s.table.log);
    forall c | 0 <= c < |s.calls| && s.calls[c].phase.Waiting?
      ensures LiveIn(s.table.contexts, s.calls[c].phase.ctx, s.calls[c].event) == Some(RegOf(s.calls[c], s.calls[c].phase.reg))
      ensures s.calls[c].hasTimeout ==> (CanTimeOut(s, c) <==> (s.calls[c].flag.Clear? && Reachable(s, s.calls[c])) || Pending(s, c))
    {
      ParkedReg(s, c);
      if s.calls[c].hasTimeout { TimeoutExactly(s, c); }
    }
    assert forall c :: 0 <= c < |s.calls| ==> TimedOk(s, s.calls[c], c);
  }

  // ----- whose timer ends a wait -----

  predicate SameSlot(s: State, d: nat, c: nat) {
    d < |s.calls| && c < |s.calls| && s.calls[d].fd == s.calls[c].fd && s.calls[d].event == s.calls[c].event
  }

  /** A callback, of whatever call, that can come to cancel in the context where call `c` is parked, for its event. */
  predicate Threat(s: State, b: Callback, c: nat)
    requires c < |s.calls| && s.calls[c].phase.Waiting?
  {
    && SameSlot(s, b.call, c)
    && if b in s.found then s.found[b] == s.calls[c].phase.ctx
       else
         && Reachable(s, s.calls[c])
         && (b in s.raised || b in s.looked || (b in s.timers && !s.calls[b.call].phase.Done? && s.calls[b.call].flag.Clear?))
  }

  /** No other call goes to wait on the same descriptor and event. */
  predicate LeavesAlone(s: State, a: Action, c: nat) {
    a.SetTimer? && a.c != c ==> !SameSlot(s, a.c, c)
  }

  /** Along the run, as long as the wait lasts and others leave the slot alone, timers end it only if they are its own. */
  ghost predicate OwnOnly(s: State, run: seq<Action>, c: nat)
    requires Legal(s, run)
    decreases |run|
  {
    (run != [] && c < |s.calls| && s.calls[c].phase.Waiting? && LeavesAlone(s, run[0], c)) ==>
      && (c < |Apply(s, run[0]).calls| && Apply(s, run[0]).calls[c].phase.Woken? && run[0].Cancel? ==>
            run[0].callback == Own(c, s.calls[c]))
      && OwnOnly(Apply(s, run[0]), run[1..], c)
  }

  /**
   A wait can be ended by another timer than its own, one of an earlier attempt or of another call,
   iff such a callback is outstanding for the same descriptor and event and has found the context of
   the wait, or can still find it.
   */
  lemma OwnTimerExactly(s: State, c: nat)
    requires CallsInv(s) && c < |s.calls| && s.calls[c].phase.Waiting?
    ensures (forall run :: Legal(s, run) ==> OwnOnly(s, run, c))
       <==> (forall b: Callback :: Threat(s, b, c) ==> b == Own(c, s.calls[c]))
  {
    hide CallsInv, Legal, OwnOnly, Threat;
    if forall b: Callback :: Threat(s, b, c) ==> b == Own(c, s.calls[c]) {
      forall run | Legal(s, run) ensures OwnOnly(s, run, c) { NoThreatRun(s, run, c); }
    } else {
      var b: Callback :| Threat(s, b, c) && b != Own(c, s.calls[c]);
      ThreatEnds(s, b, c);
    }
  }

  lemma {:induction false} NoThreatRun(s: State, run: seq<Action>, c: nat)
    requires CallsInv(s) && Legal(s, run) && c < |s.calls| && s.calls[c].phase.Waiting?
    requires forall b: Callback :: Threat(s, b, c) ==> b == Own(c, s.calls[c])
    ensures OwnOnly(s, run, c)
    decreases |run|
  {
    hide CallsInv, Apply, Threat;
    if run != [] && LeavesAlone(s, run[0], c) {
      var a, t := run[0], Apply(s, run[0]);
      StepKeeps(s, a);
      StepCalls(s, a, c);
      if a.Cancel? { CancelIsThreat(s, a.callback, a.ctl, c); }
      if t.calls[c].phase.Waiting? {
        StepThreats(s, a, c);
        NoThreatRun(t, run[1..], c);
      } else {
        OverNow(t, run[1..], c);
      }
    }
  }

  lemma OverNow(s: State, run: seq<Action>, c: nat)
    requires Legal(s, run) && c < |s.calls| && !s.calls[c].phase.Waiting?
    ensures OwnOnly(s, run, c)
  {}

  lemma CancelIsThreat(s: State, b: Callback, ctl: bool, c: nat)
    requires CallsInv(s) && Enabled(s, Cancel(b, ctl)) && c < |s.calls| && s.calls[c].phase.Waiting?
    ensures var t := Apply(s, Cancel(b, ctl)); c < |t.calls| && (t.calls[c].phase.Woken? ==> Threat(s, b, c))
  {
    hide Parked, CancelAt, LiveIn;
    CancelExactly(s, b, ctl, c);
    ParkedReg(s, c);
    assert CallbackOk(s, b);
  }

  /** A step that leaves the slot alone makes no new threats to a wait it does not end. */
  lemma StepThreats(s: State, a: Action, c: nat)
    requires CallsInv(s) && Enabled(s, a) && c < |s.calls| && s.calls[c].phase.Waiting? && LeavesAlone(s, a, c)
    requires var t := Apply(s, a); c < |t.calls| && t.calls[c].phase.Waiting?
    ensures var t := Apply(s, a);
      && t.calls[c].attempts == s.calls[c].attempts
      && forall b: Callback :: Threat(t, b, c) ==> Threat(s, b, c)
  {
    hide CallsInv, Apply, Threat;
    StaysParked(s, a, c);
    var t := Apply(s, a);
    forall b: Callback | Threat(t, b, c) ensures Threat(s, b, c) { ThreatBefore(s, a, c, b); }
  }

  lemma StaysParked(s: State, a: Action, c: nat)
    requires CallsInv(s) && Enabled(s, a) && c < |s.calls| && s.calls[c].phase.Waiting?
    requires var t := Apply(s, a); c < |t.calls| && t.calls[c].phase.Waiting?
    ensures var t := Apply(s, a);
      && t.calls[c].attempts == s.calls[c].attempts && t.calls[c].phase == s.calls[c].phase
      && (Reachable(t, t.calls[c]) ==> Reachable(s, s.calls[c]))
  {
    hide Parked, AddAt, CancelAt, CancelAllAt, Dispatch, FiredFor, LiveIn, DoIo.IO.WellUsed, Resize, EventSafety.Inv, Attached;
    ParkedReg(s, c);
    TableOk(s);
    StillAttached(s, a, s.calls[c].phase.ctx);
  }

  /** No step attaches a context that is there again. */
  lemma StillAttached(s: State, a: Action, p: nat)
    requires EventSafety.Inv(s.table) && Enabled(s, a) && p < |s.table.contexts|
    ensures var t := Apply(s, a).table; p < |t.contexts| && (Attached(t, p) ==> Attached(s.table, p))
  {
    hide EventSafety.Inv, AddAt, CancelAt, CancelAllAt, Dispatch, FiredFor, LiveIn, Resize, Firings;
    match a
    case Register(c, ctl, _) =>
      AddAtKeeps(s.table, s.calls[c].phase.ctx, s.calls[c].event, 0, FiberWaiter(s.calls[c].fiber), ctl);
    case Handle(r) => DispatchKeeps(s.table, r.ctx, r.events, r.errorOrHup, r.ctl);
    case CancelDescriptor(q, ctl) => CancelAllAtKeeps(s.table, q, ctl);
    case SetSize(n) => ResizeKeeps(s.table, n);
    case Cancel(b, ctl) => CancelAtKeeps(s.table, s.found[b], s.calls[b.call].event, ctl);
    case _ =>
  }

  lemma ThreatBefore(s: State, a: Action, c: nat, b: Callback)
    requires CallsInv(s) && Enabled(s, a) && c < |s.calls| && s.calls[c].phase.Waiting? && LeavesAlone(s, a, c)
    requires var t := Apply(s, a); c < |t.calls| && t.calls[c].phase.Waiting? && Threat(t, b, c)
    requires var t := Apply(s, a); t.calls[c].phase == s.calls[c].phase && (Reachable(t, t.calls[c]) ==> Reachable(s, s.calls[c]))
    ensures Threat(s, b, c)
  {
    hide Parked, AddAt, CancelAt, CancelAllAt, DoIo.IO.Do, FiredFor, LiveIn, DoIo.IO.WellUsed, Resize, Reachable;
    var t := Apply(s, a);
    assert Outstanding(s, b) ==> CallbackOk(s, b);
    if b.call < |s.calls| {
      StepCalls(s, a, b.call);
      StepCalls(s, a, c);
      if a == Find(b) { FindsContext(s, b, c); }
    } else {
      NoCallback(s, a, b);
      assert false;
    }
  }

  /** A lookup that gives the context of the wait shows that it is reachable. */
  lemma FindsContext(s: State, b: Callback, c: nat)
    requires CallsInv(s) && Enabled(s, Find(b)) && c < |s.calls| && s.calls[c].phase.Waiting?
    requires b in Apply(s, Find(b)).found && Apply(s, Find(b)).found[b] == s.calls[c].phase.ctx && b !in s.found
    ensures Reachable(s, s.calls[c])
  {
    hide Parked, EventSafety.Inv;
    TableOk(s);
    FindsBelow(s.table, s.calls[b.call].fd);
  }

  /** There are no callbacks of calls not made yet. */
  lemma NoCallback(s: State, a: Action, b: Callback)
    requires CallsInv(s) && Enabled(s, a) && b.call >= |s.calls|
    ensures !Outstanding(Apply(s, a), b)
  {
    hide Parked, AddAt, CancelAt, CancelAllAt, DoIo.IO.Do, FiredFor, LiveIn, DoIo.IO.WellUsed, Resize;
    assert Outstanding(s, b) ==> CallbackOk(s, b);
  }

  /** A threat ends the wait by its own remaining steps. */
  lemma ThreatEnds(s: State, b: Callback, c: nat)
    requires CallsInv(s) && c < |s.calls| && s.calls[c].phase.Waiting? && Threat(s, b, c) && b != Own(c, s.calls[c])
    ensures exists run :: Legal(s, run) && !OwnOnly(s, run, c)
  {
    hide CallsInv, Legal, OwnOnly;
    var run :=
      if b in s.found then [Cancel(b, true)]
      else if b in s.raised then [Find(b)] + [Cancel(b, true)]
      else if b in s.looked then [Raise(b)] + ([Find(b)] + [Cancel(b, true)])
      else [Look(b)] + ([Raise(b)] + ([Find(b)] + [Cancel(b, true)]));
    if b in s.found { FoundThreat(s, b, c); }
    else if b in s.raised { RaisedThreat(s, b, c); }
    else if b in s.looked { LookedThreat(s, b, c); }
    else { TimerThreat(s, b, c); }
    assert Legal(s, run) && !OwnOnly(s, run, c);
  }

  lemma FoundThreat(s: State, b: Callback, c: nat)
    requires CallsInv(s) && c < |s.calls| && s.calls[c].phase.Waiting? && Threat(s, b, c) && b != Own(c, s.calls[c]) && b in s.found
    ensures Legal(s, [Cancel(b, true)]) && !OwnOnly(s, [Cancel(b, true)], c)
  {
    hide Parked, CancelAt;
    assert CallbackOk(s, b);
    OneStep(s, Cancel(b, true));
    CancelExactly(s, b, true, c);
  }

  lemma RaisedThreat(s: State, b: Callback, c: nat)
    requires CallsInv(s) && c < |s.calls| && s.calls[c].phase.Waiting? && Threat(s, b, c) && b != Own(c, s.calls[c])
    requires b in s.raised && b !in s.found
    ensures var run := [Find(b)] + [Cancel(b, true)]; Legal(s, run) && !OwnOnly(s, run, c)
  {
    hide Parked, EventSafety.Inv, CancelAt, Legal, LiveIn;
    KeepFind(s, b);
    ParkedReg(s, c);
    TableOk(s);
    FindsBelow(s.table, s.calls[c].fd);
    FoundThreat(Apply(s, Find(b)), b, c);
    FirstStep(s, Find(b), [Cancel(b, true)]);
    FirstOwnOnly(s, Find(b), [Cancel(b, true)], c);
  }

  lemma FirstOwnOnly(s: State, a: Action, rest: seq<Action>, c: nat)
    requires Legal(s, [a] + rest) && Enabled(s, a) && Legal(Apply(s, a), rest)
    requires c < |s.calls| && s.calls[c].phase.Waiting? && LeavesAlone(s, a, c)
    ensures OwnOnly(s, [a] + rest, c) ==> OwnOnly(Apply(s, a), rest, c)
  {
    assert ([a] + rest)[1..] == rest;
  }

  lemma LookedThreat(s: State, b: Callback, c: nat)
    requires CallsInv(s) && c < |s.calls| && s.calls[c].phase.Waiting? && Threat(s, b, c) && b != Own(c, s.calls[c])
    requires b in s.looked && b !in s.found
    ensures var run := [Raise(b)] + ([Find(b)] + [Cancel(b, true)]); Legal(s, run) && !OwnOnly(s, run, c)
  {
    hide CallsInv, Legal, OwnOnly;
    KeepRaise(s, b);
    RaisedThreat(Apply(s, Raise(b)), b, c);
    FirstStep(s, Raise(b), [Find(b)] + [Cancel(b, true)]);
    FirstOwnOnly(s, Raise(b), [Find(b)] + [Cancel(b, true)], c);
  }

  lemma TimerThreat(s: State, b: Callback, c: nat)
    requires CallsInv(s) && c < |s.calls| && s.calls[c].phase.Waiting? && Threat(s, b, c) && b != Own(c, s.calls[c])
    requires b !in s.found && b !in s.raised && b !in s.looked
    ensures var run := [Look(b)] + ([Raise(b)] + ([Find(b)] + [Cancel(b, true)])); Legal(s, run) && !OwnOnly(s, run, c)
  {
    hide CallsInv, Legal, OwnOnly;
    KeepLook(s, b);
    LookedThreat(Apply(s, Look(b)), b, c);
    FirstStep(s, Look(b), [Raise(b)] + ([Find(b)] + [Cancel(b, true)]));
    FirstOwnOnly(s, Look(b), [Raise(b)] + ([Find(b)] + [Cancel(b, true)]), c);
  }

  /** A wait that another call's timer ends is not reported as a timeout: with its flag clear the call tries again. */
  lemma ForeignWakeRetries(s: State, b: Callback, c: nat, stopped: bool)
    requires CallsInv(s) && Enabled(s, Cancel(b, true)) && c < |s.calls| && b.call != c && Hits(s, b, s.calls[c])
    ensures var t := Apply(s, Cancel(b, true));
      && CallsInv(t) && c < |t.calls| && t.calls[c].phase.Woken? && t.calls[c].flag == s.calls[c].flag
      && ComesBack(t, c, stopped, if s.calls[c].flag.Clear? then Trying else Done(TimedOut))
  {
    hide CallsInv, CancelAt;
    KeepCancel(s, b, true);
    CancelExactly(s, b, true, c);
  }

  // ----- if timers are cancelled in time -----

  /** Outside an attempt nothing is left over, inside only its own callback, and only own callbacks raised the flag. */
  ghost predicate NeatCall(s: State, c: nat)
    requires c < |s.calls|
  {
    var call := s.calls[c];
    && (forall b: Callback :: b.call == c && Outstanding(s, b) ==> InAttempt(call) && b.attempt == call.attempts - 1)
    && (call.flag.Raised? ==> call.flag.source == call.flag.after - 1)
  }

  ghost predicate Neat(s: State) {
    forall c :: 0 <= c < |s.calls| ==> NeatCall(s, c)
  }

  /** When a wait is over, timer->cancel() still finds the timer, or its callback is through. */
  predicate InTime(s: State, a: Action) {
    a.Resume? || a.Register? ==> a.timerStopped && a.c < |s.calls| && !UnderWay(s, Own(a.c, s.calls[a.c]))
  }

  lemma StepNeat(s: State, a: Action)
    requires CallsInv(s) && Neat(s) && Enabled(s, a) && InTime(s, a)
    ensures Neat(Apply(s, a))
  {
    hide CallsInv, Apply, Enabled;
    var t := Apply(s, a);
    forall c | 0 <= c < |t.calls| ensures NeatCall(t, c) {
      if c < |s.calls| { StepNeatCall(s, a, c); } else { NewNeatCall(s, a, c); }
    }
  }

  lemma StepNeatCall(s: State, a: Action, c: nat)
    requires CallsInv(s) && Enabled(s, a) && InTime(s, a) && c < |s.calls| && NeatCall(s, c)
    ensures c < |Apply(s, a).calls| && NeatCall(Apply(s, a), c)
  {
    hide CallsInv, AddAt, CancelAt, CancelAllAt, DoIo.IO.Do, FiredFor, LiveIn, DoIo.IO.WellUsed, Resize;
  }

  lemma NewNeatCall(s: State, a: Action, c: nat)
    requires CallsInv(s) && Enabled(s, a) && |s.calls| <= c < |Apply(s, a).calls|
    ensures NeatCall(Apply(s, a), c)
  {
    hide CallsInv, AddAt, CancelAt, CancelAllAt, DoIo.IO.Do, FiredFor, LiveIn, DoIo.IO.WellUsed, Resize, Outstanding;
    forall b: Callback | b.call == c ensures !Outstanding(Apply(s, a), b) { NoCallback(s, a, b); }
  }

  ghost predicate AllInTime(s: State, run: seq<Action>)
    requires Legal(s, run)
    decreases |run|
  {
    run == [] || (InTime(s, run[0]) && AllInTime(Apply(s, run[0]), run[1..]))
  }

  /** Then no callback is ever left over, and a wait is threatened only by timers of calls in an attempt on its slot. */
  lemma {:induction false} RunNeat(s: State, run: seq<Action>)
    requires CallsInv(s) && Neat(s) && Legal(s, run) && AllInTime(s, run)
    ensures Neat(Run(s, run))
    decreases |run|
  {
    hide CallsInv, Neat, Enabled, Apply, InTime;
    if run != [] {
      StepKeeps(s, run[0]);
      StepNeat(s, run[0]);
      RunNeat(Apply(s, run[0]), run[1..]);
    }
  }

  lemma NeatThreats(s: State, b: Callback, c: nat)
    requires Neat(s) && c < |s.calls| && s.calls[c].phase.Waiting? && Threat(s, b, c)
    ensures b == Own(c, s.calls[c]) || (b.call != c && SameSlot(s, b.call, c) && InAttempt(s.calls[b.call]) && b == Own(b.call, s.calls[b.call]))
  {
    assert NeatCall(s, b.call);
  }
}
