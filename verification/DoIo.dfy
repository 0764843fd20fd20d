/**
 The wait, timeout and retry protocol of the hooked I/O calls (Helens/hook.cc, `do_io`), on top of
 the event table: any number of calls, any interleaving with reports, resizes of the table and the
 steps of timer callbacks, which hold no lock from looking at the flag to raising it and cancelling.
 */
module DoIo {
  import opened Options
  import opened EventTable
  import opened EventLog
  import opened EventSafety
  import IO = IoManager

  datatype Ending = Data | TimedOut | Failed

  /**
   Where a call is: about to try the system call, with its timer set, with the context for its
   descriptor looked up, parked with a registration in it, scheduled again, or returned.
   */
  datatype Phase = Trying | Arming | Placed(ctx: nat) | Waiting(ctx: nat, reg: nat) | Woken(reg: nat) | Done(ending: Ending)

  /**
   The flag in the timer_info that all attempts of one call share: clear, or raised, first by the
   timer callback of attempt `source` when `after` timers had been set.
   */
  datatype Flag = Clear | Raised(source: nat, after: nat)

  /** `attempts`: how often the call has gone to wait. */
  datatype Call = Call(fiber: nat, fd: nat, event: Event, hasTimeout: bool, phase: Phase, attempts: nat, flag: Flag)

  /** The timer callback of one attempt of one call. */
  datatype Callback = Callback(call: nat, attempt: nat)

  /**
   Timer callbacks that may still run (`timers`), that have found their call going on and its flag
   clear (`looked`), that have raised the flag (`raised`), and that have looked up the context in
   which to cancel (`found`).
   */
  datatype State = State(
    table: Table,
    calls: seq<Call>,
    timers: set<Callback>,
    looked: set<Callback>,
    raised: set<Callback>,
    found: map<Callback, nat>)

  datatype Action =
    | Enter(fiber: nat, fd: nat, event: Event, hasTimeout: bool)
    | TryDone(c: nat)
    | SetTimer(c: nat)
    | Place(c: nat)
    | Register(c: nat, ctl: bool, timerStopped: bool)
    | Handle(report: IO.Report)
    | CancelDescriptor(ctx: nat, ctl: bool)
    | SetSize(n: nat)
    | Look(callback: Callback)
    | Raise(callback: Callback)
    | Find(callback: Callback)
    | Cancel(callback: Callback, ctl: bool)
    | Resume(c: nat, timerStopped: bool)

  /** Some firing since `from` scheduled fiber `f`. */
  predicate FiredFor(log: seq<Entry>, from: nat, f: nat) {
    exists i :: from <= i < |log| && log[i].Fired? && log[i].reg.waiter == FiberWaiter(f)
  }

  predicate FiredReg(log: seq<Entry>, from: nat, reg: Reg) {
    exists i :: from <= i < |log| && log[i].Fired? && log[i].reg == reg
  }

  /** A parked call goes on when its fiber is scheduled, whatever registration did that. */
  function Wake(call: Call, log: seq<Entry>, from: nat): Call {
    if call.phase.Waiting? && FiredFor(log, from, call.fiber) then call.(phase := Woken(call.phase.reg)) else call
  }

  function WakeAll(calls: seq<Call>, log: seq<Entry>, from: nat): (r: seq<Call>)
    ensures |r| == |calls| && forall c :: 0 <= c < |calls| ==> r[c] == Wake(calls[c], log, from)
  {
    seq(|calls|, c requires 0 <= c < |calls| => Wake(calls[c], log, from))
  }

  function AfterTable(s: State, t: Table): State {
    s.(table := t, calls := WakeAll(s.calls, t.log, |s.table.log|))
  }

  predicate MadeFor(t: Table, p: nat, fd: nat) { p < |t.contexts| && t.contexts[p].fd == fd }

  /**
   A fiber is in one call at a time; a slot is free when a call registers for it. A call whose
   descriptor is out of range finds it after a resize, its own or another's.
   */
  predicate Enabled(s: State, a: Action) {
    match a
    case Enter(fiber, _, _, _) => forall c :: 0 <= c < |s.calls| && s.calls[c].fiber == fiber ==> s.calls[c].phase.Done?
    case TryDone(c) => c < |s.calls| && s.calls[c].phase.Trying?
    case SetTimer(c) => c < |s.calls| && s.calls[c].phase.Trying?
    case Place(c) => c < |s.calls| && s.calls[c].phase.Arming? && Finds(s.table, s.calls[c].fd)
    case Register(c, _, _) =>
      && c < |s.calls| && s.calls[c].phase.Placed? && s.calls[c].phase.ctx < |s.table.contexts|
      && LiveIn(s.table.contexts, s.calls[c].phase.ctx, s.calls[c].event).None?
    case Handle(r) => IO.Made(s.table, IO.Handle(r)) && IO.WellUsed(s.table, IO.Handle(r))
    case CancelDescriptor(p, _) => p < |s.table.contexts|
    case SetSize(n) => n >= 2
    case Look(b) => b in s.timers && b.call < |s.calls|
    case Raise(b) => b in s.looked && b.call < |s.calls|
    case Find(b) => b in s.raised && b.call < |s.calls|
    case Cancel(b, _) => b in s.found && b.call < |s.calls| && s.found[b] < |s.table.contexts|
    case Resume(c, _) => c < |s.calls| && s.calls[c].phase.Woken?
  }

  /** The callback of the attempt a call is in. */
  function Own(c: nat, call: Call): Callback { Callback(c, if call.attempts > 0 then call.attempts - 1 else 0) }

  /** timer->cancel() takes the callback away unless it has already been handed out to run. */
  function StopTimer(timers: set<Callback>, callback: Callback, stopped: bool): set<Callback> {
    if stopped then timers - {callback} else timers
  }

  /** The write of the flag: it does not matter if it was raised before. */
  function RaiseFlag(call: Call, attempt: nat): Call {
    if call.flag.Raised? then call else call.(flag := Raised(attempt, call.attempts))
  }

  function Apply(s: State, a: Action): State
    requires Enabled(s, a)
  {
    match a
    case Enter(fiber, fd, e, hasTimeout) =>
      s.(calls := s.calls + [Call(fiber, fd, e, hasTimeout, Trying, 0, Clear)])
    case TryDone(c) => s.(calls := s.calls[c := s.calls[c].(phase := Done(Data))])
    case SetTimer(c) =>
      var call := s.calls[c];
      s.(calls := s.calls[c := call.(phase := Arming, attempts := call.attempts + 1)],
         timers := if call.hasTimeout then s.timers + {Callback(c, call.attempts)} else s.timers)
    case Place(c) => s.(calls := s.calls[c := s.calls[c].(phase := Placed(s.table.slots[s.calls[c].fd]))])
    case Register(c, ctl, stopped) =>
      var call := s.calls[c];
      var p := call.phase.ctx;
      var (t, r) := AddAt(s.table, p, call.event, 0, FiberWaiter(call.fiber), ctl);
      if r == Success
      then s.(table := t, calls := s.calls[c := call.(phase := Waiting(p, s.table.next))])
      else s.(table := t, calls := s.calls[c := call.(phase := Done(Failed))], timers := StopTimer(s.timers, Own(c, call), stopped))
    case Handle(r) => AfterTable(s, IO.Do(s.table, IO.Handle(r)).0)
    case CancelDescriptor(p, ctl) => AfterTable(s, CancelAllAt(s.table, p, ctl).0)
    case SetSize(n) => AfterTable(s, Resize(s.table, n))
    case Look(b) =>
      var call := s.calls[b.call];
      s.(timers := s.timers - {b}, looked := if call.phase.Done? || call.flag.Raised? then s.looked else s.looked + {b})
    case Raise(b) =>
      s.(calls := s.calls[b.call := RaiseFlag(s.calls[b.call], b.attempt)], looked := s.looked - {b}, raised := s.raised + {b})
    case Find(b) =>
      var fd := s.calls[b.call].fd;
      s.(raised := s.raised - {b}, found := if Finds(s.table, fd) then s.found[b := s.table.slots[fd]] else s.found)
    case Cancel(b, ctl) =>
      AfterTable(s.(found := s.found - {b}), CancelAt(s.table, s.found[b], s.calls[b.call].event, ctl).0)
    case Resume(c, stopped) =>
      var call := s.calls[c];
      s.(calls := s.calls[c := call.(phase := if call.flag.Raised? then Done(TimedOut) else Trying)],
         timers := StopTimer(s.timers, Own(c, call), stopped))
  }

  // ----- the invariant -----

  /** What a parked call has registered. */
  function RegOf(call: Call, id: nat): Reg { Reg(id, 0, FiberWaiter(call.fiber)) }

  /** A parked call's registration is live in its context, for its own fiber; a woken call's has fired. */
  ghost predicate PhaseOk(t: Table, call: Call) {
    match call.phase
    case Placed(p) => MadeFor(t, p, call.fd)
    case Waiting(p, r) => MadeFor(t, p, call.fd) && LiveIn(t.contexts, p, call.event) == Some(RegOf(call, r))
    case Woken(r) => FiredReg(t.log, 0, RegOf(call, r))
    case _ => true
  }

  predicate ParkedAt(call: Call, p: nat, e: Event) { call.phase.Waiting? && call.phase.ctx == p && call.event == e }

  /** Every live registration is that of a parked call. */
  ghost predicate Owned(s: State) {
    forall p: nat, e: Event :: LiveIn(s.table.contexts, p, e).Some? ==>
      exists c :: 0 <= c < |s.calls| && ParkedAt(s.calls[c], p, e)
  }

  ghost predicate FibersApart(calls: seq<Call>) {
    forall c, d :: 0 <= c < |calls| && 0 <= d < |calls| && c != d && !calls[c].phase.Done? && !calls[d].phase.Done? ==>
      calls[c].fiber != calls[d].fiber
  }

  ghost predicate Parked(s: State) {
    && EventSafety.Inv(s.table)
    && (forall c :: 0 <= c < |s.calls| ==> PhaseOk(s.table, s.calls[c]))
    && Owned(s) && FibersApart(s.calls)
  }

  predicate InAttempt(call: Call) { call.phase.Arming? || call.phase.Placed? || call.phase.Waiting? || call.phase.Woken? }

  predicate Outstanding(s: State, b: Callback) { b in s.timers || UnderWay(s, b) }

  /** Begun, with the flag found clear, and not through. */
  predicate UnderWay(s: State, b: Callback) { b in s.looked || b in s.raised || b in s.found }

  ghost predicate TimedOk(s: State, call: Call, c: nat) {
    && (call.flag.Raised? ==> call.hasTimeout && call.flag.source < call.flag.after <= call.attempts)
    && (call.phase == Done(TimedOut) ==> call.flag.Raised?)
    && (InAttempt(call) ==> call.attempts > 0)
    && (InAttempt(call) && call.hasTimeout && call.flag.Clear? ==> Own(c, call) in s.timers || Own(c, call) in s.looked)
  }

  ghost predicate CallbackOk(s: State, b: Callback) {
    && b.call < |s.calls| && s.calls[b.call].hasTimeout && b.attempt < s.calls[b.call].attempts
    && (b in s.raised || b in s.found ==> s.calls[b.call].flag.Raised?)
    && (b in s.found ==> MadeFor(s.table, s.found[b], s.calls[b.call].fd))
    && (b in s.timers ==> !UnderWay(s, b)) && (b in s.looked ==> b !in s.raised && b !in s.found) && (b in s.raised ==> b !in s.found)
  }

  /** Callbacks belong to attempts made and are at one stage each; while the flag is clear, the current attempt's has not raised it. */
  ghost predicate Timed(s: State) {
    && (forall b :: Outstanding(s, b) ==> CallbackOk(s, b))
    && (forall c :: 0 <= c < |s.calls| ==> TimedOk(s, s.calls[c], c))
  }

  ghost predicate CallsInv(s: State) { Parked(s) && Timed(s) }

  // ----- what new firings mean -----

  /** A registration that no new entry consumes is still live. */
  lemma {:induction false} StillLive(log: seq<Entry>, n: nat, p: nat, e: Event, r: Reg)
    requires WellLog(log) && n <= |log| && LiveReg(log[..n], p, e) == Some(r)
    requires forall i :: n <= i < |log| && Consumes(log[i]) ==> log[i].reg != r
    ensures LiveReg(log, p, e) == Some(r)
    decreases |log| - n
  {
    if n == |log| {
      assert log[..n] == log;
    } else {
      assert MayFollow(log[..n], log[n]);
      assert log[..n + 1] == log[..n] + [log[n]];
      LiveSnoc(log[..n], log[n], p, e);
      StillLive(log, n + 1, p, e, r);
    }
  }

  /** If only firings follow, what is live was live before, and nothing happened on its slot. */
  lemma {:induction false} WasLive(log: seq<Entry>, n: nat, m: nat, p: nat, e: Event)
    requires n <= m <= |log| && LiveReg(log[..m], p, e).Some?
    requires forall i :: n <= i < m ==> log[i].Fired?
    ensures LiveReg(log[..n], p, e) == LiveReg(log[..m], p, e)
    ensures forall i :: n <= i < m ==> !OnSlot(log[i], p, e)
    decreases m - n
  {
    if n < m {
      assert log[..m] == log[..m - 1] + [log[m - 1]];
      LiveSnoc(log[..m - 1], log[m - 1], p, e);
      WasLive(log, n, m - 1, p, e);
    }
  }

  /** What fires among new firings was live before them. */
  lemma FiredWasLive(log: seq<Entry>, n: nat, i: nat)
    requires WellLog(log) && n <= i < |log| && forall k :: n <= k < |log| ==> log[k].Fired?
    ensures LiveReg(log[..n], log[i].ctx, log[i].event) == Some(log[i].reg)
  {
    assert MayFollow(log[..i], log[i]);
    WasLive(log, n, i, log[i].ctx, log[i].event);
  }

  /** Only firings were added, and contexts stay what they were made for. */
  ghost predicate FiredOnlyFrom(s: State, t: Table) {
    && EventSafety.Inv(t) && s.table.log <= t.log
    && (forall i :: |s.table.log| <= i < |t.log| ==> t.log[i].Fired?)
    && |s.table.contexts| <= |t.contexts|
    && (forall p :: 0 <= p < |s.table.contexts| ==> t.contexts[p].fd == s.table.contexts[p].fd)
  }

  lemma LogAgrees(t: Table, p: nat, e: Event)
    requires EventSafety.Inv(t)
    ensures LiveReg(t.log, p, e) == LiveIn(t.contexts, p, e) && WellLog(t.log)
  {}

  /** The fiber of a parked call is scheduled by its own registration only. */
  lemma OwnFiring(s: State, t: Table, c: nat, i: nat)
    requires Parked(s) && FiredOnlyFrom(s, t) && c < |s.calls| && s.calls[c].phase.Waiting?
    requires |s.table.log| <= i < |t.log| && t.log[i].reg.waiter == FiberWaiter(s.calls[c].fiber)
    ensures t.log[i].reg == RegOf(s.calls[c], s.calls[c].phase.reg)
    ensures OnSlot(t.log[i], s.calls[c].phase.ctx, s.calls[c].event)
  {
    hide EventSafety.Inv, WellLog, LiveReg, LiveIn;
    var n, x := |s.table.log|, t.log[i];
    LogAgrees(t, x.ctx, x.event);
    FiredWasLive(t.log, n, i);
    assert t.log[..n] == s.table.log;
    LogAgrees(s.table, x.ctx, x.event);
    var d :| 0 <= d < |s.calls| && ParkedAt(s.calls[d], x.ctx, x.event);
    assert PhaseOk(s.table, s.calls[d]);
    assert s.calls[d].fiber == s.calls[c].fiber;
    assert c == d;
  }

  /** A call is woken by a table step iff its own registration fires in it. */
  lemma WokenExactly(s: State, t: Table, c: nat)
    requires Parked(s) && FiredOnlyFrom(s, t) && c < |s.calls| && s.calls[c].phase.Waiting?
    ensures FiredFor(t.log, |s.table.log|, s.calls[c].fiber)
       <==> FiredReg(t.log, |s.table.log|, RegOf(s.calls[c], s.calls[c].phase.reg))
  {
    hide Parked, FiredOnlyFrom;
    var call, n := s.calls[c], |s.table.log|;
    if FiredFor(t.log, n, call.fiber) {
      var i :| n <= i < |t.log| && t.log[i].Fired? && t.log[i].reg.waiter == FiberWaiter(call.fiber);
      OwnFiring(s, t, c, i);
    }
  }

  lemma CallStep(s: State, t: Table, c: nat)
    requires Parked(s) && FiredOnlyFrom(s, t) && c < |s.calls|
    ensures PhaseOk(t, Wake(s.calls[c], t.log, |s.table.log|))
  {
    hide EventSafety.Inv, LiveReg, WellLog, LiveIn, Owned, FibersApart;
    var call, n := s.calls[c], |s.table.log|;
    assert PhaseOk(s.table, call);
    if call.phase.Waiting? {
      WokenExactly(s, t, c);
      if !FiredFor(t.log, n, call.fiber) {
        var r := RegOf(call, call.phase.reg);
        assert t.log[..n] == s.table.log;
        LogAgrees(s.table, call.phase.ctx, call.event);
        LogAgrees(t, call.phase.ctx, call.event);
        StillLive(t.log, n, call.phase.ctx, call.event, r);
      }
    } else if call.phase.Woken? {
      var r := RegOf(call, call.phase.reg);
      var i :| 0 <= i < |s.table.log| && s.table.log[i].Fired? && s.table.log[i].reg == r;
      assert t.log[i] == s.table.log[i];
    }
  }

  /** What is live after firings belongs to a call that they have not woken. */
  lemma StillOwned(s: State, t: Table)
    requires Parked(s) && FiredOnlyFrom(s, t)
    ensures Owned(AfterTable(s, t))
  {
    hide EventSafety.Inv, LiveReg, WellLog, LiveIn, FibersApart;
    var u, n := AfterTable(s, t), |s.table.log|;
    assert t.log[..n] == s.table.log && t.log[..|t.log|] == t.log;
    forall p: nat, e: Event | LiveIn(t.contexts, p, e).Some?
      ensures exists c :: 0 <= c < |u.calls| && ParkedAt(u.calls[c], p, e)
    {
      LogAgrees(t, p, e);
      WasLive(t.log, n, |t.log|, p, e);
      LogAgrees(s.table, p, e);
      var c :| 0 <= c < |s.calls| && ParkedAt(s.calls[c], p, e);
      if FiredFor(t.log, n, s.calls[c].fiber) {
        var i :| n <= i < |t.log| && t.log[i].Fired? && t.log[i].reg.waiter == FiberWaiter(s.calls[c].fiber);
        OwnFiring(s, t, c, i);
        assert false;
      }
      assert ParkedAt(u.calls[c], p, e);
    }
  }

  /** A step of the table that only fires registrations keeps the calls in order. */
  lemma TableStep(s: State, t: Table)
    requires CallsInv(s) && FiredOnlyFrom(s, t)
    ensures CallsInv(AfterTable(s, t))
  {
    hide EventSafety.Inv, Owned, FiredFor, PhaseOk;
    var u := AfterTable(s, t);
    forall c | 0 <= c < |u.calls| ensures PhaseOk(t, u.calls[c]) {
      CallStep(s, t, c);
    }
    StillOwned(s, t);
    forall c | 0 <= c < |u.calls| ensures TimedOk(u, u.calls[c], c) {
      assert TimedOk(s, s.calls[c], c);
    }
    forall b | Outstanding(u, b) ensures CallbackOk(u, b) { assert CallbackOk(s, b); }
  }

  // ----- every step -----

  lemma TableOk(s: State)
    requires CallsInv(s)
    ensures EventSafety.Inv(s.table)
  {
    hide EventSafety.Inv;
  }

  lemma SetFired(s: State, t: Table, p: nat, wanted: set<Event>, how: How)
    requires EventSafety.Inv(t) && (t == s.table || FiredSet(s.table, t, p, wanted, how))
    ensures FiredOnlyFrom(s, t)
  {
    hide EventSafety.Inv, Firings;
    if t != s.table { FiringsAre(s.table.contexts, p, wanted, how); }
  }

  lemma KeepHandle(s: State, r: IO.Report)
    requires CallsInv(s) && Enabled(s, Handle(r))
    ensures CallsInv(Apply(s, Handle(r)))
  {
    hide CallsInv, EventSafety.Inv, Dispatch, FiredSet, FiredEach, FiredOnlyFrom;
    var t := s.table;
    TableOk(s);
    DispatchKeeps(t, r.ctx, r.events, r.errorOrHup, r.ctl);
    var u := Dispatch(t, r.ctx, r.events, r.errorOrHup, r.ctl).0;
    SetFired(s, u, r.ctx, if r.errorOrHup then t.contexts[r.ctx].events else r.events, Readiness);
    TableStep(s, u);
  }

  lemma KeepCancelDescriptor(s: State, p: nat, ctl: bool)
    requires CallsInv(s) && Enabled(s, CancelDescriptor(p, ctl))
    ensures CallsInv(Apply(s, CancelDescriptor(p, ctl)))
  {
    hide CallsInv, EventSafety.Inv, CancelAllAt, FiredSet, FiredOnlyFrom;
    TableOk(s);
    CancelAllAtKeeps(s.table, p, ctl);
    var u := CancelAllAt(s.table, p, ctl).0;
    SetFired(s, u, p, s.table.contexts[p].events, Cancellation);
    TableStep(s, u);
  }

  lemma KeepSetSize(s: State, n: nat)
    requires CallsInv(s) && n >= 2
    ensures CallsInv(Apply(s, SetSize(n)))
  {
    hide CallsInv, EventSafety.Inv, Resize, LiveIn;
    TableOk(s);
    ResizeKeeps(s.table, n);
    TableStep(s, Resize(s.table, n));
  }

  /** A step that leaves table, phases, attempts and fibers alone keeps the parked calls as they are. */
  lemma KeepParked(s: State, t: State)
    requires Parked(s) && t.table == s.table && |t.calls| == |s.calls|
    requires forall c :: 0 <= c < |s.calls| ==> t.calls[c] == s.calls[c].(flag := t.calls[c].flag)
    ensures Parked(t)
  {
    hide EventSafety.Inv, FiredReg, LiveIn;
    forall p: nat, e: Event | LiveIn(t.table.contexts, p, e).Some?
      ensures exists c :: 0 <= c < |t.calls| && ParkedAt(t.calls[c], p, e)
    {
      var c :| 0 <= c < |s.calls| && ParkedAt(s.calls[c], p, e);
      assert ParkedAt(t.calls[c], p, e);
    }
    forall c | 0 <= c < |t.calls| ensures PhaseOk(t.table, t.calls[c]) { assert PhaseOk(s.table, s.calls[c]); }
  }

  lemma KeepLook(s: State, b: Callback)
    requires CallsInv(s) && Enabled(s, Look(b))
    ensures CallsInv(Apply(s, Look(b)))
  {
    hide Parked;
    var t := Apply(s, Look(b));
    KeepParked(s, t);
    forall c | 0 <= c < |t.calls| ensures TimedOk(t, t.calls[c], c) { assert TimedOk(s, s.calls[c], c); }
    forall d | Outstanding(t, d) ensures CallbackOk(t, d) { assert CallbackOk(s, d); }
  }

  lemma KeepRaise(s: State, b: Callback)
    requires CallsInv(s) && Enabled(s, Raise(b))
    ensures CallsInv(Apply(s, Raise(b)))
  {
    hide Parked;
    var t := Apply(s, Raise(b));
    KeepParked(s, t);
    assert CallbackOk(s, b);
    forall c | 0 <= c < |t.calls| ensures TimedOk(t, t.calls[c], c) { assert TimedOk(s, s.calls[c], c); }
    forall d | Outstanding(t, d) ensures CallbackOk(t, d) { assert d != b ==> CallbackOk(s, d); }
  }

  lemma KeepFind(s: State, b: Callback)
    requires CallsInv(s) && Enabled(s, Find(b))
    ensures CallsInv(Apply(s, Find(b)))
  {
    hide Parked, EventSafety.Inv;
    var t := Apply(s, Find(b));
    KeepParked(s, t);
    assert CallbackOk(s, b);
    assert EventSafety.Inv(s.table) by { TableOk(s); }
    FindsBelow(s.table, s.calls[b.call].fd);
    forall c | 0 <= c < |t.calls| ensures TimedOk(t, t.calls[c], c) { assert TimedOk(s, s.calls[c], c); }
    forall d | Outstanding(t, d) ensures CallbackOk(t, d) { assert d != b ==> CallbackOk(s, d); }
  }

  lemma KeepCancel(s: State, b: Callback, ctl: bool)
    requires CallsInv(s) && Enabled(s, Cancel(b, ctl))
    ensures CallsInv(Apply(s, Cancel(b, ctl)))
  {
    hide Parked, EventSafety.Inv, CancelAt, FiredOnly;
    var s1 := s.(found := s.found - {b});
    KeepParked(s, s1);
    forall c | 0 <= c < |s.calls| ensures TimedOk(s1, s.calls[c], c) { assert TimedOk(s, s.calls[c], c); }
    forall d | Outstanding(s1, d) ensures CallbackOk(s1, d) { assert CallbackOk(s, d); }
    var e := s.calls[b.call].event;
    TableOk(s);
    CancelAtKeeps(s.table, s.found[b], e, ctl);
    var t := CancelAt(s.table, s.found[b], e, ctl).0;
    OneFiring(s1, t, s.found[b], e);
    TableStep(s1, t);
  }

  lemma OneFiring(s: State, t: Table, p: nat, e: Event)
    requires EventSafety.Inv(t) && (t == s.table || FiredOnly(s.table, t.(interest := s.table.interest), p, e, Cancellation))
    ensures FiredOnlyFrom(s, t)
  {
    hide EventSafety.Inv;
  }

  /** Registering one wait changes its own slot only. */
  lemma SlotsAfterAdd(t: Table, p: nat, e: Event, waiter: Waiter, ctl: bool)
    requires EventSafety.Inv(t) && p < |t.contexts|
    ensures var (t', r) := AddAt(t, p, e, 0, waiter, ctl);
      && t.log <= t'.log
      && forall q: nat, d: Event :: LiveIn(t'.contexts, q, d) ==
           if r == Success && q == p && d == e then Some(Reg(t.next, 0, waiter)) else LiveIn(t.contexts, q, d)
  {
    hide EventSafety.Inv, LiveReg, WellLog, LiveIn, AddAt;
    AddAtKeeps(t, p, e, 0, waiter, ctl);
    var (t', r) := AddAt(t, p, e, 0, waiter, ctl);
    forall q: nat, d: Event
      ensures LiveIn(t'.contexts, q, d) ==
        if r == Success && q == p && d == e then Some(Reg(t.next, 0, waiter)) else LiveIn(t.contexts, q, d)
    {
      LogAgrees(t, q, d);
      LogAgrees(t', q, d);
      LiveSnoc(t.log, Armed(p, e, Reg(t.next, 0, waiter)), q, d);
    }
  }

  lemma KeepRegister(s: State, c: nat, ctl: bool, stopped: bool)
    requires CallsInv(s) && Enabled(s, Register(c, ctl, stopped))
    ensures CallsInv(Apply(s, Register(c, ctl, stopped)))
  {
    hide Parked, EventSafety.Inv, AddAt, LiveIn;
    RegisterParks(s, c, ctl, stopped);
    var u := Apply(s, Register(c, ctl, stopped));
    SameFds(s, c, ctl, stopped);
    forall d | 0 <= d < |u.calls| ensures TimedOk(u, u.calls[d], d) {
      assert TimedOk(s, s.calls[d], d);
    }
    forall b | Outstanding(u, b) ensures CallbackOk(u, b) { assert CallbackOk(s, b); }
  }

  /** Contexts stay what they were made for. */
  lemma SameFds(s: State, c: nat, ctl: bool, stopped: bool)
    requires Parked(s) && Enabled(s, Register(c, ctl, stopped))
    ensures var u := Apply(s, Register(c, ctl, stopped));
      |u.table.contexts| == |s.table.contexts| && forall q :: 0 <= q < |s.table.contexts| ==> u.table.contexts[q].fd == s.table.contexts[q].fd
  {
    hide EventSafety.Inv, AddAt, LiveIn;
    var call := s.calls[c];
    AddAtKeeps(s.table, call.phase.ctx, call.event, 0, FiberWaiter(call.fiber), ctl);
  }

  lemma RegisterParks(s: State, c: nat, ctl: bool, stopped: bool)
    requires Parked(s) && Enabled(s, Register(c, ctl, stopped))
    ensures Parked(Apply(s, Register(c, ctl, stopped)))
  {
    hide EventSafety.Inv, AddAt, LiveIn, FiredReg;
    var call := s.calls[c];
    var p := call.phase.ctx;
    assert PhaseOk(s.table, call);
    AddAtKeeps(s.table, p, call.event, 0, FiberWaiter(call.fiber), ctl);
    SlotsAfterAdd(s.table, p, call.event, FiberWaiter(call.fiber), ctl);
    var u := Apply(s, Register(c, ctl, stopped));
    forall d | 0 <= d < |u.calls| ensures PhaseOk(u.table, u.calls[d]) {
      if d != c {
        assert PhaseOk(s.table, s.calls[d]);
        StillFired(s.table.log, u.table.log, s.calls[d]);
      }
    }
    forall q: nat, e: Event | LiveIn(u.table.contexts, q, e).Some?
      ensures exists d :: 0 <= d < |u.calls| && ParkedAt(u.calls[d], q, e)
    {
      if LiveIn(s.table.contexts, q, e).Some? {
        var d :| 0 <= d < |s.calls| && ParkedAt(s.calls[d], q, e);
        assert ParkedAt(u.calls[d], q, e);
      } else {
        assert ParkedAt(u.calls[c], q, e);
      }
    }
  }

  lemma StillFired(log: seq<Entry>, log': seq<Entry>, call: Call)
    requires log <= log'
    ensures call.phase.Woken? && FiredReg(log, 0, RegOf(call, call.phase.reg)) ==> FiredReg(log', 0, RegOf(call, call.phase.reg))
  {
    if call.phase.Woken? && FiredReg(log, 0, RegOf(call, call.phase.reg)) {
      var i :| 0 <= i < |log| && log[i].Fired? && log[i].reg == RegOf(call, call.phase.reg);
      assert log'[i] == log[i];
    }
  }

  /** A step of one call that leaves the table and the callbacks under way alone. */
  lemma KeepOwn(s: State, c: nat, call: Call, timers: set<Callback>)
    requires CallsInv(s) && c <= |s.calls| && !call.phase.Waiting? && !call.phase.Woken? && PhaseOk(s.table, call)
    requires c < |s.calls| ==> !s.calls[c].phase.Waiting? && !s.calls[c].phase.Done? && call.fiber == s.calls[c].fiber && call.fd == s.calls[c].fd
    requires c < |s.calls| ==> call.hasTimeout == s.calls[c].hasTimeout && s.calls[c].attempts <= call.attempts && call.flag == s.calls[c].flag
    requires c == |s.calls| ==> Enabled(s, Enter(call.fiber, call.fd, call.event, call.hasTimeout)) && timers == s.timers
    requires TimedOk(s.(timers := timers), call, c)
    requires forall b :: b in timers ==>
      b in s.timers || (b.call == c && call.hasTimeout && b.attempt < call.attempts && !Outstanding(s, b))
    requires forall b :: b in s.timers && b.call != c ==> b in timers
    ensures c < |s.calls| ==> CallsInv(s.(calls := s.calls[c := call], timers := timers))
    ensures c == |s.calls| ==> CallsInv(s.(calls := s.calls + [call], timers := timers))
  {
    hide EventSafety.Inv, FiredReg, LiveIn;
    var calls := if c < |s.calls| then s.calls[c := call] else s.calls + [call];
    var t := s.(calls := calls, timers := timers);
    forall p: nat, e: Event | LiveIn(s.table.contexts, p, e).Some?
      ensures exists d :: 0 <= d < |calls| && ParkedAt(calls[d], p, e)
    {
      var d :| 0 <= d < |s.calls| && ParkedAt(s.calls[d], p, e);
      assert ParkedAt(calls[d], p, e);
    }
    forall d | 0 <= d < |calls| ensures TimedOk(t, calls[d], d) {
      if d != c { assert TimedOk(s, s.calls[d], d); }
    }
    forall b | Outstanding(t, b) ensures CallbackOk(t, b) {
      if Outstanding(s, b) { assert CallbackOk(s, b); }
    }
  }

  lemma KeepTry(s: State, c: nat, to: Phase)
    requires CallsInv(s) && c < |s.calls| && s.calls[c].phase.Trying? && (to == Arming || to == Done(Data))
    ensures CallsInv(Apply(s, if to.Arming? then SetTimer(c) else TryDone(c)))
  {
    hide Parked;
    var call := s.calls[c];
    assert TimedOk(s, call, c);
    if to.Arming? {
      var own := Callback(c, call.attempts);
      assert Outstanding(s, own) ==> CallbackOk(s, own);
      var timers := if call.hasTimeout then s.timers + {Callback(c, call.attempts)} else s.timers;
      KeepOwn(s, c, call.(phase := Arming, attempts := call.attempts + 1), timers);
    } else {
      KeepOwn(s, c, call.(phase := to), s.timers);
    }
  }

  lemma KeepPlace(s: State, c: nat)
    requires CallsInv(s) && Enabled(s, Place(c))
    ensures CallsInv(Apply(s, Place(c)))
  {
    hide Parked;
    var call := s.calls[c];
    assert TimedOk(s, call, c);
    TableOk(s);
    FindsBelow(s.table, call.fd);
    KeepOwn(s, c, call.(phase := Placed(s.table.slots[call.fd])), s.timers);
  }

  lemma KeepResume(s: State, c: nat, stopped: bool)
    requires CallsInv(s) && Enabled(s, Resume(c, stopped))
    ensures CallsInv(Apply(s, Resume(c, stopped)))
  {
    hide Parked;
    var call := s.calls[c];
    assert TimedOk(s, call, c);
    KeepOwn(s, c, call.(phase := if call.flag.Raised? then Done(TimedOut) else Trying), StopTimer(s.timers, Own(c, call), stopped));
  }

  lemma StepKeeps(s: State, a: Action)
    requires CallsInv(s) && Enabled(s, a)
    ensures CallsInv(Apply(s, a))
  {
    hide CallsInv;
    match a
    case Enter(fiber, fd, e, hasTimeout) => KeepOwn(s, |s.calls|, Call(fiber, fd, e, hasTimeout, Trying, 0, Clear), s.timers);
    case TryDone(c) => KeepTry(s, c, Done(Data));
    case SetTimer(c) => KeepTry(s, c, Arming);
    case Place(c) => KeepPlace(s, c);
    case Register(c, ctl, stopped) => KeepRegister(s, c, ctl, stopped);
    case Handle(r) => KeepHandle(s, r);
    case CancelDescriptor(p, ctl) => KeepCancelDescriptor(s, p, ctl);
    case SetSize(n) => KeepSetSize(s, n);
    case Look(b) => KeepLook(s, b);
    case Raise(b) => KeepRaise(s, b);
    case Find(b) => KeepFind(s, b);
    case Cancel(b, ctl) => KeepCancel(s, b, ctl);
    case Resume(c, stopped) => KeepResume(s, c, stopped);
  }

  // ----- whole runs -----

  const Start := State(FreshTable(32), [], {}, {}, {}, map[])

  ghost predicate Legal(s: State, acts: seq<Action>)
    decreases |acts|
  {
    acts == [] || (Enabled(s, acts[0]) && Legal(Apply(s, acts[0]), acts[1..]))
  }

  ghost function Run(s: State, acts: seq<Action>): State
    requires Legal(s, acts)
    decreases |acts|
  {
    if acts == [] then s else Run(Apply(s, acts[0]), acts[1..])
  }

  lemma {:induction false} RunKeeps(s: State, acts: seq<Action>)
    requires CallsInv(s) && Legal(s, acts)
    ensures CallsInv(Run(s, acts))
    decreases |acts|
  {
    hide CallsInv, Enabled, Apply;
    if acts != [] {
      StepKeeps(s, acts[0]);
      RunKeeps(Apply(s, acts[0]), acts[1..]);
    }
  }

  lemma StartInv()
    ensures CallsInv(Start)
  {
    hide EventSafety.Inv;
    FreshInv(32);
    FreshIsEmpty(32);
  }
}
