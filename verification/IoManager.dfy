/** The I/O manager object: the event table changed in place, and whole runs of it. */
module IoManager {
  import opened Options
  import opened EventTable
  import opened EventLog
  import opened EventSafety

  /** One report of epoll_wait: the context the descriptor is watched with, and what happened. */
  datatype Report = Report(ctx: nat, events: set<Event>, errorOrHup: bool, ctl: bool)

  class IOManager {
    // the contexts in memory, and the vector of pointers to them
    var contexts: seq<FdContext>
    var fdContexts: seq<nat>
    var pendingEventCount: int
    var interest: map<nat, Watch>
    // history: how many registrations there have been, and what became of them
    var registrations: nat
    ghost var log: seq<Entry>

    ghost function View(): Table
      reads this
    {
      Table(contexts, fdContexts, pendingEventCount, interest, registrations, log)
    }

    ghost predicate Valid()
      reads this
    {
      Inv(View())
    }

    constructor ()
      ensures Valid() && View() == FreshTable(32)
    {
      contexts, fdContexts := [], [];
      pendingEventCount := 0;
      interest := map[];
      registrations := 0;
      log := [];
      new;
      ContextResize(32);
      FreshInv(32);
    }

    /** The vector gets another size; new places get new contexts, dropped ones stay in memory. */
    method ContextResize(n: nat)
      modifies this`contexts, this`fdContexts
      ensures View() == Resize(old(View()), n)
    {
      ghost var before := View();
      if n < |fdContexts| {
        fdContexts := fdContexts[..n];
      }
      while |fdContexts| < n
        invariant View() == Resize(before, |fdContexts|)
        invariant |fdContexts| <= n
        decreases n - |fdContexts|
      {
        contexts, fdContexts := contexts + [EmptyContext(|fdContexts|)], fdContexts + [|contexts|];
        assert contexts == Resize(before, |fdContexts|).contexts && fdContexts == Resize(before, |fdContexts|).slots;
      }
    }

    method AddEvent(fd: nat, e: Event, scheduler: nat, waiter: Waiter, ctl: bool) returns (r: Outcome)
      requires Valid()
      modifies this
      ensures Valid()
      ensures (View(), r) == EventTable.AddEvent(old(View()), fd, e, scheduler, waiter, ctl)
      ensures r == Abort <==> fd < |old(fdContexts)| && LiveIn(old(contexts), old(fdContexts)[fd], e).Some?
      ensures |fdContexts| == if fd < |old(fdContexts)| then |old(fdContexts)| else fd + fd / 2
    {
      hide Core, InterestOk, Ctl, SetSlot, GetSlot, Filled, Resize, GrownSize, LiveIn;
      AddEventKeeps(View(), fd, e, scheduler, waiter, ctl);
      NewIsEmpty(View(), fd, e);
      FindsBelow(View(), fd);
      if fd >= |fdContexts| {
        ContextResize(GrownSize(fd));
      }
      var p := fdContexts[fd];
      var c := contexts[p];
      if e in c.events { return Abort; }
      var op := if c.events != {} then CtlMod else CtlAdd;
      if !(ctl && CtlValid(interest, op, c.fd)) { return Failure; }
      interest := Ctl(interest, op, c.fd, Watch(c.events + {e}, p));
      pendingEventCount := pendingEventCount + 1;
      log := log + [Armed(p, e, Reg(registrations, scheduler, waiter))];
      var reg := registrations;
      registrations := registrations + 1;
      var slot := GetSlot(c, e);
      if slot.scheduler.Some? || slot.fiber.Some? || slot.cb.Some? { return Abort; }
      contexts := contexts[p := SetSlot(c, e, Filled(scheduler, waiter, reg)).(events := c.events + {e})];
      return Success;
    }

    method DelEvent(fd: nat, e: Event, ctl: bool) returns (r: bool)
      requires Valid()
      modifies this
      ensures Valid()
      ensures (View(), if r then Success else Failure) == EventTable.DelEvent(old(View()), fd, e, ctl)
      ensures r <==> fd < |old(fdContexts)| && LiveIn(old(contexts), old(fdContexts)[fd], e).Some? && ctl
    {
      hide Core, InterestOk, Ctl, SetSlot, GetSlot, Cleared;
      DelEventKeeps(View(), fd, e, ctl);
      FindsBelow(View(), fd);
      if |fdContexts| <= fd { return false; }
      var p := fdContexts[fd];
      var c := contexts[p];
      if e !in c.events { return false; }
      var left := c.events - {e};
      var op := if left != {} then CtlMod else CtlDel;
      if !(ctl && CtlValid(interest, op, c.fd)) { return false; }
      interest := Ctl(interest, op, c.fd, Watch(left, p));
      pendingEventCount := pendingEventCount - 1;
      var slot := GetSlot(c, e);
      contexts := contexts[p := SetSlot(c, e, Cleared(slot)).(events := left)];
      log := log + [Dropped(p, e, Held(slot))];
      return true;
    }

    /** triggerEvent together with the decrement of the pending count. */
    method TriggerEvent(p: nat, e: Event, how: How) returns (r: Outcome)
      requires Core(View()) && p < |contexts|
      modifies this
      ensures (View(), r) == Trigger(old(View()), p, e, how)
      ensures Core(View()) && (r == Success <==> e in old(contexts)[p].events)
      ensures if r == Success then FiredOnly(old(View()), View(), p, e, how) else View() == old(View())
    {
      hide Core, FiredOnly;
      TriggerKeeps(View(), p, e, how);
      var c := contexts[p];
      var slot := GetSlot(c, e);
      if e !in c.events || slot.scheduler.None? || (slot.cb.None? && slot.fiber.None?) { return Abort; }
      var waiter;
      if slot.cb.Some? {
        waiter := CbWaiter(slot.cb.value);
        log := log + [Fired(p, e, Reg(slot.reg, slot.scheduler.value, waiter), how)];
        slot := slot.(cb := None);
      } else {
        waiter := FiberWaiter(slot.fiber.value);
        log := log + [Fired(p, e, Reg(slot.reg, slot.scheduler.value, waiter), how)];
        slot := slot.(fiber := None);
      }
      slot := slot.(scheduler := None);
      contexts := contexts[p := SetSlot(c, e, slot).(events := c.events - {e})];
      pendingEventCount := pendingEventCount - 1;
      return Success;
    }

    /** epoll_ctl for what is left of a context; false if it fails. */
    method Watched(p: nat, left: set<Event>, ctl: bool) returns (ok: bool)
      requires p < |contexts|
      modifies this`interest
      ensures ok <==> ctl && UnwatchValid(old(View()), p, left)
      ensures View() == if ok then Unwatch(old(View()), p, left) else old(View())
    {
      var op := if left != {} then CtlMod else CtlDel;
      ok := ctl && CtlValid(interest, op, contexts[p].fd);
      if ok {
        interest := Ctl(interest, op, contexts[p].fd, Watch(left, p));
      }
    }

    method CancelEvent(fd: nat, e: Event, ctl: bool) returns (r: bool)
      requires Valid()
      modifies this
      ensures Valid()
      ensures (View(), if r then Success else Failure) == EventTable.CancelEvent(old(View()), fd, e, ctl)
      ensures r <==> fd < |old(fdContexts)| && LiveIn(old(contexts), old(fdContexts)[fd], e).Some? && ctl
    {
      hide Core, InterestOk, Trigger, Ctl;
      CancelEventKeeps(View(), fd, e, ctl);
      FindsBelow(View(), fd);
      if |fdContexts| <= fd { return false; }
      var p := fdContexts[fd];
      if e !in contexts[p].events { return false; }
      var ok := Watched(p, contexts[p].events - {e}, ctl);
      if !ok { return false; }
      CoreIgnoresKernel(old(View()), View());
      var fired := TriggerEvent(p, e, Cancellation);
      return true;
    }

    method CancelAll(fd: nat, ctl: bool) returns (r: bool)
      requires Valid()
      modifies this
      ensures Valid()
      ensures (View(), if r then Success else Failure) == EventTable.CancelAll(old(View()), fd, ctl)
      ensures r <==> fd < |old(fdContexts)| && old(contexts[fdContexts[fd]]).events != {} && ctl
    {
      hide Core, InterestOk, TriggerBoth, Ctl;
      CancelAllKeeps(View(), fd, ctl);
      FindsBelow(View(), fd);
      if |fdContexts| <= fd { return false; }
      var p := fdContexts[fd];
      var wanted := contexts[p].events;
      if wanted == {} { return false; }
      var ok := Watched(p, {}, ctl);
      if !ok { return false; }
      CoreIgnoresKernel(old(View()), View());
      var both := TriggerWanted(p, wanted, Cancellation);
      return true;
    }

    method TriggerWanted(p: nat, wanted: set<Event>, how: How) returns (r: Outcome)
      requires Core(View()) && p < |contexts|
      modifies this
      ensures (View(), r) == TriggerBoth(old(View()), p, wanted, how)
      ensures r == Success <==> wanted <= old(contexts)[p].events
      ensures r == Success ==> FiredSet(old(View()), View(), p, wanted, how)
    {
      hide Core, Trigger, FiredSet;
      TriggerBothKeeps(View(), p, wanted, how);
      r := Success;
      if READ in wanted {
        r := TriggerEvent(p, READ, how);
      }
      if r != Success || p >= |contexts| { return Abort; }
      if WRITE in wanted {
        r := TriggerEvent(p, WRITE, how);
      }
    }

    /** One report; a report that mixes armed and unarmed events trips the assertion. */
    method Dispatch(report: Report) returns (r: Outcome)
      requires Valid() && report.ctx < |contexts|
      modifies this
      ensures (View(), r) == EventTable.Dispatch(old(View()), report.ctx, report.events, report.errorOrHup, report.ctl)
      ensures var c := old(contexts)[report.ctx];
        && (r == Failure <==> !report.ctl || c.events == {} || (!report.errorOrHup && c.events * report.events == {}))
        && (r == Abort <==> r != Failure && !(report.events <= c.events))
        && (r == Success ==>
              var concerned := if report.errorOrHup then c.events else report.events;
              FiredEach(old(View()), View(), report.ctx, concerned, Readiness))
      ensures r == Failure ==> View() == old(View())
      ensures r != Abort ==> Valid() && |contexts| == |old(contexts)|
      ensures r != Abort ==> old(log) <= log && pendingEventCount == old(pendingEventCount) - (|log| - |old(log)|)
    {
      hide Core, InterestOk, TriggerBoth, Ctl, Firings, FiredEach;
      var p := report.ctx;
      var c := contexts[p];
      var hit := RealEvents(c, report.events, report.errorOrHup);
      DispatchKeeps(View(), p, report.events, report.errorOrHup, report.ctl);
      FiringsAre(contexts, p, hit, Readiness);
      if c.events * hit == {} { return Failure; }
      var ok := Watched(p, c.events - hit, report.ctl);
      if !ok { return Failure; }
      CoreIgnoresKernel(old(View()), View());
      r := TriggerWanted(p, hit, Readiness);
    }

    /** The dispatch loop of `idle`: the reports in order, until one trips the assertion. */
    method DispatchAll(reports: seq<Report>) returns (r: Outcome)
      requires Valid()
      requires forall i :: 0 <= i < |reports| ==> reports[i].ctx < |contexts|
      modifies this
      ensures r == Abort <==> DispatchRun(old(View()), reports).1 == Abort
      ensures r != Abort ==> View() == DispatchRun(old(View()), reports).0
      ensures r != Abort ==> Valid() && old(log) <= log
      ensures r != Abort ==> pendingEventCount == old(pendingEventCount) - (|log| - |old(log)|)
    {
      hide Inv, EventTable.Dispatch, FiredEach;
      for i := 0 to |reports|
        invariant DispatchRun(old(View()), reports[..i]) == (View(), Success)
        invariant Valid() && |contexts| == |old(contexts)| && old(log) <= log
        invariant pendingEventCount == old(pendingEventCount) - (|log| - |old(log)|)
      {
        assert reports[..i + 1][..i] == reports[..i];
        var one := Dispatch(reports[i]);
        if one == Abort {
          AbortStays(old(View()), reports, i + 1);
          return Abort;
        }
      }
      assert reports[..|reports|] == reports;
      return Success;
    }
  }

  /** The reports one after the other, up to the first that aborts. */
  function DispatchRun(t: Table, reports: seq<Report>): (Table, Outcome) {
    if reports == [] then (t, Success)
    else
      var (u, r) := DispatchRun(t, reports[..|reports| - 1]);
      var one := reports[|reports| - 1];
      if r == Abort || one.ctx >= |u.contexts| then (u, Abort)
      else
        var (v, r1) := Dispatch(u, one.ctx, one.events, one.errorOrHup, one.ctl);
        (v, if r1 == Abort then Abort else Success)
  }

  lemma {:induction false} AbortStays(t: Table, reports: seq<Report>, i: nat)
    requires i <= |reports| && DispatchRun(t, reports[..i]).1 == Abort
    ensures DispatchRun(t, reports).1 == Abort
    decreases |reports| - i
  {
    hide Dispatch;
    if i == |reports| {
      assert reports[..i] == reports;
    } else {
      assert reports[..i + 1][..i] == reports[..i];
      AbortStays(t, reports, i + 1);
    }
  }

  /** A context made for a descriptor out of range has nothing armed. */
  lemma NewIsEmpty(t: Table, fd: nat, e: Event)
    requires Inv(t)
    ensures fd >= |t.slots| ==>
      var u := WithRoom(t, fd); fd < |u.slots| && LiveIn(t.contexts, u.slots[fd], e).None?
  {}

  // ----- whole runs -----

  /**
   The critical sections, in any order. A context may have been looked up long before it is worked
   on, so any context made for the descriptor can be meant; and a resize may go by a size that was
   read long before, so it can be to any size.
   */
  datatype Op =
    | SetSize(n: nat)
    | Add(ctx: nat, e: Event, scheduler: nat, waiter: Waiter, ctl: bool)
    | Del(ctx: nat, e: Event, ctl: bool)
    | Cancel(ctx: nat, e: Event, ctl: bool)
    | CancelEverything(ctx: nat, ctl: bool)
    | Handle(report: Report)

  predicate Made(t: Table, op: Op) {
    match op
    case SetSize(n) => n >= 2
    case Handle(r) => r.ctx < |t.contexts|
    case _ => op.ctx < |t.contexts|
  }

  function Do(t: Table, op: Op): (Table, Outcome)
    requires Made(t, op)
  {
    match op
    case SetSize(n) => (Resize(t, n), Success)
    case Add(p, e, s, w, ctl) => AddAt(t, p, e, s, w, ctl)
    case Del(p, e, ctl) => DelAt(t, p, e, ctl)
    case Cancel(p, e, ctl) => CancelAt(t, p, e, ctl)
    case CancelEverything(p, ctl) => CancelAllAt(t, p, ctl)
    case Handle(r) => Dispatch(t, r.ctx, r.events, r.errorOrHup, r.ctl)
  }

  /** What callers and the kernel have to see to: no double registration, no mixed report. */
  predicate WellUsed(t: Table, op: Op)
    requires Made(t, op)
  {
    match op
    case Add(p, e, _, _, _) => LiveIn(t.contexts, p, e).None?
    case Handle(r) =>
      var c := t.contexts[r.ctx];
      || r.events <= c.events || !r.ctl
      || c.events == {} || (!r.errorOrHup && c.events * r.events == {})
    case _ => true
  }

  /** An operation fails an assertion iff it is not well used, and otherwise keeps the invariant. */
  lemma DoKeeps(t: Table, op: Op)
    requires Inv(t) && Made(t, op)
    ensures WellUsed(t, op) ==> Inv(Do(t, op).0)
    ensures Do(t, op).1 == Abort <==> !WellUsed(t, op)
  {
    hide Inv, AddAt, DelAt, CancelAt, CancelAllAt, Dispatch, Resize, FiredSet, FiredOnly, Elsewhere;
    match op
    case SetSize(n) => ResizeKeeps(t, n);
    case Add(p, e, s, w, ctl) => AddAtKeeps(t, p, e, s, w, ctl);
    case Del(p, e, ctl) => DelAtKeeps(t, p, e, ctl);
    case Cancel(p, e, ctl) => CancelAtKeeps(t, p, e, ctl);
    case CancelEverything(p, ctl) => CancelAllAtKeeps(t, p, ctl);
    case Handle(r) => DispatchKeeps(t, r.ctx, r.events, r.errorOrHup, r.ctl);
  }

  ghost predicate WellRun(t: Table, ops: seq<Op>)
    decreases |ops|
  {
    ops == [] || (Made(t, ops[0]) && WellUsed(t, ops[0]) && WellRun(Do(t, ops[0]).0, ops[1..]))
  }

  ghost function RunOps(t: Table, ops: seq<Op>): Table
    requires WellRun(t, ops)
    decreases |ops|
  {
    if ops == [] then t else RunOps(Do(t, ops[0]).0, ops[1..])
  }

  lemma {:induction false} RunKeeps(t: Table, ops: seq<Op>)
    requires Inv(t) && WellRun(t, ops)
    ensures Inv(RunOps(t, ops))
    decreases |ops|
  {
    hide Inv, Do, Made, WellUsed;
    if ops != [] {
      DoKeeps(t, ops[0]);
      RunKeeps(Do(t, ops[0]).0, ops[1..]);
    }
  }

  /** `i` is the consumption of the registration made at `k`: same slot, number, scheduler and waiter. */
  predicate Ends(log: seq<Entry>, k: int, i: int) {
    0 <= k < i < |log| && Consumes(log[i]) && log[k] == Armed(log[i].ctx, log[i].event, log[i].reg)
  }

  /**
   In every well-used run, with resizes to any size at any moment: the pending count is the number of
   armed bits; the kernel watches exactly those, for the contexts that hold them, at most one a
   descriptor; a slot holds what its last addEvent asked for; no registration is consumed twice,
   whatever mixture of reports, cancellations and deletions the run contains; what is consumed was
   registered with that very scheduler and waiter; and a slot is armed again only after that.
   */
  lemma EveryRun(ops: seq<Op>)
    requires WellRun(FreshTable(32), ops)
    ensures var t := RunOps(FreshTable(32), ops);
      && t.pending == ArmedBits(t.contexts) && InterestOk(t) && ContextsOk(t.contexts)
      && (forall p: nat, e: Event :: LiveReg(t.log, p, e) == LiveIn(t.contexts, p, e))
      && (forall p, q :: 0 <= p < q < |t.contexts| && t.contexts[p].fd == t.contexts[q].fd ==>
            t.contexts[p].events == {} || t.contexts[q].events == {})
      && (forall i, j :: 0 <= i < j < |t.log| && Consumes(t.log[i]) && Consumes(t.log[j]) ==> t.log[i].reg.id != t.log[j].reg.id)
      && (forall i :: 0 <= i < |t.log| && Consumes(t.log[i]) ==> exists k :: Ends(t.log, k, i))
      && (forall i, j :: 0 <= i < j < |t.log| && t.log[i].Armed? && t.log[j].Armed? && OnSlot(t.log[j], t.log[i].ctx, t.log[i].event) ==>
            exists m :: m < j && Ends(t.log, i, m))
  {
    hide RunOps, WellRun, WellLog, LiveReg;
    FreshInv(32);
    RunKeeps(FreshTable(32), ops);
    LogPromises(RunOps(FreshTable(32), ops).log);
  }

  lemma LogPromises(log: seq<Entry>)
    requires WellLog(log)
    ensures forall i, j :: 0 <= i < j < |log| && Consumes(log[i]) && Consumes(log[j]) ==> log[i].reg.id != log[j].reg.id
    ensures forall i :: 0 <= i < |log| && Consumes(log[i]) ==> exists k :: Ends(log, k, i)
    ensures forall i, j :: 0 <= i < j < |log| && log[i].Armed? && log[j].Armed? && OnSlot(log[j], log[i].ctx, log[i].event) ==>
      exists m :: m < j && Ends(log, i, m)
  {
    hide WellLog;
    forall i, j | 0 <= i < j < |log| && Consumes(log[i]) && Consumes(log[j]) ensures log[i].reg.id != log[j].reg.id {
      ConsumedOnce(log, i, j);
    }
    forall i | 0 <= i < |log| && Consumes(log[i]) ensures exists k :: Ends(log, k, i) {
      var k := ConsumptionSource(log, i);
      assert Ends(log, k, i);
    }
    forall i, j | 0 <= i < j < |log| && log[i].Armed? && log[j].Armed? && OnSlot(log[j], log[i].ctx, log[i].event)
      ensures exists m :: m < j && Ends(log, i, m)
    {
      var m := ConsumedBeforeRearm(log, i, j);
      assert Ends(log, i, m);
    }
  }

  // ----- two runs worth knowing -----

  /**
   The size 32 is read for descriptor 40; before the table is resized for it another addEvent grows
   the table to 150 and arms descriptor 100. The resize to 60 then takes the lookup of 100 away:
   delEvent, cancelEvent and cancelAll miss the registration, and a new addEvent for it, which grows
   the table again, is refused. A report still fires it, and the pending count is right throughout.
   */
  lemma ResizeRace(e: Event, scheduler: nat, waiter: Waiter, late: Waiter)
    ensures var t := AddEvent(FreshTable(32), 100, e, scheduler, waiter, true).0;
      var cut := Resize(t, GrownSize(40));
      && Inv(t) && Inv(cut) && |t.slots| == 150 && |cut.slots| == 60 && cut.pending == t.pending == 1
      && 100 < |cut.contexts| && LiveIn(cut.contexts, 100, e) == Some(Reg(0, scheduler, waiter))
      && DelEvent(cut, 100, e, true) == (cut, Failure) && CancelEvent(cut, 100, e, true) == (cut, Failure)
      && CancelAll(cut, 100, true) == (cut, Failure)
      && AddEvent(cut, 100, e, scheduler, late, true) == (WithRoom(cut, 100), Failure)
      && Dispatch(cut, 100, {e}, false, true).1 == Success && Dispatch(cut, 100, {e}, false, true).0.pending == 0
  {
    hide Core, ArmedBits, InterestOk, AddAt, Dispatch, Firings;
    FreshInv(32);
    var first := FreshTable(32);
    AddEventKeeps(first, 100, e, scheduler, waiter, true);
    var u, t := WithRoom(first, 100), AddEvent(first, 100, e, scheduler, waiter, true).0;
    assert u.slots[100] == 100 && u.interest == map[];
    AddCounts(u, 100, e, scheduler, waiter);
    ResizeKeeps(t, 60);
    var cut := Resize(t, 60);
    assert LiveIn(cut.contexts, 100, e) == Some(Reg(0, scheduler, waiter));
    assert cut.contexts[100].fd == 100 && !Attached(cut, 100);
    LookupDecides(cut, 100, e, scheduler, late);
    assert |{e}| == 1;
  }

  lemma AddCounts(t: Table, p: nat, e: Event, scheduler: nat, waiter: Waiter)
    requires p < |t.contexts| && AddAt(t, p, e, scheduler, waiter, true).1 == Success
    ensures AddAt(t, p, e, scheduler, waiter, true).0.pending == t.pending + 1
  {}

  /** Both events are armed, READ is cancelled, and a report of both made before that arrives: it aborts. */
  lemma StaleReportAborts(fd: nat, scheduler: nat, reader: Waiter, writer: Waiter)
    requires fd < 32
    ensures var t1 := AddEvent(FreshTable(32), fd, READ, scheduler, reader, true).0;
      var t2 := AddEvent(t1, fd, WRITE, scheduler, writer, true).0;
      var t3 := CancelEvent(t2, fd, READ, true).0;
      && Inv(t3) && fd < |t3.contexts|
      && Dispatch(t3, fd, {READ, WRITE}, false, true).1 == Abort
  {
    hide Core, InterestOk, AddAt, CancelAt, Dispatch, Elsewhere;
    FreshInv(32);
    var t0 := FreshTable(32);
    assert t0.slots[fd] == fd;
    ArmBoth(t0, fd, scheduler, reader, writer);
    var t1 := AddEvent(t0, fd, READ, scheduler, reader, true).0;
    var t2 := AddEvent(t1, fd, WRITE, scheduler, writer, true).0;
    CancelEventKeeps(t2, fd, READ, true);
    var t3 := CancelEvent(t2, fd, READ, true).0;
    assert WRITE in t3.contexts[fd].events && READ !in t3.contexts[fd].events;
    DispatchKeeps(t3, fd, {READ, WRITE}, false, true);
    assert WRITE in t3.contexts[fd].events * RealEvents(t3.contexts[fd], {READ, WRITE}, false);
  }

  lemma ArmBoth(t: Table, fd: nat, scheduler: nat, reader: Waiter, writer: Waiter)
    requires Inv(t) && fd < |t.slots| && t.slots[fd] == fd && t.interest == map[]
    ensures var t1 := AddEvent(t, fd, READ, scheduler, reader, true).0;
      var t2 := AddEvent(t1, fd, WRITE, scheduler, writer, true).0;
      && Inv(t2) && t2.slots == t.slots && fd < |t2.contexts| && READ in t2.contexts[fd].events && WRITE in t2.contexts[fd].events
  {
    hide Core;
    FindsBelow(t, fd);
    AddEventKeeps(t, fd, READ, scheduler, reader, true);
    var t1 := AddEvent(t, fd, READ, scheduler, reader, true).0;
    AddEventKeeps(t1, fd, WRITE, scheduler, writer, true);
    OpAccepted(t1, fd);
  }
}
