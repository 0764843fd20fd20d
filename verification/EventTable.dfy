/**
 The event table of the I/O manager (Helens/iomanager.h, Helens/iomanager.cc), on values: one step
 per critical section. A context is known by its address; it stays allocated, and known to the
 kernel, when a resize drops it from the vector that descriptors are looked up in. Two history parts
 ride along: every registration has a number, and a log records registrations and how they were consumed.
 */
module EventTable {
  import opened Options

  datatype Event = READ | WRITE

  /** Who is to be scheduled when the event fires: a parked fiber, or a callback. */
  datatype Waiter = FiberWaiter(fiber: nat) | CbWaiter(cb: nat)

  /** An EventContext, with the number of the registration that filled it. */
  datatype Slot = Slot(scheduler: Option<nat>, fiber: Option<nat>, cb: Option<nat>, reg: nat)

  datatype FdContext = FdContext(fd: nat, read: Slot, write: Slot, events: set<Event>)

  datatype How = Readiness | Cancellation

  /** A registration: its number, and whom addEvent was asked to schedule on which scheduler. */
  datatype Reg = Reg(id: nat, scheduler: nat, waiter: Waiter)

  /** In `Armed` the registration is what the caller asked for, in `Fired` what was really scheduled. */
  datatype Entry =
    | Armed(ctx: nat, event: Event, reg: Reg)
    | Fired(ctx: nat, event: Event, reg: Reg, how: How)
    | Dropped(ctx: nat, event: Event, reg: Reg)

  /** What the kernel keeps of a descriptor: the events it watches, and the context it reports them with. */
  datatype Watch = Watch(mask: set<Event>, ctx: nat)

  /** `contexts`: all that were ever made, by address; `slots`: the vector of pointers, by descriptor. */
  datatype Table = Table(
    contexts: seq<FdContext>,
    slots: seq<nat>,
    pending: int,
    interest: map<nat, Watch>,
    next: nat,
    log: seq<Entry>)

  datatype Outcome = Success | Failure | Abort

  const EmptySlot := Slot(None, None, None, 0)

  function GetSlot(c: FdContext, e: Event): Slot { if e == READ then c.read else c.write }

  function SetSlot(c: FdContext, e: Event, slot: Slot): FdContext {
    if e == READ then c.(read := slot) else c.(write := slot)
  }

  /** resetContext: all three parts empty. */
  function Cleared(slot: Slot): Slot { Slot(None, None, None, slot.reg) }

  function Filled(scheduler: nat, waiter: Waiter, reg: nat): Slot {
    match waiter
    case FiberWaiter(f) => Slot(Some(scheduler), Some(f), None, reg)
    case CbWaiter(c) => Slot(Some(scheduler), None, Some(c), reg)
  }

  /** The registration a slot holds. */
  function Held(slot: Slot): Reg {
    Reg(slot.reg,
        if slot.scheduler.Some? then slot.scheduler.value else 0,
        if slot.cb.Some? then CbWaiter(slot.cb.value)
        else if slot.fiber.Some? then FiberWaiter(slot.fiber.value) else FiberWaiter(0))
  }

  // ----- the kernel's side -----

  datatype CtlOp = CtlAdd | CtlMod | CtlDel

  /** The kernel refuses to add a descriptor it knows, and to change one it does not know. */
  predicate CtlValid(interest: map<nat, Watch>, op: CtlOp, fd: nat) {
    if op == CtlAdd then fd !in interest else fd in interest
  }

  function Ctl(interest: map<nat, Watch>, op: CtlOp, fd: nat, watch: Watch): map<nat, Watch> {
    if op == CtlDel then interest - {fd} else interest[fd := watch]
  }

  // ----- the vector of contexts -----

  function EmptyContext(fd: nat): FdContext { FdContext(fd, EmptySlot, EmptySlot, {}) }

  /** contextResize: drop the pointers past `n`, or make new contexts up to it. */
  function Resize(t: Table, n: nat): (r: Table)
    ensures |r.slots| == n
  {
    if n <= |t.slots| then t.(slots := t.slots[..n])
    else
      var more := n - |t.slots|;
      t.(contexts := t.contexts + seq(more, i requires 0 <= i < more => EmptyContext(|t.slots| + i)),
         slots := t.slots + seq(more, i requires 0 <= i < more => |t.contexts| + i))
  }

  /** What addEvent asks the table to grow to when the descriptor is out of range. */
  function GrownSize(fd: nat): nat { fd * 3 / 2 }

  function WithRoom(t: Table, fd: nat): (r: Table)
    ensures fd < |t.slots| ==> r == t
  {
    if fd < |t.slots| then t else Resize(t, GrownSize(fd))
  }

  /** The context a descriptor is looked up to. */
  predicate Finds(t: Table, fd: nat) { fd < |t.slots| && t.slots[fd] < |t.contexts| }

  // ----- the critical sections of one context -----

  /** `ctl` says whether epoll_ctl succeeds, provided the kernel does not refuse the operation. */
  function AddAt(t: Table, p: nat, e: Event, scheduler: nat, waiter: Waiter, ctl: bool): (Table, Outcome)
    requires p < |t.contexts|
  {
    var c := t.contexts[p];
    if e in c.events then (t, Abort)
    else
      var op := if c.events != {} then CtlMod else CtlAdd;
      if !(ctl && CtlValid(t.interest, op, c.fd)) then (t, Failure)
      else
        var armed := t.(pending := t.pending + 1,
                        interest := Ctl(t.interest, op, c.fd, Watch(c.events + {e}, p)),
                        next := t.next + 1,
                        log := t.log + [Armed(p, e, Reg(t.next, scheduler, waiter))]);
        var before := GetSlot(c, e);
        if before.scheduler.Some? || before.fiber.Some? || before.cb.Some? then (armed, Abort)
        else
          var c' := SetSlot(c, e, Filled(scheduler, waiter, t.next)).(events := c.events + {e});
          (armed.(contexts := t.contexts[p := c']), Success)
  }

  function DelAt(t: Table, p: nat, e: Event, ctl: bool): (Table, Outcome)
    requires p < |t.contexts|
  {
    var c := t.contexts[p];
    var left := c.events - {e};
    var op := if left != {} then CtlMod else CtlDel;
    if e !in c.events || !(ctl && CtlValid(t.interest, op, c.fd)) then (t, Failure)
    else
      var c' := SetSlot(c, e, Cleared(GetSlot(c, e))).(events := left);
      (t.(pending := t.pending - 1,
          interest := Ctl(t.interest, op, c.fd, Watch(left, p)),
          contexts := t.contexts[p := c'],
          log := t.log + [Dropped(p, e, Held(GetSlot(c, e)))]),
       Success)
  }

  /** triggerEvent and the decrement that follows it: hand the waiter to its scheduler. */
  function Trigger(t: Table, p: nat, e: Event, how: How): (Table, Outcome)
    requires p < |t.contexts|
  {
    var c := t.contexts[p];
    var slot := GetSlot(c, e);
    if e !in c.events || slot.scheduler.None? || (slot.cb.None? && slot.fiber.None?) then (t, Abort)
    else
      var waiter := if slot.cb.Some? then CbWaiter(slot.cb.value) else FiberWaiter(slot.fiber.value);
      var emptied := if slot.cb.Some? then slot.(cb := None, scheduler := None) else slot.(fiber := None, scheduler := None);
      var c' := SetSlot(c, e, emptied).(events := c.events - {e});
      (t.(contexts := t.contexts[p := c'],
          pending := t.pending - 1,
          log := t.log + [Fired(p, e, Reg(slot.reg, slot.scheduler.value, waiter), how)]),
       Success)
  }

  /** Tell the kernel that of context `p` only the events `left` are watched. */
  function Unwatch(t: Table, p: nat, left: set<Event>): Table
    requires p < |t.contexts|
  {
    t.(interest := Ctl(t.interest, if left != {} then CtlMod else CtlDel, t.contexts[p].fd, Watch(left, p)))
  }

  predicate UnwatchValid(t: Table, p: nat, left: set<Event>)
    requires p < |t.contexts|
  {
    CtlValid(t.interest, if left != {} then CtlMod else CtlDel, t.contexts[p].fd)
  }

  function CancelAt(t: Table, p: nat, e: Event, ctl: bool): (Table, Outcome)
    requires p < |t.contexts|
  {
    var left := t.contexts[p].events - {e};
    if e !in t.contexts[p].events || !(ctl && UnwatchValid(t, p, left)) then (t, Failure)
    else Trigger(Unwatch(t, p, left), p, e, Cancellation)
  }

  /** Trigger READ and then WRITE, each only if wanted; used by cancelAll and by the dispatch. */
  function TriggerBoth(t: Table, p: nat, wanted: set<Event>, how: How): (Table, Outcome)
    requires p < |t.contexts|
  {
    var (t1, r1) := if READ in wanted then Trigger(t, p, READ, how) else (t, Success);
    if r1 != Success || p >= |t1.contexts| then (t1, Abort)
    else if WRITE in wanted then Trigger(t1, p, WRITE, how) else (t1, Success)
  }

  function CancelAllAt(t: Table, p: nat, ctl: bool): (Table, Outcome)
    requires p < |t.contexts|
  {
    var c := t.contexts[p];
    if c.events == {} || !(ctl && UnwatchValid(t, p, {})) then (t, Failure)
    else
      var (t', r) := TriggerBoth(Unwatch(t, p, {}), p, c.events, Cancellation);
      if r == Success && p < |t'.contexts| && t'.contexts[p].events != {} then (t', Abort) else (t', r)
  }

  /** The events a report stands for: an error or hang-up counts as everything armed. */
  function RealEvents(c: FdContext, reported: set<Event>, errorOrHup: bool): set<Event> {
    reported + (if errorOrHup then c.events else {})
  }

  /** The part of `idle` that handles one report of epoll_wait, which names a context. */
  function Dispatch(t: Table, p: nat, reported: set<Event>, errorOrHup: bool, ctl: bool): (Table, Outcome)
    requires p < |t.contexts|
  {
    var c := t.contexts[p];
    var hit := RealEvents(c, reported, errorOrHup);
    var left := c.events - hit;
    if c.events * hit == {} || !(ctl && UnwatchValid(t, p, left)) then (t, Failure)
    else TriggerBoth(Unwatch(t, p, left), p, hit, Readiness)
  }

  // ----- the operations by descriptor: the lookup, and then the critical section -----

  function AddEvent(t0: Table, fd: nat, e: Event, scheduler: nat, waiter: Waiter, ctl: bool): (Table, Outcome) {
    var t := WithRoom(t0, fd);
    if Finds(t, fd) then AddAt(t, t.slots[fd], e, scheduler, waiter, ctl) else (t, Abort)
  }

  function DelEvent(t: Table, fd: nat, e: Event, ctl: bool): (Table, Outcome) {
    if Finds(t, fd) then DelAt(t, t.slots[fd], e, ctl) else (t, Failure)
  }

  function CancelEvent(t: Table, fd: nat, e: Event, ctl: bool): (Table, Outcome) {
    if Finds(t, fd) then CancelAt(t, t.slots[fd], e, ctl) else (t, Failure)
  }

  function CancelAll(t: Table, fd: nat, ctl: bool): (Table, Outcome) {
    if Finds(t, fd) then CancelAllAt(t, t.slots[fd], ctl) else (t, Failure)
  }
}
