/** What every critical section of the event table keeps, and when the table's assertions hold. */
module EventSafety {
  import opened Options
  import opened EventTable
  import opened EventLog

  /** A bit is armed iff its slot holds a scheduler and exactly one of fiber and callback. */
  ghost predicate SlotOk(c: FdContext, e: Event) {
    var slot := GetSlot(c, e);
    if e in c.events then slot.scheduler.Some? && slot.fiber.Some? != slot.cb.Some?
    else slot.scheduler.None? && slot.fiber.None? && slot.cb.None?
  }

  ghost predicate ContextsOk(contexts: seq<FdContext>) {
    forall p :: 0 <= p < |contexts| ==> SlotOk(contexts[p], READ) && SlotOk(contexts[p], WRITE)
  }

  /** Armed bits over all contexts, looked up or not. */
  function ArmedBits(contexts: seq<FdContext>): nat {
    if contexts == [] then 0 else |contexts[0].events| + ArmedBits(contexts[1..])
  }

  /** The kernel watches exactly the armed bits, and reports them with the context that is armed. */
  ghost predicate InterestOk(t: Table) {
    && (forall fd :: fd in t.interest ==> WatchOk(t, fd))
    && (forall p :: 0 <= p < |t.contexts| && t.contexts[p].events != {} ==>
          t.contexts[p].fd in t.interest && t.interest[t.contexts[p].fd].ctx == p)
  }

  ghost predicate WatchOk(t: Table, fd: nat)
    requires fd in t.interest
  {
    var w := t.interest[fd];
    w.ctx < |t.contexts| && t.contexts[w.ctx].fd == fd && w.mask == t.contexts[w.ctx].events != {}
  }

  /** A descriptor is looked up to a context made for it. */
  ghost predicate VectorOk(t: Table) {
    && |t.slots| >= 2
    && forall fd :: 0 <= fd < |t.slots| ==> t.slots[fd] < |t.contexts| && t.contexts[t.slots[fd]].fd == fd
  }

  /** The registration in a slot: number, scheduler and waiter. */
  function LiveIn(contexts: seq<FdContext>, p: nat, e: Event): Option<Reg> {
    if p < |contexts| && e in contexts[p].events then Some(Held(GetSlot(contexts[p], e))) else None
  }

  /** The log is well-formed, and what it leaves in each slot is what the table holds there. */
  ghost predicate LogOk(t: Table) {
    && WellLog(t.log) && t.next == CountArmed(t.log)
    && forall p: nat, e: Event :: LiveReg(t.log, p, e) == LiveIn(t.contexts, p, e)
  }

  /** Everything but the kernel's side. */
  ghost predicate Core(t: Table) {
    && VectorOk(t)
    && ContextsOk(t.contexts)
    && t.pending == ArmedBits(t.contexts)
    && LogOk(t)
  }

  ghost predicate Inv(t: Table) { Core(t) && InterestOk(t) }

  /** A table for `n` descriptors with nothing armed; the constructor makes 32. */
  function FreshTable(n: nat): Table { Resize(Table([], [], 0, map[], 0, []), n) }

  lemma {:induction false} NothingArmed(contexts: seq<FdContext>)
    requires forall p :: 0 <= p < |contexts| ==> contexts[p].events == {}
    ensures ArmedBits(contexts) == 0
  {
    if contexts != [] { NothingArmed(contexts[1..]); }
  }

  lemma FreshInv(n: nat)
    requires n >= 2
    ensures Inv(FreshTable(n))
  {
    hide ArmedBits;
    var t := FreshTable(n);
    assert t.contexts == seq(n, i requires 0 <= i < n => EmptyContext(i));
    assert forall p :: 0 <= p < n ==> t.contexts[p] == EmptyContext(p) && t.slots[p] == p;
    NothingArmed(t.contexts);
  }

  lemma FreshIsEmpty(n: nat)
    ensures var t := FreshTable(n);
      && |t.contexts| == |t.slots| == n && t.interest == map[]
      && (forall fd :: 0 <= fd < n ==> t.slots[fd] == fd && t.contexts[fd] == EmptyContext(fd))
      && forall p: nat, e: Event :: LiveIn(t.contexts, p, e) == None
  {
    var t := FreshTable(n);
    assert t.contexts == seq(n, i requires 0 <= i < n => EmptyContext(i));
  }

  // ----- counting -----

  lemma {:induction false} ArmedUpdate(contexts: seq<FdContext>, p: nat, c: FdContext)
    requires p < |contexts|
    ensures ArmedBits(contexts[p := c]) + |contexts[p].events| == ArmedBits(contexts) + |c.events|
  {
    var cs := contexts[p := c];
    if p == 0 {
      assert cs[1..] == contexts[1..];
    } else {
      assert cs[1..] == contexts[1..][p - 1 := c];
      ArmedUpdate(contexts[1..], p - 1, c);
    }
  }

  lemma {:induction false} ArmedAppend(a: seq<FdContext>, b: seq<FdContext>)
    ensures ArmedBits(a + b) == ArmedBits(a) + ArmedBits(b)
  {
    if a == [] {
      assert a + b == b;
    } else {
      assert (a + b)[1..] == a[1..] + b;
      ArmedAppend(a[1..], b);
    }
  }

  // ----- resizing -----

  /** The context holds registrations for its descriptor and is still looked up for it. */
  predicate Attached(t: Table, p: nat)
    requires p < |t.contexts|
  {
    t.contexts[p].fd < |t.slots| && t.slots[t.contexts[p].fd] == p
  }

  /**
   Whatever size the vector gets, every registration stays, with the kernel and with the count. What
   a shrinking resize takes away is the lookup: a context stays attached iff its descriptor is below
   the new size.
   */
  lemma ResizeKeeps(t: Table, n: nat)
    requires Inv(t) && n >= 2
    ensures var t' := Resize(t, n);
      && Inv(t') && t'.pending == t.pending && t'.interest == t.interest && t'.log == t.log
      && t.contexts <= t'.contexts
      && (forall p: nat, e: Event :: LiveIn(t'.contexts, p, e) == LiveIn(t.contexts, p, e))
      && (forall p :: 0 <= p < |t.contexts| ==> (Attached(t', p) <==> Attached(t, p) && t.contexts[p].fd < n))
  {
    hide LiveReg, WellLog, CountArmed, ArmedBits;
    var t' := Resize(t, n);
    if n > |t.slots| {
      var more := t'.contexts[|t.contexts|..];
      assert t'.contexts == t.contexts + more;
      assert forall i :: 0 <= i < |more| ==> more[i] == EmptyContext(|t.slots| + i);
      NothingArmed(more);
      ArmedAppend(t.contexts, more);
      assert forall p :: |t.contexts| <= p < |t'.contexts| ==> t'.contexts[p] == more[p - |t.contexts|];
      assert forall fd :: |t.slots| <= fd < n ==> t'.slots[fd] == |t.contexts| + (fd - |t.slots|);
    }
    assert forall p :: 0 <= p < |t.contexts| ==> t'.contexts[p] == t.contexts[p];
    forall fd | fd in t'.interest ensures WatchOk(t', fd) { assert WatchOk(t, fd); }
  }

  lemma NoEvents(s: set<Event>)
    requires READ !in s && WRITE !in s
    ensures s == {}
  {
    EventSets(s);
  }

  // ----- one slot changes -----

  /** The table after slot (p, e) is armed or disarmed and entry `x` is logged. */
  lemma SlotChange(t: Table, t': Table, p: nat, e: Event, x: Entry)
    requires Core(t) && p < |t.contexts| && x.ctx == p && x.event == e
    requires MayFollow(t.log, x) && t'.log == t.log + [x] && t'.slots == t.slots
    requires t'.next == t.next + (if x.Armed? then 1 else 0)
    requires t'.pending == t.pending + (if x.Armed? then 1 else -1)
    requires |t'.contexts| == |t.contexts| && t'.contexts == t.contexts[p := t'.contexts[p]]
    requires var c, c' := t.contexts[p], t'.contexts[p];
      && c'.fd == c.fd
      && c'.events == (if x.Armed? then c.events + {e} else c.events - {e})
      && (e in c.events <==> !x.Armed?)
      && SlotOk(c', e) && (x.Armed? ==> Held(GetSlot(c', e)) == x.reg)
      && forall d: Event :: d != e ==> GetSlot(c', d) == GetSlot(c, d)
    ensures Core(t')
  {
    hide LiveReg, WellLog, CountArmed, ArmedBits, MayFollow;
    var c, c' := t.contexts[p], t'.contexts[p];
    ArmedUpdate(t.contexts, p, c');
    WellLogSnoc(t.log, x);
    forall q: nat, d: Event ensures LiveReg(t'.log, q, d) == LiveIn(t'.contexts, q, d) {
      LiveSnoc(t.log, x, q, d);
      assert LiveReg(t.log, q, d) == LiveIn(t.contexts, q, d);
    }
    LiveSnoc(t.log, x, p, e);
    forall q | 0 <= q < |t'.contexts| ensures SlotOk(t'.contexts[q], READ) && SlotOk(t'.contexts[q], WRITE) {
      assert SlotOk(t.contexts[q], READ) && SlotOk(t.contexts[q], WRITE);
    }
  }

  lemma ArmedNow(t: Table, p: nat, e: Event)
    requires Core(t) && p < |t.contexts|
    ensures SlotOk(t.contexts[p], e)
    ensures e in t.contexts[p].events ==> LiveReg(t.log, p, e) == Some(Held(GetSlot(t.contexts[p], e)))
    ensures e !in t.contexts[p].events ==> LiveReg(t.log, p, e) == None && t.next == CountArmed(t.log)
  {
    hide LiveReg, WellLog, CountArmed, ArmedBits;
    assert LiveReg(t.log, p, e) == LiveIn(t.contexts, p, e);
    assert e == READ || e == WRITE;
  }

  // ----- the kernel's side -----

  /** The kernel watches the descriptor for another context than this one. */
  predicate Elsewhere(t: Table, p: nat)
    requires p < |t.contexts|
  {
    t.contexts[p].fd in t.interest && t.interest[t.contexts[p].fd].ctx != p
  }

  /**
   The kernel accepts every operation chosen for a context, but one: adding the descriptor while it
   watches it for another context.
   */
  lemma OpAccepted(t: Table, p: nat)
    requires Inv(t) && p < |t.contexts|
    ensures t.contexts[p].events != {} ==> CtlValid(t.interest, CtlMod, t.contexts[p].fd) && !Elsewhere(t, p)
    ensures t.contexts[p].events != {} ==> CtlValid(t.interest, CtlDel, t.contexts[p].fd)
    ensures t.contexts[p].events == {} ==> (CtlValid(t.interest, CtlAdd, t.contexts[p].fd) <==> !Elsewhere(t, p))
  {
    hide Core;
    if t.contexts[p].fd in t.interest { assert WatchOk(t, t.contexts[p].fd); }
  }

  /** After the kernel and context `p` have both changed to the same events, they agree again. */
  lemma InterestAfter(t: Table, u: Table, p: nat)
    requires InterestOk(t) && p < |t.contexts| && !Elsewhere(t, p)
    requires |u.contexts| == |t.contexts| && u.contexts == t.contexts[p := u.contexts[p]]
    requires u.contexts[p].fd == t.contexts[p].fd
    requires var fd, now := t.contexts[p].fd, u.contexts[p].events;
      u.interest == if now != {} then t.interest[fd := Watch(now, p)] else t.interest - {fd}
    ensures InterestOk(u)
  {
    var fd := t.contexts[p].fd;
    forall f | f in u.interest ensures WatchOk(u, f) {
      if f != fd { assert WatchOk(t, f); }
    }
    forall q | 0 <= q < |u.contexts| && u.contexts[q].events != {}
      ensures u.contexts[q].fd in u.interest && u.interest[u.contexts[q].fd].ctx == q
    {
      if q != p { assert u.contexts[q] == t.contexts[q]; }
    }
  }

  // ----- the critical sections -----

  /**
   addEvent on a context aborts only on a bit that is already armed; it succeeds iff epoll_ctl does and
   the kernel does not watch the descriptor for another context; otherwise nothing is registered.
   */
  lemma AddAtKeeps(t: Table, p: nat, e: Event, scheduler: nat, waiter: Waiter, ctl: bool)
    requires Inv(t) && p < |t.contexts|
    ensures var (t', r) := AddAt(t, p, e, scheduler, waiter, ctl);
      && Inv(t') && t'.slots == t.slots && |t'.contexts| == |t.contexts|
      && (forall q :: 0 <= q < |t.contexts| ==> t'.contexts[q].fd == t.contexts[q].fd)
      && (r == Abort <==> LiveIn(t.contexts, p, e).Some?)
      && (r == Success <==> LiveIn(t.contexts, p, e).None? && ctl && !Elsewhere(t, p))
      && (r != Success ==> t' == t)
      && (r == Success ==>
            && t'.log == t.log + [Armed(p, e, Reg(t.next, scheduler, waiter))]
            && LiveIn(t'.contexts, p, e) == Some(Reg(t.next, scheduler, waiter)))
  {
    hide LiveReg, WellLog, CountArmed, ArmedBits, InterestOk, VectorOk;
    ArmedNow(t, p, e);
    OpAccepted(t, p);
    var (t', r) := AddAt(t, p, e, scheduler, waiter, ctl);
    if r == Success {
      SlotChange(t, t', p, e, Armed(p, e, Reg(t.next, scheduler, waiter)));
      InterestAfter(t, t', p);
    }
  }

  /** delEvent on a context succeeds iff the bit is armed and epoll_ctl succeeds; it schedules nothing. */
  lemma DelAtKeeps(t: Table, p: nat, e: Event, ctl: bool)
    requires Inv(t) && p < |t.contexts|
    ensures var (t', r) := DelAt(t, p, e, ctl);
      && Inv(t') && r != Abort && t'.slots == t.slots && |t'.contexts| == |t.contexts|
      && (r == Success <==> LiveIn(t.contexts, p, e).Some? && ctl)
      && (r == Failure ==> t' == t)
      && (r == Success ==> t'.log == t.log + [Dropped(p, e, LiveIn(t.contexts, p, e).value)])
  {
    hide LiveReg, WellLog, CountArmed, ArmedBits, InterestOk, VectorOk;
    OpAccepted(t, p);
    var (t', r) := DelAt(t, p, e, ctl);
    if e in t.contexts[p].events {
      assert UnwatchValid(t, p, t.contexts[p].events - {e});
    }
    if r == Success {
      ArmedNow(t, p, e);
      SlotChange(t, t', p, e, Dropped(p, e, Held(GetSlot(t.contexts[p], e))));
      InterestAfter(t, t', p);
    }
  }

  /** triggerEvent: fails iff the bit is not armed; otherwise it consumes that one registration. */
  lemma TriggerKeeps(t: Table, p: nat, e: Event, how: How)
    requires Core(t) && p < |t.contexts|
    ensures var (t', r) := Trigger(t, p, e, how);
      && Core(t')
      && (r == Success <==> e in t.contexts[p].events) && (r == Abort <==> e !in t.contexts[p].events)
      && (r == Abort ==> t' == t)
      && (r == Success ==> FiredOnly(t, t', p, e, how))
  {
    hide LiveReg, WellLog, CountArmed, ArmedBits, VectorOk;
    ArmedNow(t, p, e);
    var (t', r) := Trigger(t, p, e, how);
    if r == Success {
      SlotChange(t, t', p, e, t'.log[|t.log|]);
    }
  }

  /** From t to t' exactly one registration fired, with its own waiter, and only that slot was touched. */
  ghost predicate FiredOnly(t: Table, t': Table, p: nat, e: Event, how: How) {
    && p < |t.contexts| && |t'.contexts| == |t.contexts| && LiveIn(t.contexts, p, e).Some?
    && t'.interest == t.interest && t'.slots == t.slots && t'.pending == t.pending - 1
    && t'.contexts == t.contexts[p := t'.contexts[p]] && t'.contexts[p].fd == t.contexts[p].fd
    && t'.contexts[p].events == t.contexts[p].events - {e}
    && (forall d: Event :: d != e ==> GetSlot(t'.contexts[p], d) == GetSlot(t.contexts[p], d))
    && t'.log == t.log + [Fired(p, e, LiveIn(t.contexts, p, e).value, how)]
  }

  /** The entry for one event, if it is wanted: the registration its slot holds. */
  function Firing(contexts: seq<FdContext>, p: nat, e: Event, wanted: set<Event>, how: How): seq<Entry>
    requires p < |contexts|
  {
    if e in wanted then [Fired(p, e, Held(GetSlot(contexts[p], e)), how)] else []
  }

  /** What firing a set of armed events adds to the log: READ first, each with its own registration. */
  function Firings(contexts: seq<FdContext>, p: nat, wanted: set<Event>, how: How): seq<Entry>
    requires p < |contexts|
  {
    Firing(contexts, p, READ, wanted, how) + Firing(contexts, p, WRITE, wanted, how)
  }

  lemma FiringsAre(contexts: seq<FdContext>, p: nat, wanted: set<Event>, how: How)
    requires p < |contexts|
    ensures |Firings(contexts, p, wanted, how)| == |wanted|
    ensures var f := Firings(contexts, p, wanted, how);
      && (forall i :: 0 <= i < |f| ==> f[i].Fired? && f[i].event in wanted)
      && (forall i :: 0 <= i < |f| && f[i].Fired? ==> f[i] == Fired(p, f[i].event, Held(GetSlot(contexts[p], f[i].event)), how))
      && (forall e :: e in wanted ==> exists i :: 0 <= i < |f| && f[i].event == e)
  {
    EventSets(wanted);
    var f := Firings(contexts, p, wanted, how);
    if READ in wanted { assert f[0].event == READ; }
    if WRITE in wanted { assert f[|f| - 1].event == WRITE; }
    forall e | e in wanted ensures exists i :: 0 <= i < |f| && f[i].event == e { assert e == READ || e == WRITE; }
  }

  /** From t to t' exactly the wanted events of context `p` fired, and nothing else of the table changed. */
  ghost predicate FiredSet(t: Table, t': Table, p: nat, wanted: set<Event>, how: How) {
    && p < |t.contexts| && |t'.contexts| == |t.contexts| && t'.slots == t.slots
    && t'.contexts == t.contexts[p := t'.contexts[p]] && t'.contexts[p].fd == t.contexts[p].fd
    && t'.contexts[p].events == t.contexts[p].events - wanted
    && t'.pending == t.pending - |wanted|
    && t'.log == t.log + Firings(t.contexts, p, wanted, how)
  }

  /** Triggering a set of events succeeds iff all of them are armed. */
  lemma TriggerBothKeeps(t: Table, p: nat, wanted: set<Event>, how: How)
    requires Core(t) && p < |t.contexts|
    ensures var (t', r) := TriggerBoth(t, p, wanted, how);
      && Core(t') && t'.interest == t.interest && |t'.contexts| == |t.contexts|
      && (r == Success <==> wanted <= t.contexts[p].events) && (r == Abort <==> !(wanted <= t.contexts[p].events))
      && (r == Success ==> FiredSet(t, t', p, wanted, how))
  {
    hide Core, Trigger;
    EventSets(wanted);
    var (t1, r1) := if READ in wanted then Trigger(t, p, READ, how) else (t, Success);
    if READ in wanted { TriggerKeeps(t, p, READ, how); }
    if r1 == Success && WRITE in wanted { TriggerKeeps(t1, p, WRITE, how); }
    var (t', r) := TriggerBoth(t, p, wanted, how);
    if r == Success {
      assert t'.contexts[p].events == t.contexts[p].events - wanted;
      assert t'.log == t.log + Firings(t.contexts, p, wanted, how);
    }
  }

  lemma EventSets(s: set<Event>)
    ensures s == (if READ in s then {READ} else {}) + (if WRITE in s then {WRITE} else {})
    ensures |s| == (if READ in s then 1 else 0) + (if WRITE in s then 1 else 0)
  {
    var a: set<Event>, b: set<Event> := if READ in s then {READ} else {}, if WRITE in s then {WRITE} else {};
    forall e: Event ensures e in s <==> e in a + b { assert e == READ || e == WRITE; }
    assert s == a + b;
  }

  /** cancelEvent on a context never aborts; it succeeds iff the bit is armed and epoll_ctl does, and then fires it. */
  lemma CancelAtKeeps(t: Table, p: nat, e: Event, ctl: bool)
    requires Inv(t) && p < |t.contexts|
    ensures var (t', r) := CancelAt(t, p, e, ctl);
      && Inv(t') && r != Abort
      && (r == Success <==> LiveIn(t.contexts, p, e).Some? && ctl)
      && (r == Failure ==> t' == t)
      && (r == Success ==> FiredOnly(t, t'.(interest := t.interest), p, e, Cancellation))
  {
    hide Core, Trigger, InterestOk;
    var (t', r) := CancelAt(t, p, e, ctl);
    OpAccepted(t, p);
    if LiveIn(t.contexts, p, e).Some? && ctl {
      var u := Unwatch(t, p, t.contexts[p].events - {e});
      CoreIgnoresKernel(t, u);
      TriggerKeeps(u, p, e, Cancellation);
      InterestAfter(t, t', p);
    }
  }

  lemma CoreIgnoresKernel(t: Table, u: Table)
    requires Core(t) && u == t.(interest := u.interest)
    ensures Core(u)
  {}

  /** cancelAll on a context never aborts; it fires everything armed there and leaves nothing armed. */
  lemma CancelAllAtKeeps(t: Table, p: nat, ctl: bool)
    requires Inv(t) && p < |t.contexts|
    ensures var (t', r) := CancelAllAt(t, p, ctl);
      && Inv(t') && r != Abort
      && (r == Success <==> t.contexts[p].events != {} && ctl)
      && (r == Failure ==> t' == t)
      && (r == Success ==> FiredSet(t, t', p, t.contexts[p].events, Cancellation))
  {
    hide Core, TriggerBoth, InterestOk;
    var (t', r) := CancelAllAt(t, p, ctl);
    OpAccepted(t, p);
    if t.contexts[p].events != {} && ctl {
      var c := t.contexts[p];
      assert c.events - c.events == {} && UnwatchValid(t, p, {});
      var u := Unwatch(t, p, {});
      CoreIgnoresKernel(t, u);
      TriggerBothKeeps(u, p, c.events, Cancellation);
      InterestAfter(t, t', p);
    }
  }

  /** From t to t' every event of `wanted` fired once, with the registration it was armed with, and nothing else did. */
  ghost predicate FiredEach(t: Table, t': Table, p: nat, wanted: set<Event>, how: How) {
    && t.log <= t'.log && |t'.log| == |t.log| + |wanted|
    && (forall i :: |t.log| <= i < |t'.log| ==> t'.log[i].Fired? && t'.log[i].event in wanted)
    && (forall i :: |t.log| <= i < |t'.log| && t'.log[i].Fired? ==>
          && t'.log[i].ctx == p && t'.log[i].how == how
          && LiveIn(t.contexts, p, t'.log[i].event) == Some(t'.log[i].reg))
    && (forall e :: e in wanted ==> exists i :: |t.log| <= i < |t'.log| && t'.log[i].event == e)
  }

  lemma SetIsEach(t: Table, t': Table, p: nat, wanted: set<Event>, how: How)
    requires FiredSet(t, t', p, wanted, how) && wanted <= t.contexts[p].events
    ensures FiredEach(t, t', p, wanted, how)
  {
    hide Firings, Held, GetSlot;
    var n, f := |t.log|, Firings(t.contexts, p, wanted, how);
    FiringsAre(t.contexts, p, wanted, how);
    forall i | n <= i < |t'.log| ensures t'.log[i] == f[i - n] {}
    forall e | e in wanted ensures exists i :: n <= i < |t'.log| && t'.log[i].event == e {
      var j :| 0 <= j < |f| && f[j].event == e;
      assert t'.log[n + j] == f[j];
    }
  }

  /**
   Which reports do what. An error or hang-up concerns everything armed; any other report what it
   names. A report that concerns nothing armed is skipped; one that names an unarmed event besides
   an armed one aborts. Every other fires exactly what is concerned, and leaves the rest armed. It goes by
   the context in the report, attached or not.
   */
  lemma DispatchKeeps(t: Table, p: nat, reported: set<Event>, errorOrHup: bool, ctl: bool)
    requires Inv(t) && p < |t.contexts|
    ensures var c := t.contexts[p];
      var (t', r) := Dispatch(t, p, reported, errorOrHup, ctl);
      && (r == Failure <==> !ctl || c.events == {} || (!errorOrHup && c.events * reported == {}))
      && (r == Abort <==> r != Failure && !(reported <= c.events))
      && (r == Failure ==> t' == t)
      && (r == Success ==>
            var concerned := if errorOrHup then c.events else reported;
            && Inv(t') && FiredSet(t, t', p, concerned, Readiness) && FiredEach(t, t', p, concerned, Readiness)
            && t'.contexts[p].events == if errorOrHup then {} else c.events - reported)
  {
    hide Core, TriggerBoth, InterestOk, FiredEach;
    var c := t.contexts[p];
    var hit := RealEvents(c, reported, errorOrHup);
    assert hit <= c.events <==> reported <= c.events;
    assert errorOrHup ==> c.events * hit == c.events;
    OpAccepted(t, p);
    if c.events * hit != {} && ctl {
      assert UnwatchValid(t, p, c.events - hit);
      var u := Unwatch(t, p, c.events - hit);
      CoreIgnoresKernel(t, u);
      TriggerBothKeeps(u, p, hit, Readiness);
      if hit <= c.events {
        var t' := Dispatch(t, p, reported, errorOrHup, ctl).0;
        InterestAfter(t, t', p);
        assert hit == if errorOrHup then c.events else reported;
        SetIsEach(t, t', p, hit, Readiness);
      }
    }
  }

  // ----- the operations by descriptor -----

  lemma FindsBelow(t: Table, fd: nat)
    requires Inv(t)
    ensures Finds(t, fd) <==> fd < |t.slots|
    ensures fd < |t.slots| ==> t.contexts[t.slots[fd]].fd == fd && Attached(t, t.slots[fd])
  {}

  /** Making room only adds contexts, and the descriptor is found after. */
  lemma RoomKeeps(t: Table, fd: nat)
    requires Inv(t)
    ensures var u := WithRoom(t, fd);
      && Inv(u) && fd < |u.slots| && Finds(u, fd) && u.contexts[u.slots[fd]].fd == fd
      && t.contexts <= u.contexts && u.log == t.log && u.next == t.next && u.interest == t.interest
      && (forall p: nat, e: Event :: LiveIn(u.contexts, p, e) == LiveIn(t.contexts, p, e))
      && (forall p :: 0 <= p < |t.contexts| ==> (Attached(u, p) <==> Attached(t, p)))
  {
    hide Core, LiveIn, InterestOk;
    if fd >= |t.slots| {
      VectorNotSmall(t);
      ResizeKeeps(t, GrownSize(fd));
      StaysAttached(t);
    }
    FindsBelow(WithRoom(t, fd), fd);
  }

  lemma VectorNotSmall(t: Table)
    requires Inv(t)
    ensures |t.slots| >= 2
  {}

  lemma StaysAttached(t: Table)
    requires Inv(t)
    ensures forall p :: 0 <= p < |t.contexts| && Attached(t, p) ==> t.contexts[p].fd < |t.slots|
  {}

  /**
   The lookup decides. A registration of context `p` is found by delEvent, cancelEvent and cancelAll
   of its descriptor iff the context is attached; otherwise they return false and change nothing, and
   addEvent for the descriptor is refused by the kernel. A report reaches it in every case.
   */
  lemma LookupDecides(t: Table, p: nat, e: Event, scheduler: nat, waiter: Waiter)
    requires Inv(t) && LiveIn(t.contexts, p, e).Some?
    ensures var fd := t.contexts[p].fd;
      && (DelEvent(t, fd, e, true).1 == Success <==> Attached(t, p))
      && (CancelEvent(t, fd, e, true).1 == Success <==> Attached(t, p))
      && (CancelAll(t, fd, true).1 == Success <==> Attached(t, p))
      && (!Attached(t, p) ==>
            && DelEvent(t, fd, e, true) == (t, Failure) && CancelEvent(t, fd, e, true) == (t, Failure)
            && CancelAll(t, fd, true) == (t, Failure)
            && AddEvent(t, fd, e, scheduler, waiter, true) == (WithRoom(t, fd), Failure))
      && Dispatch(t, p, {e}, false, true).1 == Success
      && Inv(Dispatch(t, p, {e}, false, true).0)
      && FiredSet(t, Dispatch(t, p, {e}, false, true).0, p, {e}, Readiness)
  {
    hide Core, DelAt, CancelAt, CancelAllAt, AddAt, Dispatch, FiredSet, InterestOk, Resize;
    var fd, events := t.contexts[p].fd, t.contexts[p].events;
    FindsBelow(t, fd);
    assert e in events && events * {e} == {e} && RealEvents(t.contexts[p], {e}, false) == {e};
    DispatchKeeps(t, p, {e}, false, true);
    if fd < |t.slots| {
      var q := t.slots[fd];
      DelAtKeeps(t, q, e, true);
      CancelAtKeeps(t, q, e, true);
      CancelAllAtKeeps(t, q, true);
      if q != p { NotBoth(t, p, q); }
    }
    if !Attached(t, p) {
      RoomKeeps(t, fd);
      var u := WithRoom(t, fd);
      AddAtKeeps(u, u.slots[fd], e, scheduler, waiter, true);
      NotBoth(u, p, u.slots[fd]);
    }
  }

  /** Of all contexts of one descriptor, at most one is armed, and the kernel watches it for that one. */
  lemma NotBoth(t: Table, p: nat, q: nat)
    requires Inv(t) && p < |t.contexts| && q < |t.contexts| && p != q
    requires t.contexts[p].fd == t.contexts[q].fd && t.contexts[p].events != {}
    ensures t.contexts[q].events == {} && Elsewhere(t, q)
    ensures forall e: Event :: LiveIn(t.contexts, q, e) == None
  {
    hide Core;
  }

  /** addEvent by descriptor: the table after making room, and then the context found. */
  lemma AddEventKeeps(t: Table, fd: nat, e: Event, scheduler: nat, waiter: Waiter, ctl: bool)
    requires Inv(t)
    ensures var u := WithRoom(t, fd);
      var (t', r) := AddEvent(t, fd, e, scheduler, waiter, ctl);
      && Inv(u) && Finds(u, fd) && Inv(t') && t'.slots == u.slots && |t'.contexts| == |u.contexts|
      && |u.slots| == (if fd < |t.slots| then |t.slots| else fd + fd / 2)
      && (forall q :: 0 <= q < |u.contexts| ==> t'.contexts[q].fd == u.contexts[q].fd)
      && var p := u.slots[fd];
      && u.contexts[p].fd == fd
      && (r == Abort <==> LiveIn(t.contexts, p, e).Some?)
      && (r == Success <==> LiveIn(t.contexts, p, e).None? && ctl && !Elsewhere(u, p))
      && (r != Success ==> t' == u)
      && (r == Success ==>
            && t'.log == t.log + [Armed(p, e, Reg(t.next, scheduler, waiter))]
            && LiveIn(t'.contexts, p, e) == Some(Reg(t.next, scheduler, waiter)))
  {
    hide Core, AddAt, LiveIn, InterestOk, Resize;
    RoomKeeps(t, fd);
    var u := WithRoom(t, fd);
    AddAtKeeps(u, u.slots[fd], e, scheduler, waiter, ctl);
  }

  lemma DelEventKeeps(t: Table, fd: nat, e: Event, ctl: bool)
    requires Inv(t)
    ensures var (t', r) := DelEvent(t, fd, e, ctl);
      && Inv(t') && r != Abort && (r == Failure ==> t' == t)
      && (r == Success <==> Finds(t, fd) && LiveIn(t.contexts, t.slots[fd], e).Some? && ctl)
      && (r == Success ==> t'.log == t.log + [Dropped(t.slots[fd], e, LiveIn(t.contexts, t.slots[fd], e).value)])
  {
    hide Inv, DelAt, LiveIn;
    if Finds(t, fd) { DelAtKeeps(t, t.slots[fd], e, ctl); }
  }

  lemma CancelEventKeeps(t: Table, fd: nat, e: Event, ctl: bool)
    requires Inv(t)
    ensures var (t', r) := CancelEvent(t, fd, e, ctl);
      && Inv(t') && r != Abort && (r == Failure ==> t' == t)
      && (r == Success <==> Finds(t, fd) && LiveIn(t.contexts, t.slots[fd], e).Some? && ctl)
      && (r == Success ==> FiredOnly(t, t'.(interest := t.interest), t.slots[fd], e, Cancellation))
  {
    hide Inv, CancelAt, LiveIn, FiredOnly;
    if Finds(t, fd) { CancelAtKeeps(t, t.slots[fd], e, ctl); }
  }

  lemma CancelAllKeeps(t: Table, fd: nat, ctl: bool)
    requires Inv(t)
    ensures var (t', r) := CancelAll(t, fd, ctl);
      && Inv(t') && r != Abort && (r == Failure ==> t' == t)
      && (r == Success <==> Finds(t, fd) && t.contexts[t.slots[fd]].events != {} && ctl)
      && (r == Success ==> FiredSet(t, t', t.slots[fd], t.contexts[t.slots[fd]].events, Cancellation))
  {
    hide Inv, CancelAllAt, FiredSet;
    if Finds(t, fd) { CancelAllAtKeeps(t, t.slots[fd], ctl); }
  }
}
