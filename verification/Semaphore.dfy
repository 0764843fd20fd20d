/** The fiber semaphore of Helens/mutex.cc: permits, and fibers queued for one. */
module Semaphore {
  import opened Options

  datatype Sem<F> = Sem(concurrency: nat, waiters: seq<F>)


  /** Result: the semaphore and whether the caller got a permit at once. */
  function TryTake<F>(s: Sem<F>): (Sem<F>, bool) {
    if s.concurrency > 0 then (s.(concurrency := s.concurrency - 1), true) else (s, false)
  }

  function Take<F>(s: Sem<F>, f: F): (Sem<F>, bool) {
    if s.concurrency > 0 then (s.(concurrency := s.concurrency - 1), true)
    else (s.(waiters := s.waiters + [f]), false)
  }

  /** Result: the semaphore and the fiber the permit is handed to, if one waits. */
  function Give<F>(s: Sem<F>): (Sem<F>, Option<F>) {
    if s.waiters != [] then (s.(waiters := s.waiters[1..]), Some(s.waiters[0]))
    else (s.(concurrency := s.concurrency + 1), None)
  }

  /** Fibers queue only while there is no permit. */
  predicate Valid<F>(s: Sem<F>) { s.waiters == [] || s.concurrency == 0 }

  // ----- the object -----

  class FiberSemaphore<F> {
    var concurrency: nat
    var waiters: seq<F>

    ghost function Value(): Sem<F>
      reads this
    {
      Sem(concurrency, waiters)
    }

    constructor (initial: nat)
      ensures Value() == Sem(initial, [])
    {
      concurrency, waiters := initial, [];
    }

    method TryWait() returns (ok: bool)
      modifies this`concurrency
      ensures (Value(), ok) == TryTake(old(Value()))
      ensures (ok <==> old(concurrency) > 0) && concurrency + (if ok then 1 else 0) == old(concurrency)
      ensures old(Valid(Value())) ==> Valid(Value())
    {
      if concurrency > 0 {
        concurrency := concurrency - 1;
        return true;
      }
      return false;
    }

    /** `ok`: the caller goes on; otherwise it yields until a notify schedules it. */
    method Wait(f: F) returns (ok: bool)
      modifies this
      ensures (Value(), ok) == Take(old(Value()), f)
      ensures (ok <==> old(concurrency) > 0) && concurrency + (if ok then 1 else 0) == old(concurrency)
      ensures waiters == old(waiters) + if ok then [] else [f]
      ensures old(Valid(Value())) ==> Valid(Value())
    {
      if concurrency > 0 {
        concurrency := concurrency - 1;
        return true;
      }
      waiters := waiters + [f];
      return false;
    }

    /** `next`: the fiber handed to its scheduler. */
    method Notify() returns (next: Option<F>)
      modifies this
      ensures (Value(), next) == Give(old(Value()))
      ensures old(waiters) == (if next.Some? then [next.value] else []) + waiters
      ensures concurrency == old(concurrency) + if old(waiters) == [] then 1 else 0
      ensures old(Valid(Value())) ==> Valid(Value())
    {
      if waiters != [] {
        next := Some(waiters[0]);
        waiters := waiters[1..];
      } else {
        concurrency := concurrency + 1;
        next := None;
      }
    }
  }

  // ----- runs -----

  datatype Op<F> = TryOp(fiber: F) | WaitOp(fiber: F) | NotifyOp

  /** `arrivals`: who asked and was not turned away, in order; `grants`: who got a permit, in order. */
  datatype State<F> = State(sem: Sem<F>, arrivals: seq<F>, grants: seq<F>, notifies: nat)

  function Do<F>(s: State<F>, op: Op<F>): State<F> {
    match op
    case TryOp(f) =>
      var (sem, ok) := TryTake(s.sem);
      if ok then State(sem, s.arrivals + [f], s.grants + [f], s.notifies) else s
    case WaitOp(f) =>
      var (sem, ok) := Take(s.sem, f);
      State(sem, s.arrivals + [f], if ok then s.grants + [f] else s.grants, s.notifies)
    case NotifyOp =>
      var (sem, next) := Give(s.sem);
      State(sem, s.arrivals, if next.Some? then s.grants + [next.value] else s.grants, s.notifies + 1)
  }

  function Run<F>(s: State<F>, ops: seq<Op<F>>): State<F> {
    if ops == [] then s else Do(Run(s, ops[..|ops| - 1]), ops[|ops| - 1])
  }

  ghost predicate Inv<F>(s: State<F>, initial: nat) {
    && Valid(s.sem)
    && initial + s.notifies == |s.grants| + s.sem.concurrency
    && s.arrivals == s.grants + s.sem.waiters
  }

  lemma DoKeeps<F>(s: State<F>, op: Op<F>, initial: nat)
    requires Inv(s, initial)
    ensures Inv(Do(s, op), initial)
  {
    var t := Do(s, op);
    if op.NotifyOp? && s.sem.waiters != [] {
      assert s.sem.waiters == [s.sem.waiters[0]] + s.sem.waiters[1..];
    }
    assert t.arrivals == t.grants + t.sem.waiters;
  }

  /**
   After any run, tryWait and wait get a permit at once exactly if fewer were granted than there
   were at the start and were given back; a refused tryWait leaves no trace, a wait queues.
   */
  lemma AskExactly<F>(initial: nat, ops: seq<Op<F>>, f: F)
    ensures var s := Run(State(Sem(initial, []), [], [], 0), ops);
      var left := |s.grants| < initial + s.notifies;
      && Do(s, TryOp(f)).grants == (if left then s.grants + [f] else s.grants)
      && (!left ==> Do(s, TryOp(f)) == s)
      && Do(s, WaitOp(f)).grants == (if left then s.grants + [f] else s.grants)
      && Do(s, WaitOp(f)).arrivals == s.arrivals + [f]
  {
    EveryRun(initial, ops);
  }

  /**
   After any run: permits are conserved, fibers queue only when no permit is left, and permits are
   granted in the order they were asked for.
   */
  lemma {:induction false} EveryRun<F>(initial: nat, ops: seq<Op<F>>)
    ensures var s := Run(State(Sem(initial, []), [], [], 0), ops);
      && initial + s.notifies == |s.grants| + s.sem.concurrency
      && (s.sem.waiters != [] ==> s.sem.concurrency == 0)
      && s.arrivals == s.grants + s.sem.waiters
  {
    if ops != [] {
      EveryRun(initial, ops[..|ops| - 1]);
      DoKeeps(Run(State(Sem(initial, []), [], [], 0), ops[..|ops| - 1]), ops[|ops| - 1], initial);
    }
  }
}
