/**
 The fiber scheduler (Helens/scheduler.h, Helens/scheduler.cc, Helens/fiber.cc) as a state machine.

 A step is one lock section, one context switch or one write to shared state. Threads are the
 workers; the clock of the machine is any interleaving of their steps with outside scheduling.
 */
module Scheduler {
  import opened Options

  datatype FiberState = INIT | HOLD | EXEC | TERM | READY | EXCEPT


  datatype Task = FiberTask(f: nat) | CbTask(cb: nat)

  /** A queue entry; `id` numbers the entries in the order in which they were made. */
  datatype Item = Item(id: nat, task: Task, thread: int)

  const ANY_THREAD := -1

  /**
   How far a worker is with the fiber it swapped in: running on it, changed its state but still on
   its stack, back in the scheduler, or back and no longer counted as active.
   */
  datatype Stage = Running | Leaving | Returned | Settling

  datatype Pc =
    | AtHead
    | Holding(item: Item)
    | On(item: Item, f: nat, isCb: bool, stage: Stage)
    | InIdle
    | Exited

  datatype Worker = Worker(pc: Pc, cbFiber: Option<nat>, idleDone: bool)

  datatype State = State(
    fibers: seq<FiberState>,
    queue: seq<Item>,
    workers: seq<Worker>,
    active: int,
    stopping: bool,
    next: nat,
    finished: set<nat>,
    discarded: set<nat>)

  datatype Action =
    | Schedule(task: Task, thread: int)
    | NewFiber
    | RequestStop
    | Dequeue(w: nat, i: nat)
    | ScanNothing(w: nat)
    | Start(w: nat)
    | YieldToHold(w: nat)
    | YieldToReady(w: nat)
    | Finish(w: nat, except: bool)
    | SwapOut(w: nat)
    | Decrement(w: nat)
    | Settle(w: nat)
    | IdleCheck(w: nat)

  predicate Ended(st: FiberState) { st == TERM || st == EXCEPT }

  /** The scan of `run`: is this entry for worker `w`, and not a fiber that is still executing? */
  predicate Eligible(s: State, w: nat, item: Item) {
    && (item.thread == ANY_THREAD || item.thread == w)
    && !(item.task.FiberTask? && item.task.f < |s.fibers| && s.fibers[item.task.f] == EXEC)
  }

  // ----- what each step needs and does -----

  predicate OnStage(s: State, w: nat, stage: Stage) {
    w < |s.workers| && s.workers[w].pc.On? && s.workers[w].pc.stage == stage && s.workers[w].pc.f < |s.fibers|
  }

  predicate Enabled(s: State, a: Action) {
    match a
    case Schedule(task, _) => task.FiberTask? ==> task.f < |s.fibers|
    case NewFiber => true
    case RequestStop => true
    case Dequeue(w, i) =>
      && w < |s.workers| && s.workers[w].pc.AtHead? && i < |s.queue|
      && Eligible(s, w, s.queue[i])
      && forall j :: 0 <= j < i ==> !Eligible(s, w, s.queue[j])
    case ScanNothing(w) =>
      && w < |s.workers| && s.workers[w].pc.AtHead?
      && forall j :: 0 <= j < |s.queue| ==> !Eligible(s, w, s.queue[j])
    case Start(w) =>
      && w < |s.workers| && s.workers[w].pc.Holding?
      && (s.workers[w].pc.item.task.FiberTask? ==> s.workers[w].pc.item.task.f < |s.fibers|)
      && (s.workers[w].cbFiber.Some? ==> s.workers[w].cbFiber.value < |s.fibers|)
    case YieldToHold(w) => OnStage(s, w, Running)
    case YieldToReady(w) => OnStage(s, w, Running)
    case Finish(w, _) => OnStage(s, w, Running)
    case SwapOut(w) => OnStage(s, w, Leaving)
    case Decrement(w) => OnStage(s, w, Returned)
    case Settle(w) => OnStage(s, w, Settling)
    case IdleCheck(w) => w < |s.workers| && s.workers[w].pc.InIdle?
  }

  function SetPc(s: State, w: nat, pc: Pc): State
    requires w < |s.workers|
  {
    s.(workers := s.workers[w := s.workers[w].(pc := pc)])
  }

  function SetFiber(s: State, f: nat, st: FiberState): State
    requires f < |s.fibers|
  {
    s.(fibers := s.fibers[f := st])
  }

  function Push(s: State, task: Task, thread: int): State {
    s.(queue := s.queue + [Item(s.next, task, thread)], next := s.next + 1)
  }

  /** A fiber leaves the processor in state `st`; its worker is still on its stack. */
  function Leave(s: State, w: nat, st: FiberState): State
    requires OnStage(s, w, Running)
  {
    SetPc(SetFiber(s, s.workers[w].pc.f, st), w, s.workers[w].pc.(stage := Leaving))
  }

  function StartFiber(s: State, w: nat, item: Item, f: nat): State
    requires w < |s.workers| && f < |s.fibers|
  {
    if Ended(s.fibers[f])
    then SetPc(s, w, AtHead).(active := s.active - 1, discarded := s.discarded + {item.id})
    else SetPc(SetFiber(s, f, EXEC), w, On(item, f, false, Running))
  }

  /** A callback runs on the worker's own fiber: the kept one, reset, or a new one. */
  function StartCb(s: State, w: nat, item: Item): State
    requires w < |s.workers|
    requires s.workers[w].cbFiber.Some? ==> s.workers[w].cbFiber.value < |s.fibers|
  {
    match s.workers[w].cbFiber
    case Some(f) => SetPc(SetFiber(s, f, EXEC), w, On(item, f, true, Running))
    case None =>
      var f := |s.fibers|;
      s.(fibers := s.fibers + [EXEC],
         workers := s.workers[w := Worker(On(item, f, true, Running), Some(f), s.workers[w].idleDone)])
  }

  /** After the switch back: requeue, keep, or put on hold, and go round the loop. */
  function SettleOn(s: State, w: nat): State
    requires OnStage(s, w, Settling)
  {
    var pc, st := s.workers[w].pc, s.fibers[s.workers[w].pc.f];
    var done := s.(finished := s.finished + {pc.item.id});
    if st == READY then
      ToHead(Push(done, FiberTask(pc.f), ANY_THREAD), w, pc.isCb)
    else if Ended(st) then
      (if pc.isCb then SetPc(SetFiber(done, pc.f, INIT), w, AtHead) else SetPc(done, w, AtHead))
    else
      ToHead(SetFiber(done, pc.f, HOLD), w, pc.isCb)
  }

  /** Back to the loop head; a callback fiber that lives on is given up. */
  function ToHead(s: State, w: nat, dropCb: bool): State
    requires w < |s.workers|
  {
    var wk := s.workers[w];
    s.(workers := s.workers[w := Worker(AtHead, if dropCb then None else wk.cbFiber, wk.idleDone)])
  }

  predicate MayStop(s: State) { s.stopping && s.queue == [] && s.active == 0 }

  function Apply(s: State, a: Action): State
    requires Enabled(s, a)
  {
    match a
    case Schedule(task, thread) => Push(s, task, thread)
    case NewFiber => s.(fibers := s.fibers + [INIT])
    case RequestStop => s.(stopping := true)
    case Dequeue(w, i) =>
      SetPc(s, w, Holding(s.queue[i])).(queue := s.queue[..i] + s.queue[i + 1..], active := s.active + 1)
    case ScanNothing(w) => SetPc(s, w, if s.workers[w].idleDone then Exited else InIdle)
    case Start(w) =>
      var item := s.workers[w].pc.item;
      if item.task.FiberTask? then StartFiber(s, w, item, item.task.f) else StartCb(s, w, item)
    case YieldToHold(w) => Leave(s, w, s.fibers[s.workers[w].pc.f])
    case YieldToReady(w) => Leave(s, w, READY)
    case Finish(w, except) => Leave(s, w, if except then EXCEPT else TERM)
    case SwapOut(w) => SetPc(s, w, s.workers[w].pc.(stage := Returned))
    case Decrement(w) => SetPc(s, w, s.workers[w].pc.(stage := Settling)).(active := s.active - 1)
    case Settle(w) => SettleOn(s, w)
    case IdleCheck(w) =>
      s.(workers := s.workers[w := s.workers[w].(pc := AtHead, idleDone := s.workers[w].idleDone || MayStop(s))])
  }

  /** The assertions that the step evaluates: in `swapIn`, in `reset` and in the two yields. */
  predicate Asserts(s: State, a: Action)
    requires Enabled(s, a)
  {
    match a
    case Start(w) =>
      var item := s.workers[w].pc.item;
      if item.task.FiberTask? then
        Ended(s.fibers[item.task.f]) || s.fibers[item.task.f] != EXEC
      else
        s.workers[w].cbFiber.Some? ==>
          var st := s.fibers[s.workers[w].cbFiber.value];
          Ended(st) || st == INIT
    case YieldToHold(w) => s.fibers[s.workers[w].pc.f] == EXEC
    case YieldToReady(w) => s.fibers[s.workers[w].pc.f] == EXEC
    case _ => true
  }

  // ----- the discipline that callers keep -----

  predicate Queued(queue: seq<Item>, f: nat) {
    exists i :: 0 <= i < |queue| && queue[i].task == FiberTask(f)
  }

  predicate Held(workers: seq<Worker>, f: nat) {
    exists w :: 0 <= w < |workers| && workers[w].pc.Holding? && workers[w].pc.item.task == FiberTask(f)
  }

  predicate OnWorker(workers: seq<Worker>, f: nat) {
    exists w :: 0 <= w < |workers| && workers[w].pc.On? && workers[w].pc.f == f
  }

  /** `f` yielded to READY and its worker has not requeued it yet. */
  predicate WillRequeue(s: State, f: nat) {
    f < |s.fibers| && s.fibers[f] == READY && OnWorker(s.workers, f)
  }

  /** `f` has an entry outstanding: queued, just dequeued, or about to be requeued. */
  predicate Outstanding(s: State, f: nat) {
    Queued(s.queue, f) || Held(s.workers, f) || WillRequeue(s, f)
  }

  /** `f` is the fiber a worker keeps for callbacks, and not in the middle of one. */
  predicate Pooled(s: State, f: nat) {
    exists w :: 0 <= w < |s.workers| && s.workers[w].cbFiber == Some(f) && !(f < |s.fibers| && s.fibers[f] == EXEC)
  }

  predicate SomeoneRuns(s: State) {
    exists w :: 0 <= w < |s.workers| && !s.workers[w].pc.Exited?
  }

  /**
   At most one entry per fiber, counting the one a yielding fiber is about to get; nobody schedules
   a worker's spare callback fiber, a callback's fiber does not end with an entry outstanding, and
   nothing is scheduled after every worker has left.
   */
  predicate Disciplined(s: State, a: Action) {
    match a
    case Schedule(task, _) =>
      SomeoneRuns(s) && (task.FiberTask? ==> !Outstanding(s, task.f) && !Pooled(s, task.f))
    case YieldToReady(w) => OnStage(s, w, Running) ==> !Outstanding(s, s.workers[w].pc.f)
    case Finish(w, _) =>
      OnStage(s, w, Running) && s.workers[w].pc.isCb ==> !Outstanding(s, s.workers[w].pc.f)
    case _ => true
  }

  // ----- the scan of the run loop -----

  /**
   The loop under the queue lock: the first entry this worker may take, and whether another worker
   has to be told that entries are left for it.
   */
  method Scan(s: State, w: nat) returns (found: Option<nat>, tickle: bool)
    ensures found.Some? ==> found.value < |s.queue| && Eligible(s, w, s.queue[found.value])
    ensures forall j :: 0 <= j < (if found.Some? then found.value else |s.queue|) ==> !Eligible(s, w, s.queue[j])
    ensures tickle <==>
      (exists j :: 0 <= j < (if found.Some? then found.value else |s.queue|) &&
                   s.queue[j].thread != ANY_THREAD && s.queue[j].thread != w) ||
      (found.Some? && found.value + 1 < |s.queue|)
  {
    found, tickle := None, false;
    var i := 0;
    while i < |s.queue|
      invariant 0 <= i <= |s.queue|
      invariant forall j :: 0 <= j < i ==> !Eligible(s, w, s.queue[j])
      invariant tickle <==> exists j :: 0 <= j < i && s.queue[j].thread != ANY_THREAD && s.queue[j].thread != w
    {
      var item := s.queue[i];
      if item.thread != ANY_THREAD && item.thread != w {
        i := i + 1;
        tickle := true;
        continue;
      }
      if item.task.FiberTask? && item.task.f < |s.fibers| && s.fibers[item.task.f] == EXEC {
        i := i + 1;
        continue;
      }
      found := Some(i);
      tickle := tickle || i + 1 != |s.queue|;
      return;
    }
  }
}
