/** No fiber runs on two threads: the invariant behind `swapIn` and `reset`, over every run. */
module SchedulerSafety {
  import opened Options
  import opened Scheduler

  // The invariant, clause by clause. Each clause names only the parts of the state it depends on.

  /** Every fiber number in use denotes a fiber. */
  ghost predicate QueueInRange(n: nat, queue: seq<Item>) {
    forall i :: 0 <= i < |queue| && queue[i].task.FiberTask? ==> queue[i].task.f < n
  }

  ghost predicate WorkersInRange(n: nat, workers: seq<Worker>) {
    forall w :: 0 <= w < |workers| ==>
      && (workers[w].pc.Holding? && workers[w].pc.item.task.FiberTask? ==> workers[w].pc.item.task.f < n)
      && (workers[w].pc.On? ==> workers[w].pc.f < n)
      && (workers[w].cbFiber.Some? ==> workers[w].cbFiber.value < n)
  }

  /** A fiber is on one worker at most. */
  ghost predicate OnOne(workers: seq<Worker>) {
    forall w, v :: 0 <= w < |workers| && 0 <= v < |workers| && w != v && workers[w].pc.On? && workers[v].pc.On?
      ==> workers[w].pc.f != workers[v].pc.f
  }

  /** A fiber's state fits how far its worker is with it. */
  ghost predicate StageFits(fibers: seq<FiberState>, workers: seq<Worker>)
    requires WorkersInRange(|fibers|, workers)
  {
    forall w :: 0 <= w < |workers| && workers[w].pc.On? ==>
      var st := fibers[workers[w].pc.f];
      if workers[w].pc.stage == Running then st == EXEC else st != INIT && st != HOLD
  }

  /** An executing fiber is on a worker. */
  ghost predicate ExecIsOn(fibers: seq<FiberState>, workers: seq<Worker>) {
    forall f :: 0 <= f < |fibers| && fibers[f] == EXEC ==> OnWorker(workers, f)
  }

  /** No two queue entries for one fiber. */
  ghost predicate QueuedOnce(queue: seq<Item>) {
    forall i, j :: 0 <= i < |queue| && 0 <= j < |queue| && i != j && queue[i].task.FiberTask?
      ==> queue[i].task != queue[j].task
  }

  /** No two workers have dequeued one fiber. */
  ghost predicate HeldOnce(workers: seq<Worker>) {
    forall w, v :: 0 <= w < |workers| && 0 <= v < |workers| && w != v
      && workers[w].pc.Holding? && workers[v].pc.Holding? && workers[w].pc.item.task.FiberTask?
      ==> workers[w].pc.item.task != workers[v].pc.item.task
  }

  /** A dequeued fiber is not queued again, is not executing, and is not about to be requeued. */
  ghost predicate HeldAlone(fibers: seq<FiberState>, queue: seq<Item>, workers: seq<Worker>)
    requires WorkersInRange(|fibers|, workers)
  {
    forall w :: 0 <= w < |workers| && workers[w].pc.Holding? && workers[w].pc.item.task.FiberTask? ==>
      var f := workers[w].pc.item.task.f;
      !Queued(queue, f) && fibers[f] != EXEC && (fibers[f] == READY ==> !OnWorker(workers, f))
  }

  /** A fiber that yielded to READY has no entry until its worker requeues it. */
  ghost predicate ReadyAlone(fibers: seq<FiberState>, queue: seq<Item>, workers: seq<Worker>) {
    forall f :: 0 <= f < |fibers| && fibers[f] == READY && OnWorker(workers, f) ==> !Queued(queue, f)
  }

  /** Workers do not share callback fibers, and run callbacks on their own. */
  ghost predicate CbApart(workers: seq<Worker>) {
    && (forall w, v :: 0 <= w < |workers| && 0 <= v < |workers| && w != v && workers[w].cbFiber.Some?
          ==> workers[w].cbFiber != workers[v].cbFiber)
    && (forall w :: 0 <= w < |workers| && workers[w].pc.On? && workers[w].pc.isCb
          ==> workers[w].cbFiber == Some(workers[w].pc.f))
  }

  /** The clauses about workers alone. */
  ghost predicate Places(workers: seq<Worker>) {
    OnOne(workers) && HeldOnce(workers) && CbApart(workers)
  }

  /** A callback fiber between callbacks is in state INIT; ended or not, it has no entry. */
  ghost predicate CbSpare(fibers: seq<FiberState>, queue: seq<Item>, workers: seq<Worker>)
    requires WorkersInRange(|fibers|, workers)
  {
    forall w :: 0 <= w < |workers| && workers[w].cbFiber.Some? ==>
      var f := workers[w].cbFiber.value;
      var busy := workers[w].pc.On? && workers[w].pc.isCb;
      && (!busy ==> fibers[f] == INIT)
      && (!busy || Ended(fibers[f]) ==> !Queued(queue, f) && !Held(workers, f))
  }

  ghost predicate Inv(s: State) {
    && QueueInRange(|s.fibers|, s.queue)
    && WorkersInRange(|s.fibers|, s.workers)
    && Places(s.workers)
    && StageFits(s.fibers, s.workers)
    && ExecIsOn(s.fibers, s.workers)
    && QueuedOnce(s.queue)
    && HeldAlone(s.fibers, s.queue, s.workers)
    && ReadyAlone(s.fibers, s.queue, s.workers)
    && CbSpare(s.fibers, s.queue, s.workers)
  }

  function Initial(workers: nat): State {
    State([], [], seq(workers, _ => Worker(AtHead, None, false)), 0, false, 0, {}, {})
  }

  lemma InitialInv(n: nat)
    ensures Inv(Initial(n))
  {}

  /** In every such state, no assertion of the fiber code fails. */
  lemma AssertsHold(s: State, a: Action)
    requires Inv(s) && Enabled(s, a)
    ensures Asserts(s, a)
  {}

  // ----- the queue -----

  lemma QueuedPush(queue: seq<Item>, item: Item, f: nat)
    ensures Queued(queue + [item], f) <==> Queued(queue, f) || item.task == FiberTask(f)
  {
    var q := queue + [item];
    assert q[|queue|] == item;
    assert forall i :: 0 <= i < |queue| ==> q[i] == queue[i];
  }

  lemma QueuedRemove(queue: seq<Item>, i: nat, f: nat)
    requires i < |queue| && QueuedOnce(queue)
    ensures Queued(queue[..i] + queue[i + 1..], f) <==> Queued(queue, f) && queue[i].task != FiberTask(f)
  {
    var q := queue[..i] + queue[i + 1..];
    assert forall j :: 0 <= j < |q| ==> q[j] == if j < i then queue[j] else queue[j + 1];
    if Queued(queue, f) && queue[i].task != FiberTask(f) {
      var j :| 0 <= j < |queue| && queue[j].task == FiberTask(f);
      assert q[if j < i then j else j - 1].task == FiberTask(f);
    }
  }

  lemma KeepSchedule(s: State, task: Task, thread: int)
    requires Inv(s) && Enabled(s, Schedule(task, thread)) && Disciplined(s, Schedule(task, thread))
    ensures Inv(Apply(s, Schedule(task, thread)))
  {
    hide Queued, Held, OnWorker;
    PushKeeps(s, task, thread);
  }

  /** Adding an entry for a fiber that has none, and is no spare callback fiber. */
  lemma PushKeeps(s: State, task: Task, thread: int)
    requires Inv(s)
    requires task.FiberTask? ==> task.f < |s.fibers| && !Outstanding(s, task.f) && !Pooled(s, task.f)
    ensures Inv(Push(s, task, thread))
  {
    var t := Push(s, task, thread);
    forall f: nat ensures Queued(t.queue, f) <==> Queued(s.queue, f) || task == FiberTask(f) {
      QueuedPush(s.queue, Item(s.next, task, thread), f);
    }
  }

  lemma KeepNewFiber(s: State)
    requires Inv(s)
    ensures Inv(Apply(s, NewFiber))
  {
    hide Queued, Held, OnWorker;
    var t := Apply(s, NewFiber);
    assert forall f :: 0 <= f < |s.fibers| ==> t.fibers[f] == s.fibers[f];
  }

  // ----- one worker moves -----

  /** What a worker's program counter and callback fiber contribute to the three questions. */
  lemma AfterMove(workers: seq<Worker>, w: nat, wk: Worker, f: nat)
    requires w < |workers| && Places(workers)
    ensures var ws, was := workers[w := wk], workers[w].pc;
      && (OnWorker(ws, f) <==> (wk.pc.On? && wk.pc.f == f) || (OnWorker(workers, f) && !(was.On? && was.f == f)))
      && (Held(ws, f) <==>
            (wk.pc.Holding? && wk.pc.item.task == FiberTask(f)) ||
            (Held(workers, f) && !(was.Holding? && was.item.task == FiberTask(f))))
  {
    var ws, was := workers[w := wk], workers[w].pc;
    assert ws[w] == wk;
    if OnWorker(workers, f) && !(was.On? && was.f == f) {
      var v :| 0 <= v < |workers| && workers[v].pc.On? && workers[v].pc.f == f;
      assert ws[v] == workers[v];
    }
    if Held(workers, f) && !(was.Holding? && was.item.task == FiberTask(f)) {
      var v :| 0 <= v < |workers| && workers[v].pc.Holding? && workers[v].pc.item.task == FiberTask(f);
      assert ws[v] == workers[v];
    }
  }

  lemma KeepScanNothing(s: State, w: nat)
    requires Inv(s) && Enabled(s, ScanNothing(w))
    ensures Inv(Apply(s, ScanNothing(w)))
  {
    hide Queued, Held, OnWorker;
    var t := Apply(s, ScanNothing(w));
    forall f: nat ensures OnWorker(t.workers, f) == OnWorker(s.workers, f) && Held(t.workers, f) == Held(s.workers, f) {
      AfterMove(s.workers, w, t.workers[w], f);
    }
  }

  lemma KeepIdleCheck(s: State, w: nat)
    requires Inv(s) && Enabled(s, IdleCheck(w))
    ensures Inv(Apply(s, IdleCheck(w)))
  {
    hide Queued, Held, OnWorker;
    var t := Apply(s, IdleCheck(w));
    forall f: nat ensures OnWorker(t.workers, f) == OnWorker(s.workers, f) && Held(t.workers, f) == Held(s.workers, f) {
      AfterMove(s.workers, w, t.workers[w], f);
    }
  }

  lemma KeepSwapOut(s: State, w: nat)
    requires Inv(s) && Enabled(s, SwapOut(w))
    ensures Inv(Apply(s, SwapOut(w)))
  {
    hide Queued, Held, OnWorker;
    var t := Apply(s, SwapOut(w));
    forall f: nat ensures OnWorker(t.workers, f) == OnWorker(s.workers, f) && Held(t.workers, f) == Held(s.workers, f) {
      AfterMove(s.workers, w, t.workers[w], f);
      OnSelf(s.workers, w);
    }
  }

  lemma KeepDecrement(s: State, w: nat)
    requires Inv(s) && Enabled(s, Decrement(w))
    ensures Inv(Apply(s, Decrement(w)))
  {
    hide Queued, Held, OnWorker;
    var t := Apply(s, Decrement(w));
    forall f: nat ensures OnWorker(t.workers, f) == OnWorker(s.workers, f) && Held(t.workers, f) == Held(s.workers, f) {
      AfterMove(s.workers, w, t.workers[w], f);
      OnSelf(s.workers, w);
    }
  }

  lemma OnSelf(workers: seq<Worker>, w: nat)
    requires w < |workers|
    ensures workers[w].pc.On? ==> OnWorker(workers, workers[w].pc.f)
    ensures workers[w].pc.Holding? && workers[w].pc.item.task.FiberTask? ==> Held(workers, workers[w].pc.item.task.f)
  {}

  lemma AllOnSelf(workers: seq<Worker>)
    ensures forall w :: 0 <= w < |workers| && workers[w].pc.On? ==> OnWorker(workers, workers[w].pc.f)
    ensures forall w :: 0 <= w < |workers| && workers[w].pc.Holding? && workers[w].pc.item.task.FiberTask? ==>
      Held(workers, workers[w].pc.item.task.f)
  {}

  lemma KeepDequeue(s: State, w: nat, i: nat)
    requires Inv(s) && Enabled(s, Dequeue(w, i))
    ensures Inv(Apply(s, Dequeue(w, i)))
  {
    hide Held, OnWorker, Queued, Places, QueueInRange, QueuedOnce;
    var t := Apply(s, Dequeue(w, i));
    var item := s.queue[i];
    AllOnSelf(s.workers);
    HoldPlaces(s, w, i);
    QueueShrinks(|s.fibers|, s.queue, i);
    forall f: nat
      ensures OnWorker(t.workers, f) == OnWorker(s.workers, f)
      ensures Held(t.workers, f) <==> item.task == FiberTask(f) || Held(s.workers, f)
      ensures Queued(t.queue, f) <==> Queued(s.queue, f) && item.task != FiberTask(f)
    {
      AfterMove(s.workers, w, t.workers[w], f);
      QueuedRemove(s.queue, i, f);
    }
  }

  lemma QueueShrinks(n: nat, queue: seq<Item>, i: nat)
    requires QueueInRange(n, queue) && QueuedOnce(queue) && i < |queue|
    ensures QueueInRange(n, queue[..i] + queue[i + 1..]) && QueuedOnce(queue[..i] + queue[i + 1..])
    ensures queue[i].task.FiberTask? ==> queue[i].task.f < n
  {
    var q := queue[..i] + queue[i + 1..];
    assert forall j :: 0 <= j < |q| ==> q[j] == if j < i then queue[j] else queue[j + 1];
  }

  lemma HoldPlaces(s: State, w: nat, i: nat)
    requires Inv(s) && w < |s.workers| && s.workers[w].pc.AtHead? && i < |s.queue|
    ensures s.queue[i].task.FiberTask? ==> Queued(s.queue, s.queue[i].task.f) && !Held(s.workers, s.queue[i].task.f)
    ensures Places(SetPc(s, w, Holding(s.queue[i])).workers)
  {}

  // ----- swapping in -----

  lemma KeepStartFiber(s: State, w: nat, item: Item)
    requires Inv(s) && w < |s.workers| && s.workers[w].pc == Holding(item) && item.task.FiberTask?
    ensures item.task.f < |s.fibers| && Inv(StartFiber(s, w, item, item.task.f))
  {
    hide Queued, Held, OnWorker, Places;
    assert WorkersInRange(|s.fibers|, s.workers);
    var g := item.task.f;
    var t := StartFiber(s, w, item, g);
    AllOnSelf(s.workers);
    AllOnSelf(t.workers);
    var runs := !Ended(s.fibers[g]);
    if runs { NotOn(s, g); }
    PlacesAfter(s.workers, w, t.workers[w]);
    forall f: nat
      ensures OnWorker(t.workers, f) <==> (runs && f == g) || OnWorker(s.workers, f)
      ensures Held(t.workers, f) <==> f != g && Held(s.workers, f)
    {
      AfterMove(s.workers, w, t.workers[w], f);
    }
  }

  /** A worker may swap in a fiber that is on no worker, and on its own callback fiber only. */
  lemma PlacesAfter(workers: seq<Worker>, w: nat, wk: Worker)
    requires w < |workers| && Places(workers)
    requires wk.pc.On? && !workers[w].pc.On? ==> !OnWorker(workers, wk.pc.f)
    requires wk.pc.On? && workers[w].pc.On? ==> wk.pc.f == workers[w].pc.f
    requires wk.pc.Holding? ==> workers[w].pc == wk.pc
    requires wk.pc.On? && wk.pc.isCb ==> wk.cbFiber == Some(wk.pc.f)
    requires wk.cbFiber.Some? ==>
      wk.cbFiber == workers[w].cbFiber || forall v :: 0 <= v < |workers| && v != w ==> workers[v].cbFiber != wk.cbFiber
    ensures Places(workers[w := wk])
  {}

  /** A fiber that is dequeued and has not ended is on no worker. */
  lemma NotOn(s: State, g: nat)
    requires Inv(s) && Held(s.workers, g) && g < |s.fibers| && !Ended(s.fibers[g])
    ensures !OnWorker(s.workers, g)
  {
    var w :| 0 <= w < |s.workers| && s.workers[w].pc.Holding? && s.workers[w].pc.item.task == FiberTask(g);
  }

  lemma KeepStartCb(s: State, w: nat, item: Item)
    requires Inv(s) && w < |s.workers| && s.workers[w].pc == Holding(item) && item.task.CbTask?
    ensures Inv(StartCb(s, w, item))
  {
    hide Queued, Held, OnWorker, Places;
    var t := StartCb(s, w, item);
    var g := t.workers[w].pc.f;
    AllOnSelf(s.workers);
    SpareIsFree(s, w, g);
    PlacesAfter(s.workers, w, t.workers[w]);
    forall f: nat
      ensures OnWorker(t.workers, f) <==> f == g || OnWorker(s.workers, f)
      ensures Held(t.workers, f) <==> Held(s.workers, f)
    {
      AfterMove(s.workers, w, t.workers[w], f);
    }
    assert forall f :: 0 <= f < |s.fibers| && f != g ==> t.fibers[f] == s.fibers[f];
  }

  /** The fiber a callback starts on has no entry and is on no worker. */
  lemma SpareIsFree(s: State, w: nat, g: nat)
    requires Inv(s) && w < |s.workers| && s.workers[w].pc.Holding?
    requires if s.workers[w].cbFiber.Some? then g == s.workers[w].cbFiber.value else g == |s.fibers|
    ensures !OnWorker(s.workers, g) && !Queued(s.queue, g) && !Held(s.workers, g)
    ensures forall v :: 0 <= v < |s.workers| && v != w ==> s.workers[v].cbFiber != Some(g)
  {}

  // ----- leaving the processor -----

  lemma KeepLeave(s: State, w: nat, st: FiberState)
    requires Inv(s) && OnStage(s, w, Running) && st != INIT && st != HOLD
    requires st == READY || (Ended(st) && s.workers[w].pc.isCb) ==> !Outstanding(s, s.workers[w].pc.f)
    ensures Inv(Leave(s, w, st))
  {
    hide Queued, Held, OnWorker;
    var t := Leave(s, w, st);
    var g := s.workers[w].pc.f;
    AllOnSelf(s.workers);
    assert !Held(s.workers, g) by { HeldNotExec(s, g); }
    forall f: nat
      ensures OnWorker(t.workers, f) == OnWorker(s.workers, f)
      ensures Held(t.workers, f) == Held(s.workers, f)
    {
      AfterMove(s.workers, w, t.workers[w], f);
    }
  }

  lemma HeldNotExec(s: State, g: nat)
    requires Inv(s) && g < |s.fibers| && s.fibers[g] == EXEC
    ensures !Held(s.workers, g)
  {}

  // ----- back at the loop head -----

  /** Taking a fiber off its worker, in a state in which it no longer executes. */
  lemma KeepOff(s: State, w: nat, st: FiberState, keepCb: bool)
    requires Inv(s) && OnStage(s, w, Settling)
    requires var pc := s.workers[w].pc; var now := s.fibers[pc.f];
      || (now == READY && st == READY && !keepCb)
      || (Ended(now) && (if pc.isCb then st == INIT && keepCb else st == now && keepCb))
      || (now == EXEC && st == HOLD && !keepCb)
    ensures var pc := s.workers[w].pc;
      var wk := Worker(AtHead, if keepCb || !pc.isCb then s.workers[w].cbFiber else None, s.workers[w].idleDone);
      var t := s.(fibers := s.fibers[pc.f := st], workers := s.workers[w := wk]);
      Inv(t) && (st == READY ==> !Outstanding(t, pc.f) && !Pooled(t, pc.f))
  {
    hide Queued, Held, OnWorker, Places;
    var pc := s.workers[w].pc;
    var g := pc.f;
    var wk := Worker(AtHead, if keepCb || !pc.isCb then s.workers[w].cbFiber else None, s.workers[w].idleDone);
    var t := s.(fibers := s.fibers[g := st], workers := s.workers[w := wk]);
    AllOnSelf(t.workers);
    AllOnSelf(s.workers);
    PlacesAfter(s.workers, w, wk);
    NobodyElses(s, w);
    forall f: nat
      ensures OnWorker(t.workers, f) <==> f != g && OnWorker(s.workers, f)
      ensures Held(t.workers, f) == Held(s.workers, f)
    {
      AfterMove(s.workers, w, wk, f);
    }
  }

  /** A fiber on a worker is no other worker's callback fiber; if READY it is not dequeued. */
  lemma NobodyElses(s: State, w: nat)
    requires Inv(s) && OnStage(s, w, Settling)
    ensures var g := s.workers[w].pc.f;
      && (forall v :: 0 <= v < |s.workers| && v != w ==> s.workers[v].cbFiber != Some(g))
      && (s.workers[w].cbFiber == Some(g) <==> s.workers[w].pc.isCb)
      && (s.fibers[g] == READY || s.fibers[g] == EXEC ==> !Held(s.workers, g))
  {
    AllOnSelf(s.workers);
  }

  lemma KeepSettle(s: State, w: nat)
    requires Inv(s) && Enabled(s, Settle(w))
    ensures Inv(Apply(s, Settle(w)))
  {
    hide Queued, Held, OnWorker, Places;
    var pc, st := s.workers[w].pc, s.fibers[s.workers[w].pc.f];
    var t := Apply(s, Settle(w));
    if st == READY {
      KeepOff(s, w, READY, false);
      var u := ToHead(s.(finished := s.finished + {pc.item.id}), w, pc.isCb);
      assert s.fibers[pc.f := READY] == s.fibers;
      PushKeeps(u, FiberTask(pc.f), ANY_THREAD);
      assert t == Push(u, FiberTask(pc.f), ANY_THREAD);
    } else if Ended(st) {
      KeepOff(s, w, if pc.isCb then INIT else st, true);
      assert s.fibers[pc.f := st] == s.fibers;
    } else {
      assert st == EXEC;
      KeepOff(s, w, HOLD, false);
    }
  }

  /** Every step that keeps the discipline keeps the invariant. */
  lemma StepKeeps(s: State, a: Action)
    requires Inv(s) && Enabled(s, a) && Disciplined(s, a)
    ensures Inv(Apply(s, a))
  {
    hide Queued, Held, OnWorker, Places, QueueInRange, StageFits, ExecIsOn, QueuedOnce, HeldAlone, ReadyAlone, CbSpare;
    match a
    case Schedule(task, thread) => KeepSchedule(s, task, thread);
    case NewFiber => KeepNewFiber(s);
    case RequestStop =>
    case Dequeue(w, i) => KeepDequeue(s, w, i);
    case ScanNothing(w) => KeepScanNothing(s, w);
    case Start(w) =>
      var item := s.workers[w].pc.item;
      if item.task.FiberTask? { KeepStartFiber(s, w, item); } else { KeepStartCb(s, w, item); }
    case YieldToHold(w) =>
      RunningIsExec(s, w);
      KeepLeave(s, w, EXEC);
    case YieldToReady(w) => KeepLeave(s, w, READY);
    case Finish(w, except) => KeepLeave(s, w, if except then EXCEPT else TERM);
    case SwapOut(w) => KeepSwapOut(s, w);
    case Decrement(w) => KeepDecrement(s, w);
    case Settle(w) => KeepSettle(s, w);
    case IdleCheck(w) => KeepIdleCheck(s, w);
  }

  lemma RunningIsExec(s: State, w: nat)
    requires Inv(s) && OnStage(s, w, Running)
    ensures s.fibers[s.workers[w].pc.f] == EXEC
  {}

  // ----- whole runs -----

  ghost predicate Legal(s: State, acts: seq<Action>)
    decreases |acts|
  {
    acts == [] || (Enabled(s, acts[0]) && Disciplined(s, acts[0]) && Legal(Apply(s, acts[0]), acts[1..]))
  }

  ghost function Run(s: State, acts: seq<Action>): State
    requires Legal(s, acts)
    decreases |acts|
  {
    if acts == [] then s else Run(Apply(s, acts[0]), acts[1..])
  }

  /** Every assertion evaluated along the run holds. */
  ghost predicate NoAssertFails(s: State, acts: seq<Action>)
    requires Legal(s, acts)
    decreases |acts|
  {
    acts == [] || (Asserts(s, acts[0]) && NoAssertFails(Apply(s, acts[0]), acts[1..]))
  }

  /** No fiber's stack is in use by two workers. */
  ghost predicate NoSharedStack(s: State) {
    forall w, v :: 0 <= w < v < |s.workers| && s.workers[w].pc.On? && s.workers[v].pc.On? ==>
      s.workers[w].pc.f != s.workers[v].pc.f
  }

  /** The main safety theorem, for every number of workers and every disciplined run. */
  lemma RunIsSafe(n: nat, acts: seq<Action>)
    requires Legal(Initial(n), acts)
    ensures NoAssertFails(Initial(n), acts)
    ensures NoSharedStack(Run(Initial(n), acts))
    ensures var s := Run(Initial(n), acts);
      forall w :: 0 <= w < |s.workers| && s.workers[w].pc.AtHead? && s.workers[w].cbFiber.Some? ==>
        s.workers[w].cbFiber.value < |s.fibers| && s.fibers[s.workers[w].cbFiber.value] == INIT
  {
    InitialInv(n);
    RunKeeps(Initial(n), acts);
  }

  lemma {:induction false} RunKeeps(s: State, acts: seq<Action>)
    requires Inv(s) && Legal(s, acts)
    ensures Inv(Run(s, acts)) && NoAssertFails(s, acts)
    decreases |acts|
  {
    hide Inv, Disciplined, Enabled, Apply, Asserts;
    if acts != [] {
      StepKeeps(s, acts[0]);
      AssertsHold(s, acts[0]);
      RunKeeps(Apply(s, acts[0]), acts[1..]);
    }
  }
}
