/**
 Nothing scheduled is lost or done twice; the active counter matches the workers; and when every
 worker has left, nothing is left behind. Over every run.
 */
module SchedulerConservation {
  import opened Scheduler
  import S = SchedulerSafety

  predicate HasItem(wk: Worker) { wk.pc.Holding? || wk.pc.On? }

  ghost predicate InQueue(queue: seq<Item>, id: nat) {
    exists i :: 0 <= i < |queue| && queue[i].id == id
  }

  ghost predicate InWork(workers: seq<Worker>, id: nat) {
    exists w :: 0 <= w < |workers| && HasItem(workers[w]) && workers[w].pc.item.id == id
  }

  ghost predicate QueueDistinct(queue: seq<Item>) {
    forall i, j :: 0 <= i < |queue| && 0 <= j < |queue| && i != j ==> queue[i].id != queue[j].id
  }

  ghost predicate WorkDistinct(workers: seq<Worker>) {
    forall w, v :: 0 <= w < |workers| && 0 <= v < |workers| && w != v && HasItem(workers[w]) && HasItem(workers[v])
      ==> workers[w].pc.item.id != workers[v].pc.item.id
  }

  /** Entry `id` is in exactly one place. */
  ghost predicate Located(s: State, id: nat) {
    var q, k, f, d := InQueue(s.queue, id), InWork(s.workers, id), id in s.finished, id in s.discarded;
    if id < s.next
    then (q && !k && !f && !d) || (!q && k && !f && !d) || (!q && !k && f && !d) || (!q && !k && !f && d)
    else !q && !k && !f && !d
  }

  /** Every entry ever made is queued, with a worker, finished or discarded: once. */
  ghost predicate Conserved(s: State) {
    QueueDistinct(s.queue) && WorkDistinct(s.workers) && forall id: nat :: Located(s, id)
  }

  // ----- moving entries about -----

  lemma PushIds(queue: seq<Item>, item: Item)
    requires QueueDistinct(queue) && !InQueue(queue, item.id)
    ensures QueueDistinct(queue + [item])
    ensures forall id: nat :: InQueue(queue + [item], id) <==> InQueue(queue, id) || id == item.id
  {
    var q := queue + [item];
    assert q[|queue|] == item;
    assert forall i :: 0 <= i < |queue| ==> q[i] == queue[i];
    forall id: nat ensures InQueue(q, id) <==> InQueue(queue, id) || id == item.id {
      if InQueue(queue, id) {
        var i :| 0 <= i < |queue| && queue[i].id == id;
        assert q[i].id == id;
      }
    }
  }

  lemma RemoveIds(queue: seq<Item>, i: nat)
    requires QueueDistinct(queue) && i < |queue|
    ensures QueueDistinct(queue[..i] + queue[i + 1..])
    ensures forall id: nat :: InQueue(queue[..i] + queue[i + 1..], id) <==> InQueue(queue, id) && id != queue[i].id
  {
    var q := queue[..i] + queue[i + 1..];
    assert forall j :: 0 <= j < |q| ==> q[j] == if j < i then queue[j] else queue[j + 1];
    forall id: nat ensures InQueue(q, id) <==> InQueue(queue, id) && id != queue[i].id {
      if InQueue(queue, id) && id != queue[i].id {
        var j :| 0 <= j < |queue| && queue[j].id == id;
        assert q[if j < i then j else j - 1].id == id;
      }
    }
  }

  /** A worker without an entry takes one that nobody else has. */
  lemma TakeIds(workers: seq<Worker>, w: nat, wk: Worker)
    requires WorkDistinct(workers) && w < |workers| && !HasItem(workers[w]) && HasItem(wk)
    requires !InWork(workers, wk.pc.item.id)
    ensures WorkDistinct(workers[w := wk])
    ensures forall id: nat :: InWork(workers[w := wk], id) <==> InWork(workers, id) || id == wk.pc.item.id
  {
    var ws := workers[w := wk];
    assert ws[w] == wk;
    forall id: nat ensures InWork(ws, id) <==> InWork(workers, id) || id == wk.pc.item.id {
      if InWork(workers, id) {
        var v :| 0 <= v < |workers| && HasItem(workers[v]) && workers[v].pc.item.id == id;
        assert ws[v] == workers[v];
      }
    }
  }

  /** A worker gives its entry up. */
  lemma DropIds(workers: seq<Worker>, w: nat, wk: Worker)
    requires WorkDistinct(workers) && w < |workers| && HasItem(workers[w]) && !HasItem(wk)
    ensures WorkDistinct(workers[w := wk]) && InWork(workers, workers[w].pc.item.id)
    ensures forall id: nat :: InWork(workers[w := wk], id) <==> InWork(workers, id) && id != workers[w].pc.item.id
  {
    var ws := workers[w := wk];
    assert ws[w] == wk;
    forall id: nat ensures InWork(ws, id) <==> InWork(workers, id) && id != workers[w].pc.item.id {
      if InWork(workers, id) && id != workers[w].pc.item.id {
        var v :| 0 <= v < |workers| && HasItem(workers[v]) && workers[v].pc.item.id == id;
        assert ws[v] == workers[v];
      }
    }
  }

  /** A worker goes on with the entry it has, or without one. */
  lemma SameIds(workers: seq<Worker>, w: nat, wk: Worker)
    requires WorkDistinct(workers) && w < |workers| && HasItem(workers[w]) == HasItem(wk)
    requires HasItem(wk) ==> wk.pc.item == workers[w].pc.item
    ensures WorkDistinct(workers[w := wk])
    ensures forall id: nat :: InWork(workers[w := wk], id) <==> InWork(workers, id)
  {
    var ws := workers[w := wk];
    assert ws[w] == wk;
    forall id: nat ensures InWork(ws, id) <==> InWork(workers, id) {
      if InWork(workers, id) {
        var v :| 0 <= v < |workers| && HasItem(workers[v]) && workers[v].pc.item.id == id;
        assert ws[v].pc.item == workers[v].pc.item;
      }
    }
  }

  lemma PushConserves(s: State, task: Task, thread: int)
    requires Conserved(s)
    ensures Conserved(Push(s, task, thread))
  {
    hide InQueue, InWork, QueueDistinct, WorkDistinct;
    assert Located(s, s.next);
    PushIds(s.queue, Item(s.next, task, thread));
    var t := Push(s, task, thread);
    forall id: nat ensures Located(t, id) { assert Located(s, id); }
  }

  lemma StepConserves(s: State, a: Action)
    requires Conserved(s) && Enabled(s, a)
    ensures Conserved(Apply(s, a))
  {
    hide InQueue, InWork, QueueDistinct, WorkDistinct, Located;
    match a
    case Schedule(task, thread) => PushConserves(s, task, thread);
    case NewFiber => SamePlaces(s, Apply(s, a));
    case RequestStop => SamePlaces(s, Apply(s, a));
    case Dequeue(w, i) => DequeueConserves(s, w, i);
    case ScanNothing(w) => SameEntry(s, w, Apply(s, a));
    case Start(w) => StartConserves(s, w);
    case YieldToHold(w) => SameEntry(s, w, Apply(s, a));
    case YieldToReady(w) => SameEntry(s, w, Apply(s, a));
    case Finish(w, _) => SameEntry(s, w, Apply(s, a));
    case SwapOut(w) => SameEntry(s, w, Apply(s, a));
    case Decrement(w) => SameEntry(s, w, Apply(s, a));
    case Settle(w) => SettleConserves(s, w);
    case IdleCheck(w) => SameEntry(s, w, Apply(s, a));
  }

  lemma SamePlaces(s: State, t: State)
    requires Conserved(s) && t.queue == s.queue && t.workers == s.workers && t.next == s.next
    requires t.finished == s.finished && t.discarded == s.discarded
    ensures Conserved(t)
  {
    hide InQueue, InWork;
    forall id: nat ensures Located(t, id) { assert Located(s, id); }
  }

  /** A step of worker `w` that leaves all entries where they are. */
  lemma SameEntry(s: State, w: nat, t: State)
    requires Conserved(s) && w < |s.workers| && |t.workers| == |s.workers|
    requires t.workers == s.workers[w := t.workers[w]]
    requires HasItem(s.workers[w]) == HasItem(t.workers[w])
    requires HasItem(t.workers[w]) ==> t.workers[w].pc.item == s.workers[w].pc.item
    requires t.queue == s.queue && t.next == s.next && t.finished == s.finished && t.discarded == s.discarded
    ensures Conserved(t)
  {
    hide InQueue, InWork, WorkDistinct;
    SameIds(s.workers, w, t.workers[w]);
    forall id: nat ensures Located(t, id) { assert Located(s, id); }
  }

  lemma DequeueConserves(s: State, w: nat, i: nat)
    requires Conserved(s) && Enabled(s, Dequeue(w, i))
    ensures Conserved(Apply(s, Dequeue(w, i)))
  {
    hide InWork, QueueDistinct, WorkDistinct;
    var t := Apply(s, Dequeue(w, i));
    assert InQueue(s.queue, s.queue[i].id) && Located(s, s.queue[i].id);
    RemoveIds(s.queue, i);
    TakeIds(s.workers, w, t.workers[w]);
    forall id: nat ensures Located(t, id) { assert Located(s, id); }
  }

  /** Worker `w` finishes or discards its entry. */
  lemma DropConserves(s: State, w: nat, wk: Worker, done: bool)
    requires Conserved(s) && w < |s.workers| && HasItem(s.workers[w]) && !HasItem(wk)
    ensures var id := s.workers[w].pc.item.id;
      Conserved(s.(workers := s.workers[w := wk],
                   finished := if done then s.finished + {id} else s.finished,
                   discarded := if done then s.discarded else s.discarded + {id}))
  {
    hide InQueue, InWork, WorkDistinct;
    var mine := s.workers[w].pc.item.id;
    DropIds(s.workers, w, wk);
    assert Located(s, mine);
    var t := s.(workers := s.workers[w := wk],
                finished := if done then s.finished + {mine} else s.finished,
                discarded := if done then s.discarded else s.discarded + {mine});
    forall id: nat ensures Located(t, id) { assert Located(s, id); }
  }

  lemma StartConserves(s: State, w: nat)
    requires Conserved(s) && Enabled(s, Start(w))
    ensures Conserved(Apply(s, Start(w)))
  {
    hide InQueue, InWork, QueueDistinct, WorkDistinct, Located, Conserved;
    var t := Apply(s, Start(w));
    var item := s.workers[w].pc.item;
    if item.task.FiberTask? && Ended(s.fibers[item.task.f]) {
      DropConserves(s, w, t.workers[w], false);
      var u := s.(workers := t.workers, discarded := s.discarded + {item.id});
      SamePlaces(u, t);
    } else {
      SameEntry(s, w, t);
    }
  }

  lemma SettleConserves(s: State, w: nat)
    requires Conserved(s) && Enabled(s, Settle(w))
    ensures Conserved(Apply(s, Settle(w)))
  {
    hide InQueue, InWork, QueueDistinct, WorkDistinct, Located, Conserved;
    var t := Apply(s, Settle(w));
    var pc := s.workers[w].pc;
    DropConserves(s, w, t.workers[w], true);
    var u := s.(workers := s.workers[w := t.workers[w]], finished := s.finished + {pc.item.id});
    if s.fibers[pc.f] == READY {
      PushConserves(u, FiberTask(pc.f), ANY_THREAD);
      assert t == Push(u, FiberTask(pc.f), ANY_THREAD);
    } else {
      SamePlaces(u, t);
    }
  }

  // ----- the active counter -----

  predicate Active(wk: Worker) { wk.pc.Holding? || (wk.pc.On? && wk.pc.stage != Settling) }

  function CountActive(workers: seq<Worker>): nat {
    if workers == [] then 0 else (if Active(workers[0]) then 1 else 0) + CountActive(workers[1..])
  }

  lemma {:induction false} CountMove(workers: seq<Worker>, w: nat, wk: Worker)
    requires w < |workers|
    ensures CountActive(workers[w := wk]) + (if Active(workers[w]) then 1 else 0)
         == CountActive(workers) + (if Active(wk) then 1 else 0)
  {
    hide Active;
    var ws := workers[w := wk];
    if w == 0 {
      assert ws[1..] == workers[1..];
    } else {
      assert ws[1..] == workers[1..][w - 1 := wk];
      CountMove(workers[1..], w - 1, wk);
    }
  }

  /** The counter is the number of workers between dequeue and decrement. */
  ghost predicate ActiveExact(s: State) { s.active == CountActive(s.workers) }

  /** A step of worker `w` changes no other worker, and the counter by what it changes of its own activity. */
  ghost predicate OneMoves(s: State, t: State, w: nat) {
    && w < |s.workers| == |t.workers| && t.workers == s.workers[w := t.workers[w]]
    && t.active + (if Active(s.workers[w]) then 1 else 0) == s.active + (if Active(t.workers[w]) then 1 else 0)
  }

  lemma MoveCounts(s: State, t: State, w: nat)
    requires ActiveExact(s) && OneMoves(s, t, w)
    ensures ActiveExact(t)
  {
    hide CountActive;
    CountMove(s.workers, w, t.workers[w]);
  }

  lemma StepCounts(s: State, a: Action)
    requires ActiveExact(s) && Enabled(s, a)
    ensures ActiveExact(Apply(s, a))
  {
    hide CountActive, Eligible;
    var t := Apply(s, a);
    match a
    case Schedule(_, _) =>
    case NewFiber =>
    case RequestStop =>
    case Start(w) => StartMoves(s, w); MoveCounts(s, t, w);
    case Settle(w) => SettleMoves(s, w); MoveCounts(s, t, w);
    case Dequeue(w, _) => MoveCounts(s, t, w);
    case ScanNothing(w) => MoveCounts(s, t, w);
    case YieldToHold(w) => MoveCounts(s, t, w);
    case YieldToReady(w) => MoveCounts(s, t, w);
    case Finish(w, _) => MoveCounts(s, t, w);
    case SwapOut(w) => MoveCounts(s, t, w);
    case Decrement(w) => MoveCounts(s, t, w);
    case IdleCheck(w) => MoveCounts(s, t, w);
  }

  lemma StartMoves(s: State, w: nat)
    requires Enabled(s, Start(w))
    ensures OneMoves(s, Apply(s, Start(w)), w)
  {}

  lemma SettleMoves(s: State, w: nat)
    requires Enabled(s, Settle(w))
    ensures OneMoves(s, Apply(s, Settle(w)), w)
  {}

  // ----- leaving -----

  ghost predicate AllExited(workers: seq<Worker>) {
    forall w :: 0 <= w < |workers| ==> workers[w].pc.Exited?
  }

  ghost predicate OnlyPinned(queue: seq<Item>) {
    forall i :: 0 <= i < |queue| ==> queue[i].thread != ANY_THREAD
  }

  /** When every worker has left, only entries pinned to some thread can still be queued. */
  ghost predicate CleanExit(s: State) { |s.workers| > 0 && AllExited(s.workers) ==> OnlyPinned(s.queue) }

  lemma StepExits(s: State, a: Action)
    requires S.Inv(s) && CleanExit(s) && Enabled(s, a) && Disciplined(s, a)
    ensures CleanExit(Apply(s, a))
  {
    hide S.Inv, Eligible;
    var t := Apply(s, a);
    match a
    case Schedule(_, _) => assert t.workers == s.workers;
    case NewFiber => assert t.workers == s.workers;
    case RequestStop => assert t.workers == s.workers;
    case ScanNothing(w) => LastScan(s, w);
    case Dequeue(w, _) => assert !t.workers[w].pc.Exited?;
    case Start(w) => assert !t.workers[w].pc.Exited?;
    case YieldToHold(w) => assert !t.workers[w].pc.Exited?;
    case YieldToReady(w) => assert !t.workers[w].pc.Exited?;
    case Finish(w, _) => assert !t.workers[w].pc.Exited?;
    case SwapOut(w) => assert !t.workers[w].pc.Exited?;
    case Decrement(w) => assert !t.workers[w].pc.Exited?;
    case Settle(w) => assert !t.workers[w].pc.Exited?;
    case IdleCheck(w) => assert !t.workers[w].pc.Exited?;
  }

  /** The last worker's final scan sees no executing fiber, so it takes every unpinned entry. */
  lemma LastScan(s: State, w: nat)
    requires S.Inv(s) && Enabled(s, ScanNothing(w))
    ensures CleanExit(Apply(s, ScanNothing(w)))
  {
    var t := Apply(s, ScanNothing(w));
    if AllExited(t.workers) {
      forall v | 0 <= v < |s.workers| ensures !s.workers[v].pc.On? {
        if v != w { assert t.workers[v] == s.workers[v]; }
      }
      assert forall f :: 0 <= f < |s.fibers| ==> s.fibers[f] != EXEC;
      forall i | 0 <= i < |s.queue| ensures s.queue[i].thread != ANY_THREAD {
        assert !Eligible(s, w, s.queue[i]);
      }
    }
  }

  // ----- whole runs -----

  lemma {:induction false} RunConserves(s: State, acts: seq<Action>)
    requires S.Inv(s) && Conserved(s) && ActiveExact(s) && CleanExit(s) && S.Legal(s, acts)
    ensures var t := S.Run(s, acts); Conserved(t) && ActiveExact(t) && CleanExit(t)
    decreases |acts|
  {
    hide S.Inv, Conserved, ActiveExact, CleanExit, Enabled, Disciplined, Apply;
    if acts != [] {
      S.StepKeeps(s, acts[0]);
      StepConserves(s, acts[0]);
      StepCounts(s, acts[0]);
      StepExits(s, acts[0]);
      RunConserves(Apply(s, acts[0]), acts[1..]);
    }
  }

  lemma InitialConserved(n: nat)
    ensures var s := S.Initial(n); Conserved(s) && ActiveExact(s) && CleanExit(s)
  {
    var s := S.Initial(n);
    forall id: nat ensures Located(s, id) {}
    NoneActive(s.workers);
  }

  lemma {:induction false} NoneActive(workers: seq<Worker>)
    requires forall w :: 0 <= w < |workers| ==> workers[w].pc.AtHead?
    ensures CountActive(workers) == 0
  {
    if workers != [] { NoneActive(workers[1..]); }
  }

  // ----- runs without the discipline -----

  /** A run of any enabled steps. */
  ghost predicate Possible(s: State, acts: seq<Action>)
    decreases |acts|
  {
    acts == [] || (Enabled(s, acts[0]) && Possible(Apply(s, acts[0]), acts[1..]))
  }

  ghost function Play(s: State, acts: seq<Action>): State
    requires Possible(s, acts)
    decreases |acts|
  {
    if acts == [] then s else Play(Apply(s, acts[0]), acts[1..])
  }

  lemma {:induction false} PlayConserves(s: State, acts: seq<Action>)
    requires Conserved(s) && ActiveExact(s) && Possible(s, acts)
    ensures Conserved(Play(s, acts)) && ActiveExact(Play(s, acts))
    decreases |acts|
  {
    hide Conserved, ActiveExact, Enabled, Apply;
    if acts != [] {
      StepConserves(s, acts[0]);
      StepCounts(s, acts[0]);
      PlayConserves(Apply(s, acts[0]), acts[1..]);
    }
  }

  /** From any number of workers, over every run of enabled steps, disciplined or not. */
  lemma EveryPlayConserves(n: nat, acts: seq<Action>)
    requires Possible(S.Initial(n), acts)
    ensures Conserved(Play(S.Initial(n), acts)) && ActiveExact(Play(S.Initial(n), acts))
  {
    hide Conserved, ActiveExact;
    InitialConserved(n);
    PlayConserves(S.Initial(n), acts);
  }

  /** When all workers have left, what is queued stays queued, whatever happens. */
  lemma {:induction false} QueueStays(s: State, acts: seq<Action>)
    requires AllExited(s.workers) && Possible(s, acts)
    ensures AllExited(Play(s, acts).workers) && s.queue <= Play(s, acts).queue
    decreases |acts|
  {
    hide Eligible;
    if acts != [] { QueueStays(Apply(s, acts[0]), acts[1..]); }
  }

  /** And over every disciplined run, a clean exit. */
  lemma EveryRunConserves(n: nat, acts: seq<Action>)
    requires S.Legal(S.Initial(n), acts)
    ensures var t := S.Run(S.Initial(n), acts);
      && Conserved(t) && ActiveExact(t)
      && (|t.workers| > 0 && AllExited(t.workers) ==>
            OnlyPinned(t.queue) && forall id: nat :: !InWork(t.workers, id))
  {
    S.InitialInv(n);
    InitialConserved(n);
    RunConserves(S.Initial(n), acts);
  }
}
