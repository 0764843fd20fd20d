/**
 What a run of the scheduler (Helens/scheduler.cc) says about the state it ends in: who may leave and
 when, which worker has which entry, where a fiber is that yielded to READY. Over every run of
 enabled steps, disciplined or not.
 */
module SchedulerHistory {
  import opened Options
  import opened Scheduler
  import opened SchedulerConservation
  import S = SchedulerSafety

  // ----- one step -----

  /** The entries a step makes: one for each call of schedule, one for each fiber that came back READY. */
  ghost function MadeBy(s: State, a: Action): seq<Item> {
    match a
    case Schedule(task, thread) => [Item(s.next, task, thread)]
    case Settle(w) =>
      if OnStage(s, w, Settling) && s.fibers[s.workers[w].pc.f] == READY
      then [Item(s.next, FiberTask(s.workers[w].pc.f), ANY_THREAD)] else []
    case _ => []
  }

  /** Entries are taken out by Dequeue only, and new ones go to the end, numbered in order. */
  lemma QueueStep(s: State, a: Action)
    requires Enabled(s, a)
    ensures var t := Apply(s, a);
      && t.queue == (if a.Dequeue? then s.queue[..a.i] + s.queue[a.i + 1..] else s.queue) + MadeBy(s, a)
      && t.next == s.next + |MadeBy(s, a)|
  {
    hide Eligible;
  }

  /**
   An entry is discarded exactly when its fiber has ended before a worker gets to run it, and
   finished exactly when its worker is through with it.
   */
  lemma FateStep(s: State, a: Action)
    requires Enabled(s, a)
    ensures var t := Apply(s, a);
      && t.discarded == s.discarded +
           (if a.Start? && s.workers[a.w].pc.item.task.FiberTask? && Ended(s.fibers[s.workers[a.w].pc.item.task.f])
            then {s.workers[a.w].pc.item.id} else {})
      && t.finished == s.finished + (if a.Settle? then {s.workers[a.w].pc.item.id} else {})
  {
    hide Eligible;
  }

  /** The fiber a worker would swap in for the entry it has taken, if it is not new. */
  ghost predicate SwapsIn(s: State, w: nat, f: nat) {
    && w < |s.workers| && s.workers[w].pc.Holding? && f < |s.fibers|
    && match s.workers[w].pc.item.task
       case FiberTask(g) => g == f && !Ended(s.fibers[f])
       case CbTask(_) => s.workers[w].cbFiber == Some(f)
  }

  ghost predicate OnFiber(s: State, w: nat, f: nat) { w < |s.workers| && s.workers[w].pc.On? && s.workers[w].pc.f == f }

  /** The life of a fiber: what each step makes of the states of the fibers there are. */
  ghost function NextState(s: State, a: Action, f: nat): FiberState
    requires f < |s.fibers|
  {
    match a
    case Start(w) => if SwapsIn(s, w, f) then EXEC else s.fibers[f]
    case YieldToReady(w) => if OnFiber(s, w, f) then READY else s.fibers[f]
    case Finish(w, except) => if !OnFiber(s, w, f) then s.fibers[f] else if except then EXCEPT else TERM
    case Settle(w) =>
      if !OnFiber(s, w, f) || s.fibers[f] == READY then s.fibers[f]
      else if s.fibers[f] != TERM && s.fibers[f] != EXCEPT then HOLD
      else if s.workers[w].pc.isCb then INIT else s.fibers[f]
    case _ => s.fibers[f]
  }

  lemma FiberStep(s: State, a: Action, f: nat)
    requires Enabled(s, a) && f < |s.fibers|
    ensures |Apply(s, a).fibers| >= |s.fibers| && Apply(s, a).fibers[f] == NextState(s, a, f)
  {
    hide Eligible;
  }

  /** A new fiber waits to be run for the first time, or is made to run a callback at once. */
  lemma NewFibers(s: State, a: Action)
    requires Enabled(s, a)
    ensures var t := Apply(s, a);
      && (|t.fibers| > |s.fibers| <==>
            a.NewFiber? || (a.Start? && s.workers[a.w].pc.item.task.CbTask? && s.workers[a.w].cbFiber.None?))
      && (|t.fibers| > |s.fibers| ==> t.fibers == s.fibers + [if a.NewFiber? then INIT else EXEC])
  {
    hide Eligible;
  }

  // ----- leaving -----

  ghost predicate NobodyActive(workers: seq<Worker>) {
    forall v :: 0 <= v < |workers| ==> !Active(workers[v])
  }

  lemma {:induction false} NoneCounted(workers: seq<Worker>)
    ensures CountActive(workers) == 0 <==> NobodyActive(workers)
  {
    if workers != [] {
      NoneCounted(workers[1..]);
      if NobodyActive(workers[1..]) && !Active(workers[0]) {
        forall v | 0 <= v < |workers| ensures !Active(workers[v]) {
          assert v > 0 ==> workers[v] == workers[1..][v - 1];
        }
      }
      if NobodyActive(workers) {
        assert !Active(workers[0]);
        forall v | 0 <= v < |workers[1..]| ensures !Active(workers[1..][v]) { assert workers[1..][v] == workers[v + 1]; }
      }
    }
  }

  /** Whoever has left, or is going to, was told so by its idle fiber, and only after a stop was asked for. */
  ghost predicate Stopped(s: State, past: seq<Action>) {
    && (s.stopping <==> RequestStop in past)
    && (forall w :: 0 <= w < |s.workers| && s.workers[w].pc.Exited? ==> s.workers[w].idleDone)
    && (forall w :: 0 <= w < |s.workers| && s.workers[w].idleDone ==> s.stopping)
  }

  /** How one step changes the two marks of a worker. */
  lemma MarkStep(s: State, a: Action, w: nat)
    requires Enabled(s, a) && ActiveExact(s) && w < |s.workers|
    ensures var t := Apply(s, a);
      && |t.workers| == |s.workers| && (t.stopping <==> s.stopping || a.RequestStop?)
      && (t.workers[w].idleDone <==>
            s.workers[w].idleDone || (a == IdleCheck(w) && s.stopping && s.queue == [] && NobodyActive(s.workers)))
      && (t.workers[w].pc.Exited? <==> s.workers[w].pc.Exited? || (a == ScanNothing(w) && s.workers[w].idleDone))
  {
    hide Apply, Enabled, CountActive, NobodyActive;
    NoneCounted(s.workers);
    SameCrew(s, a);
    if a.IdleCheck? || a.ScanNothing? { IdleStep(s, a, w); } else { SameMarks(s, a, w); }
  }

  lemma IdleStep(s: State, a: Action, w: nat)
    requires Enabled(s, a) && (a.IdleCheck? || a.ScanNothing?) && w < |s.workers|
    ensures var t := Apply(s, a);
      && |t.workers| == |s.workers|
      && (t.workers[w].idleDone <==>
            s.workers[w].idleDone || (a == IdleCheck(w) && s.stopping && s.queue == [] && s.active == 0))
      && (t.workers[w].pc.Exited? <==> s.workers[w].pc.Exited? || (a == ScanNothing(w) && s.workers[w].idleDone))
  {
    hide Eligible;
  }

  lemma SameMarks(s: State, a: Action, w: nat)
    requires Enabled(s, a) && !a.IdleCheck? && !a.ScanNothing? && w < |s.workers|
    ensures var t := Apply(s, a);
      && |t.workers| == |s.workers| && t.workers[w].idleDone == s.workers[w].idleDone
      && (t.workers[w].pc.Exited? <==> s.workers[w].pc.Exited?)
  {
    hide Eligible;
  }

  lemma StopStep(s: State, past: seq<Action>, a: Action)
    requires Stopped(s, past) && ActiveExact(s) && Enabled(s, a)
    ensures Stopped(Apply(s, a), past + [a])
  {
    hide Enabled, Apply, ActiveExact, NobodyActive;
    var t := Apply(s, a);
    assert RequestStop in past + [a] <==> RequestStop in past || a == RequestStop;
    MarkAll(s, a);
  }

  lemma MarkAll(s: State, a: Action)
    requires Enabled(s, a) && ActiveExact(s)
    ensures var t := Apply(s, a);
      && |t.workers| == |s.workers| && (t.stopping <==> s.stopping || a.RequestStop?)
      && (forall w :: 0 <= w < |s.workers| && t.workers[w].idleDone ==> s.workers[w].idleDone || s.stopping)
      && (forall w :: 0 <= w < |s.workers| && s.workers[w].idleDone ==> t.workers[w].idleDone)
      && (forall w :: 0 <= w < |s.workers| && t.workers[w].pc.Exited? ==> s.workers[w].pc.Exited? || s.workers[w].idleDone)
  {
    hide Enabled, Apply, ActiveExact, NobodyActive;
    forall w | 0 <= w < |s.workers| { MarkStep(s, a, w); }
    SameCrew(s, a);
  }

  lemma SameCrew(s: State, a: Action)
    requires Enabled(s, a)
    ensures |Apply(s, a).workers| == |s.workers| && (Apply(s, a).stopping <==> s.stopping || a.RequestStop?)
  {
    hide Eligible;
  }

  // ----- entries, their threads and their fibers -----

  /** A worker has only entries for it, and the queue is in the order in which entries were made. */
  ghost predicate InOrder(s: State) {
    && (forall w :: 0 <= w < |s.workers| && HasItem(s.workers[w]) ==>
          s.workers[w].pc.item.thread == -1 || s.workers[w].pc.item.thread == w)
    && (forall i, j :: 0 <= i < j < |s.queue| ==> s.queue[i].id < s.queue[j].id)
    && (forall i :: 0 <= i < |s.queue| ==> s.queue[i].id < s.next)
  }

  lemma OrderStep(s: State, a: Action)
    requires InOrder(s) && Enabled(s, a)
    ensures InOrder(Apply(s, a))
  {
    hide Apply;
    QueueStep(s, a);
    OwnEntries(s, a);
    var left, made := if a.Dequeue? then s.queue[..a.i] + s.queue[a.i + 1..] else s.queue, MadeBy(s, a);
    assert forall j :: 0 <= j < |left| ==> left[j] == s.queue[if a.Dequeue? && a.i <= j then j + 1 else j];
    assert forall j :: 0 <= j < |left + made| ==> (left + made)[j] == if j < |left| then left[j] else made[0];
  }

  lemma OwnEntries(s: State, a: Action)
    requires InOrder(s) && Enabled(s, a)
    ensures var t := Apply(s, a);
      forall w :: 0 <= w < |t.workers| && HasItem(t.workers[w]) ==> t.workers[w].pc.item.thread == -1 || t.workers[w].pc.item.thread == w
  {}

  /** A fiber that has yielded to READY and is on no worker is queued, or a worker has just taken its entry. */
  ghost predicate ReadyKept(s: State) {
    forall f :: 0 <= f < |s.fibers| && s.fibers[f] == READY ==>
      OnWorker(s.workers, f) || Queued(s.queue, f) || Held(s.workers, f)
  }

  lemma ReadyStep(s: State, a: Action)
    requires ReadyKept(s) && Enabled(s, a)
    ensures ReadyKept(Apply(s, a))
  {
    hide Queued, Held, OnWorker, Eligible, Apply, NextState;
    var t := Apply(s, a);
    forall f | 0 <= f < |t.fibers| && t.fibers[f] == READY
      ensures OnWorker(t.workers, f) || Queued(t.queue, f) || Held(t.workers, f)
    {
      NewFibers(s, a);
      assert f < |s.fibers|;
      FiberStep(s, a, f);
      ReadyFiber(s, a, f);
    }
  }

  lemma ReadyFiber(s: State, a: Action, f: nat)
    requires Enabled(s, a) && f < |s.fibers| && NextState(s, a, f) == READY
    requires s.fibers[f] == READY ==> OnWorker(s.workers, f) || Queued(s.queue, f) || Held(s.workers, f)
    ensures var t := Apply(s, a); OnWorker(t.workers, f) || Queued(t.queue, f) || Held(t.workers, f)
  {
    hide Eligible, OnWorker, Queued, Held, Apply;
    if a.YieldToReady? && OnFiber(s, a.w, f) {
      OnStays(s, a, f, a.w);
    } else if OnWorker(s.workers, f) {
      OnSome(s.workers, f);
      var w :| 0 <= w < |s.workers| && s.workers[w].pc.On? && s.workers[w].pc.f == f;
      OnStays(s, a, f, w);
    } else if Queued(s.queue, f) {
      QueuedStays(s, a, f);
    } else {
      HeldStays(s, a, f);
    }
  }

  lemma OnSome(workers: seq<Worker>, f: nat)
    requires OnWorker(workers, f)
    ensures exists w :: 0 <= w < |workers| && workers[w].pc.On? && workers[w].pc.f == f
  {}

  /** Off its worker a READY fiber goes to the queue. */
  lemma OnStays(s: State, a: Action, f: nat, w: nat)
    requires Enabled(s, a) && f < |s.fibers| && OnFiber(s, w, f)
    requires s.fibers[f] == READY || a.YieldToReady?
    ensures var t := Apply(s, a); OnWorker(t.workers, f) || Queued(t.queue, f)
  {
    hide Eligible;
    var t := Apply(s, a);
    if a.Settle? && a.w == w {
      assert t.queue[|s.queue|].task == FiberTask(f);
    } else {
      assert t.workers[w].pc.On? && t.workers[w].pc.f == f;
    }
  }

  lemma QueuedStays(s: State, a: Action, f: nat)
    requires Enabled(s, a) && Queued(s.queue, f)
    ensures var t := Apply(s, a); Queued(t.queue, f) || Held(t.workers, f)
  {
    hide Eligible;
    var t := Apply(s, a);
    var i :| 0 <= i < |s.queue| && s.queue[i].task == FiberTask(f);
    if a.Dequeue? && a.i == i {
      assert t.workers[a.w].pc.Holding? && t.workers[a.w].pc.item.task == FiberTask(f);
    } else {
      assert t.queue[if a.Dequeue? && a.i < i then i - 1 else i].task == FiberTask(f);
    }
  }

  lemma HeldStays(s: State, a: Action, f: nat)
    requires Enabled(s, a) && Held(s.workers, f) && f < |s.fibers| && s.fibers[f] == READY && NextState(s, a, f) == READY
    ensures Held(Apply(s, a).workers, f)
  {
    hide Enabled, Apply;
    var w :| 0 <= w < |s.workers| && s.workers[w].pc.Holding? && s.workers[w].pc.item.task == FiberTask(f);
    HoldingStays(s, a, w);
    assert a != Start(w);
  }

  lemma HoldingStays(s: State, a: Action, w: nat)
    requires Enabled(s, a) && w < |s.workers| && s.workers[w].pc.Holding? && a != Start(w)
    ensures |Apply(s, a).workers| == |s.workers| && Apply(s, a).workers[w].pc == s.workers[w].pc
  {
    hide Eligible;
  }

  // ----- whole runs -----

  ghost predicate Kept(s: State, past: seq<Action>) {
    ActiveExact(s) && Stopped(s, past) && InOrder(s) && ReadyKept(s)
  }

  lemma {:induction false} PlayKeeps(s: State, past: seq<Action>, acts: seq<Action>)
    requires Kept(s, past) && Possible(s, acts)
    ensures Kept(Play(s, acts), past + acts)
    decreases |acts|
  {
    hide ActiveExact, Stopped, InOrder, ReadyKept, Enabled, Apply;
    if acts == [] {
      assert past + acts == past;
    } else {
      StepCounts(s, acts[0]);
      StopStep(s, past, acts[0]);
      OrderStep(s, acts[0]);
      ReadyStep(s, acts[0]);
      PlayKeeps(Apply(s, acts[0]), past + [acts[0]], acts[1..]);
      assert past + [acts[0]] + acts[1..] == past + acts;
    }
  }

  /**
   From any number of workers: nobody leaves or is told to leave unless a stop was asked for before;
   entries pinned to a thread are only ever with that thread; the queue is in the order of arrival;
   no fiber that yielded to READY gets lost.
   */
  lemma EveryPlay(n: nat, acts: seq<Action>)
    requires Possible(S.Initial(n), acts)
    ensures var t := Play(S.Initial(n), acts);
      && (RequestStop !in acts ==> forall w :: 0 <= w < |t.workers| ==> !t.workers[w].pc.Exited? && !t.workers[w].idleDone)
      && InOrder(t) && ReadyKept(t)
  {
    hide ActiveExact, InOrder, ReadyKept;
    var s := S.Initial(n);
    InitialConserved(n);
    InitialKept(n);
    PlayKeeps(s, [], acts);
    assert [] + acts == acts;
  }

  lemma InitialKept(n: nat)
    ensures var s := S.Initial(n); Stopped(s, []) && InOrder(s) && ReadyKept(s)
  {}

  /**
   When exactly a worker's idle fiber ends: at a check after a stop was asked for, with nothing
   queued and no worker between taking an entry and having run it. When exactly a worker leaves: when
   it then finds nothing to take. Neither is ever undone.
   */
  lemma LeavesExactly(n: nat, acts: seq<Action>, a: Action, w: nat)
    requires Possible(S.Initial(n), acts) && Enabled(Play(S.Initial(n), acts), a) && w < |Play(S.Initial(n), acts).workers|
    ensures var s := Play(S.Initial(n), acts);
      var t := Apply(s, a);
      && |t.workers| == |s.workers|
      && (t.workers[w].idleDone <==>
            s.workers[w].idleDone || (a == IdleCheck(w) && RequestStop in acts && s.queue == [] && NobodyActive(s.workers)))
      && (t.workers[w].pc.Exited? <==> s.workers[w].pc.Exited? || (a == ScanNothing(w) && s.workers[w].idleDone))
  {
    hide ActiveExact, InOrder, ReadyKept, Enabled, Apply, NobodyActive;
    var s := S.Initial(n);
    InitialConserved(n);
    InitialKept(n);
    PlayKeeps(s, [], acts);
    assert [] + acts == acts;
    MarkStep(Play(s, acts), a, w);
  }

  /** A disciplined run is one of these runs. */
  lemma {:induction false} DisciplinedIsPossible(s: State, acts: seq<Action>)
    requires S.Legal(s, acts)
    ensures Possible(s, acts) && Play(s, acts) == S.Run(s, acts)
    decreases |acts|
  {
    hide Enabled, Disciplined, Apply;
    if acts != [] { DisciplinedIsPossible(Apply(s, acts[0]), acts[1..]); }
  }

  lemma EveryRun(n: nat, acts: seq<Action>)
    requires S.Legal(S.Initial(n), acts)
    ensures var t := S.Run(S.Initial(n), acts);
      && (RequestStop !in acts ==> forall w :: 0 <= w < |t.workers| ==> !t.workers[w].pc.Exited? && !t.workers[w].idleDone)
      && InOrder(t) && ReadyKept(t)
  {
    DisciplinedIsPossible(S.Initial(n), acts);
    EveryPlay(n, acts);
  }
}
