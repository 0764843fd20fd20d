/**
 Each clause of the scheduler's discipline is needed: runs from the initial state of two workers in
 which one step breaks it, everything before and after keeps it, and an assertion of Helens/fiber.cc
 fails or an entry is stranded.
 */
module SchedulerFailures {
  import opened Options
  import opened Scheduler
  import opened SchedulerSafety
  import SchedulerConservation

  // ----- runs, step by step -----

  lemma NoStep(s: State)
    ensures Legal(s, []) && Run(s, []) == s
  {}

  lemma FirstStep(s: State, a: Action, rest: seq<Action>)
    requires Enabled(s, a) && Disciplined(s, a) && Legal(Apply(s, a), rest)
    ensures Legal(s, [a] + rest) && Run(s, [a] + rest) == Run(Apply(s, a), rest)
  {
    assert ([a] + rest)[1..] == rest;
  }

  /** A disciplined run of three steps. */
  lemma ThreeSteps(s: State, a: Action, b: Action, c: Action)
    requires Enabled(s, a) && Disciplined(s, a)
    requires Enabled(Apply(s, a), b) && Disciplined(Apply(s, a), b)
    requires Enabled(Apply(Apply(s, a), b), c) && Disciplined(Apply(Apply(s, a), b), c)
    ensures Legal(s, [a, b, c]) && Run(s, [a, b, c]) == Apply(Apply(Apply(s, a), b), c)
  {
    hide Enabled, Disciplined, Apply, Legal, Run;
    NoStep(Apply(Apply(Apply(s, a), b), c));
    assert [a, b, c] == [a] + [b, c] && [b, c] == [b] + [c] && [c] == [c] + [];
    FirstStep(Apply(Apply(s, a), b), c, []);
    FirstStep(Apply(s, a), b, [c]);
    FirstStep(s, a, [b, c]);
  }

  lemma {:induction false} Joined(s: State, a: seq<Action>, b: seq<Action>)
    requires Legal(s, a) && Legal(Run(s, a), b)
    ensures Legal(s, a + b) && Run(s, a + b) == Run(Run(s, a), b)
    decreases |a|
  {
    hide Enabled, Disciplined, Apply;
    if a == [] {
      assert a + b == b;
    } else {
      assert (a + b)[0] == a[0] && (a + b)[1..] == a[1..] + b;
      Joined(Apply(s, a[0]), a[1..], b);
    }
  }

  // ----- a callback on the first of two workers -----

  const AtEase := Worker(AtHead, None, false)
  const First := Item(0, CbTask(0), ANY_THREAD)
  const Entry := Item(1, FiberTask(0), ANY_THREAD)

  /** The first worker runs a callback on fiber 0. */
  function Busy(queue: seq<Item>, next: nat): State {
    State([EXEC], queue, [Worker(On(First, 0, true, Running), Some(0), false), AtEase], 1, false, next, {}, {})
  }

  /** The callback is over, and the first worker keeps fiber 0 as its spare. */
  function Spare(queue: seq<Item>, next: nat): State {
    State([INIT], queue, [Worker(AtHead, Some(0), false), AtEase], 0, false, next, {0}, {})
  }

  const Begin := [Schedule(CbTask(0), ANY_THREAD), Dequeue(0, 0), Start(0)]

  lemma Begins()
    ensures Legal(Initial(2), Begin) && Run(Initial(2), Begin) == Busy([], 1)
  {
    var s := Initial(2);
    assert s.workers == [AtEase, AtEase] && s.workers[0].pc.AtHead?;
    var s1 := Apply(s, Begin[0]);
    assert s1.queue == [First];
    var s2 := Apply(s1, Begin[1]);
    assert s2 == State([], [], [Worker(Holding(First), None, false), AtEase], 1, false, 1, {}, {});
    assert Apply(s2, Begin[2]) == Busy([], 1);
    ThreeSteps(s, Begin[0], Begin[1], Begin[2]);
  }

  /** From the end of the callback to the loop head. */
  lemma Ends(queue: seq<Item>, next: nat)
    ensures var s := Busy(queue, next);
      && Enabled(s, Finish(0, false))
      && var t := Apply(s, Finish(0, false));
      && Legal(t, [SwapOut(0), Decrement(0), Settle(0)]) && Run(t, [SwapOut(0), Decrement(0), Settle(0)]) == Spare(queue, next)
  {
    var t := Apply(Busy(queue, next), Finish(0, false));
    assert t.fibers == [TERM];
    var t1 := Apply(t, SwapOut(0));
    var t2 := Apply(t1, Decrement(0));
    assert t2.workers == [Worker(On(First, 0, true, Settling), Some(0), false), AtEase];
    assert Apply(t2, Settle(0)) == Spare(queue, next);
    ThreeSteps(t, SwapOut(0), Decrement(0), Settle(0));
  }

  const Stolen := [Dequeue(1, 0), Start(1), Schedule(CbTask(1), ANY_THREAD)]

  /** The second worker runs the first one's spare fiber; the next callback of the first finds it executing. */
  lemma SpareStolen()
    ensures var s := Spare([Entry], 2);
      && Legal(s, Stolen + [Dequeue(0, 0)])
      && var t := Run(s, Stolen + [Dequeue(0, 0)]);
      && Enabled(t, Start(0)) && !Asserts(t, Start(0))
  {
    hide Legal, Run;
    var s := Spare([Entry], 2);
    var s1 := Apply(s, Stolen[0]);
    assert s1 == State([INIT], [], [Worker(AtHead, Some(0), false), Worker(Holding(Entry), None, false)], 1, false, 2, {0}, {});
    var s2 := Apply(s1, Stolen[1]);
    assert s2.workers == [Worker(AtHead, Some(0), false), Worker(On(Entry, 0, false, Running), None, false)] && s2.fibers == [EXEC];
    assert SomeoneRuns(s2) by { assert !s2.workers[0].pc.Exited?; }
    ThreeSteps(s, Stolen[0], Stolen[1], Stolen[2]);
    var s3 := Apply(s2, Stolen[2]);
    assert s3 == Robbed();
    NextCallback();
    LastStep(s3, Dequeue(0, 0));
    Joined(s, Stolen, [Dequeue(0, 0)]);
  }

  /** The second worker is on the first one's spare fiber, and a callback is queued. */
  function Robbed(): State {
    State([EXEC], [Item(2, CbTask(1), ANY_THREAD)],
          [Worker(AtHead, Some(0), false), Worker(On(Entry, 0, false, Running), None, false)], 1, false, 3, {0}, {})
  }

  lemma NextCallback()
    ensures Enabled(Robbed(), Dequeue(0, 0))
    ensures var t := Apply(Robbed(), Dequeue(0, 0));
      Enabled(t, Start(0)) && !Asserts(t, Start(0))
  {}

  lemma LastStep(s: State, a: Action)
    requires Enabled(s, a) && Disciplined(s, a)
    ensures Legal(s, [a]) && Run(s, [a]) == Apply(s, a)
  {
    hide Enabled, Disciplined, Apply;
    NoStep(Apply(s, a));
    FirstStep(s, a, []);
    assert [a] == [a] + [];
  }

  // ----- the failures -----

  /**
   A callback's fiber ends with its own single entry still queued: no fiber has two entries at any
   time, all other steps are disciplined, and the assertion in `reset` fails.
   */
  lemma OwnEntryFails()
    ensures var before := Begin + [Schedule(FiberTask(0), ANY_THREAD)];
      var after := [SwapOut(0), Decrement(0), Settle(0)] + (Stolen + [Dequeue(0, 0)]);
      && Legal(Initial(2), before)
      && var s := Run(Initial(2), before);
      && Enabled(s, Finish(0, false)) && !Disciplined(s, Finish(0, false))
      && var t := Apply(s, Finish(0, false));
      && Legal(t, after) && Enabled(Run(t, after), Start(0)) && !Asserts(Run(t, after), Start(0))
  {
    hide Legal, Run;
    Begins();
    var s := Busy([], 1);
    assert SomeoneRuns(s) by { assert !s.workers[0].pc.Exited?; }
    assert !Pooled(s, 0) && !Outstanding(s, 0);
    LastStep(s, Schedule(FiberTask(0), ANY_THREAD));
    Joined(Initial(2), Begin, [Schedule(FiberTask(0), ANY_THREAD)]);
    var u := Busy([Entry], 2);
    assert Apply(s, Schedule(FiberTask(0), ANY_THREAD)) == u;
    assert Queued(u.queue, 0) by { assert u.queue[0].task == FiberTask(0); }
    Ends([Entry], 2);
    SpareStolen();
    Joined(Apply(u, Finish(0, false)), [SwapOut(0), Decrement(0), Settle(0)], Stolen + [Dequeue(0, 0)]);
  }

  /** Somebody schedules the fiber a worker keeps as its spare: the assertion in `reset` fails. */
  lemma SpareEntryFails()
    ensures var before := Begin + ([Finish(0, false)] + [SwapOut(0), Decrement(0), Settle(0)]);
      && Legal(Initial(2), before)
      && var s := Run(Initial(2), before);
      && Enabled(s, Schedule(FiberTask(0), ANY_THREAD)) && !Disciplined(s, Schedule(FiberTask(0), ANY_THREAD))
      && var t := Apply(s, Schedule(FiberTask(0), ANY_THREAD));
      && Legal(t, Stolen + [Dequeue(0, 0)])
      && Enabled(Run(t, Stolen + [Dequeue(0, 0)]), Start(0)) && !Asserts(Run(t, Stolen + [Dequeue(0, 0)]), Start(0))
  {
    hide Legal, Run;
    Begins();
    var s := Busy([], 1);
    Ends([], 1);
    assert !Outstanding(s, 0);
    FirstStep(s, Finish(0, false), [SwapOut(0), Decrement(0), Settle(0)]);
    Joined(Initial(2), Begin, [Finish(0, false)] + [SwapOut(0), Decrement(0), Settle(0)]);
    var u := Spare([], 1);
    assert Pooled(u, 0) by { assert u.workers[0].cbFiber == Some(0); }
    assert Apply(u, Schedule(FiberTask(0), ANY_THREAD)) == Spare([Entry], 2);
    SpareStolen();
  }

  /**
   From any state in which a fiber that could run has two entries at the front of the queue and two
   workers are at the loop head, three ordinary steps lead to a fourth whose assertion in `swapIn` fails.
   */
  lemma TwoEntriesFail(s: State, w: nat, v: nat, f: nat)
    requires w < |s.workers| && v < |s.workers| && w != v && f < |s.fibers|
    requires s.workers[w].pc.AtHead? && s.workers[v].pc.AtHead?
    requires s.workers[w].cbFiber.None? && s.workers[v].cbFiber.None?
    requires s.fibers[f] != EXEC && !Ended(s.fibers[f])
    requires |s.queue| >= 2 && s.queue[0].task == FiberTask(f) == s.queue[1].task
    requires s.queue[0].thread == ANY_THREAD == s.queue[1].thread
    ensures Legal(s, [Dequeue(w, 0), Dequeue(v, 0), Start(w)])
    ensures var t := Run(s, [Dequeue(w, 0), Dequeue(v, 0), Start(w)]);
      Enabled(t, Start(v)) && !Asserts(t, Start(v))
  {
    hide Legal, Run;
    assert Eligible(s, w, s.queue[0]);
    var s1 := Apply(s, Dequeue(w, 0));
    assert s1.queue[0] == s.queue[1];
    assert Eligible(s1, v, s1.queue[0]);
    var s2 := Apply(s1, Dequeue(v, 0));
    assert s2.workers[w].pc == Holding(s.queue[0]) && s2.workers[v].pc == Holding(s.queue[1]);
    var s3 := Apply(s2, Start(w));
    assert s3.workers[v] == s2.workers[v];
    ThreeSteps(s, Dequeue(w, 0), Dequeue(v, 0), Start(w));
  }

  /** A fiber is scheduled a second time while its first entry is queued: four steps on, the assertion in `swapIn` fails. */
  lemma SecondEntryFails()
    ensures var before := [NewFiber] + [Schedule(FiberTask(0), ANY_THREAD)];
      var after := [Dequeue(0, 0), Dequeue(1, 0), Start(0)];
      && Legal(Initial(2), before)
      && var s := Run(Initial(2), before);
      && Enabled(s, Schedule(FiberTask(0), ANY_THREAD)) && !Disciplined(s, Schedule(FiberTask(0), ANY_THREAD))
      && var t := Apply(s, Schedule(FiberTask(0), ANY_THREAD));
      && Legal(t, after) && Enabled(Run(t, after), Start(1)) && !Asserts(Run(t, after), Start(1))
  {
    hide Legal, Run;
    var s := Initial(2);
    assert s.workers == [AtEase, AtEase];
    var s1 := Apply(s, NewFiber);
    assert SomeoneRuns(s1) by { assert !s1.workers[0].pc.Exited?; }
    assert !Outstanding(s1, 0) && !Pooled(s1, 0);
    LastStep(s1, Schedule(FiberTask(0), ANY_THREAD));
    FirstStep(s, NewFiber, [Schedule(FiberTask(0), ANY_THREAD)]);
    var s2 := Apply(s1, Schedule(FiberTask(0), ANY_THREAD));
    assert Queued(s2.queue, 0) by { assert s2.queue[0].task == FiberTask(0); }
    TwoEntriesFail(Apply(s2, Schedule(FiberTask(0), ANY_THREAD)), 0, 1, 0);
  }

  /** A fiber with an entry queued yields to READY and is queued again: it has two entries, and they fail. */
  lemma ReadyTwiceFails()
    ensures var before := [NewFiber] + [Schedule(FiberTask(0), ANY_THREAD)] + [Dequeue(0, 0), Start(0), Schedule(FiberTask(0), ANY_THREAD)];
      var after := [SwapOut(0), Decrement(0), Settle(0)] + [Dequeue(0, 0), Dequeue(1, 0), Start(0)];
      && Legal(Initial(2), before)
      && var s := Run(Initial(2), before);
      && Enabled(s, YieldToReady(0)) && !Disciplined(s, YieldToReady(0))
      && var t := Apply(s, YieldToReady(0));
      && Legal(t, after) && Enabled(Run(t, after), Start(1)) && !Asserts(Run(t, after), Start(1))
  {
    hide Legal, Run;
    FiberRuns();
    var s := Running0([Entry], 2);
    assert Queued(s.queue, 0) by { assert s.queue[0].task == FiberTask(0); }
    var t := Apply(s, YieldToReady(0));
    YieldsReady();
    TwoEntriesFail(Run(t, [SwapOut(0), Decrement(0), Settle(0)]), 0, 1, 0);
    Joined(t, [SwapOut(0), Decrement(0), Settle(0)], [Dequeue(0, 0), Dequeue(1, 0), Start(0)]);
  }

  /** The first worker runs fiber 0. */
  function Running0(queue: seq<Item>, next: nat): State {
    State([EXEC], queue, [Worker(On(Item(0, FiberTask(0), ANY_THREAD), 0, false, Running), None, false), AtEase], 1, false, next, {}, {})
  }

  lemma FiberRuns()
    ensures var before := [NewFiber] + [Schedule(FiberTask(0), ANY_THREAD)] + [Dequeue(0, 0), Start(0), Schedule(FiberTask(0), ANY_THREAD)];
      Legal(Initial(2), before) && Run(Initial(2), before) == Running0([Entry], 2)
  {
    hide Legal, Run;
    var s := Initial(2);
    assert s.workers == [AtEase, AtEase];
    var s1 := Apply(s, NewFiber);
    assert SomeoneRuns(s1) by { assert !s1.workers[0].pc.Exited?; }
    assert !Outstanding(s1, 0) && !Pooled(s1, 0);
    LastStep(s1, Schedule(FiberTask(0), ANY_THREAD));
    FirstStep(s, NewFiber, [Schedule(FiberTask(0), ANY_THREAD)]);
    RunsQueued();
    assert Apply(s1, Schedule(FiberTask(0), ANY_THREAD)) == QueuedOnce0();
    Joined(s, [NewFiber] + [Schedule(FiberTask(0), ANY_THREAD)], [Dequeue(0, 0), Start(0), Schedule(FiberTask(0), ANY_THREAD)]);
  }

  function QueuedOnce0(): State {
    State([INIT], [Item(0, FiberTask(0), ANY_THREAD)], [AtEase, AtEase], 0, false, 1, {}, {})
  }

  lemma RunsQueued()
    ensures var acts := [Dequeue(0, 0), Start(0), Schedule(FiberTask(0), ANY_THREAD)];
      Legal(QueuedOnce0(), acts) && Run(QueuedOnce0(), acts) == Running0([Entry], 2)
  {
    hide Legal, Run;
    var s := QueuedOnce0();
    var s1 := Apply(s, Dequeue(0, 0));
    assert s1 == State([INIT], [], [Worker(Holding(Item(0, FiberTask(0), ANY_THREAD)), None, false), AtEase], 1, false, 1, {}, {});
    var s2 := Apply(s1, Start(0));
    assert s2 == Running0([], 1);
    assert SomeoneRuns(s2) by { assert !s2.workers[0].pc.Exited?; }
    assert !Outstanding(s2, 0) && !Pooled(s2, 0);
    ThreeSteps(s, Dequeue(0, 0), Start(0), Schedule(FiberTask(0), ANY_THREAD));
  }

  function Settling0(): State {
    State([READY], [Entry], [Worker(On(Item(0, FiberTask(0), ANY_THREAD), 0, false, Settling), None, false), AtEase], 0, false, 2, {}, {})
  }

  lemma SettlesReady()
    ensures Enabled(Settling0(), Settle(0))
    ensures Apply(Settling0(), Settle(0))
         == State([READY], [Entry, Item(2, FiberTask(0), ANY_THREAD)], [AtEase, AtEase], 0, false, 3, {0}, {})
  {}

  lemma YieldsReady()
    ensures var t := Apply(Running0([Entry], 2), YieldToReady(0));
      && Legal(t, [SwapOut(0), Decrement(0), Settle(0)])
      && Run(t, [SwapOut(0), Decrement(0), Settle(0)])
         == State([READY], [Entry, Item(2, FiberTask(0), ANY_THREAD)], [AtEase, AtEase], 0, false, 3, {0}, {})
  {
    hide Legal, Run;
    var t := Apply(Running0([Entry], 2), YieldToReady(0));
    assert t.fibers == [READY];
    SettlesReady();
    var t1 := Apply(t, SwapOut(0));
    var t2 := Apply(t1, Decrement(0));
    assert t2 == Settling0();
    ThreeSteps(t, SwapOut(0), Decrement(0), Settle(0));
  }

  /** Two workers that find nothing to do, are asked to stop, and leave. */
  const Leaving1 := [RequestStop, ScanNothing(0), IdleCheck(0)]
  const Leaving2 := [ScanNothing(0), ScanNothing(1), IdleCheck(1)]

  const Gone := Worker(Exited, None, true)
  const Ready := Worker(AtHead, None, true)

  lemma AllLeave()
    ensures var acts := Leaving1 + (Leaving2 + [ScanNothing(1)]);
      Legal(Initial(2), acts) && Run(Initial(2), acts) == State([], [], [Gone, Gone], 0, true, 0, {}, {})
  {
    hide Legal, Run;
    var s := Initial(2);
    assert s.workers == [AtEase, AtEase];
    var s1 := State([], [], [Ready, AtEase], 0, true, 0, {}, {});
    assert Apply(Apply(Apply(s, RequestStop), ScanNothing(0)), IdleCheck(0)) == s1;
    ThreeSteps(s, RequestStop, ScanNothing(0), IdleCheck(0));
    var s2 := State([], [], [Gone, Ready], 0, true, 0, {}, {});
    assert Apply(Apply(Apply(s1, ScanNothing(0)), ScanNothing(1)), IdleCheck(1)) == s2;
    ThreeSteps(s1, ScanNothing(0), ScanNothing(1), IdleCheck(1));
    LastStep(s2, ScanNothing(1));
    assert Apply(s2, ScanNothing(1)).workers == [Gone, Gone];
    Joined(s1, Leaving2, [ScanNothing(1)]);
    Joined(s, Leaving1, Leaving2 + [ScanNothing(1)]);
  }

  /** Something is scheduled after both workers have left: it stays queued, in every continuation. */
  lemma LateEntryStays(cb: nat, more: seq<Action>)
    ensures var before := Leaving1 + (Leaving2 + [ScanNothing(1)]);
      && Legal(Initial(2), before)
      && var s, a := Run(Initial(2), before), Schedule(CbTask(cb), ANY_THREAD);
      && Enabled(s, a) && !Disciplined(s, a)
      && var t := Apply(s, a);
      && SchedulerConservation.Possible(t, more) ==>
           Item(0, CbTask(cb), ANY_THREAD) in SchedulerConservation.Play(t, more).queue
  {
    hide Legal, Run, SchedulerConservation.Possible, SchedulerConservation.Play;
    AllLeave();
    var s, a := State([], [], [Gone, Gone], 0, true, 0, {}, {}), Schedule(CbTask(cb), ANY_THREAD);
    assert !SomeoneRuns(s);
    var t := Apply(s, a);
    if SchedulerConservation.Possible(t, more) {
      SchedulerConservation.QueueStays(t, more);
      assert t.queue[0] == Item(0, CbTask(cb), ANY_THREAD);
    }
  }
}
