/**
 The worker group of Helens/worker.cc as a state machine: fibers call schedule and wait for a permit,
 the scheduler runs the callbacks, and one fiber calls waitAll after the last schedule has started.
 */
module WorkerGroup {
  import S = Semaphore

  /**
   A callback: its caller waits in the semaphore, has the permit, has handed the callback to the
   scheduler; it runs, has returned, has given the permit back.
   */
  datatype Job = Blocked | Granted | Posted | Running | Returned | Done

  /** Who waits in the semaphore. */
  datatype Waiter = Caller(job: nat) | Closer

  /** `got`: permits collected by waitAll; `blocked`: waitAll is queued for the next. */
  datatype State = State(batch: nat, sem: S.Sem<Waiter>, jobs: seq<Job>, finish: bool, got: nat, blocked: bool)

  datatype Action =
    | Schedule
    | Post(job: nat)
    | Start(job: nat)
    | Return(job: nat)
    | GiveBack(job: nat)
    | WaitAll
    | Collect

  predicate Enabled(s: State, a: Action) {
    match a
    case Schedule => !s.finish
    case Post(j) => j < |s.jobs| && s.jobs[j].Granted?
    case Start(j) => j < |s.jobs| && s.jobs[j].Posted?
    case Return(j) => j < |s.jobs| && s.jobs[j].Running?
    case GiveBack(j) => j < |s.jobs| && s.jobs[j].Returned?
    case WaitAll => !s.finish
    case Collect => s.finish && !s.blocked && s.got < s.batch
  }

  function Apply(s: State, a: Action): State
    requires Enabled(s, a)
  {
    match a
    case Schedule =>
      var (sem, ok) := S.Take(s.sem, Caller(|s.jobs|));
      s.(sem := sem, jobs := s.jobs + [if ok then Granted else Blocked])
    case Post(j) => s.(jobs := s.jobs[j := Posted])
    case Start(j) => s.(jobs := s.jobs[j := Running])
    case Return(j) => s.(jobs := s.jobs[j := Returned])
    case GiveBack(j) =>
      var (sem, next) := S.Give(s.sem);
      var t := s.(sem := sem, jobs := s.jobs[j := Done]);
      if next.None? then t
      else if next.value.Closer? then t.(got := s.got + 1, blocked := false)
      else if next.value.job < |s.jobs| then t.(jobs := t.jobs[next.value.job := Granted])
      else t
    case WaitAll => s.(finish := true)
    case Collect =>
      var (sem, ok) := S.Take(s.sem, Closer);
      if ok then s.(sem := sem, got := s.got + 1) else s.(sem := sem, blocked := true)
  }

  function Initial(batch: nat): State { State(batch, S.Sem(batch, []), [], false, 0, false) }

  // ----- counting -----

  predicate Holding(j: Job) { j.Granted? || j.Posted? || j.Running? || j.Returned? }

  /** Handed to the scheduler and not yet given back. */
  predicate Flying(j: Job) { j.Posted? || j.Running? || j.Returned? }

  function Holders(jobs: seq<Job>): nat {
    if jobs == [] then 0 else Holders(jobs[..|jobs| - 1]) + (if Holding(jobs[|jobs| - 1]) then 1 else 0)
  }

  function InFlight(jobs: seq<Job>): nat {
    if jobs == [] then 0 else InFlight(jobs[..|jobs| - 1]) + (if Flying(jobs[|jobs| - 1]) then 1 else 0)
  }

  lemma {:induction false} FlyingHold(jobs: seq<Job>)
    ensures InFlight(jobs) <= Holders(jobs)
  {
    if jobs != [] { FlyingHold(jobs[..|jobs| - 1]); }
  }

  lemma {:induction false} HoldersUpdate(jobs: seq<Job>, i: nat, j: Job)
    requires i < |jobs|
    ensures Holders(jobs[i := j]) == Holders(jobs) - (if Holding(jobs[i]) then 1 else 0) + (if Holding(j) then 1 else 0)
  {
    var n := |jobs| - 1;
    if i < n {
      HoldersUpdate(jobs[..n], i, j);
      assert jobs[i := j][..n] == jobs[..n][i := j];
    } else {
      assert jobs[i := j][..n] == jobs[..n];
    }
  }

  lemma HoldersSnoc(jobs: seq<Job>, j: Job)
    ensures Holders(jobs + [j]) == Holders(jobs) + (if Holding(j) then 1 else 0)
  {
    assert (jobs + [j])[..|jobs|] == jobs;
  }

  lemma {:induction false} SomeHolder(jobs: seq<Job>)
    ensures Holders(jobs) > 0 <==> exists i :: 0 <= i < |jobs| && Holding(jobs[i])
  {
    if jobs != [] {
      SomeHolder(jobs[..|jobs| - 1]);
      if i :| 0 <= i < |jobs| && Holding(jobs[i]) && i < |jobs| - 1 { assert Holding(jobs[..|jobs| - 1][i]); }
    }
  }

  // ----- the invariant -----

  ghost predicate Permits(s: State) {
    S.Valid(s.sem) && Holders(s.jobs) + s.got + s.sem.concurrency == s.batch
  }

  /** The queue is the blocked callers, each once, and then waitAll if it is blocked. */
  ghost predicate Queue(s: State) {
    && (forall i :: 0 <= i < |s.sem.waiters| ==> match s.sem.waiters[i]
          case Caller(j) => j < |s.jobs| && s.jobs[j].Blocked?
          case Closer => s.blocked && i == |s.sem.waiters| - 1)
    && (forall j :: 0 <= j < |s.jobs| && s.jobs[j].Blocked? ==> Caller(j) in s.sem.waiters)
    && (s.blocked ==> s.sem.waiters != [] && s.sem.waiters[|s.sem.waiters| - 1] == Closer)
    && (forall i, j :: 0 <= i < j < |s.sem.waiters| ==> s.sem.waiters[i] != s.sem.waiters[j])
  }

  ghost predicate Closing(s: State) {
    && (!s.finish ==> s.got == 0 && !s.blocked)
    && s.got + (if s.blocked then 1 else 0) <= s.batch
    && (s.got > 0 ==> forall j :: 0 <= j < |s.jobs| ==> !s.jobs[j].Blocked?)
    && (s.batch == 0 ==> forall j :: 0 <= j < |s.jobs| ==> s.jobs[j].Blocked?)
  }

  ghost predicate Inv(s: State) { Permits(s) && Queue(s) && Closing(s) }

  lemma KeepSchedule(s: State)
    requires Inv(s) && Enabled(s, Schedule)
    ensures Inv(Apply(s, Schedule))
  {
    hide Holders, Queue;
    QueueGrows(s);
    HoldersSnoc(s.jobs, if s.sem.concurrency > 0 then Granted else Blocked);
  }

  lemma QueueGrows(s: State)
    requires Queue(s) && !s.blocked && S.Valid(s.sem)
    ensures Enabled(s, Schedule) ==> Queue(Apply(s, Schedule))
  {
    if Enabled(s, Schedule) && s.sem.concurrency == 0 {
      var t := Apply(s, Schedule);
      assert t.sem.waiters == s.sem.waiters + [Caller(|s.jobs|)] && t.jobs == s.jobs + [Blocked];
      forall j | 0 <= j < |t.jobs| && t.jobs[j].Blocked? ensures Caller(j) in t.sem.waiters {
        if j < |s.jobs| { assert s.jobs[j].Blocked?; }
      }
    }
  }

  /** A callback moves on without touching the semaphore. */
  lemma KeepMove(s: State, j: nat, to: Job)
    requires Inv(s) && j < |s.jobs| && Holding(s.jobs[j]) && Holding(to)
    ensures Inv(s.(jobs := s.jobs[j := to]))
  {
    hide Holders;
    HoldersUpdate(s.jobs, j, to);
    assert s.batch > 0;
  }

  /** Nobody waits: the permit goes back. */
  lemma KeepReturn(s: State, j: nat)
    requires Inv(s) && Enabled(s, GiveBack(j)) && s.sem.waiters == []
    ensures Inv(Apply(s, GiveBack(j)))
  {
    hide Holders;
    HoldersUpdate(s.jobs, j, Done);
  }

  /** waitAll waits, and therefore alone. */
  lemma KeepHandToCloser(s: State, j: nat)
    requires Inv(s) && Enabled(s, GiveBack(j)) && s.sem.waiters != [] && s.sem.waiters[0].Closer?
    ensures Inv(Apply(s, GiveBack(j)))
  {
    hide Holders;
    HoldersUpdate(s.jobs, j, Done);
    assert s.sem.waiters == [Closer];
  }

  /** A caller waits: it takes the permit over. */
  lemma KeepHandToCaller(s: State, j: nat)
    requires Inv(s) && Enabled(s, GiveBack(j)) && s.sem.waiters != [] && s.sem.waiters[0].Caller?
    ensures Inv(Apply(s, GiveBack(j)))
  {
    hide Holders, Queue;
    var i := s.sem.waiters[0].job;
    assert i < |s.jobs| && s.jobs[i].Blocked? by { FrontBlocked(s); }
    HoldersUpdate(s.jobs, j, Done);
    HoldersUpdate(s.jobs[j := Done], i, Granted);
    QueueShift(s, j);
  }

  lemma FrontBlocked(s: State)
    requires Queue(s) && s.sem.waiters != [] && s.sem.waiters[0].Caller?
    ensures s.sem.waiters[0].job < |s.jobs| && s.jobs[s.sem.waiters[0].job].Blocked?
  {}

  /** The others stay blocked and queued, in order. */
  lemma QueueShift(s: State, j: nat)
    requires Queue(s) && Enabled(s, GiveBack(j)) && s.sem.waiters != [] && s.sem.waiters[0].Caller?
    ensures Queue(Apply(s, GiveBack(j)))
  {
    var t, w := Apply(s, GiveBack(j)), s.sem.waiters;
    var i, rest := w[0].job, w[1..];
    assert t.sem.waiters == rest && t.blocked == s.blocked && t.jobs == s.jobs[j := Done][i := Granted];
    forall n | 0 <= n < |rest| && rest[n].Caller? ensures rest[n].job < |t.jobs| && t.jobs[rest[n].job].Blocked? {
      assert rest[n] == w[n + 1] != w[0];
    }
    forall m | 0 <= m < |t.jobs| && t.jobs[m].Blocked? ensures Caller(m) in rest {
      assert s.jobs[m].Blocked? && w == [w[0]] + rest;
    }
  }

  lemma KeepGiveBack(s: State, j: nat)
    requires Inv(s) && Enabled(s, GiveBack(j))
    ensures Inv(Apply(s, GiveBack(j)))
  {
    hide Inv, Apply;
    if s.sem.waiters == [] {
      KeepReturn(s, j);
    } else if s.sem.waiters[0].Closer? {
      KeepHandToCloser(s, j);
    } else {
      KeepHandToCaller(s, j);
    }
  }

  lemma KeepCollect(s: State)
    requires Inv(s) && Enabled(s, Collect)
    ensures Inv(Apply(s, Collect))
  {
    hide Holders;
  }

  lemma StepKeeps(s: State, a: Action)
    requires Inv(s) && Enabled(s, a)
    ensures Inv(Apply(s, a))
  {
    hide Holders, Queue, Closing, Permits;
    match a
    case Schedule => KeepSchedule(s);
    case Post(j) => KeepMove(s, j, Posted);
    case Start(j) => KeepMove(s, j, Running);
    case Return(j) => KeepMove(s, j, Returned);
    case GiveBack(j) => KeepGiveBack(s, j);
    case WaitAll => KeepWaitAll(s);
    case Collect => KeepCollect(s);
  }

  lemma KeepWaitAll(s: State)
    requires Inv(s) && Enabled(s, WaitAll)
    ensures Inv(Apply(s, WaitAll))
  {
    hide Holders;
  }

  ghost predicate Legal(s: State, run: seq<Action>)
    decreases |run|
  {
    run == [] || (Enabled(s, run[0]) && Legal(Apply(s, run[0]), run[1..]))
  }

  ghost function Run(s: State, run: seq<Action>): State
    requires Legal(s, run)
    decreases |run|
  {
    if run == [] then s else Run(Apply(s, run[0]), run[1..])
  }

  lemma SameBatch(s: State, a: Action)
    requires Enabled(s, a)
    ensures Apply(s, a).batch == s.batch
  {}

  lemma {:induction false} RunKeeps(s: State, run: seq<Action>)
    requires Inv(s) && Legal(s, run)
    ensures Inv(Run(s, run)) && Run(s, run).batch == s.batch
    decreases |run|
  {
    hide Inv, Enabled, Apply;
    if run != [] {
      SameBatch(s, run[0]);
      StepKeeps(s, run[0]);
      RunKeeps(Apply(s, run[0]), run[1..]);
    }
  }

  // ----- the promises -----

  /** The loop of waitAll has collected every permit. */
  predicate Closed(s: State) { s.finish && s.got == s.batch }

  ghost predicate AllDone(s: State) { forall j :: 0 <= j < |s.jobs| ==> s.jobs[j].Done? }

  lemma Promises(s: State)
    requires Inv(s)
    ensures InFlight(s.jobs) <= s.batch
    ensures Closed(s) ==> (AllDone(s) <==> s.batch > 0 || s.jobs == [])
  {
    hide Queue, Holders, InFlight;
    FlyingHold(s.jobs);
    SomeHolder(s.jobs);
    if s.batch == 0 && s.jobs != [] { assert s.jobs[0].Blocked?; }
  }

  /**
   In every reachable state at most batch_size callbacks are in flight. When waitAll returns,
   every callback has run and given its permit back, exactly if there are permits or no callbacks.
   */
  lemma EveryRun(batch: nat, run: seq<Action>)
    requires Legal(Initial(batch), run)
    ensures var s := Run(Initial(batch), run);
      && InFlight(s.jobs) <= batch
      && (Closed(s) ==> (AllDone(s) <==> batch > 0 || s.jobs == []))
  {
    hide Legal, Run, Inv, InFlight, AllDone, Closed;
    InitialInv(batch);
    RunKeeps(Initial(batch), run);
    Promises(Run(Initial(batch), run));
  }

  lemma InitialInv(batch: nat)
    ensures Inv(Initial(batch))
  {}

  /** With no permits, waitAll returns at once past a caller that waits forever. */
  lemma NoPermits()
    ensures Legal(Initial(0), [Schedule, WaitAll])
    ensures var s := Run(Initial(0), [Schedule, WaitAll]);
      Closed(s) && s.jobs == [Blocked]
  {
    var s := Apply(Initial(0), Schedule);
    assert [Schedule, WaitAll][1..] == [WaitAll];
    assert [WaitAll][1..] == [];
    assert Legal(Apply(s, WaitAll), []);
  }

  // ----- waitAll returns -----

  function Rank(j: Job): nat {
    match j
    case Blocked => 5
    case Granted => 4
    case Posted => 3
    case Running => 2
    case Returned => 1
    case Done => 0
  }

  function Ranks(jobs: seq<Job>): nat {
    if jobs == [] then 0 else Ranks(jobs[..|jobs| - 1]) + Rank(jobs[|jobs| - 1])
  }

  lemma {:induction false} RanksUpdate(jobs: seq<Job>, i: nat, j: Job)
    requires i < |jobs|
    ensures Ranks(jobs[i := j]) == Ranks(jobs) - Rank(jobs[i]) + Rank(j)
  {
    var n := |jobs| - 1;
    if i < n {
      RanksUpdate(jobs[..n], i, j);
      assert jobs[i := j][..n] == jobs[..n][i := j];
    } else {
      assert jobs[i := j][..n] == jobs[..n];
    }
  }

  function Remaining(s: State): int {
    Ranks(s.jobs) + 2 * (s.batch - s.got) - (if s.blocked then 1 else 0)
  }

  /** Once waitAll has started, every step brings the end nearer. */
  lemma StepProgress(s: State, a: Action)
    requires Inv(s) && s.finish && Enabled(s, a)
    ensures 0 <= Remaining(Apply(s, a)) < Remaining(s) && Apply(s, a).finish
  {
    hide Ranks, Holders;
    StepKeeps(s, a);
    match a
    case Post(j) => RanksUpdate(s.jobs, j, Posted);
    case Start(j) => RanksUpdate(s.jobs, j, Running);
    case Return(j) => RanksUpdate(s.jobs, j, Returned);
    case GiveBack(j) =>
      RanksUpdate(s.jobs, j, Done);
      var w := s.sem.waiters;
      if w != [] && w[0].Caller? { RanksUpdate(s.jobs[j := Done], w[0].job, Granted); }
    case Collect =>
  }

  /** And until it returns there is a step to take. */
  lemma NoDeadlock(s: State)
    requires Inv(s) && s.finish && !Closed(s)
    ensures exists a :: Enabled(s, a)
  {
    hide Holders;
    SomeHolder(s.jobs);
    if !s.blocked {
      assert Enabled(s, Collect);
    } else {
      assert Holders(s.jobs) > 0;
      var j :| 0 <= j < |s.jobs| && Holding(s.jobs[j]);
      assert Enabled(s, Post(j)) || Enabled(s, Start(j)) || Enabled(s, Return(j)) || Enabled(s, GiveBack(j));
    }
  }

  /** Any way of going on from a started waitAll is at most `Remaining` steps long; where it stops, waitAll has returned. */
  lemma {:induction false} WaitAllReturns(s: State, run: seq<Action>)
    requires Inv(s) && s.finish && Legal(s, run)
    ensures |run| <= Remaining(s)
    ensures (forall a :: !Enabled(Run(s, run), a)) ==> Closed(Run(s, run))
    decreases |run|
  {
    hide Inv, Enabled, Apply, Remaining, Closed;
    if run == [] {
      NotNegative(s);
      if !Closed(s) { NoDeadlock(s); }
    } else {
      StepKeeps(s, run[0]);
      StepProgress(s, run[0]);
      WaitAllReturns(Apply(s, run[0]), run[1..]);
    }
  }

  lemma NotNegative(s: State)
    requires Inv(s)
    ensures Remaining(s) >= 0
  {}
}
