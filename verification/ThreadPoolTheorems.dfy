/** The promises of the worker pool, over every run from `ccpool_start`. */
module ThreadPoolTheorems {
  import opened Basics
  import opened ThreadPool
  import opened ThreadPoolSafety

  /** The state after a run of a pool started with `n` workers and used by `m` client threads. */
  ghost predicate Reached(n: nat, m: nat, steps: seq<Step>, s: Pool) {
    IsRun(Start(n, m), steps) && s == After(Start(n, m), steps)
  }

  lemma ReachedInv(n: nat, m: nat, steps: seq<Step>, s: Pool)
    requires Reached(n, m, steps, s)
    ensures Inv(s) && |s.workers| == n
  {
    InvStart(n, m);
    InvRun(Start(n, m), steps);
  }

  /** The next step of a thread inside a critical section. */
  function NextInside(s: Pool, thread: Thread): Step
    requires Owns(s, thread)
  {
    match thread
    case WorkerThread(i) =>
      (match s.workers[i]
       case Checking => ByWorker(i, Check)
       case Finishing => ByWorker(i, Report)
       case Decremented => ByWorker(i, SignalIdle(set j: nat | j < |s.clients| && s.clients[j].WaitAsleep?))
       case _ => ByWorker(i, Unlock))
    case ClientThread(i) =>
      (match s.clients[i]
       case Inserting(_) => ByClient(i, Insert)
       case Signalling => ByClient(i, SignalWork(AllAsleep(s.workers)))
       case WaitChecking(_) => ByClient(i, Test)
       case _ => ByClient(i, Release))
    case StopperThread =>
      (match s.stopper
       case Raising => ByStopper(Raise)
       case Clearing => ByStopper(Clear)
       case Broadcasting => ByStopper(Broadcast)
       case _ => ByStopper(Leave))
  }

  /** A thread that owns the mutex is never stuck. */
  lemma OwnerCanMove(s: Pool, thread: Thread)
    requires Owns(s, thread)
    ensures Enabled(s, NextInside(s, thread))
  {
    match thread
    case WorkerThread(i) =>
      var woken := set j: nat | j < |s.clients| && s.clients[j].WaitAsleep?;
      assert forall j :: 0 <= j < |s.clients| && ClientAsleep(s.clients[j]) ==> j in woken;
    case ClientThread(i) =>
      assert forall j :: 0 <= j < |s.workers| && WorkerAsleep(s.workers[j]) ==> j in AllAsleep(s.workers);
    case StopperThread =>
  }

  /** While some worker sleeps on `cv`, there are at least as many workers awake and without a task as
      there are queued tasks; between an insertion and its signal, one fewer. So a task never waits for
      workers that are all asleep. */
  lemma NoWakeupIsLost(n: nat, m: nat, steps: seq<Step>, s: Pool)
    requires Reached(n, m, steps, s)
    ensures SomeAsleep(s) ==> |s.queue| <= Count(s.workers, Available) + Count(s.clients, AboutToSignal)
    ensures SomeAsleep(s) && (forall i :: 0 <= i < |s.clients| ==> !AboutToSignal(s.clients[i])) ==>
      |s.queue| <= Count(s.workers, Available)
    ensures n > 0 && s.queue != [] && s.owner.None? ==> exists i :: 0 <= i < |s.workers| && !s.workers[i].Asleep?
  {
    ReachedInv(n, m, steps, s);
    CountBounds(s.clients, AboutToSignal);
    if n > 0 && s.queue != [] && s.owner.None? && forall i :: 0 <= i < |s.workers| ==> s.workers[i].Asleep? {
      assert s.workers[0].Asleep?;
      CountBounds(s.workers, Available);
      forall i | 0 <= i < |s.clients| ensures !AboutToSignal(s.clients[i]) {
        assert !Owns(s, ClientThread(i));
      }
      CountBounds(s.clients, AboutToSignal);
    }
  }

  /** First in, first out, and nothing lost; a dequeued task is in the hand of exactly one worker or
      has run; nothing runs twice and nothing is freed twice. */
  lemma TasksAreConserved(n: nat, m: nat, steps: seq<Step>, s: Pool)
    requires Reached(n, m, steps, s)
    ensures s.submitted == s.dequeued + s.discarded + s.queue
    ensures forall t :: multiset(s.submitted)[t] <= 1
    ensures forall t :: multiset(s.dequeued)[t] == Holding(s.workers, ToRun, t) + multiset(s.ran)[t]
    ensures forall t :: multiset(s.ran)[t] <= 1 && multiset(s.released)[t] <= 1
    ensures forall t :: t in s.ran ==> t in s.dequeued && t !in s.discarded
  {
    ReachedInv(n, m, steps, s);
    forall t
      ensures multiset(s.submitted)[t] <= 1
      ensures multiset(s.dequeued)[t] == Holding(s.workers, ToRun, t) + multiset(s.ran)[t]
      ensures multiset(s.ran)[t] <= 1 && multiset(s.released)[t] <= 1
      ensures t in s.ran ==> t in s.dequeued && t !in s.discarded
    {
      assert Entries(s, t) <= 1;
      assert Accounted(s, t);
      assert multiset(s.submitted) == multiset(s.dequeued) + multiset(s.discarded) + multiset(s.queue);
      assert t in s.ran <==> multiset(s.ran)[t] > 0;
      assert t in s.dequeued <==> multiset(s.dequeued)[t] > 0;
      assert t in s.discarded <==> multiset(s.discarded)[t] > 0;
    }
  }

  /** `in_work` is exactly the number of workers between dequeue and decrement. */
  lemma InWorkCounts(n: nat, m: nat, steps: seq<Step>, s: Pool)
    requires Reached(n, m, steps, s) && n < WIDTH
    ensures s.inWork == Count(s.workers, Busy)
  {
    ReachedInv(n, m, steps, s);
    CountBounds(s.workers, Busy);
  }

  // ---- work goes on --------------------------------------------------------------------------------------

  /** A worker leaves only because of a stop. */
  ghost predicate LeaversSawStop(s: Pool) {
    forall i :: 0 <= i < |s.workers| && (s.workers[i].Leaving? || s.workers[i].Exited?) ==> s.stop
  }

  lemma LeaversStep(s: Pool, step: Step)
    requires LeaversSawStop(s) && Enabled(s, step)
    ensures LeaversSawStop(Do(s, step))
  {
    var s' := Do(s, step);
    forall i | 0 <= i < |s'.workers| && (s'.workers[i].Leaving? || s'.workers[i].Exited?) ensures s'.stop {
      if step.ByWorker? && step.w != i {
        assert s'.workers[i] == s.workers[i];
      }
    }
  }

  lemma {:induction false} LeaversRun(s: Pool, steps: seq<Step>)
    requires LeaversSawStop(s) && IsRun(s, steps)
    ensures LeaversSawStop(After(s, steps))
    decreases |steps|
  {
    if steps != [] {
      LeaversStep(s, steps[0]);
      LeaversRun(Do(s, steps[0]), steps[1..]);
    }
  }

  /** Until a stop, a queued task is never stuck: the owner of the mutex can move, or a worker can without a
      spurious wakeup. */
  lemma WorkIsNeverStuck(n: nat, m: nat, steps: seq<Step>, s: Pool)
    requires Reached(n, m, steps, s) && n > 0 && s.queue != [] && !s.stop
    ensures (s.owner.Some? && Owns(s, s.owner.value) && Enabled(s, NextInside(s, s.owner.value)))
      || exists w, act :: act != Wake && Enabled(s, ByWorker(w, act))
  {
    ReachedInv(n, m, steps, s);
    LeaversRun(Start(n, m), steps);
    if s.owner.Some? {
      assert Owns(s, s.owner.value);
      OwnerCanMove(s, s.owner.value);
    } else {
      NoWakeupIsLost(n, m, steps, s);
      var i :| 0 <= i < |s.workers| && !s.workers[i].Asleep?;
      assert !Owns(s, WorkerThread(i));
      var act := match s.workers[i] case Running(_) => Run case Ran(_) => Free case _ => Lock;
      assert act != Wake && Enabled(s, ByWorker(i, act));
    }
  }

  // ---- ccpool_wait is a barrier ------------------------------------------------------------------

  predicate InWait(c: Client) {
    c.WaitLock? || c.WaitChecking? || c.WaitAsleep? || c.WaitWoken? || c.WaitUnlock? || c.Returned?
  }

  /** What a client inside ccpool_wait becomes keeps its mark. */
  predicate SameWait(a: Client, b: Client) { InWait(b) && Mark(b) == Mark(a) }

  lemma MarkIsKeptClient(s: Pool, i: nat, act: ClientAct, c: nat)
    requires Enabled(s, ByClient(i, act)) && c < |s.clients| && InWait(s.clients[c]) && (i == c ==> !act.Resume?)
    ensures SameWait(s.clients[c], DoClient(s, i, act).clients[c])
  {
    if i != c {
      assert DoClient(s, i, act).clients[c] == s.clients[c];
    }
  }

  lemma MarkIsKeptStep(s: Pool, step: Step, c: nat)
    requires Enabled(s, step) && c < |s.clients| && InWait(s.clients[c]) && step != ByClient(c, Resume)
    ensures |Do(s, step).clients| == |s.clients| && SameWait(s.clients[c], Do(s, step).clients[c])
  {
    if step.ByClient? {
      MarkIsKeptClient(s, step.c, step.act, c);
    }
  }

  /** A client keeps its mark from the call of ccpool_wait until it uses the pool again. */
  lemma {:induction false} MarkIsKept(s: Pool, steps: seq<Step>, c: nat)
    requires IsRun(s, steps) && c < |s.clients| && InWait(s.clients[c])
    requires ByClient(c, Resume) !in steps
    ensures c < |After(s, steps).clients| && SameWait(s.clients[c], After(s, steps).clients[c])
    ensures s.submitted <= After(s, steps).submitted
    decreases |steps|
  {
    if steps != [] {
      HistoriesGrow(s, steps[0]);
      assert steps[0] != ByClient(c, Resume);
      MarkIsKeptStep(s, steps[0], c);
      MarkIsKept(Do(s, steps[0]), steps[1..], c);
      PrefixTransitive(s.submitted, Do(s, steps[0]).submitted, After(s, steps).submitted);
    }
  }

  lemma PrefixTransitive<T>(a: seq<T>, b: seq<T>, c: seq<T>)
    requires a <= b <= c
    ensures a <= c
  {
  }

  /** When a call of ccpool_wait has returned, every task submitted before the call has run or was
      thrown away by ccpool_stop; whatever happened in between, with up to 255 workers. */
  lemma WaitIsABarrier(n: nat, m: nat, before: seq<Step>, s: Pool, c: nat, steps: seq<Step>)
    requires Reached(n, m, before, s) && n < WIDTH
    requires IsRun(s, [ByClient(c, Wait)] + steps) && ByClient(c, Resume) !in steps
    requires var end := After(s, [ByClient(c, Wait)] + steps); c < |end.clients| && end.clients[c].Returned?
    ensures var end := After(s, [ByClient(c, Wait)] + steps);
      forall t :: t in s.submitted ==> t in end.ran || t in end.discarded
  {
    ReachedInv(n, m, before, s);
    var all := [ByClient(c, Wait)] + steps;
    assert all[0] == ByClient(c, Wait) && all[1..] == steps;
    var s1 := Do(s, all[0]);
    InvStep(s, all[0]);
    MarkIsKept(s1, steps, c);
    InvRun(s1, steps);
    var end := After(s, all);
    assert Settled(end, |s.submitted|);
    forall t | t in s.submitted ensures t in end.ran || t in end.discarded {
      var j :| 0 <= j < |s.submitted| && s.submitted[j] == t;
      assert end.submitted[j] == t;
    }
  }

  // ---- shutting down -----------------------------------------------------------------------------

  /** How many steps a worker can still take once `stop` is set. */
  function Rank(w: Worker): nat {
    match w
    case Took(_) => 11
    case Running(_) => 10
    case Ran(_) => 9
    case AtFinishLock => 8
    case Finishing => 7
    case Decremented => 6
    case Unlocking => 5
    case Asleep => 5
    case AtLock => 4
    case Woken => 4
    case Checking => 3
    case Leaving => 2
    case Exited => 0
  }

  function StepsLeft(ws: seq<Worker>): nat {
    if ws == [] then 0 else Rank(ws[0]) + StepsLeft(ws[1..])
  }

  lemma {:induction false} StepsLeftUpdate(ws: seq<Worker>, i: nat, w: Worker)
    requires i < |ws|
    ensures StepsLeft(ws[i := w]) + Rank(ws[i]) == StepsLeft(ws) + Rank(w)
  {
    if i == 0 {
      assert ws[i := w][1..] == ws[1..];
    } else {
      assert ws[i := w][1..] == ws[1..][i - 1 := w];
      StepsLeftUpdate(ws[1..], i - 1, w);
    }
  }

  lemma {:induction false} StepsLeftWaking(ws: seq<Worker>, woken: set<nat>)
    requires forall i <- woken :: i < |ws| && ws[i].Asleep?
    ensures StepsLeft(WakeWorkers(ws, woken)) <= StepsLeft(ws)
  {
    StepsLeftMonotone(WakeWorkers(ws, woken), ws);
  }

  lemma {:induction false} StepsLeftMonotone(vs: seq<Worker>, ws: seq<Worker>)
    requires |vs| == |ws| && forall i :: 0 <= i < |ws| ==> Rank(vs[i]) <= Rank(ws[i])
    ensures StepsLeft(vs) <= StepsLeft(ws)
  {
    if ws != [] {
      StepsLeftMonotone(vs[1..], ws[1..]);
    }
  }

  /** Once `stop` is set it stays set, no task leaves the queue any more, no worker falls asleep, and
      each worker step brings the workers closer to their exits, however the threads interleave. */
  lemma StopDrains(s: Pool, step: Step)
    requires Inv(s) && s.stop && Enabled(s, step)
    ensures Do(s, step).stop && Do(s, step).dequeued == s.dequeued
    ensures forall i :: 0 <= i < |s.workers| && Do(s, step).workers[i].Asleep? ==> s.workers[i].Asleep?
    ensures Stopped(s) ==> !SomeAsleep(s)
    ensures StepsLeft(Do(s, step).workers) <= StepsLeft(s.workers)
    ensures step.ByWorker? ==> StepsLeft(Do(s, step).workers) < StepsLeft(s.workers)
  {
    var s' := Do(s, step);
    match step
    case ByWorker(w, act) =>
      assert s'.workers == s.workers[w := s'.workers[w]];
      StepsLeftUpdate(s.workers, w, s'.workers[w]);
    case ByClient(c, act) =>
      if act.SignalWork? {
        StepsLeftWaking(s.workers, act.woken);
      }
    case ByStopper(act) =>
      if act.Broadcast? {
        StepsLeftWaking(s.workers, AllAsleep(s.workers));
      }
  }

  function WorkerSteps(steps: seq<Step>): nat {
    if steps == [] then 0 else Indicator(steps[0].ByWorker?) + WorkerSteps(steps[1..])
  }

  /** So after `stop` the workers together take a bounded number of steps, in any run. */
  lemma {:induction false} ShutdownIsBounded(s: Pool, steps: seq<Step>)
    requires Inv(s) && s.stop && IsRun(s, steps)
    ensures WorkerSteps(steps) + StepsLeft(After(s, steps).workers) <= StepsLeft(s.workers)
    ensures After(s, steps).dequeued == s.dequeued
    decreases |steps|
  {
    if steps != [] {
      StopDrains(s, steps[0]);
      InvStep(s, steps[0]);
      ShutdownIsBounded(Do(s, steps[0]), steps[1..]);
    }
  }

  /** After the broadcast, while some worker has not exited, a worker can move or the thread that owns
      the mutex can: with StopDrains, every worker exits and every join returns. */
  lemma ShutdownIsNeverStuck(s: Pool)
    requires Inv(s) && Stopped(s)
    requires exists i :: 0 <= i < |s.workers| && !s.workers[i].Exited?
    ensures (exists w, act :: Enabled(s, ByWorker(w, act)))
      || (s.owner.Some? && Owns(s, s.owner.value) && Enabled(s, NextInside(s, s.owner.value)))
  {
    var i :| 0 <= i < |s.workers| && !s.workers[i].Exited?;
    if s.owner.Some? {
      assert Owns(s, s.owner.value);
      OwnerCanMove(s, s.owner.value);
    } else {
      assert !Owns(s, WorkerThread(i));
      var act := match s.workers[i] case Running(_) => Run case Ran(_) => Free case _ => Lock;
      assert Enabled(s, ByWorker(i, act));
    }
  }

  /** With up to 255 workers the pool is freed only when every worker has exited, so no task is in
      hand and every task that was dequeued has run and was freed. */
  lemma FreedAfterTheLastExit(n: nat, m: nat, steps: seq<Step>, s: Pool)
    requires Reached(n, m, steps, s) && n < WIDTH && s.stopper.Freed?
    ensures |s.workers| == n && forall i :: 0 <= i < |s.workers| ==> s.workers[i].Exited?
    ensures s.inWork == 0
    ensures forall t :: t in s.dequeued ==> t in s.ran && t in s.released
  {
    ReachedInv(n, m, steps, s);
    CountBounds(s.workers, Busy);
    forall t | t in s.dequeued ensures t in s.ran && t in s.released {
      assert Accounted(s, t);
      assert multiset(s.dequeued)[t] > 0;
      HoldingNone(s.workers, ToRun, t);
      HoldingNone(s.workers, InHand, t);
      assert multiset(s.ran)[t] > 0 && multiset(s.released)[t] > 0;
    }
  }
}
