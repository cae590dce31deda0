/** Where the promises of the worker pool end. A thread in ccpool_wait can be left asleep with nothing
    outstanding, and a pool of more than 255 threads outgrows its two uint8_t counters; both are shown
    by runs, together with the exact conditions under which they cannot happen. */
module ThreadPoolLimits {
  import opened Basics
  import opened ThreadPool
  import opened ThreadPoolSafety
  import opened ThreadPoolTheorems

  // ---- runs with at most `w` waiters asleep, with or without a stop ------------------------------------

  ghost predicate Allowed(s: Pool, w: nat, stops: bool) {
    Count(s.clients, ClientAsleep) <= w && (s.stop ==> stops)
  }

  ghost predicate Within(s: Pool, steps: seq<Step>, w: nat, stops: bool)
    requires IsRun(s, steps)
    decreases |steps|
  {
    Allowed(s, w, stops) && (steps != [] ==> Within(Do(s, steps[0]), steps[1..], w, stops))
  }

  /** `s` can be reached from the start through allowed states only. */
  ghost predicate Reachable(n: nat, m: nat, w: nat, stops: bool, s: Pool) {
    exists steps :: IsRun(Start(n, m), steps) && Within(Start(n, m), steps, w, stops) && After(Start(n, m), steps) == s
  }

  lemma {:induction false} RunExtends(s: Pool, steps: seq<Step>, step: Step, w: nat, stops: bool)
    requires IsRun(s, steps) && Within(s, steps, w, stops)
    requires Enabled(After(s, steps), step) && Allowed(Do(After(s, steps), step), w, stops)
    ensures IsRun(s, steps + [step]) && Within(s, steps + [step], w, stops)
    ensures After(s, steps + [step]) == Do(After(s, steps), step)
    decreases |steps|
  {
    var all := steps + [step];
    if steps == [] {
      assert all[0] == step && all[1..] == [];
    } else {
      assert all[0] == steps[0] && all[1..] == steps[1..] + [step];
      RunExtends(Do(s, steps[0]), steps[1..], step, w, stops);
    }
  }

  lemma ReachStart(n: nat, m: nat, w: nat, stops: bool)
    ensures Reachable(n, m, w, stops, Start(n, m))
  {
    CountBounds(Start(n, m).clients, ClientAsleep);
    assert IsRun(Start(n, m), []);
  }

  lemma ReachStep(n: nat, m: nat, w: nat, stops: bool, s: Pool, step: Step)
    requires Reachable(n, m, w, stops, s) && Enabled(s, step) && Allowed(Do(s, step), w, stops)
    ensures Reachable(n, m, w, stops, Do(s, step))
  {
    var steps :| IsRun(Start(n, m), steps) && Within(Start(n, m), steps, w, stops) && After(Start(n, m), steps) == s;
    RunExtends(Start(n, m), steps, step, w, stops);
  }

  lemma ReachAllowed(n: nat, m: nat, w: nat, stops: bool, s: Pool)
    requires Reachable(n, m, w, stops, s)
    ensures Allowed(s, w, stops)
  {
    var steps :| IsRun(Start(n, m), steps) && Within(Start(n, m), steps, w, stops) && After(Start(n, m), steps) == s;
    WithinEnd(Start(n, m), steps, w, stops);
  }

  lemma {:induction false} WithinEnd(s: Pool, steps: seq<Step>, w: nat, stops: bool)
    requires IsRun(s, steps) && Within(s, steps, w, stops)
    ensures Allowed(After(s, steps), w, stops)
    decreases |steps|
  {
    if steps != [] {
      WithinEnd(Do(s, steps[0]), steps[1..], w, stops);
    }
  }

  /** A worker step leaves the clients alone or wakes some; a client step adds a sleeper only by Test. */
  lemma ReachWorker(n: nat, m: nat, w: nat, stops: bool, s: Pool, i: nat, act: WorkerAct)
    requires Reachable(n, m, w, stops, s) && Enabled(s, ByWorker(i, act))
    ensures Reachable(n, m, w, stops, DoWorker(s, i, act))
  {
    ReachAllowed(n, m, w, stops, s);
    CountGrows(DoWorker(s, i, act).clients, s.clients, ClientAsleep);
    ReachStep(n, m, w, stops, s, ByWorker(i, act));
  }

  lemma ReachClient(n: nat, m: nat, w: nat, stops: bool, s: Pool, i: nat, act: ClientAct)
    requires Reachable(n, m, w, stops, s) && Enabled(s, ByClient(i, act))
    requires act.Test? ==> Count(s.clients, ClientAsleep) < w
    ensures Reachable(n, m, w, stops, DoClient(s, i, act))
  {
    ReachAllowed(n, m, w, stops, s);
    CountUpdate(s.clients, i, DoClient(s, i, act).clients[i], ClientAsleep);
    ReachStep(n, m, w, stops, s, ByClient(i, act));
  }

  lemma ReachStopper(n: nat, m: nat, w: nat, s: Pool, act: StopAct)
    requires Reachable(n, m, w, true, s) && Enabled(s, ByStopper(act))
    ensures Reachable(n, m, w, true, DoStopper(s, act))
  {
    ReachAllowed(n, m, w, true, s);
    ReachStep(n, m, w, true, s, ByStopper(act));
  }

  // ---- whole calls, run without interruption ------------------------------------------------------------

  function Submitted(s: Pool, t: Task): Pool {
    s.(queue := s.queue + [t], submitted := s.submitted + [t], issued := s.issued + {t})
  }

  lemma ReachSubmit(n: nat, m: nat, w: nat, stops: bool, s: Pool, c: nat, t: Task)
    requires Reachable(n, m, w, stops, s) && Live(s) && s.owner.None? && !SomeAsleep(s)
    requires c < |s.clients| && s.clients[c].Idle? && t !in s.issued
    ensures Reachable(n, m, w, stops, Submitted(s, t))
  {
    ReachClient(n, m, w, stops, s, c, Submit(t));
    var s1 := DoClient(s, c, Submit(t));
    ReachClient(n, m, w, stops, s1, c, Acquire);
    var s2 := DoClient(s1, c, Acquire);
    ReachClient(n, m, w, stops, s2, c, Insert);
    var s3 := DoClient(s2, c, Insert);
    ReachClient(n, m, w, stops, s3, c, SignalWork({}));
    var s4 := DoClient(s3, c, SignalWork({}));
    ReachClient(n, m, w, stops, s4, c, Release);
    var s5 := DoClient(s4, c, Release);
    assert s5.clients == s.clients;
    assert s5.workers == s.workers;
    assert s5 == Submitted(s, t);
  }

  function Sleeping(s: Pool, c: nat): Pool
    requires c < |s.clients|
  {
    s.(clients := s.clients[c := WaitAsleep(|s.submitted|)])
  }

  lemma ReachSleep(n: nat, m: nat, w: nat, stops: bool, s: Pool, c: nat)
    requires Reachable(n, m, w, stops, s) && Live(s) && s.owner.None? && Outstanding(s)
    requires c < |s.clients| && s.clients[c].Idle? && Count(s.clients, ClientAsleep) < w
    ensures Reachable(n, m, w, stops, Sleeping(s, c))
  {
    ReachClient(n, m, w, stops, s, c, Wait);
    var s1 := DoClient(s, c, Wait);
    CountUpdate(s.clients, c, s1.clients[c], ClientAsleep);
    ReachClient(n, m, w, stops, s1, c, Acquire);
    var s2 := DoClient(s1, c, Acquire);
    CountUpdate(s1.clients, c, s2.clients[c], ClientAsleep);
    ReachClient(n, m, w, stops, s2, c, Test);
    assert DoClient(s2, c, Test) == Sleeping(s, c);
  }

  function Taken(s: Pool, i: nat): Pool
    requires i < |s.workers| && s.queue != []
  {
    s.(workers := s.workers[i := Running(s.queue[0])], queue := s.queue[1..],
       dequeued := s.dequeued + [s.queue[0]], inWork := Increment(s.inWork))
  }

  lemma ReachTake(n: nat, m: nat, w: nat, stops: bool, s: Pool, i: nat)
    requires Reachable(n, m, w, stops, s) && !s.stop && s.owner.None? && s.queue != []
    requires i < |s.workers| && s.workers[i].AtLock?
    ensures Reachable(n, m, w, stops, Taken(s, i))
  {
    ReachWorker(n, m, w, stops, s, i, Lock);
    var s1 := DoWorker(s, i, Lock);
    ReachWorker(n, m, w, stops, s1, i, Check);
    var s2 := DoWorker(s1, i, Check);
    ReachWorker(n, m, w, stops, s2, i, Unlock);
    assert DoWorker(s2, i, Unlock) == Taken(s, i);
  }

  function Completed(s: Pool, i: nat, woken: set<nat>): Pool
    requires i < |s.workers| && s.workers[i].Running?
  {
    s.(workers := s.workers[i := AtLock], clients := WakeClients(s.clients, woken),
       ran := s.ran + [s.workers[i].task], released := s.released + [s.workers[i].task],
       inWork := Decrement(s.inWork))
  }

  function Done(s: Pool, i: nat): Pool
    requires i < |s.workers| && s.workers[i].Running?
  {
    s.(workers := s.workers[i := AtFinishLock],
       ran := s.ran + [s.workers[i].task], released := s.released + [s.workers[i].task])
  }

  lemma ReachDone(n: nat, m: nat, w: nat, stops: bool, s: Pool, i: nat)
    requires Reachable(n, m, w, stops, s) && i < |s.workers| && s.workers[i].Running?
    ensures Reachable(n, m, w, stops, Done(s, i))
  {
    ReachWorker(n, m, w, stops, s, i, Run);
    var s1 := DoWorker(s, i, Run);
    ReachWorker(n, m, w, stops, s1, i, Free);
    assert DoWorker(s1, i, Free) == Done(s, i);
  }

  function Reported(s: Pool, i: nat, woken: set<nat>): Pool
    requires i < |s.workers|
  {
    s.(workers := s.workers[i := AtLock], clients := WakeClients(s.clients, woken), inWork := Decrement(s.inWork))
  }

  lemma ReachReported(n: nat, m: nat, w: nat, stops: bool, s: Pool, i: nat, woken: set<nat>)
    requires Reachable(n, m, w, stops, s) && s.owner.None? && i < |s.workers| && s.workers[i].AtFinishLock?
    requires WakesSome(s.clients, ClientAsleep, woken)
    ensures Reachable(n, m, w, stops, Reported(s, i, woken))
  {
    ReachWorker(n, m, w, stops, s, i, Lock);
    var s1 := DoWorker(s, i, Lock);
    ReachWorker(n, m, w, stops, s1, i, Report);
    var s2 := DoWorker(s1, i, Report);
    ReachWorker(n, m, w, stops, s2, i, SignalIdle(woken));
    var s3 := DoWorker(s2, i, SignalIdle(woken));
    ReachWorker(n, m, w, stops, s3, i, Unlock);
    assert DoWorker(s3, i, Unlock) == Reported(s, i, woken);
  }

  lemma ReachComplete(n: nat, m: nat, w: nat, stops: bool, s: Pool, i: nat, woken: set<nat>)
    requires Reachable(n, m, w, stops, s) && s.owner.None?
    requires i < |s.workers| && s.workers[i].Running? && WakesSome(s.clients, ClientAsleep, woken)
    ensures Reachable(n, m, w, stops, Completed(s, i, woken))
  {
    ReachDone(n, m, w, stops, s, i);
    ReachReported(n, m, w, stops, Done(s, i), i, woken);
    assert Reported(Done(s, i), i, woken) == Completed(s, i, woken);
  }

  function StopRaised(s: Pool): Pool {
    s.(stop := true, queue := [], discarded := s.discarded + s.queue, released := s.released + s.queue,
       workers := WakeWorkers(s.workers, AllAsleep(s.workers)), stopper := Joining(0))
  }

  lemma ReachStop(n: nat, m: nat, w: nat, s: Pool)
    requires Reachable(n, m, w, true, s) && s.stopper.NotCalled? && s.owner.None?
    ensures Reachable(n, m, w, true, StopRaised(s))
  {
    ReachStopper(n, m, w, s, Call);
    var s1 := DoStopper(s, Call);
    ReachStopper(n, m, w, s1, Enter);
    var s2 := DoStopper(s1, Enter);
    ReachStopper(n, m, w, s2, Raise);
    var s3 := DoStopper(s2, Raise);
    ReachStopper(n, m, w, s3, Clear);
    var s4 := DoStopper(s3, Clear);
    ReachStopper(n, m, w, s4, Broadcast);
    var s5 := DoStopper(s4, Broadcast);
    ReachStopper(n, m, w, s5, Leave);
    assert DoStopper(s5, Leave) == StopRaised(s);
  }

  // ---- when ccpool_wait can be left asleep ----------------------------------------------------------------

  /** A queued task that a worker will take. */
  predicate Served(s: Pool) { s.queue != [] && !s.stop && s.workers != [] }

  /** Worker `i` still has a signal to send for the task it took. */
  predicate WillSignal(s: Pool, i: nat)
    requires i < |s.workers|
  {
    Busy(s.workers[i]) || AboutToReport(s.workers[i])
  }

  ghost predicate AtWork(s: Pool) { exists i :: 0 <= i < |s.workers| && WillSignal(s, i) }

  ghost predicate OthersAtWork(s: Pool, w: nat) { exists i :: 0 <= i < |s.workers| && i != w && WillSignal(s, i) }

  /** Something is left that will signal `idle_cv`. */
  ghost predicate Pending(s: Pool) { Served(s) || AtWork(s) }

  /** Some client sleeps in ccpool_wait that is not in `woken`. */
  ghost predicate SleeperBut(s: Pool, woken: set<nat>) {
    exists i :: 0 <= i < |s.clients| && s.clients[i].WaitAsleep? && i !in woken
  }

  /** A client sleeps in ccpool_wait although nothing is left that would signal it. */
  ghost predicate Stranded(s: Pool) { !Pending(s) && SleeperBut(s, {}) }

  /** The steps that strand a client: the last signal passes a sleeper over; a stop is raised over a sleeper
      with no task in hand; or a client goes to sleep over a queue that nobody will take from. */
  ghost predicate Strands(s: Pool, step: Step) {
    match step
    case ByWorker(w, act) => act.SignalIdle? && !Served(s) && !OthersAtWork(s, w) && SleeperBut(s, act.woken)
    case ByClient(c, act) => act.Test? && s.queue != [] && !Pending(s)
    case ByStopper(act) => act.Raise? && !AtWork(s) && SleeperBut(s, {})
  }

  lemma AtWorkMeans(s: Pool)
    requires CounterMeans(s) && s.inWork != 0
    ensures AtWork(s)
  {
    CountBounds(s.workers, Busy);
    var i :| 0 <= i < |s.workers| && Busy(s.workers[i]);
    assert WillSignal(s, i);
  }

  /** A worker's step other than the signal leaves no less pending, and no more sleepers. */
  lemma WorkerStrandsNobody(s: Pool, w: nat, act: WorkerAct)
    requires Enabled(s, ByWorker(w, act)) && !act.SignalIdle? && !Stranded(s)
    ensures !Stranded(DoWorker(s, w, act))
  {
    var s' := DoWorker(s, w, act);
    if AtWork(s) {
      var i :| 0 <= i < |s.workers| && WillSignal(s, i);
      assert WillSignal(s', i);
    } else if Served(s) && !Served(s') {
      assert WillSignal(s', w);
    }
  }

  lemma SignalStrandsIff(s: Pool, w: nat, woken: set<nat>)
    requires Enabled(s, ByWorker(w, SignalIdle(woken)))
    ensures Stranded(DoWorker(s, w, SignalIdle(woken))) <==> Strands(s, ByWorker(w, SignalIdle(woken)))
  {
    var s' := DoWorker(s, w, SignalIdle(woken));
    if i :| 0 <= i < |s.workers| && i != w && WillSignal(s, i) {
      assert WillSignal(s', i);
    }
    if i :| 0 <= i < |s'.workers| && WillSignal(s', i) {
      assert i != w && WillSignal(s, i);
    }
    if i :| 0 <= i < |s.clients| && s.clients[i].WaitAsleep? && i !in woken {
      assert s'.clients[i].WaitAsleep?;
    }
    if i :| 0 <= i < |s'.clients| && s'.clients[i].WaitAsleep? {
      assert s.clients[i].WaitAsleep? && i !in woken;
    }
  }

  lemma ClientKeepsWork(s: Pool, c: nat, act: ClientAct)
    requires Enabled(s, ByClient(c, act))
    ensures AtWork(DoClient(s, c, act)) <==> AtWork(s)
  {
    var s' := DoClient(s, c, act);
    if i :| 0 <= i < |s.workers| && WillSignal(s, i) {
      assert WillSignal(s', i);
    }
    if i :| 0 <= i < |s'.workers| && WillSignal(s', i) {
      assert WillSignal(s, i);
    }
  }

  lemma ClientStrandsIff(s: Pool, c: nat, act: ClientAct)
    requires CounterMeans(s) && Enabled(s, ByClient(c, act)) && !Stranded(s)
    ensures Stranded(DoClient(s, c, act)) <==> Strands(s, ByClient(c, act))
  {
    var s' := DoClient(s, c, act);
    ClientKeepsWork(s, c, act);
    if s.inWork != 0 {
      AtWorkMeans(s);
    }
    if Strands(s, ByClient(c, act)) {
      assert s'.clients[c].WaitAsleep?;
    } else if i :| 0 <= i < |s'.clients| && s'.clients[i].WaitAsleep? {
      assert s.clients[i].WaitAsleep? || (i == c && act.Test?);
    }
  }

  lemma StopperStrandsIff(s: Pool, act: StopAct)
    requires StopPhase(s) && Enabled(s, ByStopper(act)) && !Stranded(s)
    ensures Stranded(DoStopper(s, act)) <==> Strands(s, ByStopper(act))
  {
    var s' := DoStopper(s, act);
    if i :| 0 <= i < |s.workers| && WillSignal(s, i) {
      assert WillSignal(s', i);
    }
    if i :| 0 <= i < |s'.workers| && WillSignal(s', i) {
      assert WillSignal(s, i);
    }
  }

  /** Exactly these steps strand a client that was not stranded before. */
  lemma StrandsIff(s: Pool, step: Step)
    requires Inv(s) && Enabled(s, step) && !Stranded(s)
    ensures Stranded(Do(s, step)) <==> Strands(s, step)
  {
    match step
    case ByWorker(w, act) =>
      if act.SignalIdle? {
        SignalStrandsIff(s, w, act.woken);
      } else {
        WorkerStrandsNobody(s, w, act);
      }
    case ByClient(c, act) => ClientStrandsIff(s, c, act);
    case ByStopper(act) => StopperStrandsIff(s, act);
  }

  /** No state of the run has a stranded client. */
  ghost predicate NeverStranded(s: Pool, steps: seq<Step>)
    requires IsRun(s, steps)
    decreases |steps|
  {
    !Stranded(s) && (steps != [] ==> NeverStranded(Do(s, steps[0]), steps[1..]))
  }

  /** No step of the run is one that strands. */
  ghost predicate NoneStrands(s: Pool, steps: seq<Step>)
    requires IsRun(s, steps)
    decreases |steps|
  {
    steps != [] ==> !Strands(s, steps[0]) && NoneStrands(Do(s, steps[0]), steps[1..])
  }

  lemma {:induction false} NeverStrandedFrom(s: Pool, steps: seq<Step>)
    requires Inv(s) && !Stranded(s) && IsRun(s, steps)
    ensures NeverStranded(s, steps) <==> NoneStrands(s, steps)
    decreases |steps|
  {
    if steps != [] {
      StrandsIff(s, steps[0]);
      if !Strands(s, steps[0]) {
        InvStep(s, steps[0]);
        NeverStrandedFrom(Do(s, steps[0]), steps[1..]);
      }
    }
  }

  /** A run of any pool leaves nobody stranded exactly when none of its steps is one of the three. */
  lemma NeverStrandedIff(n: nat, m: nat, steps: seq<Step>)
    requires IsRun(Start(n, m), steps)
    ensures NeverStranded(Start(n, m), steps) <==> NoneStrands(Start(n, m), steps)
  {
    InvStart(n, m);
    NeverStrandedFrom(Start(n, m), steps);
  }

  lemma StrandedStaysWorker(s: Pool, w: nat, act: WorkerAct)
    requires Enabled(s, ByWorker(w, act)) && Stranded(s)
    ensures Stranded(DoWorker(s, w, act))
  {
    var s' := DoWorker(s, w, act);
    var i :| 0 <= i < |s.clients| && s.clients[i].WaitAsleep?;
    assert !WillSignal(s, w);
    assert s'.clients[i].WaitAsleep?;
    if j :| 0 <= j < |s'.workers| && WillSignal(s', j) {
      assert WillSignal(s, j);
    }
  }

  /** Once a client is stranded, only a spurious wakeup or, before a stop, a further submission can help it. */
  lemma StrandedStays(s: Pool, step: Step)
    requires StopPhase(s) && Enabled(s, step) && Stranded(s)
    requires step.ByClient? ==> !step.act.Rouse? && (step.act.Insert? ==> s.stop || s.workers == [])
    ensures Stranded(Do(s, step))
  {
    var s' := Do(s, step);
    match step
    case ByWorker(w, act) => StrandedStaysWorker(s, w, act);
    case ByClient(c, act) =>
      ClientKeepsWork(s, c, act);
      var i :| 0 <= i < |s.clients| && s.clients[i].WaitAsleep?;
      assert s'.clients[i].WaitAsleep?;
    case ByStopper(act) =>
      if j :| 0 <= j < |s'.workers| && WillSignal(s', j) {
        assert WillSignal(s, j);
      }
  }

  // ---- which use of the pool is safe in every schedule ----------------------------------------------------

  ghost predicate NeverStrands(n: nat, w: nat, stops: bool) {
    forall m, s :: Reachable(n, m, w, stops, s) ==> !Stranded(s)
  }

  lemma TwoSleepers(cs: seq<Client>, i: nat, j: nat)
    requires i < |cs| && j < |cs| && i != j && cs[i].WaitAsleep? && cs[j].WaitAsleep?
    ensures Count(cs, ClientAsleep) >= 2
  {
    CountUpdate(cs, i, Idle, ClientAsleep);
    CountBounds(cs[i := Idle], ClientAsleep);
    assert cs[i := Idle][j] == cs[j];
  }

  /** With at most one sleeper, a worker and no stop, no step strands. */
  lemma OneSleeperIsSafe(s: Pool, step: Step)
    requires Inv(s) && Enabled(s, step) && !Stranded(s) && s.workers != []
    requires Count(s.clients, ClientAsleep) <= 1 && !Do(s, step).stop
    ensures !Strands(s, step)
  {
    if step.ByWorker? && step.work.SignalIdle? && SleeperBut(s, step.work.woken) {
      var i :| 0 <= i < |s.clients| && s.clients[i].WaitAsleep? && i !in step.work.woken;
      var j :| j in step.work.woken;
      TwoSleepers(s.clients, i, j);
    }
  }

  lemma {:induction false} RunStrandsNobody(s: Pool, steps: seq<Step>)
    requires Inv(s) && !Stranded(s) && s.workers != [] && IsRun(s, steps) && Within(s, steps, 1, false)
    ensures !Stranded(After(s, steps))
    decreases |steps|
  {
    if steps != [] {
      OneSleeperIsSafe(s, steps[0]);
      StrandsIff(s, steps[0]);
      InvStep(s, steps[0]);
      RunStrandsNobody(Do(s, steps[0]), steps[1..]);
    }
  }

  lemma OneWaiterIsNeverStranded(n: nat)
    requires n > 0
    ensures NeverStrands(n, 1, false)
  {
    forall m, s | Reachable(n, m, 1, false, s) ensures !Stranded(s) {
      var steps :| IsRun(Start(n, m), steps) && Within(Start(n, m), steps, 1, false) && After(Start(n, m), steps) == s;
      InvStart(n, m);
      RunStrandsNobody(Start(n, m), steps);
    }
  }

  /** Without a worker the first wait on a task never ends. */
  lemma NoWorkerStrands(w: nat, stops: bool)
    requires w > 0
    ensures !NeverStrands(0, w, stops)
  {
    ReachStart(0, 2, w, stops);
    var s0 := Start(0, 2);
    ReachSubmit(0, 2, w, stops, s0, 0, 0);
    var s1 := Submitted(s0, 0);
    CountBounds(s1.clients, ClientAsleep);
    ReachSleep(0, 2, w, stops, s1, 1);
    var s2 := Sleeping(s1, 1);
    assert s2.clients[1].WaitAsleep?;
    assert Stranded(s2);
  }

  /** A stop that throws the queue away signals nobody in ccpool_wait. */
  lemma StopStrandsAWaiter(n: nat, w: nat)
    requires w > 0
    ensures !NeverStrands(n, w, true)
  {
    ReachStart(n, 2, w, true);
    var s0 := Start(n, 2);
    ReachSubmit(n, 2, w, true, s0, 0, 0);
    var s1 := Submitted(s0, 0);
    CountBounds(s1.clients, ClientAsleep);
    ReachSleep(n, 2, w, true, s1, 1);
    var s2 := Sleeping(s1, 1);
    ReachStop(n, 2, w, s2);
    var s3 := StopRaised(s2);
    assert s3.clients[1].WaitAsleep?;
    assert Stranded(s3);
  }

  lemma TwoAsleep(n: nat, w: nat, stops: bool) returns (s: Pool)
    requires w > 1
    ensures Reachable(n, 3, w, stops, s) && Live(s) && s.owner.None? && !s.stop && s.queue == [0]
    ensures s.workers == Start(n, 3).workers && |s.clients| == 3 && s.clients[1].WaitAsleep? && s.clients[2].WaitAsleep?
  {
    ReachStart(n, 3, w, stops);
    var s0 := Start(n, 3);
    ReachSubmit(n, 3, w, stops, s0, 0, 0);
    var s1 := Submitted(s0, 0);
    CountBounds(s1.clients, ClientAsleep);
    ReachSleep(n, 3, w, stops, s1, 1);
    var s2 := Sleeping(s1, 1);
    CountUpdate(s1.clients, 1, s2.clients[1], ClientAsleep);
    ReachSleep(n, 3, w, stops, s2, 2);
    s := Sleeping(s2, 2);
  }

  /** The one signal after the last task may wake just one of two waiters. */
  lemma SecondWaiterIsStranded(n: nat, w: nat, stops: bool)
    requires n > 0 && w > 1
    ensures !NeverStrands(n, w, stops)
  {
    var s := TwoAsleep(n, w, stops);
    ReachTake(n, 3, w, stops, s, 0);
    var taken := Taken(s, 0);
    assert taken.clients[1].WaitAsleep? && taken.workers[0].Running?;
    ReachComplete(n, 3, w, stops, taken, 0, {1});
    var done := Completed(taken, 0, {1});
    assert done.clients[2].WaitAsleep?;
    assert done.workers == s.workers;
    assert Stranded(done);
  }

  /** Every schedule in which at most `w` threads sleep in ccpool_wait at a time, with or without a stop, leaves
      nobody stranded exactly when nobody ever sleeps, or when there is a worker, one sleeper and no stop. */
  lemma WaitIsLiveIff(n: nat, w: nat, stops: bool)
    ensures NeverStrands(n, w, stops) <==> w == 0 || (n > 0 && w == 1 && !stops)
  {
    if w == 0 {
      forall m, s | Reachable(n, m, w, stops, s) ensures !Stranded(s) {
        ReachAllowed(n, m, w, stops, s);
        CountBounds(s.clients, ClientAsleep);
      }
    } else if n == 0 {
      NoWorkerStrands(w, stops);
    } else if w == 1 && !stops {
      OneWaiterIsNeverStranded(n);
    } else if w == 1 {
      StopStrandsAWaiter(n, w);
    } else {
      SecondWaiterIsStranded(n, w, stops);
    }
  }

  // ---- pools of more than 255 threads ----------------------------------------------------------------------

  ghost predicate FreedOnlyAfterExits(n: nat) {
    forall m, w, s :: Reachable(n, m, w, true, s) && s.stopper.Freed? ==>
      forall i :: 0 <= i < |s.workers| ==> s.workers[i].Exited?
  }

  ghost predicate WaitIsAlwaysABarrier(n: nat) {
    forall m, w, s :: Reachable(n, m, w, true, s) ==> BarrierHolds(s)
  }

  lemma ReachExit(n: nat, m: nat, w: nat, s: Pool, i: nat)
    requires Reachable(n, m, w, true, s) && s.stop && s.owner.None?
    requires i < |s.workers| && s.workers[i].AtLock?
    ensures Reachable(n, m, w, true, s.(workers := s.workers[i := Exited]))
  {
    ReachWorker(n, m, w, true, s, i, Lock);
    var s1 := DoWorker(s, i, Lock);
    ReachWorker(n, m, w, true, s1, i, Check);
    var s2 := DoWorker(s1, i, Check);
    ReachWorker(n, m, w, true, s2, i, Unlock);
    assert DoWorker(s2, i, Unlock) == s.(workers := s.workers[i := Exited]);
  }

  /** The first `k` workers exit and are joined, the others have not run yet. */
  lemma {:induction false} ReachJoined(n: nat, k: nat) returns (s: Pool)
    requires k <= n % WIDTH
    ensures Reachable(n, 0, 0, true, s) && s.stop && s.owner.None? && s.stopper == Joining(k)
    ensures |s.workers| == n && forall i :: k <= i < n ==> s.workers[i].AtLock?
    decreases k
  {
    if k == 0 {
      ReachStart(n, 0, 0, true);
      ReachStop(n, 0, 0, Start(n, 0));
      s := StopRaised(Start(n, 0));
    } else {
      var p := ReachJoined(n, k - 1);
      ReachExit(n, 0, 0, p, k - 1);
      var q := p.(workers := p.workers[k - 1 := Exited]);
      ReachStopper(n, 0, 0, q, Join);
      s := DoStopper(q, Join);
    }
  }

  /** Only thread_count, a uint8_t, threads are joined before the pool is freed. */
  lemma BigPoolIsFreedEarly(n: nat)
    requires n >= WIDTH
    ensures !FreedOnlyAfterExits(n)
  {
    var s := ReachJoined(n, n % WIDTH);
    ReachStopper(n, 0, 0, s, FreePool);
    assert s.workers[n - 1].AtLock?;
    assert DoStopper(s, FreePool).stopper.Freed?;
  }

  /** `k` tasks submitted and each in the hand of its own worker. */
  lemma {:induction false} ReachAllBusy(n: nat, k: nat) returns (s: Pool)
    requires k <= n
    ensures Reachable(n, 1, 0, true, s) && !s.stop && s.owner.None? && Live(s)
    ensures s.queue == [] && s.inWork == k % WIDTH && |s.submitted| == k && s.ran == [] && s.discarded == []
    ensures s.clients == [Idle] && forall t <- s.issued :: t < k
    ensures |s.workers| == n && forall i :: 0 <= i < n ==> if i < k then s.workers[i].Running? else s.workers[i].AtLock?
    decreases k
  {
    if k == 0 {
      ReachStart(n, 1, 0, true);
      s := Start(n, 1);
    } else {
      var p := ReachAllBusy(n, k - 1);
      ReachSubmit(n, 1, 0, true, p, 0, k - 1);
      ReachTake(n, 1, 0, true, Submitted(p, k - 1), k - 1);
      s := Taken(Submitted(p, k - 1), k - 1);
      CounterWraps(k - 1);
    }
  }

  lemma ReachDirectly(n: nat, s: Pool)
    requires Reachable(n, 1, 0, true, s) && Enabled(s, ByClient(0, Test)) && !Outstanding(s)
    ensures Reachable(n, 1, 0, true, DoClient(s, 0, Test))
  {
    ReachAllowed(n, 1, 0, true, s);
    CountUpdate(s.clients, 0, DoClient(s, 0, Test).clients[0], ClientAsleep);
    ReachStep(n, 1, 0, true, s, ByClient(0, Test));
  }

  /** With 256 tasks running, in_work is 0 and ccpool_wait returns at once. */
  lemma BigPoolBreaksTheBarrier(n: nat)
    requires n >= WIDTH
    ensures !WaitIsAlwaysABarrier(n)
  {
    var s := ReachAllBusy(n, WIDTH);
    ReachClient(n, 1, 0, true, s, 0, Wait);
    var s1 := DoClient(s, 0, Wait);
    ReachClient(n, 1, 0, true, s1, 0, Acquire);
    var s2 := DoClient(s1, 0, Acquire);
    CountBounds(s2.clients, ClientAsleep);
    ReachDirectly(n, s2);
    var s3 := DoClient(s2, 0, Test);
    assert s3.clients[0] == WaitUnlock(WIDTH);
    assert s3.submitted[0] !in s3.ran && s3.submitted[0] !in s3.discarded;
    assert !Settled(s3, WIDTH);
  }

  /** The barrier of ccpool_wait and the order of ccpool_stop hold exactly for pools of up to 255 threads,
      although ccpool_start takes an int. */
  lemma PoolSizeLimit(n: nat)
    ensures WaitIsAlwaysABarrier(n) <==> n < WIDTH
    ensures FreedOnlyAfterExits(n) <==> n < WIDTH
  {
    if n < WIDTH {
      forall m, w, s | Reachable(n, m, w, true, s)
        ensures BarrierHolds(s)
        ensures s.stopper.Freed? ==> forall i :: 0 <= i < |s.workers| ==> s.workers[i].Exited?
      {
        var steps :| IsRun(Start(n, m), steps) && Within(Start(n, m), steps, w, true) && After(Start(n, m), steps) == s;
        ReachedInv(n, m, steps, s);
        if s.stopper.Freed? {
          FreedAfterTheLastExit(n, m, steps, s);
        }
      }
    } else {
      BigPoolIsFreedEarly(n);
      BigPoolBreaksTheBarrier(n);
    }
  }
}
