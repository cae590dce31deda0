/** What every run of the worker pool keeps: mutual exclusion, conservation and order of tasks,
    the meaning of `in_work`, no lost wakeup, the barrier of `ccpool_wait`, and an orderly stop.
    Each part of the invariant has its own step lemma; the theorems about runs are at the end. */
module ThreadPoolSafety {
  import opened Basics
  import opened ThreadPool

  // ---- the invariant ---------------------------------------------------------------------------

  predicate Owns(s: Pool, thread: Thread) {
    match thread
    case WorkerThread(i) => i < |s.workers| && WorkerOwns(s.workers[i])
    case ClientThread(i) => i < |s.clients| && ClientOwns(s.clients[i])
    case StopperThread => StopperOwns(s.stopper)
  }

  /** The owner of the mutex is exactly the thread that is inside a critical section. */
  ghost predicate MutualExclusion(s: Pool) {
    forall thread :: Owns(s, thread) <==> s.owner == Some(thread)
  }

  /** Tasks leave the queue in the order they entered it, and none is lost. */
  ghost predicate InOrder(s: Pool) {
    s.submitted == s.dequeued + s.discarded + s.queue
  }

  /** A task enters the queue at most once, and only after it was allocated. */
  ghost predicate EnteredOnce(s: Pool) {
    forall t :: Entries(s, t) <= Indicator(t in s.issued)
  }

  /** How often `t` was submitted or is about to be. */
  function Entries(s: Pool, t: Task): nat {
    multiset(s.submitted)[t] + Holding(s.clients, ToInsert, t)
  }

  /** A dequeued task is in the hand of one worker or has run; a dequeued or discarded task is in
      the hand of one worker or has been freed. */
  ghost predicate InOnePlace(s: Pool) {
    forall t :: Accounted(s, t)
  }

  ghost predicate Accounted(s: Pool, t: Task) { RunOnce(s, t) && FreedOnce(s, t) }

  ghost predicate RunOnce(s: Pool, t: Task) {
    multiset(s.dequeued)[t] == Holding(s.workers, ToRun, t) + multiset(s.ran)[t]
  }

  ghost predicate FreedOnce(s: Pool, t: Task) {
    multiset(s.dequeued)[t] + multiset(s.discarded)[t] == Holding(s.workers, InHand, t) + multiset(s.released)[t]
  }

  ghost predicate CounterMeans(s: Pool) {
    s.inWork == Count(s.workers, Busy) % WIDTH
  }

  ghost predicate StopPhase(s: Pool) {
    (s.stop <==> s.stopper.Clearing? || s.stopper.Broadcasting? || Stopped(s)) &&
    (Stopped(s) ==> forall i :: 0 <= i < |s.workers| ==> !s.workers[i].Asleep?) &&
    (s.discarded != [] ==> s.stopper.Broadcasting? || Stopped(s))
  }

  /** The stopper has broadcast. */
  predicate Stopped(s: Pool) { s.stopper.StopUnlock? || s.stopper.Joining? || s.stopper.Freed? }

  ghost predicate JoinedHaveExited(s: Pool) {
    (s.stopper.Joining? ==> s.stopper.joined <= ThreadCount(s)) &&
    (s.stopper.Joining? ==> forall i :: 0 <= i < s.stopper.joined ==> s.workers[i].Exited?) &&
    (s.stopper.Freed? ==> forall i :: 0 <= i < ThreadCount(s) ==> s.workers[i].Exited?)
  }

  ghost predicate SomeAsleep(s: Pool) { exists i :: 0 <= i < |s.workers| && s.workers[i].Asleep? }

  /** Every queued task has a worker awake for it, or a signal on the way, or nobody is asleep. */
  ghost predicate NoLostWakeup(s: Pool) {
    SomeAsleep(s) ==> |s.queue| <= Count(s.workers, Available) + Count(s.clients, AboutToSignal)
  }

  /** The first `mark` submitted tasks have all run or been thrown away. */
  ghost predicate Settled(s: Pool, mark: nat) {
    mark <= |s.submitted| &&
    forall j :: 0 <= j < mark ==> s.submitted[j] in s.ran || s.submitted[j] in s.discarded
  }

  /** The mark of a client inside ccpool_wait. */
  function Mark(c: Client): nat {
    match c
    case WaitLock(m) => m
    case WaitChecking(m) => m
    case WaitAsleep(m) => m
    case WaitWoken(m) => m
    case WaitUnlock(m) => m
    case Returned(m) => m
    case _ => 0
  }

  ghost predicate BarrierHolds(s: Pool) {
    forall i :: 0 <= i < |s.clients| ==>
      Mark(s.clients[i]) <= |s.submitted| &&
      (s.clients[i].WaitUnlock? || s.clients[i].Returned? ==> Settled(s, Mark(s.clients[i])))
  }

  ghost predicate Inv(s: Pool) {
    MutualExclusion(s) && InOrder(s) && EnteredOnce(s) && InOnePlace(s) && CounterMeans(s) &&
    StopPhase(s) && JoinedHaveExited(s) && NoLostWakeup(s) &&
    (|s.workers| < WIDTH ==> BarrierHolds(s))
  }

  // ---- one step --------------------------------------------------------------------------------

  lemma MutualExclusionWorker(s: Pool, w: nat, act: WorkerAct)
    requires MutualExclusion(s) && Enabled(s, ByWorker(w, act))
    ensures MutualExclusion(DoWorker(s, w, act))
  {
    var s' := DoWorker(s, w, act);
    assert Owns(s, WorkerThread(w)) <==> s.owner == Some(WorkerThread(w));
    forall thread ensures Owns(s', thread) <==> s'.owner == Some(thread) {
      assert Owns(s, thread) <==> s.owner == Some(thread);
      assert thread != WorkerThread(w) ==> Owns(s', thread) == Owns(s, thread);
    }
  }

  lemma MutualExclusionClient(s: Pool, c: nat, act: ClientAct)
    requires MutualExclusion(s) && Enabled(s, ByClient(c, act))
    ensures MutualExclusion(DoClient(s, c, act))
  {
    var s' := DoClient(s, c, act);
    assert Owns(s, ClientThread(c)) <==> s.owner == Some(ClientThread(c));
    forall thread ensures Owns(s', thread) <==> s'.owner == Some(thread) {
      assert Owns(s, thread) <==> s.owner == Some(thread);
      assert thread != ClientThread(c) ==> Owns(s', thread) == Owns(s, thread);
    }
  }

  lemma MutualExclusionStopper(s: Pool, act: StopAct)
    requires MutualExclusion(s) && Enabled(s, ByStopper(act))
    ensures MutualExclusion(DoStopper(s, act))
  {
    var s' := DoStopper(s, act);
    assert Owns(s, StopperThread) <==> s.owner == Some(StopperThread);
    forall thread ensures Owns(s', thread) <==> s'.owner == Some(thread) {
      assert Owns(s, thread) <==> s.owner == Some(thread);
      assert thread != StopperThread ==> Owns(s', thread) == Owns(s, thread);
    }
  }

  lemma InOrderWorker(s: Pool, w: nat, act: WorkerAct)
    requires MutualExclusion(s) && InOrder(s) && StopPhase(s)
    requires Enabled(s, ByWorker(w, act))
    ensures InOrder(DoWorker(s, w, act))
  {
    var s' := DoWorker(s, w, act);
    if act.Check? && !s.stop && s.queue != [] {
      assert Owns(s, WorkerThread(w));
      assert s.discarded == [];
      assert s.queue == [s.queue[0]] + s.queue[1..];
    }
  }

  lemma InOrderOther(s: Pool, step: Step)
    requires InOrder(s) && !step.ByWorker?
    requires Enabled(s, step)
    ensures InOrder(Do(s, step))
  {
    var s' := Do(s, step);
    assert s'.submitted == s'.dequeued + s'.discarded + s'.queue;
  }

  lemma EntriesClient(s: Pool, c: nat, act: ClientAct, t: Task)
    requires Entries(s, t) <= Indicator(t in s.issued)
    requires Enabled(s, ByClient(c, act))
    ensures Entries(DoClient(s, c, act), t) <= Indicator(t in DoClient(s, c, act).issued)
  {
    if act.Submit? || act.Insert? {
      EntriesChange(s, c, act, t);
    } else {
      EntriesStay(s, c, act, t);
    }
  }

  lemma EntriesChange(s: Pool, c: nat, act: ClientAct, t: Task)
    requires Entries(s, t) <= Indicator(t in s.issued)
    requires Enabled(s, ByClient(c, act)) && (act.Submit? || act.Insert?)
    ensures Entries(DoClient(s, c, act), t) <= Indicator(t in DoClient(s, c, act).issued)
  {
    var s' := DoClient(s, c, act);
    HoldingUpdate(s.clients, c, s'.clients[c], ToInsert, t);
    assert s'.submitted == if act.Insert? then s.submitted + [s.clients[c].task] else s.submitted;
  }

  lemma EntriesStay(s: Pool, c: nat, act: ClientAct, t: Task)
    requires Enabled(s, ByClient(c, act)) && !act.Submit? && !act.Insert?
    ensures Entries(DoClient(s, c, act), t) == Entries(s, t) && DoClient(s, c, act).issued == s.issued
  {
    HoldingUpdate(s.clients, c, DoClient(s, c, act).clients[c], ToInsert, t);
  }

  lemma EntriesOther(s: Pool, step: Step, t: Task)
    requires !step.ByClient? && Enabled(s, step)
    ensures Entries(Do(s, step), t) == Entries(s, t) && Do(s, step).issued == s.issued
  {
    HoldingSame(s.clients, Do(s, step).clients, ToInsert, t);
  }

  lemma EnteredOnceStep(s: Pool, step: Step)
    requires EnteredOnce(s) && Enabled(s, step)
    ensures EnteredOnce(Do(s, step))
  {
    var s' := Do(s, step);
    forall t ensures Entries(s', t) <= Indicator(t in s'.issued) {
      assert Entries(s, t) <= Indicator(t in s.issued);
      if step.ByClient? {
        EntriesClient(s, step.c, step.act, t);
      } else {
        EntriesOther(s, step, t);
      }
    }
  }

  lemma RunOnceWorker(s: Pool, w: nat, act: WorkerAct, t: Task)
    requires RunOnce(s, t) && Enabled(s, ByWorker(w, act))
    ensures RunOnce(DoWorker(s, w, act), t)
  {
    var s' := DoWorker(s, w, act);
    HoldingUpdate(s.workers, w, s'.workers[w], ToRun, t);
    match act
    case Check =>
      assert s'.ran == s.ran;
    case Run =>
      assert s'.dequeued == s.dequeued && s'.ran == s.ran + [s.workers[w].task];
    case _ =>
      assert s'.dequeued == s.dequeued && s'.ran == s.ran;
  }

  lemma FreedOnceWorker(s: Pool, w: nat, act: WorkerAct, t: Task)
    requires FreedOnce(s, t) && Enabled(s, ByWorker(w, act))
    ensures FreedOnce(DoWorker(s, w, act), t)
  {
    if act.Check? || act.Free? {
      FreedOnceChange(s, w, act, t);
    } else {
      FreedOnceStay(s, w, act, t);
    }
  }

  lemma FreedOnceChange(s: Pool, w: nat, act: WorkerAct, t: Task)
    requires FreedOnce(s, t) && Enabled(s, ByWorker(w, act)) && (act.Check? || act.Free?)
    ensures FreedOnce(DoWorker(s, w, act), t)
  {
    var s' := DoWorker(s, w, act);
    HoldingUpdate(s.workers, w, s'.workers[w], InHand, t);
    assert s'.released == if act.Free? then s.released + [s.workers[w].task] else s.released;
  }

  lemma FreedOnceStay(s: Pool, w: nat, act: WorkerAct, t: Task)
    requires FreedOnce(s, t) && Enabled(s, ByWorker(w, act)) && !act.Check? && !act.Free?
    ensures FreedOnce(DoWorker(s, w, act), t)
  {
    var s' := DoWorker(s, w, act);
    HoldingUpdate(s.workers, w, s'.workers[w], InHand, t);
    assert s'.dequeued == s.dequeued && s'.discarded == s.discarded && s'.released == s.released;
  }

  lemma RunOnceOther(s: Pool, step: Step, t: Task)
    requires RunOnce(s, t) && !step.ByWorker? && Enabled(s, step)
    ensures RunOnce(Do(s, step), t)
  {
    HoldingSame(s.workers, Do(s, step).workers, ToRun, t);
    assert Do(s, step).dequeued == s.dequeued && Do(s, step).ran == s.ran;
  }

  lemma FreedOnceOther(s: Pool, step: Step, t: Task)
    requires FreedOnce(s, t) && !step.ByWorker? && Enabled(s, step)
    ensures FreedOnce(Do(s, step), t)
  {
    var s' := Do(s, step);
    HoldingSame(s.workers, s'.workers, InHand, t);
    assert s'.dequeued == s.dequeued;
    if step == ByStopper(Clear) {
      assert s'.discarded == s.discarded + s.queue && s'.released == s.released + s.queue;
    } else {
      assert s'.discarded == s.discarded && s'.released == s.released;
    }
  }

  lemma InOnePlaceStep(s: Pool, step: Step)
    requires InOnePlace(s) && Enabled(s, step)
    ensures InOnePlace(Do(s, step))
  {
    forall t ensures Accounted(Do(s, step), t) {
      assert Accounted(s, t);
      if step.ByWorker? {
        RunOnceWorker(s, step.w, step.work, t);
        FreedOnceWorker(s, step.w, step.work, t);
      } else {
        RunOnceOther(s, step, t);
        FreedOnceOther(s, step, t);
      }
    }
  }

  lemma WidthUnique(a: nat, q: nat, r: nat)
    requires a == q * WIDTH + r && r < WIDTH
    ensures a % WIDTH == r
  {
  }

  lemma CounterWraps(count: nat)
    ensures Increment(count % WIDTH) == (count + 1) % WIDTH
    ensures count > 0 ==> Decrement(count % WIDTH) == (count - 1) % WIDTH
  {
    var q, r := count / WIDTH, count % WIDTH;
    if r + 1 < WIDTH {
      WidthUnique(count + 1, q, r + 1);
      WidthUnique(r + 1, 0, r + 1);
    } else {
      WidthUnique(count + 1, q + 1, 0);
      WidthUnique(r + 1, 1, 0);
    }
    if r > 0 {
      WidthUnique(count - 1, q, r - 1);
      WidthUnique(r + WIDTH - 1, 1, r - 1);
    } else if count > 0 {
      WidthUnique(count - 1, q - 1, WIDTH - 1);
      WidthUnique(r + WIDTH - 1, 0, WIDTH - 1);
    }
  }

  lemma CounterMeansWorker(s: Pool, w: nat, act: WorkerAct)
    requires CounterMeans(s) && Enabled(s, ByWorker(w, act))
    ensures CounterMeans(DoWorker(s, w, act))
  {
    var s' := DoWorker(s, w, act);
    assert s'.workers == s.workers[w := s'.workers[w]];
    CountUpdate(s.workers, w, s'.workers[w], Busy);
    CountBounds(s.workers, Busy);
    CounterWraps(Count(s.workers, Busy));
  }

  lemma CounterMeansOther(s: Pool, step: Step)
    requires CounterMeans(s) && !step.ByWorker? && Enabled(s, step)
    ensures CounterMeans(Do(s, step))
  {
    var s' := Do(s, step);
    assert s'.inWork == s.inWork;
    CountSame(s.workers, s'.workers, Busy);
  }

  lemma StopPhaseStep(s: Pool, step: Step)
    requires MutualExclusion(s) && StopPhase(s) && JoinedHaveExited(s) && Enabled(s, step)
    ensures StopPhase(Do(s, step)) && JoinedHaveExited(Do(s, step))
  {
    match step
    case ByWorker(w, act) =>
      match act {
        case Check => assert Owns(s, WorkerThread(w));
        case _ =>
      }
    case ByClient(c, act) =>
    case ByStopper(act) =>
  }

  lemma NoLostWakeupWorker(s: Pool, w: nat, act: WorkerAct)
    requires MutualExclusion(s) && StopPhase(s) && NoLostWakeup(s)
    requires Enabled(s, ByWorker(w, act))
    ensures NoLostWakeup(DoWorker(s, w, act))
  {
    var s' := DoWorker(s, w, act);
    assert s'.workers == s.workers[w := s'.workers[w]];
    CountUpdate(s.workers, w, s'.workers[w], Available);
    CountSame(s.clients, s'.clients, AboutToSignal);
    if i :| 0 <= i < |s'.workers| && s'.workers[i].Asleep? && !(act.Check? && i == w) {
      assert s.workers[i].Asleep?;
      assert act.Check? ==> Owns(s, WorkerThread(w)) && !Owns(s, StopperThread);
    }
  }

  lemma NoLostWakeupClient(s: Pool, c: nat, act: ClientAct)
    requires NoLostWakeup(s)
    requires Enabled(s, ByClient(c, act))
    ensures NoLostWakeup(DoClient(s, c, act))
  {
    var s' := DoClient(s, c, act);
    CountUpdate(s.clients, c, s'.clients[c], AboutToSignal);
    CountGrows(s.workers, s'.workers, Available);
    if i :| 0 <= i < |s'.workers| && s'.workers[i].Asleep? {
      assert s.workers[i].Asleep?;
      if act.SignalWork? {
        var j :| j in act.woken;
        assert !Available(s.workers[j]) && Available(s'.workers[j]);
      }
    }
  }

  lemma NoLostWakeupStopper(s: Pool, act: StopAct)
    requires NoLostWakeup(s)
    requires Enabled(s, ByStopper(act))
    ensures NoLostWakeup(DoStopper(s, act))
  {
    if act.Broadcast? {
      assert !SomeAsleep(DoStopper(s, act));
    }
  }

  /** When nothing is outstanding, every submission has run or been thrown away. */
  lemma IdleMeansSettled(s: Pool)
    requires InOrder(s) && InOnePlace(s) && CounterMeans(s)
    requires |s.workers| < WIDTH && !Outstanding(s)
    ensures Settled(s, |s.submitted|)
  {
    CountBounds(s.workers, Busy);
    forall j | 0 <= j < |s.submitted|
      ensures s.submitted[j] in s.ran || s.submitted[j] in s.discarded
    {
      if j < |s.dequeued| {
        assert s.dequeued[j] in multiset(s.dequeued);
        assert Accounted(s, s.dequeued[j]);
        HoldingNone(s.workers, ToRun, s.dequeued[j]);
      }
    }
  }

  /** What has been submitted, run or thrown away stays so. */
  lemma HistoriesGrow(s: Pool, step: Step)
    requires Enabled(s, step)
    ensures s.submitted <= Do(s, step).submitted
    ensures s.ran <= Do(s, step).ran && s.discarded <= Do(s, step).discarded
  {
  }

  lemma SettledStays(s: Pool, s': Pool, mark: nat)
    requires s.submitted <= s'.submitted && s.ran <= s'.ran && s.discarded <= s'.discarded
    requires Settled(s, mark)
    ensures Settled(s', mark)
  {
    assert forall j :: 0 <= j < mark ==> s'.submitted[j] == s.submitted[j];
    assert forall t :: t in s.ran ==> t in s'.ran;
    assert forall t :: t in s.discarded ==> t in s'.discarded;
  }

  lemma BarrierStep(s: Pool, step: Step)
    requires Inv(s) && Enabled(s, step) && |s.workers| < WIDTH
    ensures BarrierHolds(Do(s, step))
  {
    var s' := Do(s, step);
    HistoriesGrow(s, step);
    if !Outstanding(s) {
      IdleMeansSettled(s);
    }
    forall i | 0 <= i < |s'.clients|
      ensures Mark(s'.clients[i]) <= |s'.submitted|
      ensures s'.clients[i].WaitUnlock? || s'.clients[i].Returned? ==> Settled(s', Mark(s'.clients[i]))
    {
      BarrierStepClient(s, step, i);
    }
  }

  lemma BarrierStepClient(s: Pool, step: Step, i: nat)
    requires BarrierHolds(s) && Enabled(s, step) && i < |s.clients|
    requires !Outstanding(s) ==> Settled(s, |s.submitted|)
    ensures Mark(Do(s, step).clients[i]) <= |Do(s, step).submitted|
    ensures Do(s, step).clients[i].WaitUnlock? || Do(s, step).clients[i].Returned? ==>
      Settled(Do(s, step), Mark(Do(s, step).clients[i]))
  {
    var s', m := Do(s, step), Mark(s.clients[i]);
    HistoriesGrow(s, step);
    if s'.clients[i].WaitUnlock? || s'.clients[i].Returned? {
      assert Mark(s'.clients[i]) == m;
      assert Settled(s, m);
      SettledStays(s, s', m);
    }
  }

  lemma InvStep(s: Pool, step: Step)
    requires Inv(s) && Enabled(s, step)
    ensures Inv(Do(s, step))
  {
    EnteredOnceStep(s, step);
    InOnePlaceStep(s, step);
    StopPhaseStep(s, step);
    if |s.workers| < WIDTH {
      BarrierStep(s, step);
    }
    match step
    case ByWorker(w, act) =>
      MutualExclusionWorker(s, w, act);
      InOrderWorker(s, w, act);
      CounterMeansWorker(s, w, act);
      NoLostWakeupWorker(s, w, act);
    case ByClient(c, act) =>
      MutualExclusionClient(s, c, act);
      InOrderOther(s, step);
      CounterMeansOther(s, step);
      NoLostWakeupClient(s, c, act);
    case ByStopper(act) =>
      MutualExclusionStopper(s, act);
      InOrderOther(s, step);
      CounterMeansOther(s, step);
      NoLostWakeupStopper(s, act);
  }

  lemma InvStart(n: nat, m: nat)
    ensures Inv(Start(n, m))
  {
    var s := Start(n, m);
    forall t ensures Accounted(s, t) && Entries(s, t) == 0 {
      HoldingNone(s.workers, ToRun, t);
      HoldingNone(s.workers, InHand, t);
      HoldingNone(s.clients, ToInsert, t);
    }
    CountBounds(s.workers, Busy);
  }

  lemma {:induction false} InvRun(s: Pool, steps: seq<Step>)
    requires Inv(s) && IsRun(s, steps)
    ensures Inv(After(s, steps)) && |After(s, steps).workers| == |s.workers|
    decreases |steps|
  {
    if steps != [] {
      InvStep(s, steps[0]);
      InvRun(Do(s, steps[0]), steps[1..]);
    }
  }
}
