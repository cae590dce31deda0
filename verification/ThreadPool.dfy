/** The worker pool of src/tpool.c as a step system.

    Every thread carries a program counter and every step is one statement (or one library call)
    of the source, so all interleavings are runs of this system. The mutex is explicit: a state
    names its owner. Condition variables follow `pthread_cond_wait` and `pthread_cond_signal` of
    POSIX (IEEE Std 1003.1): a waiter may wake for no reason, and a signal unblocks at least one
    waiter when there is any, possibly several. */
module ThreadPool {
  import opened Basics

  type Task = nat   // the identity of one allocated task_t

  /** Where a worker is in `pool_worker`. */
  datatype Worker =
    | AtLock               // wants the mutex for the next round
    | Checking             // owns the mutex, about to test the loop condition
    | Asleep               // blocked on `cv`
    | Woken                // unblocked, wants the mutex back
    | Leaving              // owns the mutex, saw `stop`
    | Took(task: Task)     // owns the mutex, removed the task and counted it in `in_work`
    | Running(task: Task)  // runs the task
    | Ran(task: Task)      // about to free the task
    | AtFinishLock         // wants the mutex to report the task done
    | Finishing            // owns the mutex, about to decrement `in_work`
    | Decremented          // owns the mutex, about to signal `idle_cv`
    | Unlocking            // owns the mutex, about to release it
    | Exited

  /** Where a client thread is in `ccpool_submit` or `ccpool_wait`. A waiter remembers how many
      tasks had been submitted when it called. */
  datatype Client =
    | Idle
    | SubmitLock(task: Task)
    | Inserting(task: Task)
    | Signalling
    | SubmitUnlock
    | WaitLock(mark: nat)
    | WaitChecking(mark: nat)
    | WaitAsleep(mark: nat)
    | WaitWoken(mark: nat)
    | WaitUnlock(mark: nat)
    | Returned(mark: nat)

  /** Where the one thread that calls `ccpool_stop` is. */
  datatype Stopper =
    | NotCalled
    | StopLock
    | Raising
    | Clearing
    | Broadcasting
    | StopUnlock
    | Joining(joined: nat)
    | Freed

  datatype Thread = WorkerThread(index: nat) | ClientThread(index: nat) | StopperThread

  /** The shared structure, the threads, and a history no thread can see. */
  datatype Pool = Pool(
    queue: seq<Task>, stop: bool, inWork: nat,
    owner: Option<Thread>,
    workers: seq<Worker>, clients: seq<Client>, stopper: Stopper,
    issued: set<Task>,      // every task_t ever allocated
    submitted: seq<Task>,      // in the order they entered the queue
    dequeued: seq<Task>,       // in the order workers took them
    discarded: seq<Task>,      // thrown away by ccpool_stop
    ran: seq<Task>,            // in the order their functions returned
    released: seq<Task>)       // in the order they were freed

  /** One step of a worker; `SignalIdle` names the clients its signal unblocks. */
  datatype WorkerAct = Lock | Check | Wake | Unlock | Run | Free | Report | SignalIdle(woken: set<nat>)

  /** One step of a client; `SignalWork` names the workers its signal unblocks. */
  datatype ClientAct =
    | Submit(task: Task) | Wait
    | Acquire | Insert | SignalWork(woken: set<nat>) | Test | Rouse | Release | Resume

  datatype StopAct = Call | Enter | Raise | Clear | Broadcast | Leave | Join | FreePool

  datatype Step =
    | ByWorker(w: nat, work: WorkerAct)
    | ByClient(c: nat, act: ClientAct)
    | ByStopper(deed: StopAct)

  // ---- classification of program counters ------------------------------------------------------

  predicate WorkerOwns(w: Worker) {
    w.Checking? || w.Leaving? || w.Took? || w.Finishing? || w.Decremented? || w.Unlocking?
  }

  predicate ClientOwns(c: Client) {
    c.Inserting? || c.Signalling? || c.SubmitUnlock? || c.WaitChecking? || c.WaitUnlock?
  }

  predicate StopperOwns(s: Stopper) {
    s.Raising? || s.Clearing? || s.Broadcasting? || s.StopUnlock?
  }

  /** Between the dequeue and the decrement: the workers `in_work` is meant to count. */
  predicate Busy(w: Worker) {
    w.Took? || w.Running? || w.Ran? || w.AtFinishLock? || w.Finishing?
  }

  /** Awake, holding no task, and bound to look at the queue again. */
  predicate Available(w: Worker) {
    w.AtLock? || w.Checking? || w.Woken? || w.AtFinishLock? || w.Finishing? || w.Decremented? || w.Unlocking?
  }

  predicate WorkerAsleep(w: Worker) { w.Asleep? }

  predicate ClientAsleep(c: Client) { c.WaitAsleep? }

  predicate AboutToSignal(c: Client) { c.Signalling? }

  predicate AboutToReport(w: Worker) { w.Decremented? }

  /** The task a worker has taken and not yet run. */
  function ToRun(w: Worker): Option<Task> {
    if w.Took? || w.Running? then Some(w.task) else None
  }

  /** The task a worker has taken and not yet freed. */
  function InHand(w: Worker): Option<Task> {
    if w.Took? || w.Running? || w.Ran? then Some(w.task) else None
  }

  /** The task a client has allocated and not yet inserted. */
  function ToInsert(c: Client): Option<Task> {
    if c.SubmitLock? || c.Inserting? then Some(c.task) else None
  }

  // ---- signals ---------------------------------------------------------------------------------

  predicate WakesSome<T>(xs: seq<T>, asleep: T -> bool, woken: set<nat>) {
    (forall i <- woken :: i < |xs| && asleep(xs[i])) &&
    (woken == {} ==> forall i :: 0 <= i < |xs| ==> !asleep(xs[i]))
  }

  function WakeWorkers(ws: seq<Worker>, woken: set<nat>): (r: seq<Worker>)
    ensures |r| == |ws|
    ensures forall i :: 0 <= i < |ws| ==> r[i] == if i in woken then Woken else ws[i]
  {
    seq(|ws|, i requires 0 <= i < |ws| => if i in woken then Woken else ws[i])
  }

  function WakeClients(cs: seq<Client>, woken: set<nat>): (r: seq<Client>)
    ensures |r| == |cs|
    ensures forall i :: 0 <= i < |cs| ==>
      r[i] == if i in woken && cs[i].WaitAsleep? then WaitWoken(cs[i].mark) else cs[i]
  {
    seq(|cs|, i requires 0 <= i < |cs| =>
      if i in woken && cs[i].WaitAsleep? then WaitWoken(cs[i].mark) else cs[i])
  }

  function AllAsleep(ws: seq<Worker>): set<nat> {
    set i: nat | i < |ws| && ws[i].Asleep?
  }

  // ---- the three small state changes made under the lock -----------------------------------------

  /** `in_work` is a uint8_t. */
  const WIDTH: nat := 256

  function Increment(inWork: nat): nat { (inWork + 1) % WIDTH }

  function Decrement(inWork: nat): nat { (inWork + WIDTH - 1) % WIDTH }

  /** `thread_count` is a uint8_t too, although as many threads as asked for are created. */
  function ThreadCount(s: Pool): nat { |s.workers| % WIDTH }

  function Outstanding(s: Pool): bool { s.inWork != 0 || s.queue != [] }

  // ---- steps -----------------------------------------------------------------------------------

  /** The pool pointer is read without the lock, so a call is only meaningful before the free. */
  predicate Live(s: Pool) { !s.stopper.Freed? }

  predicate WorkerCan(s: Pool, w: Worker, act: WorkerAct) {
    match act
    case Lock => s.owner.None? && (w.AtLock? || w.Woken? || w.AtFinishLock?)
    case Check => w.Checking?
    case Wake => w.Asleep?
    case Unlock => w.Leaving? || w.Took? || w.Unlocking?
    case Run => w.Running?
    case Free => w.Ran?
    case Report => w.Finishing?
    case SignalIdle(woken) => w.Decremented? && WakesSome(s.clients, ClientAsleep, woken)
  }

  function DoWorker(s: Pool, i: nat, act: WorkerAct): Pool
    requires i < |s.workers| && WorkerCan(s, s.workers[i], act)
  {
    var w := s.workers[i];
    match act
    case Lock =>
      s.(owner := Some(WorkerThread(i)), workers := s.workers[i := if w.AtFinishLock? then Finishing else Checking])
    case Check =>
      if s.stop then s.(workers := s.workers[i := Leaving])
      else if s.queue == [] then s.(workers := s.workers[i := Asleep], owner := None)
      else s.(workers := s.workers[i := Took(s.queue[0])],
              queue := s.queue[1..],
              dequeued := s.dequeued + [s.queue[0]],
              inWork := Increment(s.inWork))
    case Wake => s.(workers := s.workers[i := Woken])
    case Unlock =>
      s.(owner := None,
         workers := s.workers[i := if w.Leaving? then Exited else if w.Took? then Running(w.task) else AtLock])
    case Run => s.(workers := s.workers[i := Ran(w.task)], ran := s.ran + [w.task])
    case Free => s.(workers := s.workers[i := AtFinishLock], released := s.released + [w.task])
    case Report => s.(workers := s.workers[i := Decremented], inWork := Decrement(s.inWork))
    case SignalIdle(woken) =>
      s.(workers := s.workers[i := Unlocking], clients := WakeClients(s.clients, woken))
  }

  predicate ClientCan(s: Pool, c: Client, act: ClientAct) {
    match act
    case Submit(task) => Live(s) && c.Idle? && task !in s.issued
    case Wait => Live(s) && c.Idle?
    case Acquire => Live(s) && s.owner.None? && (c.SubmitLock? || c.WaitLock? || c.WaitWoken?)
    case Insert => c.Inserting?
    case SignalWork(woken) => c.Signalling? && WakesSome(s.workers, WorkerAsleep, woken)
    case Test => c.WaitChecking?
    case Rouse => c.WaitAsleep?
    case Release => c.SubmitUnlock? || c.WaitUnlock?
    case Resume => c.Returned?
  }

  function DoClient(s: Pool, i: nat, act: ClientAct): Pool
    requires i < |s.clients| && ClientCan(s, s.clients[i], act)
  {
    var c := s.clients[i];
    match act
    case Submit(task) => s.(clients := s.clients[i := SubmitLock(task)], issued := s.issued + {task})
    case Wait => s.(clients := s.clients[i := WaitLock(|s.submitted|)])
    case Acquire =>
      s.(owner := Some(ClientThread(i)),
         clients := s.clients[i := if c.SubmitLock? then Inserting(c.task) else WaitChecking(c.mark)])
    case Insert =>
      s.(clients := s.clients[i := Signalling], queue := s.queue + [c.task], submitted := s.submitted + [c.task])
    case SignalWork(woken) =>
      s.(clients := s.clients[i := SubmitUnlock], workers := WakeWorkers(s.workers, woken))
    case Test =>
      if Outstanding(s) then s.(clients := s.clients[i := WaitAsleep(c.mark)], owner := None)
      else s.(clients := s.clients[i := WaitUnlock(c.mark)])
    case Rouse => s.(clients := s.clients[i := WaitWoken(c.mark)])
    case Release =>
      s.(owner := None, clients := s.clients[i := if c.WaitUnlock? then Returned(c.mark) else Idle])
    case Resume => s.(clients := s.clients[i := Idle])
  }

  predicate StopperCan(s: Pool, act: StopAct) {
    match act
    case Call => s.stopper.NotCalled?
    case Enter => s.stopper.StopLock? && s.owner.None?
    case Raise => s.stopper.Raising?
    case Clear => s.stopper.Clearing?
    case Broadcast => s.stopper.Broadcasting?
    case Leave => s.stopper.StopUnlock?
    case Join => s.stopper.Joining? && s.stopper.joined < ThreadCount(s) && s.workers[s.stopper.joined].Exited?
    case FreePool => s.stopper.Joining? && s.stopper.joined == ThreadCount(s)
  }

  function DoStopper(s: Pool, act: StopAct): Pool
    requires StopperCan(s, act)
  {
    match act
    case Call => s.(stopper := StopLock)
    case Enter => s.(stopper := Raising, owner := Some(StopperThread))
    case Raise => s.(stopper := Clearing, stop := true)
    case Clear =>
      s.(stopper := Broadcasting, queue := [], discarded := s.discarded + s.queue, released := s.released + s.queue)
    case Broadcast => s.(stopper := StopUnlock, workers := WakeWorkers(s.workers, AllAsleep(s.workers)))
    case Leave => s.(stopper := Joining(0), owner := None)
    case Join => s.(stopper := Joining(s.stopper.joined + 1))
    case FreePool => s.(stopper := Freed)
  }

  predicate Enabled(s: Pool, step: Step) {
    match step
    case ByWorker(w, act) => w < |s.workers| && WorkerCan(s, s.workers[w], act)
    case ByClient(c, act) => c < |s.clients| && ClientCan(s, s.clients[c], act)
    case ByStopper(act) => StopperCan(s, act)
  }

  function Do(s: Pool, step: Step): Pool
    requires Enabled(s, step)
  {
    match step
    case ByWorker(w, act) => DoWorker(s, w, act)
    case ByClient(c, act) => DoClient(s, c, act)
    case ByStopper(act) => DoStopper(s, act)
  }

  /** The pool right after `ccpool_start(n)`, with `m` threads that may call into it. */
  function Start(n: nat, m: nat): Pool {
    Pool([], false, 0, None, seq(n, _ => AtLock), seq(m, _ => Idle), NotCalled, {}, [], [], [], [], [])
  }

  /** Running the steps of a schedule one after the other; a schedule is a run when each of its
      steps is enabled where it is taken. */
  ghost predicate IsRun(s: Pool, steps: seq<Step>)
    decreases |steps|
  {
    steps == [] || (Enabled(s, steps[0]) && IsRun(Do(s, steps[0]), steps[1..]))
  }

  ghost function After(s: Pool, steps: seq<Step>): Pool
    requires IsRun(s, steps)
    decreases |steps|
  {
    if steps == [] then s else After(Do(s, steps[0]), steps[1..])
  }
}
