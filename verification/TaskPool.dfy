/** The shared structure of src/tpool.c in its own form: a linked list of tasks and two fields, changed in
    place inside the critical sections. Each critical section refines one step of the protocol in
    ThreadPool: if the fields match a state before, they match the state after the step. */
module TaskPool {
  import opened Basics
  import opened IntrusiveList
  import opened ThreadPool

  /** What a worker does after looking at the pool: wait on `cv`, leave, or run a task. */
  datatype Verdict = Sleep | Quit | Execute(task: Node<Task>)

  class TPool {
    const tasks: List<Task>
    var stop: bool
    var inWork: nat

    ghost predicate Valid()
      reads this, tasks, tasks.head, tasks.nodes
    {
      tasks.Valid() && inWork < WIDTH
    }

    ghost predicate Refines(s: Pool)
      requires Valid()
      reads this, tasks, tasks.head, tasks.nodes
    {
      Items(tasks.nodes) == s.queue && stop == s.stop && inWork == s.inWork
    }

    /** ccpool_start. */
    constructor (n: nat, m: nat)
      ensures Valid() && Refines(Start(n, m))
    {
      tasks := new List<Task>();
      stop, inWork := false, 0;
    }

    /** One look at the pool by a worker that owns the mutex (lines 22-31). */
    method Take(ghost s: Pool, ghost i: nat) returns (verdict: Verdict)
      requires Valid() && Refines(s) && i < |s.workers| && s.workers[i].Checking?
      modifies this`inWork, tasks, tasks.head, tasks.nodes
      ensures Valid() && Refines(DoWorker(s, i, Check))
      ensures match verdict
              case Sleep => DoWorker(s, i, Check).workers[i] == Asleep
              case Quit => DoWorker(s, i, Check).workers[i] == Leaving
              case Execute(task) => task.item.Some? && DoWorker(s, i, Check).workers[i] == Took(task.item.value)
    {
      if tasks.size == 0 && !stop {
        return Sleep;
      }
      if stop {
        return Quit;
      }
      var task := tasks.First();
      tasks.RemoveFirst();
      inWork := Increment(inWork);
      return Execute(task);
    }

    /** The decrement of a worker that finished its task (line 41). */
    method Finish(ghost s: Pool, ghost i: nat)
      requires Valid() && Refines(s) && i < |s.workers| && s.workers[i].Finishing?
      modifies this`inWork
      ensures Valid() && Refines(DoWorker(s, i, Report))
    {
      inWork := Decrement(inWork);
    }

    /** The insertion of a submitted task (line 98). */
    method Enqueue(task: Node<Task>, ghost s: Pool, ghost c: nat)
      requires Valid() && Refines(s)
      requires task.item.Some? && task != tasks.head && task !in tasks.nodes
      requires c < |s.clients| && s.clients[c] == Inserting(task.item.value)
      modifies tasks, tasks.head, tasks.nodes, task
      ensures Valid() && Refines(DoClient(s, c, Insert))
    {
      tasks.InsertLast(task);
    }

    /** The test of the loop in ccpool_wait (line 106): sleep or go on. */
    method IsOutstanding(ghost s: Pool, ghost c: nat) returns (sleep: bool)
      requires Valid() && Refines(s) && c < |s.clients| && s.clients[c].WaitChecking?
      ensures Refines(DoClient(s, c, Test))
      ensures sleep <==> DoClient(s, c, Test).clients[c].WaitAsleep?
    {
      sleep := inWork != 0 || tasks.size != 0;
    }

    /** Raising `stop` and throwing the queue away (lines 76-77). */
    method Shut(ghost s: Pool) returns (discarded: seq<Task>)
      requires Valid() && Refines(s) && s.stopper.Raising?
      modifies this`stop, tasks, tasks.head, tasks.nodes
      ensures Valid() && Refines(DoStopper(DoStopper(s, Raise), Clear))
      ensures DoStopper(DoStopper(s, Raise), Clear).discarded == s.discarded + discarded
    {
      stop := true;
      ghost var freed;
      discarded, freed := tasks.Clear(true);
    }
  }
}
