/**
 The thread pool as an object: its counters, its workers and the queue they share, changed by the
 atomic steps of module ThreadPool.

 A run of the object is a run of the protocol, so what is proved there of every interleaving holds of
 the object, and the task a worker holds is the one that was pushed at its position.
 */
module ThreadPoolRuns {
  import opened ThreadPool
  import opened ThreadPoolProgress
  import opened ThreadSafeQueues

  // ---------- the task variables ----------

  /** Each worker that is busy holds the task pushed at its position. */
  predicate HoldPushed<T(==)>(s: State<T>, tasks: seq<T>) {
    && |tasks| == |s.workers|
    && forall i | 0 <= i < |s.workers| && s.workers[i].Busy() ::
         s.workers[i].n < |s.pushed| && tasks[i] == s.pushed[s.workers[i].n]
  }

  /** The task variables after a step: a pop fills one. */
  function TasksAfter<T>(s: State<T>, tasks: seq<T>, step: Step<T>): seq<T>
    requires Enabled(s, step) && |tasks| == |s.workers|
  {
    if step.TryPop? && s.queue != [] then tasks[step.i := s.queue[0]] else tasks
  }

  lemma StepKeepsHeld<T>(s: State<T>, tasks: seq<T>, step: Step<T>)
    requires Inv(s) && Enabled(s, step) && HoldPushed(s, tasks)
    ensures HoldPushed(Do(s, step), TasksAfter(s, tasks, step))
  {
    var t, tasks' := Do(s, step), TasksAfter(s, tasks, step);
    forall i | 0 <= i < |t.workers| && t.workers[i].Busy()
      ensures t.workers[i].n < |t.pushed| && tasks'[i] == t.pushed[t.workers[i].n]
    {
      if step.TryPop? && s.queue != [] && i == step.i {
        assert s.queue[0] == s.pushed[s.taken];
      } else {
        assert s.workers[i].Busy() && s.workers[i].n == t.workers[i].n;
      }
    }
  }

  // ---------- the pool ----------

  class Pool<T(==)> {
    const workQueue: ThreadSafeQueue<T>
    /** What a task variable holds before anything is popped into it. */
    const noTask: T
    var taskCount: int
    var active: int
    /** Where the threads are, and the task variable of each worker. */
    var adders: nat
    var workers: seq<Worker>
    var tasks: seq<T>
    var waiter: Waiter
    /** What happened so far. */
    var pushed: seq<T>
    var taken: nat
    var done: set<nat>

    ghost function View(): State<T>
      reads this, workQueue
    {
      State(taskCount, active, adders, workQueue.queue, workers, waiter, pushed, taken, done)
    }

    ghost predicate Valid()
      reads this, workQueue
    {
      Inv(View()) && HoldPushed(View(), tasks)
    }

    constructor (threads: nat, noTask: T)
      ensures Valid() && View() == Start(threads) && fresh(workQueue)
    {
      workQueue := new ThreadSafeQueue<T>();
      this.noTask := noTask;
      taskCount, active, adders := 0, 0, 0;
      workers, tasks := seq(threads, _ => Idle), seq(threads, _ => noTask);
      waiter := NotCalled;
      pushed, taken, done := [], 0, {};
      new;
      StartInv<T>(threads);
    }

    method PushTask(task: T)
      requires adders > 0
      modifies this`adders, this`pushed, workQueue
      ensures View() == Do(old(View()), Step.Push(task))
    {
      workQueue.Push(task);
      adders, pushed := adders - 1, pushed + [task];
    }

    /** The first step of `runTask`: a worker takes the front of the queue, if there is one. */
    method PopTask(i: nat)
      requires i < |workers| == |tasks| && workers[i].Idle?
      modifies this`workers, this`tasks, this`taken, workQueue
      ensures View() == Do(old(View()), Step.TryPop(i))
      ensures tasks == TasksAfter(old(View()), old(tasks), Step.TryPop(i))
    {
      var ok, task := workQueue.TryPop(noTask);
      if ok {
        tasks := tasks[i := task];
        workers := workers[i := Popped(taken)];
        taken := taken + 1;
      }
    }

    /** The other steps change counters and where the threads are, but not the queue. */
    method Move(step: Step<T>)
      requires Enabled(View(), step) && !step.Push? && !step.TryPop?
      modifies this`taskCount, this`active, this`adders, this`workers, this`waiter, this`done
      ensures View() == Do(old(View()), step)
    {
      match step
      case CountUp => taskCount, adders := taskCount + 1, adders + 1;
      case Activate(i) => active, workers := active + 1, workers[i := Activated(workers[i].n)];
      case CountDown(i) => taskCount, workers := taskCount - 1, workers[i := Running(workers[i].n)];
      case End(i, threw) => done, workers := done + {workers[i].n}, workers[i := Ended(workers[i].n, threw)];
      case Deactivate(i) => active, workers := active - 1, workers[i := if workers[i].threw then Gone else Idle];
      case Call => waiter := ReadsTaskCount(|pushed|);
      case ReadTaskCount => waiter := if taskCount == 0 then ReadsActive(waiter.asked) else waiter;
      case ReadActive => waiter := if active == 0 then Returned(waiter.asked) else ReadsTaskCount(waiter.asked);
    }

    method Perform(step: Step<T>)
      requires Valid() && Enabled(View(), step)
      modifies this, workQueue
      ensures Valid() && View() == Do(old(View()), step)
    {
      StepKeepsInv(View(), step);
      StepKeepsHeld(View(), tasks, step);
      match step
      case Push(task) => PushTask(task);
      case TryPop(i) => PopTask(i);
      case _ => Move(step);
    }

    /** A turn of a worker's loop that nobody interrupts: it waits for a notification exactly when it
        then has nothing to run. */
    method Turn(i: nat) returns (waits: bool)
      requires Valid() && i < |workers| && workers[i].Idle?
      modifies this, workQueue
      ensures Valid() && View() == Do(old(View()), Step.TryPop(i))
      ensures waits <==> workers[i].Idle?
      ensures !waits ==> old(taken) < |pushed| && tasks[i] == pushed[old(taken)]
    {
      waits := workQueue.Empty();
      Perform(Step.TryPop(i));
    }

    method PerformAll(steps: seq<Step<T>>)
      requires Valid() && IsRun(View(), steps)
      modifies this, workQueue
      ensures Valid() && View() == After(old(View()), steps)
      decreases |steps|
    {
      if steps != [] {
        Perform(steps[0]);
        PerformAll(steps[1..]);
      }
    }
  }

  /** Under every interleaving of a new pool's threads: once the waiter has returned, every task whose
      push came before its call is done, a worker that runs a task runs the one that was pushed at its
      position, and as many workers are lost as tasks threw. */
  method RunPool<T(==)>(threads: nat, noTask: T, steps: seq<Step<T>>) returns (pool: Pool<T>)
    requires IsRun(Start<T>(threads), steps)
    ensures pool.View() == After(Start<T>(threads), steps)
    ensures pool.waiter.Returned? ==> forall k | 0 <= k < pool.waiter.asked :: k in pool.done
    ensures HoldPushed(pool.View(), pool.tasks)
    ensures |pool.workers| == threads && LostWorkers(pool.workers) == Throws(steps)
  {
    pool := new Pool(threads, noTask);
    pool.PerformAll(steps);
    WaitForDoneIsSafe(threads, steps);
    LostAreThrows(threads, steps);
  }
}
