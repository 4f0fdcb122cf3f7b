/**
 What a thread pool can always still do: which workers it has lost, and how a run goes on to its end.
 */
module ThreadPoolProgress {
  import opened ThreadPool

  // ---------- workers lost to exceptions ----------

  /** A worker whose task threw takes no other. */
  predicate Lost(w: Worker) {
    w.Gone? || (w.Ended? && w.threw)
  }

  function LostWorkers(ws: seq<Worker>): (n: nat)
    ensures n <= |ws|
  {
    if ws == [] then 0 else Bit(Lost(ws[0])) + LostWorkers(ws[1..])
  }

  /** How many tasks threw. */
  function Throws<T>(steps: seq<Step<T>>): nat {
    if steps == [] then 0 else Bit(steps[0].End? && steps[0].threw) + Throws(steps[1..])
  }

  lemma {:induction false} LostUpdate(ws: seq<Worker>, i: nat, w: Worker)
    requires i < |ws|
    ensures LostWorkers(ws[i := w]) == LostWorkers(ws) - Bit(Lost(ws[i])) + Bit(Lost(w))
  {
    if i == 0 {
      assert ws[i := w][1..] == ws[1..];
    } else {
      assert ws[i := w][1..] == ws[1..][i - 1 := w];
      LostUpdate(ws[1..], i - 1, w);
    }
  }

  lemma {:induction false} NoneLost(threads: nat)
    ensures LostWorkers(seq(threads, _ => Idle)) == 0
  {
    if threads > 0 {
      assert seq(threads, _ => Idle)[1..] == seq(threads - 1, _ => Idle);
      NoneLost(threads - 1);
    }
  }

  /** Where not all are lost, one is left. */
  lemma {:induction false} OneLeft(ws: seq<Worker>) returns (i: nat)
    requires LostWorkers(ws) < |ws|
    ensures i < |ws| && !Lost(ws[i])
  {
    i := 0;
    if Lost(ws[0]) {
      i := OneLeft(ws[1..]);
      i := i + 1;
    }
  }

  lemma StepLoses<T>(s: State<T>, step: Step<T>)
    requires Enabled(s, step)
    ensures |Do(s, step).workers| == |s.workers|
    ensures LostWorkers(Do(s, step).workers) == LostWorkers(s.workers) + Bit(step.End? && step.threw)
  {
    if step.TryPop? || step.Activate? || step.CountDown? || step.End? || step.Deactivate? {
      if !(step.TryPop? && s.queue == []) {
        LostUpdate(s.workers, step.i, Do(s, step).workers[step.i]);
      }
    }
  }

  lemma {:induction false} RunLoses<T>(s: State<T>, steps: seq<Step<T>>)
    requires IsRun(s, steps)
    ensures |After(s, steps).workers| == |s.workers|
    ensures LostWorkers(After(s, steps).workers) == LostWorkers(s.workers) + Throws(steps)
    decreases |steps|
  {
    if steps != [] {
      StepLoses(s, steps[0]);
      RunLoses(Do(s, steps[0]), steps[1..]);
    }
  }

  /** Under every interleaving: exactly as many workers are lost as tasks threw. */
  lemma LostAreThrows<T>(threads: nat, steps: seq<Step<T>>)
    requires IsRun(Start<T>(threads), steps)
    ensures var ws := After(Start<T>(threads), steps).workers; |ws| == threads && LostWorkers(ws) == Throws(steps)
  {
    NoneLost(threads);
    RunLoses(Start<T>(threads), steps);
  }

  // ---------- going on to the end ----------

  /** The steps left until a worker has ended its task. */
  function StepsLeft(w: Worker): nat {
    match w
    case Popped(_) => 4
    case Activated(_) => 3
    case Running(_) => 2
    case Ended(_, _) => 1
    case _ => 0
  }

  function AllStepsLeft(ws: seq<Worker>): nat {
    if ws == [] then 0 else StepsLeft(ws[0]) + AllStepsLeft(ws[1..])
  }

  lemma {:induction false} StepsLeftUpdate(ws: seq<Worker>, i: nat, w: Worker)
    requires i < |ws|
    ensures AllStepsLeft(ws[i := w]) == AllStepsLeft(ws) - StepsLeft(ws[i]) + StepsLeft(w)
  {
    if i == 0 {
      assert ws[i := w][1..] == ws[1..];
    } else {
      assert ws[i := w][1..] == ws[1..][i - 1 := w];
      StepsLeftUpdate(ws[1..], i - 1, w);
    }
  }

  function ReadsLeft(w: Waiter): nat {
    match w
    case ReadsTaskCount(_) => 2
    case ReadsActive(_) => 1
    case _ => 0
  }

  /** Everything pushed is done, and a waiter that has called has returned. */
  predicate Finished<T>(s: State<T>) {
    s.adders == 0 && (forall k | 0 <= k < |s.pushed| :: k in s.done) && ReadsLeft(s.waiter) == 0
  }

  /** The next step of a busy worker, whose task does not throw. */
  function NextStep<T>(s: State<T>, i: nat): (step: Step<T>)
    requires i < |s.workers| && s.workers[i].Busy()
    ensures Enabled(s, step) && !(step.End? && step.threw)
  {
    match s.workers[i]
    case Popped(_) => Activate(i)
    case Activated(_) => CountDown(i)
    case Running(_) => End(i, false)
    case Ended(_, _) => Deactivate(i)
  }

  lemma WorkerGoesOn<T>(s: State<T>, i: nat)
    requires i < |s.workers| && s.workers[i].Busy()
    ensures var t := Do(s, NextStep(s, i));
            && t.adders == s.adders && t.queue == s.queue && t.waiter == s.waiter && t.pushed == s.pushed
            && AllStepsLeft(t.workers) < AllStepsLeft(s.workers)
  {
    StepsLeftUpdate(s.workers, i, Do(s, NextStep(s, i)).workers[i]);
  }

  /** With no adder, nothing queued and no worker busy, all is done and both counters are zero. */
  lemma NothingLeft<T>(s: State<T>)
    requires Inv(s) && s.adders == 0 && s.queue == [] && forall i | 0 <= i < |s.workers| :: !s.workers[i].Busy()
    ensures s.taskCount == 0 && s.active == 0 && forall k | 0 <= k < |s.pushed| :: k in s.done
  {
    NoneActive(s.workers);
    NoneCounted(s.workers);
  }

  lemma Unfold<T>(s: State<T>, step: Step<T>, rest: seq<Step<T>>)
    requires Enabled(s, step) && IsRun(Do(s, step), rest)
    ensures IsRun(s, [step] + rest) && After(s, [step] + rest) == After(Do(s, step), rest)
  {
    assert ([step] + rest)[1..] == rest;
  }

  /** A step that brings the end nearer. */
  lemma NextOfAll<T>(s: State<T>, tasks: seq<T>) returns (step: Step<T>)
    requires Inv(s) && |tasks| == s.adders && !Finished(s)
    requires s.adders == |s.queue| == 0 || LostWorkers(s.workers) < |s.workers|
    ensures Enabled(s, step) && !(step.End? && step.threw) && Do(s, step).waiter.NotCalled? == s.waiter.NotCalled?
    ensures var t := Do(s, step);
            if s.adders > 0 then t.pushed == s.pushed + [tasks[0]] && t.adders == s.adders - 1
            else t.pushed == s.pushed && t.adders == 0
    ensures var t := Do(s, step);
            || t.adders < s.adders
            || (t.adders == s.adders && |t.queue| < |s.queue|)
            || (&& t.adders == s.adders && t.queue == s.queue
                && (|| AllStepsLeft(t.workers) < AllStepsLeft(s.workers)
                    || (t.workers == s.workers && ReadsLeft(t.waiter) < ReadsLeft(s.waiter))))
  {
    if s.adders > 0 {
      step := Push(tasks[0]);
    } else if i: nat :| i < |s.workers| && s.workers[i].Busy() {
      step := NextStep(s, i);
      WorkerGoesOn(s, i);
    } else if s.queue != [] {
      var i := OneLeft(s.workers);
      step := TryPop(i);
    } else {
      NothingLeft(s);
      step := if s.waiter.ReadsTaskCount? then ReadTaskCount else ReadActive;
    }
  }

  /** From any such state the run can go on to its end, whatever the calls under way push. */
  lemma {:induction false} GoOn<T>(s: State<T>, tasks: seq<T>) returns (more: seq<Step<T>>)
    requires Inv(s) && |tasks| == s.adders
    requires s.adders == |s.queue| == 0 || LostWorkers(s.workers) < |s.workers|
    ensures IsRun(s, more) && Finished(After(s, more)) && After(s, more).pushed == s.pushed + tasks
    ensures After(s, more).waiter.NotCalled? == s.waiter.NotCalled?
    decreases s.adders, |s.queue|, AllStepsLeft(s.workers), ReadsLeft(s.waiter)
  {
    more := [];
    if Finished(s) {
      assert s.pushed + [] == s.pushed;
    } else {
      var step := NextOfAll(s, tasks);
      var left := if s.adders > 0 then tasks[1..] else tasks;
      StepKeepsInv(s, step);
      StepLoses(s, step);
      var rest := GoOn(Do(s, step), left);
      Unfold(s, step, rest);
      more := [step] + rest;
      assert s.adders > 0 ==> (s.pushed + [tasks[0]]) + tasks[1..] == s.pushed + tasks;
    }
  }

  // ---------- a pool without workers ----------

  lemma {:induction false} AllAreLost(ws: seq<Worker>, i: nat)
    requires LostWorkers(ws) == |ws| && i < |ws|
    ensures Lost(ws[i])
  {
    if i > 0 {
      AllAreLost(ws[1..], i - 1);
    }
  }

  lemma {:induction false} NothingMoreIsDone<T>(s: State<T>, more: seq<Step<T>>)
    requires IsRun(s, more) && LostWorkers(s.workers) == |s.workers|
    ensures After(s, more).done == s.done && After(s, more).taken == s.taken
    decreases |more|
  {
    if more != [] {
      var step := more[0];
      if step.TryPop? || step.Activate? || step.CountDown? || step.End? || step.Deactivate? {
        AllAreLost(s.workers, step.i);
      }
      StepLoses(s, step);
      NothingMoreIsDone(Do(s, step), more[1..]);
    }
  }

  /** Can the run go on until all that was pushed, and these tasks behind it, is done, and a waiter that has
      called has returned? */
  ghost predicate CanFinish<T(!new)>(s: State<T>, tasks: seq<T>) {
    exists more ::
      && IsRun(s, more) && Finished(After(s, more)) && After(s, more).pushed == s.pushed + tasks
      && (After(s, more).waiter.NotCalled? <==> s.waiter.NotCalled?)
  }

  /** Under every interleaving, whatever the calls under way go on to push: the run can go on to its end exactly
      when fewer tasks threw than there are threads, or nothing is left to be done. */
  lemma CanFinishIff<T(!new)>(threads: nat, steps: seq<Step<T>>, tasks: seq<T>)
    requires IsRun(Start<T>(threads), steps) && |tasks| == After(Start<T>(threads), steps).adders
    ensures var s := After(Start<T>(threads), steps);
            (CanFinish(s, tasks)
        <==> Throws(steps) < threads || (tasks == [] && forall k | 0 <= k < |s.pushed| :: k in s.done))
  {
    var s := After(Start<T>(threads), steps);
    StartInv<T>(threads);
    RunKeepsInv(Start<T>(threads), steps);
    LostAreThrows(threads, steps);
    if Throws(steps) < threads || (tasks == [] && forall k | 0 <= k < |s.pushed| :: k in s.done) {
      assert Throws(steps) < threads || |s.queue| == 0 by {
        if |s.queue| > 0 {
          assert Throws(steps) < threads || s.taken in s.done;
        }
      }
      var more := GoOn(s, tasks);
    }
    if Throws(steps) == threads && CanFinish(s, tasks) {
      var more :| IsRun(s, more) && Finished(After(s, more)) && After(s, more).pushed == s.pushed + tasks;
      NothingMoreIsDone(s, more);
      AllDoneBefore(s, After(s, more).pushed, tasks);
    }
  }

  lemma AllDoneBefore<T>(s: State<T>, pushed: seq<T>, tasks: seq<T>)
    requires Fifo(s) && Placed(s) && pushed == s.pushed + tasks && forall k | 0 <= k < |pushed| :: k in s.done
    ensures tasks == [] && forall k | 0 <= k < |s.pushed| :: k in s.done
  {
    assert |pushed| > |s.pushed| ==> |s.pushed| in s.done;
  }

  /** No thread is held up by another: tasks can be added and calls made at any time, and every worker that is not
      gone has a step to take. */
  lemma NobodyIsHeldUp<T>(s: State<T>, task: T, i: nat)
    ensures Enabled(s, CountUp) && Enabled(Do(s, CountUp), Push(task)) && Enabled(s, Call)
    ensures s.adders > 0 ==> Enabled(s, Push(task))
    ensures i < |s.workers| && s.workers[i].Idle? ==> Enabled(s, TryPop(i))
    ensures i < |s.workers| && s.workers[i].Busy() ==>
      exists step :: Enabled(s, step) && !step.TryPop? && Do(s, step).workers[i] != s.workers[i]
    ensures i < |s.workers| && s.workers[i].Running? ==> forall threw :: Enabled(s, End(i, threw))
  {
    if i < |s.workers| && s.workers[i].Busy() {
      var step := NextStep(s, i);
      assert Do(s, step).workers[i] != s.workers[i];
    }
  }

  // ---------- what a return has seen ----------

  predicate OfWaiter<T>(step: Step<T>) {
    step.Call? || step.ReadTaskCount? || step.ReadActive?
  }

  predicate NoneOfWaiter<T>(steps: seq<Step<T>>) {
    forall i | 0 <= i < |steps| :: !OfWaiter(steps[i])
  }

  lemma LastStep<T>(s: State<T>, steps: seq<Step<T>>) returns (init: seq<Step<T>>, last: Step<T>)
    requires IsRun(s, steps) && steps != []
    ensures steps == init + [last] && IsRun(s, init) && Enabled(After(s, init), last)
    ensures After(s, steps) == Do(After(s, init), last)
  {
    init, last := steps[..|steps| - 1], steps[|steps| - 1];
    assert steps == init + [last] && [last][1..] == [];
    RunConcat(s, init, [last]);
  }

  /** Before the active count is read, the task count was read as zero, and nothing was read since. */
  lemma {:induction false} ReadsActiveSaw<T>(s: State<T>, steps: seq<Step<T>>)
      returns (a: seq<Step<T>>, b: seq<Step<T>>)
    requires IsRun(s, steps) && s.waiter.NotCalled? && After(s, steps).waiter.ReadsActive?
    ensures steps == a + ([ReadTaskCount] + b) && NoneOfWaiter(b) && IsRun(s, a) && After(s, a).taskCount == 0
    decreases |steps|
  {
    var init, last := LastStep(s, steps);
    if last.ReadTaskCount? {
      a, b := init, [];
      assert [ReadTaskCount] + b == [last];
    } else {
      a, b := ReadsActiveSaw(s, init);
      assert a + ([ReadTaskCount] + b) + [last] == a + ([ReadTaskCount] + (b + [last]));
      b := b + [last];
    }
  }

  /** A call that has returned read the task count as zero and then, with no other read in between, the active
      count as zero. */
  lemma {:induction false} ReturnSawZeros<T>(s: State<T>, steps: seq<Step<T>>)
      returns (a: seq<Step<T>>, b: seq<Step<T>>, c: seq<Step<T>>)
    requires IsRun(s, steps) && s.waiter.NotCalled? && After(s, steps).waiter.Returned?
    ensures steps == a + ([ReadTaskCount] + b) + ([ReadActive] + c) && NoneOfWaiter(b) && NoneOfWaiter(c)
    ensures IsRun(s, a) && After(s, a).taskCount == 0
    ensures IsRun(s, a + ([ReadTaskCount] + b)) && After(s, a + ([ReadTaskCount] + b)).active == 0
    decreases |steps|
  {
    var init, last := LastStep(s, steps);
    if last.ReadActive? {
      a, b := ReadsActiveSaw(s, init);
      c := [];
      assert [ReadActive] + c == [last];
    } else {
      a, b, c := ReturnSawZeros(s, init);
      assert [ReadActive] + c + [last] == [ReadActive] + (c + [last]);
      assert a + ([ReadTaskCount] + b) + ([ReadActive] + c) + [last]
          == a + ([ReadTaskCount] + b) + ([ReadActive] + c + [last]);
      c := c + [last];
    }
  }
}
