/**
 The thread pool's completion protocol, as the interleaved steps of adders, workers and a waiter.

 Two counters are read one after the other by `waitForDone`, while other threads change them and
 the queue.  A task is known by its position in the order of pushes.
 */
module ThreadPool {
  import opened Strings

  /** Where a worker is inside `runTask`; n is the position of the work it holds. */
  datatype Worker =
    | Idle
    | Popped(n: nat)
    | Activated(n: nat)
    | Running(n: nat)
    | Ended(n: nat, threw: bool)
    | Gone
  {
    predicate Busy() {
      Popped? || Activated? || Running? || Ended?
    }

    /** Counted in activeThreads. */
    predicate Active() {
      Activated? || Running? || Ended?
    }

    /** Popped, but its task is still in taskCount. */
    predicate Counted() {
      Popped? || Activated?
    }
  }

  /** Where a caller of `waitForDone(0)` is; asked is how many tasks were pushed when it called. */
  datatype Waiter =
    | NotCalled
    | ReadsTaskCount(asked: nat)
    | ReadsActive(asked: nat)
    | Returned(asked: nat)

  /** `adders` counts the calls of addTask between the increment and the push; `pushed`, `taken` and
      `done` record what happened so far. */
  datatype State<T> = State(taskCount: int, active: int, adders: nat, queue: seq<T>, workers: seq<Worker>,
                            waiter: Waiter, pushed: seq<T>, taken: nat, done: set<nat>)

  datatype Step<T> =
    | CountUp
    | Push(task: T)
    | TryPop(i: nat)
    | Activate(i: nat)
    | CountDown(i: nat)
    | End(i: nat, threw: bool)
    | Deactivate(i: nat)
    | Call
    | ReadTaskCount
    | ReadActive

  function Start<T>(threads: nat): State<T> {
    State(0, 0, 0, [], seq(threads, _ => Idle), NotCalled, [], 0, {})
  }

  predicate Enabled<T>(s: State<T>, step: Step<T>) {
    match step
    case CountUp => true
    case Push(_) => s.adders > 0
    case TryPop(i) => i < |s.workers| && s.workers[i].Idle?
    case Activate(i) => i < |s.workers| && s.workers[i].Popped?
    case CountDown(i) => i < |s.workers| && s.workers[i].Activated?
    case End(i, _) => i < |s.workers| && s.workers[i].Running?
    case Deactivate(i) => i < |s.workers| && s.workers[i].Ended?
    case Call => true
    case ReadTaskCount => s.waiter.ReadsTaskCount?
    case ReadActive => s.waiter.ReadsActive?
  }

  function Do<T>(s: State<T>, step: Step<T>): State<T>
    requires Enabled(s, step)
  {
    match step
    case CountUp => s.(taskCount := s.taskCount + 1, adders := s.adders + 1)
    case Push(task) => s.(adders := s.adders - 1, queue := s.queue + [task], pushed := s.pushed + [task])
    case TryPop(i) =>
      if s.queue == [] then s
      else s.(queue := s.queue[1..], workers := s.workers[i := Popped(s.taken)], taken := s.taken + 1)
    case Activate(i) => s.(active := s.active + 1, workers := s.workers[i := Activated(s.workers[i].n)])
    case CountDown(i) => s.(taskCount := s.taskCount - 1, workers := s.workers[i := Running(s.workers[i].n)])
    case End(i, threw) =>
      s.(done := s.done + {s.workers[i].n}, workers := s.workers[i := Ended(s.workers[i].n, threw)])
    case Deactivate(i) =>
      s.(active := s.active - 1, workers := s.workers[i := if s.workers[i].threw then Gone else Idle])
    case Call => s.(waiter := ReadsTaskCount(|s.pushed|))
    case ReadTaskCount => if s.taskCount == 0 then s.(waiter := ReadsActive(s.waiter.asked)) else s
    case ReadActive =>
      s.(waiter := if s.active == 0 then Returned(s.waiter.asked) else ReadsTaskCount(s.waiter.asked))
  }

  /** A run: every step enabled where it is taken. */
  predicate IsRun<T>(s: State<T>, steps: seq<Step<T>>)
    decreases |steps|
  {
    steps == [] || (Enabled(s, steps[0]) && IsRun(Do(s, steps[0]), steps[1..]))
  }

  function After<T>(s: State<T>, steps: seq<Step<T>>): State<T>
    requires IsRun(s, steps)
    decreases |steps|
  {
    if steps == [] then s else After(Do(s, steps[0]), steps[1..])
  }

  // ---------- the invariant ----------

  function Bit(b: bool): nat {
    if b then 1 else 0
  }

  function ActiveWorkers(ws: seq<Worker>): nat {
    if ws == [] then 0 else Bit(ws[0].Active()) + ActiveWorkers(ws[1..])
  }

  function CountedWorkers(ws: seq<Worker>): nat {
    if ws == [] then 0 else Bit(ws[0].Counted()) + CountedWorkers(ws[1..])
  }

  /** Both counters are exact. */
  predicate CountersExact<T>(s: State<T>) {
    && s.taskCount == s.adders + |s.queue| + CountedWorkers(s.workers)
    && s.active == ActiveWorkers(s.workers)
  }

  /** The queue is what was pushed and not taken, in order. */
  ghost predicate Fifo<T>(s: State<T>) {
    s.taken <= |s.pushed| && s.queue == s.pushed[s.taken..]
  }

  predicate Held(ws: seq<Worker>, k: nat) {
    exists i | 0 <= i < |ws| :: ws[i].Busy() && ws[i].n == k
  }

  /** Every task taken is done or held, no task is held twice, only tasks that ended are done. */
  predicate Placed<T>(s: State<T>) {
    && (forall k | 0 <= k < s.taken :: k in s.done || Held(s.workers, k))
    && (forall i | 0 <= i < |s.workers| && s.workers[i].Busy() ::
          s.workers[i].n < s.taken && (s.workers[i].n in s.done <==> s.workers[i].Ended?))
    && (forall i, j | 0 <= i < j < |s.workers| && s.workers[i].Busy() && s.workers[j].Busy() ::
          s.workers[i].n != s.workers[j].n)
    && (forall k | k in s.done :: k < s.taken)
  }

  /** Task k is no longer in `taskCount`: it is running or done. */
  predicate Discounted<T>(s: State<T>, k: nat) {
    k < s.taken && (k in s.done || exists i | 0 <= i < |s.workers| :: s.workers[i] == Running(k))
  }

  /** What the waiter has learned. */
  predicate WaiterKnows<T>(s: State<T>) {
    match s.waiter
    case NotCalled => true
    case ReadsTaskCount(asked) => asked <= |s.pushed|
    case ReadsActive(asked) => asked <= |s.pushed| && forall k | 0 <= k < asked :: Discounted(s, k)
    case Returned(asked) => forall k | 0 <= k < asked :: k in s.done
  }

  ghost predicate Inv<T>(s: State<T>) {
    CountersExact(s) && Fifo(s) && Placed(s) && WaiterKnows(s)
  }

  // ---------- counting workers ----------

  lemma {:induction false} ActiveUpdate(ws: seq<Worker>, i: nat, w: Worker)
    requires i < |ws|
    ensures ActiveWorkers(ws[i := w]) == ActiveWorkers(ws) - Bit(ws[i].Active()) + Bit(w.Active())
  {
    if i == 0 {
      assert ws[i := w][1..] == ws[1..];
    } else {
      assert ws[i := w][1..] == ws[1..][i - 1 := w];
      ActiveUpdate(ws[1..], i - 1, w);
    }
  }

  lemma {:induction false} CountedUpdate(ws: seq<Worker>, i: nat, w: Worker)
    requires i < |ws|
    ensures CountedWorkers(ws[i := w]) == CountedWorkers(ws) - Bit(ws[i].Counted()) + Bit(w.Counted())
  {
    if i == 0 {
      assert ws[i := w][1..] == ws[1..];
    } else {
      assert ws[i := w][1..] == ws[1..][i - 1 := w];
      CountedUpdate(ws[1..], i - 1, w);
    }
  }

  lemma {:induction false} NoneActive(ws: seq<Worker>)
    ensures ActiveWorkers(ws) == 0 <==> forall i | 0 <= i < |ws| :: !ws[i].Active()
  {
    if ws != [] {
      NoneActive(ws[1..]);
      assert forall i | 0 < i < |ws| :: ws[i] == ws[1..][i - 1];
      assert ActiveWorkers(ws[1..]) == 0 ==> forall i | 0 < i < |ws| :: !ws[i].Active();
    }
  }

  lemma {:induction false} NoneCounted(ws: seq<Worker>)
    ensures CountedWorkers(ws) == 0 <==> forall i | 0 <= i < |ws| :: !ws[i].Counted()
  {
    if ws != [] {
      NoneCounted(ws[1..]);
      assert forall i | 0 < i < |ws| :: ws[i] == ws[1..][i - 1];
      assert CountedWorkers(ws[1..]) == 0 ==> forall i | 0 < i < |ws| :: !ws[i].Counted();
    }
  }

  // ---------- every step keeps the invariant ----------

  lemma StepKeepsCounters<T>(s: State<T>, step: Step<T>)
    requires CountersExact(s) && Enabled(s, step)
    ensures CountersExact(Do(s, step))
  {
    if step.TryPop? || step.Activate? || step.CountDown? || step.End? || step.Deactivate? {
      if !(step.TryPop? && s.queue == []) {
        ActiveUpdate(s.workers, step.i, Do(s, step).workers[step.i]);
        CountedUpdate(s.workers, step.i, Do(s, step).workers[step.i]);
      }
    }
  }

  lemma StepKeepsFifo<T>(s: State<T>, step: Step<T>)
    requires Fifo(s) && Enabled(s, step)
    ensures Fifo(Do(s, step))
  {
  }

  /** A worker that goes on with what it holds. */
  lemma UpdateKeepsPlaced<T>(s: State<T>, step: Step<T>)
    requires Placed(s) && Enabled(s, step) && (step.Activate? || step.CountDown? || step.End? || step.Deactivate?)
    ensures Placed(Do(s, step))
  {
    var t := Do(s, step);
    forall k | 0 <= k < t.taken ensures k in t.done || Held(t.workers, k) {
      if k !in s.done {
        var i :| 0 <= i < |s.workers| && s.workers[i].Busy() && s.workers[i].n == k;
        assert if i != step.i then t.workers[i] == s.workers[i] else t.workers[i].Busy() && t.workers[i].n == k;
      }
    }
  }

  lemma TryPopKeepsPlaced<T>(s: State<T>, i: nat)
    requires Placed(s) && Enabled(s, TryPop(i))
    ensures Placed(Do(s, TryPop(i)))
  {
    var t := Do(s, TryPop(i));
    if s.queue != [] {
      assert t.workers[i] == Popped(s.taken);
      forall k | 0 <= k < t.taken ensures k in t.done || Held(t.workers, k) {
        if k < s.taken && k !in s.done {
          var j :| 0 <= j < |s.workers| && s.workers[j].Busy() && s.workers[j].n == k;
          assert t.workers[j] == s.workers[j];
        }
      }
    }
  }

  lemma StepKeepsPlaced<T>(s: State<T>, step: Step<T>)
    requires Placed(s) && Enabled(s, step)
    ensures Placed(Do(s, step))
  {
    if step.TryPop? {
      TryPopKeepsPlaced(s, step.i);
    } else if step.Activate? || step.CountDown? || step.End? || step.Deactivate? {
      UpdateKeepsPlaced(s, step);
    }
  }

  /** A task once out of the count never gets back into it. */
  lemma DiscountedStays<T>(s: State<T>, step: Step<T>, k: nat)
    requires Enabled(s, step) && Discounted(s, k)
    ensures Discounted(Do(s, step), k)
  {
    var t := Do(s, step);
    if k !in t.done {
      var i :| 0 <= i < |s.workers| && s.workers[i] == Running(k);
      assert t.workers[i] == Running(k);
    }
  }

  /** With a task count of 0, every task pushed so far is running or done. */
  lemma NothingCounted<T>(s: State<T>, k: nat)
    requires CountersExact(s) && Fifo(s) && Placed(s) && s.taskCount == 0 && k < |s.pushed|
    ensures Discounted(s, k)
  {
    NoneCounted(s.workers);
    assert s.taken == |s.pushed|;
    if k !in s.done {
      var i :| 0 <= i < |s.workers| && s.workers[i].Busy() && s.workers[i].n == k;
      assert s.workers[i] == Running(k);
    }
  }

  /** With no active worker as well, they are all done. */
  lemma NothingActive<T>(s: State<T>, k: nat)
    requires CountersExact(s) && s.active == 0 && Discounted(s, k)
    ensures k in s.done
  {
    NoneActive(s.workers);
  }

  lemma StepKeepsWaiter<T>(s: State<T>, step: Step<T>)
    requires Inv(s) && Enabled(s, step)
    ensures WaiterKnows(Do(s, step))
  {
    var t := Do(s, step);
    if step.ReadTaskCount? && s.taskCount == 0 {
      forall k | 0 <= k < s.waiter.asked ensures Discounted(t, k) {
        NothingCounted(s, k);
        DiscountedStays(s, step, k);
      }
    } else if step.ReadActive? && s.active == 0 {
      forall k | 0 <= k < s.waiter.asked ensures k in t.done {
        NothingActive(s, k);
      }
    } else if s.waiter.ReadsActive? && t.waiter == s.waiter {
      forall k | 0 <= k < s.waiter.asked ensures Discounted(t, k) {
        DiscountedStays(s, step, k);
      }
    }
  }

  lemma StepKeepsInv<T>(s: State<T>, step: Step<T>)
    requires Inv(s) && Enabled(s, step)
    ensures Inv(Do(s, step))
  {
    StepKeepsCounters(s, step);
    StepKeepsFifo(s, step);
    StepKeepsPlaced(s, step);
    StepKeepsWaiter(s, step);
  }

  lemma StartInv<T>(threads: nat)
    ensures Inv(Start<T>(threads))
  {
    var s := Start<T>(threads);
    NoneActive(s.workers);
    NoneCounted(s.workers);
  }

  lemma {:induction false} RunKeepsInv<T>(s: State<T>, steps: seq<Step<T>>)
    requires Inv(s) && IsRun(s, steps)
    ensures Inv(After(s, steps))
    decreases |steps|
  {
    if steps != [] {
      StepKeepsInv(s, steps[0]);
      RunKeepsInv(Do(s, steps[0]), steps[1..]);
    }
  }

  // ---------- the main theorems ----------

  /** Under every interleaving: once `waitForDone(0)` has returned, every task whose push came before
      the call is done. */
  lemma WaitForDoneIsSafe<T>(threads: nat, steps: seq<Step<T>>)
    requires IsRun(Start<T>(threads), steps)
    ensures var s := After(Start<T>(threads), steps);
            s.waiter.Returned? ==> forall k | 0 <= k < s.waiter.asked :: k in s.done
  {
    StartInv<T>(threads);
    RunKeepsInv(Start<T>(threads), steps);
  }

  /** The tasks that are pushed, in order. */
  function TasksOf<T>(steps: seq<Step<T>>): seq<T> {
    if steps == [] then [] else (if steps[0].Push? then [steps[0].task] else []) + TasksOf(steps[1..])
  }

  predicate NoCall<T>(steps: seq<Step<T>>) {
    forall i | 0 <= i < |steps| :: !steps[i].Call?
  }

  lemma {:induction false} RunConcat<T>(s: State<T>, a: seq<Step<T>>, b: seq<Step<T>>)
    requires IsRun(s, a + b)
    ensures IsRun(s, a) && IsRun(After(s, a), b) && After(s, a + b) == After(After(s, a), b)
    decreases |a|
  {
    if a == [] {
      assert a + b == b;
    } else {
      assert (a + b)[1..] == a[1..] + b;
      RunConcat(Do(s, a[0]), a[1..], b);
    }
  }

  lemma {:induction false} PushedIs<T>(s: State<T>, steps: seq<Step<T>>)
    requires IsRun(s, steps)
    ensures After(s, steps).pushed == s.pushed + TasksOf(steps)
    decreases |steps|
  {
    Nil(s.pushed);
    if steps != [] {
      var t, rest := Do(s, steps[0]), TasksOf(steps[1..]);
      PushedIs(t, steps[1..]);
      Nil(rest);
      Assoc(s.pushed, if steps[0].Push? then [steps[0].task] else [], rest);
    }
  }

  lemma {:induction false} AskedStays<T>(s: State<T>, steps: seq<Step<T>>)
    requires IsRun(s, steps) && NoCall(steps) && !s.waiter.NotCalled?
    ensures !After(s, steps).waiter.NotCalled? && After(s, steps).waiter.asked == s.waiter.asked
    decreases |steps|
  {
    if steps != [] {
      assert !steps[0].Call?;
      AskedStays(Do(s, steps[0]), steps[1..]);
    }
  }

  /** In terms of the steps alone: a call that has returned finds done every task pushed before it. */
  lemma CallCoversPushes<T>(threads: nat, before: seq<Step<T>>, after: seq<Step<T>>)
    requires IsRun(Start<T>(threads), before + ([Call] + after)) && NoCall(after)
    ensures var s := After(Start<T>(threads), before + ([Call] + after));
            && s.pushed == TasksOf(before + ([Call] + after)) && TasksOf(before) <= s.pushed
            && (s.waiter.Returned? ==> forall k | 0 <= k < |TasksOf(before)| :: k in s.done)
  {
    var start, all := Start<T>(threads), before + ([Call] + after);
    RunConcat(start, before, [Call] + after);
    var mid := After(start, before);
    assert ([Call] + after)[1..] == after;
    AskedStays(Do(mid, Call), after);
    PushedIs(start, before);
    PushedIs(start, all);
    PushedIs(mid, [Call] + after);
    WaitForDoneIsSafe(threads, all);
  }

  /** Under every interleaving: tasks are taken in push order, each by one worker, and neither counter
      ever goes below zero. */
  lemma EveryTaskOnce<T>(threads: nat, steps: seq<Step<T>>)
    requires IsRun(Start<T>(threads), steps)
    ensures var s := After(Start<T>(threads), steps);
            && Fifo(s) && Placed(s)
            && s.taskCount >= 0 && 0 <= s.active
  {
    StartInv<T>(threads);
    RunKeepsInv(Start<T>(threads), steps);
  }

  /** Both counters are zero exactly when nothing is left to do: the waiter returns neither too early
      nor is it kept for ever by a stale count. */
  lemma ZeroIff<T>(threads: nat, steps: seq<Step<T>>)
    requires IsRun(Start<T>(threads), steps)
    ensures var s := After(Start<T>(threads), steps);
            (s.taskCount == 0 && s.active == 0
        <==> s.adders == 0 && s.queue == [] && forall i | 0 <= i < |s.workers| :: !s.workers[i].Busy())
  {
    var s := After(Start<T>(threads), steps);
    StartInv<T>(threads);
    RunKeepsInv(Start<T>(threads), steps);
    NoneActive(s.workers);
    NoneCounted(s.workers);
    assert forall i | 0 <= i < |s.workers| ::
      s.workers[i].Busy() <==> s.workers[i].Active() || s.workers[i].Counted();
  }
}
