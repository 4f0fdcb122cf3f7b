/**
 What the loop can always still do: when everything that was pushed gets to run without another post.
 */
module RunInLoopProgress {
  import opened RunInLoop

  /** A step that the loop takes by itself, not to post. */
  predicate OfDispatch<F>(step: Step<F>) {
    step.Read? || step.Take? || step.RunOne? || step.EndBatch?
  }

  predicate AllOfDispatch<F>(steps: seq<Step<F>>) {
    forall i | 0 <= i < |steps| :: OfDispatch(steps[i])
  }

  /** Is something pending that no read of the counter is going to find? */
  predicate Asleep<F(==)>(s: State<F>) {
    s.pending != [] && !s.phase.WokenUp? && s.counter == 0
  }

  /** The steps left until nothing is pending, once the loop is woken. */
  function StepsLeft<F(==)>(s: State<F>): nat {
    match s.phase
    case RunningBatch => |s.batch| + 1 + if s.pending != [] then |s.pending| + 3 else 0
    case Waiting => if s.pending != [] then |s.pending| + 3 else 0
    case WokenUp => |s.pending| + 2
  }

  function NextStep<F(==)>(s: State<F>): (step: Step<F>)
    requires InOrder(s) && !s.loopWrote && !Asleep(s) && StepsLeft(s) > 0
    ensures Enabled(s, step) && OfDispatch(step)
  {
    match s.phase
    case Waiting => Read
    case WokenUp => Take
    case RunningBatch => if s.batch != [] then RunOne else EndBatch
  }

  lemma NextIsNearer<F>(s: State<F>)
    requires InOrder(s) && !s.loopWrote && !Asleep(s) && StepsLeft(s) > 0
    ensures var t := Do(s, NextStep(s));
            !t.loopWrote && !Asleep(t) && t.pushed == s.pushed && StepsLeft(t) < StepsLeft(s)
  {
  }

  lemma {:induction false} GoOn<F>(s: State<F>) returns (more: seq<Step<F>>)
    requires InOrder(s) && !s.loopWrote && !Asleep(s)
    ensures IsRun(s, more) && AllOfDispatch(more) && After(s, more).ran == s.pushed == After(s, more).pushed
    decreases StepsLeft(s)
  {
    if StepsLeft(s) == 0 {
      more := [];
      assert s.ran + [] == s.ran && s.pushed[s.taken..] == [] && s.pushed[..s.taken] == s.pushed;
    } else {
      var step := NextStep(s);
      StepKeepsOrder(s, step);
      NextIsNearer(s);
      var rest := GoOn(Do(s, step));
      Unfold(s, step, rest);
      more := [step] + rest;
    }
  }

  /** Asleep it stays so, whatever the loop does by itself. */
  lemma {:induction false} StaysAsleep<F>(s: State<F>, more: seq<Step<F>>)
    requires Asleep(s) && IsRun(s, more) && AllOfDispatch(more)
    ensures Asleep(After(s, more)) && After(s, more).pending == s.pending
    decreases |more|
  {
    if more != [] {
      assert OfDispatch(more[0]);
      assert forall i | 0 <= i < |more[1..]| :: more[1..][i] == more[i + 1];
      StaysAsleep(Do(s, more[0]), more[1..]);
    }
  }

  /** Can the loop by itself get to where everything that was pushed has run? */
  ghost predicate CanRunAll<F(!new)>(s: State<F>) {
    exists more :: IsRun(s, more) && AllOfDispatch(more) && After(s, more).ran == s.pushed
  }

  /** Under every interleaving, unless the loop is just posting: it can exactly if nothing is pending, the counter
      was just read, or the counter is positive. */
  lemma CanRunAllIff<F(!new)>(steps: seq<Step<F>>)
    requires IsRun(Start<F>(), steps) && !After(Start<F>(), steps).loopWrote
    ensures CanRunAll(After(Start<F>(), steps)) <==> !Asleep(After(Start<F>(), steps))
  {
    var s := After(Start<F>(), steps);
    RunKeepsInv(Start<F>(), steps);
    if !Asleep(s) {
      var more := GoOn(s);
    } else if CanRunAll(s) {
      var more :| IsRun(s, more) && AllOfDispatch(more) && After(s, more).ran == s.pushed;
      StaysAsleep(s, more);
      RunKeepsInv(s, more);
      PushedStays(s, more);
    }
  }

  lemma {:induction false} PushedStays<F>(s: State<F>, more: seq<Step<F>>)
    requires IsRun(s, more) && AllOfDispatch(more)
    ensures After(s, more).pushed == s.pushed
    decreases |more|
  {
    if more != [] {
      assert OfDispatch(more[0]);
      assert forall i | 0 <= i < |more[1..]| :: more[1..][i] == more[i + 1];
      PushedStays(Do(s, more[0]), more[1..]);
    }
  }

  /** In particular, as long as no post is split, everything that was pushed can run without another post. */
  lemma WholePostsCanRun<F(!new)>(steps: seq<Step<F>>)
    requires IsRun(Start<F>(), steps) && NoPostIsSplit(Start<F>(), steps)
    requires !After(Start<F>(), steps).loopWrote
    ensures CanRunAll(After(Start<F>(), steps))
  {
    var s := After(Start<F>(), steps);
    RunKeepsInv(Start<F>(), steps);
    WholePostsStayUnread(Start<F>(), steps);
    assert s.pending != [] && !s.phase.WokenUp? ==> s.unread[0];
    CanRunAllIff(steps);
  }

  /** Other threads are never held up, and the loop can post whenever it is not between read and take. */
  lemma PostsAreNotHeldUp<F>(s: State<F>, f: F)
    ensures Enabled(s, OtherWrite) && forall k | 0 <= k < |s.posting| :: Enabled(s, OtherPush(k, f))
    ensures !s.phase.WokenUp? && !s.loopWrote ==> Enabled(s, LoopWrite) && Enabled(Do(s, LoopWrite), LoopPush(f))
  {
  }
}
