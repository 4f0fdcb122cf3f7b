/**
 Handing functors over to the loop thread.

 A post writes to the wake-up counter and then pushes; a dispatch reads the counter, takes what is
 pending and runs it.  These are the steps of all threads; module RunInLoopRuns has the object that
 takes them.
 */
module RunInLoop {

  datatype Phase = Waiting | WokenUp | RunningBatch

  /** `counter` is the wake-up counter.  A post from another thread is in `posting` between its write
      and its push; a post from the loop thread is one when `loopWrote`.  A post is unread while the
      counter was not read after its write.  `pushed`, `taken` and `ran` record what happened so far,
      taken being how many functors had been pushed when the last batch was taken. */
  datatype State<F> = State(phase: Phase, counter: nat, posting: seq<bool>, loopWrote: bool,
                            pending: seq<F>, unread: seq<bool>, batch: seq<F>,
                            pushed: seq<F>, taken: nat, ran: seq<F>)

  datatype Step<F> =
    | OtherWrite
    | OtherPush(k: nat, f: F)
    | LoopWrite
    | LoopPush(f: F)
    | Read
    | Take
    | RunOne
    | EndBatch

  function Start<F>(): State<F> {
    State(Waiting, 0, [], false, [], [], [], [], 0, [])
  }

  /** The loop thread posts between dispatches or from a functor, and does nothing else in between. */
  predicate Enabled<F>(s: State<F>, step: Step<F>) {
    match step
    case OtherWrite => true
    case OtherPush(k, _) => k < |s.posting|
    case LoopWrite => !s.phase.WokenUp? && !s.loopWrote
    case LoopPush(_) => s.loopWrote
    case Read => s.phase.Waiting? && s.counter > 0 && !s.loopWrote
    case Take => s.phase.WokenUp?
    case RunOne => s.phase.RunningBatch? && s.batch != [] && !s.loopWrote
    case EndBatch => s.phase.RunningBatch? && s.batch == [] && !s.loopWrote
  }

  function Stale(n: nat): (flags: seq<bool>)
    ensures |flags| == n && forall i | 0 <= i < n :: !flags[i]
  {
    seq(n, _ => false)
  }

  function Do<F>(s: State<F>, step: Step<F>): State<F>
    requires Enabled(s, step)
  {
    match step
    case OtherWrite => s.(counter := s.counter + 1, posting := s.posting + [true])
    case OtherPush(k, f) =>
      s.(posting := s.posting[..k] + s.posting[k + 1..], pending := s.pending + [f],
         unread := s.unread + [s.posting[k]], pushed := s.pushed + [f])
    case LoopWrite => s.(counter := s.counter + 1, loopWrote := true)
    case LoopPush(f) =>
      s.(loopWrote := false, pending := s.pending + [f], unread := s.unread + [true], pushed := s.pushed + [f])
    case Read =>
      s.(phase := WokenUp, counter := 0, posting := Stale(|s.posting|), unread := Stale(|s.unread|))
    case Take => s.(phase := RunningBatch, batch := s.pending, pending := [], unread := [], taken := |s.pushed|)
    case RunOne => s.(batch := s.batch[1..], ran := s.ran + [s.batch[0]])
    case EndBatch => s.(phase := Waiting)
  }

  predicate IsRun<F>(s: State<F>, steps: seq<Step<F>>)
    decreases |steps|
  {
    steps == [] || (Enabled(s, steps[0]) && IsRun(Do(s, steps[0]), steps[1..]))
  }

  function After<F>(s: State<F>, steps: seq<Step<F>>): State<F>
    requires IsRun(s, steps)
    decreases |steps|
  {
    if steps == [] then s else After(Do(s, steps[0]), steps[1..])
  }

  // ---------- invariants ----------

  /** Run, batch and pending together are the pushes in order, cut where the batch was taken. */
  ghost predicate InOrder<F>(s: State<F>) {
    && s.taken <= |s.pushed|
    && s.ran + s.batch == s.pushed[..s.taken]
    && s.pending == s.pushed[s.taken..]
    && (!s.phase.RunningBatch? ==> s.batch == [])
  }

  predicate AnyUnread(flags: seq<bool>) {
    exists i | 0 <= i < |flags| :: flags[i]
  }

  /** A post whose write was not read yet keeps the counter up. */
  predicate UnreadWakes<F>(s: State<F>) {
    && |s.unread| == |s.pending|
    && (AnyUnread(s.unread) || AnyUnread(s.posting) || s.loopWrote ==> s.counter > 0)
  }

  lemma StepKeepsOrder<F>(s: State<F>, step: Step<F>)
    requires InOrder(s) && Enabled(s, step)
    ensures InOrder(Do(s, step))
  {
    var t := Do(s, step);
    match step
    case OtherPush(k, f) => assert t.pushed[..s.taken] == s.pushed[..s.taken];
    case LoopPush(f) => assert t.pushed[..s.taken] == s.pushed[..s.taken];
    case Take => assert s.ran + s.pending == s.pushed;
    case RunOne => assert s.ran + s.batch == t.ran + t.batch;
    case _ =>
  }

  lemma StepKeepsUnread<F>(s: State<F>, step: Step<F>)
    requires UnreadWakes(s) && Enabled(s, step)
    ensures UnreadWakes(Do(s, step))
  {
    var t := Do(s, step);
    if step.OtherPush? {
      if i :| 0 <= i < |t.posting| && t.posting[i] {
        assert s.posting[if i < step.k then i else i + 1];
      }
      if i :| 0 <= i < |t.unread| && t.unread[i] {
        assert i < |s.unread| ==> s.unread[i];
        assert i == |s.unread| ==> s.posting[step.k];
      }
    }
  }

  lemma {:induction false} RunKeepsInv<F>(s: State<F>, steps: seq<Step<F>>)
    requires InOrder(s) && UnreadWakes(s) && IsRun(s, steps)
    ensures InOrder(After(s, steps)) && UnreadWakes(After(s, steps))
    decreases |steps|
  {
    if steps != [] {
      StepKeepsOrder(s, steps[0]);
      StepKeepsUnread(s, steps[0]);
      RunKeepsInv(Do(s, steps[0]), steps[1..]);
    }
  }

  // ---------- the main theorems ----------

  /** Under every interleaving: each functor pushed is run, in the batch, or pending, once and in push
      order, and the batch holds nothing pushed after it was taken. */
  lemma RunInPushOrder<F>(steps: seq<Step<F>>)
    requires IsRun(Start<F>(), steps)
    ensures var s := After(Start<F>(), steps);
            && s.ran + s.batch + s.pending == s.pushed
            && s.taken <= |s.pushed| && s.ran + s.batch == s.pushed[..s.taken]
  {
    RunKeepsInv(Start<F>(), steps);
  }

  /** Under every interleaving: what is pending wakes the loop, unless the counter was read after all
      the writes that belong to it. */
  lemma UnreadPendingWakes<F>(steps: seq<Step<F>>)
    requires IsRun(Start<F>(), steps)
    ensures var s := After(Start<F>(), steps);
            |s.unread| == |s.pending| && (AnyUnread(s.unread) ==> s.counter > 0)
  {
    RunKeepsInv(Start<F>(), steps);
  }

  /** The counter is never read while another thread is between its write and its push. */
  predicate NoPostIsSplit<F>(s: State<F>, steps: seq<Step<F>>)
    requires IsRun(s, steps)
    decreases |steps|
  {
    steps == [] || ((steps[0].Read? ==> s.posting == []) && NoPostIsSplit(Do(s, steps[0]), steps[1..]))
  }

  /** Posts in flight are unread, and so is what is pending, except right after the read. */
  predicate AllUnread<F>(s: State<F>) {
    && (forall i | 0 <= i < |s.posting| :: s.posting[i])
    && (s.phase.WokenUp? ==> !s.loopWrote)
    && (!s.phase.WokenUp? ==> forall i | 0 <= i < |s.unread| :: s.unread[i])
  }

  lemma {:induction false} WholePostsStayUnread<F>(s: State<F>, steps: seq<Step<F>>)
    requires AllUnread(s) && IsRun(s, steps) && NoPostIsSplit(s, steps)
    ensures AllUnread(After(s, steps))
    decreases |steps|
  {
    if steps != [] {
      WholePostsStayUnread(Do(s, steps[0]), steps[1..]);
    }
  }

  /** As long as no post is split, no wake-up is lost: between dispatches something pending means the
      loop is woken. */
  lemma WholePostsAlwaysWake<F>(steps: seq<Step<F>>)
    requires IsRun(Start<F>(), steps) && NoPostIsSplit(Start<F>(), steps)
    ensures var s := After(Start<F>(), steps); s.phase.Waiting? && s.pending != [] ==> s.counter > 0
  {
    var s := After(Start<F>(), steps);
    RunKeepsInv(Start<F>(), steps);
    WholePostsStayUnread(Start<F>(), steps);
    if s.phase.Waiting? && s.pending != [] {
      assert s.unread[0];
    }
  }

  predicate FromLoop<F>(steps: seq<Step<F>>) {
    forall i | 0 <= i < |steps| :: !steps[i].OtherWrite?
  }

  lemma {:induction false} LoopPostsAreWhole<F>(s: State<F>, steps: seq<Step<F>>)
    requires IsRun(s, steps) && FromLoop(steps) && s.posting == []
    ensures NoPostIsSplit(s, steps)
    decreases |steps|
  {
    if steps != [] {
      assert !steps[0].OtherWrite?;
      assert forall i | 0 <= i < |steps[1..]| :: steps[1..][i] == steps[i + 1];
      LoopPostsAreWhole(Do(s, steps[0]), steps[1..]);
    }
  }

  /** In particular when only the loop thread posts. */
  lemma LoopPostsAlwaysWake<F>(steps: seq<Step<F>>)
    requires IsRun(Start<F>(), steps) && FromLoop(steps)
    ensures var s := After(Start<F>(), steps); s.phase.Waiting? && s.pending != [] ==> s.counter > 0
  {
    LoopPostsAreWhole(Start<F>(), steps);
    WholePostsAlwaysWake(steps);
  }

  /** The rest of a dispatch, and then the push of a post that was split. */
  function FinishDispatch<F>(batch: nat, f: F): seq<Step<F>> {
    if batch == 0 then [EndBatch, OtherPush(0, f)] else [RunOne] + FinishDispatch(batch - 1, f)
  }

  predicate Stuck<F(==)>(s: State<F>, f: F) {
    s.phase.Waiting? && s.pending == [f] && s.counter == 0
  }

  lemma {:induction false} DispatchFinishes<F>(s: State<F>, f: F)
    requires s.phase.RunningBatch? && !s.loopWrote && s.counter == 0 && s.posting != [] && s.pending == []
    ensures var steps := FinishDispatch(|s.batch|, f); IsRun(s, steps) && Stuck(After(s, steps), f)
    decreases |s.batch|
  {
    if s.batch == [] {
      Unfold(Do(s, EndBatch), OtherPush(0, f), []);
      Unfold(s, EndBatch, [OtherPush(0, f)]);
    } else {
      DispatchFinishes(Do(s, RunOne), f);
      Unfold(s, RunOne, FinishDispatch(|s.batch| - 1, f));
    }
  }

  /** Whenever the counter can be read while another thread's post is split, the run can go on to a
      state where that functor is pending and nothing wakes the loop. */
  lemma SplitPostCanBeStuck<F>(s: State<F>, f: F)
    requires Enabled(s, Read) && s.posting != []
    ensures var steps := [Read, Take] + FinishDispatch(|s.pending|, f);
            IsRun(s, steps) && Stuck(After(s, steps), f)
  {
    var s1 := Do(s, Read);
    var s2 := Do(s1, Take);
    var rest := FinishDispatch(|s.pending|, f);
    DispatchFinishes(s2, f);
    Unfold(s1, Take, rest);
    Unfold(s, Read, [Take] + rest);
    assert [Read] + ([Take] + rest) == [Read, Take] + rest;
  }

  /** So a functor posted to a loop that is idle may never be run. */
  lemma WakeUpCanBeLost<F>(f: F)
    ensures exists steps :: IsRun(Start<F>(), steps) && Stuck(After(Start<F>(), steps), f)
  {
    var s := Do(Start<F>(), OtherWrite);
    var steps := [Read, Take] + FinishDispatch(|s.pending|, f);
    SplitPostCanBeStuck(s, f);
    Unfold(Start<F>(), OtherWrite, steps);
  }

  lemma Unfold<F>(s: State<F>, step: Step<F>, rest: seq<Step<F>>)
    requires Enabled(s, step) && IsRun(Do(s, step), rest)
    ensures IsRun(s, [step] + rest) && After(s, [step] + rest) == After(Do(s, step), rest)
  {
    assert ([step] + rest)[1..] == rest;
  }
}
