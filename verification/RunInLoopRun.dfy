/**
 The run-in-loop handler as an object, changed by the atomic steps of module RunInLoop.

 A run of the object is a run of the protocol, and its own methods, a post by the loop thread and a
 dispatch, are such runs.
 */
module RunInLoopRuns {
  import opened RunInLoop

  /** A functor is known by a name and the functors it posts when it runs. */
  datatype Functor = Functor(name: nat, posts: seq<Functor>)

  /** What a batch posts, in order. */
  function Posted(batch: seq<Functor>): seq<Functor> {
    if batch == [] then [] else batch[0].posts + Posted(batch[1..])
  }

  lemma {:induction false} PostedSnoc(batch: seq<Functor>, f: Functor)
    ensures Posted(batch + [f]) == Posted(batch) + f.posts
  {
    if batch == [] {
      assert [f][1..] == [];
      assert f.posts + [] == f.posts;
    } else {
      assert (batch + [f])[1..] == batch[1..] + [f];
      PostedSnoc(batch[1..], f);
      assert (batch[0].posts + Posted(batch[1..])) + f.posts == batch[0].posts + (Posted(batch[1..]) + f.posts);
    }
  }

  // ---------- the steps of whole methods ----------

  function PostSteps(f: Functor): seq<Step<Functor>> {
    [LoopWrite, LoopPush(f)]
  }

  /** The first n posts. */
  function PostsTo(posts: seq<Functor>, n: nat): seq<Step<Functor>>
    requires n <= |posts|
  {
    if n == 0 then [] else PostsTo(posts, n - 1) + PostSteps(posts[n - 1])
  }

  function RunSteps(f: Functor): seq<Step<Functor>> {
    PostsTo(f.posts, |f.posts|) + [RunOne]
  }

  /** The first n functors of a batch. */
  function BatchTo(batch: seq<Functor>, n: nat): seq<Step<Functor>>
    requires n <= |batch|
  {
    if n == 0 then [] else BatchTo(batch, n - 1) + RunSteps(batch[n - 1])
  }

  function DispatchSteps(batch: seq<Functor>): seq<Step<Functor>> {
    [Read, Take] + BatchTo(batch, |batch|) + [EndBatch]
  }

  predicate Leads<F(==)>(s: State<F>, steps: seq<Step<F>>, t: State<F>) {
    IsRun(s, steps) && After(s, steps) == t
  }

  lemma {:induction false} LeadsOn<F>(s: State<F>, a: seq<Step<F>>, t: State<F>, b: seq<Step<F>>, u: State<F>)
    requires Leads(s, a, t) && Leads(t, b, u)
    ensures Leads(s, a + b, u)
    decreases |a|
  {
    if a == [] {
      assert a + b == b;
    } else {
      assert (a + b)[1..] == a[1..] + b;
      LeadsOn(Do(s, a[0]), a[1..], t, b, u);
    }
  }

  lemma OneLeads<F>(s: State<F>, step: Step<F>)
    requires Enabled(s, step)
    ensures Leads(s, [step], Do(s, step))
  {
    Unfold(s, step, []);
  }

  lemma TwoLead<F>(s: State<F>, one: Step<F>, two: Step<F>)
    requires Enabled(s, one) && Enabled(Do(s, one), two)
    ensures Leads(s, [one, two], Do(Do(s, one), two))
  {
    Unfold(Do(s, one), two, []);
    Unfold(s, one, [two]);
  }

  // ---------- the handler ----------

  class RunInLoopHandler {
    /** The counter behind the wake-up descriptor: positive means the loop is woken. */
    var wakeUps: nat
    var pending: seq<Functor>
    /** Where the loop thread is, the functors it has taken and not run yet, and the other threads' posts. */
    var phase: Phase
    var loopWrote: bool
    var batch: seq<Functor>
    var posting: seq<bool>
    /** What happened so far. */
    var unread: seq<bool>
    var pushed: seq<Functor>
    var taken: nat
    var ran: seq<Functor>

    ghost function View(): State<Functor>
      reads this
    {
      State(phase, wakeUps, posting, loopWrote, pending, unread, batch, pushed, taken, ran)
    }

    constructor ()
      ensures View() == Start()
    {
      wakeUps, pending, phase, loopWrote, batch, posting := 0, [], Waiting, false, [], [];
      unread, pushed, taken, ran := [], [], 0, [];
    }

    // ---------- single steps ----------

    /** Reading the descriptor takes all wake-ups; without any it does nothing. */
    method ReadCounter()
      requires phase.Waiting? && !loopWrote
      modifies this
      ensures old(wakeUps) > 0 ==> View() == Do(old(View()), Read)
      ensures View() == old(View()).(phase := WokenUp, counter := 0, posting := posting, unread := unread)
      ensures |posting| == old(|posting|) && |unread| == old(|unread|)
    {
      phase := WokenUp;
      if wakeUps > 0 {
        wakeUps, posting, unread := 0, Stale(|posting|), Stale(|unread|);
      }
    }

    /** Under the lock. */
    method TakePending()
      requires phase.WokenUp?
      modifies this
      ensures View() == Do(old(View()), Take)
    {
      batch := [];
      if pending != [] {
        batch := pending;
        pending := [];
      }
      phase, unread, taken := RunningBatch, [], |pushed|;
    }

    method WriteWakeUp()
      modifies this`wakeUps
      ensures wakeUps == old(wakeUps) + 1
    {
      wakeUps := wakeUps + 1;
    }

    /** Under the lock. */
    method PushPending(f: Functor, isUnread: bool)
      modifies this`pending, this`unread, this`pushed
      ensures pending == old(pending) + [f] && pushed == old(pushed) + [f] && unread == old(unread) + [isUnread]
    {
      pending, pushed, unread := pending + [f], pushed + [f], unread + [isUnread];
    }

    method Perform(step: Step<Functor>)
      requires Enabled(View(), step)
      modifies this
      ensures View() == Do(old(View()), step)
    {
      match step
      case OtherWrite =>
        WriteWakeUp();
        posting := posting + [true];
      case OtherPush(k, f) =>
        PushPending(f, posting[k]);
        posting := posting[..k] + posting[k + 1..];
      case LoopWrite =>
        WriteWakeUp();
        loopWrote := true;
      case LoopPush(f) =>
        PushPending(f, true);
        loopWrote := false;
      case Read => ReadCounter();
      case Take => TakePending();
      case RunOne => batch, ran := batch[1..], ran + [batch[0]];
      case EndBatch => phase := Waiting;
    }

    /** Any interleaving. */
    method PerformAll(steps: seq<Step<Functor>>)
      requires IsRun(View(), steps)
      modifies this
      ensures View() == After(old(View()), steps)
      decreases |steps|
    {
      if steps != [] {
        Perform(steps[0]);
        PerformAll(steps[1..]);
      }
    }

    // ---------- whole methods of the loop thread ----------

    /** A post from the loop thread, between dispatches or from a functor. */
    method AddPendingFunction(functor: Functor)
      requires !phase.WokenUp? && !loopWrote
      modifies this
      ensures Leads(old(View()), PostSteps(functor), View())
      ensures View() == old(View()).(counter := wakeUps, pending := pending, unread := unread, pushed := pushed)
      ensures wakeUps == old(wakeUps) + 1 && pending == old(pending) + [functor]
    {
      TwoLead(View(), LoopWrite, LoopPush(functor));
      Perform(LoopWrite);
      Perform(LoopPush(functor));
    }

    /** A functor in front of the batch posts what it posts and is done. */
    method RunFunctor(f: Functor)
      requires phase.RunningBatch? && !loopWrote && batch != [] && batch[0] == f
      modifies this
      ensures Leads(old(View()), RunSteps(f), View())
      ensures phase == old(phase) && !loopWrote && batch == old(batch)[1..]
      ensures ran == old(ran) + [f] && pending == old(pending) + f.posts && wakeUps == old(wakeUps) + |f.posts|
    {
      Post(f.posts);
      OneLeads(View(), RunOne);
      LeadsOn(old(View()), PostsTo(f.posts, |f.posts|), View(), [RunOne], Do(View(), RunOne));
      Perform(RunOne);
    }

    method Post(posts: seq<Functor>)
      requires phase.RunningBatch? && !loopWrote
      modifies this
      ensures Leads(old(View()), PostsTo(posts, |posts|), View())
      ensures View() == old(View()).(counter := wakeUps, pending := pending, unread := unread, pushed := pushed)
      ensures pending == old(pending) + posts && wakeUps == old(wakeUps) + |posts|
    {
      ghost var s := View();
      var i := 0;
      while i < |posts|
        invariant i <= |posts| && Leads(s, PostsTo(posts, i), View())
        invariant View() == s.(counter := wakeUps, pending := pending, unread := unread, pushed := pushed)
        invariant pending == s.pending + posts[..i] && wakeUps == s.counter + i
      {
        ghost var t := View();
        AddPendingFunction(posts[i]);
        LeadsOn(s, PostsTo(posts, i), t, PostSteps(posts[i]), View());
        i := i + 1;
      }
      assert posts[..i] == posts;
    }

    /** One dispatch runs what was pending and nothing posted meanwhile, and the loop is woken again
        exactly when something was posted. */
    method HandleIn()
      requires phase.Waiting? && !loopWrote
      modifies this
      ensures old(wakeUps) > 0 ==> Leads(old(View()), DispatchSteps(old(pending)), View())
      ensures phase.Waiting? && !loopWrote
      ensures ran == old(ran) + old(pending) && pending == Posted(old(pending)) && wakeUps == |pending|
    {
      ghost var s := View();
      ReadCounter();
      TakePending();
      ghost var t := View();
      RunBatch();
      ghost var u := View();
      OneLeads(u, EndBatch);
      Perform(EndBatch);
      if s.counter > 0 {
        TwoLead(s, Read, Take);
        LeadsOn(s, [Read, Take], t, BatchTo(s.pending, |s.pending|), u);
        LeadsOn(s, [Read, Take] + BatchTo(s.pending, |s.pending|), u, [EndBatch], View());
      }
    }

    method RunBatch()
      requires phase.RunningBatch? && !loopWrote && pending == [] && wakeUps == 0
      modifies this
      ensures Leads(old(View()), BatchTo(old(batch), |old(batch)|), View())
      ensures phase.RunningBatch? && !loopWrote && batch == []
      ensures ran == old(ran) + old(batch) && pending == Posted(old(batch)) && wakeUps == |pending|
    {
      ghost var s := View();
      var functors := batch;
      var i := 0;
      while i < |functors|
        invariant i <= |functors| && phase.RunningBatch? && !loopWrote && batch == functors[i..]
        invariant Leads(s, BatchTo(functors, i), View())
        invariant ran == s.ran + functors[..i] && pending == Posted(functors[..i]) && wakeUps == |pending|
      {
        ghost var t := View();
        assert functors[..i + 1] == functors[..i] + [functors[i]];
        PostedSnoc(functors[..i], functors[i]);
        RunFunctor(functors[i]);
        LeadsOn(s, BatchTo(functors, i), t, RunSteps(functors[i]), View());
        i := i + 1;
      }
      assert functors[..i] == functors;
    }
  }

  /** Under every interleaving of the threads of a new handler: each functor pushed is run, in the batch, or
      pending, once and in push order; an unread one that is pending wakes the loop, and so does any between
      dispatches if no post was split. */
  method RunHandler(steps: seq<Step<Functor>>) returns (handler: RunInLoopHandler)
    requires IsRun(Start<Functor>(), steps)
    ensures handler.View() == After(Start<Functor>(), steps)
    ensures handler.ran + handler.batch + handler.pending == handler.pushed
    ensures |handler.unread| == |handler.pending| && (AnyUnread(handler.unread) ==> handler.wakeUps > 0)
    ensures NoPostIsSplit(Start<Functor>(), steps) && handler.phase.Waiting? && handler.pending != [] ==>
      handler.wakeUps > 0
  {
    handler := new RunInLoopHandler();
    handler.PerformAll(steps);
    RunInPushOrder(steps);
    UnreadPendingWakes(steps);
    if NoPostIsSplit(Start<Functor>(), steps) {
      WholePostsAlwaysWake(steps);
    }
  }
}
