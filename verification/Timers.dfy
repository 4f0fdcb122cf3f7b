/**
 Countdown timers: what a time wheel stands for, and what any run of it does to each entry.
 */
module Timers {
  import opened Strings

  class Entry {
    const eraseOnTimeout: bool
    var indexInWheel: nat

    constructor (eraseOnTimeout: bool)
      ensures this.eraseOnTimeout == eraseOnTimeout && indexInWheel == 0
    {
      this.eraseOnTimeout := eraseOnTimeout;
      indexInWheel := 0;
    }
  }

  /** The ticks a new or renewed entry has left, with n buckets. */
  function Full(n: nat): (ticks: nat)
    requires n > 0
    ensures 0 < ticks <= n
  {
    if n == 1 then 1 else n - 1
  }

  function Fires(timers: map<Entry, nat>): set<Entry> {
    set e | e in timers && timers[e] == 1
  }

  function Erased(entries: set<Entry>): set<Entry> {
    set e | e in entries && e.eraseOnTimeout
  }

  /** Every countdown one lower, and what comes to its end starts again with n ticks left. */
  function Moved(timers: map<Entry, nat>, n: nat): map<Entry, nat> {
    map e | e in timers :: if timers[e] <= 1 then n else timers[e] - 1
  }

  /** A tick: what fires goes, or starts again with n ticks left; all others have one tick less. */
  function Ticked(timers: map<Entry, nat>, n: nat): map<Entry, nat> {
    Moved(timers, n) - Erased(Fires(timers))
  }

  // ---------- runs ----------

  datatype Op = Add(entry: Entry) | Remove(entry: Entry) | RenewOp(entry: Entry) | TickOp

  function Apply(timers: map<Entry, nat>, op: Op, n: nat): map<Entry, nat>
    requires n > 0
  {
    match op
    case Add(e) => timers[e := Full(n)]
    case Remove(e) => timers - {e}
    case RenewOp(e) => timers[e := Full(n)]
    case TickOp => Ticked(timers, n)
  }

  function Run(timers: map<Entry, nat>, ops: seq<Op>, n: nat): map<Entry, nat>
    requires n > 0
    decreases |ops|
  {
    if ops == [] then timers else Run(Apply(timers, ops[0], n), ops[1..], n)
  }

  predicate Touches(op: Op, e: Entry) {
    !op.TickOp? && op.entry == e
  }

  /** An entry is not added while its timer runs down, and only an entry that is there is renewed. */
  predicate Allowed(timers: map<Entry, nat>, op: Op, n: nat)
    requires n > 0
  {
    match op
    case Add(e) => e in timers ==> timers[e] == Full(n)
    case RenewOp(e) => e in timers
    case _ => true
  }

  predicate AllAllowed(timers: map<Entry, nat>, ops: seq<Op>, n: nat)
    requires n > 0
    decreases |ops|
  {
    ops == [] || (Allowed(timers, ops[0], n) && AllAllowed(Apply(timers, ops[0], n), ops[1..], n))
  }

  /** Only these entries are touched, and there is no tick. */
  predicate Acts(ops: seq<Op>, entries: set<Entry>) {
    forall op | op in ops :: !op.TickOp? && op.entry in entries
  }

  lemma {:induction false} RunConcat(timers: map<Entry, nat>, a: seq<Op>, b: seq<Op>, n: nat)
    requires n > 0
    ensures Run(timers, a + b, n) == Run(Run(timers, a, n), b, n)
    ensures AllAllowed(timers, a + b, n) <==> AllAllowed(timers, a, n) && AllAllowed(Run(timers, a, n), b, n)
    decreases |a|
  {
    if a == [] {
      assert a + b == b;
    } else {
      assert (a + b)[1..] == a[1..] + b;
      RunConcat(Apply(timers, a[0], n), a[1..], b, n);
    }
  }

  // ---------- a tick, one timeout after the other ----------

  function Listed(order: seq<Entry>): set<Entry> {
    set e | e in order
  }

  /** All that the timeouts do, one after the other. */
  function Calls(order: seq<Entry>, call: Entry -> seq<Op>): seq<Op> {
    if order == [] then [] else call(order[0]) + Calls(order[1..], call)
  }

  /** Each entry that is listed does what its timeout does, in this order. */
  lemma {:induction false} CallsInOrder(a: seq<Entry>, e: Entry, b: seq<Entry>, call: Entry -> seq<Op>)
    ensures Calls(a + [e] + b, call) == Calls(a, call) + call(e) + Calls(b, call)
  {
    Assoc(a, [e], b);
    if a == [] {
      Nil([e] + b);
      Nil(call(e));
      assert ([e] + b)[1..] == b;
    } else {
      assert (a + [e] + b)[0] == a[0] && (a + [e] + b)[1..] == a[1..] + [e] + b;
      CallsInOrder(a[1..], e, b, call);
      Assoc(call(a[0]), Calls(a[1..], call), call(e));
      Assoc(call(a[0]), Calls(a[1..], call) + call(e), Calls(b, call));
    }
  }

  /** Does an operation in a timeout leave the bucket being walked alone?  That bucket has the entries with
      all n ticks left, and those that wait to be erased.  An entry may be added although it waits. */
  predicate Clear(timers: map<Entry, nat>, op: Op, n: nat, waiting: set<Entry>)
    requires n > 0
  {
    match op
    case Add(_) => n > 1
    case Remove(e) => if e in timers then timers[e] != n else e !in waiting
    case RenewOp(e) => if e in timers then timers[e] != n || n == 1 else e !in waiting
    case TickOp => false
  }

  /** The same for one timeout, up to the first operation that is not allowed. */
  predicate OpsClear(timers: map<Entry, nat>, ops: seq<Op>, n: nat, waiting: set<Entry>)
    requires n > 0
    decreases |ops|
  {
    ops == []
    || (&& Clear(timers, ops[0], n, waiting)
        && (Allowed(timers, ops[0], n) ==> OpsClear(Apply(timers, ops[0], n), ops[1..], n, waiting)))
  }

  /** And for all timeouts; an entry waits until its own timeout is over. */
  predicate WalkClear(timers: map<Entry, nat>, order: seq<Entry>, call: Entry -> seq<Op>, n: nat)
    requires n > 0
    decreases |order|
  {
    order == []
    || (&& OpsClear(timers, call(order[0]), n, Erased(Listed(order)))
        && (AllAllowed(timers, call(order[0]), n) ==>
              WalkClear(Run(timers, call(order[0]), n), order[1..], call, n)))
  }

  /** The order lists what fires, each once, and the timeouts leave the bucket being walked alone. */
  predicate Walks(timers: map<Entry, nat>, order: seq<Entry>, call: Entry -> seq<Op>, n: nat)
    requires n > 0
  {
    && Listed(order) == Fires(timers) && (forall i, j | 0 <= i < j < |order| :: order[i] != order[j])
    && WalkClear(Ticked(timers, n), order, call, n)
  }

  lemma ListNext(order: seq<Entry>, i: nat)
    requires i < |order|
    ensures Listed(order[..i + 1]) == Listed(order[..i]) + {order[i]}
  {
    assert order[..i + 1] == order[..i] + [order[i]];
  }

  /** Before the timeout of entry i: what is left to do from here leads to where the whole tick does. */
  ghost predicate TickUnderway(timers: map<Entry, nat>, order: seq<Entry>, call: Entry -> seq<Op>, n: nat, i: nat,
                               now: map<Entry, nat>)
    requires n > 0 && i <= |order|
  {
    && WalkClear(now, order[i..], call, n)
    && (AllAllowed(Ticked(timers, n), Calls(order, call), n) <==> AllAllowed(now, Calls(order[i..], call), n))
    && Run(now, Calls(order[i..], call), n) == Run(Ticked(timers, n), Calls(order, call), n)
  }

  lemma TickStarts(timers: map<Entry, nat>, order: seq<Entry>, call: Entry -> seq<Op>, n: nat)
    requires n > 0 && Walks(timers, order, call, n)
    ensures TickUnderway(timers, order, call, n, 0, Ticked(timers, n))
  {
    assert order[0..] == order;
  }

  /** The next timeout: if all it does is allowed the tick is one further, and otherwise it fails. */
  lemma CallNext(timers: map<Entry, nat>, order: seq<Entry>, call: Entry -> seq<Op>, n: nat, i: nat,
                 now: map<Entry, nat>)
    requires n > 0 && i < |order| && TickUnderway(timers, order, call, n, i, now)
    ensures OpsClear(now, call(order[i]), n, Erased(Listed(order[i..])))
    ensures if AllAllowed(now, call(order[i]), n)
            then TickUnderway(timers, order, call, n, i + 1, Run(now, call(order[i]), n))
            else !AllAllowed(Ticked(timers, n), Calls(order, call), n)
  {
    assert order[i..][1..] == order[i + 1..];
    RunConcat(now, call(order[i]), Calls(order[i + 1..], call), n);
  }

  lemma TickEnds(timers: map<Entry, nat>, order: seq<Entry>, call: Entry -> seq<Op>, n: nat, now: map<Entry, nat>)
    requires n > 0 && TickUnderway(timers, order, call, n, |order|, now)
    ensures AllAllowed(Ticked(timers, n), Calls(order, call), n)
    ensures now == Run(Ticked(timers, n), Calls(order, call), n)
  {
    assert order[|order|..] == [];
  }

  /** One timeout is over, and its entry waits no longer. */
  lemma WaitingNext(order: seq<Entry>, i: nat)
    requires i < |order| && forall j, k | 0 <= j < k < |order| :: order[j] != order[k]
    ensures Erased(Listed(order[i + 1..])) == Erased(Listed(order[i..])) - Erased({order[i]})
    ensures order[i] in Listed(order[i..])
  {
    assert order[i..] == [order[i]] + order[i + 1..];
    forall e ensures e in order[i..] <==> e == order[i] || e in order[i + 1..] {}
    assert order[i] !in order[i + 1..];
  }

  // ---------- how often an entry fires ----------

  function Firings(timers: map<Entry, nat>, ops: seq<Op>, n: nat, e: Entry): nat
    requires n > 0
    decreases |ops|
  {
    if ops == [] then 0
    else (if ops[0].TickOp? && e in Fires(timers) then 1 else 0) + Firings(Apply(timers, ops[0], n), ops[1..], n, e)
  }

  lemma {:induction false} FiringsConcat(timers: map<Entry, nat>, a: seq<Op>, b: seq<Op>, n: nat, e: Entry)
    requires n > 0
    ensures Firings(timers, a + b, n, e) == Firings(timers, a, n, e) + Firings(Run(timers, a, n), b, n, e)
    decreases |a|
  {
    if a == [] {
      assert a + b == b;
    } else {
      assert (a + b)[1..] == a[1..] + b;
      FiringsConcat(Apply(timers, a[0], n), a[1..], b, n, e);
    }
  }

  function Ticks(ops: seq<Op>): nat {
    if ops == [] then 0 else (if ops[0].TickOp? then 1 else 0) + Ticks(ops[1..])
  }

  lemma {:induction false} NoTicksNoFirings(timers: map<Entry, nat>, ops: seq<Op>, n: nat, e: Entry)
    requires n > 0 && Ticks(ops) == 0
    ensures Firings(timers, ops, n, e) == 0
    decreases |ops|
  {
    if ops != [] {
      NoTicksNoFirings(Apply(timers, ops[0], n), ops[1..], n, e);
    }
  }

  lemma {:induction false} GoneNeverFires(timers: map<Entry, nat>, ops: seq<Op>, n: nat, e: Entry)
    requires n > 0 && e !in timers && forall op | op in ops :: !Touches(op, e)
    ensures Firings(timers, ops, n, e) == 0 && e !in Run(timers, ops, n)
    decreases |ops|
  {
    if ops != [] {
      assert !Touches(ops[0], e);
      GoneNeverFires(Apply(timers, ops[0], n), ops[1..], n, e);
    }
  }

  /** How often a timer with `left` ticks to go comes to its end within so many ticks: once, and then
      once every n ticks if it is kept. */
  function Rounds(ticks: nat, left: nat, n: nat, erase: bool): nat
    requires n > 0
  {
    if ticks < left then 0 else if erase then 1 else 1 + (ticks - left) / n
  }

  lemma Distribute(n: int, p: int, q: int)
    ensures n * (p - q - 1) == n * p - n * q - n
  {
  }

  lemma NoMultiple(n: int, d: int)
    requires n > 0 && -n < n * d < n
    ensures d == 0
  {
  }

  lemma QuotientLess(a: nat, n: nat)
    requires 0 < n <= a
    ensures (a - n) / n == a / n - 1
  {
    var p, q := a / n, (a - n) / n;
    assert a == n * p + a % n;
    assert a - n == n * q + (a - n) % n;
    Distribute(n, p, q);
    NoMultiple(n, p - q - 1);
  }

  lemma NextRound(ticks: nat, n: nat)
    requires n > 0
    ensures 1 + ticks / n == 1 + Rounds(ticks, n, n, false)
  {
    if ticks >= n {
      QuotientLess(ticks, n);
    }
  }

  /** An entry left alone fires on exactly the ticks its timer names, in a run of any length. */
  lemma {:induction false} LeftAloneFiresOnTime(timers: map<Entry, nat>, ops: seq<Op>, n: nat, e: Entry)
    requires n > 0 && e in timers && 1 <= timers[e] <= n
    requires forall op | op in ops :: !Touches(op, e)
    ensures Firings(timers, ops, n, e) == Rounds(Ticks(ops), timers[e], n, e.eraseOnTimeout)
    decreases |ops|
  {
    if ops != [] {
      var next, rest := Apply(timers, ops[0], n), ops[1..];
      assert !Touches(ops[0], e);
      if ops[0].TickOp? && timers[e] == 1 && e.eraseOnTimeout {
        GoneNeverFires(next, rest, n, e);
      } else {
        LeftAloneFiresOnTime(next, rest, n, e);
        if ops[0].TickOp? && timers[e] == 1 {
          NextRound(Ticks(rest), n);
        }
      }
    }
  }

  /** Added or renewed, then left alone: the entry fires on the (n-1)-th tick that follows, for two
      buckets or more, and every n ticks from then on if it is kept. */
  lemma FiresAfterAllButOneTick(timers: map<Entry, nat>, start: Op, ops: seq<Op>, n: nat, e: Entry)
    requires n >= 2 && (start == Add(e) || start == RenewOp(e)) && forall op | op in ops :: !Touches(op, e)
    ensures Firings(timers, [start] + ops, n, e) == Rounds(Ticks(ops), n - 1, n, e.eraseOnTimeout)
  {
    assert ([start] + ops)[1..] == ops;
    LeftAloneFiresOnTime(timers[e := Full(n)], ops, n, e);
  }

  /** Removed and then left alone, it never fires, and it is in the wheel no longer. */
  lemma RemovedNeverFires(timers: map<Entry, nat>, ops: seq<Op>, n: nat, e: Entry)
    requires n > 0 && forall op | op in ops :: !Touches(op, e)
    ensures Firings(timers, [Remove(e)] + ops, n, e) == 0 && e !in Run(timers, [Remove(e)] + ops, n)
  {
    assert ([Remove(e)] + ops)[1..] == ops;
    GoneNeverFires(timers - {e}, ops, n, e);
  }

  /** The run never lets the timer of e run out: every tick finds it above 1, counting from left and
      starting again with each renewal. */
  predicate RenewedInTime(ops: seq<Op>, n: nat, e: Entry, left: nat)
    requires n > 0
  {
    ops == [] || match ops[0]
      case TickOp => left > 1 && RenewedInTime(ops[1..], n, e, left - 1)
      case Remove(x) => x != e && RenewedInTime(ops[1..], n, e, left)
      case Add(x) => RenewedInTime(ops[1..], n, e, if x == e then Full(n) else left)
      case RenewOp(x) => RenewedInTime(ops[1..], n, e, if x == e then Full(n) else left)
  }

  /** Renewed in time, an entry never fires, however long the run, and it stays in the wheel. */
  lemma {:induction false} RenewedNeverFires(timers: map<Entry, nat>, ops: seq<Op>, n: nat, e: Entry)
    requires n > 0 && e in timers && RenewedInTime(ops, n, e, timers[e])
    ensures Firings(timers, ops, n, e) == 0 && e in Run(timers, ops, n)
    decreases |ops|
  {
    if ops != [] {
      RenewedNeverFires(Apply(timers, ops[0], n), ops[1..], n, e);
    }
  }
}
