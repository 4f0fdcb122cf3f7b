/**
 Runs of a time wheel: what is done to it, tick after tick, is what is done to countdown timers.
 */
module TimeWheelRuns {
  import opened Timers
  import opened TimeWheels

  /** What the owner of the wheel does, and ticks in which timeouts do something as well. */
  datatype WheelOp = Do(op: Op) | TickWith(order: seq<Entry>, call: Entry -> seq<Op>) {

    /** The same as operations on timers. */
    function Flat(): seq<Op> {
      match this
      case Do(op) => [op]
      case TickWith(order, call) => [TickOp] + Calls(order, call)
    }

    /** What those who use the wheel keep to: ticks come from its timer, and timeouts leave the bucket being
        walked alone. */
    predicate Possible(timers: map<Entry, nat>, n: nat)
      requires n > 0
    {
      match this
      case Do(op) => !op.TickOp?
      case TickWith(order, call) => Walks(timers, order, call, n)
    }

    predicate Within(entries: set<Entry>) {
      match this
      case Do(op) => !op.TickOp? && op.entry in entries
      case TickWith(order, call) => forall e | e in order :: Acts(call(e), entries)
    }
  }

  function FlatAll(ws: seq<WheelOp>): seq<Op> {
    if |ws| == 0 then [] else ws[0].Flat() + FlatAll(ws[1..])
  }

  /** A run is allowed if each operation is where it is done. */
  predicate IsRun(timers: map<Entry, nat>, ws: seq<WheelOp>, n: nat)
    requires n > 0
  {
    AllAllowed(timers, FlatAll(ws), n)
  }

  /** Everything is possible where it is done, up to the first that is not allowed. */
  predicate AllPossible(timers: map<Entry, nat>, ws: seq<WheelOp>, n: nat)
    requires n > 0
    decreases |ws|
  {
    |ws| == 0
    || (&& ws[0].Possible(timers, n)
        && (AllAllowed(timers, ws[0].Flat(), n) ==> AllPossible(Run(timers, ws[0].Flat(), n), ws[1..], n)))
  }

  predicate AllWithin(ws: seq<WheelOp>, entries: set<Entry>) {
    forall i | 0 <= i < |ws| :: ws[i].Within(entries)
  }

  /** In how many of the sets an entry is. */
  function CountIn(log: seq<set<Entry>>, e: Entry): nat {
    if log == [] then 0 else (if e in log[0] then 1 else 0) + CountIn(log[1..], e)
  }

  lemma {:induction false} CountConcat(a: seq<set<Entry>>, b: seq<set<Entry>>, e: Entry)
    ensures CountIn(a + b, e) == CountIn(a, e) + CountIn(b, e)
  {
    if a == [] {
      assert a + b == b;
    } else {
      assert (a + b)[1..] == a[1..] + b;
      CountConcat(a[1..], b, e);
    }
  }

  lemma {:induction false} NoTicks(ops: seq<Op>, entries: set<Entry>)
    requires Acts(ops, entries)
    ensures Ticks(ops) == 0
  {
    if ops != [] {
      assert ops[0] in ops;
      NoTicks(ops[1..], entries);
    }
  }

  lemma {:induction false} CallsAct(order: seq<Entry>, call: Entry -> seq<Op>, entries: set<Entry>)
    requires forall e | e in order :: Acts(call(e), entries)
    ensures Acts(Calls(order, call), entries)
  {
    if order != [] {
      assert order[0] in order;
      CallsAct(order[1..], call, entries);
    }
  }

  lemma TickIs(timers: map<Entry, nat>, calls: seq<Op>, n: nat)
    requires n > 0
    ensures Run(timers, [TickOp] + calls, n) == Run(Ticked(timers, n), calls, n)
    ensures AllAllowed(timers, [TickOp] + calls, n) <==> AllAllowed(Ticked(timers, n), calls, n)
  {
    assert ([TickOp] + calls)[1..] == calls;
  }

  lemma TickFires(timers: map<Entry, nat>, calls: seq<Op>, n: nat, entries: set<Entry>)
    requires n > 0 && Acts(calls, entries)
    ensures Logs([Fires(timers)], timers, [TickOp] + calls, n, entries)
  {
    var log := [Fires(timers)];
    assert ([TickOp] + calls)[1..] == calls && log[1..] == [];
    forall e | e in entries ensures CountIn(log, e) == Firings(timers, [TickOp] + calls, n, e) {
      NoTicks(calls, entries);
      NoTicksNoFirings(Ticked(timers, n), calls, n, e);
    }
  }

  lemma OneOp(timers: map<Entry, nat>, op: Op, n: nat, entries: set<Entry>)
    requires n > 0 && !op.TickOp?
    ensures Run(timers, [op], n) == Apply(timers, op, n) && (AllAllowed(timers, [op], n) <==> Allowed(timers, op, n))
    ensures Logs([], timers, [op], n, entries)
  {
    assert [op][1..] == [];
  }

  /** The log shows how often each entry fired. */
  ghost predicate Logs(log: seq<set<Entry>>, timers: map<Entry, nat>, ops: seq<Op>, n: nat, entries: set<Entry>)
    requires n > 0
  {
    forall e | e in entries :: CountIn(log, e) == Firings(timers, ops, n, e)
  }

  lemma LogIs(now: seq<set<Entry>>, later: seq<set<Entry>>, timers: map<Entry, nat>, a: seq<Op>, b: seq<Op>, n: nat,
              entries: set<Entry>)
    requires n > 0 && Logs(now, timers, a, n, entries) && Logs(later, Run(timers, a, n), b, n, entries)
    ensures Logs(now + later, timers, a + b, n, entries)
  {
    forall e | e in entries ensures CountIn(now + later, e) == Firings(timers, a + b, n, e) {
      CountConcat(now, later, e);
      FiringsConcat(timers, a, b, n, e);
    }
  }

  /** One operation: whether it is allowed, with all that timeouts do, and the sets of entries it made fire. */
  method DoOne(wheel: TimeWheel, w: WheelOp, ghost entries: set<Entry>)
      returns (ok: bool, log: seq<set<Entry>>, ghost f: Failure)
    requires wheel.Valid() && wheel.bucketSize > 0 && wheel.waiting == {} && wheel.Indexed(entries)
    requires w.Possible(wheel.Timers(), wheel.bucketSize) && w.Within(entries)
    modifies wheel`hand, wheel`buckets, wheel`places, wheel`waiting, entries`indexInWheel
    ensures ok <==> AllAllowed(old(wheel.Timers()), w.Flat(), wheel.bucketSize)
    ensures ok ==> wheel.Valid() && wheel.waiting == {} && wheel.Indexed(entries)
    ensures ok ==> wheel.Timers() == Run(old(wheel.Timers()), w.Flat(), wheel.bucketSize)
    ensures ok ==> Logs(log, old(wheel.Timers()), w.Flat(), wheel.bucketSize, entries)
    ensures !ok ==> wheel.FailedAt(f)
  {
    ghost var timers, n := wheel.Timers(), wheel.bucketSize;
    match w
    case Do(op) =>
      OneOp(timers, op, n, entries);
      ok := wheel.CanPerform(op, false);
      var defined := wheel.Perform(op);
      log, f := [], Failure(timers, op, defined);
    case TickWith(order, call) =>
      CallsAct(order, call, entries);
      TickIs(timers, Calls(order, call), n);
      TickFires(timers, Calls(order, call), n, entries);
      var fired;
      fired, ok, f := wheel.Tick(order, call, entries);
      log := [fired];
  }

  /** The run on one wheel, up to the first operation that is not allowed. */
  method DoAll(wheel: TimeWheel, ws: seq<WheelOp>, ghost entries: set<Entry>)
      returns (ok: bool, log: seq<set<Entry>>, ghost f: Failure)
    requires wheel.Valid() && wheel.bucketSize > 0 && wheel.waiting == {} && wheel.Indexed(entries)
    requires AllPossible(wheel.Timers(), ws, wheel.bucketSize) && AllWithin(ws, entries)
    modifies wheel`hand, wheel`buckets, wheel`places, wheel`waiting, entries`indexInWheel
    ensures ok <==> IsRun(old(wheel.Timers()), ws, wheel.bucketSize)
    ensures ok ==> wheel.Valid() && wheel.Timers() == Run(old(wheel.Timers()), FlatAll(ws), wheel.bucketSize)
    ensures ok ==> Logs(log, old(wheel.Timers()), FlatAll(ws), wheel.bucketSize, entries)
    ensures !ok ==> wheel.FailedAt(f)
    decreases |ws|
  {
    ok, log, f := true, [], Failure(map[], TickOp, true);
    if |ws| > 0 {
      ghost var timers, n := wheel.Timers(), wheel.bucketSize;
      RunConcat(timers, ws[0].Flat(), FlatAll(ws[1..]), n);
      ok, log, f := DoOne(wheel, ws[0], entries);
      if ok {
        var later;
        ok, later, f := DoAll(wheel, ws[1..], entries);
        if ok {
          LogIs(log, later, timers, ws[0].Flat(), FlatAll(ws[1..]), n, entries);
        }
        log := log + later;
      }
    }
  }

  /** Any run of a new wheel, up to the first operation that is not allowed.  It gets to the end exactly when
      all are allowed, and then the wheel stands for what the same operations make of countdown timers and
      has fired each entry as often as they do. */
  method RunAll(n: nat, ws: seq<WheelOp>, ghost entries: set<Entry>)
      returns (wheel: TimeWheel, ok: bool, log: seq<set<Entry>>, ghost f: Failure)
    requires n > 0 && (forall e | e in entries :: e.indexInWheel < n)
    requires AllPossible(map[], ws, n) && AllWithin(ws, entries)
    modifies entries`indexInWheel
    ensures ok <==> IsRun(map[], ws, n)
    ensures ok ==> wheel.Valid() && wheel.Timers() == Run(map[], FlatAll(ws), n)
    ensures ok ==> Logs(log, map[], FlatAll(ws), n, entries)
    ensures !ok ==> wheel.bucketSize == n && wheel.FailedAt(f)
  {
    wheel := new TimeWheel(n);
    ok, log, f := DoAll(wheel, ws, entries);
  }

  /** An entry added twice, with a tick in between, is in two buckets. */
  method SecondAddBreaks() returns (wheel: TimeWheel)
    ensures !wheel.Valid()
  {
    wheel := new TimeWheel(3);
    var e := new Entry(true);
    wheel.AddToWheel(e);
    assert wheel.Timers() == map[e := 2];
    var fired, ok, f := wheel.Tick([], _ => [], {});
    assert wheel.Timers()[e] == 1;
    wheel.AddToWheel(e);
  }
}
