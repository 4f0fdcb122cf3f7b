/**
 Runs of a byte array, by the program that owns it and by the sockets that fill and empty it.

 The array is run against the plain queue of module ByteQueue: whatever the operations, what it
 holds and what it gave out are those of the plain queue, so the theorems about runs of that queue
 are theorems about the array.
 */
module ByteArrayRuns {
  import Strings
  import opened QueueLayout
  import opened QueueConsume
  import opened QueueProduce
  import opened ByteQueue
  import opened ByteArrays
  import opened SocketIO

  /** A socket sends the first `n` bytes of the gather list and the array is told. */
  method DoConsume(b: ByteArray, n: nat) returns (defined: bool, ghost out: seq<byte>)
    requires b.Valid()
    modifies b, b.Repr
    ensures b.Repr == old(b.Repr) && old(b.Abs().Ok())
    ensures defined && b.Valid() <==> old(b.Abs().ExactFor(n))
    ensures old(b.Abs().ExactFor(n)) ==> (b.Abs(), out) == Step(old(b.Abs()), Consume(n))
  {
    b.AbsIsOk();
    ExactIsExactFor(b.layout, n);
    var reader := new ByteArrayReader(b);
    out := Joined(reader.vec)[..if n < |Joined(reader.vec)| then n else |Joined(reader.vec)|];
    defined := reader.AdjustByteArray(n);
  }

  /** A socket fills the entries of the scatter list and the array is told. */
  method DoReceive(b: ByteArray, data: seq<byte>)
    requires b.Valid() && |data| <= b.Abs().Free() && |data| < TWO_TO_THE_64
    modifies b, b.Repr
    ensures fresh(b.Repr - old(b.Repr)) && old(b.Abs().Ok())
    ensures b.Valid() <==> old(b.Abs().TakesIn(|data|))
    ensures old(b.Abs().TakesIn(|data|)) ==> b.Abs() == old(b.Abs()).Write(data)
  {
    b.AbsIsOk();
    OneWriteableIsTakesIn(b.layout, |data|);
    LastNodeTakes(b.layout, |data|);
    var writer := new ByteArrayWriter(b);
    SpacesInRepr(writer.vec, b);
    Deliver(writer.vec, data, b);
    OneWriteableIsTakesIn(b.layout, |data|);
    writer.AdjustByteArray(|data|);
  }

  lemma LastNodeTakes(l: Layout, size: nat)
    requires l.Ok()
    ensures l.w + 1 == |l.nodes| && size < l.Free() ==> l.nodes[l.w].end + size <= NODE_SIZE
  {
    assert l.NodeOk(l.w);
  }

  /** A socket delivers no more than the memory it is given takes. */
  predicate Possible(t: Tape, op: Op) {
    op.Receive? ==> |op.data| <= t.Free() && |op.data| < TWO_TO_THE_64
  }

  method DoOp(b: ByteArray, op: Op) returns (defined: bool, ghost out: seq<byte>)
    requires b.Valid() && Possible(b.Abs(), op)
    modifies b, b.Repr
    ensures fresh(b.Repr - old(b.Repr)) && old(b.Abs().Ok())
    ensures defined && b.Valid() <==> old(Honoured(b.Abs(), op))
    ensures old(Honoured(b.Abs(), op)) ==> (b.Abs(), out) == Step(old(b.Abs()), op)
  {
    b.AbsIsOk();
    defined, out := true, [];
    match op
    case Write(data) => b.WriteRaw(data);
    case Receive(data) => DoReceive(b, data);
    case Retrieve(n) =>
      var bytes := b.RetrieveRaw(n);
      out := bytes;
    case Consume(n) => defined, out := DoConsume(b, n);
  }

  /** Whoever owns the array can tell beforehand. */
  method CanHonour(b: ByteArray, op: Op) returns (ok: bool)
    requires b.Valid()
    ensures ok <==> Honoured(b.Abs(), op)
  {
    match op
    case Consume(n) =>
      var node := b.nodes[b.readNode];
      assert node.View() == b.layout.nodes[b.readNode];
      ok := n >= b.availableSizeToRead || node.start + n < node.end || (node.start == 0 && n % NODE_SIZE == 0);
      ExactIsExactFor(b.layout, n);
    case Receive(data) =>
      ok := b.writeNode + 1 == |b.nodes| && |data| < b.availableSizeToWrite;
      OneWriteableIsTakesIn(b.layout, |data|);
    case _ => ok := true;
  }

  /** Every delivery is possible where it is made, up to the first operation that is not honoured. */
  ghost predicate AllPossible(t: Tape, ops: seq<Op>)
    requires t.Ok()
    decreases |ops|
  {
    ops == [] || (&& Possible(t, ops[0])
                  && (Honoured(t, ops[0]) ==> (StepIsOk(t, ops[0]); AllPossible(Step(t, ops[0]).0, ops[1..]))))
  }

  /** After i operations: what is left to do from here leads to where the whole run does. */
  ghost predicate Underway(ops: seq<Op>, i: nat, t: Tape, out: seq<byte>) {
    && i <= |ops| && t.Ok() && AllPossible(t, ops[i..])
    && (IsRun(EMPTY, ops) <==> IsRun(t, ops[i..]))
    && Run(EMPTY, ops) == (Run(t, ops[i..]).0, out + Run(t, ops[i..]).1)
  }

  lemma StartRun(ops: seq<Op>)
    requires AllPossible(EMPTY, ops)
    ensures Underway(ops, 0, EMPTY, [])
  {
    assert ops[0..] == ops;
    Strings.Nil(Run(EMPTY, ops).1);
  }

  lemma NextOp(ops: seq<Op>, i: nat, t: Tape, out: seq<byte>)
    requires Underway(ops, i, t, out) && i < |ops|
    ensures Possible(t, ops[i]) && (!Honoured(t, ops[i]) ==> !IsRun(EMPTY, ops))
    ensures Honoured(t, ops[i]) ==> Underway(ops, i + 1, Step(t, ops[i]).0, out + Step(t, ops[i]).1)
  {
    var rest := ops[i..];
    assert rest[0] == ops[i] && rest[1..] == ops[i + 1..];
    StepIsOk(t, ops[i]);
    var (t1, now) := Step(t, ops[i]);
    Strings.Assoc(out, now, Run(t1, rest[1..]).1);
  }

  lemma EndRun(ops: seq<Op>, t: Tape, out: seq<byte>)
    requires Underway(ops, |ops|, t, out)
    ensures IsRun(EMPTY, ops)
    ensures (t, out) == Run(EMPTY, ops) && out + t.contents == Written(ops) && Bounded(t.cap, Peak(EMPTY, ops))
  {
    assert ops[|ops|..] == [];
    Strings.Nil(out);
    RunIsFifo(EMPTY, ops);
    Strings.Nil(Written(ops));
    MemoryBound(ops);
  }

  /** One operation of a run. */
  method DoNext(b: ByteArray, ops: seq<Op>, i: nat, ghost out: seq<byte>)
      returns (ok: bool, defined: bool, ghost out': seq<byte>)
    requires b.Valid() && i < |ops| && Underway(ops, i, b.Abs(), out)
    modifies b, b.Repr
    ensures fresh(b.Repr - old(b.Repr)) && (defined && b.Valid() <==> ok)
    ensures ok ==> Underway(ops, i + 1, b.Abs(), out')
    ensures !ok ==> !IsRun(EMPTY, ops)
  {
    NextOp(ops, i, b.Abs(), out);
    ok := CanHonour(b, ops[i]);
    ghost var more;
    defined, more := DoOp(b, ops[i]);
    out' := out + more;
  }

  /** The operations from the i-th on, up to the first that the array does not survive. */
  method DoRest(b: ByteArray, ops: seq<Op>, i: nat, ghost out: seq<byte>) returns (defined: bool, ghost out': seq<byte>)
    requires b.Valid() && Underway(ops, i, b.Abs(), out)
    modifies b, b.Repr
    ensures defined && b.Valid() <==> IsRun(EMPTY, ops)
    ensures IsRun(EMPTY, ops) ==> Underway(ops, |ops|, b.Abs(), out')
    decreases |ops| - i
  {
    defined, out' := true, out;
    if i < |ops| {
      var ok;
      ok, defined, out' := DoNext(b, ops, i, out);
      if ok {
        defined, out' := DoRest(b, ops, i + 1, out');
      }
    } else {
      EndRun(ops, b.Abs(), out);
    }
  }

  /** Any run on a new array, up to the first operation that the array does not survive.  It survives all
      exactly when each is honoured where it is done, and then it does what the plain queue does: what
      came out, then what it still holds, is what went in, and its nodes never take more than the bound
      on memory says. */
  method RunAll(ops: seq<Op>) returns (b: ByteArray, defined: bool, ghost out: seq<byte>)
    requires AllPossible(EMPTY, ops)
    ensures defined && b.Valid() <==> IsRun(EMPTY, ops)
    ensures IsRun(EMPTY, ops) ==>
      && (b.Abs(), out) == Run(EMPTY, ops) && out + b.Abs().contents == Written(ops)
      && Bounded(|b.nodes|, Peak(EMPTY, ops))
  {
    b := new ByteArray();
    StartRun(ops);
    defined, out := DoRest(b, ops, 0, []);
    if IsRun(EMPTY, ops) {
      EndRun(ops, b.Abs(), out);
    }
  }

  // ---------- what is not honoured ----------

  lemma ThreeThousand(data: seq<byte>)
    requires |data| == 3000
    ensures EMPTY.Write(data) == Tape(data, 0, 4)
    ensures !EMPTY.Write(data).ExactFor(1500) && !EMPTY.Write(data).TakesIn(100)
  {
    Strings.Nil(data);
    assert Doubled(2, 3000) == Doubled(4, 3000) == 4;
  }

  /** 3000 bytes written and 1500 of them sent: the array is no queue any more. */
  method SpanningSizeBreaks(data: seq<byte>) returns (b: ByteArray, defined: bool)
    requires |data| == 3000
    ensures !(defined && b.Valid())
  {
    b := new ByteArray();
    ThreeThousand(data);
    b.WriteRaw(data);
    ExactIsExactFor(b.layout, 1500);
    var reader := new ByteArrayReader(b);
    defined := reader.AdjustByteArray(1500);
  }

  /** 3000 bytes written leave two writeable nodes: the next 100 bytes from a socket break the array. */
  method SeveralWriteableBreaks(data: seq<byte>) returns (b: ByteArray)
    requires |data| == 3000
    ensures !b.Valid()
  {
    b := new ByteArray();
    ThreeThousand(data);
    b.WriteRaw(data);
    OneWriteableIsTakesIn(b.layout, 100);
    b.AbsIsOk();
    var writer := new ByteArrayWriter(b);
    writer.AdjustByteArray(100);
  }
}
