/**
 The byte queue as a plain sequence of bytes on a tape of `cap` nodes.

 This is the simple thing the node-based `ByteArray` refines: `contents` are the unread bytes,
 `head` is the tape position of the first of them and `cap` the number of nodes.  The theorems
 of this module speak about whole runs of queue operations.
 */
module ByteQueue {
  import opened Strings
  import opened QueueLayout

  datatype Tape = Tape(contents: seq<byte>, head: nat, cap: nat) {

    predicate Ok() {
      head + |contents| < Span(cap)
    }

    function Free(): int {
      Span(cap) - head - |contents|
    }

    /** Give the drained nodes in front of the head back to the tail. */
    function MoveHead(): Tape {
      this.(head := Offset(head))
    }

    /** Room for more than `size` bytes: reuse drained nodes first, then double as often as needed. */
    function Reserve(size: nat): Tape
      requires Ok()
    {
      if Free() > size then this
      else
        var moved := MoveHead();
        if moved.Free() > size then moved
        else moved.Grow(size)
    }

    function Grow(size: nat): Tape
      requires cap > 0
    {
      this.(cap := Doubled(2 * cap, head + |contents| + size))
    }

    function Write(data: seq<byte>): Tape
      requires Ok()
    {
      var t := Reserve(|data|);
      t.(contents := contents + data)
    }

    /** All or nothing: short queues are left alone. */
    function Retrieve(n: nat): (Tape, seq<byte>) {
      if n <= |contents|
      then (Tape(contents[n..], head + n, cap), contents[..n])
      else (this, [])
    }

    /** A consumer that sent the first `n` bytes elsewhere drops them, or all there are. */
    function Consume(n: nat): Tape {
      var k := if n < |contents| then n else |contents|;
      Tape(contents[k..], head + k, cap).MoveHead()
    }

    /** Does a node-based queue drop exactly `n` bytes when told so?  It does when that is all there are,
        when it stays inside the first node, and for whole nodes from the start of one. */
    predicate ExactFor(n: nat) {
      || n >= |contents|
      || Offset(head) + n < NODE_SIZE
      || (Offset(head) == 0 && Offset(n) == 0)
    }

    /** Can a socket deliver `n` bytes?  The last node is the one being written, with room to spare. */
    predicate TakesIn(n: nat)
    {
      (head + |contents|) / NODE_SIZE + 1 == cap && n < Free()
    }
  }

  const EMPTY := Tape([], 0, 1)

  /** The tape a layout of nodes stands for. */
  ghost function TapeOf(l: Layout): (t: Tape)
    requires l.Ok()
  {
    Tape(l.Contents(), l.Head(), |l.nodes|)
  }

  lemma TapeOfIsOk(l: Layout)
    requires l.Ok()
    ensures TapeOf(l).Ok() && TapeOf(l).Free() == l.Free() && |TapeOf(l).contents| == l.Readable()
  {
    CountersAreSums(l);
  }

  /** Draining the read node is a retrieval. */
  lemma TakenIs(l: Layout, n: nat, l': Layout)
    requires l.Ok() && DrainedFrom(l, n, l')
    ensures l'.Ok() && l'.w == l.w && l'.nodes[l.w].end == l.nodes[l.w].end
    ensures (TapeOf(l'), l.nodes[l.r].Payload()[..n]) == TapeOf(l).Retrieve(n)
  {
    DrainReadNode(l, n, l');
    ReadNodeIsFirst(l, n);
  }

  /** When the read node does not hold all that is wanted it is used up. */
  lemma ShortTake(l: Layout, n: nat, l': Layout, length: nat)
    requires l.Ok() && DrainedFrom(l, n, l') && length <= |l.Contents()|
    requires n == length || n == l.nodes[l.r].end - l.nodes[l.r].start < length
    ensures n == length || l'.r == l.r + 1
  {
    assert l.NodeOk(l.r);
    if l.r == l.w {
      OnlyNode(l);
    }
  }

  /** After a consumption less than a node in front of the contents is used up. */
  lemma ConsumeGivesBack(t: Tape, n: nat)
    requires t.Ok()
    ensures var t', k := t.Consume(n), if n < |t.contents| then n else |t.contents|;
            && t'.contents == t.contents[k..] && t'.head < NODE_SIZE && t'.cap == t.cap
            && (t'.head - t.head - k) % NODE_SIZE == 0
  {
    var k := if n < |t.contents| then n else |t.contents|;
    assert (t.head + k) % NODE_SIZE == t.head + k - NODE_SIZE * ((t.head + k) / NODE_SIZE);
  }

  /** The least c * 2^k whose nodes hold more than `need` bytes. */
  function Doubled(c: nat, need: nat): (r: nat)
    requires c > 0
    ensures c <= r && need < Span(r)
    ensures r == c || Span(r) <= 2 * need
    decreases need - Span(c)
  {
    if Span(c) > need then c else Doubled(2 * c, need)
  }

  lemma GrowByCount(t: Tape, size: nat, count: nat)
    requires t.cap > 0 && t.Free() <= Span(t.cap)
    requires count == Doubled(2 * t.cap, Span(t.cap) - t.Free() + size)
    ensures t.Grow(size) == t.(cap := count) && t.(cap := count).Free() == Span(count - t.cap) + t.Free()
  {
  }

  lemma MoveHeadIsOk(t: Tape)
    requires t.Ok()
    ensures t.MoveHead().Ok() && t.MoveHead().head <= t.head
    ensures t.MoveHead().Free() == t.Free() + (t.head - Offset(t.head))
  {
  }

  /** Reserving leaves strictly more room than asked for, keeps the bytes, and never more than
      doubles what was too small: a grown tape could not have done with half its nodes. */
  lemma ReserveIsEnough(t: Tape, size: nat)
    requires t.Ok()
    ensures var t' := t.Reserve(size);
            && t'.Ok() && t'.Free() > size && t'.contents == t.contents
            && (t'.cap != t.cap ==> Span(t'.cap) <= 2 * (NODE_SIZE - 1 + |t.contents| + size))
  {
    MoveHeadIsOk(t);
  }

  /** Reserving more than is free frees at least one whole node. */
  lemma ReserveAddsNode(t: Tape, size: nat)
    requires t.Ok() && t.Free() <= size
    ensures t.Reserve(size).Free() > NODE_SIZE
  {
    ReserveIsEnough(t, size);
    MoveHeadIsOk(t);
    assert t.head - Offset(t.head) == Span(t.head / NODE_SIZE);
  }

  /** A retrieval takes exactly what was asked for from the front, or leaves the queue alone; it never
      takes a part. */
  lemma RetrieveAllOrNothing(t: Tape, n: nat)
    ensures var (t', out) := t.Retrieve(n);
            && out + t'.contents == t.contents && t'.cap == t.cap
            && |out| == (if n <= |t.contents| then n else 0) && (n > |t.contents| ==> t' == t)
  {
    if n <= |t.contents| {
      assert t.contents[..n] + t.contents[n..] == t.contents;
    }
  }

  /** Retrieving in two parts is retrieving at once. */
  lemma RetrieveCompose(t: Tape, a: nat, b: nat)
    requires a + b <= |t.contents|
    ensures var (t1, x) := t.Retrieve(a); var (t2, y) := t1.Retrieve(b); t.Retrieve(a + b) == (t2, x + y)
  {
    assert t.contents[a..][b..] == t.contents[a + b..];
    assert t.contents[..a] + t.contents[a..][..b] == t.contents[..a + b];
  }

  // ---------- a copy in rounds ----------

  /** From tape t on, all of `data` but `rest` has been copied. */
  ghost predicate PutSoFar(t: Tape, data: seq<byte>, rest: seq<byte>, t': Tape) {
    |rest| <= |data| && data[|data| - |rest|..] == rest
    && t' == t.(contents := t.contents + data[..|data| - |rest|])
  }

  lemma NothingPut(t: Tape, data: seq<byte>)
    ensures PutSoFar(t, data, data, t)
  {
    Nil(t.contents);
    assert data[..0] == [];
  }

  lemma AllPut(t: Tape, data: seq<byte>, t': Tape)
    requires PutSoFar(t, data, [], t')
    ensures t' == t.(contents := t.contents + data)
  {
    assert data[..|data|] == data;
  }

  lemma RoomLeft(t: Tape, data: seq<byte>, rest: seq<byte>, t': Tape)
    requires PutSoFar(t, data, rest, t') && |data| < t.Free()
    ensures |rest| < t'.Free()
  {
  }

  lemma PutMore(t: Tape, data: seq<byte>, rest: seq<byte>, chunk: seq<byte>, t': Tape)
    requires PutSoFar(t, data, rest, t') && chunk <= rest
    ensures PutSoFar(t, data, rest[|chunk|..], t'.(contents := t'.contents + chunk))
  {
    var n := |data| - |rest|;
    DropDrop(data, n, |chunk|);
    assert data[..n] + chunk == data[..n + |chunk|];
    Assoc(t.contents, data[..n], chunk);
  }

  // ---------- runs ----------

  /** Bytes go in by a write or from a socket, and come out by a retrieval or to a socket. */
  datatype Op = Write(data: seq<byte>) | Receive(data: seq<byte>) | Retrieve(n: nat) | Consume(n: nat) {

    function Added(): seq<byte> {
      if Write? || Receive? then data else []
    }
  }

  function Step(t: Tape, op: Op): (Tape, seq<byte>)
    requires t.Ok()
  {
    match op
    case Write(data) => (t.Write(data), [])
    case Receive(data) => (t.Write(data), [])
    case Retrieve(n) => t.Retrieve(n)
    case Consume(n) => (t.Consume(n), t.contents[..if n < |t.contents| then n else |t.contents|])
  }

  lemma StepIsOk(t: Tape, op: Op)
    requires t.Ok()
    ensures Step(t, op).0.Ok()
  {
    match op
    case Write(data) => ReserveIsEnough(t, |data|);
    case Receive(data) => ReserveIsEnough(t, |data|);
    case Retrieve(n) =>
    case Consume(n) =>
      var k := if n < |t.contents| then n else |t.contents|;
      MoveHeadIsOk(Tape(t.contents[k..], t.head + k, t.cap));
  }

  /** The final tape and everything that was taken out on the way. */
  ghost function Run(t: Tape, ops: seq<Op>): (Tape, seq<byte>)
    requires t.Ok()
    decreases |ops|
  {
    if ops == [] then (t, [])
    else
      StepIsOk(t, ops[0]);
      var (t1, out) := Step(t, ops[0]);
      var (t2, rest) := Run(t1, ops[1..]);
      (t2, out + rest)
  }

  /** Will a node-based queue do what the operation says?  Writes and retrievals are always done. */
  predicate Honoured(t: Tape, op: Op) {
    match op
    case Consume(n) => t.ExactFor(n)
    case Receive(data) => t.TakesIn(|data|)
    case _ => true
  }

  /** A run: every operation is honoured where it is done. */
  ghost predicate IsRun(t: Tape, ops: seq<Op>)
    requires t.Ok()
    decreases |ops|
  {
    ops == [] || (Honoured(t, ops[0]) && (StepIsOk(t, ops[0]); IsRun(Step(t, ops[0]).0, ops[1..])))
  }

  /** Everything that was put in. */
  ghost function Written(ops: seq<Op>): seq<byte> {
    if ops == [] then []
    else ops[0].Added() + Written(ops[1..])
  }

  lemma StepConserves(t: Tape, op: Op)
    requires t.Ok()
    ensures Step(t, op).1 + Step(t, op).0.contents == t.contents + op.Added()
  {
  }

  /** First in, first out, over any run: what came out, then what is still inside, is what went in. */
  lemma {:induction false} RunIsFifo(t: Tape, ops: seq<Op>)
    requires t.Ok()
    ensures Run(t, ops).1 + Run(t, ops).0.contents == t.contents + Written(ops)
    decreases |ops|
  {
    if ops != [] {
      var (t1, out) := Step(t, ops[0]);
      var tail := ops[1..];
      var added := ops[0].Added();
      StepIsOk(t, ops[0]);
      var (t2, rest) := Run(t1, tail);
      calc {
        (out + rest) + t2.contents;
        out + (rest + t2.contents);
        { RunIsFifo(t1, tail); }
        out + (t1.contents + Written(tail));
        (out + t1.contents) + Written(tail);
        { StepConserves(t, ops[0]); }
        (t.contents + added) + Written(tail);
        t.contents + (added + Written(tail));
      }
    }
  }

  /** The most bytes that were ever readable during the run. */
  ghost function Peak(t: Tape, ops: seq<Op>): nat
    requires t.Ok()
    decreases |ops|
  {
    if ops == [] then |t.contents|
    else
      StepIsOk(t, ops[0]);
      var later := Peak(Step(t, ops[0]).0, ops[1..]);
      if later < |t.contents| then |t.contents| else later
  }

  ghost predicate Bounded(cap: nat, peak: nat) {
    Span(cap) <= NODE_SIZE || Span(cap) <= 2 * (peak + NODE_SIZE - 1)
  }

  lemma {:induction false} RunStaysBounded(t: Tape, ops: seq<Op>, peak: nat)
    requires t.Ok() && Bounded(t.cap, peak) && Peak(t, ops) <= peak
    ensures Bounded(Run(t, ops).0.cap, peak)
    decreases |ops|
  {
    if ops != [] {
      StepIsOk(t, ops[0]);
      var t1 := Step(t, ops[0]).0;
      if ops[0].Write? || ops[0].Receive? {
        ReserveIsEnough(t, |ops[0].data|);
        PeakIsReached(t1, ops[1..]);
      }
      RunStaysBounded(t1, ops[1..], peak);
    }
  }

  lemma PeakIsReached(t: Tape, ops: seq<Op>)
    requires t.Ok()
    ensures |t.contents| <= Peak(t, ops)
  {
  }

  /** Memory never exceeds one node or twice the peak load rounded up by less than a node. */
  lemma MemoryBound(ops: seq<Op>)
    ensures Span(Run(EMPTY, ops).0.cap) <= NODE_SIZE
         || Span(Run(EMPTY, ops).0.cap) <= 2 * (Peak(EMPTY, ops) + NODE_SIZE - 1)
  {
    RunStaysBounded(EMPTY, ops, Peak(EMPTY, ops));
  }
}
