/**
 Accounting for bytes that a socket has put into the writeable memory of a queue layout.

 Each node from the write node on is charged with the bytes that are left, but what is taken off
 afterwards is the space the node still has, not the space it used up.  The lemma shows that the
 outcome is a queue again exactly when there is one writeable node.
 */
module QueueProduce {
  import opened QueueLayout
  import ByteQueue

  const TWO_TO_THE_64 := 0x1_0000_0000_0000_0000

  /** The end offset of a node charged with s bytes, in 64-bit arithmetic. */
  function Charge(end: nat, s: nat): nat {
    var sum := (end + s) % TWO_TO_THE_64;
    if sum >= NODE_SIZE then NODE_SIZE else sum
  }

  function Charged(n: NodeView, s: nat): NodeView {
    n.(end := Charge(n.end, s))
  }

  ghost predicate AllFull(ns: seq<NodeView>, i: int, j: int)
    requires 0 <= i && j <= |ns|
  {
    forall k | i <= k < j :: ns[k].end == NODE_SIZE
  }

  /** Before node i is charged with s bytes: only end offsets from the write node on have changed, and
      as long as every node came out full nothing has been taken off. */
  ghost predicate ChargedTo(l: Layout, size: nat, l': Layout, i: int, s: nat) {
    && 0 <= l.w <= i <= |l.nodes| == |l'.nodes| && l.w < |l.nodes| && s < TWO_TO_THE_64
    && l'.r == l.r && l'.w == (if i < |l.nodes| then i else |l.nodes| - 1)
    && (forall k | 0 <= k < |l.nodes| && !(l.w <= k < i) :: l'.nodes[k] == l.nodes[k])
    && (forall k | l.w <= k < i :: l'.nodes[k] == l.nodes[k].(end := l'.nodes[k].end))
    && (AllFull(l'.nodes, l.w, i) ==> s == size)
    && (i == |l.nodes| && AllFull(l'.nodes, l.w, i - 1) ==> l'.nodes[i - 1].end == Charge(l.nodes[i - 1].end, size))
  }

  /** One node charged. */
  lemma ChargeNext(l: Layout, size: nat, m: Layout, i: int, s: nat, l': Layout, s': nat)
    requires ChargedTo(l, size, m, i, s) && i < |l.nodes| && s' < TWO_TO_THE_64
    requires l'.nodes == m.nodes[i := Charged(m.nodes[i], s)] && l'.r == m.r
    requires l'.w == if i + 1 < |l.nodes| then i + 1 else i
    requires l'.nodes[i].end == NODE_SIZE ==> s' == s
    ensures ChargedTo(l, size, l', i + 1, s')
  {
    if AllFull(l'.nodes, l.w, i) {
      forall k | l.w <= k < i ensures m.nodes[k].end == NODE_SIZE {
        assert l'.nodes[k].end == NODE_SIZE;
      }
    }
    assert AllFull(l'.nodes, l.w, i + 1) ==> AllFull(l'.nodes, l.w, i) && l'.nodes[i].end == NODE_SIZE;
  }

  function Delivered(n: NodeView, size: nat): seq<byte>
    requires n.WellFormed() && n.end + size <= NODE_SIZE
  {
    n.data[n.end..n.end + size]
  }

  /** The memory behind the write node's payload starts with these bytes. */
  ghost predicate DeliveredTo(l: Layout, chunk: seq<byte>)
    requires l.Ok()
  {
    && l.nodes[l.w].WellFormed() && l.nodes[l.w].end + |chunk| <= NODE_SIZE
    && Delivered(l.nodes[l.w], |chunk|) == chunk
  }

  lemma ReceivePayload(n: NodeView, chunk: seq<byte>)
    requires n.WellFormed() && n.end + |chunk| <= NODE_SIZE
    ensures n.Receive(chunk).WellFormed() && n.Receive(chunk).Payload() == n.Payload()
    ensures Delivered(n.Receive(chunk), |chunk|) == chunk
  {
    SliceIs(n.data, n.start, n.end);
    SliceIs(n.Receive(chunk).data, n.start, n.end);
  }

  /** The same queue, whatever lies behind the payloads. */
  ghost predicate SameQueue(l: Layout, l': Layout) {
    && l.Ok() && l'.Ok() && |l'.nodes| == |l.nodes| && l'.r == l.r && l'.w == l.w
    && l'.Free() == l.Free() && l'.Readable() == l.Readable() && ByteQueue.TapeOf(l') == ByteQueue.TapeOf(l)
  }

  /** Bytes behind the payload are no part of the queue, in any writeable node. */
  lemma ReceiveInto(l: Layout, i: nat, chunk: seq<byte>)
    requires l.Ok() && l.w <= i < |l.nodes| && l.nodes[i].WellFormed() && l.nodes[i].end + |chunk| <= NODE_SIZE
    ensures var l' := l.(nodes := l.nodes[i := l.nodes[i].Receive(chunk)]);
            SameQueue(l, l') && (i == l.w ==> DeliveredTo(l', chunk))
  {
    var l' := l.(nodes := l.nodes[i := l.nodes[i].Receive(chunk)]);
    ReceivePayload(l.nodes[i], chunk);
    GatherSame(l.nodes, l'.nodes, l.r, l.w);
    forall k | 0 <= k < |l'.nodes| ensures l'.NodeOk(k) {
      assert l.NodeOk(k);
    }
  }

  /** The room from writeable node i on. */
  ghost function RoomFrom(l: Layout, i: int): int
    requires l.Ok() && l.w <= i <= |l.nodes|
  {
    if i == l.w then l.Free() else Span(|l.nodes| - i)
  }

  lemma ChargeLast(l: Layout, size: nat, l': Layout, s: nat)
    requires l.Ok() && size < l.Free() && ChargedTo(l, size, l', |l.nodes|, s) && l.w + 1 == |l.nodes|
    ensures l.nodes[l.w].WellFormed() && l.nodes[l.w].end + size <= NODE_SIZE
    ensures l'.Ok() && l'.Free() == l.Free() - size && l'.Readable() == l.Readable() + size
    ensures l'.Head() == l.Head() && l'.Contents() == l.Contents() + Delivered(l.nodes[l.w], size)
  {
    assert l.NodeOk(l.w) && AllFull(l'.nodes, l.w, |l.nodes| - 1);
    var n := l.nodes[l.w];
    FillWithOwn(n, size);
    LastCharged(l, size, l', s);
    FillWriteNode(l, Delivered(n, size), l');
  }

  /** A node filled with the bytes that are there already. */
  lemma FillWithOwn(n: NodeView, size: nat)
    requires n.WellFormed() && n.end + size <= NODE_SIZE
    ensures n.Fill(Delivered(n, size)) == n.(end := n.end + size)
  {
    assert n.data[..n.end] + Delivered(n, size) + n.data[n.end + size..] == n.data;
  }

  lemma LastCharged(l: Layout, size: nat, l': Layout, s: nat)
    requires l.Ok() && size < l.Free() && ChargedTo(l, size, l', |l.nodes|, s) && l.w + 1 == |l.nodes|
    ensures l'.nodes == l.nodes[l.w := l.nodes[l.w].(end := l.nodes[l.w].end + size)]
  {
    assert l.NodeOk(l.w) && AllFull(l'.nodes, l.w, |l.nodes| - 1);
  }

  lemma ChargeManyBreaks(l: Layout, size: nat, l': Layout, s: nat)
    requires l.Ok() && size < l.Free() && size < TWO_TO_THE_64
    requires ChargedTo(l, size, l', |l.nodes|, s) && l.w + 1 < |l.nodes|
    ensures !(l'.Ok() && l'.Free() == l.Free() - size)
  {
    assert l.NodeOk(l.w) && l.NodeOk(l'.w);
    if l'.Ok() {
      forall i | l.w <= i < |l.nodes| - 1 ensures l'.nodes[i].end == NODE_SIZE {
        assert l'.NodeOk(i);
      }
      assert AllFull(l'.nodes, l.w, |l.nodes| - 1) && l'.NodeOk(l'.w);
    }
  }

  /** One writeable node with room to spare, seen on the plain queue. */
  lemma OneWriteableIsTakesIn(l: Layout, size: nat)
    requires l.Ok()
    ensures l.w + 1 == |l.nodes| && size < l.Free() <==> ByteQueue.TapeOf(l).TakesIn(size)
  {
    ByteQueue.TapeOfIsOk(l);
    assert l.NodeOk(l.w);
    assert l.Head() + |l.Contents()| == Span(l.w) + l.nodes[l.w].end;
  }

  /** What the loop leaves is a queue with the right counters exactly when there was one writeable node. */
  lemma ChargeIff(l: Layout, size: nat, l': Layout, s: nat)
    requires l.Ok() && size < l.Free() && size < TWO_TO_THE_64 && ChargedTo(l, size, l', |l.nodes|, s)
    ensures l'.Ok() && l'.Free() == l.Free() - size && l'.Readable() == l.Readable() + size
       <==> l.w + 1 == |l.nodes|
    ensures l.w + 1 == |l.nodes| ==>
      && l.nodes[l.w].WellFormed() && l.nodes[l.w].end + size <= NODE_SIZE
      && ByteQueue.TapeOf(l')
      == ByteQueue.TapeOf(l).(contents := l.Contents() + Delivered(l.nodes[l.w], size))
  {
    if l.w + 1 == |l.nodes| {
      ChargeLast(l, size, l', s);
    } else {
      assert l.NodeOk(l.w);
      ChargeManyBreaks(l, size, l', s);
    }
  }
}
