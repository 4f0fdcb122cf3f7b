/**
 Dropping bytes that a socket has sent from the front of a queue layout.

 The consumer computes how many nodes to step over from the byte count alone.  `Exact` is the
 condition under which that computation is right; the lemmas show that it is sufficient, and
 that outside of it the invariant of the queue is always lost.
 */
module QueueConsume {
  import opened QueueLayout
  import ByteQueue

  /** Nodes to step over: one per full node size, and one more when bytes are left besides. */
  function Jump(size: nat): nat {
    size / NODE_SIZE + if size / NODE_SIZE != 0 && Offset(size) != 0 then 1 else 0
  }

  function Advanced(l: Layout, size: nat): Layout
    requires l.r + Jump(size) < |l.nodes|
  {
    var i := l.r + Jump(size);
    Layout(l.nodes[i := l.nodes[i].Drain(Offset(size))], i, l.w)
  }

  /** All there is; or less than the read node holds; or whole nodes from an untouched read node. */
  predicate Exact(l: Layout, size: nat)
    requires 0 <= l.r < |l.nodes| && 0 <= l.w < |l.nodes|
  {
    || size >= l.Readable()
    || l.nodes[l.r].start + size < l.nodes[l.r].end
    || (l.nodes[l.r].start == 0 && Offset(size) == 0)
  }

  /** The same seen on the plain queue. */
  lemma ExactIsExactFor(l: Layout, size: nat)
    requires l.Ok()
    ensures Exact(l, size) <==> ByteQueue.TapeOf(l).ExactFor(size)
  {
    CountersAreSums(l);
    assert l.NodeOk(l.r) && l.NodeOk(l.w);
    HeadOffset(l.r, l.nodes[l.r].start);
  }

  lemma AdvanceInside(l: Layout, size: nat)
    requires l.Ok() && l.nodes[l.r].start + size < l.nodes[l.r].end
    ensures Jump(size) == 0 && Advanced(l, size).Ok()
    ensures size <= |l.Contents()| && Advanced(l, size).Contents() == l.Contents()[size..]
    ensures Advanced(l, size).Head() == l.Head() + size
  {
    assert l.NodeOk(l.r);
    DrainReadNode(l, size, Advanced(l, size));
  }

  lemma AdvanceWhole(l: Layout, size: nat)
    requires l.Ok() && size < l.Readable() && l.nodes[l.r].start == 0 && Offset(size) == 0
    ensures l.r + Jump(size) <= l.w && Advanced(l, size).Ok()
    ensures size <= |l.Contents()| && Advanced(l, size).Contents() == l.Contents()[size..]
    ensures Advanced(l, size).Head() == l.Head() + size
  {
    assert l.NodeOk(l.w);
    var k := size / NODE_SIZE;
    assert Jump(size) == k && Span(k) == size;
    SkipNodes(l, k);
    assert l.NodeOk(l.r + k);
    assert Advanced(l, size).nodes == l.nodes;
  }

  lemma AdvanceIsExact(l: Layout, size: nat)
    requires l.Ok() && size < l.Readable() && Exact(l, size)
    ensures l.r + Jump(size) < |l.nodes| && Advanced(l, size).Ok()
    ensures size <= |l.Contents()| && Advanced(l, size).Contents() == l.Contents()[size..]
    ensures Advanced(l, size).Head() == l.Head() + size
  {
    if l.nodes[l.r].start + size < l.nodes[l.r].end {
      AdvanceInside(l, size);
    } else {
      AdvanceWhole(l, size);
    }
  }

  /** Outside of `Exact` the layout breaks, or holds fewer bytes than the counter says. */
  lemma AdvanceBreaks(l: Layout, size: nat)
    requires l.Ok() && !Exact(l, size) && l.r + Jump(size) < |l.nodes|
    ensures !(Advanced(l, size).Ok() && Advanced(l, size).Readable() == l.Readable() - size)
  {
    var l', i := Advanced(l, size), l.r + Jump(size);
    assert l.NodeOk(l.r) && l.NodeOk(l.w) && l.NodeOk(i);
    if l'.Ok() {
      assert l'.NodeOk(i);
    }
  }

  function Drained(l: Layout): Layout
    requires 0 <= l.w < |l.nodes|
  {
    Layout(l.nodes[l.w := l.nodes[l.w].(start := l.nodes[l.w].end)], l.w, l.w)
  }

  /** Stepping straight to the write node and draining it leaves nothing. */
  lemma DrainEverything(l: Layout)
    requires l.Ok()
    ensures var l' := Drained(l);
            l'.Ok() && l'.Contents() == [] && l'.Head() == l.Head() + |l.Contents()| && l'.Readable() == 0
  {
    var l' := Drained(l);
    forall i | 0 <= i < |l'.nodes| ensures l'.NodeOk(i) {
      assert l.NodeOk(i);
    }
    OnlyNode(l');
    assert l.NodeOk(l.w);
    CountersAreSums(l);
  }

  /** Rotation cannot repair a layout: what is well-formed afterwards was so before. */
  lemma RotateReflects(l: Layout, l': Layout)
    requires RotatedFrom(l, l') && l'.Ok() && l.w < |l.nodes|
    requires forall i | 0 <= i < l.r && i < |l.nodes| :: l.nodes[i].WellFormed() && l.nodes[i].end == NODE_SIZE
    ensures l.Ok() && l'.Readable() == l.Readable()
  {
    forall i | 0 <= i < |l.nodes| ensures l.NodeOk(i) {
      if i >= l.r {
        assert l'.NodeOk(i - l.r);
        assert l'.nodes[i - l.r] == l.nodes[l.r + (i - l.r)];
      }
    }
    RotateCounters(l, l');
  }

  lemma AdvanceRotatedOk(l: Layout, size: nat, l': Layout)
    requires l.Ok() && size < l.Readable() && l.r + Jump(size) < |l.nodes| && Exact(l, size)
    requires RotatedFrom(Advanced(l, size), l')
    ensures l'.Ok() && l'.Readable() == l.Readable() - size && l'.Free() == l.Free() + Span(Advanced(l, size).r)
    ensures ByteQueue.TapeOf(l') == ByteQueue.TapeOf(l).Consume(size)
  {
    var mid := Advanced(l, size);
    CountersAreSums(l);
    AdvanceIsExact(l, size);
    CountersAreSums(mid);
    RotateHead(mid, l');
  }

  lemma AdvanceRotatedBreaks(l: Layout, size: nat, l': Layout)
    requires l.Ok() && size < l.Readable() && l.r + Jump(size) < |l.nodes| && !Exact(l, size)
    requires RotatedFrom(Advanced(l, size), l')
    ensures !(l'.Ok() && l'.Readable() == l.Readable() - size)
  {
    var mid := Advanced(l, size);
    AdvanceBreaks(l, size);
    if l'.Ok() && mid.r <= l.w {
      forall i | 0 <= i < mid.r ensures mid.nodes[i].WellFormed() && mid.nodes[i].end == NODE_SIZE {
        assert l.NodeOk(i);
      }
      RotateReflects(mid, l');
    }
  }

  /** Stepping over nodes and rotating is right exactly when `Exact` holds. */
  lemma AdvanceRotated(l: Layout, size: nat, l': Layout)
    requires l.Ok() && size < l.Readable() && l.r + Jump(size) < |l.nodes|
    requires RotatedFrom(Advanced(l, size), l')
    ensures l'.Ok() && l'.Readable() == l.Readable() - size <==> Exact(l, size)
    ensures Exact(l, size) ==> && l'.Free() == l.Free() + Span(Advanced(l, size).r)
                               && ByteQueue.TapeOf(l') == ByteQueue.TapeOf(l).Consume(size)
  {
    if Exact(l, size) {
      AdvanceRotatedOk(l, size, l');
    } else {
      AdvanceRotatedBreaks(l, size, l');
    }
  }

  /** Skipping everything and rotating always is. */
  lemma DrainRotated(l: Layout, l': Layout, size: nat)
    requires l.Ok() && size >= l.Readable() && RotatedFrom(Drained(l), l')
    ensures l'.Ok() && l'.Readable() == 0 && l'.Free() == l.Free() + Span(l.w)
    ensures ByteQueue.TapeOf(l') == ByteQueue.TapeOf(l).Consume(size)
  {
    CountersAreSums(l);
    DrainEverything(l);
    RotateHead(Drained(l), l');
  }
}
