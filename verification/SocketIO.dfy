/**
 The scatter/gather views of byte arrays that socket reads and writes go through.
 */
module SocketIO {
  import opened Strings
  import opened QueueLayout
  import opened QueueConsume
  import opened QueueProduce
  import opened ByteArrays
  import ByteQueue

  /** A stretch of memory, as the system calls take it. */
  datatype IoVec = IoVec(base: array<byte>, offset: nat, len: nat) {

    predicate InRange() {
      offset + len <= base.Length
    }

    ghost function Bytes(): seq<byte>
      reads base
    {
      if InRange() then Slice(base[..], offset, offset + len) else []
    }
  }

  /** The entries hold these chunks, one each, and none leaves its memory. */
  ghost predicate Hold(vs: seq<IoVec>, chunks: seq<seq<byte>>)
    reads set i | 0 <= i < |vs| :: vs[i].base
  {
    |vs| == |chunks| && forall i | 0 <= i < |vs| :: vs[i].InRange() && Same(vs[i].Bytes(), chunks[i])
  }

  ghost predicate AllInRange(vs: seq<IoVec>) {
    forall i | 0 <= i < |vs| :: vs[i].InRange()
  }

  // ---------- chunks of bytes ----------

  function FlatTo(chunks: seq<seq<byte>>, n: nat): seq<byte>
    requires n <= |chunks|
  {
    if n == 0 then [] else FlatTo(chunks, n - 1) + chunks[n - 1]
  }

  function Flat(chunks: seq<seq<byte>>): seq<byte> {
    FlatTo(chunks, |chunks|)
  }

  lemma {:induction false} FlatSame(a: seq<seq<byte>>, b: seq<seq<byte>>, n: nat)
    requires n <= |a| && n <= |b| && forall i | 0 <= i < n :: Same(a[i], b[i])
    ensures FlatTo(a, n) == FlatTo(b, n)
  {
    if n > 0 {
      FlatSame(a, b, n - 1);
    }
  }

  lemma {:induction false} FlatBehind(a: seq<seq<byte>>, b: seq<seq<byte>>, n: nat)
    requires n <= |b|
    ensures FlatTo(a + b, |a| + n) == Flat(a) + FlatTo(b, n)
  {
    if n == 0 {
      FlatSame(a, a + b, |a|);
      assert Flat(a) + [] == Flat(a);
    } else {
      FlatBehind(a, b, n - 1);
      Assoc(Flat(a), FlatTo(b, n - 1), b[n - 1]);
    }
  }

  lemma FlatConcat(a: seq<seq<byte>>, b: seq<seq<byte>>)
    ensures Flat(a + b) == Flat(a) + Flat(b)
  {
    FlatBehind(a, b, |b|);
  }

  ghost function BytesOf(vs: seq<IoVec>): (chunks: seq<seq<byte>>)
    reads set i | 0 <= i < |vs| :: vs[i].base
    ensures |chunks| == |vs| && forall i | 0 <= i < |vs| :: Same(chunks[i], vs[i].Bytes())
  {
    seq(|vs|, i requires 0 <= i < |vs| reads (set k | 0 <= k < |vs| :: vs[k].base) => vs[i].Bytes())
  }

  /** What a gathering write would send. */
  ghost function Joined(vs: seq<IoVec>): seq<byte>
    reads set i | 0 <= i < |vs| :: vs[i].base
  {
    Flat(BytesOf(vs))
  }

  lemma HoldJoined(vs: seq<IoVec>, chunks: seq<seq<byte>>)
    requires Hold(vs, chunks)
    ensures AllInRange(vs) && Joined(vs) == Flat(chunks)
  {
    FlatSame(BytesOf(vs), chunks, |vs|);
  }

  /** The unread bytes of nodes i to j - 1, without the empty ones. */
  ghost function Chunks(ns: seq<NodeView>, i: int, j: int): (chunks: seq<seq<byte>>)
    requires 0 <= i && j <= |ns|
    ensures i <= j ==> |chunks| <= j - i
    decreases j - i
  {
    if i >= j then []
    else Chunks(ns, i, j - 1) + if ns[j - 1].Payload() == [] then [] else [ns[j - 1].Payload()]
  }

  lemma FlatOne(x: seq<byte>)
    ensures Flat([x]) == x
  {
    assert FlatTo([x], 0) == [];
    assert FlatTo([x], 1) == [] + x;
  }

  /** An empty chunk may be left out. */
  lemma FlatMore(chunks: seq<seq<byte>>, p: seq<byte>)
    ensures Same(Flat(chunks + if p == [] then [] else [p]), Flat(chunks) + p)
  {
    if p == [] {
      assert chunks + [] == chunks && Flat(chunks) + [] == Flat(chunks);
    } else {
      FlatConcat(chunks, [p]);
      FlatOne(p);
    }
  }

  lemma {:induction false} ChunksAreGathered(ns: seq<NodeView>, i: int, j: int)
    requires 0 <= i && j <= |ns|
    ensures Same(Flat(Chunks(ns, i, j)), Gather(ns, i, j))
    decreases j - i
  {
    if i < j {
      ChunksAreGathered(ns, i, j - 1);
      FlatMore(Chunks(ns, i, j - 1), ns[j - 1].Payload());
    }
  }

  lemma GatherToEnd(l: Layout, end: int)
    requires l.Ok() && l.r < end <= l.w + 1 && (end <= l.w ==> end == l.w && l.nodes[end].end == 0)
    ensures Gather(l.nodes, l.r, end) == l.Contents()
  {
    if end == l.w {
      assert l.NodeOk(end);
      GatherNothing(l.nodes, l.r, end);
    }
  }

  // ---------- reading one array ----------

  /** The nodes and what they hold. */
  ghost predicate Show(nodes: seq<BufferNode>, views: seq<NodeView>)
    reads nodes, set i | 0 <= i < |nodes| :: nodes[i].buffer
  {
    |nodes| == |views| && forall i | 0 <= i < |nodes| :: nodes[i].View() == views[i] && views[i].WellFormed()
  }

  lemma NodesShow(b: ByteArray)
    requires b.Valid()
    ensures Show(b.nodes, b.layout.nodes)
  {
    forall i | 0 <= i < |b.nodes| ensures b.nodes[i].View() == b.layout.nodes[i] && b.layout.nodes[i].WellFormed() {
      assert b.layout.NodeOk(i);
    }
  }

  /** One entry for each node that has unread bytes. */
  method CollectEntries(nodes: seq<BufferNode>, begin: nat, end: nat, ghost views: seq<NodeView>)
      returns (vec: seq<IoVec>)
    requires Show(nodes, views) && begin <= end <= |nodes|
    ensures Hold(vec, Chunks(views, begin, end))
  {
    var it := begin;
    vec := [];
    while it < end
      invariant begin <= it <= end && Hold(vec, Chunks(views, begin, it))
    {
      var node := nodes[it];
      assert node.View() == views[it] && views[it].WellFormed();
      if node.end - node.start != 0 {
        vec := vec + [IoVec(node.buffer, node.start, node.end - node.start)];
      }
      it := it + 1;
    }
  }

  /** All unread bytes of an array, node after node. */
  method Gathering(b: ByteArray) returns (vec: seq<IoVec>, ghost chunks: seq<seq<byte>>)
    requires b.Valid()
    ensures Hold(vec, chunks) && Same(Flat(chunks), b.layout.Contents()) && |vec| <= |b.nodes|
    ensures |vec| <= b.EndOfReadNode() - b.readNode
  {
    var end := b.EndOfReadNode();
    chunks := Chunks(b.layout.nodes, b.readNode, end);
    ChunksAreGathered(b.layout.nodes, b.readNode, end);
    GatherToEnd(b.layout, end);
    NodesShow(b);
    vec := CollectEntries(b.nodes, b.readNode, end, b.layout.nodes);
  }

  /** Bytes waiting in one array, as a gather list for sending. */
  class ByteArrayReader {
    const buffer: ByteArray
    /** The entries in use, and how many were allocated. */
    var vec: seq<IoVec>
    var slots: nat

    constructor (b: ByteArray)
      requires b.Valid()
      ensures buffer == b && slots == b.EndOfReadNode() - b.readNode && |vec| <= slots
      ensures AllInRange(vec) && Joined(vec) == b.Abs().contents
    {
      buffer := b;
      var entries; ghost var chunks;
      entries, chunks := Gathering(b);
      HoldJoined(entries, chunks);
      slots, vec := b.EndOfReadNode() - b.readNode, entries;
    }

    method AvailableBytes() returns (n: int)
      requires buffer.Valid()
      ensures n == |buffer.Abs().contents|
    {
      n := buffer.ReadableBytes();
    }

    /** After `size` bytes were sent: right exactly when `Exact` holds. */
    method AdjustByteArray(size: nat) returns (defined: bool)
      requires buffer.Valid()
      modifies buffer, buffer.Repr
      ensures buffer.Repr == old(buffer.Repr)
      ensures defined && buffer.Valid() <==> old(Exact(buffer.layout, size))
      ensures old(Exact(buffer.layout, size)) ==> buffer.Abs() == old(buffer.Abs()).Consume(size)
    {
      defined := buffer.Consume(size);
    }
  }

  // ---------- memory to receive into ----------

  function TotalTo(vs: seq<IoVec>, n: nat): nat
    requires n <= |vs|
  {
    if n == 0 then 0 else TotalTo(vs, n - 1) + vs[n - 1].len
  }

  function Total(vs: seq<IoVec>): nat {
    TotalTo(vs, |vs|)
  }

  /** Writeable memory of an array, as a scatter list for receiving. */
  class ByteArrayWriter {
    const buffer: ByteArray
    var vec: seq<IoVec>
    var vecLen: nat

    /** The length computed from the byte count is the number of entries the loop fills, and the
        entries are all the memory behind the payloads, node after node. */
    constructor (b: ByteArray)
      requires b.Valid()
      ensures buffer == b && |vec| == vecLen && vecLen == |b.nodes| - b.writeNode
      ensures AllInRange(vec) && Total(vec) == b.Abs().Free()
      ensures AreSpacesOf(vec, b)
    {
      buffer := b;
      b.AbsIsOk();
      var bytes := b.availableSizeToWrite;
      vecLen := bytes / NODE_SIZE + if bytes % NODE_SIZE != 0 then 1 else 0;
      CeilingIsCount(b.layout);
      var entries := Spaces(b);
      vec := entries;
    }

    method AvailableBytes() returns (n: int)
      requires buffer.Valid()
      ensures n == buffer.Abs().Free()
    {
      n := buffer.WriteableBytes();
    }

    /** After `size` bytes were received: right exactly for a single writeable node with room to spare,
        and then the bytes the memory behind the payload starts with are appended. */
    method AdjustByteArray(size: nat)
      requires buffer.Valid() && size < TWO_TO_THE_64
      modifies buffer, buffer.Repr
      ensures fresh(buffer.Repr - old(buffer.Repr))
      ensures buffer.Valid() <==>
              old(buffer.writeNode + 1 == |buffer.nodes| && size < buffer.availableSizeToWrite)
      ensures old(buffer.writeNode + 1 == |buffer.nodes| && size < buffer.availableSizeToWrite) ==>
        && old(buffer.Abs().Ok() && buffer.layout.nodes[buffer.layout.w].WellFormed())
        && old(buffer.layout.nodes[buffer.layout.w].end + size <= NODE_SIZE)
        && buffer.Abs() == old(buffer.Abs()).Write(old(Delivered(buffer.layout.nodes[buffer.layout.w], size)))
    {
      buffer.Produce(size);
    }
  }

  ghost predicate IsSpaceOf(v: IoVec, node: BufferNode)
    reads node
  {
    v.base == node.buffer && v.offset == node.end && v.len == NODE_SIZE - node.end
  }

  /** The entries are the memory behind the payloads, node after node from the write node on. */
  ghost predicate AreSpacesOf(vec: seq<IoVec>, b: ByteArray)
    reads b, b.nodes
  {
    && 0 <= b.writeNode && |vec| == |b.nodes| - b.writeNode
    && forall k | 0 <= k < |vec| :: IsSpaceOf(vec[k], b.nodes[b.writeNode + k])
  }

  /** The memory behind the payloads of n nodes from the write node on is what is free. */
  lemma {:induction false} SpacesAreFree(vec: seq<IoVec>, l: Layout, n: nat)
    requires l.Ok() && n <= |vec| == |l.nodes| - l.w
    requires forall i | 0 <= i < |vec| :: vec[i].len == NODE_SIZE - l.nodes[l.w + i].end
    ensures TotalTo(vec, n) == if n == 0 then 0 else Span(n) - l.nodes[l.w].end
  {
    if n > 0 {
      SpacesAreFree(vec, l, n - 1);
      assert l.NodeOk(l.w + (n - 1));
    }
  }

  /** Rounding the free bytes up to whole nodes counts the nodes from the write node on. */
  lemma CeilingIsCount(l: Layout)
    requires l.Ok()
    ensures l.Free() / NODE_SIZE + (if l.Free() % NODE_SIZE != 0 then 1 else 0) == |l.nodes| - l.w
  {
    assert l.NodeOk(l.w);
  }

  lemma SpacesOfArray(b: ByteArray, vec: seq<IoVec>)
    requires b.Valid() && AreSpacesOf(vec, b)
    ensures Total(vec) == b.Abs().Free()
  {
    forall i | 0 <= i < |vec| ensures vec[i].len == NODE_SIZE - b.layout.nodes[b.writeNode + i].end {
      assert IsSpaceOf(vec[i], b.nodes[b.writeNode + i]);
      assert b.nodes[b.writeNode + i].View() == b.layout.nodes[b.writeNode + i];
    }
    SpacesAreFree(vec, b.layout, |vec|);
    ByteQueue.TapeOfIsOk(b.layout);
  }

  method Spaces(b: ByteArray) returns (vec: seq<IoVec>)
    requires b.Valid()
    ensures AreSpacesOf(vec, b) && AllInRange(vec) && Total(vec) == b.Abs().Free()
  {
    NodesShow(b);
    vec := Scattering(b.nodes, b.writeNode);
    SpacesOfArray(b, vec);
  }

  method Scattering(nodes: seq<BufferNode>, w: nat) returns (vec: seq<IoVec>)
    requires w <= |nodes| && forall i | 0 <= i < |nodes| :: nodes[i].end <= NODE_SIZE == nodes[i].buffer.Length
    ensures |vec| == |nodes| - w && AllInRange(vec)
    ensures forall k | 0 <= k < |vec| :: IsSpaceOf(vec[k], nodes[w + k])
  {
    var it := w;
    vec := [];
    while it < |nodes|
      invariant w <= it <= |nodes| && |vec| == it - w && AllInRange(vec)
      invariant forall k | 0 <= k < |vec| :: IsSpaceOf(vec[k], nodes[w + k])
    {
      var node := nodes[it];
      vec := vec + [IoVec(node.buffer, node.end, NODE_SIZE - node.end)];
      it := it + 1;
    }
  }

  // ---------- what a socket delivers ----------

  lemma SpacesInRepr(vec: seq<IoVec>, b: ByteArray)
    requires b.Linked() && AreSpacesOf(vec, b)
    ensures forall v | v in vec :: v.base in b.Repr
  {
    forall k | 0 <= k < |vec| ensures vec[k].base in b.Repr {
      assert IsSpaceOf(vec[k], b.nodes[b.writeNode + k]);
    }
  }

  /** The write node's offsets are the same, and its memory behind the payload has the data if that fits. */
  ghost predicate PutBehind(l: Layout, data: seq<byte>, l': Layout)
    requires l.Ok() && l'.Ok() && l'.w == l.w < |l'.nodes|
  {
    && l'.nodes[l.w].WellFormed() && l'.nodes[l.w].end == l.nodes[l.w].end
    && (l.nodes[l.w].end + |data| <= NODE_SIZE ==> DeliveredTo(l', data))
  }

  lemma StillBehind(l: Layout, data: seq<byte>, mid: Layout, l': Layout)
    requires SameQueue(l, mid) && SameQueue(mid, l')
    requires PutBehind(l, data, mid) && l'.nodes[l.w] == mid.nodes[l.w]
    ensures SameQueue(l, l') && PutBehind(l, data, l')
  {
  }

  /** The system call fills the entries, one after the other.  What it puts behind the payloads is not part
      of the queue yet. */
  method Deliver(vec: seq<IoVec>, data: seq<byte>, ghost b: ByteArray)
    requires b.Valid() && AreSpacesOf(vec, b) && |data| <= b.layout.Free()
    modifies b`layout, set v | v in vec :: v.base
    ensures b.Valid() && SameQueue(old(b.layout), b.layout)
    ensures PutBehind(old(b.layout), data, b.layout)
  {
    var rest := DeliverNext(vec[0], data, b, b.layout.w);
    DeliverRest(vec, 1, rest, b, old(b.layout), data);
  }

  /** The entries from the k-th on; the write node's was the first. */
  method DeliverRest(vec: seq<IoVec>, k: nat, rest: seq<byte>, ghost b: ByteArray, ghost l: Layout,
                     ghost data: seq<byte>)
    requires b.Valid() && AreSpacesOf(vec, b) && 0 < k <= |vec| && |rest| <= RoomFrom(b.layout, b.layout.w + k)
    requires SameQueue(l, b.layout) && PutBehind(l, data, b.layout)
    modifies b`layout, set v | v in vec :: v.base
    ensures b.Valid() && SameQueue(l, b.layout) && PutBehind(l, data, b.layout)
    decreases |rest|
  {
    if rest != [] {
      var rest' := DeliverNext(vec[k], rest, b, b.layout.w + k);
      StillBehind(l, data, old(b.layout), b.layout);
      DeliverRest(vec, k + 1, rest', b, l, data);
    }
  }

  /** One entry takes what it can. */
  method DeliverNext(v: IoVec, rest: seq<byte>, ghost b: ByteArray, ghost i: int) returns (rest': seq<byte>)
    requires b.Valid() && b.layout.w <= i < |b.nodes| && IsSpaceOf(v, b.nodes[i])
    requires |rest| <= RoomFrom(b.layout, i)
    modifies b`layout, v.base
    ensures b.Valid() && SameQueue(old(b.layout), b.layout) && |rest'| <= RoomFrom(b.layout, i + 1)
    ensures rest != [] ==> |rest'| < |rest|
    ensures if i == b.layout.w then PutBehind(old(b.layout), rest, b.layout)
            else b.layout.nodes[b.layout.w] == old(b.layout).nodes[b.layout.w]
  {
    assert b.layout.NodeOk(i) && b.layout.NodeOk(b.layout.w);
    assert b.nodes[i].View() == b.layout.nodes[i];
    var n := if v.len < |rest| then v.len else |rest|;
    ReceiveInto(b.layout, i, rest[..n]);
    FillEntry(v, rest[..n], b, i);
    rest' := rest[n..];
    assert b.layout.NodeOk(i);
    assert n == |rest| ==> rest[..n] == rest;
  }

  /** The copy to an entry's memory; the offsets of its node stay. */
  method FillEntry(v: IoVec, chunk: seq<byte>, ghost b: ByteArray, ghost i: nat)
    requires b.Linked() && i < |b.nodes| && b.layout.nodes[i].WellFormed()
    requires IsSpaceOf(v, b.nodes[i]) && |chunk| <= v.len
    modifies b`layout, v.base
    ensures b.Linked() && b.layout.nodes[i].WellFormed() && old(b.layout).nodes[i].end + |chunk| <= NODE_SIZE
    ensures b.layout == old(b.layout).(nodes := old(b.layout).nodes[i := old(b.layout).nodes[i].Receive(chunk)])
  {
    assert b.nodes[i].View() == b.layout.nodes[i];
    forall j | 0 <= j < |chunk| {
      v.base[v.offset + j] := chunk[j];
    }
    assert v.base[..] == old(v.base[..])[..v.offset] + chunk + old(v.base[..])[v.offset + |chunk|..];
    b.layout := b.layout.(nodes := b.layout.nodes[i := b.nodes[i].View()]);
  }

  // ---------- several arrays, one after the other ----------

  ghost predicate AllOk(ls: seq<Layout>) {
    forall j {:trigger ls[j]} | 0 <= j < |ls| :: ls[j].Ok()
  }

  ghost function ContentsFrom(ls: seq<Layout>, i: nat): seq<byte>
    requires AllOk(ls)
    decreases |ls| - i
  {
    if i >= |ls| then [] else ls[i].Contents() + ContentsFrom(ls, i + 1)
  }

  /** The arrays are intact, and these are their layouts. */
  ghost predicate InState(bs: seq<ByteArray>, ls: seq<Layout>)
    reads bs, set i, o | 0 <= i < |bs| && o in bs[i].Repr :: o
  {
    |ls| == |bs| && AllOk(ls) && forall i | 0 <= i < |bs| :: bs[i].Valid() && Same(bs[i].layout, ls[i])
  }

  ghost function SumNodes(bs: seq<ByteArray>, i: nat): nat
    reads bs
    decreases |bs| - i
  {
    if i >= |bs| then 0 else |bs[i].nodes| + SumNodes(bs, i + 1)
  }

  method CountNodes(bs: seq<ByteArray>) returns (count: nat)
    ensures count == SumNodes(bs, 0)
  {
    count := 0;
    for i := 0 to |bs|
      invariant count + SumNodes(bs, i) == SumNodes(bs, 0)
    {
      count := count + |bs[i].nodes|;
    }
  }

  /** The entries of array i behind those so far. */
  method AppendEntries(bs: seq<ByteArray>, i: nat, vec: seq<IoVec>, ghost ls: seq<Layout>,
                       ghost chunks: seq<seq<byte>>)
      returns (vec': seq<IoVec>, ghost chunks': seq<seq<byte>>)
    requires InState(bs, ls) && i < |bs| && Hold(vec, chunks)
    ensures InState(bs, ls) && Hold(vec', chunks') && |vec'| <= |vec| + |ls[i].nodes|
    ensures Same(Flat(chunks'), Flat(chunks) + ls[i].Contents())
  {
    var more; ghost var added;
    more, added := Gathering(bs[i]);
    FlatConcat(chunks, added);
    HoldConcat(vec, chunks, more, added);
    vec', chunks' := vec + more, chunks + added;
  }

  lemma HoldConcat(a: seq<IoVec>, x: seq<seq<byte>>, b: seq<IoVec>, y: seq<seq<byte>>)
    requires Hold(a, x) && Hold(b, y)
    ensures Hold(a + b, x + y)
  {
    forall i | 0 <= i < |a + b| ensures (a + b)[i].InRange() && Same((a + b)[i].Bytes(), (x + y)[i]) {
      if i < |a| {
        assert (a + b)[i] == a[i] && Same((x + y)[i], x[i]);
      } else {
        assert (a + b)[i] == b[i - |a|] && Same((x + y)[i], y[i - |a|]);
      }
    }
  }

  lemma ContentsNext(before: seq<byte>, after: seq<byte>, ls: seq<Layout>, i: nat)
    requires AllOk(ls) && i < |ls| && Same(after, before + ls[i].Contents())
    ensures Same(after + ContentsFrom(ls, i + 1), before + ContentsFrom(ls, i))
  {
    Assoc(before, ls[i].Contents(), ContentsFrom(ls, i + 1));
  }

  ghost function SumLengths(ls: seq<Layout>, i: nat): nat
    decreases |ls| - i
  {
    if i >= |ls| then 0 else |ls[i].nodes| + SumLengths(ls, i + 1)
  }

  lemma {:induction false} SumsAgree(bs: seq<ByteArray>, ls: seq<Layout>, i: nat)
    requires |ls| == |bs| && forall k | 0 <= k < |bs| :: |bs[k].nodes| == |ls[k].nodes|
    ensures SumNodes(bs, i) == SumLengths(ls, i)
    decreases |bs| - i
  {
    if i < |bs| {
      SumsAgree(bs, ls, i + 1);
    }
  }

  method GatherAll(bs: seq<ByteArray>, ghost ls: seq<Layout>)
      returns (vec: seq<IoVec>, ghost chunks: seq<seq<byte>>)
    requires InState(bs, ls)
    ensures InState(bs, ls) && Hold(vec, chunks) && Same(Flat(chunks), ContentsFrom(ls, 0))
    ensures |vec| <= SumLengths(ls, 0)
  {
    vec, chunks := [], [];
    var i := 0;
    Nil(ContentsFrom(ls, 0));
    while i < |bs|
      invariant i <= |bs| && InState(bs, ls) && Hold(vec, chunks)
      invariant Same(Flat(chunks) + ContentsFrom(ls, i), ContentsFrom(ls, 0))
      invariant |vec| + SumLengths(ls, i) <= SumLengths(ls, 0)
    {
      ghost var before := Flat(chunks);
      vec, chunks := AppendEntries(bs, i, vec, ls, chunks);
      ContentsNext(before, Flat(chunks), ls, i);
      i := i + 1;
    }
    Nil(Flat(chunks));
  }

  lemma NoNodesNoArrays(ls: seq<Layout>)
    requires AllOk(ls)
    ensures SumLengths(ls, 0) == 0 ==> |ls| == 0
  {
    if |ls| > 0 {
      assert ls[0].Ok();
    }
  }
}
