/**
 The layout of a byte queue held in fixed-size nodes, as a value.

 A layout is the list of nodes with the indices of the node being read and the node being
 written.  `Ok` is the invariant of the queue: nodes before the write node are full, the
 write node has room left, and nodes after it are empty.  The lemmas say what filling the
 write node, draining the read node, rotating the drained nodes to the tail and adding empty
 nodes do to the bytes the layout stands for.
 */
module QueueLayout {
  import opened Strings

  const NODE_SIZE := 1024

  /** The bytes k nodes hold, and where a tape position falls inside its node. */
  function Span(k: int): int {
    k * NODE_SIZE
  }

  function Offset(position: nat): nat {
    position % NODE_SIZE
  }

  type byte = b: int | 0 <= b < 0x100

  /** The elements from a to b - 1, as a function the solver does not look into by itself. */
  function Slice(data: seq<byte>, a: nat, b: nat): (s: seq<byte>)
    requires a <= b <= |data|
    ensures |s| == b - a
  {
    if a == b then [] else Slice(data, a, b - 1) + [data[b - 1]]
  }

  lemma {:induction false} SliceIs(data: seq<byte>, a: nat, b: nat)
    requires a <= b <= |data|
    ensures Slice(data, a, b) == data[a..b]
  {
    if a < b {
      SliceIs(data, a, b - 1);
      assert data[a..b] == data[a..b - 1] + [data[b - 1]];
    }
  }

  datatype NodeView = NodeView(start: nat, end: nat, data: seq<byte>) {

    predicate WellFormed() {
      start <= end <= NODE_SIZE == |data|
    }

    /** The unread bytes; a node whose offsets have crossed holds none. */
    function Payload(): seq<byte> {
      if WellFormed() then Slice(data, start, end) else []
    }

    /** The node with `chunk` in its memory behind the payload. */
    function Receive(chunk: seq<byte>): NodeView
      requires WellFormed() && end + |chunk| <= NODE_SIZE
    {
      NodeView(start, end, data[..end] + chunk + data[end + |chunk|..])
    }

    /** The node after the bytes of `chunk` were copied behind its payload. */
    function Fill(chunk: seq<byte>): NodeView
      requires WellFormed() && end + |chunk| <= NODE_SIZE
    {
      NodeView(start, end + |chunk|, data[..end] + chunk + data[end + |chunk|..])
    }

    function Drain(n: nat): NodeView {
      this.(start := start + n)
    }

    predicate Blank() {
      start == end == 0 && |data| == NODE_SIZE
    }
  }

  /** The payloads of nodes i to j - 1, one after the other. */
  ghost function Gather(ns: seq<NodeView>, i: int, j: int): seq<byte>
    requires 0 <= i && j <= |ns|
    decreases j - i
  {
    if i >= j then [] else Gather(ns, i, j - 1) + ns[j - 1].Payload()
  }

  /** The bytes behind the payloads of nodes i and up: what they can still take. */
  ghost function Space(ns: seq<NodeView>, i: int): int
    requires 0 <= i
    decreases |ns| - i
  {
    if i >= |ns| then 0 else (NODE_SIZE - ns[i].end) + Space(ns, i + 1)
  }

  datatype Layout = Layout(nodes: seq<NodeView>, r: nat, w: int) {

    ghost predicate NodeOk(i: int)
      requires 0 <= i < |nodes|
    {
      && nodes[i].WellFormed()
      && (i < w ==> nodes[i].end == NODE_SIZE)
      && (i == w ==> nodes[i].end < NODE_SIZE)
      && (i > w ==> nodes[i].end == 0)
      && (i == r ==> nodes[i].start < NODE_SIZE)
      && (r < i <= w ==> nodes[i].start == 0)
    }

    ghost predicate Ok() {
      && r <= w < |nodes|
      && forall i | 0 <= i < |nodes| :: NodeOk(i)
    }

    /** From the read node's start to the write node's end. */
    ghost function Contents(): seq<byte>
      requires 0 <= r <= w < |nodes|
    {
      Gather(nodes, r, w + 1)
    }

    /** No unread bytes at or behind node `end`. */
    ghost predicate EndsAt(end: int)
      requires 0 <= w < |nodes|
    {
      w <= end && (end <= w ==> nodes[w].end == 0)
    }

    /** Readable and writeable bytes, computed from the two indices alone. */
    function Readable(): int
      requires 0 <= r < |nodes| && 0 <= w < |nodes|
    {
      Span(w - r) + nodes[w].end - nodes[r].start
    }

    function Free(): int
      requires 0 <= w < |nodes|
    {
      Span(|nodes| - w) - nodes[w].end
    }

    function Head(): nat
      requires 0 <= r < |nodes|
    {
      Span(r) + nodes[r].start
    }
  }

  // ---------- the gathered bytes ----------

  lemma DropFromFirst(a: seq<byte>, b: seq<byte>, n: nat)
    requires n <= |a|
    ensures (a + b)[n..] == a[n..] + b && (a + b)[..n] == a[..n]
    ensures n == |a| ==> (a + b)[n..] == b
  {
  }

  lemma {:induction false} GatherFirst(ns: seq<NodeView>, i: int, j: int)
    requires 0 <= i < j <= |ns|
    ensures Gather(ns, i, j) == ns[i].Payload() + Gather(ns, i + 1, j)
    decreases j - i
  {
    if i < j - 1 {
      GatherFirst(ns, i, j - 1);
      Assoc(ns[i].Payload(), Gather(ns, i + 1, j - 1), ns[j - 1].Payload());
    }
  }

  lemma {:induction false} GatherSame(ns: seq<NodeView>, ns': seq<NodeView>, i: int, j: int)
    requires 0 <= i && j <= |ns| && j <= |ns'|
    requires forall k | i <= k < j :: ns'[k] == ns[k]
    ensures Gather(ns, i, j) == Gather(ns', i, j)
    decreases j - i
  {
    if i < j {
      GatherSame(ns, ns', i, j - 1);
    }
  }

  /** The nodes of `ns'` are those of `ns` from `shift` on. */
  lemma {:induction false} GatherShifted(ns: seq<NodeView>, ns': seq<NodeView>, shift: nat, j: int)
    requires 0 <= j <= |ns'| && shift + j <= |ns|
    requires forall k | 0 <= k < j :: ns'[k] == ns[shift + k]
    ensures Gather(ns', 0, j) == Gather(ns, shift, shift + j)
    decreases j
  {
    if 0 < j {
      GatherShifted(ns, ns', shift, j - 1);
    }
  }

  lemma {:induction false} GatherLength(l: Layout, j: nat)
    requires l.Ok() && l.r <= j <= l.w
    ensures |Gather(l.nodes, l.r, j + 1)| == Span(j - l.r) + l.nodes[j].end - l.nodes[l.r].start
  {
    assert l.NodeOk(j);
    if l.r < j {
      assert l.NodeOk(j - 1);
      GatherLength(l, j - 1);
    }
  }

  lemma {:induction false} SpaceFrom(l: Layout, i: nat)
    requires l.Ok() && l.w < i <= |l.nodes|
    ensures Space(l.nodes, i) == Span(|l.nodes| - i)
    decreases |l.nodes| - i
  {
    if i < |l.nodes| {
      assert l.NodeOk(i);
      SpaceFrom(l, i + 1);
    }
  }

  /** The index formulas count exactly the stored bytes and the bytes still free. */
  lemma CountersAreSums(l: Layout)
    requires l.Ok()
    ensures l.Readable() == |l.Contents()|
    ensures l.Free() == Space(l.nodes, l.w) > 0
  {
    assert l.NodeOk(l.w);
    GatherLength(l, l.w);
    SpaceFrom(l, l.w + 1);
  }

  /** With one node in use its payload is all there is. */
  lemma OnlyNode(l: Layout)
    requires l.Ok() && l.r == l.w
    ensures l.Contents() == l.nodes[l.r].Payload()
  {
    assert Gather(l.nodes, l.r, l.r) == [];
  }

  /** Behind the last node with unread bytes nothing is left. */
  lemma NothingLeft(l: Layout, end: int)
    requires l.Ok() && l.EndsAt(end) && end <= l.r
    ensures l.Contents() == []
  {
    assert l.NodeOk(l.r);
    OnlyNode(l);
  }

  // ---------- what one step does to the bytes ----------

  lemma FillPayload(n: NodeView, chunk: seq<byte>)
    requires n.WellFormed() && n.end + |chunk| <= NODE_SIZE
    ensures n.Fill(chunk).WellFormed() && n.Fill(chunk).Payload() == n.Payload() + chunk
  {
    SliceIs(n.data, n.start, n.end);
    SliceIs(n.Fill(chunk).data, n.start, n.end + |chunk|);
  }

  ghost predicate FilledFrom(l: Layout, chunk: seq<byte>, l': Layout)
    requires l.Ok()
  {
    && l.nodes[l.w].WellFormed()
    && l.nodes[l.w].end + |chunk| <= NODE_SIZE
    && (l.nodes[l.w].end + |chunk| == NODE_SIZE ==> l.w + 1 < |l.nodes|)
    && l'.nodes == l.nodes[l.w := l.nodes[l.w].Fill(chunk)]
    && l'.r == l.r
    && l'.w == if l.nodes[l.w].end + |chunk| == NODE_SIZE then l.w + 1 else l.w
  }

  lemma FillKeepsOk(l: Layout, chunk: seq<byte>, l': Layout)
    requires l.Ok() && FilledFrom(l, chunk, l')
    ensures l'.Ok() && l'.Head() == l.Head()
  {
    FillPayload(l.nodes[l.w], chunk);
    forall i | 0 <= i < |l'.nodes| ensures l'.NodeOk(i) {
      assert l.NodeOk(i);
    }
  }

  lemma GatherFilled(ns: seq<NodeView>, ns': seq<NodeView>, i: int, w: int, chunk: seq<byte>)
    requires 0 <= i <= w < |ns| == |ns'|
    requires ns[w].WellFormed() && ns[w].end + |chunk| <= NODE_SIZE && ns'[w] == ns[w].Fill(chunk)
    requires forall k | i <= k < w :: ns'[k] == ns[k]
    ensures Gather(ns', i, w + 1) == Gather(ns, i, w + 1) + chunk
  {
    FillPayload(ns[w], chunk);
    GatherSame(ns, ns', i, w);
    Assoc(Gather(ns, i, w), ns[w].Payload(), chunk);
  }

  lemma GatherNothing(ns: seq<NodeView>, i: int, j: int)
    requires 0 <= i <= j < |ns| && ns[j].start == ns[j].end
    ensures Gather(ns, i, j + 1) == Gather(ns, i, j)
  {
    assert ns[j].Payload() == [];
  }

  lemma FillContents(l: Layout, chunk: seq<byte>, l': Layout)
    requires l.Ok() && l'.Ok() && FilledFrom(l, chunk, l')
    ensures l'.Contents() == l.Contents() + chunk
  {
    GatherFilled(l.nodes, l'.nodes, l.r, l.w, chunk);
    if l'.w == l.w + 1 {
      assert l'.NodeOk(l'.w) && l.NodeOk(l'.w);
      GatherNothing(l'.nodes, l.r, l'.w);
    }
  }

  /** Filling the write node appends; the write index moves on when the node is full. */
  lemma FillWriteNode(l: Layout, chunk: seq<byte>, l': Layout)
    requires l.Ok() && FilledFrom(l, chunk, l')
    ensures l'.Ok() && l'.Head() == l.Head() && l'.Contents() == l.Contents() + chunk
  {
    FillKeepsOk(l, chunk, l');
    FillContents(l, chunk, l');
  }

  lemma SliceOfSlice(data: seq<byte>, a: nat, b: nat, k: nat)
    requires a + k <= b <= |data|
    ensures data[a..b][k..] == data[a + k..b] && data[a..b][..k] == data[a..a + k]
  {
  }

  lemma DrainPayload(n: NodeView, k: nat)
    requires n.WellFormed() && k <= |n.Payload()|
    ensures n.Drain(k).WellFormed() && n.Drain(k).Payload() == n.Payload()[k..]
    ensures n.data[n.start..n.start + k] == n.Payload()[..k]
  {
    SliceIs(n.data, n.start, n.end);
    SliceIs(n.data, n.start + k, n.end);
    SliceOfSlice(n.data, n.start, n.end, k);
  }

  ghost predicate DrainedFrom(l: Layout, n: nat, l': Layout)
    requires l.Ok()
  {
    && n <= |l.nodes[l.r].Payload()|
    && l'.nodes == l.nodes[l.r := l.nodes[l.r].Drain(n)]
    && l'.r == (if l.nodes[l.r].start + n == NODE_SIZE then l.r + 1 else l.r)
    && l'.w == l.w
  }

  lemma DrainKeepsOk(l: Layout, n: nat, l': Layout)
    requires l.Ok() && DrainedFrom(l, n, l')
    ensures l.nodes[l.r].start + n == NODE_SIZE ==> l.r < l.w
    ensures l'.Ok() && l'.Head() == l.Head() + n
  {
    assert l.NodeOk(l.r) && l.NodeOk(l.w);
    assert l'.r > l.r ==> l.NodeOk(l.r + 1);
    forall i | 0 <= i < |l'.nodes| ensures l'.NodeOk(i) {
      assert l.NodeOk(i);
    }
  }

  lemma ReadNodeIsFirst(l: Layout, n: nat)
    requires l.Ok() && n <= |l.nodes[l.r].Payload()|
    ensures n <= |l.Contents()| && l.Contents()[..n] == l.nodes[l.r].Payload()[..n]
  {
    GatherFirst(l.nodes, l.r, l.w + 1);
    DropFromFirst(l.nodes[l.r].Payload(), Gather(l.nodes, l.r + 1, l.w + 1), n);
  }

  lemma GatherDrained(ns: seq<NodeView>, ns': seq<NodeView>, r: int, j: int, n: nat)
    requires 0 <= r < j <= |ns| == |ns'|
    requires ns[r].WellFormed() && n <= |ns[r].Payload()| && ns'[r] == ns[r].Drain(n)
    requires forall k | r + 1 <= k < j :: ns'[k] == ns[k]
    ensures n <= |Gather(ns, r, j)|
    ensures Gather(ns', r, j) == Gather(ns, r, j)[n..]
    ensures n == |ns[r].Payload()| ==> Gather(ns', r + 1, j) == Gather(ns, r, j)[n..]
  {
    GatherFirst(ns, r, j);
    GatherFirst(ns', r, j);
    GatherSame(ns, ns', r + 1, j);
    DrainPayload(ns[r], n);
    DropFromFirst(ns[r].Payload(), Gather(ns, r + 1, j), n);
  }

  lemma DrainContents(l: Layout, n: nat, l': Layout)
    requires l.Ok() && l'.Ok() && DrainedFrom(l, n, l')
    ensures n <= |l.Contents()| && l'.Contents() == l.Contents()[n..]
  {
    assert l.NodeOk(l.r);
    GatherDrained(l.nodes, l'.nodes, l.r, l.w + 1, n);
  }

  /** Draining the read node removes from the front; the read index moves on when the node is used up. */
  lemma DrainReadNode(l: Layout, n: nat, l': Layout)
    requires l.Ok() && DrainedFrom(l, n, l')
    ensures l'.Ok() && l'.Head() == l.Head() + n
    ensures n <= |l.Contents()| && l'.Contents() == l.Contents()[n..]
  {
    DrainKeepsOk(l, n, l');
    DrainContents(l, n, l');
  }

  lemma SkipKeepsOk(l: Layout, k: nat)
    requires l.Ok() && l.r + k <= l.w
    ensures l.(r := l.r + k).Ok()
  {
    var l' := l.(r := l.r + k);
    forall i | 0 <= i < |l.nodes| ensures l'.NodeOk(i) {
      assert l.NodeOk(i);
    }
  }

  lemma DropTwice(all: seq<byte>, n: nat, a: seq<byte>, b: seq<byte>)
    requires n <= |all| && all[n..] == a + b
    ensures n + |a| <= |all| && all[n + |a|..] == b
  {
    assert all[n + |a|..] == all[n..][|a|..];
  }

  /** Skipping whole nodes from the front drops their payloads. */
  lemma {:induction false} SkipNodes(l: Layout, k: nat)
    requires l.Ok() && l.r + k <= l.w
    requires l.nodes[l.r].start == 0
    ensures l.(r := l.r + k).Ok()
    ensures Span(k) <= |l.Contents()|
    ensures l.(r := l.r + k).Contents() == l.Contents()[Span(k)..]
  {
    SkipKeepsOk(l, k);
    if k > 0 {
      SkipNodes(l, k - 1);
      var j := l.r + k - 1;
      assert l.NodeOk(j);
      GatherFirst(l.nodes, j, l.w + 1);
      DropTwice(l.Contents(), Span(k - 1), l.nodes[j].Payload(), Gather(l.nodes, j + 1, l.w + 1));
    }
  }

  ghost predicate RotatedFrom(l: Layout, l': Layout) {
    && l.r <= |l.nodes| == |l'.nodes| && l'.r == 0 && l'.w == l.w - l.r
    && (forall i | 0 <= i < |l.nodes| - l.r :: l'.nodes[i] == l.nodes[l.r + i])
    && (forall i | |l.nodes| - l.r <= i < |l.nodes| :: l'.nodes[i].Blank())
  }

  /** Rotated nodes, and then the indices moved along. */
  lemma Rotation(l: Layout, m: Layout)
    requires l.r <= |l.nodes| == |m.nodes|
    requires forall i | 0 <= i < |l.nodes| - l.r :: m.nodes[i] == l.nodes[l.r + i]
    requires forall i | |l.nodes| - l.r <= i < |l.nodes| :: m.nodes[i].Blank()
    ensures RotatedFrom(l, m.(r := 0, w := l.w - l.r))
  {
  }

  lemma RotateKeepsOk(l: Layout, l': Layout)
    requires l.Ok() && RotatedFrom(l, l')
    ensures l'.Ok()
  {
    forall i | 0 <= i < |l'.nodes| ensures l'.NodeOk(i) {
      assert i < |l.nodes| - l.r ==> l.NodeOk(l.r + i);
    }
  }

  lemma HeadOffset(r: nat, start: nat)
    requires start < NODE_SIZE
    ensures Offset(Span(r) + start) == start
  {
  }

  lemma RotateCounters(l: Layout, l': Layout)
    requires l.Ok() && RotatedFrom(l, l')
    ensures l'.Free() == l.Free() + Span(l.r) && l'.Readable() == l.Readable()
    ensures l'.Head() == Offset(l.Head())
  {
    assert l'.nodes[0] == l.nodes[l.r];
    assert l'.nodes[l'.w] == l.nodes[l.w];
    assert l.NodeOk(l.r);
    HeadOffset(l.r, l.nodes[l.r].start);
  }

  /** Rotating the drained head to the tail leaves the bytes alone and frees r whole nodes. */
  lemma RotateHead(l: Layout, l': Layout)
    requires l.Ok() && RotatedFrom(l, l')
    ensures l'.Ok() && l'.Contents() == l.Contents()
    ensures l'.Free() == l.Free() + Span(l.r) && l'.Readable() == l.Readable()
    ensures l'.Head() == Offset(l.Head())
  {
    RotateKeepsOk(l, l');
    RotateCounters(l, l');
    var j := l'.w + 1;
    assert l.r + j == l.w + 1;
    GatherShifted(l.nodes, l'.nodes, l.r, j);
  }

  /** Blank nodes at the tail only add space. */
  lemma AddBlankNodes(l: Layout, extra: seq<NodeView>)
    requires l.Ok() && forall i | 0 <= i < |extra| :: extra[i].Blank()
    ensures var l' := l.(nodes := l.nodes + extra); l'.Ok() && l'.Contents() == l.Contents() && l'.Head() == l.Head()
  {
    var l' := l.(nodes := l.nodes + extra);
    forall i | 0 <= i < |l'.nodes| ensures l'.NodeOk(i) {
      assert i < |l.nodes| ==> l.NodeOk(i);
    }
    GatherSame(l.nodes, l'.nodes, l.r, l.w + 1);
  }
}
