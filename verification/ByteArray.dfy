/**
 The node-based byte array, updated in place.

 Every method states what it does to the plain byte queue `Abs()` of module ByteQueue; `Valid()`
 is the invariant of module QueueLayout together with the two cached byte counts.
 */
module ByteArrays {
  import opened Strings
  import opened QueueLayout
  import opened QueueConsume
  import opened QueueProduce
  import ByteQueue
  import TypedBytes

  /** One fixed-size buffer with the offsets where reading and writing go on. */
  class BufferNode {
    var start: nat
    var end: nat
    const buffer: array<byte>

    constructor ()
      ensures View().Blank()
      ensures fresh(buffer)
    {
      start, end := 0, 0;
      buffer := new byte[NODE_SIZE](_ => 0);
    }

    ghost function View(): NodeView
      reads this, buffer
    {
      NodeView(start, end, buffer[..])
    }

    /** memcpy behind the payload. */
    method Fill(chunk: seq<byte>)
      requires View().WellFormed() && end + |chunk| <= NODE_SIZE
      modifies this`end, buffer
      ensures View() == old(View()).Fill(chunk)
    {
      forall i | 0 <= i < |chunk| {
        buffer[end + i] := chunk[i];
      }
      end := end + |chunk|;
      assert buffer[..] == old(buffer[..])[..old(end)] + chunk + old(buffer[..])[end..];
    }

    /** memcpy from the front of the payload. */
    method Take(n: nat) returns (chunk: seq<byte>)
      requires View().WellFormed() && n <= |View().Payload()|
      modifies this`start
      ensures View() == old(View()).Drain(n) && chunk == old(View()).Payload()[..n]
    {
      DrainPayload(View(), n);
      chunk := buffer[start..start + n];
      start := start + n;
    }
  }

  class ByteArray {
    var availableSizeToRead: int
    var availableSizeToWrite: int
    var readNode: nat
    var writeNode: int
    var nodes: seq<BufferNode>

    /** The nodes and their buffers, and the values they hold. */
    ghost var Repr: set<object>
    ghost var layout: Layout

    /** No node and no buffer is used twice, and `layout` shows what they hold. */
    ghost predicate Linked()
      reads `nodes, `Repr, `layout, `readNode, `writeNode, Repr
    {
      && this !in Repr
      && (forall i | 0 <= i < |nodes| ::
            nodes[i] in Repr && nodes[i].buffer in Repr && nodes[i].buffer.Length == NODE_SIZE)
      && (forall i, j | 0 <= i < j < |nodes| :: nodes[i] != nodes[j] && nodes[i].buffer != nodes[j].buffer)
      && |layout.nodes| == |nodes| && layout.r == readNode && layout.w == writeNode
      && (forall i | 0 <= i < |nodes| :: nodes[i].View() == layout.nodes[i])
    }

    ghost predicate Valid()
      reads this, Repr
    {
      && Linked()
      && layout.Ok()
      && availableSizeToRead == layout.Readable()
      && availableSizeToWrite == layout.Free()
    }

    /** The plain queue this array stands for. */
    ghost function Abs(): ByteQueue.Tape
      requires layout.Ok()
      reads `layout
    {
      ByteQueue.TapeOf(layout)
    }

    constructor ()
      ensures Valid() && fresh(Repr)
      ensures Abs() == ByteQueue.EMPTY
    {
      var node := new BufferNode();
      availableSizeToRead, availableSizeToWrite := 0, NODE_SIZE;
      readNode, writeNode := 0, 0;
      nodes := [node];
      Repr := {node, node.buffer};
      layout := Layout([NodeView(0, 0, node.buffer[..])], 0, 0);
      new;
      CountersAreSums(layout);
    }

    lemma AbsIsOk()
      requires Valid()
      ensures Abs().Ok() && Abs().Free() == availableSizeToWrite && |Abs().contents| == availableSizeToRead
    {
      CountersAreSums(layout);
    }

    /** The counters are right when they agree with the plain queue. */
    lemma CountersAgree()
      requires Linked() && layout.Ok()
      requires Abs().Free() == availableSizeToWrite && |Abs().contents| == availableSizeToRead
      ensures Valid()
    {
      ByteQueue.TapeOfIsOk(layout);
    }

    method ReadableBytes() returns (n: int)
      requires Valid()
      ensures n == |Abs().contents|
    {
      AbsIsOk();
      n := availableSizeToRead;
    }

    method WriteableBytes() returns (n: int)
      requires Valid()
      ensures n == Abs().Free() > 0
    {
      AbsIsOk();
      n := availableSizeToWrite;
    }

    method WriteRaw(data: seq<byte>)
      requires Valid()
      modifies this, Repr
      ensures Valid() && fresh(Repr - old(Repr))
      ensures old(Abs().Ok()) && Abs() == old(Abs()).Write(data)
    {
      MakeRoom(|data|);
      Put(data);
    }

    method MakeRoom(size: nat)
      requires Valid()
      modifies this, Repr
      ensures Valid() && fresh(Repr - old(Repr))
      ensures old(Abs().Ok()) && Abs() == old(Abs()).Reserve(size) && Abs().Free() > size
    {
      AbsIsOk();
      ByteQueue.ReserveIsEnough(Abs(), size);
      if availableSizeToWrite <= size {
        AllocIfNotEnough(size);
      }
    }

    /** Copy the data and account for what was copied. */
    method Put(data: seq<byte>)
      requires Valid() && |data| < Abs().Free()
      modifies this, Repr
      ensures Valid() && Repr == old(Repr)
      ensures Abs() == old(Abs()).(contents := old(Abs()).contents + data)
    {
      AbsIsOk();
      var left := PutAll(data);
      availableSizeToRead := availableSizeToRead + (|data| - left);
      availableSizeToWrite := availableSizeToWrite - (|data| - left);
      CountersAgree();
    }

    /** The copying loop: node after node, from the write node on; `left` bytes stay unwritten. */
    method PutAll(data: seq<byte>) returns (left: nat)
      requires Linked() && layout.Ok() && |data| < Abs().Free()
      modifies this`writeNode, this`layout, Repr
      ensures Linked() && layout.Ok() && left == 0
      ensures Abs() == old(Abs()).(contents := old(Abs()).contents + data)
    {
      ghost var t := Abs();
      var rest := data;
      var it := writeNode;
      ByteQueue.NothingPut(t, data);
      while |rest| > 0 && it < |nodes|
        invariant Linked() && layout.Ok() && 0 <= it
        invariant rest != [] ==> it == writeNode
        invariant ByteQueue.PutSoFar(t, data, rest, Abs())
      {
        rest := PutRound(it, rest, t, data);
        it := it + 1;
      }
      left := |rest|;
      ByteQueue.AllPut(t, data, Abs());
    }

    /** One round of the copying loop. */
    method PutRound(it: int, rest: seq<byte>, ghost t: ByteQueue.Tape, ghost data: seq<byte>)
        returns (rest': seq<byte>)
      requires Linked() && layout.Ok() && it == writeNode && rest != []
      requires |data| < t.Free() && ByteQueue.PutSoFar(t, data, rest, Abs())
      modifies this`writeNode, this`layout, Repr
      ensures Linked() && layout.Ok() && |rest'| < |rest|
      ensures rest' != [] ==> writeNode == it + 1
      ensures ByteQueue.PutSoFar(t, data, rest', Abs())
    {
      ByteQueue.RoomLeft(t, data, rest, Abs());
      var chunk := PutSome(it, rest);
      ByteQueue.PutMore(t, data, rest, chunk, old(Abs()));
      rest' := rest[|chunk|..];
    }

    /** Copy into the write node as much as fits; move the write index on when the node is full. */
    method PutSome(it: int, rest: seq<byte>) returns (chunk: seq<byte>)
      requires Linked() && layout.Ok() && it == writeNode
      requires 0 < |rest| < Abs().Free()
      modifies this`writeNode, this`layout, Repr
      ensures Linked() && layout.Ok() && chunk != [] && chunk <= rest
      ensures chunk == rest || writeNode == it + 1
      ensures Abs() == old(Abs()).(contents := old(Abs()).contents + chunk)
    {
      ByteQueue.TapeOfIsOk(layout);
      assert layout.NodeOk(it);
      ghost var before := layout;
      var n := NODE_SIZE - nodes[it].end;
      n := if n < |rest| then n else |rest|;
      chunk := rest[..n];
      FillAndStep(chunk);
      FillWriteNode(before, chunk, layout);
    }

    method FillAndStep(chunk: seq<byte>)
      requires Linked() && layout.Ok()
      requires layout.nodes[layout.w].WellFormed() && layout.nodes[layout.w].end + |chunk| <= NODE_SIZE
      requires layout.nodes[layout.w].end + |chunk| == NODE_SIZE ==> layout.w + 1 < |layout.nodes|
      modifies this`writeNode, this`layout, Repr
      ensures Linked() && FilledFrom(old(layout), chunk, layout)
    {
      var it := writeNode;
      FillNode(it, chunk);
      if writeNode + 1 < |nodes| && nodes[it].end == NODE_SIZE {
        writeNode := writeNode + 1;
        layout := layout.(w := writeNode);
      }
    }

    method FillNode(i: nat, chunk: seq<byte>)
      requires Linked() && i < |nodes| && layout.nodes[i].WellFormed() && layout.nodes[i].end + |chunk| <= NODE_SIZE
      modifies this`layout, nodes[i], nodes[i].buffer
      ensures Linked()
      ensures layout == old(layout).(nodes := old(layout).nodes[i := old(layout).nodes[i].Fill(chunk)])
    {
      nodes[i].Fill(chunk);
      layout := layout.(nodes := layout.nodes[i := nodes[i].View()]);
    }

    /** Room for strictly more than `size` bytes: rotate the drained head first, then double. */
    method AllocIfNotEnough(size: nat)
      requires Valid()
      modifies this, Repr
      ensures Valid() && fresh(Repr - old(Repr))
      ensures old(Abs().Ok()) && Abs() == old(Abs()).Reserve(size)
    {
      AbsIsOk();
      if availableSizeToWrite <= size {
        MoveBufferHead();
        RotateHead(old(layout), layout);
        AbsIsOk();
        if availableSizeToWrite <= size {
          DoubleNodes(size);
        }
      }
    }

    /** Double the number of nodes as often as needed. */
    method DoubleNodes(size: nat)
      requires Valid() && availableSizeToWrite <= size
      modifies this
      ensures Valid() && fresh(Repr - old(Repr))
      ensures Abs() == old(Abs()).Grow(size)
    {
      AbsIsOk();
      var idle, writeable := Doublings(|nodes|, availableSizeToWrite, size);
      ByteQueue.GrowByCount(Abs(), size, idle);
      GrowTo(idle, writeable);
    }

    method GrowTo(idle: nat, writeable: int)
      requires Valid() && idle >= |nodes| && writeable == Abs().(cap := idle).Free()
      modifies this
      ensures Valid() && fresh(Repr - old(Repr))
      ensures Abs() == old(Abs()).(cap := idle)
    {
      AbsIsOk();
      AllocMore(idle);
      availableSizeToWrite := writeable;
      CountersAgree();
    }

    /** Twice the nodes, again and again, until more than `size` bytes are free. */
    static method Doublings(count: nat, free: int, size: nat) returns (idle: nat, writeable: int)
      requires 0 < free <= size && free <= Span(count)
      ensures idle == ByteQueue.Doubled(2 * count, Span(count) - free + size)
      ensures idle >= 2 * count && writeable == Span(idle - count) + free
    {
      ghost var need := Span(count) - free + size;
      idle := count * 2;
      writeable := Span(idle - count) + free;
      while writeable <= size
        invariant idle >= 2 * count
        invariant writeable == Span(idle - count) + free
        invariant ByteQueue.Doubled(idle, need) == ByteQueue.Doubled(2 * count, need)
        decreases size - writeable
      {
        idle := idle * 2;
        writeable := Span(idle - count) + free;
      }
    }

    /** Append fresh nodes until there are `length` of them. */
    method AllocMore(length: nat)
      requires Linked() && layout.Ok() && length >= |nodes|
      modifies this`nodes, this`Repr, this`layout
      ensures Linked() && layout.Ok() && fresh(Repr - old(Repr))
      ensures Abs() == old(Abs()).(cap := length)
    {
      ghost var before, extra := layout, [];
      var i := |nodes|;
      while i < length
        invariant |nodes| == i <= length && Linked() && fresh(Repr - old(Repr))
        invariant layout == before.(nodes := before.nodes + extra)
        invariant forall k | 0 <= k < |extra| :: extra[k].Blank()
      {
        AppendNode();
        extra := extra + [layout.nodes[i]];
        i := i + 1;
      }
      AddBlankNodes(before, extra);
    }

    method AppendNode()
      requires Linked()
      modifies this`nodes, this`Repr, this`layout
      ensures Linked() && fresh(Repr - old(Repr)) && |nodes| == old(|nodes|) + 1
      ensures layout == old(layout).(nodes := old(layout).nodes + [layout.nodes[|nodes| - 1]])
      ensures layout.nodes[|nodes| - 1].Blank()
    {
      var node := new BufferNode();
      nodes := nodes + [node];
      Repr := Repr + {node, node.buffer};
      layout := layout.(nodes := layout.nodes + [node.View()]);
    }

    /** Hand the nodes [0, readNode) to the tail, blanked; lemma RotateHead says what that means. */
    method MoveBufferHead()
      requires Linked() && readNode <= |nodes|
      modifies this, Repr
      ensures Linked() && Repr == old(Repr) && RotatedFrom(old(layout), layout)
      ensures nodes == old(nodes[readNode..] + nodes[..readNode])
      ensures availableSizeToRead == old(availableSizeToRead)
      ensures availableSizeToWrite == old(availableSizeToWrite + Span(readNode))
    {
      if readNode == 0 {
        Whole(nodes);
        return;
      }
      ghost var before := layout;
      MoveToTail(readNode);
      Rotation(before, layout);
      availableSizeToWrite := availableSizeToWrite + Span(readNode);
      writeNode := writeNode - readNode;
      readNode := 0;
      layout := layout.(r := readNode, w := writeNode);
    }

    /** Rotate the first `end` nodes behind the others, blanking each of them. */
    method MoveToTail(end: nat)
      requires Linked() && end <= |nodes|
      modifies this`nodes, this`layout, Repr
      ensures nodes == old(nodes[end..] + nodes[..end]) && Linked()
      ensures forall i | 0 <= i < |nodes| - end :: layout.nodes[i] == old(layout).nodes[end + i]
      ensures forall i | |nodes| - end <= i < |nodes| :: layout.nodes[i].Blank()
    {
      nodes := nodes[end..] + nodes[..end];
      layout := layout.(nodes := layout.nodes[end..] + layout.nodes[..end]);
      BlankFrom(|nodes| - end);
    }

    method BlankFrom(k: nat)
      requires Linked() && k <= |nodes|
      modifies this`layout, Repr
      ensures Linked()
      ensures forall j | 0 <= j < k :: layout.nodes[j] == old(layout).nodes[j]
      ensures forall j | k <= j < |nodes| :: layout.nodes[j].Blank()
    {
      ghost var views := layout.nodes;
      var i := k;
      while i < |nodes|
        invariant k <= i <= |nodes| && Linked() && |layout.nodes| == |views|
        invariant forall j | 0 <= j < k :: layout.nodes[j] == views[j]
        invariant forall j | k <= j < i :: layout.nodes[j].Blank()
      {
        Reset(i);
        i := i + 1;
      }
    }

    method Reset(i: nat)
      requires Linked() && i < |nodes|
      modifies this`layout, nodes[i]
      ensures Linked() && layout.nodes[i].Blank()
      ensures layout == old(layout).(nodes := old(layout).nodes[i := layout.nodes[i]])
    {
      nodes[i].start, nodes[i].end := 0, 0;
      layout := layout.(nodes := layout.nodes[i := nodes[i].View()]);
    }

    /** One past the last node that holds unread bytes. */
    function EndOfReadNode(): (end: int)
      requires Linked() && layout.Ok()
      reads this, Repr
      ensures readNode < end <= writeNode + 1
      ensures end <= writeNode ==> end == writeNode && layout.nodes[writeNode].end == 0
    {
      assert layout.NodeOk(writeNode);
      if writeNode == readNode then readNode + 1
      else if nodes[writeNode].end == 0 then writeNode
      else writeNode + 1
    }

    /** All or nothing: the first `length` bytes, or none when there are fewer. */
    method RetrieveRaw(length: nat) returns (buffer: seq<byte>)
      requires Valid()
      modifies this, Repr
      ensures Valid() && Repr == old(Repr)
      ensures (Abs(), buffer) == old(Abs()).Retrieve(length)
    {
      AbsIsOk();
      buffer := [];
      if availableSizeToRead >= length {
        var left;
        buffer, left := TakeAll(length);
        availableSizeToRead := availableSizeToRead - (length - left);
        CountersAgree();
      }
    }

    /** The copying loop: node after node, from the read node on; `left` bytes stay unread. */
    method TakeAll(length: nat) returns (buffer: seq<byte>, left: nat)
      requires Linked() && layout.Ok() && length <= |Abs().contents|
      modifies this`readNode, this`layout, Repr
      ensures Linked() && layout.Ok() && left == 0
      ensures (Abs(), buffer) == old(Abs()).Retrieve(length)
    {
      ghost var t := Abs();
      var endOfRead := EndOfReadNode();
      buffer, left := [], length;
      var it := readNode;
      while left > 0 && it < endOfRead
        invariant Linked() && layout.Ok() && layout.EndsAt(endOfRead) && 0 <= it
        invariant left <= length && (left > 0 ==> it == readNode)
        invariant (Abs(), buffer) == t.Retrieve(length - left)
      {
        buffer, left := TakeRound(it, buffer, left, endOfRead, t, length);
        it := it + 1;
      }
      if left > 0 {
        NothingLeft(layout, endOfRead);
        assert false;
      }
    }

    /** One round of the copying loop. */
    method TakeRound(it: int, buffer: seq<byte>, left: nat, ghost end: int, ghost t: ByteQueue.Tape, ghost length: nat)
        returns (buffer': seq<byte>, left': nat)
      requires Linked() && layout.Ok() && layout.EndsAt(end) && it == readNode
      requires 0 < left <= length <= |t.contents| && (Abs(), buffer) == t.Retrieve(length - left)
      modifies this`readNode, this`layout, Repr
      ensures Linked() && layout.Ok() && layout.EndsAt(end)
      ensures left' <= left && (left' > 0 ==> readNode == it + 1)
      ensures (Abs(), buffer') == t.Retrieve(length - left')
    {
      var chunk := TakeSome(it, left);
      ByteQueue.RetrieveCompose(t, length - left, |chunk|);
      buffer', left' := buffer + chunk, left - |chunk|;
    }

    /** Copy from the read node as much as wanted; move the read index on when the node is used up. */
    method TakeSome(it: int, length: nat) returns (chunk: seq<byte>)
      requires Linked() && layout.Ok() && it == readNode
      requires 0 < length <= |Abs().contents|
      modifies this`readNode, this`layout, Repr
      ensures Linked() && layout.Ok() && |chunk| <= length
      ensures |chunk| == length || readNode == it + 1
      ensures layout.w == old(layout).w && layout.nodes[layout.w].end == old(layout).nodes[layout.w].end
      ensures (Abs(), chunk) == old(Abs()).Retrieve(|chunk|)
    {
      assert layout.NodeOk(it);
      ghost var before := layout;
      var n := nodes[it].end - nodes[it].start;
      n := if n < length then n else length;
      chunk := TakeAndStep(n);
      ByteQueue.TakenIs(before, n, layout);
      ByteQueue.ShortTake(before, n, layout, length);
    }

    method TakeAndStep(n: nat) returns (chunk: seq<byte>)
      requires Linked() && layout.Ok() && n <= |layout.nodes[layout.r].Payload()|
      modifies this`readNode, this`layout, Repr
      ensures Linked() && DrainedFrom(old(layout), n, layout)
      ensures chunk == old(layout).nodes[old(layout).r].Payload()[..n]
    {
      var it := readNode;
      assert layout.NodeOk(it) && layout.NodeOk(writeNode);
      chunk := TakeNode(it, n);
      // A used-up node is never the write node, so the write index stays behind nothing.
      assert nodes[it].start == NODE_SIZE ==> readNode < writeNode;
      if nodes[it].start == NODE_SIZE && readNode + 1 < |nodes| {
        readNode := readNode + 1;
        layout := layout.(r := readNode);
      }
    }

    method TakeNode(i: nat, n: nat) returns (chunk: seq<byte>)
      requires Linked() && i < |nodes| && layout.nodes[i].WellFormed() && n <= |layout.nodes[i].Payload()|
      modifies this`layout, nodes[i]
      ensures Linked() && chunk == old(layout).nodes[i].Payload()[..n]
      ensures layout == old(layout).(nodes := old(layout).nodes[i := old(layout).nodes[i].Drain(n)])
    {
      chunk := nodes[i].Take(n);
      layout := layout.(nodes := layout.nodes[i := nodes[i].View()]);
    }

    // ---------- typed access ----------

    /** The bytes of the machine integer in network order. */
    method WriteInt(kind: TypedBytes.IntKind, value: int)
      requires Valid() && kind.Holds(value)
      modifies this, Repr
      ensures Valid() && fresh(Repr - old(Repr))
      ensures old(Abs().Ok()) && Abs() == old(Abs()).Write(TypedBytes.EncodeInt(kind, value))
    {
      WriteRaw(TypedBytes.EncodeInt(kind, value));
    }

    /** The integer, or 0 when too few bytes are left. */
    method RetrieveInt(kind: TypedBytes.IntKind) returns (value: int)
      requires Valid()
      modifies this, Repr
      ensures Valid() && Repr == old(Repr)
      ensures (Abs(), TypedBytes.Int(kind, value)) == TypedBytes.RetrieveItem(old(Abs()), TypedBytes.IntShape(kind))
    {
      var bytes := RetrieveRaw(kind.width);
      value := if |bytes| == kind.width then TypedBytes.DecodeInt(kind, bytes) else 0;
    }

    method WriteString(value: seq<byte>)
      requires Valid()
      modifies this, Repr
      ensures Valid() && fresh(Repr - old(Repr))
      ensures old(Abs().Ok()) && Abs() == old(Abs()).Write(value)
    {
      WriteRaw(value);
    }

    /** The next `length` bytes, or the empty string when there are fewer. */
    method RetrieveString(length: nat) returns (value: seq<byte>)
      requires Valid()
      modifies this, Repr
      ensures Valid() && Repr == old(Repr)
      ensures (Abs(), TypedBytes.Text(value)) == TypedBytes.RetrieveItem(old(Abs()), TypedBytes.TextShape(length))
    {
      value := RetrieveRaw(length);
    }

    // ---------- what a socket took ----------

    /** Drop `size` bytes that were sent from the front, stepping over nodes by division.
        `defined` is false where the step leaves the list of nodes, which C++ leaves undefined.
        The array survives exactly when `Exact` held before. */
    method Consume(size: nat) returns (defined: bool)
      requires Valid()
      modifies this, Repr
      ensures Repr == old(Repr)
      ensures defined && Valid() <==> old(Exact(layout, size))
      ensures old(Exact(layout, size)) ==> Abs() == old(Abs()).Consume(size)
      ensures availableSizeToRead == old(if size >= availableSizeToRead then 0 else availableSizeToRead - size)
    {
      defined := true;
      if size >= availableSizeToRead {
        DropAll(size);
      } else {
        defined := DropPart(size);
      }
    }

    method DropAll(ghost size: nat)
      requires Valid() && size >= availableSizeToRead
      modifies this, Repr
      ensures Repr == old(Repr) && Valid() && availableSizeToRead == 0
      ensures Abs() == old(Abs()).Consume(size)
    {
      ghost var before := layout;
      SkipAll();
      MoveBufferHead();
      DrainRotated(before, layout, size);
    }

    method DropPart(size: nat) returns (defined: bool)
      requires Valid() && size < availableSizeToRead
      modifies this, Repr
      ensures Repr == old(Repr) && availableSizeToRead == old(availableSizeToRead) - size
      ensures defined && Valid() <==> old(Exact(layout, size))
      ensures old(Exact(layout, size)) ==> Abs() == old(Abs()).Consume(size)
    {
      ghost var before := layout;
      defined := SkipSome(size);
      if defined {
        MoveBufferHead();
        AdvanceRotated(before, size, layout);
      } else if Exact(before, size) {
        AdvanceIsExact(before, size);
      }
    }

    method SkipAll()
      requires Linked() && 0 <= writeNode < |nodes|
      modifies this, Repr
      ensures Repr == old(Repr) && Linked() && nodes == old(nodes)
      ensures layout == Drained(old(layout))
      ensures availableSizeToRead == 0 && availableSizeToWrite == old(availableSizeToWrite)
    {
      readNode := writeNode;
      availableSizeToRead := 0;
      layout := layout.(r := readNode);
      SkipPayload(readNode);
    }

    method SkipSome(size: nat) returns (defined: bool)
      requires Linked()
      modifies this, Repr
      ensures Repr == old(Repr) && nodes == old(nodes)
      ensures defined == (old(readNode) + Jump(size) < |nodes|)
      ensures defined ==> Linked() && layout == old(Advanced(layout, size))
      ensures availableSizeToRead == old(availableSizeToRead) - size
      ensures availableSizeToWrite == old(availableSizeToWrite)
    {
      availableSizeToRead := availableSizeToRead - size;
      var moveForward, left := Steps(size);
      readNode := readNode + moveForward;
      layout := layout.(r := readNode);
      defined := readNode < |nodes|;
      if defined {
        Skip(readNode, left);
      }
    }

    method SkipPayload(i: nat)
      requires Linked() && i < |nodes|
      modifies this`layout, nodes[i]
      ensures Linked()
      ensures var n := old(layout).nodes[i];
              layout == old(layout).(nodes := old(layout).nodes[i := n.(start := n.end)])
    {
      nodes[i].start := nodes[i].end;
      layout := layout.(nodes := layout.nodes[i := nodes[i].View()]);
    }

    /** Whole nodes to step over, and bytes to skip in the node behind them. */
    static method Steps(size: nat) returns (moveForward: nat, left: nat)
      ensures moveForward == Jump(size) && left == Offset(size)
    {
      moveForward, left := size / NODE_SIZE, size % NODE_SIZE;
      moveForward := moveForward + if moveForward != 0 && left != 0 then 1 else 0;
    }

    method Skip(i: nat, n: nat)
      requires Linked() && i < |nodes|
      modifies this`layout, nodes[i]
      ensures Linked() && layout == old(layout).(nodes := old(layout).nodes[i := old(layout).nodes[i].Drain(n)])
    {
      nodes[i].start := nodes[i].start + n;
      layout := layout.(nodes := layout.nodes[i := nodes[i].View()]);
    }

    // ---------- what a socket delivered ----------

    /** Account for `size` bytes a socket put into the writeable memory.  The loop charges each
        node with what is left of `size` after taking off the space that node still has, in
        64-bit arithmetic, and always moves the write index on.  The array survives exactly when
        the bytes fit into a write node that is the last one. */
    method Produce(size: nat)
      requires Valid() && size < TWO_TO_THE_64
      modifies this, Repr
      ensures fresh(Repr - old(Repr))
      ensures Valid() <==> old(writeNode + 1 == |nodes| && size < availableSizeToWrite)
      ensures old(writeNode + 1 == |nodes| && size < availableSizeToWrite) ==>
        && old(Abs().Ok() && layout.nodes[layout.w].WellFormed() && layout.nodes[layout.w].end + size <= NODE_SIZE)
        && Abs() == old(Abs()).Write(old(Delivered(layout.nodes[layout.w], size)))
    {
      AbsIsOk();
      if availableSizeToWrite <= size {
        ByteQueue.ReserveAddsNode(Abs(), size);
        AllocIfNotEnough(size);
        AbsIsOk();
      }
      Account(size);
    }

    method Account(size: nat)
      requires Valid() && size < TWO_TO_THE_64 && size < availableSizeToWrite
      modifies this, Repr
      ensures Repr == old(Repr)
      ensures Valid() <==> old(writeNode + 1 == |nodes|)
      ensures old(writeNode + 1 == |nodes|) ==>
        && old(layout.nodes[layout.w].WellFormed() && layout.nodes[layout.w].end + size <= NODE_SIZE)
        && Abs() == old(Abs()).(contents := old(Abs()).contents + old(Delivered(layout.nodes[layout.w], size)))
    {
      ghost var before := layout;
      ghost var s := AccountNodes(size);
      ChargeIff(before, size, layout, s);
    }

    method AccountNodes(size: nat) returns (ghost rest: nat)
      requires Linked() && layout.Ok() && size < TWO_TO_THE_64
      modifies this, Repr
      ensures Repr == old(Repr) && Linked() && ChargedTo(old(layout), size, layout, |nodes|, rest)
      ensures availableSizeToWrite == old(availableSizeToWrite) - size
      ensures availableSizeToRead == old(availableSizeToRead) + size
    {
      availableSizeToWrite := availableSizeToWrite - size;
      availableSizeToRead := availableSizeToRead + size;
      rest := ChargeAll(size);
    }

    method ChargeAll(size: nat) returns (ghost rest: nat)
      requires Linked() && layout.Ok() && size < TWO_TO_THE_64
      modifies this`writeNode, this`layout, Repr
      ensures Linked() && ChargedTo(old(layout), size, layout, |nodes|, rest)
    {
      ghost var before := layout;
      var s := size;
      var it := writeNode;
      while it < |nodes|
        invariant Linked() && ChargedTo(before, size, layout, it, s)
      {
        s := ChargeRound(it, s, before, size);
        it := it + 1;
      }
      rest := s;
    }

    method ChargeRound(it: int, s: nat, ghost before: Layout, ghost size: nat) returns (s': nat)
      requires Linked() && it < |nodes| && ChargedTo(before, size, layout, it, s)
      modifies this`writeNode, this`layout, Repr
      ensures Linked() && ChargedTo(before, size, layout, it + 1, s')
    {
      ghost var m := layout;
      s' := ChargeNode(it, s);
      if writeNode + 1 < |nodes| {
        writeNode := writeNode + 1;
        layout := layout.(w := writeNode);
      }
      ChargeNext(before, size, m, it, s, layout, s');
    }

    method ChargeNode(it: int, s: nat) returns (s': nat)
      requires Linked() && 0 <= it < |nodes| && s < TWO_TO_THE_64
      modifies this`layout, nodes[it]
      ensures Linked()
      ensures layout == old(layout).(nodes := old(layout).nodes[it := Charged(old(layout).nodes[it], s)])
      ensures s' < TWO_TO_THE_64 && (layout.nodes[it].end == NODE_SIZE ==> s' == s)
    {
      var node := nodes[it];
      node.end := if (node.end + s) % TWO_TO_THE_64 >= NODE_SIZE then NODE_SIZE else (node.end + s) % TWO_TO_THE_64;
      s' := (s - (NODE_SIZE - node.end)) % TWO_TO_THE_64;
      layout := layout.(nodes := layout.nodes[it := node.View()]);
    }
  }
}
