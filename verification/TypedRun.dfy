/**
 Runs of typed writes and reads on a byte array.
 */
module TypedRuns {
  import opened QueueLayout
  import opened TypedBytes
  import opened ByteArrays
  import ByteQueue

  method PutItem(b: ByteArray, item: Item)
    requires b.Valid() && item.Fits()
    modifies b, b.Repr
    ensures b.Valid() && fresh(b.Repr - old(b.Repr))
    ensures old(b.Abs().Ok()) && b.Abs() == old(b.Abs()).Write(item.Encode())
  {
    match item
    case Int(kind, value) => b.WriteInt(kind, value);
    case Text(bytes) => b.WriteString(bytes);
  }

  /** Too short an array yields 0, or the empty string. */
  method GetItem(b: ByteArray, shape: Shape) returns (item: Item)
    requires b.Valid()
    modifies b, b.Repr
    ensures b.Valid() && b.Repr == old(b.Repr)
    ensures (b.Abs(), item) == RetrieveItem(old(b.Abs()), shape)
  {
    match shape
    case IntShape(kind) =>
      var value := b.RetrieveInt(kind);
      item := Int(kind, value);
    case TextShape(length) =>
      var bytes := b.RetrieveString(length);
      item := Text(bytes);
  }

  /** Any typed writes and reads, whether both sides agree or not: the items that come out are those of the
      plain queue. */
  method DoTyped(b: ByteArray, ops: seq<TypedOp>) returns (items: seq<Item>)
    requires b.Valid() && forall i | 0 <= i < |ops| :: ops[i].Put? ==> ops[i].item.Fits()
    modifies b, b.Repr
    ensures b.Valid() && fresh(b.Repr - old(b.Repr))
    ensures old(b.Abs().Ok()) && (b.Abs(), items) == RunTyped(old(b.Abs()), ops)
    decreases |ops|
  {
    b.AbsIsOk();
    items := [];
    if ops != [] {
      match ops[0]
      case Put(item) =>
        PutItem(b, item);
        items := DoTyped(b, ops[1..]);
      case Get(shape) =>
        var item := GetItem(b, shape);
        var rest := DoTyped(b, ops[1..]);
        items := [item] + rest;
    }
  }

  /** Both sides agree, from any array that holds the items not read yet: items come out as they went in,
      first in, first out, and the array holds the others. */
  method RunAll(b: ByteArray, ghost unread: seq<Item>, ops: seq<TypedOp>) returns (items: seq<Item>)
    requires b.Valid() && AllFit(unread) && b.Abs().contents == Encodings(unread) && Agree(unread, ops)
    modifies b, b.Repr
    ensures b.Valid() && items + Unread(unread, ops) == unread + Puts(ops)
    ensures AllFit(Unread(unread, ops)) && b.Abs().contents == Encodings(Unread(unread, ops))
  {
    b.AbsIsOk();
    TypedRunIsFifo(b.Abs(), unread, ops);
    items := DoTyped(b, ops);
  }

  /** The same on a new array. */
  method RunNew(ops: seq<TypedOp>) returns (b: ByteArray, items: seq<Item>)
    requires Agree([], ops)
    ensures b.Valid() && items + Unread([], ops) == Puts(ops)
    ensures AllFit(Unread([], ops)) && b.Abs().contents == Encodings(Unread([], ops))
  {
    b := new ByteArray();
    items := RunAll(b, [], ops);
  }
}
