/**
 Typed values on the byte queue: integers of 1, 2, 4 or 8 bytes, signed or not, in network byte
 order, and raw strings of bytes.
 */
module TypedBytes {
  import opened Strings
  import opened QueueLayout
  import opened ByteQueue

  type Width = w: nat | w == 1 || w == 2 || w == 4 || w == 8 witness 1

  datatype IntKind = IntKind(width: Width, signed: bool) {

    /** The values of the machine type. */
    predicate Holds(v: int) {
      if signed then -(Pow256(width) / 2) <= v < Pow256(width) / 2 else 0 <= v < Pow256(width)
    }
  }

  function Pow256(n: nat): (r: nat)
    ensures r > 0 && (n > 0 ==> r % 2 == 0)
  {
    if n == 0 then 1 else 256 * Pow256(n - 1)
  }

  function BigEndian(v: nat, n: nat): (bs: seq<byte>)
    ensures |bs| == n
  {
    if n == 0 then [] else BigEndian(v / 256, n - 1) + [v % 256]
  }

  function FromBigEndian(bs: seq<byte>): nat {
    if bs == [] then 0 else 256 * FromBigEndian(bs[..|bs| - 1]) + bs[|bs| - 1]
  }

  /** The two's complement bytes of a value, highest byte first. */
  function EncodeInt(kind: IntKind, v: int): (bs: seq<byte>)
    requires kind.Holds(v)
    ensures |bs| == kind.width
  {
    BigEndian(if v < 0 then v + Pow256(kind.width) else v, kind.width)
  }

  function DecodeInt(kind: IntKind, bs: seq<byte>): int
    requires |bs| == kind.width
  {
    var u := FromBigEndian(bs);
    if kind.signed && u >= Pow256(kind.width) / 2 then u - Pow256(kind.width) else u
  }

  lemma {:induction false} BigEndianRoundTrip(v: nat, n: nat)
    requires v < Pow256(n)
    ensures FromBigEndian(BigEndian(v, n)) == v
  {
    if n > 0 {
      BigEndianRoundTrip(v / 256, n - 1);
      var bs := BigEndian(v, n);
      assert bs[..n - 1] == BigEndian(v / 256, n - 1);
    }
  }

  lemma QuotientIs(a: nat, d: nat, q: nat, r: nat)
    requires d > 0 && a == d * q + r && r < d
    ensures a / d == q
  {
    var k, m := a / d, a % d;
    assert a == d * k + m;
    assert d * (k - q) == r - m by {
      Distribute(d, k, q);
    }
    NoMultiple(d, k - q);
  }

  lemma Distribute(d: int, k: int, q: int)
    ensures d * (k - q) == d * k - d * q
  {
  }

  lemma NoMultiple(d: int, k: int)
    requires d > 0 && -d < d * k < d
    ensures k == 0
  {
  }

  lemma DivideTwice(v: nat, p: nat)
    requires p > 0
    ensures v / 256 / p == v / (256 * p)
  {
    var q, s := v / 256 / p, v / 256 % p;
    assert v / 256 == p * q + s;
    assert (256 * p) * q == 256 * (p * q);
    QuotientIs(v, 256 * p, q, 256 * s + v % 256);
  }

  /** The highest byte comes first. */
  lemma {:induction false} ByteAt(v: nat, n: nat, i: nat)
    requires i < n
    ensures BigEndian(v, n)[i] == v / Pow256(n - 1 - i) % 256
  {
    if i < n - 1 {
      ByteAt(v / 256, n - 1, i);
      DivideTwice(v, Pow256(n - 2 - i));
    } else {
      assert Pow256(0) == 1 && v / 1 == v;
    }
  }

  /** The four sizes have the ranges of the machine types. */
  lemma MachineRanges()
    ensures Pow256(1) == 0x100 && Pow256(2) == 0x1_0000 && Pow256(4) == 0x1_0000_0000
    ensures Pow256(8) == 0x1_0000_0000_0000_0000
  {
    assert Pow256(3) == 0x100_0000;
    assert Pow256(5) == 0x100_0000_0000 && Pow256(6) == 0x1_0000_0000_0000 && Pow256(7) == 0x100_0000_0000_0000;
  }

  lemma IntRoundTrip(kind: IntKind, v: int)
    requires kind.Holds(v)
    ensures DecodeInt(kind, EncodeInt(kind, v)) == v
  {
    BigEndianRoundTrip(if v < 0 then v + Pow256(kind.width) else v, kind.width);
  }

  /** Two's complement, the highest byte first. */
  lemma EncodedByteAt(kind: IntKind, v: int, i: nat)
    requires kind.Holds(v) && i < kind.width
    ensures EncodeInt(kind, v)[i] == (v % Pow256(kind.width)) / Pow256(kind.width - 1 - i) % 256
  {
    var m := Pow256(kind.width);
    var u := if v < 0 then v + m else v;
    Remainder(v, m);
    ByteAt(u, kind.width, i);
  }

  lemma Remainder(v: int, m: int)
    requires m > 0 && -m <= v < m
    ensures v % m == if v < 0 then v + m else v
  {
    var q, r := v / m, v % m;
    assert v == m * q + r;
    var k := if v < 0 then -1 else 0;
    assert m * k == if v < 0 then -m else 0;
    Distribute(m, q, k);
    NoMultiple(m, q - k);
  }

  // ---------- sequences of typed values ----------

  datatype Item = Int(kind: IntKind, value: int) | Text(bytes: seq<byte>) {

    predicate Fits() {
      Int? ==> kind.Holds(value)
    }

    function Encode(): seq<byte>
      requires Fits()
    {
      match this
      case Int(kind, v) => EncodeInt(kind, v)
      case Text(bytes) => bytes
    }

    /** What the reader has to know beforehand. */
    function Shape(): Shape {
      match this
      case Int(kind, _) => IntShape(kind)
      case Text(bytes) => TextShape(|bytes|)
    }
  }

  datatype Shape = IntShape(kind: IntKind) | TextShape(length: nat)

  /** One typed read; a queue that is too short yields 0, or the empty string. */
  function RetrieveItem(t: Tape, shape: Shape): (Tape, Item) {
    match shape
    case IntShape(kind) =>
      var (t', bs) := t.Retrieve(kind.width);
      (t', Int(kind, if |bs| == kind.width then DecodeInt(kind, bs) else 0))
    case TextShape(length) =>
      var (t', bs) := t.Retrieve(length);
      (t', Text(bs))
  }

  function ShapeLength(shape: Shape): nat {
    match shape
    case IntShape(kind) => kind.width
    case TextShape(length) => length
  }

  /** A read of more than there is takes nothing; any other takes its bytes. */
  lemma ReadIsAllOrNothing(t: Tape, shape: Shape)
    ensures |t.contents| < ShapeLength(shape) ==>
      RetrieveItem(t, shape) == (t, if shape.IntShape? then Int(shape.kind, 0) else Text([]))
    ensures |t.contents| >= ShapeLength(shape) ==>
      RetrieveItem(t, shape).0.contents == t.contents[ShapeLength(shape)..] && RetrieveItem(t, shape).1.Shape() == shape
  {
  }

  ghost function WriteItems(t: Tape, items: seq<Item>): Tape
    requires t.Ok() && forall i | 0 <= i < |items| :: items[i].Fits()
    decreases |items|
  {
    if items == [] then t
    else
      ReserveIsEnough(t, |items[0].Encode()|);
      WriteItems(t.Write(items[0].Encode()), items[1..])
  }

  ghost function RetrieveItems(t: Tape, shapes: seq<Shape>): (Tape, seq<Item>)
    decreases |shapes|
  {
    if shapes == [] then (t, [])
    else
      var (t1, item) := RetrieveItem(t, shapes[0]);
      var (t2, rest) := RetrieveItems(t1, shapes[1..]);
      (t2, [item] + rest)
  }

  ghost function Encodings(items: seq<Item>): seq<byte>
    requires forall i | 0 <= i < |items| :: items[i].Fits()
  {
    if items == [] then [] else items[0].Encode() + Encodings(items[1..])
  }

  ghost function Shapes(items: seq<Item>): seq<Shape> {
    if items == [] then [] else [items[0].Shape()] + Shapes(items[1..])
  }

  lemma {:induction false} WritesConcatenate(t: Tape, items: seq<Item>)
    requires t.Ok() && forall i | 0 <= i < |items| :: items[i].Fits()
    ensures WriteItems(t, items).contents == t.contents + Encodings(items)
    decreases |items|
  {
    if items == [] {
      assert t.contents + [] == t.contents;
    } else {
      ReserveIsEnough(t, |items[0].Encode()|);
      WritesConcatenate(t.Write(items[0].Encode()), items[1..]);
      Assoc(t.contents, items[0].Encode(), Encodings(items[1..]));
    }
  }

  lemma RetrieveOne(t: Tape, item: Item, rest: seq<byte>)
    requires item.Fits() && t.contents == item.Encode() + rest
    ensures RetrieveItem(t, item.Shape()).1 == item
    ensures RetrieveItem(t, item.Shape()).0.contents == rest
  {
    DropFromFirst(item.Encode(), rest, |item.Encode()|);
    if item.Int? {
      IntRoundTrip(item.kind, item.value);
    }
  }

  lemma {:induction false} ReadsInvertEncodings(t: Tape, items: seq<Item>, rest: seq<byte>)
    requires forall i | 0 <= i < |items| :: items[i].Fits()
    requires t.contents == Encodings(items) + rest
    ensures RetrieveItems(t, Shapes(items)).1 == items
    ensures RetrieveItems(t, Shapes(items)).0.contents == rest
    decreases |items|
  {
    if items != [] {
      Assoc(items[0].Encode(), Encodings(items[1..]), rest);
      RetrieveOne(t, items[0], Encodings(items[1..]) + rest);
      var t1 := RetrieveItem(t, items[0].Shape()).0;
      ReadsInvertEncodings(t1, items[1..], rest);
      assert Shapes(items)[1..] == Shapes(items[1..]);
      assert items == [items[0]] + items[1..];
    }
  }

  /** Any sequence of typed writes is read back unchanged, in order, once the bytes that were in front
      of them have been read. */
  lemma TypedRoundTrip(t: Tape, items: seq<Item>)
    requires t.Ok() && forall i | 0 <= i < |items| :: items[i].Fits()
    ensures var (behind, front) := WriteItems(t, items).Retrieve(|t.contents|);
            && front == t.contents
            && RetrieveItems(behind, Shapes(items)).1 == items
            && RetrieveItems(behind, Shapes(items)).0.contents == []
  {
    WritesConcatenate(t, items);
    Cut(t.contents, Encodings(items));
    var (behind, front) := WriteItems(t, items).Retrieve(|t.contents|);
    Nil(Encodings(items));
    ReadsInvertEncodings(behind, items, []);
  }

  // ---------- typed reads and writes in any order ----------

  datatype TypedOp = Put(item: Item) | Get(shape: Shape)

  predicate AllFit(items: seq<Item>) {
    forall i | 0 <= i < |items| :: items[i].Fits()
  }

  /** Writer and reader agree: each read asks for the shape of the oldest item not read yet. */
  predicate Agree(unread: seq<Item>, ops: seq<TypedOp>)
    decreases |ops|
  {
    ops == [] || match ops[0]
      case Put(item) => item.Fits() && Agree(unread + [item], ops[1..])
      case Get(shape) => unread != [] && unread[0].Shape() == shape && Agree(unread[1..], ops[1..])
  }

  /** The tape after the operations, and the items that were read. */
  ghost function RunTyped(t: Tape, ops: seq<TypedOp>): (Tape, seq<Item>)
    requires t.Ok() && forall i | 0 <= i < |ops| :: ops[i].Put? ==> ops[i].item.Fits()
    decreases |ops|
  {
    if ops == [] then (t, [])
    else
      match ops[0]
      case Put(item) =>
        ReserveIsEnough(t, |item.Encode()|);
        RunTyped(t.Write(item.Encode()), ops[1..])
      case Get(shape) =>
        var (t1, item) := RetrieveItem(t, shape);
        var (t2, rest) := RunTyped(t1, ops[1..]);
        (t2, [item] + rest)
  }

  ghost function Puts(ops: seq<TypedOp>): seq<Item> {
    if ops == [] then [] else (if ops[0].Put? then [ops[0].item] else []) + Puts(ops[1..])
  }

  lemma {:induction false} AgreeFits(unread: seq<Item>, ops: seq<TypedOp>)
    requires Agree(unread, ops)
    ensures forall i | 0 <= i < |ops| :: ops[i].Put? ==> ops[i].item.Fits()
    decreases |ops|
  {
    if ops != [] {
      AgreeFits(if ops[0].Put? then unread + [ops[0].item] else unread[1..], ops[1..]);
      assert forall i | 0 < i < |ops| :: ops[i] == ops[1..][i - 1];
    }
  }

  lemma {:induction false} EncodingsConcat(a: seq<Item>, b: seq<Item>)
    requires AllFit(a) && AllFit(b)
    ensures AllFit(a + b) && Encodings(a + b) == Encodings(a) + Encodings(b)
  {
    if a == [] {
      Nil(b);
      Nil(Encodings(b));
    } else {
      assert (a + b)[1..] == a[1..] + b;
      EncodingsConcat(a[1..], b);
      Assoc(a[0].Encode(), Encodings(a[1..]), Encodings(b));
    }
  }

  lemma EncodingsOne(item: Item)
    requires item.Fits()
    ensures Encodings([item]) == item.Encode()
  {
    Nil(item.Encode());
    assert [item][1..] == [];
  }

  /** The items put in and not read yet. */
  function Unread(unread: seq<Item>, ops: seq<TypedOp>): seq<Item>
    requires Agree(unread, ops)
    decreases |ops|
  {
    if ops == [] then unread
    else Unread(if ops[0].Put? then unread + [ops[0].item] else unread[1..], ops[1..])
  }

  /** As long as both sides agree, items come out as they went in, first in, first out, however reads
      and writes alternate: what was read, then what is unread, is what was put in. */
  lemma {:induction false} TypedRunIsFifo(t: Tape, unread: seq<Item>, ops: seq<TypedOp>)
    requires t.Ok() && AllFit(unread) && t.contents == Encodings(unread) && Agree(unread, ops)
    ensures forall i | 0 <= i < |ops| :: ops[i].Put? ==> ops[i].item.Fits()
    ensures AllFit(Unread(unread, ops)) && RunTyped(t, ops).0.contents == Encodings(Unread(unread, ops))
    ensures RunTyped(t, ops).1 + Unread(unread, ops) == unread + Puts(ops)
    decreases |ops|
  {
    AgreeFits(unread, ops);
    if ops == [] {
      Nil(unread);
    } else if ops[0].Put? {
      TypedPut(t, unread, ops);
    } else {
      TypedGet(t, unread, ops);
    }
  }

  lemma TypedPut(t: Tape, unread: seq<Item>, ops: seq<TypedOp>)
    requires t.Ok() && AllFit(unread) && t.contents == Encodings(unread) && Agree(unread, ops)
    requires forall i | 0 <= i < |ops| :: ops[i].Put? ==> ops[i].item.Fits()
    requires ops != [] && ops[0].Put?
    ensures AllFit(Unread(unread, ops)) && RunTyped(t, ops).0.contents == Encodings(Unread(unread, ops))
    ensures RunTyped(t, ops).1 + Unread(unread, ops) == unread + Puts(ops)
    decreases |ops|, 0
  {
    var item := ops[0].item;
    ReserveIsEnough(t, |item.Encode()|);
    EncodingsOne(item);
    EncodingsConcat(unread, [item]);
    TypedRunIsFifo(t.Write(item.Encode()), unread + [item], ops[1..]);
    Assoc(unread, [item], Puts(ops[1..]));
  }

  lemma TypedGet(t: Tape, unread: seq<Item>, ops: seq<TypedOp>)
    requires t.Ok() && AllFit(unread) && t.contents == Encodings(unread) && Agree(unread, ops)
    requires forall i | 0 <= i < |ops| :: ops[i].Put? ==> ops[i].item.Fits()
    requires ops != [] && ops[0].Get?
    ensures AllFit(Unread(unread, ops)) && RunTyped(t, ops).0.contents == Encodings(Unread(unread, ops))
    ensures RunTyped(t, ops).1 + Unread(unread, ops) == unread + Puts(ops)
    decreases |ops|, 0
  {
    RetrieveOne(t, unread[0], Encodings(unread[1..]));
    var (t1, item) := RetrieveItem(t, ops[0].shape);
    TypedRunIsFifo(t1, unread[1..], ops[1..]);
    var rest := RunTyped(t1, ops[1..]).1;
    Assoc([item], rest, Unread(unread[1..], ops[1..]));
    Assoc([item], unread[1..], Puts(ops[1..]));
    Nil(Puts(ops[1..]));
    assert [unread[0]] + unread[1..] == unread;
  }
}
