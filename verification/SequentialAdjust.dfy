/**
 Accounting for sent bytes over several byte arrays, one after the other.
 */
module SequentialAdjust {
  import opened Strings
  import opened QueueLayout
  import opened QueueConsume
  import opened ByteArrays
  import opened SocketIO

  // ---------- on layouts ----------

  function Least(a: int, b: int): int {
    if a < b then a else b
  }

  /** The first `size` bytes are gone, or all when there were not so many. */
  ghost predicate Dropped(l: Layout, size: nat, l': Layout) {
    l.Ok() && l'.Ok() && l'.Contents() == l.Contents()[Least(size, |l.Contents()|)..]
  }

  /** The arrays are emptied in turn, up to the one that still holds more than is to be dropped: there
      dropping must be exact. */
  ghost predicate ExactFrom(ls: seq<Layout>, i: nat, size: nat)
    requires AllOk(ls)
    decreases |ls| - i
  {
    if i >= |ls| then true
    else if size >= ls[i].Readable() then size == ls[i].Readable() || ExactFrom(ls, i + 1, size - ls[i].Readable())
    else Exact(ls[i], size)
  }

  ghost function ReadableFrom(ls: seq<Layout>, i: nat): int
    requires AllOk(ls)
    decreases |ls| - i
  {
    if i >= |ls| then 0 else ls[i].Readable() + ReadableFrom(ls, i + 1)
  }

  lemma {:induction false} ReadableIsLength(ls: seq<Layout>, i: nat)
    requires AllOk(ls)
    ensures ReadableFrom(ls, i) == |ContentsFrom(ls, i)|
    decreases |ls| - i
  {
    if i < |ls| {
      ReadableIsLength(ls, i + 1);
      CountersAreSums(ls[i]);
    }
  }

  /** The first i layouts have been emptied; the others are as before. */
  ghost predicate Emptied(ls: seq<Layout>, ms: seq<Layout>, i: nat) {
    && |ms| == |ls| && AllOk(ls) && AllOk(ms) && i <= |ls|
    && (forall j | 0 <= j < i :: ms[j].Contents() == [])
    && (forall j | i <= j < |ls| :: Same(ms[j], ls[j]))
  }

  lemma {:induction false} SameFrom(ls: seq<Layout>, ms: seq<Layout>, i: nat)
    requires |ms| == |ls| && AllOk(ls) && AllOk(ms) && forall j | i <= j < |ls| :: Same(ms[j], ls[j])
    ensures Same(ContentsFrom(ms, i), ContentsFrom(ls, i))
    decreases |ls| - i
  {
    if i < |ls| {
      SameFrom(ls, ms, i + 1);
    }
  }

  lemma NothingInFront(nothing: seq<byte>, x: seq<byte>)
    requires |nothing| == 0
    ensures Same(nothing + x, x)
  {
    assert nothing + x == x;
  }

  lemma {:induction false} EmptyBefore(ms: seq<Layout>, k: nat, i: nat)
    requires AllOk(ms) && k <= i <= |ms| && forall j | 0 <= j < i :: ms[j].Contents() == []
    ensures Same(ContentsFrom(ms, k), ContentsFrom(ms, i))
    decreases i - k
  {
    if k < i {
      EmptyBefore(ms, k + 1, i);
      EmptyHere(ms, k);
    }
  }

  lemma EmptyHere(ms: seq<Layout>, k: nat)
    requires AllOk(ms) && k < |ms| && |ms[k].Contents()| == 0
    ensures Same(ContentsFrom(ms, k), ContentsFrom(ms, k + 1))
  {
    NothingInFront(ms[k].Contents(), ContentsFrom(ms, k + 1));
  }

  /** After `done` bytes, what is left of all contents starts at layout i. */
  ghost predicate RestFrom(ls: seq<Layout>, i: nat, done: nat)
    requires AllOk(ls)
  {
    done <= |ContentsFrom(ls, 0)| && Same(ContentsFrom(ls, 0)[done..], ContentsFrom(ls, i))
  }

  lemma RestNext(ls: seq<Layout>, i: nat, done: nat)
    requires AllOk(ls) && i < |ls| && RestFrom(ls, i, done)
    ensures RestFrom(ls, i + 1, done + |ls[i].Contents()|)
  {
    DropTwice(ContentsFrom(ls, 0), done, ls[i].Contents(), ContentsFrom(ls, i + 1));
  }

  lemma DropPart(a: seq<byte>, b: seq<byte>, n: nat, all: seq<byte>, done: nat)
    requires n <= |a| && done <= |all| && all[done..] == a + b
    ensures done + n <= |all| && Same(all[done + n..], a[n..] + b)
  {
    DropFromFirst(a, b, n);
    assert all[done..][n..] == all[done + n..];
  }

  lemma DroppedPart(l: Layout, left: nat, l': Layout)
    requires l.Ok() && left <= l.Readable() && Dropped(l, left, l')
    ensures left <= |l.Contents()| && Same(l'.Contents(), l.Contents()[left..])
  {
    CountersAreSums(l);
  }

  lemma DropRest(ls: seq<Layout>, i: nat, done: nat, left: nat, size: nat)
    requires AllOk(ls) && i < |ls| && RestFrom(ls, i, done) && size == done + left && left <= |ls[i].Contents()|
    ensures size <= |ContentsFrom(ls, 0)|
    ensures Same(ContentsFrom(ls, 0)[size..], ls[i].Contents()[left..] + ContentsFrom(ls, i + 1))
  {
    DropPart(ls[i].Contents(), ContentsFrom(ls, i + 1), left, ContentsFrom(ls, 0), done);
  }

  lemma NewContents(ls: seq<Layout>, ms: seq<Layout>, i: nat, l': Layout)
    requires Emptied(ls, ms, i) && i < |ls| && l'.Ok()
    ensures AllOk(ms[i := l'])
    ensures Same(ContentsFrom(ms[i := l'], 0), l'.Contents() + ContentsFrom(ls, i + 1))
  {
    var ns := ms[i := l'];
    EmptyBefore(ns, 0, i);
    SameFrom(ls, ns, i + 1);
  }

  /** The layout that still held something gives up the last bytes. */
  lemma DroppedAt(ls: seq<Layout>, ms: seq<Layout>, i: nat, done: nat, left: nat, size: nat, l': Layout)
    requires Emptied(ls, ms, i) && i < |ls| && RestFrom(ls, i, done) && size == done + left
    requires left <= ls[i].Readable() && Dropped(ls[i], left, l')
    ensures AllOk(ms[i := l']) && size <= |ContentsFrom(ls, 0)|
    ensures Same(ContentsFrom(ms[i := l'], 0), ContentsFrom(ls, 0)[size..])
  {
    DroppedPart(ls[i], left, l');
    DropRest(ls, i, done, left, size);
    NewContents(ls, ms, i, l');
  }

  // ---------- the loop, on layouts ----------

  /** Before round i, with `left` of `size` bytes still to be dropped. */
  ghost predicate Progress(ls: seq<Layout>, ms: seq<Layout>, i: nat, left: nat, size: nat) {
    && Emptied(ls, ms, i) && left <= size && RestFrom(ls, i, size - left)
    && ExactFrom(ls, 0, size) == ExactFrom(ls, i, left)
  }

  ghost predicate AllDropped(ls: seq<Layout>, ms: seq<Layout>, size: nat)
    requires AllOk(ls)
  {
    AllOk(ms) && Same(ContentsFrom(ms, 0), ContentsFrom(ls, 0)[Least(size, |ContentsFrom(ls, 0)|)..])
  }

  lemma StartProgress(ls: seq<Layout>, size: nat)
    requires AllOk(ls)
    ensures Progress(ls, ls, 0, size, size)
  {
    assert ContentsFrom(ls, 0)[0..] == ContentsFrom(ls, 0);
  }

  lemma EmptiedMore(ls: seq<Layout>, ms: seq<Layout>, i: nat, left: nat, l': Layout)
    requires Emptied(ls, ms, i) && i < |ls| && left >= ls[i].Readable() && Dropped(ls[i], left, l')
    ensures Emptied(ls, ms[i := l'], i + 1)
  {
    CountersAreSums(ls[i]);
  }

  lemma NextRest(ls: seq<Layout>, i: nat, left: nat, size: nat)
    requires AllOk(ls) && i < |ls| && left <= size && RestFrom(ls, i, size - left) && left > ls[i].Readable()
    ensures 0 <= ls[i].Readable() && RestFrom(ls, i + 1, size - (left - ls[i].Readable()))
  {
    CountersAreSums(ls[i]);
    RestNext(ls, i, size - left);
  }

  lemma NextProgress(ls: seq<Layout>, ms: seq<Layout>, i: nat, left: nat, size: nat, l': Layout)
    requires Progress(ls, ms, i, left, size) && i < |ls| && left > ls[i].Readable() && Dropped(ls[i], left, l')
    ensures ls[i].Readable() >= 0 && Progress(ls, ms[i := l'], i + 1, left - ls[i].Readable(), size)
  {
    EmptiedMore(ls, ms, i, left, l');
    NextRest(ls, i, left, size);
  }

  lemma StopProgress(ls: seq<Layout>, ms: seq<Layout>, i: nat, left: nat, size: nat, l': Layout)
    requires Progress(ls, ms, i, left, size) && i < |ls| && left <= ls[i].Readable() && Dropped(ls[i], left, l')
    ensures AllDropped(ls, ms[i := l'], size)
  {
    DroppedAt(ls, ms, i, size - left, left, size, l');
  }

  lemma ExactAtStop(ls: seq<Layout>, ms: seq<Layout>, i: nat, left: nat, size: nat)
    requires Progress(ls, ms, i, left, size) && i < |ls| && left <= ls[i].Readable()
    ensures ExactFrom(ls, 0, size) == Exact(ls[i], left)
  {
    assert ls[i].Ok();
  }

  lemma RestIsNothing(ls: seq<Layout>, done: nat)
    requires AllOk(ls) && RestFrom(ls, |ls|, done)
    ensures done == |ContentsFrom(ls, 0)|
  {
  }

  lemma EndProgress(ls: seq<Layout>, ms: seq<Layout>, left: nat, size: nat)
    requires Progress(ls, ms, |ls|, left, size)
    ensures AllDropped(ls, ms, size) && ExactFrom(ls, 0, size)
    ensures ReadableFrom(ls, 0) == size - left
  {
    RestIsNothing(ls, size - left);
    EmptyBefore(ms, 0, |ls|);
    ReadableIsLength(ls, 0);
    assert ContentsFrom(ms, |ls|) == [];
    assert ContentsFrom(ls, 0)[|ContentsFrom(ls, 0)|..] == [];
  }

  lemma DoneSoFar(ls: seq<Layout>, ms: seq<Layout>, i: nat, left: nat, size: nat)
    requires Progress(ls, ms, i, left, size)
    ensures ReadableFrom(ls, 0) == size - left + ReadableFrom(ls, i)
  {
    ReadableIsLength(ls, 0);
    ReadableIsLength(ls, i);
  }

  // ---------- counters ----------

  ghost function SumFrom(counts: seq<int>, i: nat): int
    decreases |counts| - i
  {
    if i >= |counts| then 0 else counts[i] + SumFrom(counts, i + 1)
  }

  lemma {:induction false} ZeroPrefix(a: seq<int>, i: nat, k: nat)
    requires i <= k <= |a| && forall j | i <= j < k :: a[j] == 0
    ensures SumFrom(a, i) == SumFrom(a, k)
    decreases k - i
  {
    if i < k {
      ZeroPrefix(a, i + 1, k);
    }
  }

  lemma {:induction false} SumIsReadable(a: seq<int>, ls: seq<Layout>, i: nat)
    requires |a| == |ls| && AllOk(ls) && forall j | i <= j < |a| :: a[j] == ls[j].Readable()
    ensures SumFrom(a, i) == ReadableFrom(ls, i)
    decreases |a| - i
  {
    if i < |a| {
      SumIsReadable(a, ls, i + 1);
    }
  }

  /** The counters once layouts before i are emptied and layout i has v bytes left. */
  lemma SumAt(a: seq<int>, ls: seq<Layout>, i: nat)
    requires |a| == |ls| && AllOk(ls) && i < |a|
    requires forall j | 0 <= j < i :: a[j] == 0
    requires forall j | i < j < |a| :: a[j] == ls[j].Readable()
    ensures SumFrom(a, 0) == a[i] + ReadableFrom(ls, i + 1)
  {
    ZeroPrefix(a, 0, i);
    SumIsReadable(a, ls, i + 1);
  }

  lemma EmptiedCounts(a: seq<int>, ls: seq<Layout>, ms: seq<Layout>, i: nat)
    requires Emptied(ls, ms, i) && |a| == |ls| && forall j | 0 <= j < i :: a[j] == ms[j].Readable()
    ensures forall j | 0 <= j < i :: a[j] == 0
  {
    forall j | 0 <= j < i ensures a[j] == 0 {
      CountersAreSums(ms[j]);
      assert ms[j].Contents() == [];
    }
  }

  /** The counters when the loop stops in round i. */
  lemma CountsAtStop(a: seq<int>, ls: seq<Layout>, ms: seq<Layout>, i: nat, left: nat, size: nat)
    requires Progress(ls, ms, i, left, size) && i < |ls| == |a| && left <= ls[i].Readable()
    requires forall j | 0 <= j < |a| && j != i :: a[j] == ms[j].Readable()
    requires a[i] == ls[i].Readable() - left
    ensures SumFrom(a, 0) == ReadableFrom(ls, 0) - Least(size, ReadableFrom(ls, 0))
  {
    EmptiedCounts(a, ls, ms, i);
    SumAt(a, ls, i);
    DoneSoFar(ls, ms, i, left, size);
    ReadableIsLength(ls, i + 1);
  }

  lemma CountsAtEnd(a: seq<int>, ls: seq<Layout>, ms: seq<Layout>, left: nat, size: nat)
    requires Progress(ls, ms, |ls|, left, size) && |a| == |ls|
    requires forall j | 0 <= j < |a| :: a[j] == ms[j].Readable()
    ensures SumFrom(a, 0) == ReadableFrom(ls, 0) - Least(size, ReadableFrom(ls, 0))
  {
    EmptiedCounts(a, ls, ms, |ls|);
    ZeroPrefix(a, 0, |ls|);
    EndProgress(ls, ms, left, size);
  }

  // ---------- on the arrays ----------

  ghost function Counts(bs: seq<ByteArray>): (counts: seq<int>)
    reads bs
    ensures |counts| == |bs| && forall i | 0 <= i < |bs| :: counts[i] == bs[i].availableSizeToRead
  {
    seq(|bs|, i requires 0 <= i < |bs| reads bs => bs[i].availableSizeToRead)
  }

  ghost predicate AllValid(bs: seq<ByteArray>)
    reads bs, set i, o | 0 <= i < |bs| && o in bs[i].Repr :: o
  {
    forall i | 0 <= i < |bs| :: bs[i].Valid()
  }

  ghost predicate Own(bs: seq<ByteArray>, reprs: seq<set<object>>)
    reads bs
  {
    |reprs| == |bs| && forall i | 0 <= i < |bs| :: bs[i].Repr == reprs[i]
  }

  /** Array i and its parts are none of the other arrays or their parts. */
  ghost predicate Apart(bs: seq<ByteArray>, reprs: seq<set<object>>, i: nat)
    requires i < |bs| && |bs| == |reprs|
  {
    forall j | 0 <= j < |bs| && j != i ::
      bs[j] != bs[i] && reprs[j] !! reprs[i] && bs[i] !in reprs[j] && bs[j] !in reprs[i]
  }

  ghost predicate Separate(bs: seq<ByteArray>, reprs: seq<set<object>>) {
    |bs| == |reprs| && forall i | 0 <= i < |bs| :: Apart(bs, reprs, i)
  }

  ghost predicate Within(bs: seq<ByteArray>, reprs: seq<set<object>>, parts: set<object>) {
    |bs| == |reprs| && forall i | 0 <= i < |bs| :: bs[i] in parts && reprs[i] <= parts
  }

  /** One array loses up to `size` bytes, rightly exactly when `Exact` holds; the others do not notice. */
  method ConsumeAt(bs: seq<ByteArray>, i: nat, size: nat, ghost reprs: seq<set<object>>, ghost ls: seq<Layout>)
      returns (defined: bool)
    requires InState(bs, ls) && Own(bs, reprs) && i < |bs| && Apart(bs, reprs, i)
    modifies bs[i], reprs[i]
    ensures Own(bs, reprs)
    ensures forall j | 0 <= j < |bs| && j != i :: bs[j].Valid() && Same(bs[j].layout, ls[j])
    ensures bs[i].availableSizeToRead == ls[i].Readable() - Least(size, ls[i].Readable())
    ensures defined && bs[i].Valid() <==> Exact(ls[i], size)
    ensures Exact(ls[i], size) ==> Dropped(ls[i], size, bs[i].layout)
  {
    CountersAreSums(ls[i]);
    defined := bs[i].Consume(size);
  }

  /** One round of the loop of `AdjustAll`. */
  method AdjustOne(bs: seq<ByteArray>, i: nat, size: nat, ghost reprs: seq<set<object>>, ghost ls: seq<Layout>)
      returns (defined: bool, left: nat, ghost l': Layout)
    requires InState(bs, ls) && Own(bs, reprs) && i < |bs| && Apart(bs, reprs, i)
    modifies bs[i], reprs[i]
    ensures Own(bs, reprs)
    ensures left == if size >= ls[i].Readable() then size - ls[i].Readable() else 0
    ensures Exact(ls[i], size) ==> defined && InState(bs, ls[i := l']) && Dropped(ls[i], size, l')
    ensures !Exact(ls[i], size) ==> !(defined && AllValid(bs))
    ensures forall j | 0 <= j < |bs| && j != i :: bs[j].availableSizeToRead == ls[j].Readable()
    ensures bs[i].availableSizeToRead == ls[i].Readable() - Least(size, ls[i].Readable())
  {
    var n := bs[i].availableSizeToRead;
    left := if size >= n then size - n else 0;
    defined := ConsumeAt(bs, i, size, reprs, ls);
    l' := bs[i].layout;
  }

  /** What accounting for `size` bytes has done: together the arrays have lost exactly the first
      `size` bytes, or all, when `ExactFrom` holds, and otherwise an array is broken; the counters
      have gone down by as much in any case. */
  ghost predicate Finished(bs: seq<ByteArray>, ls: seq<Layout>, ms: seq<Layout>, size: nat, defined: bool)
    requires AllOk(ls)
    reads bs, set i, o | 0 <= i < |bs| && o in bs[i].Repr :: o
  {
    && (ExactFrom(ls, 0, size) ==> defined && InState(bs, ms) && AllDropped(ls, ms, size))
    && (!ExactFrom(ls, 0, size) ==> !(defined && AllValid(bs)))
    && SumFrom(Counts(bs), 0) == ReadableFrom(ls, 0) - Least(size, ReadableFrom(ls, 0))
  }

  /** One round: the array gives up what it has, or the last bytes. */
  method Round(bs: seq<ByteArray>, i: nat, left: nat, ghost size: nat, ghost reprs: seq<set<object>>,
               ghost ls: seq<Layout>, ghost ms: seq<Layout>)
      returns (defined: bool, left': nat, ghost ms': seq<Layout>)
    requires InState(bs, ms) && Own(bs, reprs) && i < |bs| && Apart(bs, reprs, i)
    requires Progress(ls, ms, i, left, size)
    modifies bs[i], reprs[i]
    ensures Own(bs, reprs)
    ensures left' > 0 ==> defined && InState(bs, ms') && Progress(ls, ms', i + 1, left', size)
    ensures left' == 0 ==> Finished(bs, ls, ms', size, defined)
  {
    ghost var l';
    assert Same(ms[i], ls[i]);
    defined, left', l' := AdjustOne(bs, i, left, reprs, ms);
    ms' := ms[i := l'];
    if left' > 0 {
      NextProgress(ls, ms, i, left, size, l');
    } else {
      ExactAtStop(ls, ms, i, left, size);
      if Exact(ls[i], left) {
        StopProgress(ls, ms, i, left, size, l');
      }
      CountsAtStop(Counts(bs), ls, ms, i, left, size);
    }
  }

  /** Every array in turn gives up what it has, until `size` bytes are accounted for. */
  method AdjustAll(bs: seq<ByteArray>, size: nat, ghost reprs: seq<set<object>>, ghost ls: seq<Layout>,
                   ghost parts: set<object>)
      returns (defined: bool, ghost ms: seq<Layout>)
    requires InState(bs, ls) && Own(bs, reprs) && Separate(bs, reprs) && Within(bs, reprs, parts)
    modifies parts
    ensures Finished(bs, ls, ms, size, defined)
  {
    defined, ms := true, ls;
    var i, left := 0, size;
    StartProgress(ls, size);
    while i < |bs|
      invariant 0 <= i <= |bs| && defined
      invariant InState(bs, ms) && Own(bs, reprs) && Progress(ls, ms, i, left, size)
    {
      defined, left, ms := Round(bs, i, left, size, reprs, ls, ms);
      if left <= 0 {
        return;
      }
      i := i + 1;
    }
    EndProgress(ls, ms, left, size);
    CountsAtEnd(Counts(bs), ls, ms, left, size);
  }

  // ---------- the adapter ----------

  method Entries(bs: seq<ByteArray>, ghost ls: seq<Layout>) returns (slots: nat, vec: seq<IoVec>)
    requires InState(bs, ls)
    ensures slots == SumNodes(bs, 0) == SumLengths(ls, 0) && |vec| <= slots
    ensures AllInRange(vec) && Joined(vec) == ContentsFrom(ls, 0)
  {
    slots := CountNodes(bs);
    SumsAgree(bs, ls, 0);
    vec := [];
    if slots != 0 {
      ghost var chunks;
      vec, chunks := GatherAll(bs, ls);
      HoldJoined(vec, chunks);
    } else {
      NoNodesNoArrays(ls);
    }
  }

  /** Bytes waiting in several arrays, as one gather list. */
  class SequentialByteArrayReader {
    const buffers: seq<ByteArray>
    var vec: seq<IoVec>
    var slots: nat

    constructor (bs: seq<ByteArray>, ghost ls: seq<Layout>)
      requires InState(bs, ls)
      ensures buffers == bs && slots == SumLengths(ls, 0) && |vec| <= slots
      ensures AllInRange(vec) && Joined(vec) == ContentsFrom(ls, 0)
    {
      buffers := bs;
      var n, entries := Entries(bs, ls);
      slots, vec := n, entries;
    }

    /** What all of them hold. */
    method AvailableBytes(ghost ls: seq<Layout>) returns (length: int)
      requires InState(buffers, ls)
      ensures length == |ContentsFrom(ls, 0)|
    {
      length := 0;
      for i := 0 to |buffers|
        invariant length + ReadableFrom(ls, i) == ReadableFrom(ls, 0)
      {
        assert Same(buffers[i].layout, ls[i]);
        length := length + buffers[i].availableSizeToRead;
      }
      ReadableIsLength(ls, 0);
    }

    /** After `size` bytes were sent. */
    method AdjustByteArray(size: nat, ghost reprs: seq<set<object>>, ghost ls: seq<Layout>, ghost parts: set<object>)
        returns (defined: bool, ghost ms: seq<Layout>)
      requires InState(buffers, ls) && Own(buffers, reprs) && Separate(buffers, reprs)
      requires Within(buffers, reprs, parts)
      modifies parts
      ensures Finished(buffers, ls, ms, size, defined)
    {
      defined, ms := AdjustAll(buffers, size, reprs, ls, parts);
    }
  }
}
