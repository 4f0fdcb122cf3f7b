/**
 The time wheel: buckets of entries in a ring, and a hand that moves one bucket a tick.

 What it stands for are the countdown timers of module Timers; the ring only makes a tick cheap.
 */
module TimeWheels {
  import opened Timers

  // ---------- the hand ----------

  /** The ticks until the hand gets to a bucket. */
  function Distance(index: nat, hand: nat, n: nat): (ticks: nat)
    requires index < n && hand < n
    ensures 1 <= ticks <= n
  {
    if index > hand then index - hand else index - hand + n
  }

  function Next(index: nat, n: nat): (next: nat)
    requires index < n
    ensures next < n
  {
    if index + 1 == n then 0 else index + 1
  }

  function Latest(hand: nat, n: nat): (latest: nat)
    requires hand < n
    ensures latest < n && Distance(latest, hand, n) == Full(n)
  {
    if hand == 0 then n - 1 else hand - 1
  }

  // ---------- the ring on values ----------

  /** Every entry is in the bucket named by its place, and nowhere else. */
  ghost predicate Ring(buckets: seq<set<Entry>>, places: map<Entry, nat>) {
    && (forall e | e in places :: places[e] < |buckets| && e in buckets[places[e]])
    && (forall i, e | 0 <= i < |buckets| && e in buckets[i] :: e in places && places[e] == i)
  }

  ghost function TimersOf(places: map<Entry, nat>, hand: nat, n: nat): (timers: map<Entry, nat>)
    requires hand < n && forall e | e in places :: places[e] < n
    ensures timers.Keys == places.Keys
  {
    map e | e in places :: Distance(places[e], hand, n)
  }

  lemma RingPut(buckets: seq<set<Entry>>, places: map<Entry, nat>, e: Entry, i: nat)
    requires Ring(buckets, places) && e !in places && i < |buckets|
    ensures Ring(buckets[i := buckets[i] + {e}], places[e := i])
  {
  }

  lemma RingTake(buckets: seq<set<Entry>>, places: map<Entry, nat>, e: Entry)
    requires Ring(buckets, places) && e in places
    ensures Ring(buckets[places[e] := buckets[places[e]] - {e}], places - {e})
  {
  }

  lemma TimersPut(places: map<Entry, nat>, e: Entry, hand: nat, n: nat)
    requires hand < n && forall x | x in places :: places[x] < n
    ensures TimersOf(places[e := Latest(hand, n)], hand, n) == TimersOf(places, hand, n)[e := Full(n)]
  {
  }

  lemma TimersTake(places: map<Entry, nat>, e: Entry, hand: nat, n: nat)
    requires hand < n && forall x | x in places :: places[x] < n
    ensures TimersOf(places - {e}, hand, n) == TimersOf(places, hand, n) - {e}
  {
  }

  lemma TimersReplace(timers: map<Entry, nat>, e: Entry, ticks: nat)
    ensures (timers - {e})[e := ticks] == timers[e := ticks]
    ensures e in timers && timers[e] == ticks ==> timers[e := ticks] == timers
  {
  }

  lemma LatestIsFull(index: nat, hand: nat, n: nat)
    requires index < n && hand < n && Next(index, n) == hand
    ensures Distance(index, hand, n) == Full(n)
  {
  }

  /** The hand moves to the next bucket: every countdown is one lower there. */
  lemma HandMoves(places: map<Entry, nat>, hand: nat, n: nat)
    requires hand < n && forall e | e in places :: places[e] < n
    ensures TimersOf(places, Next(hand, n), n) == Moved(TimersOf(places, hand, n), n)
  {
  }

  lemma FiringBucket(buckets: seq<set<Entry>>, places: map<Entry, nat>, hand: nat)
    requires Ring(buckets, places) && hand < |buckets|
    ensures buckets[Next(hand, |buckets|)] == Fires(TimersOf(places, hand, |buckets|))
  {
  }

  lemma OnlyLatestIsFull(index: nat, hand: nat, n: nat)
    requires index < n && hand < n
    ensures Distance(index, hand, n) == Full(n) <==> index == Latest(hand, n)
  {
  }

  lemma SameAgain(buckets: seq<set<Entry>>, places: map<Entry, nat>, e: Entry)
    requires Ring(buckets, places) && e in places
    ensures buckets[places[e] := buckets[places[e]] + {e}] == buckets && places[e := places[e]] == places
  {
    assert buckets[places[e]] + {e} == buckets[places[e]];
  }

  lemma InOneBucket(buckets: seq<set<Entry>>, places: map<Entry, nat>, e: Entry, i: nat, j: nat)
    requires i < |buckets| && j < |buckets| && e in buckets[i] && e in buckets[j] && Ring(buckets, places)
    ensures i == j
  {
    assert places[e] == i && places[e] == j;
  }

  /** Putting an entry into the latest bucket is right unless it is in another one. */
  lemma AddedRing(buckets: seq<set<Entry>>, places: map<Entry, nat>, hand: nat, e: Entry, latest: nat)
    requires Ring(buckets, places) && hand < |buckets| && latest == Latest(hand, |buckets|)
    ensures Ring(buckets[latest := buckets[latest] + {e}], places[e := latest])
       <==> Allowed(TimersOf(places, hand, |buckets|), Add(e), |buckets|)
  {
    if e !in places {
      RingPut(buckets, places, e, latest);
    } else {
      OnlyLatestIsFull(places[e], hand, |buckets|);
      if places[e] == latest {
        SameAgain(buckets, places, e);
      } else if Ring(buckets[latest := buckets[latest] + {e}], places[e := latest]) {
        InOneBucket(buckets[latest := buckets[latest] + {e}], places[e := latest], e, places[e], latest);
      }
    }
  }

  // ---------- entries that wait to be erased ----------

  /** The buckets without the entries under the hand that wait to be erased. */
  ghost function Settled(buckets: seq<set<Entry>>, hand: nat, waiting: set<Entry>): (settled: seq<set<Entry>>)
    ensures |settled| == |buckets|
    ensures waiting == {} ==> settled == buckets
  {
    if hand < |buckets| then
      assert waiting == {} ==> buckets[hand] - waiting == buckets[hand];
      buckets[hand := buckets[hand] - waiting]
    else buckets
  }

  lemma SettledPut(buckets: seq<set<Entry>>, hand: nat, waiting: set<Entry>, i: nat, e: Entry)
    requires i < |buckets| && (i == hand ==> waiting == {})
    ensures Settled(buckets[i := buckets[i] + {e}], hand, waiting)
         == Settled(buckets, hand, waiting)[i := Settled(buckets, hand, waiting)[i] + {e}]
  {
  }

  lemma SettledTake(buckets: seq<set<Entry>>, hand: nat, waiting: set<Entry>, i: nat, e: Entry)
    requires i < |buckets|
    ensures Settled(buckets[i := buckets[i] - {e}], hand, waiting)
         == Settled(buckets, hand, waiting)[i := Settled(buckets, hand, waiting)[i] - {e}]
  {
    assert i == hand ==> (buckets[i] - {e}) - waiting == (buckets[i] - waiting) - {e};
  }

  /** What is in a bucket and does not wait is in the wheel. */
  lemma SettledHas(buckets: seq<set<Entry>>, places: map<Entry, nat>, hand: nat, waiting: set<Entry>, e: Entry, i: nat)
    requires Ring(Settled(buckets, hand, waiting), places) && i < |buckets| && e in buckets[i]
    requires e in waiting ==> e in places
    ensures e in places
  {
    assert e !in waiting ==> e in Settled(buckets, hand, waiting)[i];
  }

  lemma InItsBucket(buckets: seq<set<Entry>>, places: map<Entry, nat>, hand: nat, waiting: set<Entry>, e: Entry)
    requires Ring(Settled(buckets, hand, waiting), places) && e in places
    ensures places[e] < |buckets| && e in buckets[places[e]]
  {
  }

  /** An entry is in one bucket only, or under the hand as well when it waits there. */
  lemma ElsewhereNot(buckets: seq<set<Entry>>, places: map<Entry, nat>, hand: nat, waiting: set<Entry>, e: Entry)
    requires Ring(Settled(buckets, hand, waiting), places) && e in places && hand < |buckets|
    ensures forall i | 0 <= i < |buckets| && i != places[e] && e in buckets[i] :: i == hand && e in waiting
    ensures places[e] == hand ==> e !in waiting
  {
    forall i | 0 <= i < |buckets| && i != places[e] && e in buckets[i] ensures i == hand && e in waiting {
      assert e !in Settled(buckets, hand, waiting)[i];
    }
  }

  lemma NotThere(buckets: seq<set<Entry>>, places: map<Entry, nat>, hand: nat, waiting: set<Entry>, e: Entry, i: nat)
    requires Ring(Settled(buckets, hand, waiting), places) && i < |buckets| && e !in buckets[i]
    requires e in places ==> places[e] == i
    ensures e !in places && forall timers: map<Entry, nat> | timers.Keys == places.Keys :: timers - {e} == timers
  {
    if e in places {
      InItsBucket(buckets, places, hand, waiting, e);
    }
  }

  lemma AddedSettled(buckets: seq<set<Entry>>, places: map<Entry, nat>, hand: nat, waiting: set<Entry>, e: Entry,
                     latest: nat)
    requires Ring(Settled(buckets, hand, waiting), places) && hand < |buckets| && latest == Latest(hand, |buckets|)
    requires waiting != {} ==> |buckets| > 1
    ensures Ring(Settled(buckets[latest := buckets[latest] + {e}], hand, waiting), places[e := latest])
       <==> Allowed(TimersOf(places, hand, |buckets|), Add(e), |buckets|)
    ensures TimersOf(places[e := latest], hand, |buckets|) == TimersOf(places, hand, |buckets|)[e := Full(|buckets|)]
  {
    AddedRing(Settled(buckets, hand, waiting), places, hand, e, latest);
    SettledPut(buckets, hand, waiting, latest, e);
    TimersPut(places, e, hand, |buckets|);
  }

  lemma TakenSettled(buckets: seq<set<Entry>>, places: map<Entry, nat>, hand: nat, waiting: set<Entry>, e: Entry)
    requires Ring(Settled(buckets, hand, waiting), places) && hand < |buckets| && e in places
    ensures places[e] < |buckets|
    ensures Ring(Settled(buckets[places[e] := buckets[places[e]] - {e}], hand, waiting), places - {e})
    ensures TimersOf(places - {e}, hand, |buckets|) == TimersOf(places, hand, |buckets|) - {e}
    ensures waiting <= buckets[hand] ==> waiting <= buckets[places[e] := buckets[places[e]] - {e}][hand]
  {
    RingTake(Settled(buckets, hand, waiting), places, e);
    SettledTake(buckets, hand, waiting, places[e], e);
    TimersTake(places, e, hand, |buckets|);
    assert places[e] == hand ==> e in Settled(buckets, hand, waiting)[hand];
  }

  lemma SettledErase(buckets: seq<set<Entry>>, hand: nat, waiting: set<Entry>, e: Entry)
    requires hand < |buckets| && e in waiting
    ensures Settled(buckets[hand := buckets[hand] - {e}], hand, waiting - {e}) == Settled(buckets, hand, waiting)
  {
    assert (buckets[hand] - {e}) - (waiting - {e}) == buckets[hand] - waiting;
  }

  /** Entries under the hand that wait are gone already. */
  lemma RingLeave(buckets: seq<set<Entry>>, places: map<Entry, nat>, hand: nat, waiting: set<Entry>)
    requires Ring(buckets, places) && hand < |buckets| && waiting <= buckets[hand]
    ensures Ring(Settled(buckets, hand, waiting), places - waiting)
    ensures TimersOf(places - waiting, hand, |buckets|) == TimersOf(places, hand, |buckets|) - waiting
  {
    var b, p := Settled(buckets, hand, waiting), places - waiting;
    forall e | e in p ensures p[e] < |b| && e in b[p[e]] {
      assert e in places;
    }
    forall k, e | 0 <= k < |b| && e in b[k] ensures e in p && p[e] == k {
      assert e in buckets[k];
      assert places[e] == k;
    }
  }

  /** What a tick starts with, on values. */
  lemma RingTick(buckets: seq<set<Entry>>, places: map<Entry, nat>, hand: nat)
    requires Ring(buckets, places) && hand < |buckets|
    ensures var next, timers := Next(hand, |buckets|), TimersOf(places, hand, |buckets|);
            buckets[next] == Fires(timers) && TimersOf(places, next, |buckets|) == Moved(timers, |buckets|)
  {
    FiringBucket(buckets, places, hand);
    HandMoves(places, hand, |buckets|);
  }

  // ---------- the wheel ----------

  /** An operation, the timers it met, and whether C++ defines what it does. */
  datatype Failure = Failure(timers: map<Entry, nat>, op: Op, defined: bool)

  class TimeWheel {
    const bucketSize: nat
    var hand: nat
    var buckets: seq<set<Entry>>
    /** The entries in the wheel and the index each holds. */
    ghost var places: map<Entry, nat>
    /** During a tick, the entries under the hand that are erased when their timeouts are over. */
    ghost var waiting: set<Entry>

    ghost predicate Valid()
      reads this, places.Keys
    {
      && |buckets| == bucketSize && (bucketSize > 0 ==> hand < bucketSize && waiting <= buckets[hand])
      && Ring(Settled(buckets, hand, waiting), places)
      && forall e | e in places :: e.indexInWheel == places[e]
    }

    /** What the wheel stands for. */
    ghost function Timers(): (timers: map<Entry, nat>)
      requires Valid()
      reads this, places.Keys
      ensures timers.Keys == places.Keys
    {
      if bucketSize == 0 then map[] else TimersOf(places, hand, bucketSize)
    }

    constructor (bucketCount: nat)
      ensures Valid() && bucketSize == bucketCount && Timers() == map[] && waiting == {}
    {
      bucketSize := bucketCount;
      hand := 0;
      buckets := seq(bucketCount, _ => {});
      places, waiting := map[], {};
    }

    /** A wheel without buckets takes nothing.  An entry whose timer is running down gets into a second
        bucket: then this is no wheel any more. */
    method AddToWheel(entry: Entry)
      requires Valid() && (waiting != {} ==> bucketSize > 1)
      modifies `buckets, `places, entry`indexInWheel
      ensures Valid() <==> old(bucketSize == 0 || Allowed(Timers(), Add(entry), bucketSize))
      ensures Valid() ==>
        Timers() == if bucketSize == 0 then old(Timers()) else old(Timers())[entry := Full(bucketSize)]
      ensures bucketSize > 0 ==> entry.indexInWheel < bucketSize
      ensures bucketSize > 1 ==> UnderHand() == old(UnderHand())
    {
      if bucketSize != 0 {
        var latestIndex := if hand == 0 then bucketSize - 1 else hand - 1;
        AddedSettled(buckets, places, hand, waiting, entry, latestIndex);
        Insert(entry, latestIndex);
      }
    }

    method Insert(entry: Entry, i: nat)
      requires |buckets| == bucketSize && i < bucketSize && hand < bucketSize && waiting <= buckets[hand]
      requires forall e | e in places :: e.indexInWheel == places[e]
      modifies `buckets, `places, entry`indexInWheel
      ensures buckets == old(buckets)[i := old(buckets)[i] + {entry}] && places == old(places)[entry := i]
      ensures forall e | e in places :: e.indexInWheel == places[e]
      ensures waiting <= buckets[hand] && entry.indexInWheel < bucketSize
      ensures i != hand ==> UnderHand() == old(UnderHand())
    {
      entry.indexInWheel := i;
      buckets := buckets[i := buckets[i] + {entry}];
      places := places[entry := i];
    }

    /** The bucket the hand is at. */
    ghost function UnderHand(): set<Entry>
      reads `hand, `buckets
    {
      if hand < |buckets| then buckets[hand] else {}
    }

    /** An entry that is gone (null) or not in the wheel is ignored. */
    method RemoveFromWheel(entry: Entry?)
      requires Valid() && (entry != null ==> entry.indexInWheel < bucketSize)
      requires entry != null && entry in waiting ==> entry in places
      modifies `buckets, `places
      ensures Valid()
      ensures Timers() == if entry == null then old(Timers()) else old(Timers()) - {entry}
      ensures (entry != null && entry in old(Timers()) && old(Timers())[entry] == bucketSize)
           || UnderHand() == old(UnderHand())
    {
      if entry != null {
        var index := entry.indexInWheel;
        if entry in buckets[index] {
          SettledHas(buckets, places, hand, waiting, entry, index);
          TakenSettled(buckets, places, hand, waiting, entry);
          buckets := buckets[index := buckets[index] - {entry}];
          places := places - {entry};
        } else {
          NotThere(buckets, places, hand, waiting, entry, index);
        }
      }
    }

    /** An entry in the latest bucket is left where it is: its timer is full already.  Any other is moved, and
        one that is in no bucket is erased from one all the same, which C++ leaves undefined. */
    method Renew(entry: Entry?) returns (defined: bool)
      requires Valid() && (entry != null && bucketSize != 0 ==> entry.indexInWheel < bucketSize)
      requires entry != null && entry in waiting ==> entry in places
      modifies `buckets, `places, (if entry != null then {entry} else {})`indexInWheel
      ensures Valid()
      ensures defined <==> old(entry == null || bucketSize == 0 || entry in places
                               || Next(entry.indexInWheel, bucketSize) == hand)
      ensures Timers() == if entry == null || bucketSize == 0 || entry !in old(places) then old(Timers())
                          else old(Timers())[entry := Full(bucketSize)]
      ensures entry != null && bucketSize > 0 ==> entry.indexInWheel < bucketSize
      ensures (entry != null && entry in old(Timers()) && old(Timers())[entry] == bucketSize > 1)
           || UnderHand() == old(UnderHand())
    {
      defined := true;
      if entry != null && bucketSize != 0 {
        var index := entry.indexInWheel;
        var nextIndex := if index + 1 == bucketSize then 0 else index + 1;
        if nextIndex != hand {
          defined := entry in buckets[index];
          if defined {
            SettledHas(buckets, places, hand, waiting, entry, index);
            MoveToLatest(entry);
          } else {
            NotThere(buckets, places, hand, waiting, entry, index);
          }
        } else {
          LatestIsFull(index, hand, bucketSize);
          TimersReplace(Timers(), entry, Full(bucketSize));
        }
      }
    }

    method MoveToLatest(entry: Entry)
      requires Valid() && bucketSize > 1 && entry in places
      modifies `buckets, `places, entry`indexInWheel
      ensures Valid() && Timers() == old(Timers())[entry := Full(bucketSize)]
      ensures entry.indexInWheel < bucketSize
      ensures old(Timers())[entry] == bucketSize || UnderHand() == old(UnderHand())
    {
      TimersReplace(Timers(), entry, Full(bucketSize));
      RemoveFromWheel(entry);
      AddToWheel(entry);
    }

    // ---------- one operation ----------

    /** Operations keep the order of things only where they are allowed: then the wheel does what its timers
        do, and otherwise it breaks, does something else, or leaves what C++ defines. */
    method Perform(op: Op) returns (defined: bool)
      requires Valid() && bucketSize > 0 && !op.TickOp? && op.entry.indexInWheel < bucketSize
      requires waiting != {} ==> Clear(Timers(), op, bucketSize, waiting)
      modifies `buckets, `places, op.entry`indexInWheel
      ensures defined && Valid() && Timers() == Apply(old(Timers()), op, bucketSize)
         <==> old(Allowed(Timers(), op, bucketSize))
      ensures op.entry.indexInWheel < bucketSize
      ensures old(Clear(Timers(), op, bucketSize, waiting)) ==> UnderHand() == old(UnderHand())
    {
      defined := true;
      match op
      case Add(e) => AddToWheel(e);
      case Remove(e) => RemoveFromWheel(e);
      case RenewOp(e) => defined := Renew(e);
    }

    /** During a tick, what is under the hand and is to be erased waits. */
    ghost predicate Walking()
      reads `hand, `buckets, `waiting
    {
      waiting == Erased(UnderHand())
    }

    /** Whoever uses the wheel can tell beforehand. */
    method CanPerform(op: Op, walking: bool) returns (ok: bool)
      requires Valid() && bucketSize > 0 && !op.TickOp? && op.entry.indexInWheel < bucketSize
      requires if walking then Walking() && Clear(Timers(), op, bucketSize, waiting) else waiting == {}
      ensures ok <==> Allowed(Timers(), op, bucketSize)
    {
      match op
      case Add(e) => ok := CanAdd(e, walking);
      case Remove(e) => ok := true;
      case RenewOp(e) =>
        ok := e in buckets[e.indexInWheel];
        if ok {
          SettledHas(buckets, places, hand, waiting, e, e.indexInWheel);
        } else {
          NotThere(buckets, places, hand, waiting, e, e.indexInWheel);
        }
    }

    /** The entry is in no bucket but the latest, or it is under the hand and will be erased there. */
    method CanAdd(e: Entry, walking: bool) returns (ok: bool)
      requires Valid() && bucketSize > 0 && if walking then Walking() else waiting == {}
      ensures ok <==> Allowed(Timers(), Add(e), bucketSize)
    {
      var latestIndex := if hand == 0 then bucketSize - 1 else hand - 1;
      ok := forall i | 0 <= i < bucketSize && i != latestIndex ::
        e in buckets[i] ==> walking && i == hand && e.eraseOnTimeout;
      if e in places {
        InItsBucket(buckets, places, hand, waiting, e);
        OnlyLatestIsFull(places[e], hand, bucketSize);
        ElsewhereNot(buckets, places, hand, waiting, e);
      } else {
        forall i | 0 <= i < bucketSize && e in buckets[i] ensures i == hand && e in waiting {
          assert e in Settled(buckets, hand, waiting)[i] || e in waiting;
        }
      }
    }

    // ---------- a tick ----------

    ghost predicate Indexed(entries: set<Entry>)
      reads entries
    {
      forall e | e in entries :: e.indexInWheel < bucketSize
    }

    /** An operation was not allowed, and the wheel has not done what its timers do. */
    ghost predicate FailedAt(f: Failure)
      reads this, places.Keys
    {
      && bucketSize > 0 && !Allowed(f.timers, f.op, bucketSize)
      && !(f.defined && Valid() && Timers() == Apply(f.timers, f.op, bucketSize))
    }

    /** What a timeout does, up to the first operation that is not allowed. */
    method PerformAll(ops: seq<Op>, ghost entries: set<Entry>) returns (ok: bool, ghost f: Failure)
      requires Valid() && bucketSize > 0 && Walking() && Acts(ops, entries) && Indexed(entries)
      requires OpsClear(Timers(), ops, bucketSize, waiting)
      modifies `buckets, `places, entries`indexInWheel
      ensures ok <==> old(AllAllowed(Timers(), ops, bucketSize))
      ensures ok ==> Valid() && Timers() == Run(old(Timers()), ops, bucketSize) && Indexed(entries)
      ensures ok ==> UnderHand() == old(UnderHand())
      ensures !ok ==> FailedAt(f)
      decreases |ops|
    {
      ok, f := true, Failure(map[], TickOp, true);
      if ops != [] {
        assert ops[0] in ops;
        ghost var timers := Timers();
        ok := CanPerform(ops[0], true);
        var defined := Perform(ops[0]);
        if ok {
          ok, f := PerformAll(ops[1..], entries);
        } else {
          f := Failure(timers, ops[0], defined);
        }
      }
    }

    /** The hand moves on to the bucket that times out; from here on what is to be erased in it waits. */
    method MoveHand()
      requires Valid() && bucketSize > 0 && waiting == {}
      modifies `hand, `places, `waiting
      ensures Valid() && Walking() && UnderHand() == Fires(old(Timers()))
      ensures Timers() == Ticked(old(Timers()), bucketSize)
    {
      RingTick(buckets, places, hand);
      ghost var next := Next(hand, bucketSize);
      RingLeave(buckets, places, next, Erased(buckets[next]));
      hand := hand + 1;
      if hand == bucketSize {
        hand := 0;
      }
      assert hand == next;
      waiting := Erased(buckets[hand]);
      places := places - waiting;
    }

    /** An entry under the hand times out: what it does is done, and then the entry is erased or kept. */
    method TimeOut(entry: Entry, ops: seq<Op>, ghost entries: set<Entry>) returns (ok: bool, ghost f: Failure)
      requires Valid() && bucketSize > 0 && Walking() && entry in UnderHand()
      requires Acts(ops, entries) && Indexed(entries) && OpsClear(Timers(), ops, bucketSize, waiting)
      modifies `buckets, `places, `waiting, entries`indexInWheel
      ensures ok <==> old(AllAllowed(Timers(), ops, bucketSize))
      ensures ok ==> Valid() && Timers() == Run(old(Timers()), ops, bucketSize) && Indexed(entries)
      ensures ok ==> Walking() && UnderHand() == old(UnderHand()) - Erased({entry})
      ensures ok ==> waiting == old(waiting) - Erased({entry})
      ensures !ok ==> FailedAt(f)
    {
      ok, f := PerformAll(ops, entries);
      if ok {
        assert Erased({entry}) == if entry.eraseOnTimeout then {entry} else {};
        if entry.eraseOnTimeout {
          SettledErase(buckets, hand, waiting, entry);
          buckets := buckets[hand := buckets[hand] - {entry}];
          waiting := waiting - {entry};
        }
      }
    }

    /** Before the timeout of entry i: those from i on are under the hand, and wait when they are to be erased. */
    ghost predicate AtEntry(order: seq<Entry>, i: nat)
      requires i <= |order|
      reads `hand, `buckets, `waiting
    {
      Walking() && waiting == Erased(Listed(order[i..])) && forall k | i <= k < |order| :: order[k] in UnderHand()
    }

    method NextTimeOut(ghost timers: map<Entry, nat>, order: seq<Entry>, call: Entry -> seq<Op>, i: nat,
                       ghost entries: set<Entry>)
        returns (ok: bool, ghost f: Failure)
      requires Valid() && bucketSize > 0 && Indexed(entries) && i < |order| && AtEntry(order, i)
      requires (forall j, k | 0 <= j < k < |order| :: order[j] != order[k]) && Acts(call(order[i]), entries)
      requires TickUnderway(timers, order, call, bucketSize, i, Timers())
      modifies `buckets, `places, `waiting, entries`indexInWheel
      ensures ok ==> Valid() && Indexed(entries) && AtEntry(order, i + 1)
      ensures ok ==> TickUnderway(timers, order, call, bucketSize, i + 1, Timers())
      ensures !ok ==> FailedAt(f) && !AllAllowed(Ticked(timers, bucketSize), Calls(order, call), bucketSize)
    {
      CallNext(timers, order, call, bucketSize, i, Timers());
      WaitingNext(order, i);
      ok, f := TimeOut(order[i], call(order[i]), entries);
    }

    method TimeOutAll(ghost timers: map<Entry, nat>, order: seq<Entry>, call: Entry -> seq<Op>,
                      ghost entries: set<Entry>)
        returns (fired: set<Entry>, ok: bool, ghost f: Failure)
      requires Valid() && bucketSize > 0 && Indexed(entries) && AtEntry(order, 0)
      requires (forall j, k | 0 <= j < k < |order| :: order[j] != order[k])
      requires forall e | e in order :: Acts(call(e), entries)
      requires TickUnderway(timers, order, call, bucketSize, 0, Timers())
      modifies `buckets, `places, `waiting, entries`indexInWheel
      ensures ok ==> Valid() && Indexed(entries) && AtEntry(order, |order|) && fired == Listed(order)
      ensures ok ==> TickUnderway(timers, order, call, bucketSize, |order|, Timers())
      ensures !ok ==> FailedAt(f) && !AllAllowed(Ticked(timers, bucketSize), Calls(order, call), bucketSize)
    {
      fired, ok, f := {}, true, Failure(map[], TickOp, true);
      for i := 0 to |order|
        invariant Valid() && Indexed(entries) && AtEntry(order, i) && fired == Listed(order[..i]) && ok
        invariant TickUnderway(timers, order, call, bucketSize, i, Timers())
      {
        ok, f := NextTimeOut(timers, order, call, i, entries);
        if !ok {
          return;
        }
        ListNext(order, i);
        fired := fired + {order[i]};
      }
      assert order[..|order|] == order;
    }

    /** The hand moves on and its bucket times out, in the order the hash set is walked; `call` says what
        each entry's timeout does to the wheel, which is nothing to the bucket being walked.  When all that is
        allowed, exactly the entries whose timers come to an end fire, and then the timeouts' doings are done;
        otherwise the first operation that is not allowed fails. */
    method Tick(order: seq<Entry>, call: Entry -> seq<Op>, ghost entries: set<Entry>)
        returns (fired: set<Entry>, ok: bool, ghost f: Failure)
      requires Valid() && bucketSize > 0 && waiting == {} && Indexed(entries)
      requires Walks(Timers(), order, call, bucketSize) && forall e | e in order :: Acts(call(e), entries)
      modifies `hand, `buckets, `places, `waiting, entries`indexInWheel
      ensures ok <==> AllAllowed(Ticked(old(Timers()), bucketSize), Calls(order, call), bucketSize)
      ensures ok ==> Valid() && waiting == {} && Indexed(entries) && fired == Fires(old(Timers()))
      ensures ok ==> Timers() == Run(Ticked(old(Timers()), bucketSize), Calls(order, call), bucketSize)
      ensures !ok ==> FailedAt(f)
    {
      ghost var timers := Timers();
      TickStarts(timers, order, call, bucketSize);
      MoveHand();
      StartsAtEntry(order);
      fired, ok, f := TimeOutAll(timers, order, call, entries);
      if ok {
        TickEnds(timers, order, call, bucketSize, Timers());
      }
    }

    lemma StartsAtEntry(order: seq<Entry>)
      requires Walking() && Listed(order) == UnderHand()
      ensures AtEntry(order, 0)
    {
      assert order[0..] == order;
      assert forall k | 0 <= k < |order| :: order[k] in Listed(order);
    }
  }
}
