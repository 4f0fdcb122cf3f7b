/**
 Runs of copy-on-write links, with any number of iterators open side by side.

 The links are run against sequences that share nothing, and iterators against positions.
 */
module CowLinkRuns {
  import opened CowLinks

  // ---------- sequences that share nothing ----------

  /** Where an iterator stands, and whether no copy of its link was made since it got there. */
  datatype Cursor = Cursor(l: nat, at: nat, own: bool)

  datatype State<T> = State(views: seq<seq<T>>, cursors: seq<Cursor>) {
    predicate Ok() {
      forall k | 0 <= k < |cursors| :: cursors[k].l < |views|
    }
  }

  /** What is done to links: opening an iterator, moving it on, writing through it, making room, copying. */
  datatype Op<T> =
    | Begin(l: nat, index: nat)
    | Next(k: nat)
    | Set(k: nat, value: T)
    | Alloc(l: nat, length: nat)
    | Share(l: nat)

  /** An iterator held across a copy of its link is moved on, or another one opened, before a write. */
  predicate Fits<T>(s: State<T>, op: Op<T>) {
    match op
    case Begin(l, _) => l < |s.views|
    case Next(k) => k < |s.cursors|
    case Set(k, _) => k < |s.cursors| && s.Ok() && s.cursors[k].at < |s.views[s.cursors[k].l]| && s.cursors[k].own
    case Alloc(l, _) => l < |s.views|
    case Share(l) => l < |s.views|
  }

  function Act<T>(s: State<T>, op: Op<T>, blank: T): (s': State<T>)
    requires s.Ok() && Fits(s, op)
    ensures s'.Ok()
  {
    match op
    case Begin(l, index) => s.(cursors := s.cursors + [Cursor(l, index, true)])
    case Next(k) => s.(cursors := s.cursors[k := Cursor(s.cursors[k].l, s.cursors[k].at + 1, true)])
    case Set(k, value) =>
      var Cursor(l, at, _) := s.cursors[k];
      s.(views := s.views[l := s.views[l][at := value]])
    case Alloc(l, length) => s.(views := s.views[l := s.views[l] + Blanks(length - |s.views[l]|, blank)])
    case Share(l) => State(s.views + [s.views[l]], Held(s.cursors, l))
  }

  /** The iterators of a link are held while it is copied. */
  function Held(cursors: seq<Cursor>, l: nat): (held: seq<Cursor>)
    ensures |held| == |cursors|
    ensures forall k | 0 <= k < |held| ::
      held[k] == if cursors[k].l == l then cursors[k].(own := false) else cursors[k]
  {
    seq(|cursors|, k requires 0 <= k < |cursors| =>
      if cursors[k].l == l then cursors[k].(own := false) else cursors[k])
  }

  /** Making room keeps what is there, adds blanks only, and makes the link as long as asked or leaves it. */
  lemma RoomIsMade<T>(s: State<T>, l: nat, length: nat, blank: T)
    requires s.Ok() && l < |s.views|
    ensures var t, was := Act(s, Alloc(l, length), blank), s.views[l];
            && |t.views| == |s.views| && was <= t.views[l] && |t.views[l]| == (if length > |was| then length else |was|)
            && (forall i | |was| <= i < |t.views[l]| :: t.views[l][i] == blank)
            && forall k | 0 <= k < |s.views| && k != l :: t.views[k] == s.views[k]
  {
  }

  /** An iterator that may write stays one through everything but a copy of its own link, and only moving it on
      moves it. */
  lemma OwnUntilCopied<T>(s: State<T>, op: Op<T>, blank: T, k: nat)
    requires s.Ok() && Fits(s, op) && k < |s.cursors|
    ensures var t := Act(s, op, blank);
            && k < |t.cursors| && t.cursors[k].l == s.cursors[k].l
            && t.cursors[k].at == s.cursors[k].at + (if op == Next(k) then 1 else 0)
            && (t.cursors[k].own <==>
                  op == Next(k) || (s.cursors[k].own && !(op.Share? && op.l == s.cursors[k].l)))
  {
  }

  /** Opened, or moved on, an iterator may write at once, and what it writes is there. */
  lemma MayWriteAtOnce<T>(s: State<T>, l: nat, index: nat, value: T, blank: T)
    requires s.Ok() && l < |s.views| && index < |s.views[l]|
    ensures var t := Act(s, Begin(l, index), blank);
            && Fits(t, Set(|s.cursors|, value))
            && Act(t, Set(|s.cursors|, value), blank).views == s.views[l := s.views[l][index := value]]
    ensures forall k | 0 <= k < |s.cursors| && s.cursors[k].l == l && s.cursors[k].at + 1 == index ::
              var t := Act(s, Next(k), blank);
              && Fits(t, Set(k, value))
              && Act(t, Set(k, value), blank).views == s.views[l := s.views[l][index := value]]
  {
  }

  predicate FitAll<T>(s: State<T>, ops: seq<Op<T>>, blank: T)
    requires s.Ok()
    decreases |ops|
  {
    ops == [] || (Fits(s, ops[0]) && FitAll(Act(s, ops[0], blank), ops[1..], blank))
  }

  function ActAll<T>(s: State<T>, ops: seq<Op<T>>, blank: T): State<T>
    requires s.Ok() && FitAll(s, ops, blank)
    decreases |ops|
  {
    if ops == [] then s else ActAll(Act(s, ops[0], blank), ops[1..], blank)
  }

  // ---------- the links that do the same ----------

  /** Each iterator is where its cursor is, and one not held across a copy stands on its link's own node. */
  ghost predicate Stand<T>(links: seq<CowLink<T>>, its: seq<CowIterator<T>>, cursors: seq<Cursor>)
    reads links, its, Cells(Nodes(links))`useCount
  {
    && |its| == |cursors| && (forall j, k | 0 <= j < k < |its| :: its[j] != its[k])
    && forall k | 0 <= k < |its| ::
      && cursors[k].l < |links| && its[k].link == links[cursors[k].l] && its[k].current == cursors[k].at
      && (cursors[k].own ==> Own(its[k].link.nodes, its[k].current))
  }

  /** The objects a run may touch. */
  ghost predicate Within<T>(links: seq<CowLink<T>>, its: seq<CowIterator<T>>, repr: set<object>)
    reads links
  {
    && (forall k | 0 <= k < |links| :: links[k] in repr && forall c | c in links[k].nodes :: c in repr)
    && forall k | 0 <= k < |its| :: its[k] in repr
  }

  /** The links and iterators are in a state: counts are exact, each link shows its sequence, and each
      iterator stands where it should. */
  ghost predicate In<T>(links: seq<CowLink<T>>, its: seq<CowIterator<T>>, s: State<T>)
    reads links, its, Cells(Nodes(links))
  {
    s.Ok() && World(links) && Shows(links, s.views) && Stand(links, its, s.cursors)
  }

  method Open<T>(links: seq<CowLink<T>>, its: seq<CowIterator<T>>, l: nat, index: nat, ghost s: State<T>)
      returns (it: CowIterator<T>)
    requires In(links, its, s) && l < |links|
    modifies links[l], (set c | c in links[l].nodes)`useCount
    ensures In(links, its + [it], s.(cursors := s.cursors + [Cursor(l, index, true)])) && fresh(it)
    ensures forall c | c in links[l].nodes :: c in old(links[l].nodes) || fresh(c)
  {
    it := new CowIterator(links[l], index, links, l);
  }

  method MoveOn<T>(links: seq<CowLink<T>>, its: seq<CowIterator<T>>, k: nat, ghost s: State<T>)
    requires In(links, its, s) && k < |its|
    modifies its[k], its[k].link, (set c | c in its[k].link.nodes)`useCount
    ensures In(links, its, s.(cursors := s.cursors[k := Cursor(s.cursors[k].l, s.cursors[k].at + 1, true)]))
    ensures forall c | c in its[k].link.nodes :: c in old(its[k].link.nodes) || fresh(c)
  {
    StepOn(its[k], links, s.cursors[k].l, s.views);
  }

  method DoBegin<T>(links: seq<CowLink<T>>, its: seq<CowIterator<T>>, l: nat, index: nat, ghost s: State<T>,
                    ghost repr: set<object>)
      returns (it: CowIterator<T>, ghost repr': set<object>)
    requires In(links, its, s) && Within(links, its, repr) && l < |links|
    modifies repr
    ensures In(links, its + [it], s.(cursors := s.cursors + [Cursor(l, index, true)]))
    ensures Within(links, its + [it], repr') && repr <= repr' && fresh(repr' - repr)
  {
    it := Open(links, its, l, index, s);
    repr' := repr + {it};
    repr' := repr' + set c | c in links[l].nodes;
  }

  method DoNext<T>(links: seq<CowLink<T>>, its: seq<CowIterator<T>>, k: nat, ghost s: State<T>,
                   ghost repr: set<object>)
      returns (ghost repr': set<object>)
    requires In(links, its, s) && Within(links, its, repr) && k < |its|
    modifies repr
    ensures In(links, its, s.(cursors := s.cursors[k := Cursor(s.cursors[k].l, s.cursors[k].at + 1, true)]))
    ensures Within(links, its, repr') && repr <= repr' && fresh(repr' - repr)
  {
    MoveOn(links, its, k, s);
    repr' := repr + set c | c in its[k].link.nodes;
  }

  method DoSet<T>(links: seq<CowLink<T>>, its: seq<CowIterator<T>>, k: nat, value: T, ghost s: State<T>)
    requires In(links, its, s) && k < |its|
    requires s.cursors[k].own && s.cursors[k].at < |s.views[s.cursors[k].l]|
    modifies (set c | c in its[k].link.nodes)`value
    ensures var Cursor(l, at, _) := s.cursors[k];
            In(links, its, s.(views := s.views[l := s.views[l][at := value]]))
  {
    WriteHere(its[k], value, links, s.cursors[k].l, s.views);
  }

  method DoAlloc<T>(links: seq<CowLink<T>>, its: seq<CowIterator<T>>, l: nat, length: nat, blank: T,
                    ghost s: State<T>, ghost repr: set<object>)
      returns (ghost repr': set<object>)
    requires In(links, its, s) && Within(links, its, repr) && l < |links|
    modifies repr
    ensures In(links, its, s.(views := s.views[l := s.views[l] + Blanks(length - |s.views[l]|, blank)]))
    ensures Within(links, its, repr') && repr <= repr' && fresh(repr' - repr)
  {
    links[l].AllocMore(length, blank, links, l);
    repr' := repr + set c | c in links[l].nodes;
  }

  method DoShare<T>(links: seq<CowLink<T>>, its: seq<CowIterator<T>>, l: nat, ghost s: State<T>,
                    ghost repr: set<object>)
      returns (copy: CowLink<T>, ghost repr': set<object>)
    requires In(links, its, s) && Within(links, its, repr) && l < |links|
    modifies repr
    ensures In(links + [copy], its, State(s.views + [s.views[l]], Held(s.cursors, l)))
    ensures Within(links + [copy], its, repr') && repr <= repr' && fresh(repr' - repr)
  {
    copy := links[l].Copy(links, l);
    repr' := repr + {copy};
  }

  method DoOp<T>(links: seq<CowLink<T>>, its: seq<CowIterator<T>>, op: Op<T>, blank: T, ghost s: State<T>,
                 ghost repr: set<object>)
      returns (links': seq<CowLink<T>>, its': seq<CowIterator<T>>, ghost repr': set<object>)
    requires In(links, its, s) && Within(links, its, repr) && Fits(s, op)
    modifies repr
    ensures In(links', its', Act(s, op, blank))
    ensures Within(links', its', repr') && repr <= repr' && fresh(repr' - repr)
  {
    links', its', repr' := links, its, repr;
    match op
    case Begin(l, index) =>
      var it;
      it, repr' := DoBegin(links, its, l, index, s, repr);
      its' := its + [it];
    case Next(k) => repr' := DoNext(links, its, k, s, repr);
    case Set(k, value) => DoSet(links, its, k, value, s);
    case Alloc(l, length) => repr' := DoAlloc(links, its, l, length, blank, s, repr);
    case Share(l) =>
      var copy;
      copy, repr' := DoShare(links, its, l, s, repr);
      links' := links + [copy];
  }

  /** The operations from the i-th on, which lead to `last`. */
  method DoRest<T>(links: seq<CowLink<T>>, its: seq<CowIterator<T>>, ops: seq<Op<T>>, i: nat, blank: T,
                   ghost s: State<T>, ghost repr: set<object>, ghost last: State<T>)
      returns (links': seq<CowLink<T>>, its': seq<CowIterator<T>>)
    requires In(links, its, s) && Within(links, its, repr)
    requires i <= |ops| && FitAll(s, ops[i..], blank) && ActAll(s, ops[i..], blank) == last
    modifies repr
    ensures In(links', its', last)
    decreases |ops| - i
  {
    links', its' := links, its;
    if i < |ops| {
      RestOf(ops, i);
      ghost var repr';
      links', its', repr' := DoOp(links, its, ops[i], blank, s, repr);
      links', its' := DoRest(links', its', ops, i + 1, blank, Act(s, ops[i], blank), repr', last);
    }
  }

  lemma RestOf<T>(s: seq<T>, i: nat)
    requires i < |s|
    ensures s[i..][0] == s[i] && s[i..][1..] == s[i + 1..]
  {
  }

  /** Any run, from one link with one blank node: each link shows what the same operations make of
      sequences that share nothing, and each iterator not held across a copy of its link stands on a node
      that no other slot holds. */
  method RunAll<T>(ops: seq<Op<T>>, blank: T) returns (links: seq<CowLink<T>>, its: seq<CowIterator<T>>)
    requires FitAll(State([[blank]], []), ops, blank)
    ensures In(links, its, ActAll(State([[blank]], []), ops, blank))
  {
    var first := new CowLink(blank);
    ghost var repr: set<object> := {first};
    repr := repr + set c | c in first.nodes;
    assert ops[0..] == ops;
    var s := State([[blank]], []);
    links, its := DoRest([first], [], ops, 0, blank, s, repr, ActAll(s, ops, blank));
  }

  // ---------- a write through any iterator ----------

  lemma OnlyThere<T>(nodes: seq<Cell<T>>, i: nat)
    requires i < |nodes| && forall j | 0 <= j < |nodes| && j != i :: nodes[j] != nodes[i]
    ensures multiset(nodes)[nodes[i]] == 1
  {
    assert nodes == nodes[..i] + [nodes[i]] + nodes[i + 1..];
  }

  /** A cell not counted once is in another slot. */
  lemma SharedSlot<T>(slots: seq<seq<Cell<T>>>, l: nat, i: nat)
    requires l < |slots| && i < |slots[l]| && Uses(slots, slots[l][i]) != 1
    ensures exists k: nat, j: nat ::
      k < |slots| && j < |slots[k]| && (k != l || j != i) && slots[k][j] == slots[l][i]
  {
    var c := slots[l][i];
    UsesUpdate(slots, l, [], c);
    if forall j | 0 <= j < |slots[l]| && j != i :: slots[l][j] != c {
      OnlyThere(slots[l], i);
      assert c in Cells(slots[l := []]) by {
        if c !in Cells(slots[l := []]) {
          Unused(slots[l := []], c);
        }
      }
      var k :| 0 <= k < |slots| && c in slots[l := []][k];
      assert k != l && slots[k] == slots[l := []][k];
    }
  }

  lemma InAnotherSlot<T>(links: seq<CowLink<T>>, l: nat, i: nat) returns (k: nat, j: nat)
    requires World(links) && l < |links| && i < |links[l].nodes| && links[l].nodes[i].useCount != 1
    ensures k < |links| && j < |links[k].nodes| && (k != l || j != i) && links[k].nodes[j] == links[l].nodes[i]
  {
    InCells(Nodes(links), l, i);
    SharedSlot(Nodes(links), l, i);
    k, j :| k < |links| && j < |links[k].nodes| && (k != l || j != i) && links[k].nodes[j] == links[l].nodes[i];
  }

  /** A write to a node that is in another slot shows there. */
  method SetShared<T>(link: CowLink<T>, i: nat, value: T, ghost links: seq<CowLink<T>>, ghost l: nat,
                      ghost views: seq<seq<T>>, ghost k: nat, ghost j: nat)
    requires l < |links| && links[l] == link && i < |link.nodes| && Shows(links, views)
    requires k < |links| && j < |links[k].nodes| && (k != l || j != i) && links[k].nodes[j] == link.nodes[i]
    modifies {link.nodes[i]}`value
    ensures Shows(links, views[l := views[l][i := value]]) <==> value == views[l][i]
  {
    assert links[k].Contents()[j] == views[k][j] && link.Contents()[i] == views[l][i];
    link.nodes[i].value := value;
    ghost var views' := views[l := views[l][i := value]];
    if value == views[l][i] {
      assert views[l][i := value] == views[l] && views' == views;
    }
  }

  /** Writing through an iterator, held or not: the links show what sequences that share nothing do exactly
      when the node is in no other slot, or has that value already. */
  method SetAnyway<T>(it: CowIterator<T>, value: T, ghost links: seq<CowLink<T>>, ghost l: nat,
                      ghost views: seq<seq<T>>)
    requires World(links) && l < |links| && links[l] == it.link && it.current < |it.link.nodes|
    requires Shows(links, views)
    modifies {it.link.nodes[it.current]}`value
    ensures Shows(links, views[l := views[l][it.current := value]])
       <==> Own(it.link.nodes, it.current) || value == views[l][it.current]
  {
    if it.link.nodes[it.current].useCount == 1 {
      WriteHere(it, value, links, l, views);
    } else {
      ghost var k, j := InAnotherSlot(links, l, it.current);
      SetShared(it.link, it.current, value, links, l, views, k, j);
    }
  }

  /** An iterator held across a copy writes what the copy sees. */
  method HeldIteratorIsSeen<T>(blank: T, value: T) returns (copy: CowLink<T>)
    ensures copy.Contents() == [value]
  {
    var link := new CowLink(blank);
    var it := new CowIterator(link, 0, [link], 0);
    copy := link.Copy([link], 0);
    it.link.nodes[it.current].value := value;
  }
}
