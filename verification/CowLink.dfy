/**
 Copy-on-write links: sequences of reference-counted cells that copies share until they write.

 A set of links that share cells must look like independent sequences.  Counting references over
 all slots of all links is what makes a count of one mean that nobody else is looking.
 */
module CowLinks {
  import opened Strings

  /** A shared element; `useCount` is the count of its shared pointer. */
  class Cell<T> {
    var value: T
    var useCount: nat

    constructor (value: T)
      ensures this.value == value && useCount == 1
    {
      this.value := value;
      useCount := 1;
    }
  }

  // ---------- counting references ----------

  ghost function Cells<T>(slots: seq<seq<Cell<T>>>): set<Cell<T>> {
    set k, c | 0 <= k < |slots| && c in slots[k] :: c
  }

  /** How many slots hold a cell. */
  ghost function Uses<T>(slots: seq<seq<Cell<T>>>, c: Cell<T>): nat {
    if slots == [] then 0 else multiset(slots[0])[c] + Uses(slots[1..], c)
  }

  lemma {:induction false} UsesUpdate<T>(slots: seq<seq<Cell<T>>>, l: nat, nodes: seq<Cell<T>>, c: Cell<T>)
    requires l < |slots|
    ensures Uses(slots[l := nodes], c) == Uses(slots, c) - multiset(slots[l])[c] + multiset(nodes)[c]
    ensures Uses(slots, c) >= multiset(slots[l])[c]
  {
    if l == 0 {
      assert slots[l := nodes][1..] == slots[1..];
    } else {
      assert slots[l := nodes][1..] == slots[1..][l - 1 := nodes];
      UsesUpdate(slots[1..], l - 1, nodes, c);
    }
  }

  lemma {:induction false} UsesSnoc<T>(slots: seq<seq<Cell<T>>>, nodes: seq<Cell<T>>, c: Cell<T>)
    ensures Uses(slots + [nodes], c) == Uses(slots, c) + multiset(nodes)[c]
  {
    if slots == [] {
      assert [nodes][1..] == [];
    } else {
      assert (slots + [nodes])[1..] == slots[1..] + [nodes];
      UsesSnoc(slots[1..], nodes, c);
    }
  }

  lemma {:induction false} Unused<T>(slots: seq<seq<Cell<T>>>, c: Cell<T>)
    requires c !in Cells(slots)
    ensures Uses(slots, c) == 0
  {
    if slots != [] {
      assert c !in slots[0] && c !in Cells(slots[1..]);
      Unused(slots[1..], c);
    }
  }

  lemma InCells<T>(slots: seq<seq<Cell<T>>>, l: nat, i: nat)
    requires l < |slots| && i < |slots[l]|
    ensures slots[l][i] in Cells(slots) && Uses(slots, slots[l][i]) >= multiset(slots[l])[slots[l][i]] > 0
  {
    assert slots[l][i] in slots[l] && slots[l][i] in multiset(slots[l]);
    UsesUpdate(slots, l, [], slots[l][i]);
  }

  /** A slot filled with a new cell: the old cell loses one use, the new one has one. */
  lemma Replaced<T>(slots: seq<seq<Cell<T>>>, l: nat, i: nat, copy: Cell<T>)
    requires l < |slots| && i < |slots[l]| && copy !in Cells(slots)
    ensures var slots', old_ := slots[l := slots[l][i := copy]], slots[l][i];
            && Cells(slots') <= Cells(slots) + {copy}
            && Uses(slots', copy) == 1 && Uses(slots', old_) == Uses(slots, old_) - 1 >= 0
            && forall c | c != copy && c != old_ :: Uses(slots', c) == Uses(slots, c)
  {
    var nodes := slots[l][i := copy];
    Unused(slots, copy);
    UsesUpdate(slots, l, nodes, copy);
    UsesUpdate(slots, l, nodes, slots[l][i]);
    InCells(slots, l, i);
    forall c | c != copy && c != slots[l][i] ensures Uses(slots[l := nodes], c) == Uses(slots, c) {
      UsesUpdate(slots, l, nodes, c);
    }
    CellsUpdate(slots, l, nodes);
    forall c | c in nodes ensures c in Cells(slots) || c == copy {
      assert c != copy ==> c in slots[l];
    }
  }

  lemma CellsUpdate<T>(slots: seq<seq<Cell<T>>>, l: nat, nodes: seq<Cell<T>>)
    requires l < |slots|
    ensures Cells(slots[l := nodes]) <= Cells(slots) + set c | c in nodes
  {
  }

  /** A new cell behind the others. */
  lemma Appended<T>(slots: seq<seq<Cell<T>>>, l: nat, cell: Cell<T>)
    requires l < |slots| && cell !in Cells(slots)
    ensures var slots' := slots[l := slots[l] + [cell]];
            && Cells(slots') <= Cells(slots) + {cell} && Uses(slots', cell) == 1
            && forall c | c != cell :: Uses(slots', c) == Uses(slots, c)
  {
    var nodes := slots[l] + [cell];
    Unused(slots, cell);
    UsesUpdate(slots, l, nodes, cell);
    forall c | c != cell ensures Uses(slots[l := nodes], c) == Uses(slots, c) {
      UsesUpdate(slots, l, nodes, c);
    }
    CellsUpdate(slots, l, nodes);
    forall c | c in nodes ensures c in Cells(slots) || c == cell {
      assert c != cell ==> c in slots[l];
    }
  }

  /** A copy of a link: all its cells have one more use. */
  lemma Copied<T>(slots: seq<seq<Cell<T>>>, l: nat)
    requires l < |slots|
    ensures var slots' := slots + [slots[l]];
            Cells(slots') == Cells(slots) && forall c :: Uses(slots', c) == Uses(slots, c) + multiset(slots[l])[c]
  {
    var slots' := slots + [slots[l]];
    forall c ensures Uses(slots', c) == Uses(slots, c) + multiset(slots[l])[c] {
      UsesSnoc(slots, slots[l], c);
    }
    forall c | c in Cells(slots) ensures c in Cells(slots') {
      var k :| 0 <= k < |slots| && c in slots[k];
      assert c in slots'[k];
    }
  }

  /** Slots of a link in another order. */
  lemma Reordered<T>(slots: seq<seq<Cell<T>>>, l: nat, nodes: seq<Cell<T>>)
    requires l < |slots| && multiset(nodes) == multiset(slots[l])
    ensures Cells(slots[l := nodes]) <= Cells(slots) && forall c :: Uses(slots[l := nodes], c) == Uses(slots, c)
  {
    forall c ensures Uses(slots[l := nodes], c) == Uses(slots, c) {
      UsesUpdate(slots, l, nodes, c);
    }
    CellsUpdate(slots, l, nodes);
    forall c | c in nodes ensures c in Cells(slots) {
      assert c in multiset(nodes);
      assert c in slots[l];
    }
  }

  lemma OneSlot<T>(cell: Cell<T>)
    ensures Cells([[cell]]) == {cell} && Uses([[cell]], cell) == 1
  {
    assert [[cell]][1..] == [];
    assert cell in [[cell]][0];
  }

  lemma TwoSlots<T>(nodes: seq<Cell<T>>, i: nat, j: nat)
    requires i < |nodes| && j < |nodes| && i != j && nodes[i] == nodes[j]
    ensures multiset(nodes)[nodes[i]] >= 2
  {
    var lo, hi := if i < j then i else j, if i < j then j else i;
    assert nodes == nodes[..hi] + nodes[hi..];
    assert nodes[..hi][lo] == nodes[i] && nodes[hi..][0] == nodes[i];
    assert nodes[i] in multiset(nodes[..hi]) && nodes[i] in multiset(nodes[hi..]);
  }

  lemma {:induction false} TwoLinks<T>(slots: seq<seq<Cell<T>>>, k: nat, l: nat, c: Cell<T>)
    requires k < l < |slots| && c in slots[k] && c in slots[l]
    ensures Uses(slots, c) >= 2
  {
    if k == 0 {
      UsesUpdate(slots[1..], l - 1, [], c);
      assert slots[1..][l - 1] == slots[l];
      assert c in multiset(slots[l]) && c in multiset(slots[0]);
    } else {
      TwoLinks(slots[1..], k - 1, l - 1, c);
    }
  }

  /** A cell counted once is in one slot only. */
  lemma CountedOnce<T>(slots: seq<seq<Cell<T>>>, l: nat, i: nat)
    requires l < |slots| && i < |slots[l]| && Uses(slots, slots[l][i]) == 1
    ensures forall j | 0 <= j < |slots[l]| && j != i :: slots[l][j] != slots[l][i]
    ensures forall k | 0 <= k < |slots| && k != l :: slots[l][i] !in slots[k]
  {
    var c := slots[l][i];
    UsesUpdate(slots, l, [], c);
    forall j | 0 <= j < |slots[l]| && j != i ensures slots[l][j] != c {
      if slots[l][j] == c {
        TwoSlots(slots[l], i, j);
      }
    }
    forall k | 0 <= k < |slots| && k != l ensures c !in slots[k] {
      if c in slots[k] {
        if k < l {
          TwoLinks(slots, k, l, c);
        } else {
          TwoLinks(slots, l, k, c);
        }
      }
    }
  }

  lemma OwnIsElsewhere<T>(slots: seq<seq<Cell<T>>>, k: nat, l: nat, i: nat)
    requires k < |slots| && l < |slots| && k != l
    ensures i < |slots[k]| && Uses(slots, slots[k][i]) == 1 ==> slots[k][i] !in slots[l]
  {
    if i < |slots[k]| && Uses(slots, slots[k][i]) == 1 {
      CountedOnce(slots, k, i);
    }
  }

  // ---------- links ----------

  ghost function Nodes<T>(links: seq<CowLink<T>>): (slots: seq<seq<Cell<T>>>)
    reads links
    ensures |slots| == |links| && forall k | 0 <= k < |links| :: slots[k] == links[k].nodes
  {
    seq(|links|, k requires 0 <= k < |links| reads links => links[k].nodes)
  }

  /** Every count is the number of slots. */
  ghost predicate Exact<T>(slots: seq<seq<Cell<T>>>)
    reads Cells(slots)`useCount
  {
    forall c | c in Cells(slots) :: c.useCount == Uses(slots, c)
  }

  /** The counts once the nodes are counted once more. */
  ghost predicate CountedUp<T>(slots: seq<seq<Cell<T>>>, nodes: seq<Cell<T>>)
    reads Cells(slots)`useCount
  {
    forall c | c in Cells(slots) :: c.useCount == Uses(slots, c) + multiset(nodes)[c]
  }

  ghost predicate Distinct<T>(links: seq<CowLink<T>>) {
    forall j, k | 0 <= j < k < |links| :: links[j] != links[k]
  }

  /** All the links there are, with exact counts. */
  ghost predicate World<T>(links: seq<CowLink<T>>)
    reads links, Cells(Nodes(links))`useCount
  {
    Distinct(links) && Exact(Nodes(links))
  }

  ghost function Values<T>(nodes: seq<Cell<T>>): (values: seq<T>)
    reads (set c | c in nodes)`value
    ensures |values| == |nodes| && forall i | 0 <= i < |nodes| :: values[i] == nodes[i].value
  {
    if nodes == [] then [] else [nodes[0].value] + Values(nodes[1..])
  }

  /** The node there, if there is one, is in no other slot. */
  ghost predicate Own<T>(nodes: seq<Cell<T>>, i: nat)
    reads (set c | c in nodes)`useCount
  {
    i < |nodes| ==> nodes[i].useCount == 1
  }

  /** What was a link's own still is. */
  twostate predicate StillOwn<T>(links: seq<CowLink<T>>)
    reads links, Cells(Nodes(links))`useCount
  {
    forall k, i: nat | 0 <= k < |links| && old(Own(links[k].nodes, i)) :: Own(links[k].nodes, i)
  }

  class CowLink<T> {
    var nodes: seq<Cell<T>>

    /** What the link looks like from outside. */
    ghost function Contents(): (values: seq<T>)
      reads this, (set c | c in nodes)`value
      ensures |values| == |nodes| && forall i | 0 <= i < |nodes| :: values[i] == nodes[i].value
    {
      Values(nodes)
    }

    /** One blank node. */
    constructor (blank: T)
      ensures fresh(nodes) && Contents() == [blank] && World([this])
    {
      var cell := new Cell(blank);
      nodes := [cell];
      new;
      OneSlot(cell);
      assert Nodes([this]) == [[cell]];
    }

    /** The counts once another cell is in the node's place. */
    method DropUse(i: nat, copy: Cell<T>, ghost slots: seq<seq<Cell<T>>>, ghost l: nat)
      requires l < |slots| && slots[l] == nodes && i < |nodes| && Exact(slots)
      requires copy !in Cells(slots) && copy.useCount == 1
      modifies {nodes[i]}`useCount
      ensures Exact(slots[l := slots[l][i := copy]]) && copy.useCount == 1
    {
      InCells(slots, l, i);
      Replaced(slots, l, i, copy);
      nodes[i].useCount := nodes[i].useCount - 1;
    }

    method ReplaceNode(i: nat, ghost links: seq<CowLink<T>>, ghost l: nat) returns (copy: Cell<T>)
      requires World(links) && l < |links| && links[l] == this && i < |nodes| && nodes[i].useCount != 1
      modifies this, {nodes[i]}`useCount
      ensures World(links) && fresh(copy) && nodes == old(nodes)[i := copy]
      ensures copy.useCount == 1 && copy.value == old(nodes[i].value)
    {
      copy := new Cell(nodes[i].value);
      ghost var slots: seq<seq<Cell<T>>> := Nodes(links);
      DropUse(i, copy, slots, l);
      nodes := nodes[i := copy];
      assert Nodes(links) == slots[l := slots[l][i := copy]];
    }

    /** A copy of a shared node: the others of a link's own are other cells. */
    method CopyNode(i: nat, ghost links: seq<CowLink<T>>, ghost l: nat) returns (copy: Cell<T>)
      requires World(links) && l < |links| && links[l] == this && i < |nodes| && nodes[i].useCount != 1
      modifies this, {nodes[i]}`useCount
      ensures World(links) && StillOwn(links) && fresh(copy) && nodes == old(nodes)[i := copy]
      ensures copy.useCount == 1 && copy.value == old(nodes[i].value)
    {
      copy := ReplaceNode(i, links, l);
    }

    /** If the node is shared, put a copy in its place.  Nobody sees a difference. */
    method CowNode(i: nat, ghost links: seq<CowLink<T>>, ghost l: nat)
      requires World(links) && l < |links| && links[l] == this
      modifies this, (if i < |nodes| then {nodes[i]} else {})`useCount
      ensures World(links) && Contents() == old(Contents())
      ensures forall k | 0 <= k < |links| && k != l :: links[k].Contents() == old(links[k].Contents())
      ensures forall c | c in nodes :: c in old(nodes) || fresh(c)
      ensures Own(nodes, i) && StillOwn(links)
    {
      if i < |nodes| && nodes[i].useCount != 1 {
        var copy := CopyNode(i, links, l);
      }
    }

    /** Writing a node that only one slot holds changes this link alone. */
    method SetNode(i: nat, value: T, ghost links: seq<CowLink<T>>, ghost l: nat)
      requires World(links) && l < |links| && links[l] == this && i < |nodes| && nodes[i].useCount == 1
      modifies {nodes[i]}`value
      ensures Contents() == old(Contents())[i := value]
      ensures forall k | 0 <= k < |links| && k != l :: links[k].Contents() == old(links[k].Contents())
    {
      ghost var slots: seq<seq<Cell<T>>> := Nodes(links);
      InCells(slots, l, i);
      CountedOnce(slots, l, i);
      nodes[i].value := value;
      forall k | 0 <= k < |links| && k != l ensures links[k].Contents() == old(links[k].Contents()) {
        assert nodes[i] !in slots[k];
      }
    }

    method AppendNode(blank: T, ghost links: seq<CowLink<T>>, ghost l: nat) returns (cell: Cell<T>)
      requires World(links) && l < |links| && links[l] == this
      modifies this
      ensures World(links) && fresh(cell) && nodes == old(nodes) + [cell]
      ensures cell.value == blank && cell.useCount == 1
    {
      cell := new Cell(blank);
      ghost var slots: seq<seq<Cell<T>>> := Nodes(links);
      Appended(slots, l, cell);
      nodes := nodes + [cell];
      assert Nodes(links) == slots[l := slots[l] + [cell]];
    }

    /** Blank nodes up to a length; nothing if there are more already. */
    method AllocMore(length: nat, blank: T, ghost links: seq<CowLink<T>>, ghost l: nat)
      requires World(links) && l < |links| && links[l] == this
      modifies this
      ensures World(links)
      ensures Contents() == old(Contents()) + Blanks(length - |old(nodes)|, blank)
      ensures StillOwn(links) && forall c | c in nodes :: c in old(nodes) || fresh(c)
    {
      Nil(Contents());
      if length < |nodes| {
        return;
      }
      var more := length - |nodes|;
      ghost var before := Contents();
      var i := 0;
      while i < more
        invariant i <= more && World(links)
        invariant Same(Contents(), before + Blanks(i, blank))
        invariant StillOwn(links) && forall c | c in nodes :: c in old(nodes) || fresh(c)
      {
        AppendBlank(blank, links, l);
        Assoc(before, Blanks(i, blank), [blank]);
        i := i + 1;
      }
    }

    method AppendOwn(blank: T, ghost links: seq<CowLink<T>>, ghost l: nat) returns (cell: Cell<T>)
      requires World(links) && l < |links| && links[l] == this
      modifies this
      ensures World(links) && StillOwn(links) && fresh(cell) && nodes == old(nodes) + [cell] && cell.value == blank
    {
      cell := AppendNode(blank, links, l);
    }

    method AppendBlank(blank: T, ghost links: seq<CowLink<T>>, ghost l: nat)
      requires World(links) && l < |links| && links[l] == this
      modifies this
      ensures World(links) && Same(Contents(), old(Contents()) + [blank]) && StillOwn(links)
      ensures forall c | c in nodes :: c in old(nodes) || fresh(c)
    {
      var cell := AppendOwn(blank, links, l);
      assert Contents() == old(Contents()) + [blank];
    }

    /** A copy shares every node; what is another link's own still is. */
    method Copy(ghost links: seq<CowLink<T>>, ghost l: nat) returns (copy: CowLink<T>)
      requires World(links) && l < |links| && links[l] == this
      modifies (set c | c in nodes)`useCount
      ensures fresh(copy) && copy.nodes == nodes && World(links + [copy])
      ensures forall k, i: nat | 0 <= k < |links| && k != l && old(Own(links[k].nodes, i)) :: Own(links[k].nodes, i)
    {
      copy := new CowLink.OfNodes(nodes);
      ghost var slots: seq<seq<Cell<T>>> := Nodes(links);
      Copied(slots, l);
      CountUpAll(slots, l);
      assert Nodes(links + [copy]) == slots + [slots[l]];
      forall k, i: nat | 0 <= k < |links| && k != l && old(Own(links[k].nodes, i)) ensures Own(links[k].nodes, i) {
        OwnIsElsewhere(slots, k, l, i);
      }
    }

    /** Copying shared pointers counts one more use for each slot. */
    method CountUpAll(ghost slots: seq<seq<Cell<T>>>, ghost l: nat)
      requires l < |slots| && slots[l] == nodes && Exact(slots)
      modifies (set c | c in nodes)`useCount
      ensures CountedUp(slots, nodes)
    {
      var i := 0;
      while i < |nodes|
        invariant i <= |nodes| && CountedUp(slots, nodes[..i])
      {
        CountUp(i, slots, l);
        i := i + 1;
      }
      assert nodes[..i] == nodes;
    }

    method CountUp(i: nat, ghost slots: seq<seq<Cell<T>>>, ghost l: nat)
      requires i < |nodes| && l < |slots| && slots[l] == nodes && CountedUp(slots, nodes[..i])
      modifies {nodes[i]}`useCount
      ensures CountedUp(slots, nodes[..i + 1])
    {
      InCells(slots, l, i);
      Extend(nodes, i);
      nodes[i].useCount := nodes[i].useCount + 1;
    }

    /** The first nodes go behind the others, and the callback is run on each, shared or not.  Another
        link sees nothing of it exactly when the callback leaves the values it shares alone. */
    method MoveToTail(end: nat, callback: T -> T, ghost links: seq<CowLink<T>>, ghost l: nat)
      requires World(links) && l < |links| && links[l] == this && end <= |nodes|
      modifies this, (set c | c in nodes)`value
      ensures World(links) && nodes == old(nodes[end..]) + old(nodes[..end])
      ensures forall c | c in old(nodes) :: c.value == Times(callback, multiset(old(nodes[..end]))[c], old(c.value))
      ensures forall k | 0 <= k < |links| && k != l ::
        (links[k].Contents() == old(links[k].Contents())
         <==> forall i | 0 <= i < |links[k].nodes| && links[k].nodes[i] in old(nodes) ::
           Times(callback, multiset(old(nodes[..end]))[links[k].nodes[i]], old(links[k].nodes[i].value))
           == old(links[k].nodes[i].value))
    {
      var container := RotateNodes(end, links, l);
      RunCallback(container, callback);
    }

    method RotateNodes(end: nat, ghost links: seq<CowLink<T>>, ghost l: nat) returns (container: seq<Cell<T>>)
      requires World(links) && l < |links| && links[l] == this && end <= |nodes|
      modifies this
      ensures World(links) && nodes == old(nodes[end..]) + container && container == old(nodes[..end])
      ensures multiset(nodes) == multiset(old(nodes))
    {
      ghost var was: seq<Cell<T>> := nodes;
      ghost var slots: seq<seq<Cell<T>>> := Nodes(links);
      container := Rotate(end);
      assert was == was[..end] + was[end..];
      Reordered(slots, l, nodes);
      assert Nodes(links) == slots[l := nodes];
    }

    /** Shift the rest to the front, then put the first nodes behind it. */
    method Rotate(end: nat) returns (container: seq<Cell<T>>)
      requires end <= |nodes|
      modifies this
      ensures container == old(nodes[..end]) && nodes == old(nodes[end..]) + container
    {
      ghost var was := nodes;
      container := [];
      var i := 0;
      while i < end
        invariant i <= end && container == nodes[..i]
      {
        container := container + [nodes[i]];
        i := i + 1;
      }
      ShiftToFront(end);
      PutBehind(container);
      RotatedIs(was, nodes, end);
    }

    method ShiftToFront(end: nat)
      requires end <= |nodes|
      modifies this
      ensures |nodes| == old(|nodes|)
      ensures forall j | 0 <= j < |nodes| - end :: nodes[j] == old(nodes)[end + j]
    {
      ghost var was := nodes;
      var i := end;
      while i < |nodes|
        invariant end <= i <= |was| == |nodes|
        invariant forall j | 0 <= j < i - end :: nodes[j] == was[end + j]
        invariant forall j | i - end <= j < |nodes| :: nodes[j] == was[j]
      {
        nodes := nodes[i - end := nodes[i]];
        i := i + 1;
      }
    }

    method PutBehind(container: seq<Cell<T>>)
      requires |container| <= |nodes|
      modifies this
      ensures |nodes| == old(|nodes|)
      ensures forall j | 0 <= j < |nodes| - |container| :: nodes[j] == old(nodes)[j]
      ensures forall j | |nodes| - |container| <= j < |nodes| :: nodes[j] == container[j - (|nodes| - |container|)]
    {
      ghost var was := nodes;
      var from := |nodes| - |container|;
      var i := 0;
      while i < |container|
        invariant i <= |container| && |nodes| == |was|
        invariant forall j | 0 <= j < from :: nodes[j] == was[j]
        invariant forall j | from <= j < from + i :: nodes[j] == container[j - from]
      {
        nodes := nodes[from + i := container[i]];
        i := i + 1;
      }
    }

    constructor OfNodes(nodes: seq<Cell<T>>)
      ensures this.nodes == nodes
    {
      this.nodes := nodes;
    }
  }

  lemma RotatedIs<T>(was: seq<T>, nodes: seq<T>, end: nat)
    requires end <= |was| == |nodes|
    requires forall j | 0 <= j < |was| - end :: nodes[j] == was[end + j]
    requires forall j | |was| - end <= j < |was| :: nodes[j] == was[..end][j - (|was| - end)]
    ensures nodes == was[end..] + was[..end]
  {
  }

  function Times<T>(f: T -> T, n: nat, value: T): T {
    if n == 0 then value else f(Times(f, n - 1, value))
  }

  method RunCallback<T>(container: seq<Cell<T>>, callback: T -> T)
    modifies (set c | c in container)`value
    ensures forall c | c in container :: c.value == Times(callback, multiset(container)[c], old(c.value))
  {
    var i := 0;
    while i < |container|
      invariant i <= |container|
      invariant forall c | c in container :: c.value == Times(callback, multiset(container[..i])[c], old(c.value))
    {
      assert container[..i + 1] == container[..i] + [container[i]];
      container[i].value := callback(container[i].value);
      i := i + 1;
    }
    assert container[..i] == container;
  }

  function Blanks<T>(n: int, blank: T): (values: seq<T>)
    ensures |values| == if n < 0 then 0 else n
    ensures forall i | 0 <= i < |values| :: values[i] == blank
  {
    if n <= 0 then [] else Blanks(n - 1, blank) + [blank]
  }

  /** Write access to a link goes through an iterator: getting to a node makes it this link's own. */
  class CowIterator<T> {
    const link: CowLink<T>
    var current: nat

    constructor (link: CowLink<T>, index: nat, ghost links: seq<CowLink<T>>, ghost l: nat)
      requires World(links) && l < |links| && links[l] == link
      modifies link, (set c | c in link.nodes)`useCount
      ensures World(links) && this.link == link && current == index
      ensures link.Contents() == old(link.Contents())
      ensures forall k | 0 <= k < |links| && k != l :: links[k].Contents() == old(links[k].Contents())
      ensures forall c | c in link.nodes :: c in old(link.nodes) || fresh(c)
      ensures Own(link.nodes, current) && StillOwn(links)
    {
      this.link := link;
      current := index;
      new;
      link.CowNode(current, links, l);
    }

    method Next(ghost links: seq<CowLink<T>>, ghost l: nat)
      requires World(links) && l < |links| && links[l] == link
      modifies this, link, (set c | c in link.nodes)`useCount
      ensures World(links) && current == old(current) + 1 && link.Contents() == old(link.Contents())
      ensures forall k | 0 <= k < |links| && k != l :: links[k].Contents() == old(links[k].Contents())
      ensures forall c | c in link.nodes :: c in old(link.nodes) || fresh(c)
      ensures Own(link.nodes, current) && StillOwn(links)
    {
      current := current + 1;
      link.CowNode(current, links, l);
    }
  }

  function Overwritten<T>(contents: seq<T>, index: nat, values: seq<T>): (r: seq<T>)
    ensures |r| == |contents|
    ensures forall i | 0 <= i < |r| ::
      r[i] == if index <= i < index + |values| then values[i - index] else contents[i]
  {
    seq(|contents|, i requires 0 <= i < |contents| =>
      if index <= i < index + |values| then values[i - index] else contents[i])
  }

  lemma OverwriteOne<T>(contents: seq<T>, index: nat, values: seq<T>, i: nat)
    requires i < |values| && index + i < |contents|
    ensures Overwritten(contents, index, values[..i])[index + i := values[i]]
         == Overwritten(contents, index, values[..i + 1])
  {
  }

  /** The views once the first n values are written to link l from a node on. */
  ghost function Written<T>(views: seq<seq<T>>, l: nat, index: nat, values: seq<T>, n: nat): (seen: seq<seq<T>>)
    requires l < |views| && n <= |values|
    ensures |seen| == |views| && |seen[l]| == |views[l]|
  {
    views[l := Overwritten(views[l], index, values[..n])]
  }

  lemma WrittenStep<T>(views: seq<seq<T>>, l: nat, index: nat, values: seq<T>, i: nat)
    requires l < |views| && i < |values| && index + i < |views[l]|
    ensures var seen := Written(views, l, index, values, i);
            seen[l := seen[l][index + i := values[i]]] == Written(views, l, index, values, i + 1)
  {
    OverwriteOne(views[l], index, values, i);
  }

  lemma WrittenEnds<T>(views: seq<seq<T>>, l: nat, index: nat, values: seq<T>)
    requires l < |views|
    ensures Written(views, l, index, values, 0) == views
    ensures Written(views, l, index, values, |values|) == views[l := Overwritten(views[l], index, values)]
  {
    assert Overwritten(views[l], index, values[..0]) == views[l];
    assert values[..|values|] == values;
  }

  /** What each link shows. */
  ghost predicate Shows<T>(links: seq<CowLink<T>>, views: seq<seq<T>>)
    reads links, Cells(Nodes(links))`value
  {
    |links| == |views| && forall k | 0 <= k < |links| :: links[k].Contents() == views[k]
  }

  /** Write values from a node on, as a user of the iterator does. */
  method WriteFrom<T>(link: CowLink<T>, index: nat, values: seq<T>, ghost links: seq<CowLink<T>>, ghost l: nat,
                      ghost views: seq<seq<T>>)
    requires World(links) && l < |links| && links[l] == link && index + |values| <= |link.nodes|
    requires Shows(links, views)
    modifies link, (set c | c in link.nodes)`useCount, (set c | c in link.nodes)`value
    ensures World(links) && Shows(links, views[l := Overwritten(views[l], index, values)])
    ensures forall c | c in link.nodes :: c in old(link.nodes) || fresh(c)
  {
    WrittenEnds(views, l, index, values);
    var it := new CowIterator(link, index, links, l);
    var i := 0;
    while i < |values|
      invariant i <= |values| && World(links) && it.link == link && it.current == index + i
      invariant Own(it.link.nodes, it.current)
      invariant Shows(links, Written(views, l, index, values, i)) && |link.nodes| == |views[l]|
      invariant forall c | c in link.nodes :: c in old(link.nodes) || fresh(c)
    {
      WriteNext(it, index, values, i, links, l, views);
      i := i + 1;
    }
  }

  method WriteNext<T>(it: CowIterator<T>, index: nat, values: seq<T>, i: nat, ghost links: seq<CowLink<T>>,
                      ghost l: nat, ghost views: seq<seq<T>>)
    requires World(links) && l < |links| && links[l] == it.link && Own(it.link.nodes, it.current)
    requires i < |values| && it.current == index + i < |it.link.nodes|
    requires |views| == |links| && Shows(links, Written(views, l, index, values, i))
    modifies it, it.link, (set c | c in it.link.nodes)`useCount, (set c | c in it.link.nodes)`value
    ensures World(links) && it.current == index + i + 1 && Own(it.link.nodes, it.current)
    ensures Shows(links, Written(views, l, index, values, i + 1))
    ensures |it.link.nodes| == old(|it.link.nodes|)
    ensures forall c | c in it.link.nodes :: c in old(it.link.nodes) || fresh(c)
  {
    ghost var seen := Written(views, l, index, values, i);
    WrittenStep(views, l, index, values, i);
    WriteAndStep(it, values[i], links, l, seen);
  }

  /** `*it = value; ++it`: only this link changes, and the next node is its own. */
  method WriteAndStep<T>(it: CowIterator<T>, value: T, ghost links: seq<CowLink<T>>, ghost l: nat,
                         ghost views: seq<seq<T>>)
    requires World(links) && l < |links| && links[l] == it.link && it.current < |it.link.nodes|
    requires Own(it.link.nodes, it.current)
    requires Shows(links, views)
    modifies it, it.link, (set c | c in it.link.nodes)`useCount, (set c | c in it.link.nodes)`value
    ensures World(links) && it.current == old(it.current) + 1 && Own(it.link.nodes, it.current)
    ensures Shows(links, views[l := views[l][old(it.current) := value]])
    ensures forall c | c in it.link.nodes :: c in old(it.link.nodes) || fresh(c)
  {
    WriteHere(it, value, links, l, views);
    StepOn(it, links, l, views[l := views[l][it.current := value]]);
  }

  method WriteHere<T>(it: CowIterator<T>, value: T, ghost links: seq<CowLink<T>>, ghost l: nat,
                      ghost views: seq<seq<T>>)
    requires World(links) && l < |links| && links[l] == it.link && it.current < |it.link.nodes|
    requires Own(it.link.nodes, it.current)
    requires Shows(links, views)
    modifies {it.link.nodes[it.current]}`value
    ensures Shows(links, views[l := views[l][it.current := value]])
  {
    it.link.SetNode(it.current, value, links, l);
  }

  method StepOn<T>(it: CowIterator<T>, ghost links: seq<CowLink<T>>, ghost l: nat, ghost views: seq<seq<T>>)
    requires World(links) && l < |links| && links[l] == it.link && Shows(links, views)
    modifies it, it.link, (set c | c in it.link.nodes)`useCount
    ensures World(links) && it.current == old(it.current) + 1 && Own(it.link.nodes, it.current) && Shows(links, views)
    ensures StillOwn(links) && forall c | c in it.link.nodes :: c in old(it.link.nodes) || fresh(c)
  {
    it.Next(links, l);
  }

  // ---------- what a copy can see ----------

  /** A callback that changes a node's value is seen by a copy that shares the node. */
  method CallbackIsSeen<T(==)>(blank: T, callback: T -> T) returns (copy: CowLink<T>)
    requires callback(blank) != blank
    ensures copy.Contents() != [blank]
  {
    var link := new CowLink(blank);
    copy := link.Copy([link], 0);
    ghost var links := [link] + [copy];
    assert links[1] == copy && multiset(link.nodes[..1])[link.nodes[0]] == 1;
    link.MoveToTail(1, callback, links, 0);
    assert Times(callback, 1, blank) == callback(Times(callback, 0, blank));
  }
}
