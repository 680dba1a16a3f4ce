/** The intrusive lists of list.h: links live in the nodes, which are elements of an array
    that several lists share.  Each operation is shown to be the one on sequences, and to
    write no node outside its list. */
module LinkedLists {

  import opened Sequences

  datatype Link = Nil | To(node: nat)

  datatype Node = Node(next: Link, prev: Link)

  function LinkAt(items: seq<nat>, i: int): Link {
    if 0 <= i < |items| then To(items[i]) else Nil
  }

  /** The next links run through `items`; those of a doubly linked list also run back. */
  ghost predicate Linked(nodes: seq<Node>, items: seq<nat>, doubly: bool) {
    forall i | 0 <= i < |items| :: LinksAt(nodes, items, doubly, i)
  }

  predicate LinksAt(nodes: seq<Node>, items: seq<nat>, doubly: bool, i: nat)
    requires i < |items|
  {
    && items[i] < |nodes|
    && nodes[items[i]].next == LinkAt(items, i + 1)
    && (doubly ==> nodes[items[i]].prev == LinkAt(items, i - 1))
  }

  /** Nodes outside `items` keep their links. */
  ghost predicate OthersSame(before: seq<Node>, after: seq<Node>, items: seq<nat>) {
    |after| == |before| && forall i | 0 <= i < |before| && i !in items :: after[i] == before[i]
  }

  function SetNext(nodes: seq<Node>, at: Link, next: Link): (m: seq<Node>)
    ensures |m| == |nodes|
  {
    if at.To? && at.node < |nodes| then nodes[at.node := nodes[at.node].(next := next)] else nodes
  }

  function SetPrev(nodes: seq<Node>, at: Link, prev: Link): (m: seq<Node>)
    ensures |m| == |nodes|
  {
    if at.To? && at.node < |nodes| then nodes[at.node := nodes[at.node].(prev := prev)] else nodes
  }

  function Inserted(items: seq<nat>, k: nat, x: nat): seq<nat>
    requires k <= |items|
  {
    items[..k] + [x] + items[k..]
  }

  function Removed(items: seq<nat>, k: nat): seq<nat>
    requires k < |items|
  {
    items[..k] + items[k + 1..]
  }

  lemma LinksOf(nodes: seq<Node>, items: seq<nat>, doubly: bool, i: nat)
    requires Linked(nodes, items, doubly) && i < |items|
    ensures items[i] < |nodes| && nodes[items[i]].next == LinkAt(items, i + 1)
    ensures doubly ==> nodes[items[i]].prev == LinkAt(items, i - 1)
  {
    assert LinksAt(nodes, items, doubly, i);
  }

  // ------------------------------------------------------------------ insertion

  lemma InsertedLinks(items: seq<nat>, k: nat, x: nat, i: nat)
    requires k <= |items| && i <= |items|
    ensures
      var f := Inserted(items, k, x);
      && |f| == |items| + 1
      && f[i] == (if i < k then items[i] else if i == k then x else items[i - 1])
      && LinkAt(f, i + 1) ==
           (if i + 1 < k then LinkAt(items, i + 1) else if i + 1 == k then To(x) else LinkAt(items, i))
      && LinkAt(f, i - 1) ==
           (if i - 1 < k then LinkAt(items, i - 1) else if i - 1 == k then To(x) else LinkAt(items, i - 2))
  {
  }

  lemma InsertedDistinct(items: seq<nat>, k: nat, x: nat)
    requires k <= |items| && Distinct(items) && x !in items
    ensures Distinct(Inserted(items, k, x))
  {
    var f := Inserted(items, k, x);
    forall i, j | 0 <= i < j < |f| ensures f[i] != f[j] {
      InsertedLinks(items, k, x, i);
      InsertedLinks(items, k, x, j);
    }
  }

  /** `x` is written with its two links, and its neighbours are turned towards it. */
  lemma InsertKeeps(nodes: seq<Node>, items: seq<nat>, doubly: bool, k: nat, x: nat, nodes': seq<Node>)
    requires Linked(nodes, items, doubly) && Distinct(items) && x !in items && x < |nodes| && k <= |items|
    requires |nodes'| == |nodes|
    requires nodes'[x].next == LinkAt(items, k) && (doubly ==> nodes'[x].prev == LinkAt(items, k - 1))
    requires forall i | 0 <= i < |items| ::
      && items[i] < |nodes| && nodes'[items[i]].next == (if i == k - 1 then To(x) else nodes[items[i]].next)
      && (doubly ==> nodes'[items[i]].prev == if i == k then To(x) else nodes[items[i]].prev)
    ensures Linked(nodes', Inserted(items, k, x), doubly) && Distinct(Inserted(items, k, x))
  {
    InsertedDistinct(items, k, x);
    var f := Inserted(items, k, x);
    forall i | 0 <= i < |f| ensures LinksAt(nodes', f, doubly, i) {
      hide Linked, Inserted, Distinct;
      InsertedLinks(items, k, x, i);
      if i < k {
        LinksOf(nodes, items, doubly, i);
      } else if i > k {
        LinksOf(nodes, items, doubly, i - 1);
      }
    }
  }

  // ------------------------------------------------------------------ removal

  lemma RemovedLinks(items: seq<nat>, k: nat, i: nat)
    requires k < |items| && i + 1 < |items|
    ensures
      var f := Removed(items, k);
      && |f| == |items| - 1
      && f[i] == items[if i < k then i else i + 1]
      && LinkAt(f, i + 1) == LinkAt(items, if i + 1 < k then i + 1 else i + 2)
      && LinkAt(f, i - 1) == LinkAt(items, if i - 1 < k then i - 1 else i)
  {
  }

  lemma RemovedDistinct(items: seq<nat>, k: nat)
    requires k < |items| && Distinct(items)
    ensures Distinct(Removed(items, k)) && items[k] !in Removed(items, k)
  {
    var f := Removed(items, k);
    forall i, j | 0 <= i < j < |f| ensures f[i] != f[j] {
      RemovedLinks(items, k, i);
      RemovedLinks(items, k, j);
    }
    forall i | 0 <= i < |f| ensures f[i] != items[k] {
      RemovedLinks(items, k, i);
    }
  }

  /** The neighbours of the node at `k` are turned towards each other. */
  lemma RemoveKeeps(nodes: seq<Node>, items: seq<nat>, doubly: bool, k: nat, nodes': seq<Node>)
    requires Linked(nodes, items, doubly) && Distinct(items) && k < |items| && |nodes'| == |nodes|
    requires forall i | 0 <= i < |items| && i != k ::
      && items[i] < |nodes|
      && nodes'[items[i]].next == (if i == k - 1 then LinkAt(items, k + 1) else nodes[items[i]].next)
      && (doubly ==> nodes'[items[i]].prev == if i == k + 1 then LinkAt(items, k - 1) else nodes[items[i]].prev)
    ensures Linked(nodes', Removed(items, k), doubly) && Distinct(Removed(items, k))
    ensures items[k] !in Removed(items, k)
  {
    RemovedDistinct(items, k);
    var f := Removed(items, k);
    forall i | 0 <= i < |f| ensures LinksAt(nodes', f, doubly, i) {
      RemoveKeepsAt(nodes, items, doubly, k, nodes', i);
    }
  }

  lemma RemoveKeepsAt(nodes: seq<Node>, items: seq<nat>, doubly: bool, k: nat, nodes': seq<Node>, i: nat)
    requires Linked(nodes, items, doubly) && k < |items| && |nodes'| == |nodes| && i + 1 < |items|
    requires forall j | 0 <= j < |items| && j != k ::
      && items[j] < |nodes|
      && nodes'[items[j]].next == (if j == k - 1 then LinkAt(items, k + 1) else nodes[items[j]].next)
      && (doubly ==> nodes'[items[j]].prev == if j == k + 1 then LinkAt(items, k - 1) else nodes[items[j]].prev)
    ensures
      var f := Removed(items, k);
      && f[i] < |nodes'| && nodes'[f[i]].next == LinkAt(f, i + 1)
      && (doubly ==> nodes'[f[i]].prev == LinkAt(f, i - 1))
  {
    hide Linked, Removed;
    RemovedLinks(items, k, i);
    LinksOf(nodes, items, doubly, if i < k then i else i + 1);
  }

  /** Turning the node at position `p` forward and the one at `q` back touches no other. */
  lemma WritesAt(nodes: seq<Node>, items: seq<nat>, doubly: bool, p: int, next: Link, q: int, prev: Link, i: nat)
    requires Linked(nodes, items, doubly) && Distinct(items) && i < |items|
    ensures
      var m := SetPrev(SetNext(nodes, LinkAt(items, p), next), LinkAt(items, q), prev);
      && items[i] < |nodes|
      && m[items[i]].next == (if i == p then next else nodes[items[i]].next)
      && m[items[i]].prev == (if i == q then prev else nodes[items[i]].prev)
  {
    LinksOf(nodes, items, doubly, i);
    if 0 <= p < |items| {
      LinksOf(nodes, items, doubly, p);
      assert i < p || p < i || i == p;
    }
    if 0 <= q < |items| {
      LinksOf(nodes, items, doubly, q);
      assert i < q || q < i || i == q;
    }
  }

  /** Memory after `x` went in before position `k`. */
  function Inserting(nodes: seq<Node>, items: seq<nat>, doubly: bool, k: nat, x: nat): (m: seq<Node>)
    requires x < |nodes|
  {
    var node := Node(LinkAt(items, k), if doubly then LinkAt(items, k - 1) else nodes[x].prev);
    SetPrev(SetNext(nodes[x := node], LinkAt(items, k - 1), To(x)), if doubly then LinkAt(items, k) else Nil, To(x))
  }

  lemma InsertingLinks(nodes: seq<Node>, items: seq<nat>, doubly: bool, k: nat, x: nat)
    requires Linked(nodes, items, doubly) && Distinct(items) && x !in items && x < |nodes| && k <= |items|
    ensures Linked(Inserting(nodes, items, doubly, k, x), Inserted(items, k, x), doubly)
    ensures Distinct(Inserted(items, k, x))
    ensures OthersSame(nodes, Inserting(nodes, items, doubly, k, x), Inserted(items, k, x))
  {
    var written := nodes[x := Node(LinkAt(items, k), if doubly then LinkAt(items, k - 1) else nodes[x].prev)];
    forall i | 0 <= i < |items| ensures LinksAt(written, items, doubly, i) {
      LinksOf(nodes, items, doubly, i);
    }
    var after := Inserting(nodes, items, doubly, k, x);
    forall i | 0 <= i < |items|
      ensures items[i] < |nodes| && after[items[i]].next == (if i == k - 1 then To(x) else nodes[items[i]].next)
      ensures doubly ==> after[items[i]].prev == if i == k then To(x) else nodes[items[i]].prev
    {
      WritesAt(written, items, doubly, k - 1, To(x), if doubly then k else -1, To(x), i);
    }
    NeighboursAreListed(items, k, x);
    InsertKeeps(nodes, items, doubly, k, x, after);
    InsertingOthers(nodes, items, doubly, k, x);
  }

  lemma InsertingOthers(nodes: seq<Node>, items: seq<nat>, doubly: bool, k: nat, x: nat)
    requires k <= |items| && x < |nodes|
    ensures OthersSame(nodes, Inserting(nodes, items, doubly, k, x), Inserted(items, k, x))
  {
    hide Inserted;
    InsertedMembers(items, k, x);
  }

  lemma InsertedMembers(items: seq<nat>, k: nat, x: nat)
    requires k <= |items|
    ensures x in Inserted(items, k, x) && forall y | y in items :: y in Inserted(items, k, x)
  {
    var f := Inserted(items, k, x);
    assert f[k] == x;
    forall y | y in items ensures y in f {
      var i :| 0 <= i < |items| && items[i] == y;
      assert f[if i < k then i else i + 1] == y;
    }
  }

  /** The ends of a list after an insertion or a removal. */
  lemma InsertedEnds(items: seq<nat>, k: nat, x: nat)
    requires k <= |items|
    ensures
      var f := Inserted(items, k, x);
      && |f| == |items| + 1
      && LinkAt(f, 0) == (if k == 0 then To(x) else LinkAt(items, 0))
      && LinkAt(f, |f| - 1) == (if k == |items| then To(x) else LinkAt(items, |items| - 1))
  {
  }

  lemma RemovedEnds(items: seq<nat>, k: nat)
    requires k < |items|
    ensures
      var f := Removed(items, k);
      && |f| == |items| - 1
      && LinkAt(f, 0) == (if k == 0 then LinkAt(items, 1) else LinkAt(items, 0))
      && LinkAt(f, |f| - 1) == (if k == |items| - 1 then LinkAt(items, |items| - 2) else LinkAt(items, |items| - 1))
  {
  }

  lemma NeighboursAreListed(items: seq<nat>, k: nat, x: nat)
    requires x !in items
    ensures LinkAt(items, k) != To(x) && LinkAt(items, k - 1) != To(x) && LinkAt(items, k + 1) != To(x)
  {
  }

  /** Memory after the node at position `k` was taken out. */
  function Removing(nodes: seq<Node>, items: seq<nat>, doubly: bool, k: nat): (m: seq<Node>)
    requires k < |items|
  {
    SetPrev(SetNext(nodes, LinkAt(items, k - 1), LinkAt(items, k + 1)),
            if doubly then LinkAt(items, k + 1) else Nil, LinkAt(items, k - 1))
  }

  lemma RemovingLinks(nodes: seq<Node>, items: seq<nat>, doubly: bool, k: nat)
    requires Linked(nodes, items, doubly) && Distinct(items) && k < |items|
    ensures Linked(Removing(nodes, items, doubly, k), Removed(items, k), doubly)
    ensures Distinct(Removed(items, k)) && items[k] !in Removed(items, k)
    ensures OthersSame(nodes, Removing(nodes, items, doubly, k), Removed(items, k))
  {
    var after := Removing(nodes, items, doubly, k);
    forall i | 0 <= i < |items| && i != k
      ensures items[i] < |nodes| &&
        after[items[i]].next == (if i == k - 1 then LinkAt(items, k + 1) else nodes[items[i]].next)
      ensures doubly ==> after[items[i]].prev == if i == k + 1 then LinkAt(items, k - 1) else nodes[items[i]].prev
    {
      hide Linked, Distinct;
      WritesAt(nodes, items, doubly, k - 1, LinkAt(items, k + 1),
               if doubly then k + 1 else -1, LinkAt(items, k - 1), i);
    }
    RemoveKeeps(nodes, items, doubly, k, after);
    RemovingOthers(nodes, items, doubly, k);
  }

  lemma RemovingOthers(nodes: seq<Node>, items: seq<nat>, doubly: bool, k: nat)
    requires k < |items|
    ensures OthersSame(nodes, Removing(nodes, items, doubly, k), Removed(items, k))
  {
    hide Removed;
    NeighboursStay(items, k);
  }

  lemma NeighboursStay(items: seq<nat>, k: nat)
    requires k < |items|
    ensures k > 0 ==> items[k - 1] in Removed(items, k)
    ensures k + 1 < |items| ==> items[k + 1] in Removed(items, k)
  {
    var f := Removed(items, k);
    if k > 0 {
      assert f[k - 1] == items[k - 1];
    }
    if k + 1 < |items| {
      assert f[k] == items[k + 1];
    }
  }

  /** The consistency checks of insert and remove: the neighbours of a listed node point
      back at it, and only an end of the list lacks one. */
  lemma NeighboursPointBack(nodes: seq<Node>, items: seq<nat>, k: nat)
    requires Linked(nodes, items, true) && Distinct(items) && k < |items|
    ensures items[k] < |nodes|
    ensures
      var x := items[k];
      var prev, next := nodes[x].prev, nodes[x].next;
      && (if k == 0 then prev == Nil else prev.To? && prev.node < |nodes| && nodes[prev.node].next == To(x))
      && (if k == |items| - 1 then next == Nil else next.To? && next.node < |nodes| && nodes[next.node].prev == To(x))
      && (prev == Nil <==> LinkAt(items, 0) == To(x)) && (next == Nil <==> LinkAt(items, |items| - 1) == To(x))
  {
    LinksOf(nodes, items, true, k);
    if k > 0 {
      LinksOf(nodes, items, true, k - 1);
    }
    if k + 1 < |items| {
      LinksOf(nodes, items, true, k + 1);
    }
  }

  /** Where a list's end pointers and the links of its node at `k` point. */
  lemma Ends(nodes: seq<Node>, items: seq<nat>, doubly: bool, k: nat)
    requires Linked(nodes, items, doubly)
    ensures items != [] ==> items[0] < |nodes| && items[|items| - 1] < |nodes|
    ensures k < |items| ==> items[k] < |nodes| && nodes[items[k]].next == LinkAt(items, k + 1)
    ensures k < |items| && doubly ==> nodes[items[k]].prev == LinkAt(items, k - 1)
    ensures k + 1 < |items| ==> items[k + 1] < |nodes|
    ensures 0 < k <= |items| ==> items[k - 1] < |nodes|
  {
    if items != [] {
      LinksOf(nodes, items, doubly, 0);
      LinksOf(nodes, items, doubly, |items| - 1);
    }
    if k < |items| {
      LinksOf(nodes, items, doubly, k);
    }
    if k + 1 < |items| {
      LinksOf(nodes, items, doubly, k + 1);
    }
    if 0 < k <= |items| {
      LinksOf(nodes, items, doubly, k - 1);
    }
  }

  // ------------------------------------------------------------------ the two kinds of list

  /** LinkOp::setNext and setPrev. */
  method WriteNext(nodes: array<Node>, at: Link, next: Link)
    requires at.To? && at.node < nodes.Length
    modifies nodes
    ensures nodes[..] == SetNext(old(nodes[..]), at, next)
  {
    nodes[at.node] := nodes[at.node].(next := next);
  }

  method WritePrev(nodes: array<Node>, at: Link, prev: Link)
    requires at.To? && at.node < nodes.Length
    modifies nodes
    ensures nodes[..] == SetPrev(old(nodes[..]), at, prev)
  {
    nodes[at.node] := nodes[at.node].(prev := prev);
  }

  /** The order in which list.h writes the links of an insertion does not matter. */
  lemma SameWrites(nodes: seq<Node>, items: seq<nat>, k: nat, x: nat)
    requires x !in items && x < |nodes| && k <= |items|
    ensures
      var l, r, t := LinkAt(items, k - 1), LinkAt(items, k), To(x);
      && SetNext(SetNext(nodes, t, r), l, t) == Inserting(nodes, items, false, k, x)
      && (l == Nil ==> SetNext(nodes, t, r) == Inserting(nodes, items, false, k, x))
      && (l == Nil ==> SetNext(SetPrev(SetPrev(nodes, t, Nil), r, t), t, r) == Inserting(nodes, items, true, k, x))
      && (l == r == Nil ==> SetNext(SetPrev(nodes, t, Nil), t, r) == Inserting(nodes, items, true, k, x))
  {
    NeighboursAreListed(items, k, x);
  }

  class SinglyLinkedList {
    const nodes: array<Node>
    var first: Link
    var last: Link
    var size: nat
    ghost var items: seq<nat>

    ghost predicate Valid()
      reads this, nodes
    {
      && Distinct(items) && Linked(nodes[..], items, false)
      && first == LinkAt(items, 0) && last == LinkAt(items, |items| - 1) && size == |items|
    }

    twostate predicate LeavesOthers()
      reads this, nodes
    {
      OthersSame(old(nodes[..]), nodes[..], items)
    }

    constructor (nodes: array<Node>)
      ensures Valid() && items == [] && this.nodes == nodes
    {
      this.nodes := nodes;
      first, last, size, items := Nil, Nil, 0, [];
    }

    /** The new list, once its links are written. */
    ghost method Settle(memory: seq<Node>, k: nat, x: nat)
      requires Linked(memory, items, false) && Distinct(items) && k <= |items| && x < nodes.Length == |memory|
      requires x !in items && nodes[..] == Inserting(memory, items, false, k, x)
      requires first == (if k == 0 then To(x) else LinkAt(items, 0)) && size == |items| + 1
      requires last == (if k == |items| then To(x) else LinkAt(items, |items| - 1))
      modifies this`items
      ensures Valid() && items == Inserted(old(items), k, x) && OthersSame(memory, nodes[..], items)
    {
      hide Linked, Distinct, Inserted, OthersSame, Inserting, LinkAt;
      InsertingLinks(memory, items, false, k, x);
      InsertedEnds(items, k, x);
      items := Inserted(items, k, x);
    }

    ghost method SettleRemoval(memory: seq<Node>, k: nat)
      requires Linked(memory, items, false) && Distinct(items) && k < |items|
      requires nodes[..] == Removing(memory, items, false, k)
      requires first == (if k == 0 then LinkAt(items, 1) else LinkAt(items, 0)) && size == |items| - 1
      requires last == (if k == |items| - 1 then LinkAt(items, |items| - 2) else LinkAt(items, |items| - 1))
      modifies this`items
      ensures Valid() && items == Removed(old(items), k) && OthersSame(memory, nodes[..], items)
    {
      hide Linked, Distinct, Removed, OthersSame, Removing, LinkAt;
      RemovingLinks(memory, items, false, k);
      RemovedEnds(items, k);
      items := Removed(items, k);
    }

    method PushBack(x: nat)
      requires Valid() && x < nodes.Length && x !in items
      modifies this, nodes
      ensures Valid() && items == Inserted(old(items), |old(items)|, x) && LeavesOthers()
    {
      ghost var memory := nodes[..];
      Ends(memory, items, false, |items|);
      SameWrites(memory, items, |items|, x);
      hide Linked, Distinct, OthersSame, Inserting, SetNext, SetPrev;
      WriteNext(nodes, To(x), Nil);
      if size == 0 {
        first := To(x);
      } else {
        WriteNext(nodes, last, To(x));
      }
      last := To(x);
      size := size + 1;
      Settle(memory, |items|, x);
    }

    method PushFront(x: nat)
      requires Valid() && x < nodes.Length && x !in items
      modifies this, nodes
      ensures Valid() && items == Inserted(old(items), 0, x) && LeavesOthers()
    {
      ghost var memory := nodes[..];
      SameWrites(memory, items, 0, x);
      hide Linked, Distinct, OthersSame, Inserting, SetNext, SetPrev;
      if size == 0 {
        last := To(x);
      }
      WriteNext(nodes, To(x), first);
      first := To(x);
      size := size + 1;
      Settle(memory, 0, x);
    }

    method PopFront()
      requires Valid() && items != []
      modifies this
      ensures Valid() && items == Removed(old(items), 0)
    {
      ghost var memory := nodes[..];
      Ends(memory, items, false, 0);
      hide Linked, Distinct, OthersSame;
      first := nodes[first.node].next;
      if first == Nil {
        last := Nil;
      }
      size := size - 1;
      SettleRemoval(memory, 0);
    }

    /** Inserts `x` behind `prev`. */
    method Insert(prev: nat, x: nat, ghost k: nat)
      requires Valid() && k < |items| && items[k] == prev && x < nodes.Length && x !in items
      modifies this, nodes
      ensures Valid() && items == Inserted(old(items), k + 1, x) && LeavesOthers()
    {
      ghost var memory := nodes[..];
      Ends(memory, items, false, k);
      LastIsLast(items, k);
      SameWrites(memory, items, k + 1, x);
      hide Linked, Distinct, OthersSame, Inserting, SetNext, SetPrev;
      WriteNext(nodes, To(x), nodes[prev].next);
      WriteNext(nodes, To(prev), To(x));
      if last == To(prev) {
        last := To(x);
      }
      size := size + 1;
      Settle(memory, k + 1, x);
    }

    /** Takes out `x`, which follows `prev`. */
    method Extract(prev: nat, x: nat, ghost k: nat)
      requires Valid() && k + 1 < |items| && items[k] == prev && items[k + 1] == x
      modifies this, nodes
      ensures Valid() && items == Removed(old(items), k + 1) && LeavesOthers()
    {
      ghost var memory := nodes[..];
      Ends(memory, items, false, k);
      Ends(memory, items, false, k + 1);
      LastIsLast(items, k + 1);
      hide Linked, Distinct, OthersSame;
      WriteNext(nodes, To(prev), nodes[x].next);
      if last == To(x) {
        last := To(prev);
      }
      size := size - 1;
      SettleRemoval(memory, k + 1);
    }

    /** Moves all of `other`, over the same nodes, to the end. */
    method AppendBack(other: SinglyLinkedList)
      requires Valid() && other.Valid() && other != this && other.nodes == nodes
      requires forall x | x in items :: x !in other.items
      modifies this, other, nodes
      ensures Valid() && other.Valid() && items == old(items) + old(other.items) && other.items == []
      ensures LeavesOthers()
    {
      ghost var memory, was, more := nodes[..], items, other.items;
      Ends(memory, was, false, 0);
      AppendEnds(was, more);
      if more != [] {
        AppendKeeps(SetNext(memory, LinkAt(was, |was| - 1), LinkAt(more, 0)), memory, was, more);
      }
      AppendDistinct(was, more);
      hide Linked, Distinct, OthersSame;
      if other.size == 0 {
        assert was + more == was;
        Untouched(memory, was);
        return;
      }
      if size == 0 {
        first, last, size := other.first, other.last, other.size;
      } else {
        WriteNext(nodes, last, other.first);
        last := other.last;
        size := size + other.size;
      }
      items := was + more;
      other.first, other.last, other.size, other.items := Nil, Nil, 0, [];
      NoLinks(nodes[..]);
    }
  }

  lemma LastIsLast(items: seq<nat>, k: nat)
    requires Distinct(items) && k < |items|
    ensures LinkAt(items, |items| - 1) == To(items[k]) <==> k == |items| - 1
    ensures LinkAt(items, 0) == To(items[k]) <==> k == 0
  {
    assert k < |items| - 1 ==> items[k] != items[|items| - 1];
    assert k > 0 ==> items[0] != items[k];
  }

  lemma Untouched(nodes: seq<Node>, items: seq<nat>)
    ensures OthersSame(nodes, nodes, items)
  {
  }

  lemma NoLinks(nodes: seq<Node>)
    ensures Linked(nodes, [], false) && Distinct([])
  {
  }

  lemma AppendEnds(a: seq<nat>, b: seq<nat>)
    ensures |a + b| == |a| + |b|
    ensures LinkAt(a + b, 0) == if a == [] then LinkAt(b, 0) else LinkAt(a, 0)
    ensures LinkAt(a + b, |a + b| - 1) == if b == [] then LinkAt(a, |a| - 1) else LinkAt(b, |b| - 1)
  {
  }

  lemma AppendDistinct(a: seq<nat>, b: seq<nat>)
    requires Distinct(a) && Distinct(b) && forall x | x in a :: x !in b
    ensures Distinct(a + b)
  {
    var all := a + b;
    forall i, j | 0 <= i < j < |all| ensures all[i] != all[j] {
      if i < |a| <= j {
        assert all[i] in a && all[j] in b;
      }
    }
  }

  lemma AppendKeeps(after: seq<Node>, nodes: seq<Node>, a: seq<nat>, b: seq<nat>)
    requires Linked(nodes, a, false) && Linked(nodes, b, false) && Distinct(a) && b != []
    requires forall x | x in a :: x !in b
    requires after == SetNext(nodes, LinkAt(a, |a| - 1), LinkAt(b, 0))
    ensures Linked(after, a + b, false)
    ensures OthersSame(nodes, after, a + b)
  {
    var all := a + b;
    assert a != [] ==> a[|a| - 1] in a && all[|a| - 1] == a[|a| - 1];
    forall i | 0 <= i < |all| ensures LinksAt(after, all, false, i) {
      hide Linked;
      if i < |a| {
        LinksOf(nodes, a, false, i);
        assert i < |a| - 1 ==> a[i] != a[|a| - 1];
      } else {
        LinksOf(nodes, b, false, i - |a|);
        assert b[i - |a|] in b;
      }
    }
  }

  class DoublyLinkedList {
    const nodes: array<Node>
    var first: Link
    var last: Link
    var size: nat
    ghost var items: seq<nat>

    ghost predicate Valid()
      reads this, nodes
    {
      && Distinct(items) && Linked(nodes[..], items, true)
      && first == LinkAt(items, 0) && last == LinkAt(items, |items| - 1) && size == |items|
    }

    twostate predicate LeavesOthers()
      reads this, nodes
    {
      OthersSame(old(nodes[..]), nodes[..], items)
    }

    constructor (nodes: array<Node>)
      ensures Valid() && items == [] && this.nodes == nodes
    {
      this.nodes := nodes;
      first, last, size, items := Nil, Nil, 0, [];
    }

    ghost method Settle(memory: seq<Node>, k: nat, x: nat)
      requires Linked(memory, items, true) && Distinct(items) && k <= |items| && x < nodes.Length == |memory|
      requires x !in items && nodes[..] == Inserting(memory, items, true, k, x)
      requires first == (if k == 0 then To(x) else LinkAt(items, 0)) && size == |items| + 1
      requires last == (if k == |items| then To(x) else LinkAt(items, |items| - 1))
      modifies this`items
      ensures Valid() && items == Inserted(old(items), k, x) && OthersSame(memory, nodes[..], items)
    {
      hide Linked, Distinct, Inserted, OthersSame, Inserting, LinkAt;
      InsertingLinks(memory, items, true, k, x);
      InsertedEnds(items, k, x);
      items := Inserted(items, k, x);
    }

    ghost method SettleRemoval(memory: seq<Node>, k: nat)
      requires Linked(memory, items, true) && Distinct(items) && k < |items|
      requires nodes[..] == Removing(memory, items, true, k)
      requires first == (if k == 0 then LinkAt(items, 1) else LinkAt(items, 0)) && size == |items| - 1
      requires last == (if k == |items| - 1 then LinkAt(items, |items| - 2) else LinkAt(items, |items| - 1))
      modifies this`items
      ensures Valid() && items == Removed(old(items), k) && OthersSame(memory, nodes[..], items)
    {
      hide Linked, Distinct, Removed, OthersSame, Removing, LinkAt;
      RemovingLinks(memory, items, true, k);
      RemovedEnds(items, k);
      items := Removed(items, k);
    }

    method PushFront(x: nat)
      requires Valid() && x < nodes.Length && x !in items
      modifies this, nodes
      ensures Valid() && items == Inserted(old(items), 0, x) && LeavesOthers()
    {
      ghost var memory := nodes[..];
      Ends(memory, items, true, 0);
      SameWrites(memory, items, 0, x);
      hide Linked, Distinct, OthersSame, Inserting, SetNext, SetPrev;
      WritePrev(nodes, To(x), Nil);
      if size == 0 {
        last := To(x);
      } else {
        WritePrev(nodes, first, To(x));
      }
      WriteNext(nodes, To(x), first);
      first := To(x);
      size := size + 1;
      Settle(memory, 0, x);
    }

    /** Inserts `x` before `y`. */
    method Insert(x: nat, y: nat, ghost k: nat)
      requires Valid() && k < |items| && items[k] == y && x < nodes.Length && x !in items
      modifies this, nodes
      ensures Valid() && items == Inserted(old(items), k, x) && LeavesOthers()
    {
      LastIsLast(items, k);
      if To(y) == first {
        PushFront(x);
        return;
      }
      ghost var memory := nodes[..];
      Ends(memory, items, true, k);
      InsertWrites(memory, items, k, x);
      NeighboursPointBack(memory, items, k);
      hide Linked, Distinct, OthersSame, Inserting, SetNext, SetPrev;
      var prev := nodes[y].prev;
      assert nodes[prev.node].next == To(y);
      WriteNext(nodes, prev, To(x));
      WritePrev(nodes, To(x), prev);
      WriteNext(nodes, To(x), To(y));
      WritePrev(nodes, To(y), To(x));
      size := size + 1;
      Settle(memory, k, x);
    }

    method PushBack(x: nat)
      requires Valid() && x < nodes.Length && x !in items
      modifies this, nodes
      ensures Valid() && items == Inserted(old(items), |old(items)|, x) && LeavesOthers()
    {
      ghost var memory := nodes[..];
      Ends(memory, items, true, |items|);
      PushBackWrites(memory, items, x);
      hide Linked, Distinct, OthersSame, Inserting, SetNext, SetPrev;
      WriteNext(nodes, To(x), Nil);
      if size == 0 {
        first := To(x);
      } else {
        WriteNext(nodes, last, To(x));
      }
      WritePrev(nodes, To(x), last);
      last := To(x);
      size := size + 1;
      Settle(memory, |items|, x);
    }

    method PopFront()
      requires Valid() && items != []
      modifies this, nodes
      ensures Valid() && items == Removed(old(items), 0) && LeavesOthers()
    {
      ghost var memory := nodes[..];
      Ends(memory, items, true, 0);
      hide Linked, Distinct, OthersSame;
      first := nodes[first.node].next;
      if first == Nil {
        last := Nil;
      } else {
        WritePrev(nodes, first, Nil);
      }
      size := size - 1;
      SettleRemoval(memory, 0);
    }

    method Remove(x: nat, ghost k: nat)
      requires Valid() && k < |items| && items[k] == x
      modifies this, nodes
      ensures Valid() && items == Removed(old(items), k) && LeavesOthers()
    {
      ghost var memory := nodes[..];
      Ends(memory, items, true, k);
      LastIsLast(items, k);
      NeighboursPointBack(memory, items, k);
      hide Linked, Distinct, OthersSame;
      var prev, next := nodes[x].prev, nodes[x].next;
      if prev != Nil {
        assert nodes[prev.node].next == To(x);
        WriteNext(nodes, prev, next);
      }
      if next != Nil {
        assert nodes[next.node].prev == To(x);
        WritePrev(nodes, next, prev);
      }
      assert (first == To(x) <==> prev == Nil) && (last == To(x) <==> next == Nil);
      if first == To(x) {
        first := next;
      }
      if last == To(x) {
        last := prev;
      }
      size := size - 1;
      SettleRemoval(memory, k);
    }
  }

  lemma InsertWrites(nodes: seq<Node>, items: seq<nat>, k: nat, x: nat)
    requires x !in items && x < |nodes| && 0 < k < |items|
    ensures
      var l, r, t := LinkAt(items, k - 1), LinkAt(items, k), To(x);
      SetPrev(SetNext(SetPrev(SetNext(nodes, l, t), t, l), t, r), r, t) == Inserting(nodes, items, true, k, x)
  {
    NeighboursAreListed(items, k, x);
  }

  lemma PushBackWrites(nodes: seq<Node>, items: seq<nat>, x: nat)
    requires x !in items && x < |nodes|
    ensures
      var l, t := LinkAt(items, |items| - 1), To(x);
      && SetPrev(SetNext(SetNext(nodes, t, Nil), l, t), t, l) == Inserting(nodes, items, true, |items|, x)
      && (l == Nil ==> SetNext(SetNext(nodes, t, Nil), l, t) == SetNext(nodes, t, Nil))
  {
    NeighboursAreListed(items, |items|, x);
  }
}
