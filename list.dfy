/**
  The arena doubly linked list: nodes live in one growable vector and refer
  to each other by index, with EMPTY_REF (u32::MAX) marking "no node". Node 0
  is always the head; `split_at` rewrites one node and appends its new
  successor, so nothing is ever removed.

  The logical order is kept in the ghost field `order` (order[i] is the index
  of the i-th node of the walk) with its inverse `pos`.
 */
module LinkLists {

  /** u32::MAX. */
  const EMPTY_REF: nat := 0xFFFF_FFFF

  datatype Node<T> = Node(prev: nat, next: nat, item: T)

  /** order and pos are inverse bijections of 0 .. |order| - 1. */
  ghost predicate IsInverse(order: seq<nat>, pos: seq<nat>)
  {
    && |order| == |pos|
    && (forall i :: 0 <= i < |order| ==> order[i] < |pos| && pos[order[i]] == i)
    && (forall j :: 0 <= j < |pos| ==> pos[j] < |order| && order[pos[j]] == j)
  }

  /**
    The well-formed list: every index fits below EMPTY_REF, node 0 comes
    first, and each node's prev and next are its neighbours in the order,
    EMPTY_REF at the two ends.
   */
  ghost predicate Linked<T>(nodes: seq<Node<T>>, order: seq<nat>, pos: seq<nat>)
  {
    && |nodes| <= EMPTY_REF
    && |order| == |nodes|
    && IsInverse(order, pos)
    && (|order| > 0 ==> order[0] == 0)
    && PrevLinked(nodes, order)
    && NextLinked(nodes, order)
  }

  /** Each node's prev is the node before it in the order, EMPTY_REF for the first. */
  ghost predicate PrevLinked<T>(nodes: seq<Node<T>>, order: seq<nat>)
    requires forall i :: 0 <= i < |order| ==> order[i] < |nodes|
  {
    forall i :: 0 <= i < |order| ==> nodes[order[i]].prev == (if i == 0 then EMPTY_REF else order[i - 1])
  }

  /** Each node's next is the node after it in the order, EMPTY_REF for the last. */
  ghost predicate NextLinked<T>(nodes: seq<Node<T>>, order: seq<nat>)
    requires forall i :: 0 <= i < |order| ==> order[i] < |nodes|
  {
    forall i :: 0 <= i < |order| ==> nodes[order[i]].next == (if i + 1 == |order| then EMPTY_REF else order[i + 1])
  }

  /** The items in walk order. */
  ghost function ContentsOf<T>(nodes: seq<Node<T>>, order: seq<nat>): seq<T>
    requires forall i :: 0 <= i < |order| ==> order[i] < |nodes|
  {
    seq(|order|, i requires 0 <= i < |order| => nodes[order[i]].item)
  }

  /** Follow next pointers from node j, at most fuel steps, stopping at any index outside the arena. */
  ghost function Walk<T>(nodes: seq<Node<T>>, j: nat, fuel: nat): seq<nat>
    decreases fuel
  {
    if fuel == 0 || j >= |nodes| then [] else [j] + Walk(nodes, nodes[j].next, fuel - 1)
  }

  /** Follow next pointers from node j like Walk, collecting the items instead of the indices. */
  function WalkItems<T>(nodes: seq<Node<T>>, j: nat, fuel: nat): (r: seq<T>)
    ensures |r| <= fuel
    ensures j < |nodes| && fuel > 0 ==> |r| >= 1 && r[0] == nodes[j].item
    decreases fuel
  {
    if fuel == 0 || j >= |nodes| then [] else [nodes[j].item] + WalkItems(nodes, nodes[j].next, fuel - 1)
  }

  /** Every link is EMPTY_REF or the index of a node of the arena. */
  predicate InArena<T>(nodes: seq<Node<T>>)
  {
    forall j :: 0 <= j < |nodes| ==>
      (nodes[j].prev == EMPTY_REF || nodes[j].prev < |nodes|) && (nodes[j].next == EMPTY_REF || nodes[j].next < |nodes|)
  }

  /** Back links agree with forward links in a well-formed list. */
  lemma LinksConsistent<T>(nodes: seq<Node<T>>, order: seq<nat>, pos: seq<nat>, j: nat)
    requires Linked(nodes, order, pos) && j < |nodes|
    ensures nodes[j].next != EMPTY_REF ==> nodes[j].next < |nodes| && nodes[nodes[j].next].prev == j
    ensures nodes[j].prev != EMPTY_REF ==> nodes[j].prev < |nodes| && nodes[nodes[j].prev].next == j
  {
    var i := pos[j];
    assert order[i] == j;
    if i + 1 < |order| {
      assert nodes[order[i + 1]].prev == order[i];
    }
    if i > 0 {
      assert nodes[order[i - 1]].next == order[i];
    }
  }

  /** A node's links name its neighbours in the order, and EMPTY_REF exactly at the ends. */
  lemma Neighbours<T>(nodes: seq<Node<T>>, order: seq<nat>, pos: seq<nat>, j: nat)
    requires Linked(nodes, order, pos) && j < |nodes|
    ensures pos[j] < |order| && order[pos[j]] == j
    ensures nodes[j].prev == EMPTY_REF <==> pos[j] == 0
    ensures pos[j] > 0 ==> nodes[j].prev == order[pos[j] - 1] && nodes[j].prev < |nodes|
    ensures nodes[j].next == EMPTY_REF <==> pos[j] + 1 == |order|
    ensures pos[j] + 1 < |order| ==> nodes[j].next == order[pos[j] + 1] && nodes[j].next < |nodes|
  {
    var p := pos[j];
    assert nodes[order[p]].prev == (if p == 0 then EMPTY_REF else order[p - 1]);
    assert nodes[order[p]].next == (if p + 1 == |order| then EMPTY_REF else order[p + 1]);
  }

  /** Walking from the node at position i meets exactly the rest of the order. */
  lemma {:induction false} WalkFrom<T>(nodes: seq<Node<T>>, order: seq<nat>, pos: seq<nat>, i: nat)
    requires Linked(nodes, order, pos) && i < |order|
    ensures Walk(nodes, order[i], |order| - i) == order[i..]
    decreases |order| - i
  {
    if i + 1 < |order| {
      WalkFrom(nodes, order, pos, i + 1);
      assert order[i..] == [order[i]] + order[i + 1..];
    } else {
      assert Walk(nodes, EMPTY_REF, 0) == [];
    }
  }

  /** A well-formed list keeps every link inside the arena. */
  lemma LinkedInArena<T>(nodes: seq<Node<T>>, order: seq<nat>, pos: seq<nat>)
    requires Linked(nodes, order, pos)
    ensures InArena(nodes)
  {
    forall j | 0 <= j < |nodes|
      ensures nodes[j].prev == EMPTY_REF || nodes[j].prev < |nodes|
      ensures nodes[j].next == EMPTY_REF || nodes[j].next < |nodes|
    {
      Neighbours(nodes, order, pos, j);
    }
  }

  /** Collecting the items from the node at position i gives the rest of the contents. */
  lemma {:induction false} WalkItemsFrom<T>(nodes: seq<Node<T>>, order: seq<nat>, pos: seq<nat>, i: nat)
    requires Linked(nodes, order, pos) && i < |order|
    ensures WalkItems(nodes, order[i], |order| - i) == ContentsOf(nodes, order)[i..]
    decreases |order| - i
  {
    var c := ContentsOf(nodes, order);
    if i + 1 < |order| {
      WalkItemsFrom(nodes, order, pos, i + 1);
      assert c[i..] == [c[i]] + c[i + 1..];
    } else {
      assert WalkItems(nodes, EMPTY_REF, 0) == [];
      assert c[i..] == [c[i]];
    }
  }

  /** Collecting the items from node 0 gives the contents in the logical order. */
  lemma WalkItemsContents<T>(nodes: seq<Node<T>>, order: seq<nat>, pos: seq<nat>)
    requires Linked(nodes, order, pos)
    ensures WalkItems(nodes, 0, |nodes|) == ContentsOf(nodes, order)
  {
    if |nodes| > 0 {
      WalkItemsFrom(nodes, order, pos, 0);
      assert ContentsOf(nodes, order)[0..] == ContentsOf(nodes, order);
    }
  }

  /** Walking from node 0 visits every node exactly once, in the logical order. */
  lemma WalkVisitsAll<T>(nodes: seq<Node<T>>, order: seq<nat>, pos: seq<nat>)
    requires Linked(nodes, order, pos)
    ensures Walk(nodes, 0, |nodes|) == order
    ensures forall j :: 0 <= j < |nodes| ==> j in Walk(nodes, 0, |nodes|)
    ensures forall i, i' :: 0 <= i < i' < |nodes| ==> Walk(nodes, 0, |nodes|)[i] != Walk(nodes, 0, |nodes|)[i']
  {
    if |nodes| > 0 {
      WalkFrom(nodes, order, pos, 0);
      assert order[0..] == order;
    }
    forall j | 0 <= j < |nodes|
      ensures j in order
    {
      assert order[pos[j]] == j;
    }
  }

  /**
    The arena after `split_at(index, a, b)`: node index holds a and points to
    the appended node, which holds b between index and the old successor;
    that successor, when it is a node, now points back to the appended one.
   */
  function SplitNodes<T>(nodes: seq<Node<T>>, index: nat, a: T, b: T): (r: seq<Node<T>>)
    requires index < |nodes|
    ensures |r| == |nodes| + 1
    ensures var next := nodes[index].next;
            && r[index].item == a && r[index].next == |nodes|
            && r[|nodes|].item == b && r[|nodes|].prev == (if next == |nodes| then |nodes| else index)
            && r[|nodes|].next == next
            && (next != index ==> r[index].prev == nodes[index].prev)
            && (next < |nodes| && next != index ==> r[next] == nodes[next].(prev := |nodes|))
            && (forall j :: 0 <= j < |nodes| && j != index && j != next ==> r[j] == nodes[j])
  {
    var newIndex := |nodes|;
    var node := nodes[index];
    var next := node.next;
    var written := nodes[index := Node(node.prev, newIndex, a)] + [Node(index, next, b)];
    if next < |written| then written[next := written[next].(prev := newIndex)] else written
  }

  /** A split keeps every link inside the arena: the new links all name index or the appended node. */
  lemma SplitInArena<T>(nodes: seq<Node<T>>, index: nat, a: T, b: T)
    requires InArena(nodes) && index < |nodes|
    ensures InArena(SplitNodes(nodes, index, a, b))
  {
    var r := SplitNodes(nodes, index, a, b);
    var next := nodes[index].next;
    forall j | 0 <= j < |r|
      ensures r[j].prev == EMPTY_REF || r[j].prev < |r|
      ensures r[j].next == EMPTY_REF || r[j].next < |r|
    {
      if j == index && next == index {
        assert r[j].prev == |nodes|;
      }
    }
  }

  /** The order after a split: the appended node comes right after position p. */
  ghost function SplitOrder(order: seq<nat>, p: nat, x: nat): seq<nat>
    requires p < |order|
  {
    order[..p + 1] + [x] + order[p + 1..]
  }

  ghost function SplitPos(pos: seq<nat>, p: nat): seq<nat>
  {
    seq(|pos| + 1, j requires 0 <= j < |pos| + 1 => if j == |pos| then p + 1 else if pos[j] > p then pos[j] + 1 else pos[j])
  }

  lemma SplitInverse(order: seq<nat>, pos: seq<nat>, p: nat)
    requires IsInverse(order, pos) && p < |order|
    ensures IsInverse(SplitOrder(order, p, |order|), SplitPos(pos, p))
  {
    var n := |order|;
    var o := SplitOrder(order, p, n);
    var q := SplitPos(pos, p);
    forall i | 0 <= i < n + 1
      ensures o[i] < |q| && q[o[i]] == i
    {
      SplitOrderAt(order, p, n, i);
      if i <= p {
        InverseAt(order, pos, i);
        SplitPosAt(pos, p, order[i]);
      } else if i == p + 1 {
        SplitPosAt(pos, p, n);
      } else {
        InverseAt(order, pos, i - 1);
        SplitPosAt(pos, p, order[i - 1]);
      }
    }
    forall j | 0 <= j < n + 1
      ensures q[j] < |o| && o[q[j]] == j
    {
      SplitPosAt(pos, p, j);
      if j < n {
        InverseAtPos(order, pos, j);
        SplitOrderAt(order, p, n, q[j]);
      } else {
        SplitOrderAt(order, p, n, p + 1);
      }
    }
  }

  lemma InverseAt(order: seq<nat>, pos: seq<nat>, i: nat)
    requires IsInverse(order, pos) && i < |order|
    ensures order[i] < |pos| && pos[order[i]] == i
  {
  }

  lemma InverseAtPos(order: seq<nat>, pos: seq<nat>, j: nat)
    requires IsInverse(order, pos) && j < |pos|
    ensures pos[j] < |order| && order[pos[j]] == j
  {
  }

  /** The positions after a split, node by node. */
  lemma SplitPosAt(pos: seq<nat>, p: nat, j: nat)
    requires j < |pos| + 1
    ensures |SplitPos(pos, p)| == |pos| + 1
    ensures SplitPos(pos, p)[j] == if j == |pos| then p + 1 else if pos[j] > p then pos[j] + 1 else pos[j]
  {
  }

  /** The order after a split, position by position. */
  lemma SplitOrderAt(order: seq<nat>, p: nat, x: nat, i: nat)
    requires p < |order| && i < |order| + 1
    ensures SplitOrder(order, p, x)[i] == if i <= p then order[i] else if i == p + 1 then x else order[i - 1]
  {
  }

  /** The node at position i after a split has the links and item its new position calls for. */
  ghost predicate SplitLinkHolds<T>(nodes: seq<Node<T>>, order: seq<nat>, pos: seq<nat>, index: nat, a: T, b: T, i: nat)
    requires Linked(nodes, order, pos)
    requires index < |nodes| && i < |nodes| + 1
  {
    var r := SplitNodes(nodes, index, a, b);
    var o := SplitOrder(order, pos[index], |nodes|);
    && o[i] < |r|
    && r[o[i]].prev == (if i == 0 then EMPTY_REF else o[i - 1])
    && r[o[i]].next == (if i == |nodes| then EMPTY_REF else o[i + 1])
    && r[o[i]].item == (if i < pos[index] then nodes[order[i]].item
                        else if i == pos[index] then a
                        else if i == pos[index] + 1 then b
                        else nodes[order[i - 1]].item)
  }

  /** The links of the node at position i after a split, case by case on where i lies. */
  lemma SplitLinkAt<T>(nodes: seq<Node<T>>, order: seq<nat>, pos: seq<nat>, index: nat, a: T, b: T, i: nat)
    requires Linked(nodes, order, pos)
    requires index < |nodes| < EMPTY_REF
    requires i < |nodes| + 1
    ensures SplitLinkHolds(nodes, order, pos, index, a, b, i)
  {
    var p := pos[index];
    if i < p {
      SplitLinkBefore(nodes, order, pos, index, a, b, i);
    } else if i == p {
      SplitLinkSplit(nodes, order, pos, index, a, b);
    } else if i == p + 1 {
      SplitLinkNew(nodes, order, pos, index, a, b);
    } else if i == p + 2 {
      SplitLinkSuccessor(nodes, order, pos, index, a, b);
    } else {
      SplitLinkAfter(nodes, order, pos, index, a, b, i);
    }
  }

  /** Nodes before the split one keep their links. */
  lemma SplitLinkBefore<T>(nodes: seq<Node<T>>, order: seq<nat>, pos: seq<nat>, index: nat, a: T, b: T, i: nat)
    requires Linked(nodes, order, pos)
    requires index < |nodes| < EMPTY_REF
    requires i < pos[index]
    ensures SplitLinkHolds(nodes, order, pos, index, a, b, i)
  {
    var n, p := |nodes|, pos[index];
    NodeAt(nodes, order, pos, p);
    NodeAt(nodes, order, pos, i);
    SplitOrderAt(order, p, n, i);
    SplitOrderAt(order, p, n, i + 1);
    if i > 0 {
      SplitOrderAt(order, p, n, i - 1);
    }
    if p + 1 < n {
      NodeAt(nodes, order, pos, p + 1);
    }
  }

  /** The split node keeps its prev and now points to the appended node. */
  lemma SplitLinkSplit<T>(nodes: seq<Node<T>>, order: seq<nat>, pos: seq<nat>, index: nat, a: T, b: T)
    requires Linked(nodes, order, pos)
    requires index < |nodes| < EMPTY_REF
    ensures SplitLinkHolds(nodes, order, pos, index, a, b, pos[index])
  {
    var n, p := |nodes|, pos[index];
    NodeAt(nodes, order, pos, p);
    SplitOrderAt(order, p, n, p);
    SplitOrderAt(order, p, n, p + 1);
    if p > 0 {
      SplitOrderAt(order, p, n, p - 1);
    }
    if p + 1 < n {
      NodeAt(nodes, order, pos, p + 1);
    }
  }

  /** The appended node sits between the split node and its old successor. */
  lemma SplitLinkNew<T>(nodes: seq<Node<T>>, order: seq<nat>, pos: seq<nat>, index: nat, a: T, b: T)
    requires Linked(nodes, order, pos)
    requires index < |nodes| < EMPTY_REF
    ensures SplitLinkHolds(nodes, order, pos, index, a, b, pos[index] + 1)
  {
    var n, p := |nodes|, pos[index];
    NodeAt(nodes, order, pos, p);
    SplitOrderAt(order, p, n, p);
    SplitOrderAt(order, p, n, p + 1);
    if p + 1 < n {
      SplitOrderAt(order, p, n, p + 2);
      NodeAt(nodes, order, pos, p + 1);
    }
  }

  /** The old successor now points back to the appended node. */
  lemma SplitLinkSuccessor<T>(nodes: seq<Node<T>>, order: seq<nat>, pos: seq<nat>, index: nat, a: T, b: T)
    requires Linked(nodes, order, pos)
    requires index < |nodes| < EMPTY_REF
    requires pos[index] + 2 < |nodes| + 1
    ensures SplitLinkHolds(nodes, order, pos, index, a, b, pos[index] + 2)
  {
    var n, p := |nodes|, pos[index];
    NodeAt(nodes, order, pos, p);
    NodeAt(nodes, order, pos, p + 1);
    SplitOrderAt(order, p, n, p + 1);
    SplitOrderAt(order, p, n, p + 2);
    if p + 2 < n {
      SplitOrderAt(order, p, n, p + 3);
    }
  }

  /** Nodes after the old successor keep their links, one position further on. */
  lemma SplitLinkAfter<T>(nodes: seq<Node<T>>, order: seq<nat>, pos: seq<nat>, index: nat, a: T, b: T, i: nat)
    requires Linked(nodes, order, pos)
    requires index < |nodes| < EMPTY_REF
    requires pos[index] + 2 < i < |nodes| + 1
    ensures SplitLinkHolds(nodes, order, pos, index, a, b, i)
  {
    var n, p := |nodes|, pos[index];
    NodeAt(nodes, order, pos, p);
    NodeAt(nodes, order, pos, p + 1);
    NodeAt(nodes, order, pos, i - 1);
    var j := order[i - 1];
    assert j != index && j != nodes[index].next;
    assert SplitNodes(nodes, index, a, b)[j] == nodes[j];
    SplitOrderAt(order, p, n, i);
    SplitOrderAt(order, p, n, i - 1);
    if i < n {
      SplitOrderAt(order, p, n, i + 1);
    }
  }

  /** The links of the node at position i of a well-formed list. */
  lemma NodeAt<T>(nodes: seq<Node<T>>, order: seq<nat>, pos: seq<nat>, i: nat)
    requires Linked(nodes, order, pos) && i < |order|
    ensures order[i] < |nodes| && pos[order[i]] == i
    ensures nodes[order[i]].prev == (if i == 0 then EMPTY_REF else order[i - 1])
    ensures nodes[order[i]].next == (if i + 1 == |order| then EMPTY_REF else order[i + 1])
  {
  }

  /** Splitting keeps the list well formed and splices a, b in place of the split item. */
  lemma SplitKeepsLinked<T>(nodes: seq<Node<T>>, order: seq<nat>, pos: seq<nat>, index: nat, a: T, b: T)
    requires Linked(nodes, order, pos)
    requires index < |nodes| < EMPTY_REF
    ensures Linked(SplitNodes(nodes, index, a, b), SplitOrder(order, pos[index], |nodes|), SplitPos(pos, pos[index]))
    ensures ContentsOf(SplitNodes(nodes, index, a, b), SplitOrder(order, pos[index], |nodes|))
            == ContentsOf(nodes, order)[..pos[index]] + [a, b] + ContentsOf(nodes, order)[pos[index] + 1..]
  {
    SplitStaysLinked(nodes, order, pos, index, a, b);
    SplitContents(nodes, order, pos, index, a, b);
  }

  lemma SplitStaysLinked<T>(nodes: seq<Node<T>>, order: seq<nat>, pos: seq<nat>, index: nat, a: T, b: T)
    requires Linked(nodes, order, pos)
    requires index < |nodes| < EMPTY_REF
    ensures Linked(SplitNodes(nodes, index, a, b), SplitOrder(order, pos[index], |nodes|), SplitPos(pos, pos[index]))
  {
    var n := |nodes|;
    var p := pos[index];
    var r := SplitNodes(nodes, index, a, b);
    var o := SplitOrder(order, p, n);
    SplitInverse(order, pos, p);
    SplitOrderAt(order, p, n, 0);
    assert |o| == n + 1 && |r| == n + 1;
    forall i | 0 <= i < |o|
      ensures o[i] < |r|
      ensures r[o[i]].prev == (if i == 0 then EMPTY_REF else o[i - 1])
      ensures r[o[i]].next == (if i + 1 == |o| then EMPTY_REF else o[i + 1])
    {
      SplitLinkAt(nodes, order, pos, index, a, b, i);
    }
    assert PrevLinked(r, o);
    assert NextLinked(r, o);
  }

  lemma SplitContents<T>(nodes: seq<Node<T>>, order: seq<nat>, pos: seq<nat>, index: nat, a: T, b: T)
    requires Linked(nodes, order, pos)
    requires index < |nodes| < EMPTY_REF
    ensures ContentsOf(SplitNodes(nodes, index, a, b), SplitOrder(order, pos[index], |nodes|))
            == ContentsOf(nodes, order)[..pos[index]] + [a, b] + ContentsOf(nodes, order)[pos[index] + 1..]
  {
    var n := |nodes|;
    var p := pos[index];
    var r := SplitNodes(nodes, index, a, b);
    var o := SplitOrder(order, p, n);
    var c := ContentsOf(nodes, order);
    var c' := ContentsOf(r, o);
    var spliced := c[..p] + [a, b] + c[p + 1..];
    assert |c'| == |spliced|;
    forall i | 0 <= i < n + 1
      ensures c'[i] == spliced[i]
    {
      SplitLinkAt(nodes, order, pos, index, a, b, i);
    }
  }

  class LinkList<T> {
    var nodes: seq<Node<T>>
    ghost var order: seq<nat>
    ghost var pos: seq<nat>

    ghost predicate Valid()
      reads this
    {
      Linked(nodes, order, pos)
    }

    /** The items in walk order. */
    ghost function Contents(): seq<T>
      reads this
      requires Valid()
    {
      ContentsOf(nodes, order)
    }

    /** The arena size, which is the number of listed items. */
    function Len(): (r: nat)
      reads this
      ensures Valid() ==> r == |Contents()|
    {
      |nodes|
    }

    /**
      `LinkList::new`: node i sits at index i, between i - 1 and i + 1, with
      EMPTY_REF before the first and after the last.
     */
    constructor (items: seq<T>)
      requires |items| < EMPTY_REF
      ensures |nodes| == |items|
      ensures forall i :: 0 <= i < |items| ==>
                nodes[i] == Node(if i == 0 then EMPTY_REF else i - 1, if i == |items| - 1 then EMPTY_REF else i + 1, items[i])
      ensures Valid() && Contents() == items
    {
      var ns: seq<Node<T>> := [];
      if |items| > 0 {
        var prev := EMPTY_REF;
        var next := 1;
        var i := 0;
        while i < |items|
          invariant 0 <= i <= |items|
          invariant next == i + 1
          invariant prev == if i == 0 then EMPTY_REF else i - 1
          invariant |ns| == i
          invariant forall j :: 0 <= j < i ==> ns[j] == Node(if j == 0 then EMPTY_REF else j - 1, j + 1, items[j])
        {
          ns := ns + [Node(prev, next, items[i])];
          prev := next - 1;
          next := next + 1;
          i := i + 1;
        }
        ns := ns[|ns| - 1 := ns[|ns| - 1].(next := EMPTY_REF)];
      }
      nodes := ns;
      order := seq(|items|, j requires 0 <= j < |items| => j);
      pos := seq(|items|, j requires 0 <= j < |items| => j);
    }

    /**
      `split_at(index, a, b)`: node index now holds a, the appended node b
      follows it; returns (index, old length).
     */
    method SplitAt(index: nat, a: T, b: T) returns (i0: nat, i1: nat)
      requires Valid()
      requires index < |nodes| < EMPTY_REF
      modifies this
      ensures i0 == index && i1 == old(|nodes|)
      ensures nodes == SplitNodes(old(nodes), index, a, b)
      ensures order == SplitOrder(old(order), old(pos[index]), i1)
      ensures Valid()
      ensures Contents() == old(Contents())[..old(pos[index])] + [a, b] + old(Contents())[old(pos[index]) + 1..]
    {
      SplitKeepsLinked(nodes, order, pos, index, a, b);
      var p := pos[index];
      var newIndex := |nodes|;
      var node := nodes[index];
      var next := node.next;
      nodes := nodes[index := Node(node.prev, newIndex, a)];
      nodes := nodes + [Node(index, next, b)];
      if next < |nodes| {
        nodes := nodes[next := nodes[next].(prev := newIndex)];
      }
      order := SplitOrder(order, p, newIndex);
      pos := SplitPos(pos, p);
      return index, newIndex;
    }

    /** Walk the next pointers from node 0 until EMPTY_REF, collecting the items. */
    method Items() returns (items: seq<T>)
      requires Valid()
      ensures items == Contents()
      ensures items == WalkItems(nodes, 0, |nodes|)
    {
      WalkItemsContents(nodes, order, pos);
      items := [];
      if |nodes| == 0 {
        return;
      }
      var index := 0;
      while index != EMPTY_REF
        invariant |items| <= |nodes|
        invariant index == if |items| == |nodes| then EMPTY_REF else order[|items|]
        invariant items == Contents()[..|items|]
        decreases |nodes| - |items|
      {
        var node := nodes[index];
        ghost var k := |items|;
        assert k < |order| && NextLinked(nodes, order);
        assert nodes[order[k]].next == (if k + 1 == |order| then EMPTY_REF else order[k + 1]);
        assert Contents()[..k + 1] == Contents()[..k] + [nodes[order[k]].item];
        items := items + [node.item];
        index := node.next;
      }
    }
  }

  /** The unit test: splitting node 1 of [0, 1, 3] stores 2 at index 3 and lists 0, 1, 2, 3. */
  method SplitExample() returns (stored: seq<int>, walked: seq<int>)
    ensures stored == [0, 1, 3, 2]
    ensures walked == [0, 1, 2, 3]
  {
    var list := new LinkList([0, 1, 3]);
    var _, _ := list.SplitAt(1, 1, 2);
    stored := [list.nodes[0].item, list.nodes[1].item, list.nodes[2].item, list.nodes[3].item];
    walked := list.Items();
  }
}
