/** The link-map records shared with the debugger, and what it means for them to form a list. */
module LinkMaps {
  import opened Sequences

  class LinkMap {
    const lAddr: nat
    var lPrev: LinkMap?
    var lNext: LinkMap?
    var lReal: LinkMap?

    constructor (lAddr: nat)
      ensures this.lAddr == lAddr && lPrev == null && lNext == null && lReal == null
    {
      this.lAddr := lAddr;
      lPrev, lNext, lReal := null, null, null;
    }
  }

  /** The nodes form a doubly linked list in this order, from `head` to `tail`. */
  ghost predicate Linked(head: LinkMap?, tail: LinkMap?, nodes: seq<LinkMap>)
    reads nodes
  {
    && NoDuplicates(nodes)
    && (nodes == [] ==> head == null && tail == null)
    && (nodes != [] ==>
          && head == nodes[0] && tail == nodes[|nodes| - 1]
          && nodes[0].lPrev == null && nodes[|nodes| - 1].lNext == null)
    && (forall i {:trigger nodes[i].lNext} :: 0 <= i < |nodes| - 1 ==> nodes[i].lNext == nodes[i + 1])
    && (forall i {:trigger nodes[i].lPrev} :: 0 < i < |nodes| ==> nodes[i].lPrev == nodes[i - 1])
  }

  /** Following `lNext` from `n` visits exactly these nodes and ends. */
  ghost predicate ChainForward(n: LinkMap?, nodes: seq<LinkMap>)
    reads nodes
    decreases |nodes|
  {
    if nodes == [] then n == null else n == nodes[0] && ChainForward(nodes[0].lNext, nodes[1..])
  }

  /** Following `lPrev` from `n` visits exactly these nodes, last one first, and ends. */
  ghost predicate ChainBackward(n: LinkMap?, nodes: seq<LinkMap>)
    reads nodes
    decreases |nodes|
  {
    if nodes == [] then n == null
    else n == nodes[|nodes| - 1] && ChainBackward(nodes[|nodes| - 1].lPrev, nodes[..|nodes| - 1])
  }

  /** The nodes are what a walk from the first finds along `lNext`, and one from the last along `lPrev`. */
  ghost predicate WalksBothWays(nodes: seq<LinkMap>)
    reads nodes
  {
    nodes != [] ==> ChainForward(nodes[0], nodes) && ChainBackward(nodes[|nodes| - 1], nodes)
  }

  /** A list is well linked exactly when a walk along `lNext` from the head visits the nodes in order and
      a walk along `lPrev` from the tail visits them in the reverse order. */
  lemma LinkedIsTwoWalks(head: LinkMap?, tail: LinkMap?, nodes: seq<LinkMap>)
    requires NoDuplicates(nodes)
    ensures Linked(head, tail, nodes) <==> ChainForward(head, nodes) && ChainBackward(tail, nodes)
  {
    ForwardWalk(head, nodes);
    BackwardWalk(tail, nodes);
  }

  lemma {:induction false} ForwardWalk(n: LinkMap?, nodes: seq<LinkMap>)
    ensures ChainForward(n, nodes) <==>
            && n == (if nodes == [] then null else nodes[0])
            && (nodes != [] ==> nodes[|nodes| - 1].lNext == null)
            && (forall i {:trigger nodes[i].lNext} :: 0 <= i < |nodes| - 1 ==> nodes[i].lNext == nodes[i + 1])
    decreases |nodes|
  {
    if nodes != [] {
      var rest := nodes[1..];
      ForwardWalk(nodes[0].lNext, rest);
      forall i | 1 <= i < |nodes| - 1
        ensures nodes[i].lNext == nodes[i + 1] <==> rest[i - 1].lNext == rest[i]
      {
      }
      if forall i {:trigger rest[i].lNext} :: 0 <= i < |rest| - 1 ==> rest[i].lNext == rest[i + 1] {
        forall i | 1 <= i < |nodes| - 1
          ensures nodes[i].lNext == nodes[i + 1]
        {
          assert rest[i - 1].lNext == rest[i - 1 + 1];
        }
      }
    }
  }

  lemma {:induction false} BackwardWalk(n: LinkMap?, nodes: seq<LinkMap>)
    ensures ChainBackward(n, nodes) <==>
            && n == (if nodes == [] then null else nodes[|nodes| - 1])
            && (nodes != [] ==> nodes[0].lPrev == null)
            && (forall i {:trigger nodes[i].lPrev} :: 0 < i < |nodes| ==> nodes[i].lPrev == nodes[i - 1])
    decreases |nodes|
  {
    if nodes != [] {
      BackwardWalk(nodes[|nodes| - 1].lPrev, nodes[..|nodes| - 1]);
    }
  }

  /** A walk visits one sequence only. */
  lemma {:induction false} ChainUnique(n: LinkMap?, a: seq<LinkMap>, b: seq<LinkMap>)
    requires ChainForward(n, a) && ChainForward(n, b)
    ensures a == b
    decreases |a|
  {
    if a != [] && b != [] {
      ChainUnique(a[0].lNext, a[1..], b[1..]);
      assert a == [a[0]] + a[1..] && b == [b[0]] + b[1..];
    }
  }

  /** No list starts at a node without a successor and ends at another. */
  lemma CutAtHead(head: LinkMap, tail: LinkMap?, nodes: seq<LinkMap>)
    requires head.lNext == null && tail != head
    ensures !Linked(head, tail, nodes)
  {
    if |nodes| > 1 && nodes[0] == head {
      assert nodes[0].lNext != nodes[0 + 1];
    }
  }

  /** Once nodes have been linked in one order, that is the only list that starts at any of them. */
  lemma LinkedOnlyAs(maps: seq<LinkMap>, head: LinkMap, tail: LinkMap?, nodes: seq<LinkMap>)
    requires NoDuplicates(maps) && maps != [] && WalksBothWays(maps) && head in maps
    ensures Linked(head, tail, nodes) <==> nodes == maps && head == maps[0] && tail == maps[|maps| - 1]
  {
    var last := maps[|maps| - 1];
    LinkedIsTwoWalks(maps[0], last, maps);
    assert forall i :: 0 < i < |maps| ==> maps[i].lPrev == maps[i - 1];
    if Linked(head, tail, nodes) {
      LinkedIsTwoWalks(head, tail, nodes);
      ChainUnique(head, nodes, maps);
    }
  }
}
