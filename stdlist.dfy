/**
 * The intrusive doubly-linked list: a list holds a head and a tail
 * sentinel element, and the elements between them are the entries. Only
 * initialisation and insertion have bodies in this library.
 */
module Stdlist {
  class ListElem {
    var prev: ListElem?
    var next: ListElem?

    constructor ()
      ensures prev == null && next == null
    {
      prev := null;
      next := null;
    }
  }

  /** `list_t`: two sentinel elements stored in the list itself, so never the same element. */
  class List {
    const head: ListElem
    const tail: ListElem

    constructor ()
      ensures fresh(head) && fresh(tail) && head != tail
    {
      head := new ListElem();
      tail := new ListElem();
    }
  }

  /**
   * nodes, from the head sentinel to the tail sentinel, are distinct and
   * linked forward by next and backward by prev, with nothing before the
   * head and nothing after the tail.
   */
  ghost predicate Linked(nodes: seq<ListElem>)
    reads nodes
  {
    && |nodes| >= 2
    && nodes[0].prev == null && nodes[|nodes| - 1].next == null
    && (forall i :: 0 <= i < |nodes| - 1 ==> nodes[i].next == nodes[i + 1])
    && (forall i :: 1 <= i < |nodes| ==> nodes[i].prev == nodes[i - 1])
    && (forall i, j :: 0 <= i < j < |nodes| ==> nodes[i] != nodes[j])
  }

  /** `list_init`: the two sentinels point at each other, so the list is empty. */
  method ListInit(l: List)
    requires l.head != l.tail
    modifies l.head, l.tail
    ensures l.head.prev == null && l.head.next == l.tail
    ensures l.tail.prev == l.head && l.tail.next == null
    ensures Linked([l.head, l.tail])
  {
    l.head.prev := null;
    l.head.next := l.tail;
    l.tail.prev := l.head;
    l.tail.next := null;
  }

  /**
   * `list_insert`: add goes immediately before `before`, between it and
   * its old predecessor; only those three elements change. Inserted into
   * a well-formed list it is not part of, add leaves the list well-formed
   * and one element longer.
   */
  method ListInsert(before: ListElem, add: ListElem, ghost nodes: seq<ListElem>, ghost k: nat)
    requires before.prev != null && add != before && add != before.prev
    modifies before, before.prev, add
    ensures old(before.prev).next == add && add.prev == old(before.prev)
    ensures add.next == before && before.prev == add
    ensures old(before.prev) != before ==> before.next == old(before.next) && old(before.prev).prev == old(before.prev.prev)
    ensures old(Linked(nodes)) && 1 <= k < |nodes| && nodes[k] == before && add !in nodes ==>
              Linked(nodes[..k] + [add] + nodes[k..])
  {
    ghost var wasLinked := Linked(nodes) && 1 <= k < |nodes| && nodes[k] == before && add !in nodes;
    ghost var p := before.prev;
    before.prev.next := add;
    add.prev := before.prev;
    add.next := before;
    before.prev := add;
    if wasLinked {
      InsertLinked(nodes, k, add, p, before);
    }
  }

  /**
   * The pointer state `list_insert` leaves, seen along the node sequence:
   * every link of nodes is intact except the one between nodes[k - 1] and
   * nodes[k], which now runs through add.
   */
  lemma InsertLinked(nodes: seq<ListElem>, k: nat, add: ListElem, p: ListElem, before: ListElem)
    requires 1 <= k < |nodes| && nodes[k] == before && nodes[k - 1] == p && add !in nodes
    requires nodes[0].prev == null && nodes[|nodes| - 1].next == null
    requires forall i :: 0 <= i < |nodes| - 1 && i != k - 1 ==> nodes[i].next == nodes[i + 1]
    requires forall i :: 1 <= i < |nodes| && i != k ==> nodes[i].prev == nodes[i - 1]
    requires forall i, j :: 0 <= i < j < |nodes| ==> nodes[i] != nodes[j]
    requires p.next == add && add.prev == p && add.next == before && before.prev == add
    ensures Linked(nodes[..k] + [add] + nodes[k..])
  {
    var s := nodes[..k] + [add] + nodes[k..];
    assert forall i :: 0 <= i < k ==> s[i] == nodes[i];
    assert forall i :: k < i < |s| ==> s[i] == nodes[i - 1];
    assert s[k] == add;
    forall i | 0 <= i < |s| - 1
      ensures s[i].next == s[i + 1]
    {
      if i == k - 1 {
      } else if i == k {
      } else if i < k {
        assert nodes[i].next == nodes[i + 1];
      } else {
        assert nodes[i - 1].next == nodes[i];
      }
    }
    forall i | 1 <= i < |s|
      ensures s[i].prev == s[i - 1]
    {
      if i == k {
      } else if i == k + 1 {
      } else if i < k {
        assert nodes[i].prev == nodes[i - 1];
      } else {
        assert nodes[i - 1].prev == nodes[i - 2];
      }
    }
    if k == |nodes| - 1 {
      assert s[|s| - 1] == before;
    }
  }
}
