/**
 The intrusive doubly linked list of kernel/lib/list.c, refined to the sequence of
 its nodes.
 */
module Lists {

  /** struct list_node */
  class ListNode {
    var next: ListNode?
    var prev: ListNode?
    var data: int

    constructor ()
    {
      next, prev, data := null, null, 0;
    }
  }

  /** The node at position i, or null beyond either end. */
  ghost function NodeAt(s: seq<ListNode>, i: int): ListNode?
  {
    if 0 <= i < |s| then s[i] else null
  }

  /** The links of the nodes of s lead along s in both directions, and no node occurs twice. */
  ghost predicate Linked(s: seq<ListNode>)
    reads s`next, s`prev
  {
    && (forall i :: 0 <= i < |s| ==> s[i].next == NodeAt(s, i + 1) && s[i].prev == NodeAt(s, i - 1))
    && AllDistinct(s)
  }

  ghost function Inserted(s: seq<ListNode>, i: nat, n: ListNode): seq<ListNode>
    requires i <= |s|
  {
    s[..i] + [n] + s[i..]
  }

  ghost function Removed(s: seq<ListNode>, i: nat): seq<ListNode>
    requires i < |s|
  {
    s[..i] + s[i + 1..]
  }

  /** The neighbours of the node at position i. */
  lemma Neighbours(s: seq<ListNode>, i: nat)
    requires Linked(s) && i < |s|
    ensures s[i].next == NodeAt(s, i + 1) && s[i].prev == NodeAt(s, i - 1)
    ensures forall j :: 0 <= j < |s| && j != i ==> s[j] != s[i]
    ensures 0 < i < |s| - 1 ==> s[i - 1] != s[i + 1]
  {}

  /** After the link writes of an insertion at position i. */
  twostate lemma InsertedLinked(new s: seq<ListNode>, new i: nat, new n: ListNode)
    requires old(allocated(s)) && old(Linked(s)) && i <= |s| && n !in s
    requires n.next == NodeAt(s, i) && n.prev == NodeAt(s, i - 1)
    requires forall j :: 0 <= j < |s| ==> s[j].next == if j == i - 1 then n else old(s[j].next)
    requires forall j :: 0 <= j < |s| ==> s[j].prev == if j == i then n else old(s[j].prev)
    ensures Linked(Inserted(s, i, n))
  {
    hide Inserted, NodeAt, AllDistinct;
    var t := Inserted(s, i, n);
    InsertedDistinct(s, i, n);
    forall k | 0 <= k < |t|
      ensures t[k].next == NodeAt(t, k + 1) && t[k].prev == NodeAt(t, k - 1)
    {
      NodeAtInserted(s, i, n, k);
      if k == i {
        InsertedLinks(s, i, n, k, n);
      } else {
        var j := if k < i then k else k - 1;
        assert t[k] == s[j];
        assert old(s[j].next == NodeAt(s, j + 1) && s[j].prev == NodeAt(s, j - 1));
        InsertedLinks(s, i, n, k, s[j]);
      }
    }
  }

  /** The node at position k has the neighbours that the insertion gives it. */
  lemma InsertedLinks(s: seq<ListNode>, i: nat, n: ListNode, k: nat, x: ListNode)
    requires i <= |s| && k <= |s|
    requires x.next == if k == i then NodeAt(s, i) else if k == i - 1 then n else NodeAt(s, if k < i then k + 1 else k)
    requires x.prev == if k == i then NodeAt(s, i - 1) else if k == i + 1 then n else NodeAt(s, if k < i then k - 1 else k - 2)
    ensures x.next == NodeAt(Inserted(s, i, n), k + 1) && x.prev == NodeAt(Inserted(s, i, n), k - 1)
  {
    hide Inserted, NodeAt;
    NodeAtInserted(s, i, n, k - 1);
    NodeAtInserted(s, i, n, k + 1);
  }

  lemma NodeAtInserted(s: seq<ListNode>, i: nat, n: ListNode, k: int)
    requires i <= |s|
    ensures |Inserted(s, i, n)| == |s| + 1
    ensures NodeAt(Inserted(s, i, n), k) == if k == i then n else NodeAt(s, if k < i then k else k - 1)
    ensures 0 <= k <= |s| ==> Inserted(s, i, n)[k] == if k == i then n else s[if k < i then k else k - 1]
  {}

  lemma NodeAtRemoved(s: seq<ListNode>, i: nat, k: int)
    requires i < |s|
    ensures |Removed(s, i)| == |s| - 1
    ensures NodeAt(Removed(s, i), k) == NodeAt(s, if k < i then k else k + 1)
    ensures 0 <= k < |s| - 1 ==> Removed(s, i)[k] == s[if k < i then k else k + 1]
  {}

  ghost predicate AllDistinct(s: seq<ListNode>)
  {
    forall i, j :: 0 <= i < j < |s| ==> s[i] != s[j]
  }

  lemma InsertedDistinct(s: seq<ListNode>, i: nat, n: ListNode)
    requires i <= |s| && n !in s && AllDistinct(s)
    ensures AllDistinct(Inserted(s, i, n))
  {}

  lemma RemovedDistinct(s: seq<ListNode>, i: nat)
    requires i < |s| && AllDistinct(s)
    ensures AllDistinct(Removed(s, i))
  {}

  /** After the link writes of a removal at position i. */
  twostate lemma RemovedLinked(new s: seq<ListNode>, new i: nat)
    requires old(allocated(s)) && old(Linked(s)) && i < |s|
    requires forall j :: 0 <= j < |s| && j != i ==> s[j].next == if j == i - 1 then NodeAt(s, i + 1) else old(s[j].next)
    requires forall j :: 0 <= j < |s| && j != i ==> s[j].prev == if j == i + 1 then NodeAt(s, i - 1) else old(s[j].prev)
    ensures Linked(Removed(s, i))
  {
    hide Removed, NodeAt, AllDistinct;
    var t := Removed(s, i);
    RemovedDistinct(s, i);
    forall k | 0 <= k < |t|
      ensures t[k].next == NodeAt(t, k + 1) && t[k].prev == NodeAt(t, k - 1)
    {
      NodeAtRemoved(s, i, k);
      var j := if k < i then k else k + 1;
      assert t[k] == s[j];
      assert old(s[j].next == NodeAt(s, j + 1) && s[j].prev == NodeAt(s, j - 1));
      RemovedLinks(s, i, k, s[j]);
    }
  }

  /** The node at position k has the neighbours that the removal gives it. */
  lemma RemovedLinks(s: seq<ListNode>, i: nat, k: nat, x: ListNode)
    requires i < |s| && k < |s| - 1
    requires x.next == if k == i - 1 then NodeAt(s, i + 1) else NodeAt(s, if k < i then k + 1 else k + 2)
    requires x.prev == if k == i then NodeAt(s, i - 1) else NodeAt(s, if k < i then k - 1 else k)
    ensures x.next == NodeAt(Removed(s, i), k + 1) && x.prev == NodeAt(Removed(s, i), k - 1)
  {
    hide Removed, NodeAt;
    NodeAtRemoved(s, i, k - 1);
    NodeAtRemoved(s, i, k + 1);
  }

  class List {
    var front: ListNode?
    var back: ListNode?
    ghost var nodes: seq<ListNode>

    ghost predicate Valid()
      reads this, nodes`next, nodes`prev
    {
      Linked(nodes) && front == NodeAt(nodes, 0) && back == NodeAt(nodes, |nodes| - 1)
    }

    constructor ()
      ensures Valid() && nodes == []
    {
      front, back, nodes := null, null, [];
    }

    /** list_insert_front */
    method InsertFront(node: ListNode, data: int)
      requires Valid() && node !in nodes
      modifies this, node, nodes`prev
      ensures Valid() && nodes == Inserted(old(nodes), 0, node) && node.data == data
    {
      hide Linked;
      if nodes != [] {
        Neighbours(nodes, 0);
      }
      if front != null {
        front.prev := node;
      }
      node.prev := null;
      node.next := front;
      node.data := data;
      front := node;
      if back == null {
        back := node;
      }
      InsertedLinked(nodes, 0, node);
      nodes := Inserted(nodes, 0, node);
    }

    /** list_insert_back */
    method InsertBack(node: ListNode, data: int)
      requires Valid() && node !in nodes
      modifies this, node, nodes`next
      ensures Valid() && nodes == Inserted(old(nodes), |old(nodes)|, node) && node.data == data
    {
      hide Linked;
      if nodes != [] {
        Neighbours(nodes, |nodes| - 1);
      }
      if back != null {
        back.next := node;
      }
      node.next := null;
      node.prev := back;
      node.data := data;
      back := node;
      if front == null {
        front := node;
      }
      InsertedLinked(nodes, |nodes|, node);
      nodes := Inserted(nodes, |nodes|, node);
    }

    /** list_insert_after */
    method InsertAfter(after: ListNode, node: ListNode, data: int, ghost i: nat)
      requires Valid() && node !in nodes && i < |nodes| && nodes[i] == after
      modifies this, node, nodes`next, nodes`prev
      ensures Valid() && nodes == Inserted(old(nodes), i + 1, node) && node.data == data
    {
      hide Linked;
      Neighbours(nodes, i);
      if i + 1 < |nodes| {
        Neighbours(nodes, i + 1);
      }
      Neighbours(nodes, |nodes| - 1);
      node.prev := after;
      node.next := after.next;
      node.data := data;
      if node.next != null {
        node.next.prev := node;
      }
      after.next := node;
      if back == after {
        back := node;
      }
      InsertedLinked(nodes, i + 1, node);
      nodes := Inserted(nodes, i + 1, node);
    }

    /** list_insert_before */
    method InsertBefore(before: ListNode, node: ListNode, data: int, ghost i: nat)
      requires Valid() && node !in nodes && i < |nodes| && nodes[i] == before
      modifies this, node, nodes`next, nodes`prev
      ensures Valid() && nodes == Inserted(old(nodes), i, node) && node.data == data
    {
      hide Linked;
      Neighbours(nodes, i);
      if i > 0 {
        Neighbours(nodes, i - 1);
      }
      Neighbours(nodes, 0);
      node.next := before;
      node.prev := before.prev;
      node.data := data;
      if node.prev != null {
        node.prev.next := node;
      }
      before.prev := node;
      if front == before {
        front := node;
      }
      InsertedLinked(nodes, i, node);
      nodes := Inserted(nodes, i, node);
    }

    /** list_remove_front */
    method RemoveFront() returns (removed: ListNode?)
      requires Valid()
      modifies this, nodes`prev
      ensures Valid() && removed == old(NodeAt(nodes, 0))
      ensures nodes == if old(nodes) == [] then [] else Removed(old(nodes), 0)
    {
      hide Linked;
      removed := front;
      if removed == null {
        return;
      }
      Neighbours(nodes, 0);
      if |nodes| > 1 {
        Neighbours(nodes, 1);
      }
      front := removed.next;
      if front != null {
        front.prev := null;
      } else {
        back := null;
      }
      RemovedLinked(nodes, 0);
      nodes := Removed(nodes, 0);
    }

    /** list_remove_back */
    method RemoveBack() returns (removed: ListNode?)
      requires Valid()
      modifies this, nodes`next
      ensures Valid() && removed == old(NodeAt(nodes, |nodes| - 1))
      ensures nodes == if old(nodes) == [] then [] else Removed(old(nodes), |old(nodes)| - 1)
    {
      hide Linked;
      removed := back;
      if removed == null {
        return;
      }
      Neighbours(nodes, |nodes| - 1);
      if |nodes| > 1 {
        Neighbours(nodes, |nodes| - 2);
      }
      back := removed.prev;
      if back != null {
        back.next := null;
      } else {
        front := null;
      }
      RemovedLinked(nodes, |nodes| - 1);
      nodes := Removed(nodes, |nodes| - 1);
    }

    /** list_remove_node */
    method RemoveNode(node: ListNode, ghost i: nat)
      requires Valid() && i < |nodes| && nodes[i] == node
      modifies this, nodes`next, nodes`prev
      ensures Valid() && nodes == Removed(old(nodes), i)
    {
      hide Linked;
      Neighbours(nodes, i);
      if i > 0 {
        Neighbours(nodes, i - 1);
      }
      if i + 1 < |nodes| {
        Neighbours(nodes, i + 1);
      }
      Neighbours(nodes, 0);
      Neighbours(nodes, |nodes| - 1);
      if node.prev != null {
        node.prev.next := node.next;
      }
      if node.next != null {
        node.next.prev := node.prev;
      }
      if node == front {
        front := node.next;
      }
      if node == back {
        back := node.prev;
      }
      if front == null || back == null {
        front, back := null, null;
      }
      RemovedLinked(nodes, i);
      nodes := Removed(nodes, i);
    }
  }
}
