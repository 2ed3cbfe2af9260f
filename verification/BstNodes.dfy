/**
 The node structures of kernel/lib/bst.c: parent links, cached height and balance
 factor, the walks over them and the two cache repairs.

 Each method takes the tree value `t` that the node structure represents.
 */
module BstNodes {
  import opened AvlTrees

  // ------------------------------------------------------------ a structure represents a tree

  /** Child, parent and key fields agree with the tree; p is the parent of its root. */
  ghost predicate Linked(t: Tree, p: Node?)
    reads Nodes(t)`parent, Nodes(t)`left, Nodes(t)`right, Nodes(t)`key
  {
    t.Branch? ==>
      && t.node.parent == p && t.node.left == Root(t.left) && t.node.right == Root(t.right) && t.node.key == t.key
      && Linked(t.left, t.node) && Linked(t.right, t.node)
  }

  /** Cached heights are exact outside S. */
  ghost predicate Heights(t: Tree, S: set<Node>)
    reads Nodes(t)`height
  {
    t.Branch? ==>
      && (t.node !in S ==> t.node.height == Depth(t) - 1)
      && Heights(t.left, S) && Heights(t.right, S)
  }

  /** Cached balance factors are exact outside S. */
  ghost predicate Factors(t: Tree, S: set<Node>)
    reads Nodes(t)`bf
  {
    t.Branch? ==>
      && (t.node !in S ==> t.node.bf == Balance(t))
      && Factors(t.left, S) && Factors(t.right, S)
  }

  /** The nodes of a tree at hand exist already. */
  lemma NodesExist(t: Tree)
    ensures forall x :: x in Nodes(t) ==> allocated(x)
  {
    if t.Branch? {
      NodesExist(t.left);
      NodesExist(t.right);
    }
  }

  // ------------------------------------------------------------ reading one node

  lemma {:induction false} NodeLinks(t: Tree, p: Node?, n: Node)
    requires Linked(t, p) && Distinct(t) && n in Nodes(t)
    ensures var s := Sub(t, n);
            && s.Branch? && s.node == n && n.left == Root(s.left) && n.right == Root(s.right) && n.key == s.key
            && n.parent == (if ParentIn(t, n) == null then p else ParentIn(t, n))
            && Nodes(s) <= Nodes(t) && Linked(s, n.parent)
  {
    SubFacts(t, n);
    ParentInside(t, n);
    if t.node != n {
      var side := if n in Nodes(t.left) then t.left else t.right;
      NodeLinks(side, t.node, n);
      ParentInside(side, n);
    }
  }

  lemma {:induction false} NodeHeight(t: Tree, S: set<Node>, n: Node)
    requires Heights(t, S) && Distinct(t) && n in Nodes(t) && n !in S
    ensures n.height == Depth(Sub(t, n)) - 1
  {
    if t.node != n {
      var side := if n in Nodes(t.left) then t.left else t.right;
      NodeHeight(side, S, n);
    }
  }

  lemma {:induction false} NodeFactor(t: Tree, S: set<Node>, n: Node)
    requires Factors(t, S) && Distinct(t) && n in Nodes(t) && n !in S
    ensures n.bf == Balance(Sub(t, n))
  {
    if t.node != n {
      var side := if n in Nodes(t.left) then t.left else t.right;
      NodeFactor(side, S, n);
    }
  }

  /** The depths of the children of n, as read from their cached heights. */
  lemma ChildDepths(t: Tree, p: Node?, n: Node, S: set<Node>)
    requires Linked(t, p) && Distinct(t) && n in Nodes(t) && Heights(t, S)
    requires S <= Ancestors(t, n)
    ensures var s := Sub(t, n);
            && s.Branch?
            && Depth(s.left) == (if n.left != null then n.left.height + 1 else 0)
            && Depth(s.right) == (if n.right != null then n.right.height + 1 else 0)
  {
    NodeLinks(t, p, n);
    SubOfChild(t, n);
    BelowIsNotAbove(t, n);
    var s := Sub(t, n);
    if s.left.Branch? {
      NodeHeight(t, S, s.left.node);
    }
    if s.right.Branch? {
      NodeHeight(t, S, s.right.node);
    }
  }

  // ------------------------------------------------------------ writing one node

  twostate lemma {:induction false} HeightSet(new t: Tree, new n: Node, new S: set<Node>)
    requires old(allocated(t)) && old(allocated(n)) && old(allocated(S))
    requires Distinct(t) && n in Nodes(t) && old(Heights(t, S + {n}))
    requires forall x :: x in Nodes(t) && old(allocated(x)) && x != n ==> x.height == old(x.height)
    requires n.height == Depth(Sub(t, n)) - 1
    ensures Heights(t, S)
  {
    if t.node == n {
      HeightsFrame(t.left, S + {n}, S);
      HeightsFrame(t.right, S + {n}, S);
    } else if n in Nodes(t.left) {
      HeightSet(t.left, n, S);
      HeightsFrame(t.right, S + {n}, S);
    } else {
      HeightsFrame(t.left, S + {n}, S);
      HeightSet(t.right, n, S);
    }
  }

  /** Heights that were not written stay exact; nodes outside t do not matter. */
  twostate lemma {:induction false} HeightsFrame(new t: Tree, new S: set<Node>, new S': set<Node>)
    requires old(allocated(t)) && old(allocated(S)) && old(allocated(S'))
    requires old(Heights(t, S)) && forall x :: x in Nodes(t) && old(allocated(x)) ==> x.height == old(x.height)
    requires forall x :: x in Nodes(t) && x !in S' ==> x !in S
    ensures Heights(t, S')
  {
    if t.Branch? {
      HeightsFrame(t.left, S, S');
      HeightsFrame(t.right, S, S');
    }
  }

  twostate lemma {:induction false} FactorSet(new t: Tree, new n: Node, new S: set<Node>)
    requires old(allocated(t)) && old(allocated(n)) && old(allocated(S))
    requires Distinct(t) && n in Nodes(t) && old(Factors(t, S + {n}))
    requires forall x :: x in Nodes(t) && old(allocated(x)) && x != n ==> x.bf == old(x.bf)
    requires n.bf == Balance(Sub(t, n))
    ensures Factors(t, S)
  {
    if t.node == n {
      FactorsFrame(t.left, S + {n}, S);
      FactorsFrame(t.right, S + {n}, S);
    } else if n in Nodes(t.left) {
      FactorSet(t.left, n, S);
      FactorsFrame(t.right, S + {n}, S);
    } else {
      FactorsFrame(t.left, S + {n}, S);
      FactorSet(t.right, n, S);
    }
  }

  twostate lemma {:induction false} FactorsFrame(new t: Tree, new S: set<Node>, new S': set<Node>)
    requires old(allocated(t)) && old(allocated(S)) && old(allocated(S'))
    requires old(Factors(t, S)) && forall x :: x in Nodes(t) && old(allocated(x)) ==> x.bf == old(x.bf)
    requires forall x :: x in Nodes(t) && x !in S' ==> x !in S
    ensures Factors(t, S')
  {
    if t.Branch? {
      FactorsFrame(t.left, S, S');
      FactorsFrame(t.right, S, S');
    }
  }

  // ------------------------------------------------------------ heights

  /** bst_recalculate_height: repairs the heights from n up to the root. */
  method RecalculateHeight(n: Node, ghost t: Tree)
    requires Linked(t, null) && Distinct(t) && n in Nodes(t) && Heights(t, Ancestors(t, n))
    modifies Nodes(t)`height
    ensures Heights(t, {})
  {
    var current: Node? := n;
    while current != null
      invariant Linked(t, null)
      invariant current != null ==> current in Nodes(t) && Heights(t, Ancestors(t, current))
      invariant current == null ==> Heights(t, {})
      decreases if current == null then {} else Ancestors(t, current), current != null
    {
      var c: Node := current;
      ChildDepths(t, null, c, Ancestors(t, c));
      NodeLinks(t, null, c);
      AncestorsStep(t, c);
      var lheight, rheight := 0, 0;
      if c.left != null {
        lheight := c.left.height + 1;
      }
      if c.right != null {
        rheight := c.right.height + 1;
      }
      label Before:
      ghost var rest := if ParentIn(t, c) == null then {} else Ancestors(t, ParentIn(t, c));
      assert rest + {c} == Ancestors(t, c);
      c.height := if lheight < rheight then rheight else lheight;
      HeightSet@Before(t, c, rest);
      current := c.parent;
    }
  }

  // ------------------------------------------------------------ walking in order

  /** bst_min_of */
  method MinOf(n: Node?, ghost t: Tree, ghost p: Node?) returns (r: Node?)
    requires Linked(t, p) && n == Root(t)
    ensures r == if t.Leaf? then null else InOrder(t)[0]
  {
    r := null;
    var current := n;
    ghost var cur, q := t, p;
    while current != null
      invariant current == Root(cur) && Linked(cur, q)
      invariant cur.Branch? ==> t.Branch? && InOrder(cur)[0] == InOrder(t)[0]
      invariant cur.Leaf? ==> r == if t.Leaf? then null else InOrder(t)[0]
      decreases cur
    {
      r := current;
      q := cur.node;
      current := current.left;
      cur := cur.left;
    }
  }

  /** bst_max_of */
  method MaxOf(n: Node?, ghost t: Tree, ghost p: Node?) returns (r: Node?)
    requires Linked(t, p) && n == Root(t)
    ensures r == if t.Leaf? then null else InOrder(t)[|InOrder(t)| - 1]
  {
    r := null;
    var current := n;
    ghost var cur, q := t, p;
    while current != null
      invariant current == Root(cur) && Linked(cur, q)
      invariant cur.Branch? ==> t.Branch? && InOrder(cur)[|InOrder(cur)| - 1] == InOrder(t)[|InOrder(t)| - 1]
      invariant cur.Leaf? ==> r == if t.Leaf? then null else InOrder(t)[|InOrder(t)| - 1]
      decreases cur
    {
      r := current;
      q := cur.node;
      current := current.right;
      cur := cur.right;
    }
  }

  /** bst_successor: the next node in order, or null after the last. */
  method Successor(node: Node, ghost t: Tree, ghost i: nat) returns (r: Node?)
    requires Linked(t, null) && Distinct(t) && Ordered(t) && i < |InOrder(t)| && InOrder(t)[i] == node
    ensures r == if i + 1 < |InOrder(t)| then InOrder(t)[i + 1] else null
  {
    InOrderNodes(t, node);
    NodeLinks(t, null, node);
    ghost var s := Sub(t, node);
    if node.right != null {
      NextInRightSubtree(t, node, i);
      r := MinOf(node.right, s.right, node);
      return;
    }
    AboveIsNext(t, node, i);
    UpFacts(t, node);
    ghost var path, j := Up(t, node), 1;
    UpParent(t, node, 0);
    var current := node.parent;
    while current != null
      invariant Linked(t, null)
      invariant 1 <= j <= |path| && current == (if j < |path| then path[j] else null)
      invariant forall x :: 1 <= x < j ==> KeyOf(t, path[x]) <= KeyOf(t, node)
      decreases |path| - j
    {
      UpParent(t, node, j);
      NodeLinks(t, null, path[j]);
      if node.key < current.key {
        AboveByKey(t, node, j);
        return current;
      }
      current := current.parent;
      j := j + 1;
    }
    AboveByKey(t, node, j);
    return null;
  }

  // ------------------------------------------------------------ balance factors

  /** Writes the exact balance factor of one node. */
  method SetFactor(c: Node, ghost t: Tree, ghost S: set<Node>)
    requires Linked(t, null) && Distinct(t) && Heights(t, {}) && c in Nodes(t) && Factors(t, S + {c})
    modifies c`bf
    ensures Factors(t, S)
  {
    ChildDepths(t, null, c, {});
    var lheight, rheight := 0, 0;
    if c.left != null {
      lheight := c.left.height + 1;
    }
    if c.right != null {
      rheight := c.right.height + 1;
    }
    c.bf := lheight - rheight;
    FactorSet(t, c, S);
  }

  /** The nodes from position i to position end in the order. */
  ghost function Span(t: Tree, i: nat, end: nat): set<Node>
    requires end <= |InOrder(t)|
  {
    set j | i <= j < end :: InOrder(t)[j]
  }

  /** Repairs the balance factors of the subtree at n, in order. */
  method RecalculateBfBelow(n: Node, ghost t: Tree, ghost above: set<Node>)
    requires Linked(t, null) && Distinct(t) && Ordered(t) && Heights(t, {}) && n in Nodes(t)
    requires Factors(t, Nodes(Sub(t, n)) + above)
    modifies Nodes(t)`bf
    ensures Factors(t, above)
  {
    hide Linked, Heights, Factors, InOrder, Nodes, Distinct, Ordered, Sub, Span, ParentIn;
    NodesExist(t);
    NodeLinks(t, null, n);
    ghost var s := Sub(t, n);
    ghost var off, end := SubSpan(t, n);
    assert Nodes(s) + above == above + Span(t, off, end);
    var current := MinOf(n, s, n.parent);
    var last := MaxOf(n, s, n.parent);
    assert current == InOrder(t)[off] && last == InOrder(t)[end - 1];
    ghost var i := off;
    while true
      invariant off <= i < end && current == InOrder(t)[i]
      invariant Linked(t, null) && Heights(t, {})
      invariant Factors(t, above + Span(t, i, end))
      decreases end - i
    {
      SpanStep(t, i, end);
      assert above + Span(t, i, end) == above + Span(t, i + 1, end) + {current};
      SetFactor(current, t, above + Span(t, i + 1, end));
      if current == last {
        InOrderUnique(t, i, end - 1);
        break;
      }
      current := Successor(current, t, i);
      i := i + 1;
    }
    SpanEmpty(t, end);
    assert above + Span(t, end, end) == above;
  }

  lemma SpanEmpty(t: Tree, end: nat)
    requires end <= |InOrder(t)|
    ensures Span(t, end, end) == {}
  {}

  /** bst_recalculate_bf: repairs the balance factors of the subtree at n and of the nodes above it. */
  method RecalculateBf(n: Node, ghost t: Tree)
    requires Linked(t, null) && Distinct(t) && Ordered(t) && Heights(t, {}) && n in Nodes(t)
    requires Factors(t, Nodes(Sub(t, n)) + Ancestors(t, n))
    modifies Nodes(t)`bf
    ensures Factors(t, {})
  {
    NodesExist(t);
    NodeLinks(t, null, n);
    AncestorsStep(t, n);
    hide Linked, Heights, Factors, Distinct, Ordered, Nodes, Sub, Ancestors;
    ghost var above := if ParentIn(t, n) == null then {} else Ancestors(t, ParentIn(t, n));
    assert Nodes(Sub(t, n)) + Ancestors(t, n) == Nodes(Sub(t, n)) + above by {
      RootIsNode(Sub(t, n));
    }
    RecalculateBfBelow(n, t, above);
    var current := n.parent;
    while current != null
      invariant Linked(t, null) && Heights(t, {})
      invariant current != null ==> current in Nodes(t) && Factors(t, Ancestors(t, current))
      invariant current == null ==> Factors(t, {})
      decreases if current == null then {} else Ancestors(t, current), current != null
    {
      var c: Node := current;
      NodeLinks(t, null, c);
      AncestorsStep(t, c);
      ghost var rest := if ParentIn(t, c) == null then {} else Ancestors(t, ParentIn(t, c));
      assert rest + {c} == Ancestors(t, c);
      SetFactor(c, t, rest);
      current := c.parent;
    }
  }

  lemma SpanStep(t: Tree, i: nat, end: nat)
    requires i < end <= |InOrder(t)|
    ensures Span(t, i, end) == Span(t, i + 1, end) + {InOrder(t)[i]} && InOrder(t)[i] in Nodes(t)
  {
    InOrderNodes(t, InOrder(t)[i]);
  }

  /** The subtree at n is the span of the order from its first to its last node. */
  lemma SubSpan(t: Tree, n: Node) returns (off: nat, end: nat)
    requires Distinct(t) && n in Nodes(t)
    ensures off < end <= |InOrder(t)| && Span(t, off, end) == Nodes(Sub(t, n))
    ensures InOrder(Sub(t, n)) != [] && InOrder(Sub(t, n))[0] == InOrder(t)[off]
    ensures InOrder(Sub(t, n))[|InOrder(Sub(t, n))| - 1] == InOrder(t)[end - 1]
  {
    hide InOrder, Sub, Nodes, SliceOf, Span;
    SubFacts(t, n);
    off := SubSlice(t, n);
    OrderNotEmpty(Sub(t, n));
    SpanIsSub(t, n, off);
    SliceEnds(InOrder(t), off, InOrder(Sub(t, n)));
    end := off + |InOrder(Sub(t, n))|;
  }

  lemma OrderNotEmpty(t: Tree)
    requires t.Branch?
    ensures InOrder(t) != []
  {
    assert t.node in InOrder(t);
  }

  lemma SliceEnds(a: seq<Node>, off: nat, s: seq<Node>)
    requires SliceOf(a, off, s) && s != []
    ensures off + |s| <= |a| && s[0] == a[off] && s[|s| - 1] == a[off + |s| - 1]
  {}

  lemma SpanIsSub(t: Tree, n: Node, off: nat)
    requires SliceOf(InOrder(t), off, InOrder(Sub(t, n)))
    ensures Span(t, off, off + |InOrder(Sub(t, n))|) == Nodes(Sub(t, n))
  {
    var s := Sub(t, n);
    hide Sub, InOrder, Nodes;
    var end := off + |InOrder(s)|;
    forall x | x in Span(t, off, end)
      ensures x in Nodes(s)
    {
      var j :| off <= j < end && InOrder(t)[j] == x;
      assert InOrder(s)[j - off] == InOrder(t)[off + (j - off)];
      InOrderNodes(s, x);
    }
    forall x | x in Nodes(s)
      ensures x in Span(t, off, end)
    {
      InOrderNodes(s, x);
      var i :| 0 <= i < |InOrder(s)| && InOrder(s)[i] == x;
      assert InOrder(t)[off + i] == x;
    }
  }
}
