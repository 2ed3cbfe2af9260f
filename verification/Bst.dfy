/**
 The AVL tree of kernel/lib/bst.c: insertion, rotation, rebalancing, removal and
 search.

 Each operation takes the tree value `t` that the node structure represents and
 is proved to leave a structure that represents the tree value it names.
 */
module Bst {
  import opened AvlTrees
  import opened BstNodes

  // ------------------------------------------------------------ relinking

  /** Nodes of S keep their links, except that a child link to a now leads to b. */
  twostate predicate Relinked(new S: set<Node>, a: Node, b: Node?)
    reads S
  {
    forall x :: x in S && old(allocated(x)) ==>
      && x.parent == old(x.parent) && x.key == old(x.key)
      && x.left == (if old(x.left) == a then b else old(x.left))
      && x.right == (if old(x.right) == a then b else old(x.right))
  }

  twostate lemma {:induction false} LinkedFrame(new t: Tree, new p: Node?, new a: Node, new b: Node?)
    requires old(allocated(t)) && old(allocated(p)) && old(allocated(a)) && old(allocated(b))
    requires old(Linked(t, p)) && a !in Nodes(t) && Relinked(Nodes(t), a, b)
    ensures Linked(t, p)
  {
    if t.Branch? {
      RootIsNode(t.left);
      RootIsNode(t.right);
      LinkedFrame(t.left, t.node, a, b);
      LinkedFrame(t.right, t.node, a, b);
    }
  }

  /** A subtree whose only written link is the parent of its root. */
  twostate lemma Reparented(new t: Tree, new p: Node?, new q: Node?)
    requires old(allocated(t)) && old(allocated(p)) && old(allocated(q))
    requires old(Linked(t, p)) && Distinct(t)
    requires t.Branch? ==> t.node.parent == q
    requires forall x :: x in Nodes(t) && old(allocated(x)) ==> x.key == old(x.key) && x.left == old(x.left) && x.right == old(x.right)
    requires forall x :: x in Nodes(t) && old(allocated(x)) && x != Root(t) ==> x.parent == old(x.parent)
    ensures Linked(t, q)
  {
    if t.Branch? {
      RootIsNode(t.left);
      RootIsNode(t.right);
      LinkedFrame(t.left, t.node, t.node, t.node);
      LinkedFrame(t.right, t.node, t.node, t.node);
    }
  }

  /** Swapping the subtree at a for s, and every link to a for the root of s, represents the replaced tree. */
  twostate lemma {:induction false} LinkedReplaced(new t: Tree, new p: Node?, new a: Node, new s: Tree)
    requires old(allocated(t)) && old(allocated(p)) && old(allocated(a)) && old(allocated(s))
    requires old(Linked(t, p)) && Distinct(t) && a in Nodes(t)
    requires Linked(s, if ParentIn(t, a) == null then p else ParentIn(t, a))
    requires Relinked(Nodes(t) - Nodes(Sub(t, a)), a, Root(s))
    ensures Linked(Replace(t, a, s), p)
  {
    ParentInside(t, a);
    if t.node != a {
      RootIsNode(t.left);
      RootIsNode(t.right);
      var side := if a in Nodes(t.left) then t.left else t.right;
      var rest := if a in Nodes(t.left) then t.right else t.left;
      SubFacts(side, a);
      ParentInside(side, a);
      LinkedReplaced(side, t.node, a, s);
      LinkedFrame(rest, t.node, a, Root(s));
    }
  }

  /** Heights outside S survive a replacement. */
  lemma {:induction false} HeightsReplaced(t: Tree, a: Node, s: Tree, S: set<Node>)
    requires Distinct(t) && a in Nodes(t) && Heights(t, {}) && Heights(s, S) && Ancestors(t, a) - {a} <= S
    ensures Heights(Replace(t, a, s), S)
  {
    if t.node != a {
      var side := if a in Nodes(t.left) then t.left else t.right;
      var rest := if a in Nodes(t.left) then t.right else t.left;
      HeightsReplaced(side, a, s, S);
      HeightsWeaken(rest, S);
    }
  }

  lemma {:induction false} HeightsWeaken(t: Tree, S: set<Node>)
    requires Heights(t, {})
    ensures Heights(t, S)
  {
    if t.Branch? {
      HeightsWeaken(t.left, S);
      HeightsWeaken(t.right, S);
    }
  }

  lemma {:induction false} FactorsReplaced(t: Tree, a: Node, s: Tree, S: set<Node>)
    requires Distinct(t) && a in Nodes(t) && Factors(t, {}) && Factors(s, S) && Ancestors(t, a) - {a} <= S
    ensures Factors(Replace(t, a, s), S)
  {
    if t.node != a {
      var side := if a in Nodes(t.left) then t.left else t.right;
      var rest := if a in Nodes(t.left) then t.right else t.left;
      FactorsReplaced(side, a, s, S);
      FactorsWeaken(rest, S);
    }
  }

  lemma {:induction false} FactorsWeaken(t: Tree, S: set<Node>)
    requires Factors(t, {})
    ensures Factors(t, S)
  {
    if t.Branch? {
      FactorsWeaken(t.left, S);
      FactorsWeaken(t.right, S);
    }
  }

  lemma {:induction false} FactorsNowhere(t: Tree, S: set<Node>)
    requires Nodes(t) <= S
    ensures Factors(t, S)
  {
    if t.Branch? {
      FactorsNowhere(t.left, S);
      FactorsNowhere(t.right, S);
    }
  }

  // ------------------------------------------------------------ a rotation

  function Child(n: Node, dir: Dir): Node?
    reads n`left, n`right
  {
    if dir == Left then n.left else n.right
  }

  function Opposite(dir: Dir): Dir
  {
    if dir == Left then Right else Left
  }

  ghost function ChildTree(t: Tree, dir: Dir): Tree
    requires t.Branch?
  {
    if dir == Left then t.left else t.right
  }

  /** The links a rotation of the subtree s under p writes. */
  twostate predicate RotationWritten(s: Tree, p: Node?, dir: Dir)
    requires CanRotate(s, dir)
    reads Nodes(s)
  {
    var a, bt := s.node, ChildTree(s, Opposite(dir));
    var b, ct := bt.node, ChildTree(bt, dir);
    && a in Nodes(s) && b in Nodes(s) && (ct.Branch? ==> ct.node in Nodes(s))
    && b.parent == p && a.parent == b && (ct.Branch? ==> ct.node.parent == a)
    && Child(b, dir) == a && Child(b, Opposite(dir)) == Root(ChildTree(bt, Opposite(dir)))
    && Child(a, Opposite(dir)) == Root(ct) && Child(a, dir) == Root(ChildTree(s, dir))
    && (forall x :: x in Nodes(s) && old(allocated(x)) ==> x.key == old(x.key))
    && (forall x :: x in Nodes(s) && old(allocated(x)) && x != a && x != b ==> x.left == old(x.left) && x.right == old(x.right))
    && (forall x :: x in Nodes(s) && old(allocated(x)) && x != a && x != b && x != Root(ct) ==> x.parent == old(x.parent))
  }

  twostate lemma RotationLinked(new s: Tree, new p: Node?, dir: Dir)
    requires old(allocated(s)) && old(allocated(p))
    requires CanRotate(s, dir) && Distinct(s) && old(Linked(s, p)) && RotationWritten(s, p, dir)
    ensures Linked(Rotate(s, dir), p)
  {
    var a, bt := s.node, ChildTree(s, Opposite(dir));
    var b, ct := bt.node, ChildTree(bt, dir);
    RootIsNode(ct);
    RootIsNode(ChildTree(s, dir));
    RootIsNode(ChildTree(bt, Opposite(dir)));
    Reparented(ct, b, a);
    Reparented(ChildTree(s, dir), a, a);
    Reparented(ChildTree(bt, Opposite(dir)), b, b);
  }

  /** The rotated subtree in place: what its caches are exact for. */
  lemma RotationCaches(t: Tree, a: Node, dir: Dir)
    requires Distinct(t) && a in Nodes(t) && Heights(t, {}) && Factors(t, {}) && CanRotate(Sub(t, a), dir)
    ensures var t' := Replace(t, a, Rotate(Sub(t, a), dir));
            var b := ChildTree(Sub(t, a), Opposite(dir)).node;
            && Distinct(t') && Nodes(t') == Nodes(t) && Keys(t') == Keys(t)
            && a in Nodes(t') && b in Nodes(t')
            && Heights(t', Ancestors(t', a))
            && Factors(t', Nodes(Sub(t', b)) + Ancestors(t', b))
  {
    SubFacts(t, a);
    var s := Sub(t, a);
    var s' := Rotate(s, dir);
    var b := ChildTree(s, Opposite(dir)).node;
    RotateNodes(s, dir);
    RotateKeepsOrder(s, dir);
    ReplaceNodes(t, a, s');
    ReplaceKeys(t, a, s');
    AncestorsReplaced(t, a, s', a);
    AncestorsReplaced(t, a, s', b);
    RotatedSubtree(s, dir);
    SubCaches(t, a);
    var t' := Replace(t, a, s');
    RotatedHeights(s, dir, Ancestors(t', a));
    HeightsReplaced(t, a, s', Ancestors(t', a));
    FactorsNowhere(s', Nodes(Sub(t', b)) + Ancestors(t', b));
    FactorsReplaced(t, a, s', Nodes(Sub(t', b)) + Ancestors(t', b));
  }

  lemma RotatedSubtree(s: Tree, dir: Dir)
    requires CanRotate(s, dir) && Distinct(s)
    ensures var b := ChildTree(s, Opposite(dir)).node;
            && b in Nodes(Rotate(s, dir)) && s.node in Nodes(Rotate(s, dir))
            && Sub(Rotate(s, dir), b) == Rotate(s, dir)
            && Ancestors(Rotate(s, dir), s.node) == {s.node, b}
  {
    RotateNodes(s, dir);
  }

  lemma RotatedHeights(s: Tree, dir: Dir, S: set<Node>)
    requires CanRotate(s, dir) && Heights(s, {}) && s.node in S && ChildTree(s, Opposite(dir)).node in S
    ensures Heights(Rotate(s, dir), S)
  {
    var bt := ChildTree(s, Opposite(dir));
    HeightsWeaken(ChildTree(s, dir), S);
    HeightsWeaken(bt.left, S);
    HeightsWeaken(bt.right, S);
  }

  lemma {:induction false} SubCaches(t: Tree, a: Node)
    requires Heights(t, {}) && Factors(t, {})
    ensures Heights(Sub(t, a), {}) && Factors(Sub(t, a), {})
  {
    if t.Branch? && t.node != a {
      SubCaches(if a in Nodes(t.left) then t.left else t.right, a);
    }
  }

  /** bst_dir_in_parent */
  method DirInParent(n: Node, p: Node) returns (dir: Dir)
    requires p.left == n || p.right == n
    ensures Child(p, dir) == n
    ensures dir == Left <==> p.left == n
  {
    if p.left == n {
      return Left;
    }
    return Right;
  }

  method SetChild(p: Node, dir: Dir, c: Node?)
    modifies p`left, p`right
    ensures Child(p, dir) == c && Child(p, Opposite(dir)) == old(Child(p, Opposite(dir)))
  {
    if dir == Left {
      p.left := c;
    } else {
      p.right := c;
    }
  }

  lemma RotationNodes(s: Tree, p: Node?, dir: Dir)
    requires CanRotate(s, dir) && Distinct(s) && Linked(s, p)
    ensures var a, bt := s.node, ChildTree(s, Opposite(dir));
            var b, ct := bt.node, ChildTree(bt, dir);
            && a != b && a != Root(ct) && b != Root(ct)
            && a in Nodes(s) && b in Nodes(s) && (ct.Branch? ==> ct.node in Nodes(s))
            && Root(Rotate(s, dir)) == b
            && Child(a, Opposite(dir)) == b && Child(a, dir) == Root(ChildTree(s, dir))
            && Child(b, dir) == Root(ct) && Child(b, Opposite(dir)) == Root(ChildTree(bt, Opposite(dir)))
  {
    RootIsNode(ChildTree(s, Opposite(dir)));
    RootIsNode(ChildTree(ChildTree(s, Opposite(dir)), dir));
  }

  /** The part of the surgery below the parent p. */
  method RotateInside(a: Node, b: Node, p: Node?, dir: Dir, ghost s: Tree)
    requires CanRotate(s, dir) && Distinct(s) && Linked(s, p) && s.node == a && ChildTree(s, Opposite(dir)).node == b
    modifies Nodes(s)`parent, Nodes(s)`left, Nodes(s)`right
    ensures Linked(Rotate(s, dir), p)
  {
    RotationNodes(s, p, dir);
    hide Nodes, Linked, Sub, Distinct, Rotate;
    NodesExist(s);
    var c := Child(b, dir);
    b.parent := p;
    SetChild(b, dir, a);
    a.parent := b;
    SetChild(a, Opposite(dir), c);
    if c != null {
      c.parent := a;
    }
    RotationLinked(s, p, dir);
  }

  class Bst {
    var root: Node?

    constructor ()
      ensures Holds(Leaf) && Cached(Leaf)
    {
      root := null;
    }

    /** The structure represents the search tree t. */
    ghost predicate Holds(t: Tree)
      reads this`root, Nodes(t)`parent, Nodes(t)`left, Nodes(t)`right, Nodes(t)`key
    {
      root == Root(t) && Linked(t, null) && Distinct(t) && Ordered(t)
    }

    /** Every cached height and balance factor is exact. */
    ghost predicate Cached(t: Tree)
      reads Nodes(t)`height, Nodes(t)`bf
    {
      Heights(t, {}) && Factors(t, {})
    }

    /** The one link to a is in its parent, outside the subtree at a, or in the tree itself. */
    ghost predicate HangsAt(a: Node, t: Tree)
      reads this`root, a`parent, Nodes(t) - Nodes(Sub(t, a))
    {
      var around := Nodes(t) - Nodes(Sub(t, a));
      && (a.parent == null <==> root == a)
      && (a.parent != null ==> a.parent in around && (a.parent.left == a || a.parent.right == a) && a.parent.left != a.parent.right)
      && forall x :: x in around && x != a.parent ==> x.left != a && x.right != a
    }

    lemma HangsInTree(a: Node, t: Tree)
      requires root == Root(t) && Linked(t, null) && Distinct(t) && a in Nodes(t)
      ensures HangsAt(a, t)
    {
      NodeLinks(t, null, a);
      ParentInside(t, a);
      ParentHasChild(t, null, a);
      OneParent(t, null, a);
    }

    /** The link to a, in its parent or in the tree itself, now leads to b. */
    method Redirect(a: Node, b: Node?, ghost t: Tree)
      requires HangsAt(a, t) && forall x :: x in Nodes(t) - Nodes(Sub(t, a)) ==> allocated(x)
      modifies this`root, (Nodes(t) - Nodes(Sub(t, a)))`left, (Nodes(t) - Nodes(Sub(t, a)))`right
      ensures Relinked(Nodes(t) - Nodes(Sub(t, a)), a, b)
      ensures root == if old(root) == a then b else old(root)
    {
      var p := a.parent;
      if p != null {
        var dir := DirInParent(a, p);
        SetChild(p, dir, b);
      } else {
        root := b;
      }
    }

    /** The link surgery of bst_rotate. */
    method RotateLinks(a: Node, dir: Dir, ghost t: Tree)
      requires root == Root(t) && Linked(t, null) && Distinct(t) && a in Nodes(t) && CanRotate(Sub(t, a), dir)
      modifies this`root, Nodes(t)`parent, Nodes(t)`left, Nodes(t)`right
      ensures var t' := Replace(t, a, Rotate(Sub(t, a), dir));
              root == Root(t') && Linked(t', null)
    {
      hide Nodes, Linked, Sub, Distinct, Replace, Rotate, ParentIn;
      ghost var s := Sub(t, a);
      NodesExist(t);
      NodeLinks(t, null, a);
      SubFacts(t, a);
      RotationNodes(s, a.parent, dir);
      ReplacedRoot(t, a, Rotate(s, dir));
      var b: Node := Child(a, Opposite(dir));
      var p := a.parent;
      HangsInTree(a, t);
      Redirect(a, b, t);
      RotateInside(a, b, p, dir, s);
      LinkedReplaced(t, null, a, Rotate(s, dir));
    }

    /** bst_rotate: exactly the rotation of the subtree at a, with every cache exact again. */
    method RotateSubtree(a: Node, dir: Dir, ghost t: Tree) returns (ghost t': Tree)
      requires Holds(t) && Cached(t) && a in Nodes(t) && CanRotate(Sub(t, a), dir)
      modifies this`root, Nodes(t)`parent, Nodes(t)`left, Nodes(t)`right, Nodes(t)`height, Nodes(t)`bf
      ensures t' == Replace(t, a, Rotate(Sub(t, a), dir))
      ensures Holds(t') && Cached(t') && Nodes(t') == Nodes(t) && Keys(t') == Keys(t)
    {
      NodesExist(t);
      t' := Replace(t, a, Rotate(Sub(t, a), dir));
      ghost var s := Sub(t, a);
      hide Nodes, Linked, Sub, Distinct, Ordered, Replace, Rotate, Heights, Factors, Ancestors, ParentIn, StrictlyIncreasing;
      NodeLinks(t, null, a);
      SubFacts(t, a);
      RotationNodes(s, a.parent, dir);
      RotationCaches(t, a, dir);
      OrderedIsIncreasing(t);
      OrderedIsIncreasing(t');
      var b: Node := Child(a, Opposite(dir));
      RotateLinks(a, dir, t);
      RepairCaches(a, b, t');
    }

    /** Heights from a up, then balance factors from the subtree at b up.*/
    method RepairCaches(a: Node, b: Node, ghost t: Tree)
      requires Linked(t, null) && Distinct(t) && Ordered(t) && a in Nodes(t) && b in Nodes(t)
      requires Heights(t, Ancestors(t, a)) && Factors(t, Nodes(Sub(t, b)) + Ancestors(t, b))
      modifies Nodes(t)`height, Nodes(t)`bf
      ensures Cached(t)
    {
      hide Nodes, Linked, Sub, Distinct, Ordered, Heights, Factors, Ancestors;
      NodesExist(t);
      RecalculateHeight(a, t);
      RecalculateBf(b, t);
    }

    /** One round of bst_check_and_rebalence: none, one or two rotations at c. */
    method RebalanceAt(c: Node, ghost t: Tree) returns (ghost t': Tree)
      requires Holds(t) && Cached(t) && c in Nodes(t)
      modifies this`root, Nodes(t)`parent, Nodes(t)`left, Nodes(t)`right, Nodes(t)`height, Nodes(t)`bf
      ensures t' == Replace(t, c, Rebalanced(Sub(t, c)))
      ensures Holds(t') && Cached(t') && Nodes(t') == Nodes(t) && Keys(t') == Keys(t)
    {
      hide Nodes, Linked, Sub, Distinct, Ordered, Replace, Heights, Factors, ParentIn, Balance, Keys;
      NodesExist(t);
      NodeLinks(t, null, c);
      NodeFactor(t, {}, c);
      SubFacts(t, c);
      SubOfChild(t, c);
      ghost var s := Sub(t, c);
      HeavySides(s);
      t' := t;
      if c.bf > 1 {
        var child: Node := c.left;
        NodeFactor(t, {}, child);
        if child.bf < 0 {
          RotateNodes(s.left, Left);
          ReplaceLeftChild(t, c, Rotate(s.left, Left), Rebalanced(s));
          t' := RotateSubtree(child, Left, t');
        }
        t' := RotateSubtree(c, Right, t');
      } else if c.bf < -1 {
        var child: Node := c.right;
        NodeFactor(t, {}, child);
        if child.bf > 0 {
          RotateNodes(s.right, Right);
          ReplaceRightChild(t, c, Rotate(s.right, Right), Rebalanced(s));
          t' := RotateSubtree(child, Right, t');
        }
        t' := RotateSubtree(c, Left, t');
      } else {
        ReplaceSame(t, c);
      }
    }

    /**
     bst_check_and_rebalence: when one subtree of the start node has changed by one
     level, the walk to the root restores the AVL balance everywhere, except inside
     a subtree x that is not an AVL tree itself.
     */
    method CheckAndRebalance(start: Node, ghost was: Tree, ghost t: Tree, ghost d: int, ghost x: Tree) returns (ghost t': Tree)
      requires Holds(t) && Cached(t) && start in Nodes(t) && Pending(was, t, start, d, x) && (d == 1 || d == -1)
      modifies this`root, Nodes(t)`parent, Nodes(t)`left, Nodes(t)`right, Nodes(t)`height, Nodes(t)`bf
      ensures Holds(t') && Cached(t') && Shifted(was, t', d, x) && Nodes(t') == Nodes(t) && Keys(t') == Keys(t)
    {
      hide Nodes, Linked, Sub, Distinct, Ordered, Replace, Heights, Factors, ParentIn, Rebalanced, Ancestors, Pending, Shifted, Keys;
      NodesExist(t);
      t' := t;
      var current: Node? := start;
      while current != null
        invariant Holds(t') && Cached(t') && Nodes(t') == Nodes(t) && Keys(t') == Keys(t)
        invariant current != null ==> current in Nodes(t') && Pending(was, t', current, d, x)
        invariant current == null ==> Shifted(was, t', d, x)
        decreases if current == null then {} else Ancestors(t', current), current != null
      {
        var c: Node := current;
        var oldparent := c.parent;
        RepairStep(was, t', c, d, x);
        NodeLinks(t', null, c);
        AncestorsStep(t', c);
        SubFacts(t', c);
        RebalancedSame(Sub(t', c));
        if oldparent != null {
          AncestorsOutside(t', c, Rebalanced(Sub(t', c)));
        }
        t' := RebalanceAt(c, t');
        current := oldparent;
      }
    }

    /** bst_find_node */
    method Find(key: int, ghost t: Tree) returns (r: Node?)
      requires Holds(t)
      ensures r == null <==> key !in Keys(t)
      ensures r != null ==> r in Nodes(t) && r.key == key
    {
      ghost var cur, p := t, null;
      var current := root;
      while current != null
        invariant current == Root(cur) && Linked(cur, p) && Ordered(cur)
        invariant key in Keys(cur) <==> key in Keys(t)
        invariant Nodes(cur) <= Nodes(t)
        decreases cur
      {
        p := cur.node;
        if key < current.key {
          current := current.left;
          cur := cur.left;
        } else if key > current.key {
          current := current.right;
          cur := cur.right;
        } else {
          return current;
        }
      }
      return null;
    }

    /**
     bst_insert_node_unbalenced: attaches the node as a leaf and repairs every
     cache.  Fails exactly on a key that is present, where the source panics and the
     tree is as before, and on a node whose height field is not zero: it is never
     written, so the check of the whole tree panics over the new leaf.
     */
    method InsertUnbalanced(node: Node, key: int, ghost t: Tree) returns (ok: bool, ghost t': Tree)
      requires Holds(t) && Cached(t) && node !in Nodes(t)
      modifies this`root, Nodes(t)`parent, Nodes(t)`left, Nodes(t)`right, Nodes(t)`height, Nodes(t)`bf, node
      ensures ok <==> key !in Keys(t) && old(node.height) == 0
      ensures t' == if ok then Inserted(t, node, key) else t
      ensures old(node.height) == 0 ==> Holds(t') && Cached(t')
      ensures ok ==> node.parent == if t.Leaf? then null else Spot(t, key)
      ensures node.key == key
    {
      NodesExist(t);
      node.left, node.right, node.bf, node.key := null, null, 0, key;
      t' := t;
      if root == null {
        root := node;
        node.parent := null;
        if node.height != 0 {
          return false, t';
        }
        t' := Inserted(t, node, key);
        assert t == Leaf && t' == Branch(Leaf, node, key, Leaf);
        SingleNode(node, key);
        return true, t';
      }
      var insertparent: Node;
      ok, insertparent := FindSpot(key, t);
      if ok && node.height != 0 {
        AttachLinks(node, insertparent, t);
        ok := false;
      } else if ok {
        t' := Attach(node, insertparent, t);
      }
    }

    /** The descent of bst_insert_node_unbalenced. */
    method FindSpot(key: int, ghost t: Tree) returns (ok: bool, q: Node)
      requires root == Root(t) && Linked(t, null) && Ordered(t) && t.Branch?
      ensures ok <==> key !in Keys(t)
      ensures ok ==> q == Spot(t, key)
    {
      ghost var cur, p := t, null;
      var current := root;
      q := current;
      while current != null
        invariant current == Root(cur) && Linked(cur, p) && Ordered(cur)
        invariant key in Keys(cur) <==> key in Keys(t)
        invariant if cur.Leaf? then q == Spot(t, key) else Spot(cur, key) == Spot(t, key)
        decreases cur
      {
        q := current;
        p := cur.node;
        if key < current.key {
          current := current.left;
          cur := cur.left;
        } else if key > current.key {
          current := current.right;
          cur := cur.right;
        } else {
          return false, q;
        }
      }
      return true, q;
    }

    /** Links a prepared node under its insertion parent and repairs the caches. */
    method Attach(node: Node, q: Node, ghost t: Tree) returns (ghost t': Tree)
      requires Holds(t) && Cached(t) && t.Branch? && node !in Nodes(t)
      requires node.left == null && node.right == null && node.height == 0 && node.bf == 0
      requires node.key !in Keys(t) && q == Spot(t, node.key)
      modifies Nodes(t)`parent, Nodes(t)`left, Nodes(t)`right, Nodes(t)`height, Nodes(t)`bf, node`parent, node`height, node`bf
      ensures t' == Inserted(t, node, node.key) && node.key == old(node.key) && node.parent == q
      ensures Holds(t') && Cached(t')
    {
      hide Nodes, Linked, Sub, Distinct, Ordered, Heights, Factors, Ancestors, Keys, Inserted, Spot;
      NodesExist(t);
      t' := Inserted(t, node, node.key);
      InsertedCaches(t, node, node.key);
      NodesExist(t');
      InsertedAdds(t, node, node.key);
      AttachLinks(node, q, t);
      RecalculateHeight(q, t');
      RecalculateBf(q, t');
      assert node.parent == q;
    }

    method AttachLinks(node: Node, q: Node, ghost t: Tree)
      requires Holds(t) && t.Branch? && node !in Nodes(t) && node.left == null && node.right == null
      requires q == Spot(t, node.key)
      modifies node`parent, Nodes(t)`left, Nodes(t)`right
      ensures node.parent == q
      ensures root == Root(Inserted(t, node, node.key)) && Linked(Inserted(t, node, node.key), null)
    {
      hide Nodes, Sub, Distinct, Replace, Spot, ParentIn, Ordered;
      ghost var s := Sub(t, q);
      NodesExist(t);
      InsertedAtSpot(t, node, node.key);
      NodeLinks(t, null, q);
      SubFacts(t, q);
      RootIsNode(s);
      ReplacedRoot(t, q, Inserted(s, node, node.key));
      SetChild(q, if node.key < q.key then Left else Right, node);
      node.parent := q;
      AttachedLinked(s, q.parent, node);
      LinkedReplaced(t, null, q, Inserted(s, node, node.key));
    }

    /**
     bst_insert_node: for every AVL tree, exactly the new key is added, and links,
     order, caches and the balance of every node hold again.
     */
    method Insert(node: Node, key: int, ghost t: Tree) returns (ok: bool, ghost t': Tree)
      requires Holds(t) && Cached(t) && Avl(t) && node !in Nodes(t)
      modifies this`root, Nodes(t)`parent, Nodes(t)`left, Nodes(t)`right, Nodes(t)`height, Nodes(t)`bf, node
      ensures ok <==> key !in Keys(t) && old(node.height) == 0
      ensures old(node.height) == 0 ==> Holds(t') && Cached(t') && Avl(t')
      ensures !ok ==> t' == t
      ensures ok ==> Nodes(t') == Nodes(t) + {node} && node.key == key
      ensures ok ==> forall k :: k in Keys(t') <==> k in Keys(t) || k == key
    {
      NodesExist(t);
      hide Nodes, Linked, Sub, Distinct, Ordered, Heights, Factors, Pending, Keys, Inserted, Spot;
      ok, t' := InsertUnbalanced(node, key, t);
      if ok {
        InsertedAdds(t, node, key);
        InsertedFromEmpty(t, node, key);
        if node.parent != null {
          InsertedPending(t, node, key);
          t' := CheckAndRebalance(node.parent, t, t', 1, Leaf);
        }
      }
    }

    /** remove_terminal_node, remove_node_with_left_child and remove_node_with_right_child. */
    method RemoveLinks(node: Node, ghost t: Tree)
      requires root == Root(t) && Linked(t, null) && Distinct(t) && node in Nodes(t)
      requires node.left == null || node.right == null
      modifies this`root, Nodes(t)`parent, Nodes(t)`left, Nodes(t)`right
      ensures Sub(t, node).Branch? && (Sub(t, node).left.Leaf? || Sub(t, node).right.Leaf?)
      ensures var t' := Replace(t, node, OnlyChild(Sub(t, node)));
              root == Root(t') && Linked(t', null)
      ensures node.parent == ParentIn(t, node)
    {
      ghost var s := Sub(t, node);
      NodesExist(t);
      NodeLinks(t, null, node);
      SubFacts(t, node);
      ghost var rest := OnlyChild(s);
      ReplacedRoot(t, node, rest);
      RootIsNode(rest);
      assert Linked(rest, node) && Distinct(rest) && Nodes(rest) <= Nodes(s) && node !in Nodes(rest);
      HangsInTree(node, t);
      hide Nodes, Linked, Sub, Distinct, Replace, OnlyChild, ParentIn, HangsAt;
      var child := if node.left != null then node.left else node.right;
      Redirect(node, child, t);
      label Redirected:
      if child != null {
        child.parent := node.parent;
      }
      Reparented@Redirected(rest, node, node.parent);
      LinkedReplaced(t, null, node, rest);
    }

    /** The pointer writes of remove_node_with_both_children, up to its cache repairs. */
    method ReplaceByPredecessor(node: Node, ghost t: Tree) returns (replacement: Node, oldparent: Node)
      requires root == Root(t) && Linked(t, null) && Distinct(t) && node in Nodes(t)
      requires node.left != null && node.right != null
      modifies this`root, Nodes(t)`parent, Nodes(t)`left, Nodes(t)`right
      ensures Sub(t, node).Branch? && Sub(t, node).left.Branch? && Sub(t, node).right.Branch?
      ensures var t' := Replace(t, node, RemovedBoth(Sub(t, node)));
              root == Root(t') && Linked(t', null)
      ensures replacement == LastSub(Sub(t, node).left).node && oldparent == ParentIn(Sub(t, node), replacement)
      ensures node.parent == ParentIn(t, node)
    {
      NodesExist(t);
      NodeLinks(t, null, node);
      SubFacts(t, node);
      HangsInTree(node, t);
      ghost var s := Sub(t, node);
      ReplacedRoot(t, node, RemovedBoth(s));
      BothParts(s);
      hide Nodes, Linked, Sub, Distinct, Replace, LastSub, CutLast, RemovedBoth, ParentIn;
      replacement, oldparent := CutPredecessor(node, s);
      assert HangsAt(node, t);
      hide HangsAt;
      Redirect(node, replacement, t);
      MovePredecessor(replacement, node, s);
      LinkedReplaced(t, null, node, RemovedBoth(s));
    }

    /** remove_node_with_both_children, with its cache repairs. */
    method RemoveWithBoth(node: Node, ghost t: Tree) returns (ghost t': Tree)
      requires Holds(t) && Cached(t) && node in Nodes(t) && node.left != null && node.right != null
      modifies this`root, Nodes(t)`parent, Nodes(t)`left, Nodes(t)`right, Nodes(t)`height, Nodes(t)`bf
      ensures Sub(t, node).Branch? && t' == Replace(t, node, Removed(Sub(t, node)))
      ensures Holds(t') && Cached(t')
      ensures node.parent == ParentIn(t, node)
    {
      NodesExist(t);
      NodeLinks(t, null, node);
      ghost var s := Sub(t, node);
      assert Removed(s) == RemovedBoth(s);
      t' := Replace(t, node, RemovedBoth(s));
      hide Nodes, Linked, Sub, Distinct, Ordered, Replace, Removed, RemovedBoth, LastSub, Heights, Factors, Ancestors, ParentIn, Keys, KeyOf, Lost;
      RemovedTakes(t, node);
      BothCaches(t, node);
      var replacement, oldparent := ReplaceByPredecessor(node, t);
      var low := if oldparent != node then oldparent else replacement;
      assert Nodes(t') <= Nodes(t);
      RepairCaches(low, replacement, t');
    }

    /** bst_remove_node_unbalenced: the tree with the subtree at the node replaced by what is left of it, all caches exact. */
    method RemoveUnbalanced(node: Node, ghost t: Tree) returns (ghost t': Tree)
      requires Holds(t) && Cached(t) && node in Nodes(t)
      modifies this`root, Nodes(t)`parent, Nodes(t)`left, Nodes(t)`right, Nodes(t)`height, Nodes(t)`bf
      ensures Sub(t, node).Branch?
      ensures t' == Replace(t, node, Removed(Sub(t, node)))
      ensures Holds(t') && Cached(t')
      ensures node.parent == ParentIn(t, node)
    {
      hide Nodes, Linked, Sub, Distinct, Ordered, Replace, Heights, Factors, Ancestors, ParentIn, Keys, KeyOf, Lost, LastSub, RemovedBoth;
      NodesExist(t);
      NodeLinks(t, null, node);
      var parent := node.parent;
      ghost var s := Sub(t, node);
      assert Root(s.left) == null || Root(s.right) == null ==> Removed(s) == OnlyChild(s);
      t' := Replace(t, node, Removed(s));
      hide Removed, OnlyChild;
      RemovedTakes(t, node);
      assert Nodes(t') <= Nodes(t);
      ParentKept(t, node);
      if node.left == null || node.right == null {
        RemovedCaches(t, node);
        RemoveLinks(node, t);
      } else {
        t' := RemoveWithBoth(node, t);
        if parent != null {
          HeightsWeaken(t', Ancestors(t', parent));
          FactorsWeaken(t', Nodes(Sub(t', parent)) + Ancestors(t', parent));
        }
      }
      if parent != null {
        RepairCaches(parent, parent, t');
      }
    }

    /**
     bst_remove_node: exactly the key of the node goes, with the keys lost by the
     removal of a node with two children; links, order and caches hold again.  The
     tree is balanced if and only if the node has at most one child, or no node of the
     right edge of its left subtree, nor the node itself, tips when the predecessor goes.
     */
    method RemoveNode(node: Node, ghost t: Tree) returns (ghost t': Tree)
      requires Holds(t) && Cached(t) && Avl(t) && node in Nodes(t)
      modifies this`root, Nodes(t)`parent, Nodes(t)`left, Nodes(t)`right, Nodes(t)`height, Nodes(t)`bf
      ensures Sub(t, node).Branch?
      ensures Holds(t') && Cached(t')
      ensures Avl(t') <==> StaysBalanced(Sub(t, node))
      ensures Nodes(t') == Nodes(t) - {node} - Nodes(Lost(Sub(t, node)))
      ensures forall k :: k in Keys(t') <==> k in Keys(t) && k != old(node.key) && k !in Keys(Lost(Sub(t, node)))
    {
      NodesExist(t);
      NodeLinks(t, null, node);
      KeyIsSub(t, node);
      AvlSub(t, node);
      hide Nodes, Linked, Sub, Distinct, Ordered, Replace, Removed, Lost, Heights, Factors, Pending, ParentIn, Keys, Avl, Within, StaysBalanced;
      RemovedBalance(Sub(t, node));
      t' := RemoveUnbalanced(node, t);
      RemovedTakes(t, node);
      RemovedPending(t, node);
      if node.parent != null {
        t' := CheckAndRebalance(node.parent, t, t', -1, Removed(Sub(t, node)));
        RemainsBalanced(Removed(Sub(t, node)), t');
      }
    }
  }

  /** The tree of nodes inserted in turn, without rebalancing. */
  ghost function Chain(nodes: seq<Node>, keys: seq<int>): Tree
    requires |nodes| == |keys|
  {
    if nodes == [] then Leaf
    else Inserted(Chain(nodes[..|nodes| - 1], keys[..|nodes| - 1]), nodes[|nodes| - 1], keys[|nodes| - 1])
  }

  lemma ChainOfFour(nodes: seq<Node>, keys: seq<int>)
    requires |nodes| == |keys| == 4
    ensures var one := Inserted(Leaf, nodes[0], keys[0]);
            var two := Inserted(one, nodes[1], keys[1]);
            Chain(nodes, keys) == Inserted(Inserted(two, nodes[2], keys[2]), nodes[3], keys[3])
  {
    hide Inserted;
    assert keys[..4] == keys && nodes[..3] + [nodes[3]] == nodes;
    assert nodes[..2] + [nodes[2]] == nodes[..3] && nodes[..1] + [nodes[1]] == nodes[..2] && nodes[..0] + [nodes[0]] == nodes[..1];
    ChainGrows(nodes[..0], keys, nodes[0]);
    ChainGrows(nodes[..1], keys, nodes[1]);
    ChainGrows(nodes[..2], keys, nodes[2]);
    ChainGrows(nodes[..3], keys, nodes[3]);
  }

  lemma ChainGrows(nodes: seq<Node>, keys: seq<int>, node: Node)
    requires |nodes| < |keys|
    ensures Chain(nodes + [node], keys[..|nodes| + 1]) == Inserted(Chain(nodes, keys[..|nodes|]), node, keys[|nodes|])
  {
    var n := |nodes|;
    assert keys[..n + 1][..n] == keys[..n] && (nodes + [node])[..n] == nodes;
  }

  lemma EmptyTree()
    ensures Nodes(Leaf) == {} && Keys(Leaf) == []
  {}

  /** Builds a tree of four new nodes by plain insertion. */
  method FourNodes(keys: seq<int>) returns (tree: Bst, nodes: seq<Node>)
    requires |keys| == 4 && forall i, j :: 0 <= i < j < 4 ==> keys[i] != keys[j]
    ensures fresh(tree) && |nodes| == 4 && forall i :: 0 <= i < 4 ==> fresh(nodes[i])
    ensures forall i, j :: 0 <= i < j < 4 ==> nodes[i] != nodes[j]
    ensures tree.Holds(Chain(nodes, keys)) && tree.Cached(Chain(nodes, keys))
    ensures Nodes(Chain(nodes, keys)) == set x | x in nodes
  {
    tree := new Bst();
    nodes := [];
    ghost var t := Leaf;
    EmptyTree();
    hide Nodes, Keys, Linked, Distinct, Ordered, Heights, Factors, Inserted;
    while |nodes| < 4
      invariant |nodes| <= 4 && fresh(tree) && forall i :: 0 <= i < |nodes| ==> fresh(nodes[i])
      invariant forall i, j :: 0 <= i < j < |nodes| ==> nodes[i] != nodes[j]
      invariant t == Chain(nodes, keys[..|nodes|]) && tree.Holds(t) && tree.Cached(t)
      invariant Nodes(t) == set x | x in nodes
      invariant forall k :: k in Keys(t) ==> k in keys[..|nodes|]
    {
      var n := |nodes|;
      var node := new Node();
      InsertedAdds(t, node, keys[n]);
      ChainGrows(nodes, keys, node);
      var ok;
      ok, t := tree.InsertUnbalanced(node, keys[n], t);
      nodes := nodes + [node];
    }
    assert keys[..4] == keys;
  }

  ghost function Single(n: Node, key: int): Tree
  {
    Branch(Leaf, n, key, Leaf)
  }

  /** A single node hung under another one. */
  lemma SingleFacts(n: Node, key: int)
    ensures Avl(Single(n, key)) && Depth(Single(n, key)) == 1 && Keys(Single(n, key)) == [key] && Nodes(Single(n, key)) == {n}
    ensures forall m, k :: Inserted(Single(n, key), m, k) == (if k < key then Branch(Single(m, k), n, key, Leaf) else Branch(Leaf, n, key, Single(m, k)))
    ensures Inserted(Leaf, n, key) == Single(n, key)
  {}

  lemma KeyTakenTree(nodes: seq<Node>)
    requires |nodes| == 4 && forall i, j :: 0 <= i < j < 4 ==> nodes[i] != nodes[j]
    ensures var t := Chain(nodes, [3, 2, 4, 1]);
            && Avl(t) && 1 in Keys(t) && nodes[0] in Nodes(t)
            && Sub(t, nodes[0]) == t && t.Branch? && 1 in Keys(Lost(t))
  {
    ChainOfFour(nodes, [3, 2, 4, 1]);
    var a, b, c, d := nodes[0], nodes[1], nodes[2], nodes[3];
    hide Chain, Single;
    SingleFacts(a, 3);
    SingleFacts(b, 2);
    SingleFacts(c, 4);
    SingleFacts(d, 1);
    var l := Branch(Single(d, 1), b, 2, Leaf);
    assert Inserted(Branch(Single(b, 2), a, 3, Leaf), c, 4) == Branch(Single(b, 2), a, 3, Single(c, 4));
    assert Chain(nodes, [3, 2, 4, 1]) == Branch(l, a, 3, Single(c, 4));
    assert Depth(l) == 2 && Keys(l) == [1, 2];
  }

  /** Four keys in a balanced tree; removing 3, the root, takes 1 along. */
  method KeyTakenAlong() returns (before: Node?, after: Node?)
    ensures before != null && before.key == 1 && after == null
  {
    hide Chain, Nodes, Keys, Linked, Distinct, Ordered, Heights, Factors, Avl, Sub, Lost, StaysBalanced;
    var tree, nodes := FourNodes([3, 2, 4, 1]);
    ghost var t := Chain(nodes, [3, 2, 4, 1]);
    KeyTakenTree(nodes);
    before := tree.Find(1, t);
    t := tree.RemoveNode(nodes[0], t);
    after := tree.Find(1, t);
  }

  lemma UnbalancedTree(nodes: seq<Node>)
    requires |nodes| == 4 && forall i, j :: 0 <= i < j < 4 ==> nodes[i] != nodes[j]
    ensures var t := Chain(nodes, [2, 1, 3, 4]);
            && Avl(t) && Keys(t) == [1, 2, 3, 4] && nodes[0] in Nodes(t)
            && Sub(t, nodes[0]) == t && t.Branch? && t.key == 2 && Keys(Lost(t)) == [] && !StaysBalanced(t)
  {
    ChainOfFour(nodes, [2, 1, 3, 4]);
    var a, b, c, d := nodes[0], nodes[1], nodes[2], nodes[3];
    hide Chain;
    SingleFacts(a, 2);
    SingleFacts(b, 1);
    SingleFacts(c, 3);
    SingleFacts(d, 4);
    var r := Branch(Leaf, c, 3, Single(d, 4));
    assert Inserted(Branch(Single(b, 1), a, 2, Leaf), c, 3) == Branch(Single(b, 1), a, 2, Single(c, 3));
    assert Chain(nodes, [2, 1, 3, 4]) == Branch(Single(b, 1), a, 2, r);
    assert Depth(r) == 2 && Keys(r) == [3, 4];
    assert Drop(Single(b, 1)) == 1;
  }

  /** Removing the root of the balanced tree of 2, 1, 3 and 4: no key is lost, and the tree is not balanced afterwards. */
  method BalanceNotRestored() returns (tree: Bst, ghost t: Tree)
    ensures tree.Holds(t) && tree.Cached(t) && !Avl(t)
    ensures forall k :: k in Keys(t) <==> k == 1 || k == 3 || k == 4
  {
    hide Chain, Nodes, Keys, Linked, Distinct, Ordered, Heights, Factors, Avl, Sub, Lost, StaysBalanced;
    var nodes;
    tree, nodes := FourNodes([2, 1, 3, 4]);
    t := Chain(nodes, [2, 1, 3, 4]);
    UnbalancedTree(nodes);
    NodeLinks(t, null, nodes[0]);
    t := tree.RemoveNode(nodes[0], t);
  }

  /** The parent of the removed node stays in the tree. */
  lemma ParentKept(t: Tree, n: Node)
    requires Distinct(t) && Ordered(t) && n in Nodes(t)
    ensures Sub(t, n).Branch?
    ensures var p := ParentIn(t, n);
            p != null ==> p in Nodes(Replace(t, n, Removed(Sub(t, n))))
  {
    hide Removed, Lost, Replace;
    SubFacts(t, n);
    RemovedInside(Sub(t, n));
    if ParentIn(t, n) != null {
      AncestorsOutside(t, n, Removed(Sub(t, n)));
    }
  }

  lemma {:induction false} AvlSub(t: Tree, n: Node)
    requires Avl(t)
    ensures Avl(Sub(t, n))
  {
    if t.Branch? && t.node != n {
      AvlSub(if n in Nodes(t.left) then t.left else t.right, n);
    }
  }

  lemma RemainsBalanced(x: Tree, t: Tree)
    requires Within(x, t)
    ensures Avl(t) ==> Avl(x)
  {
    if Avl(t) {
      AvlWithin(x, t);
    }
  }

  // ------------------------------------------------------------ removal of a node with two children

  /** The predecessor r of the root of s, its parent q, and the one link to it. */
  lemma PredecessorLinks(s: Tree, p: Node?)
    requires s.Branch? && s.left.Branch? && Linked(s, p) && Distinct(s)
    ensures var r, q := LastSub(s.left).node, ParentIn(s, LastSub(s.left).node);
            && r in Nodes(s) && r.parent == q && r.key == LastSub(s.left).key
            && q != null && q in Nodes(s) && (q.left == r || q.right == r) && q.left != q.right
            && (forall x :: x in Nodes(s) && x != q ==> x.left != r && x.right != r)
            && (q == s.node <==> s.left.right.Leaf?)
  {
    var r := LastSub(s.left).node;
    CutIsReplace(s.left);
    NodeLinks(s.left, s.node, r);
    NodeLinks(s, p, r);
    ParentInside(s, r);
    ParentInside(s.left, r);
    ParentHasChild(s, p, r);
    OneParent(s, p, r);
  }

  /** How the nodes of s are shared out by the removal. */
  lemma BothParts(s: Tree)
    requires s.Branch? && s.left.Branch? && Distinct(s)
    ensures var r := LastSub(s.left).node;
            var cut := CutLast(s.left);
            && r in Nodes(s) && s.node in Nodes(s) && r != s.node
            && Nodes(cut) <= Nodes(s) && Nodes(s.right) <= Nodes(s)
            && r !in Nodes(cut) && s.node !in Nodes(cut) && r !in Nodes(s.right) && s.node !in Nodes(s.right)
            && Nodes(cut) !! Nodes(s.right) && Distinct(cut) && Distinct(s.right)
            && (cut.Branch? ==> cut.node in Nodes(cut)) && (s.right.Branch? ==> s.right.node in Nodes(s.right))
            && Root(RemovedBoth(s)) == r
  {
    CutIsReplace(s.left);
    RootIsNode(LastSub(s.left));
    RootIsNode(CutLast(s.left));
    RootIsNode(s.right);
  }

  /** Clearing the one link to the predecessor. */
  twostate lemma PredecessorCut(new s: Tree, new p: Node?, new q: Node)
    requires old(allocated(s)) && old(allocated(p)) && old(allocated(q))
    requires s.Branch? && s.left.Branch? && old(Linked(s, p)) && Distinct(s) && q == ParentIn(s, LastSub(s.left).node)
    requires Relinked(Nodes(s), LastSub(s.left).node, null)
    ensures Linked(CutLast(s.left), s.node) && Linked(s.right, s.node)
    ensures s.node.left == Root(CutLast(s.left)) && s.node.right == Root(s.right)
  {
    var r := LastSub(s.left).node;
    CutIsReplace(s.left);
    BothParts(s);
    RootIsNode(s.right);
    LinkedReplaced(s.left, s.node, r, Leaf);
    LinkedFrame(s.right, s.node, r, null);
  }

  /** The predecessor is found and the one link to it cleared. */
  method CutPredecessor(node: Node, ghost s: Tree) returns (replacement: Node, oldparent: Node)
    requires s.Branch? && s.left.Branch? && s.node == node && Linked(s, node.parent) && Distinct(s)
    modifies Nodes(s)`left, Nodes(s)`right
    ensures replacement == LastSub(s.left).node && oldparent == ParentIn(s, replacement) && replacement.key == LastSub(s.left).key
    ensures Linked(CutLast(s.left), node) && Linked(s.right, node)
    ensures node.left == Root(CutLast(s.left)) && node.right == Root(s.right)
  {
    NodesExist(s);
    CutIsReplace(s.left);
    BothParts(s);
    PredecessorLinks(s, node.parent);
    replacement := MaxOf(node.left, s.left, node);
    oldparent := replacement.parent;
    var dir := DirInParent(replacement, oldparent);
    hide Nodes, Linked, Distinct, LastSub, CutLast, ParentIn, InOrder;
    SetChild(oldparent, dir, null);
    PredecessorCut(s, node.parent, oldparent);
  }

  /** The replacement takes the place of the node and takes over both its subtrees. */
  method MovePredecessor(r: Node, node: Node, ghost s: Tree)
    requires s.Branch? && s.left.Branch? && Distinct(s) && s.node == node && r == LastSub(s.left).node
    requires Linked(CutLast(s.left), node) && Linked(s.right, node)
    requires node.left == Root(CutLast(s.left)) && node.right == Root(s.right) && r.key == LastSub(s.left).key
    requires forall x :: x in Nodes(s) ==> allocated(x)
    modifies (Nodes(s) - {node})`parent, r`left, r`right
    ensures Linked(RemovedBoth(s), node.parent)
  {
    BothParts(s);
    ghost var cut := CutLast(s.left);
    assert RemovedBoth(s) == Branch(cut, r, r.key, s.right);
    hide Nodes, Distinct, LastSub, CutLast, RemovedBoth;
    r.parent := node.parent;
    r.left := node.left;
    r.right := node.right;
    label Moved:
    if r.left != null {
      r.left.parent := r;
    }
    if r.right != null {
      r.right.parent := r;
    }
    Reparented@Moved(cut, node, r);
    Reparented@Moved(s.right, node, r);
  }

  /** The subtree at the insertion parent after the new leaf is linked. */
  twostate lemma AttachedLinked(new s: Tree, new p: Node?, new node: Node)
    requires old(allocated(s)) && old(allocated(p)) && old(allocated(node))
    requires s.Branch? && old(Linked(s, p)) && Distinct(s) && node !in Nodes(s)
    requires if node.key < s.key then s.left.Leaf? else s.right.Leaf?
    requires node.left == null && node.right == null && node.parent == s.node
    requires s.node.parent == old(s.node.parent) && s.node.key == old(s.node.key)
    requires s.node.left == (if node.key < s.key then node else old(s.node.left))
    requires s.node.right == (if node.key < s.key then old(s.node.right) else node)
    requires Relinked(Nodes(s) - {s.node}, node, node)
    ensures Linked(Inserted(s, node, node.key), p)
  {
    LinkedFrame(s.left, s.node, node, node);
    LinkedFrame(s.right, s.node, node, node);
  }

  /** What the caches are exact for after the new leaf is linked. */
  lemma InsertedCaches(t: Tree, node: Node, key: int)
    requires t.Branch? && Distinct(t) && node !in Nodes(t) && Heights(t, {}) && Factors(t, {}) && node.height == 0
    ensures var t', q := Inserted(t, node, key), Spot(t, key);
            && q in Nodes(t') && Heights(t', Ancestors(t', q))
            && Factors(t', Nodes(Sub(t', q)) + Ancestors(t', q))
  {
    InsertedAtSpot(t, node, key);
    var t', q := Inserted(t, node, key), Spot(t, key);
    SubFacts(t, q);
    SubCaches(t, q);
    var s := Sub(t, q);
    var s' := Inserted(s, node, key);
    InsertedKeepsNodes(s, node, key);
    assert Distinct(s') && s'.node == q && q in Nodes(s');
    AncestorsReplaced(t, q, s', q);
    LeafHeights(s, node, key, Ancestors(t', q));
    HeightsReplaced(t, q, s', Ancestors(t', q));
    FactorsNowhere(s', Nodes(s') + Ancestors(t', q));
    FactorsReplaced(t, q, s', Nodes(s') + Ancestors(t', q));
  }

  lemma LeafHeights(s: Tree, node: Node, key: int, S: set<Node>)
    requires s.Branch? && (if key < s.key then s.left.Leaf? else s.right.Leaf?) && Heights(s, {}) && s.node in S && node.height == 0
    ensures Heights(Inserted(s, node, key), S)
  {
    HeightsWeaken(s.left, S);
    HeightsWeaken(s.right, S);
    assert Heights(Branch(Leaf, node, key, Leaf), S);
  }

  lemma SingleNode(node: Node, key: int)
    requires node.height == 0 && node.bf == 0
    ensures Heights(Branch(Leaf, node, key, Leaf), {}) && Factors(Branch(Leaf, node, key, Leaf), {})
  {}

  lemma InsertedFromEmpty(t: Tree, node: Node, key: int)
    ensures t.Leaf? ==> Avl(Inserted(t, node, key))
  {}

  /** What the caches are exact for after a node with at most one child is taken out. */
  lemma RemovedCaches(t: Tree, n: Node)
    requires Distinct(t) && n in Nodes(t) && Heights(t, {}) && Factors(t, {})
    requires Sub(t, n).Branch? && (Sub(t, n).left.Leaf? || Sub(t, n).right.Leaf?)
    ensures var t' := Replace(t, n, OnlyChild(Sub(t, n)));
            var p := ParentIn(t, n);
            if p == null then Heights(t', {}) && Factors(t', {})
            else p in Nodes(t') && Heights(t', Ancestors(t', p)) && Factors(t', Nodes(Sub(t', p)) + Ancestors(t', p))
  {
    SubFacts(t, n);
    SubCaches(t, n);
    AncestorsStep(t, n);
    ParentInside(t, n);
    var c := OnlyChild(Sub(t, n));
    var p := ParentIn(t, n);
    if p != null {
      AncestorsOutside(t, n, c);
      var t' := Replace(t, n, c);
      HeightsWeaken(c, Ancestors(t', p));
      HeightsReplaced(t, n, c, Ancestors(t', p));
      FactorsWeaken(c, Nodes(Sub(t', p)) + Ancestors(t', p));
      FactorsReplaced(t, n, c, Nodes(Sub(t', p)) + Ancestors(t', p));
    }
  }

  /** The lowest node whose height the removal changes: the old parent of the predecessor, or the predecessor itself next to the removed node. */
  ghost function Lowest(s: Tree): Node?
    requires s.Branch? && s.left.Branch?
  {
    var r := LastSub(s.left).node;
    if ParentIn(s, r) == s.node then r else ParentIn(s, r)
  }

  /** What the caches are exact for after the predecessor has moved up. */
  lemma BothCaches(t: Tree, n: Node)
    requires Distinct(t) && n in Nodes(t) && Heights(t, {}) && Factors(t, {})
    requires Sub(t, n).Branch? && Sub(t, n).left.Branch?
    ensures var s := Sub(t, n);
            var t' := Replace(t, n, RemovedBoth(s));
            var r, low := LastSub(s.left).node, Lowest(s);
            && r in Nodes(t') && Factors(t', Nodes(Sub(t', r)) + Ancestors(t', r))
            && low != null && low in Nodes(t') && Heights(t', Ancestors(t', low))
  {
    var s := Sub(t, n);
    SubFacts(t, n);
    SubCaches(t, n);
    BothNodes(s);
    var x, r, low := RemovedBoth(s), LastSub(s.left).node, Lowest(s);
    var t' := Replace(t, n, x);
    hide LastSub, RemovedBoth, ParentIn, Lowest;
    AncestorsReplaced(t, n, x, r);
    FactorsNowhere(x, Nodes(x) + Ancestors(t', r));
    FactorsReplaced(t, n, x, Nodes(x) + Ancestors(t', r));
    AncestorsReplaced(t, n, x, low);
    BothHeights(s, Ancestors(t', low));
    HeightsReplaced(t, n, x, Ancestors(t', low));
  }

  lemma BothNodes(s: Tree)
    requires s.Branch? && s.left.Branch? && Distinct(s)
    ensures var x, r, low := RemovedBoth(s), LastSub(s.left).node, Lowest(s);
            && Distinct(x) && Nodes(x) <= Nodes(s) && r in Nodes(x) && Sub(x, r) == x
            && low != null && low in Nodes(x)
            && (s.left.right.Leaf? ==> low == r)
            && (s.left.right.Branch? ==> low == ParentIn(s.left, r) && low in Nodes(CutLast(s.left)) && low != r)
  {
    var r := LastSub(s.left).node;
    BothParts(s);
    CutIsReplace(s.left);
    ParentInside(s, r);
    ParentInside(s.left, r);
    if s.left.right.Branch? {
      AncestorsOutside(s.left, r, Leaf);
    }
  }

  lemma BothHeights(s: Tree, S: set<Node>)
    requires s.Branch? && s.left.Branch? && Distinct(s) && Heights(s, {})
    requires Lowest(s) != null && Ancestors(RemovedBoth(s), Lowest(s)) <= S
    ensures Heights(RemovedBoth(s), S)
  {
    var L, r := s.left, LastSub(s.left).node;
    BothNodes(s);
    CutIsReplace(L);
    HeightsWeaken(s.right, S);
    if L.right.Branch? {
      ParentInside(L, r);
      AncestorsStep(L, r);
      AncestorsOutside(L, r, Leaf);
      HeightsReplaced(L, r, Leaf, S);
    }
  }

  /** An unbalanced node has the children its rotations need. */
  lemma HeavySides(s: Tree)
    requires s.Branch?
    ensures Balance(s) > 1 ==> s.left.Branch? && (Balance(s.left) < 0 ==> s.left.right.Branch?)
    ensures Balance(s) < -1 ==> s.right.Branch? && (Balance(s.right) > 0 ==> s.right.left.Branch?)
  {}

  lemma {:induction false} ReplaceSame(t: Tree, c: Node)
    ensures Replace(t, c, Sub(t, c)) == t
  {
    if t.Branch? && t.node != c {
      ReplaceSame(if c in Nodes(t.left) then t.left else t.right, c);
    }
  }

  lemma ReplacedRoot(t: Tree, a: Node, s: Tree)
    requires a in Nodes(t)
    ensures Root(Replace(t, a, s)) == if Root(t) == a then Root(s) else Root(t)
  {}

  lemma {:induction false} ParentHasChild(t: Tree, p: Node?, a: Node)
    requires Linked(t, p) && Distinct(t) && a in Nodes(t)
    ensures var q := ParentIn(t, a);
            q != null ==> q in Nodes(t) && q !in Nodes(Sub(t, a)) && (q.left == a || q.right == a)
  {
    SubFacts(t, a);
    ParentInside(t, a);
    if t.node != a {
      var side := if a in Nodes(t.left) then t.left else t.right;
      SubFacts(side, a);
      ParentInside(side, a);
      ParentHasChild(side, t.node, a);
    }
  }

  /** Only the parent of a, and on one side only, has a as its child. */
  lemma {:induction false} OneParent(t: Tree, p: Node?, a: Node)
    requires Linked(t, p) && Distinct(t) && a in Nodes(t)
    ensures forall x :: x in Nodes(t) && x != ParentIn(t, a) ==> x.left != a && x.right != a
    ensures forall x :: x in Nodes(t) && x.left != null ==> x.left != x.right
  {
    forall x | x in Nodes(t)
      ensures x != ParentIn(t, a) ==> x.left != a && x.right != a
      ensures x.left != null ==> x.left != x.right
    {
      NodeLinks(t, p, x);
      SubFacts(t, x);
      ChildParent(t, x);
      RootIsNode(Sub(t, x).left);
      RootIsNode(Sub(t, x).right);
    }
  }

  /** The children of x have x as their parent. */
  lemma {:induction false} ChildParent(t: Tree, x: Node)
    requires Distinct(t) && x in Nodes(t)
    ensures var s := Sub(t, x);
            && s.Branch?
            && (s.left.Branch? ==> ParentIn(t, s.left.node) == x)
            && (s.right.Branch? ==> ParentIn(t, s.right.node) == x)
  {
    SubFacts(t, x);
    SubOfChild(t, x);
    if t.node != x {
      var side := if x in Nodes(t.left) then t.left else t.right;
      SubFacts(side, x);
      SubOfChild(side, x);
      ChildParent(side, x);
      var s := Sub(t, x);
      if s.left.Branch? {
        ParentInside(t, s.left.node);
      }
      if s.right.Branch? {
        ParentInside(t, s.right.node);
      }
    }
  }
}
