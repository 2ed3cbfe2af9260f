/**
 Search trees as values, for the node structures of kernel/lib/bst.c.

 A `Tree` names the node objects of a tree and their keys in their places.  What
 the rotations and the rebalancing walk do is defined and proved here on values.
 */
module AvlTrees {

  /** struct bst_node */
  class Node {
    var parent: Node?
    var left: Node?
    var right: Node?
    var key: int
    var bf: int
    var height: int

    constructor ()
      ensures height == 0
    {
      parent, left, right := null, null, null;
      key, bf, height := 0, 0, 0;
    }
  }

  datatype Tree = Leaf | Branch(left: Tree, node: Node, key: int, right: Tree)

  ghost function Root(t: Tree): Node?
  {
    if t.Leaf? then null else t.node
  }

  ghost function Nodes(t: Tree): set<Node>
  {
    if t.Leaf? then {} else Nodes(t.left) + {t.node} + Nodes(t.right)
  }

  /** No node occurs twice. */
  ghost predicate Distinct(t: Tree)
  {
    t.Branch? ==>
      && Distinct(t.left) && Distinct(t.right)
      && t.node !in Nodes(t.left) && t.node !in Nodes(t.right) && Nodes(t.left) !! Nodes(t.right)
  }

  ghost function Depth(t: Tree): nat
  {
    if t.Leaf? then 0
    else 1 + if Depth(t.left) < Depth(t.right) then Depth(t.right) else Depth(t.left)
  }

  ghost function Balance(t: Tree): int
  {
    if t.Leaf? then 0 else Depth(t.left) - Depth(t.right)
  }

  ghost predicate Avl(t: Tree)
  {
    t.Branch? ==> Avl(t.left) && Avl(t.right) && -1 <= Balance(t) <= 1
  }

  /** The keys in order. */
  ghost function Keys(t: Tree): seq<int>
  {
    if t.Leaf? then [] else Keys(t.left) + [t.key] + Keys(t.right)
  }

  /** The nodes in order. */
  ghost function InOrder(t: Tree): seq<Node>
  {
    if t.Leaf? then [] else InOrder(t.left) + [t.node] + InOrder(t.right)
  }

  /** Every key of a left subtree is smaller, every key of a right subtree larger. */
  ghost predicate Ordered(t: Tree)
  {
    t.Branch? ==>
      && Ordered(t.left) && Ordered(t.right)
      && (forall k :: k in Keys(t.left) ==> k < t.key)
      && (forall k :: k in Keys(t.right) ==> t.key < k)
  }

  ghost predicate StrictlyIncreasing(s: seq<int>)
  {
    forall i, j :: 0 <= i < j < |s| ==> s[i] < s[j]
  }

  /** Search order is the same as increasing keys. */
  lemma {:induction false} OrderedIsIncreasing(t: Tree)
    ensures Ordered(t) <==> StrictlyIncreasing(Keys(t))
  {
    if t.Branch? {
      OrderedIsIncreasing(t.left);
      OrderedIsIncreasing(t.right);
      var l, r := Keys(t.left), Keys(t.right);
      IncreasingAround(l, t.key, r);
    }
  }

  lemma IncreasingAround(l: seq<int>, k: int, r: seq<int>)
    ensures StrictlyIncreasing(l + [k] + r) <==>
            StrictlyIncreasing(l) && StrictlyIncreasing(r) && (forall x :: x in l ==> x < k) && (forall x :: x in r ==> k < x)
  {
    if StrictlyIncreasing(l + [k] + r) {
      IncreasingParts(l, k, r);
    }
    if StrictlyIncreasing(l) && StrictlyIncreasing(r) && (forall x :: x in l ==> x < k) && (forall x :: x in r ==> k < x) {
      IncreasingWhole(l, k, r);
    }
  }

  lemma IncreasingParts(l: seq<int>, k: int, r: seq<int>)
    requires StrictlyIncreasing(l + [k] + r)
    ensures StrictlyIncreasing(l) && StrictlyIncreasing(r) && (forall x :: x in l ==> x < k) && (forall x :: x in r ==> k < x)
  {
    var s := l + [k] + r;
    assert s[|l|] == k;
    forall i, j | 0 <= i < j < |l|
      ensures l[i] < l[j]
    {
      assert s[i] < s[j];
    }
    forall i, j | 0 <= i < j < |r|
      ensures r[i] < r[j]
    {
      assert s[|l| + 1 + i] < s[|l| + 1 + j];
    }
    forall x | x in l
      ensures x < k
    {
      var i :| 0 <= i < |l| && l[i] == x;
      assert s[i] < s[|l|];
    }
    forall x | x in r
      ensures k < x
    {
      var i :| 0 <= i < |r| && r[i] == x;
      assert s[|l|] < s[|l| + 1 + i];
    }
  }

  lemma IncreasingWhole(l: seq<int>, k: int, r: seq<int>)
    requires StrictlyIncreasing(l) && StrictlyIncreasing(r) && (forall x :: x in l ==> x < k) && (forall x :: x in r ==> k < x)
    ensures StrictlyIncreasing(l + [k] + r)
  {
    var s := l + [k] + r;
    forall i, j | 0 <= i < j < |s|
      ensures s[i] < s[j]
    {
      if i < |l| {
        assert s[i] == l[i] && l[i] in l;
      }
      if j > |l| {
        assert s[j] == r[j - |l| - 1] && r[j - |l| - 1] in r;
      }
      if i > |l| {
        assert s[i] == r[i - |l| - 1];
      }
    }
  }

  // ------------------------------------------------------------ subtrees

  /** The subtree of t rooted at n. */
  ghost function Sub(t: Tree, n: Node): Tree
  {
    if t.Leaf? || t.node == n then t
    else if n in Nodes(t.left) then Sub(t.left, n)
    else Sub(t.right, n)
  }

  /** t with its subtree at n replaced. */
  ghost function Replace(t: Tree, n: Node, s: Tree): Tree
  {
    if t.Leaf? then t
    else if t.node == n then s
    else if n in Nodes(t.left) then t.(left := Replace(t.left, n, s))
    else t.(right := Replace(t.right, n, s))
  }

  /** The nodes from n up to the root of t. */
  ghost function Up(t: Tree, n: Node): seq<Node>
  {
    if t.Leaf? then []
    else if t.node == n then [n]
    else if n in Nodes(t.left) then Up(t.left, n) + [t.node]
    else Up(t.right, n) + [t.node]
  }

  lemma {:induction false} SubFacts(t: Tree, n: Node)
    requires Distinct(t) && n in Nodes(t)
    ensures Sub(t, n).Branch? && Sub(t, n).node == n && Distinct(Sub(t, n)) && Nodes(Sub(t, n)) <= Nodes(t)
    ensures Ordered(t) ==> Ordered(Sub(t, n))
  {
    if t.node != n {
      if n in Nodes(t.left) {
        SubFacts(t.left, n);
      } else {
        SubFacts(t.right, n);
      }
    }
  }

  lemma {:induction false} ReplaceNodes(t: Tree, n: Node, s: Tree)
    requires Distinct(t) && n in Nodes(t)
    requires Distinct(s) && Nodes(s) !! (Nodes(t) - Nodes(Sub(t, n)))
    ensures Distinct(Replace(t, n, s))
    ensures Nodes(Replace(t, n, s)) == Nodes(t) - Nodes(Sub(t, n)) + Nodes(s)
  {
    SubFacts(t, n);
    if t.node != n {
      if n in Nodes(t.left) {
        SubFacts(t.left, n);
        ReplaceNodes(t.left, n, s);
      } else {
        SubFacts(t.right, n);
        ReplaceNodes(t.right, n, s);
      }
    }
  }

  lemma {:induction false} ReplaceKeys(t: Tree, n: Node, s: Tree)
    requires Distinct(t) && n in Nodes(t) && Keys(s) == Keys(Sub(t, n))
    ensures Keys(Replace(t, n, s)) == Keys(t)
  {
    if t.node != n {
      if n in Nodes(t.left) {
        ReplaceKeys(t.left, n, s);
      } else {
        ReplaceKeys(t.right, n, s);
      }
    }
  }

  // ------------------------------------------------------------ rotations

  datatype Dir = Left | Right

  ghost predicate CanRotate(t: Tree, dir: Dir)
  {
    t.Branch? && if dir == Left then t.right.Branch? else t.left.Branch?
  }

  /** The rotation of kernel/lib/bst.c on a subtree. */
  ghost function Rotate(t: Tree, dir: Dir): Tree
    requires CanRotate(t, dir)
  {
    match dir
    case Left =>
      var b := t.right;
      b.(left := t.(right := b.left))
    case Right =>
      var b := t.left;
      b.(right := t.(left := b.right))
  }

  /** A rotation keeps the order of the keys and of the nodes. */
  lemma RotateKeepsOrder(t: Tree, dir: Dir)
    requires CanRotate(t, dir)
    ensures Keys(Rotate(t, dir)) == Keys(t) && InOrder(Rotate(t, dir)) == InOrder(t)
  {
    var b := if dir == Left then t.right else t.left;
    if dir == Left {
      Regroup(Keys(t.left), [t.key], Keys(b.left), [b.key], Keys(b.right));
      Regroup(InOrder(t.left), [t.node], InOrder(b.left), [b.node], InOrder(b.right));
    } else {
      Regroup(Keys(b.left), [b.key], Keys(b.right), [t.key], Keys(t.right));
      Regroup(InOrder(b.left), [b.node], InOrder(b.right), [t.node], InOrder(t.right));
    }
  }

  lemma Regroup<T>(a: seq<T>, x: seq<T>, b: seq<T>, y: seq<T>, c: seq<T>)
    ensures a + x + (b + y + c) == (a + x + b) + y + c
  {}

  lemma RotateNodes(t: Tree, dir: Dir)
    requires CanRotate(t, dir)
    ensures Nodes(Rotate(t, dir)) == Nodes(t)
    ensures Distinct(t) ==> Distinct(Rotate(t, dir))
  {
    var b := if dir == Left then t.right else t.left;
    var inner := if dir == Left then b.left else b.right;
    var a := if dir == Left then t.(right := inner) else t.(left := inner);
    assert Nodes(b) == Nodes(b.left) + {b.node} + Nodes(b.right);
    assert Nodes(a) == Nodes(a.left) + {a.node} + Nodes(a.right);
    if Distinct(t) {
      assert Distinct(b) && Distinct(inner);
      assert Distinct(a);
    }
  }

  /** The one or two rotations of bst_check_and_rebalence at an unbalanced node. */
  ghost function Rebalanced(t: Tree): Tree
  {
    if Balance(t) > 1 then
      var t' := if Balance(t.left) < 0 then t.(left := Rotate(t.left, Left)) else t;
      Rotate(t', Right)
    else if Balance(t) < -1 then
      var t' := if Balance(t.right) > 0 then t.(right := Rotate(t.right, Right)) else t;
      Rotate(t', Left)
    else t
  }

  /** x is a subtree of t, or empty. */
  ghost predicate Within(x: Tree, t: Tree)
  {
    x.Leaf? || x == t || (t.Branch? && (Within(x, t.left) || Within(x, t.right)))
  }

  lemma {:induction false} AvlWithin(x: Tree, t: Tree)
    requires Within(x, t) && Avl(t)
    ensures Avl(x)
  {
    if x.Branch? && x != t {
      AvlWithin(x, if Within(x, t.left) then t.left else t.right);
    }
  }

  /** Rebalancing two AVL subtrees whose depths differ by at most two gives an AVL tree, at most one level less deep. */
  lemma RebalancedIsAvl(t: Tree)
    requires t.Branch? && Avl(t.left) && Avl(t.right) && -2 <= Balance(t) <= 2
    ensures Avl(Rebalanced(t))
    ensures Depth(t) - 1 <= Depth(Rebalanced(t)) <= Depth(t)
    ensures Rebalanced(t).Branch?
  {
    if Balance(t) > 1 {
      LeftHeavy(t, Leaf);
    } else if Balance(t) < -1 {
      RightHeavy(t, Leaf);
    }
  }

  /** The rotations at a left-heavy node leave its right subtree in one piece, whatever that subtree is. */
  lemma LeftHeavy(t: Tree, x: Tree)
    requires t.Branch? && Avl(t.left) && Balance(t) == 2 && Within(x, t.right)
    ensures Depth(t) - 1 <= Depth(Rebalanced(t)) <= Depth(t) && Rebalanced(t).Branch?
    ensures Within(x, Rebalanced(t)) && (Avl(t.right) ==> Avl(Rebalanced(t)))
  {
    var b := t.left;
    assert Depth(b) == Depth(t.right) + 2;
    if Balance(b) < 0 {
      var c := b.right;
      var b' := b.(right := c.left);
      var a' := t.(left := c.right);
      assert Rebalanced(t) == Branch(b', c.node, c.key, a');
      assert Depth(b') == Depth(t.right) + 1 && Avl(b');
      assert Depth(a') == Depth(t.right) + 1 && Within(x, a');
    } else {
      var a' := t.(left := b.right);
      assert Rebalanced(t) == Branch(b.left, b.node, b.key, a');
      assert Within(x, a');
    }
  }

  lemma RightHeavy(t: Tree, x: Tree)
    requires t.Branch? && Avl(t.right) && Balance(t) == -2 && Within(x, t.left)
    ensures Depth(t) - 1 <= Depth(Rebalanced(t)) <= Depth(t) && Rebalanced(t).Branch?
    ensures Within(x, Rebalanced(t)) && (Avl(t.left) ==> Avl(Rebalanced(t)))
  {
    var b := t.right;
    assert Depth(b) == Depth(t.left) + 2;
    if Balance(b) > 0 {
      var c := b.left;
      var b' := b.(left := c.right);
      var a' := t.(right := c.left);
      assert Rebalanced(t) == Branch(a', c.node, c.key, b');
      assert Depth(b') == Depth(t.left) + 1 && Avl(b');
      assert Depth(a') == Depth(t.left) + 1 && Within(x, a');
    } else {
      var a' := t.(right := b.left);
      assert Rebalanced(t) == Branch(a', b.node, b.key, b.right);
      assert Within(x, a');
    }
  }

  lemma RebalancedSame(t: Tree)
    requires t.Branch? && Distinct(t)
    ensures Keys(Rebalanced(t)) == Keys(t)
    ensures Nodes(Rebalanced(t)) == Nodes(t) && Distinct(Rebalanced(t))
  {
    if Balance(t) > 1 {
      if Balance(t.left) < 0 {
        RotateKeepsOrder(t.left, Left);
        RotateNodes(t.left, Left);
      }
      var t' := if Balance(t.left) < 0 then t.(left := Rotate(t.left, Left)) else t;
      RotateKeepsOrder(t', Right);
      RotateNodes(t', Right);
    } else if Balance(t) < -1 {
      if Balance(t.right) > 0 {
        RotateKeepsOrder(t.right, Right);
        RotateNodes(t.right, Right);
      }
      var t' := if Balance(t.right) > 0 then t.(right := Rotate(t.right, Right)) else t;
      RotateKeepsOrder(t', Left);
      RotateNodes(t', Left);
    }
  }

  // ------------------------------------------------------------ what the balance is for

  ghost function Fib(n: nat): nat
  {
    if n < 2 then n else Fib(n - 1) + Fib(n - 2)
  }

  /** A balanced tree grows like the Fibonacci numbers, so its depth is logarithmic in the number of its nodes. */
  lemma {:induction false} DepthIsLogarithmic(t: Tree)
    requires Avl(t)
    ensures Fib(Depth(t) + 2) <= |InOrder(t)| + 1
  {
    if t.Branch? {
      DepthIsLogarithmic(t.left);
      DepthIsLogarithmic(t.right);
      var l, r := Depth(t.left), Depth(t.right);
      assert |InOrder(t)| + 1 == (|InOrder(t.left)| + 1) + (|InOrder(t.right)| + 1);
      assert l <= r + 1 && r <= l + 1;
      hide InOrder, Avl, Depth;
      NextFib(l, r);
    }
  }

  /** Depths that differ by one at most. */
  lemma NextFib(l: nat, r: nat)
    requires l <= r + 1 && r <= l + 1
    ensures Fib((if l < r then r else l) + 3) <= Fib(l + 2) + Fib(r + 2)
  {
    var low, high := if l < r then l else r, if l < r then r else l;
    FibGrows(high + 1, low + 2);
  }

  lemma {:induction false} FibGrows(m: nat, n: nat)
    requires 0 < m <= n
    ensures Fib(m) <= Fib(n)
    decreases n
  {
    if m < n {
      FibGrows(m, n - 1);
    }
  }

  /** The way from any node to the root has at most as many nodes as the tree is deep. */
  lemma {:induction false} PathWithinDepth(t: Tree, n: Node)
    requires n in Nodes(t)
    ensures 0 < |Up(t, n)| <= Depth(t)
  {
    if t.node != n {
      PathWithinDepth(if n in Nodes(t.left) then t.left else t.right, n);
    }
  }

  // ------------------------------------------------------------ the walk to the root

  /**
   A tree `now` in the place of an AVL tree `was`, with the same depth or one
   level more (d = 1) or less (d = -1).  It holds x as a subtree and is an AVL tree
   itself if x is; an insertion leaves no such x, so x is empty there.
   */
  ghost predicate Shifted(was: Tree, now: Tree, d: int, x: Tree)
  {
    && Avl(was) && (Depth(now) == Depth(was) || Depth(now) == Depth(was) + d)
    && Within(x, now) && (Avl(x) ==> Avl(now)) && (d == 1 ==> x == Leaf)
  }

  /**
   The tree in the middle of the rebalancing walk: one subtree of node c has
   changed by one level at most, and from c up nothing has been repaired yet.
   */
  ghost predicate Pending(was: Tree, now: Tree, c: Node, d: int, x: Tree)
  {
    was.Branch? && now.Branch? && Avl(was) && was.node == now.node &&
    if now.node == c then
      (Shifted(was.left, now.left, d, x) && was.right == now.right) ||
      (was.left == now.left && Shifted(was.right, now.right, d, x))
    else if c in Nodes(now.left) then
      Pending(was.left, now.left, c, d, x) && was.right == now.right
    else
      was.left == now.left && Pending(was.right, now.right, c, d, x)
  }

  /** The parent of c in t, if c is not the root. */
  ghost function ParentIn(t: Tree, c: Node): Node?
  {
    if t.Leaf? || t.node == c then null
    else if Root(t.left) == c || Root(t.right) == c then t.node
    else if c in Nodes(t.left) then ParentIn(t.left, c)
    else ParentIn(t.right, c)
  }

  lemma RepairRoot(was: Tree, now: Tree, d: int, x: Tree)
    requires was.Branch? && now.Branch? && Avl(was) && (d == 1 || d == -1)
    requires (Shifted(was.left, now.left, d, x) && was.right == now.right) || (was.left == now.left && Shifted(was.right, now.right, d, x))
    ensures -2 <= Balance(now) <= 2 && Shifted(was, Rebalanced(now), d, x)
  {
    hide Rebalanced;
    assert -1 <= Balance(was) <= 1;
    if -1 <= Balance(now) <= 1 {
      Undisturbed(now);
    } else if d == 1 {
      RebalancedIsAvl(now);
    } else if Balance(now) > 1 {
      LeftHeavy(now, x);
    } else {
      RightHeavy(now, x);
    }
  }

  lemma Undisturbed(t: Tree)
    requires -1 <= Balance(t) <= 1
    ensures Rebalanced(t) == t
  {}

  /** Repairing a node of a subtree changes neither its node set nor its distinctness. */
  lemma RepairNodes(t: Tree, c: Node)
    requires Distinct(t) && c in Nodes(t)
    ensures var t' := Replace(t, c, Rebalanced(Sub(t, c)));
            Nodes(t') == Nodes(t) && Distinct(t') && Keys(t') == Keys(t)
  {
    SubFacts(t, c);
    RebalancedSame(Sub(t, c));
    ReplaceNodes(t, c, Rebalanced(Sub(t, c)));
    ReplaceKeys(t, c, Rebalanced(Sub(t, c)));
  }

  /** The parent of a node that is not the root, found through the side it is on. */
  ghost function StepToParent(t: Tree, c: Node): Node?
    requires t.Branch? && c in Nodes(t) && t.node != c
  {
    if c in Nodes(t.left) then (if Root(t.left) == c then t.node else ParentIn(t.left, c))
    else (if Root(t.right) == c then t.node else ParentIn(t.right, c))
  }

  lemma {:induction false} ParentInside(t: Tree, c: Node)
    requires Distinct(t) && c in Nodes(t)
    ensures ParentIn(t, c) == null <==> t.node == c
    ensures ParentIn(t, c) != null ==> ParentIn(t, c) in Nodes(t)
    ensures t.node != c ==> ParentIn(t, c) == StepToParent(t, c)
  {
    if t.node != c {
      if c in Nodes(t.left) {
        ParentInside(t.left, c);
      } else {
        ParentInside(t.right, c);
      }
    }
  }

  /** The walk repairs node c and moves to its parent. */
  lemma {:induction false} RepairStep(was: Tree, now: Tree, c: Node, d: int, x: Tree)
    requires Distinct(now) && c in Nodes(now) && Pending(was, now, c, d, x) && (d == 1 || d == -1)
    ensures Sub(now, c).Branch? && -2 <= Balance(Sub(now, c)) <= 2
    ensures var now' := Replace(now, c, Rebalanced(Sub(now, c)));
            var p := ParentIn(now, c);
            if p == null then Shifted(was, now', d, x) else p in Nodes(now') && Pending(was, now', p, d, x)
  {
    hide Rebalanced, Shifted, Balance, Avl;
    RepairNodes(now, c);
    ParentInside(now, c);
    if now.node == c {
      RepairRoot(was, now, d, x);
    } else if c in Nodes(now.left) {
      RepairStep(was.left, now.left, c, d, x);
      RepairNodes(now.left, c);
      ParentInside(now.left, c);
    } else {
      RepairStep(was.right, now.right, c, d, x);
      RepairNodes(now.right, c);
      ParentInside(now.right, c);
    }
  }

  // ------------------------------------------------------------ ancestors

  /** The nodes on the way from n to the root, n included. */
  ghost function Ancestors(t: Tree, n: Node): set<Node>
  {
    if t.Leaf? then {}
    else if t.node == n then {n}
    else if n in Nodes(t.left) then {t.node} + Ancestors(t.left, n)
    else {t.node} + Ancestors(t.right, n)
  }

  lemma {:induction false} AncestorsStep(t: Tree, n: Node)
    requires Distinct(t) && n in Nodes(t)
    ensures Ancestors(t, n) <= Nodes(t) && n in Ancestors(t, n)
    ensures var p := ParentIn(t, n);
            if p == null then Ancestors(t, n) == {n}
            else p in Nodes(t) && n !in Ancestors(t, p) && Ancestors(t, n) == {n} + Ancestors(t, p)
  {
    ParentInside(t, n);
    if t.node != n {
      var side := if n in Nodes(t.left) then t.left else t.right;
      AncestorsStep(side, n);
      ParentInside(side, n);
    }
  }

  /** The nodes below n are not its ancestors. */
  lemma {:induction false} BelowIsNotAbove(t: Tree, n: Node)
    requires Distinct(t) && n in Nodes(t)
    ensures Sub(t, n).Branch?
    ensures Nodes(Sub(t, n).left) !! Ancestors(t, n) && Nodes(Sub(t, n).right) !! Ancestors(t, n)
    ensures Nodes(Sub(t, n).left) <= Nodes(t) && Nodes(Sub(t, n).right) <= Nodes(t)
  {
    SubFacts(t, n);
    if t.node != n {
      var side := if n in Nodes(t.left) then t.left else t.right;
      BelowIsNotAbove(side, n);
    }
  }

  /** The subtree at the root of a child of n. */
  lemma {:induction false} SubOfChild(t: Tree, n: Node)
    requires Distinct(t) && n in Nodes(t)
    ensures var s := Sub(t, n);
            && s.Branch?
            && (s.left.Branch? ==> s.left.node in Nodes(t) && Sub(t, s.left.node) == s.left)
            && (s.right.Branch? ==> s.right.node in Nodes(t) && Sub(t, s.right.node) == s.right)
  {
    SubFacts(t, n);
    if t.node != n {
      var side := if n in Nodes(t.left) then t.left else t.right;
      SubOfChild(side, n);
      SubFacts(side, n);
    }
  }

  /** Replacing the subtree at a keeps the ancestors outside it. */
  lemma {:induction false} AncestorsReplaced(t: Tree, a: Node, s: Tree, x: Node)
    requires Distinct(t) && a in Nodes(t) && Distinct(s) && Nodes(s) !! (Nodes(t) - Nodes(Sub(t, a))) && x in Nodes(s)
    ensures Distinct(Replace(t, a, s)) && x in Nodes(Replace(t, a, s))
    ensures Sub(Replace(t, a, s), x) == Sub(s, x)
    ensures Ancestors(Replace(t, a, s), x) == (Ancestors(t, a) - {a}) + Ancestors(s, x)
  {
    ReplaceNodes(t, a, s);
    SubFacts(t, a);
    AncestorsStep(t, a);
    if t.node != a {
      var side := if a in Nodes(t.left) then t.left else t.right;
      SubFacts(side, a);
      AncestorsReplaced(side, a, s, x);
      ReplaceNodes(side, a, s);
      AncestorsStep(side, a);
    } else {
      assert Ancestors(t, a) - {a} == {};
    }
  }

  // ------------------------------------------------------------ nodes in order

  lemma {:induction false} InOrderNodes(t: Tree, x: Node)
    ensures x in InOrder(t) <==> x in Nodes(t)
  {
    if t.Branch? {
      InOrderNodes(t.left, x);
      InOrderNodes(t.right, x);
    }
  }

  /** A node has one place in the order. */
  lemma {:induction false} InOrderUnique(t: Tree, i: nat, j: nat)
    requires Distinct(t) && i < |InOrder(t)| && j < |InOrder(t)| && InOrder(t)[i] == InOrder(t)[j]
    ensures i == j
  {
    var l := |InOrder(t.left)|;
    var x := InOrder(t)[i];
    InOrderNodes(t.left, x);
    InOrderNodes(t.right, x);
    if i < l {
      assert x in InOrder(t.left);
    }
    if j < l {
      assert x in InOrder(t.left);
    }
    if i > l {
      assert x == InOrder(t.right)[i - l - 1];
    }
    if j > l {
      assert x == InOrder(t.right)[j - l - 1];
    }
    if i < l && j < l {
      InOrderUnique(t.left, i, j);
    } else if i > l && j > l {
      InOrderUnique(t.right, i - l - 1, j - l - 1);
    }
  }

  /** s stands at offset off in a. */
  ghost predicate SliceOf(a: seq<Node>, off: nat, s: seq<Node>)
  {
    off + |s| <= |a| && forall i :: 0 <= i < |s| ==> s[i] == a[off + i]
  }

  /** The nodes of a subtree are consecutive in the order. */
  lemma {:induction false} SubSlice(t: Tree, n: Node) returns (off: nat)
    requires Distinct(t) && n in Nodes(t)
    ensures SliceOf(InOrder(t), off, InOrder(Sub(t, n)))
  {
    off := 0;
    if t.node != n {
      hide SliceOf;
      var side := if n in Nodes(t.left) then t.left else t.right;
      var low := SubSlice(side, n);
      SliceInside(InOrder(t.left), [t.node], InOrder(t.right), InOrder(Sub(t, n)), low, n in Nodes(t.left));
      off := if n in Nodes(t.left) then low else low + |InOrder(t.left)| + 1;
    }
  }

  lemma SliceInside(a: seq<Node>, x: seq<Node>, b: seq<Node>, s: seq<Node>, low: nat, left: bool)
    requires |x| == 1 && SliceOf(if left then a else b, low, s)
    ensures SliceOf(a + x + b, if left then low else low + |a| + 1, s)
  {}

  /** The nearest ancestor that has n on its left side. */
  ghost function Above(t: Tree, n: Node): Node?
  {
    if t.Leaf? || t.node == n then null
    else if n in Nodes(t.left) then (if Above(t.left, n) != null then Above(t.left, n) else t.node)
    else Above(t.right, n)
  }

  /** For a node without right child, that ancestor comes next. */
  lemma {:induction false} AboveIsNext(t: Tree, n: Node, i: nat)
    requires Distinct(t) && i < |InOrder(t)| && InOrder(t)[i] == n && n in Nodes(t) && Sub(t, n).Branch? && Sub(t, n).right.Leaf?
    ensures Above(t, n) == if i + 1 < |InOrder(t)| then InOrder(t)[i + 1] else null
  {
    var l := |InOrder(t.left)|;
    InOrderNodes(t.left, n);
    InOrderNodes(t.right, n);
    if t.node == n {
      InOrderUnique(t, i, l);
    } else if n in Nodes(t.left) {
      var k :| 0 <= k < l && InOrder(t.left)[k] == n;
      InOrderUnique(t, i, k);
      AboveIsNext(t.left, n, i);
    } else {
      var k :| 0 <= k < |InOrder(t.right)| && InOrder(t.right)[k] == n;
      InOrderUnique(t, i, l + 1 + k);
      AboveIsNext(t.right, n, k);
    }
  }

  ghost function KeyOf(t: Tree, n: Node): int
  {
    if Sub(t, n).Branch? then Sub(t, n).key else 0
  }

  lemma {:induction false} KeyInside(t: Tree, n: Node)
    requires Distinct(t) && n in Nodes(t)
    ensures KeyOf(t, n) in Keys(t)
  {
    if t.node != n {
      KeyInside(if n in Nodes(t.left) then t.left else t.right, n);
    }
  }

  lemma {:induction false} UpFacts(t: Tree, n: Node)
    requires Distinct(t) && n in Nodes(t)
    ensures |Up(t, n)| > 0 && Up(t, n)[0] == n
    ensures forall j :: 0 <= j < |Up(t, n)| ==> Up(t, n)[j] in Nodes(t)
  {
    if t.node != n {
      UpFacts(if n in Nodes(t.left) then t.left else t.right, n);
    }
  }

  lemma {:induction false} UpParent(t: Tree, n: Node, j: nat)
    requires Distinct(t) && n in Nodes(t) && j < |Up(t, n)|
    ensures Up(t, n)[j] in Nodes(t)
    ensures ParentIn(t, Up(t, n)[j]) == if j + 1 < |Up(t, n)| then Up(t, n)[j + 1] else null
  {
    UpFacts(t, n);
    ParentInside(t, Up(t, n)[j]);
    if t.node != n {
      var side := if n in Nodes(t.left) then t.left else t.right;
      var path, low := Up(t, n), Up(side, n);
      assert path == low + [t.node];
      if j < |low| {
        UpParent(side, n, j);
        ParentInside(side, low[j]);
        UpEnds(side, n);
      }
    }
  }

  lemma {:induction false} UpEnds(t: Tree, n: Node)
    requires Distinct(t) && n in Nodes(t)
    ensures |Up(t, n)| > 0 && Up(t, n)[|Up(t, n)| - 1] == t.node
  {}

  /** Climbing to the first larger key finds that ancestor. */
  lemma {:induction false} AboveByKey(t: Tree, n: Node, j: nat)
    requires Distinct(t) && Ordered(t) && n in Nodes(t) && 1 <= j <= |Up(t, n)|
    requires forall x :: 1 <= x < j ==> KeyOf(t, Up(t, n)[x]) <= KeyOf(t, n)
    requires j < |Up(t, n)| ==> KeyOf(t, Up(t, n)[j]) > KeyOf(t, n)
    ensures Above(t, n) == if j < |Up(t, n)| then Up(t, n)[j] else null
  {
    UpFacts(t, n);
    if t.node != n {
      var side := if n in Nodes(t.left) then t.left else t.right;
      var k := |Up(side, n)|;
      UpFacts(side, n);
      KeyInside(side, n);
      var path, low := Up(t, n), Up(side, n);
      assert path == low + [t.node];
      assert KeyOf(t, n) == KeyOf(side, n) && KeyOf(t, t.node) == t.key;
      forall x | 0 <= x < k
        ensures path[x] == low[x] && KeyOf(t, path[x]) == KeyOf(side, low[x])
      {
        assert low[x] in Nodes(side);
      }
      var j' := if j < k then j else k;
      AboveByKey(side, n, j');
      if j >= k {
        assert Above(side, n) == null;
        assert path[k] == t.node;
      }
    }
  }

  /** The node after n is the leftmost of its right subtree, if it has one. */
  lemma {:induction false} NextInRightSubtree(t: Tree, n: Node, i: nat)
    requires Distinct(t) && i < |InOrder(t)| && InOrder(t)[i] == n && n in Nodes(t)
    requires Sub(t, n).Branch? && Sub(t, n).right.Branch?
    ensures i + 1 < |InOrder(t)| && |InOrder(Sub(t, n).right)| > 0
    ensures InOrder(t)[i + 1] == InOrder(Sub(t, n).right)[0]
  {
    var s := Sub(t, n);
    SubFacts(t, n);
    var off := SubSlice(t, n);
    var l := |InOrder(s.left)|;
    hide InOrder, Sub, Distinct;
    NextToRoot(s);
    assert InOrder(s)[l] == InOrder(t)[off + l] && InOrder(s)[l + 1] == InOrder(t)[off + (l + 1)];
    InOrderUnique(t, i, off + l);
  }

  lemma {:induction false} NextToRoot(s: Tree)
    requires s.Branch? && s.right.Branch?
    ensures |InOrder(s.left)| + 1 < |InOrder(s)| && |InOrder(s.right)| > 0
    ensures InOrder(s)[|InOrder(s.left)|] == s.node
    ensures InOrder(s)[|InOrder(s.left)| + 1] == InOrder(s.right)[0]
  {}

  // ------------------------------------------------------------ edits below a node

  /** Replacing the subtree of a child first and the subtree of its parent next is one replacement. */
  lemma {:induction false} ReplaceLeftChild(t: Tree, c: Node, x: Tree, y: Tree)
    requires Distinct(t) && c in Nodes(t) && Sub(t, c).Branch? && Sub(t, c).left.Branch?
    requires Distinct(x) && Nodes(x) == Nodes(Sub(t, c).left)
    ensures var t' := Replace(t, Sub(t, c).left.node, x);
            Sub(t', c) == Sub(t, c).(left := x) && Replace(t', c, y) == Replace(t, c, y) && Nodes(t') == Nodes(t)
  {
    SubFacts(t, c);
    SubOfChild(t, c);
    if t.node == c {
      assert Replace(t, t.left.node, x) == t.(left := x);
    } else {
      var side := if c in Nodes(t.left) then t.left else t.right;
      SubFacts(side, c);
      SubOfChild(side, c);
      assert Sub(t, c) == Sub(side, c);
      ReplaceLeftChild(side, c, x, y);
    }
  }

  lemma {:induction false} ReplaceRightChild(t: Tree, c: Node, x: Tree, y: Tree)
    requires Distinct(t) && c in Nodes(t) && Sub(t, c).Branch? && Sub(t, c).right.Branch?
    requires Distinct(x) && Nodes(x) == Nodes(Sub(t, c).right)
    ensures var t' := Replace(t, Sub(t, c).right.node, x);
            Sub(t', c) == Sub(t, c).(right := x) && Replace(t', c, y) == Replace(t, c, y) && Nodes(t') == Nodes(t)
  {
    SubFacts(t, c);
    SubOfChild(t, c);
    if t.node == c {
      assert Replace(t, t.right.node, x) == t.(right := x);
    } else {
      var side := if c in Nodes(t.left) then t.left else t.right;
      SubFacts(side, c);
      SubOfChild(side, c);
      assert Sub(t, c) == Sub(side, c);
      ReplaceRightChild(side, c, x, y);
    }
  }

  /** Replacing the subtree at c leaves the nodes above its parent in place. */
  lemma {:induction false} AncestorsOutside(t: Tree, c: Node, s: Tree)
    requires Distinct(t) && c in Nodes(t) && ParentIn(t, c) != null
    requires Distinct(s) && Nodes(s) !! (Nodes(t) - Nodes(Sub(t, c)))
    ensures var p: Node := ParentIn(t, c);
            p in Nodes(t) && p in Nodes(Replace(t, c, s)) && Ancestors(Replace(t, c, s), p) == Ancestors(t, p)
  {
    ParentInside(t, c);
    SubFacts(t, c);
    ReplaceNodes(t, c, s);
    var side := if c in Nodes(t.left) then t.left else t.right;
    ParentInside(side, c);
    SubFacts(side, c);
    if Root(side) != c {
      AncestorsOutside(side, c, s);
      ReplaceNodes(side, c, s);
    }
  }

  // ------------------------------------------------------------ insertion

  /** The plain insertion of a node into a search tree. */
  ghost function Inserted(t: Tree, node: Node, key: int): Tree
  {
    if t.Leaf? then Branch(Leaf, node, key, Leaf)
    else if key < t.key then t.(left := Inserted(t.left, node, key))
    else t.(right := Inserted(t.right, node, key))
  }

  /** The node under which the search for a missing key ends. */
  ghost function Spot(t: Tree, key: int): Node
    requires t.Branch?
  {
    var side := if key < t.key then t.left else t.right;
    if side.Leaf? then t.node else Spot(side, key)
  }

  /** Insertion adds one node and one key and keeps the search order. */
  lemma {:induction false} InsertedAdds(t: Tree, node: Node, key: int)
    requires Distinct(t) && Ordered(t) && node !in Nodes(t) && key !in Keys(t)
    ensures var t' := Inserted(t, node, key);
            && Distinct(t') && Ordered(t') && Nodes(t') == Nodes(t) + {node}
            && forall k :: k in Keys(t') <==> k in Keys(t) || k == key
  {
    if t.Branch? {
      if key < t.key {
        InsertedAdds(t.left, node, key);
      } else {
        InsertedAdds(t.right, node, key);
      }
    }
  }

  /** Insertion replaces the subtree at the spot by one with the new leaf attached. */
  lemma {:induction false} InsertedAtSpot(t: Tree, node: Node, key: int)
    requires t.Branch? && Distinct(t) && node !in Nodes(t)
    ensures var q := Spot(t, key);
            var s := Sub(t, q);
            && q in Nodes(t) && s.Branch? && s.node == q
            && (if key < s.key then s.left.Leaf? else s.right.Leaf?)
            && Inserted(t, node, key) == Replace(t, q, Inserted(s, node, key))
  {
    var side := if key < t.key then t.left else t.right;
    if side.Branch? {
      InsertedAtSpot(side, node, key);
    }
  }

  /** After an insertion the path above the spot waits for repair. */
  lemma {:induction false} InsertedPending(t: Tree, node: Node, key: int)
    requires t.Branch? && Distinct(t) && Avl(t) && node !in Nodes(t)
    ensures Spot(t, key) in Nodes(t)
    ensures Pending(t, Inserted(t, node, key), Spot(t, key), 1, Leaf)
  {
    InsertedAtSpot(t, node, key);
    var side := if key < t.key then t.left else t.right;
    if side.Branch? {
      InsertedPending(side, node, key);
      InsertedKeepsNodes(side, node, key);
    } else {
      assert Shifted(Leaf, Branch(Leaf, node, key, Leaf), 1, Leaf);
    }
  }

  lemma {:induction false} InsertedKeepsNodes(t: Tree, node: Node, key: int)
    ensures Nodes(Inserted(t, node, key)) == Nodes(t) + {node}
  {
    if t.Branch? {
      InsertedKeepsNodes(t.left, node, key);
      InsertedKeepsNodes(t.right, node, key);
    }
  }

  // ------------------------------------------------------------ removal

  /** The only child tree of a subtree with at most one child. */
  ghost function OnlyChild(s: Tree): Tree
    requires s.Branch? && (s.left.Leaf? || s.right.Leaf?)
  {
    if s.left.Leaf? then s.right else s.left
  }

  /** The subtree at the last node in order. */
  ghost function LastSub(t: Tree): (r: Tree)
    requires t.Branch?
    ensures r.Branch?
  {
    if t.right.Leaf? then t else LastSub(t.right)
  }

  /** t after the link to its last node is cleared. */
  ghost function CutLast(t: Tree): Tree
    requires t.Branch?
  {
    if t.right.Leaf? then Leaf else t.(right := CutLast(t.right))
  }

  /** remove_node_with_both_children: the predecessor moves up, and its left link is overwritten. */
  ghost function RemovedBoth(s: Tree): Tree
    requires s.Branch? && s.left.Branch?
  {
    var last := LastSub(s.left);
    Branch(CutLast(s.left), last.node, last.key, s.right)
  }

  /** What bst_remove_node_unbalenced leaves of the subtree at the removed node. */
  ghost function Removed(s: Tree): Tree
    requires s.Branch?
  {
    if s.left.Leaf? || s.right.Leaf? then OnlyChild(s) else RemovedBoth(s)
  }

  /** What drops out of the tree besides the removed node: the left subtree of a predecessor that moves up. */
  ghost function Lost(s: Tree): Tree
    requires s.Branch?
  {
    if s.left.Leaf? || s.right.Leaf? then Leaf else LastSub(s.left).left
  }

  lemma {:induction false} LastSplits(t: Tree)
    requires t.Branch?
    ensures InOrder(t) == InOrder(CutLast(t)) + InOrder(LastSub(t).left) + [LastSub(t).node]
  {
    if t.right.Branch? {
      LastSplits(t.right);
    }
  }

  /** Exactly the left subtree of the predecessor drops out of the tree together with the removed node. */
  lemma RemovedBothLoses(s: Tree)
    requires s.Branch? && s.left.Branch?
    ensures var last := LastSub(s.left);
            var kept := InOrder(CutLast(s.left));
            && InOrder(s) == kept + InOrder(last.left) + [last.node] + [s.node] + InOrder(s.right)
            && InOrder(RemovedBoth(s)) == kept + [last.node] + InOrder(s.right)
  {
    LastSplits(s.left);
  }

  /** So only the removed node is lost if and only if the predecessor has no left child. */
  lemma RemovedBothExactly(s: Tree)
    requires s.Branch? && s.left.Branch?
    ensures |InOrder(RemovedBoth(s))| == |InOrder(s)| - 1 <==> LastSub(s.left).left.Leaf?
  {
    RemovedBothLoses(s);
    var lost := LastSub(s.left).left;
    assert |InOrder(lost)| == 0 <==> lost.Leaf?;
  }

  /** Clearing the link to the last node takes out that node and its left subtree and keeps the search order. */
  lemma {:induction false} CutTakes(t: Tree)
    requires t.Branch? && Distinct(t) && Ordered(t)
    ensures var last, cut := LastSub(t), CutLast(t);
            && Distinct(cut) && Ordered(cut) && Distinct(last)
            && Nodes(last) <= Nodes(t) && Nodes(cut) == Nodes(t) - Nodes(last)
            && last.right == Leaf && last.key in Keys(t)
            && (forall k :: k in Keys(t) ==> k <= last.key)
            && (forall k :: k in Keys(cut) <==> k in Keys(t) && k != last.key && k !in Keys(last.left))
            && (forall k :: k in Keys(last.left) ==> k in Keys(t) && k < last.key)
  {
    if t.right.Branch? {
      CutTakes(t.right);
      assert t.key < LastSub(t.right).key;
    }
  }

  /** The last node is at the end of the right links, and clearing the link to it replaces its subtree by nothing. */
  lemma {:induction false} CutIsReplace(t: Tree)
    requires t.Branch? && Distinct(t)
    ensures var r := LastSub(t).node;
            && r in Nodes(t) && Sub(t, r) == LastSub(t) && CutLast(t) == Replace(t, r, Leaf)
            && Nodes(CutLast(t)) == Nodes(t) - Nodes(LastSub(t)) && Distinct(CutLast(t))
            && LastSub(t).right == Leaf && (t.node == r <==> t.right.Leaf?)
            && InOrder(t) != [] && InOrder(t)[|InOrder(t)| - 1] == r
  {
    if t.right.Branch? {
      CutIsReplace(t.right);
      SubFacts(t.right, LastSub(t.right).node);
      RootIsNode(LastSub(t.right));
    }
  }

  lemma RootIsNode(t: Tree)
    ensures t.Branch? ==> Root(t) in Nodes(t)
  {}

  lemma BothInside(s: Tree, last: Tree, cut: Tree)
    requires s.Branch? && s.left.Branch? && s.right.Branch? && Distinct(s) && Ordered(s)
    requires last.Branch? && last.right == Leaf && last.key in Keys(s.left)
    requires Distinct(cut) && Ordered(cut) && Distinct(last)
    requires Nodes(last) <= Nodes(s.left) && Nodes(cut) == Nodes(s.left) - Nodes(last)
    requires forall k :: k in Keys(s.left) ==> k <= last.key
    requires forall k :: k in Keys(cut) <==> k in Keys(s.left) && k != last.key && k !in Keys(last.left)
    requires forall k :: k in Keys(last.left) ==> k in Keys(s.left) && k < last.key
    ensures var t := Branch(cut, last.node, last.key, s.right);
            && Distinct(t) && Ordered(t)
            && Nodes(t) == Nodes(s) - {s.node} - Nodes(last.left) && Nodes(last.left) <= Nodes(s)
            && (forall k :: k in Keys(last.left) ==> k in Keys(s))
            && forall k :: k in Keys(t) <==> k in Keys(s) && k != s.key && k !in Keys(last.left)
  {
    BothNodesInside(s, last, cut);
    hide Nodes, Distinct;
    var t := Branch(cut, last.node, last.key, s.right);
    assert Keys(s) == Keys(s.left) + [s.key] + Keys(s.right);
    assert Keys(t) == Keys(cut) + [last.key] + Keys(s.right);
    hide Keys;
  }

  lemma BothNodesInside(s: Tree, last: Tree, cut: Tree)
    requires s.Branch? && s.left.Branch? && Distinct(s)
    requires last.Branch? && last.right == Leaf && Distinct(cut) && Distinct(last)
    requires Nodes(last) <= Nodes(s.left) && Nodes(cut) == Nodes(s.left) - Nodes(last)
    ensures var t := Branch(cut, last.node, last.key, s.right);
            Distinct(t) && Nodes(t) == Nodes(s) - {s.node} - Nodes(last.left) && Nodes(last.left) <= Nodes(s)
  {
    assert Nodes(last) == Nodes(last.left) + {last.node};
    assert Nodes(s) == Nodes(s.left) + {s.node} + Nodes(s.right);
  }

  /** Within the subtree at the removed node: order kept, and exactly its key and the lost keys gone. */
  lemma RemovedInside(s: Tree)
    requires s.Branch? && Distinct(s) && Ordered(s)
    ensures Distinct(Removed(s)) && Ordered(Removed(s))
    ensures Nodes(Removed(s)) == Nodes(s) - {s.node} - Nodes(Lost(s)) && Nodes(Lost(s)) <= Nodes(s)
    ensures forall k :: k in Keys(Lost(s)) ==> k in Keys(s)
    ensures forall k :: k in Keys(Removed(s)) <==> k in Keys(s) && k != s.key && k !in Keys(Lost(s))
  {
    if s.left.Branch? && s.right.Branch? {
      CutTakes(s.left);
      BothInside(s, LastSub(s.left), CutLast(s.left));
    } else {
      assert Keys(Lost(s)) == [];
    }
  }

  /** Replacing a subtree by an ordered one with fewer keys keeps the search order. */
  lemma {:induction false} ReplaceOrdered(t: Tree, n: Node, x: Tree)
    requires Distinct(t) && Ordered(t) && n in Nodes(t)
    requires Ordered(x) && forall k :: k in Keys(x) ==> k in Keys(Sub(t, n))
    ensures Ordered(Replace(t, n, x))
    ensures forall k :: k in Keys(Sub(t, n)) ==> k in Keys(t)
    ensures forall k :: k in Keys(Replace(t, n, x)) <==> k in Keys(x) || (k in Keys(t) && k !in Keys(Sub(t, n)))
  {
    if t.node != n {
      if n in Nodes(t.left) {
        ReplaceOrdered(t.left, n, x);
      } else {
        ReplaceOrdered(t.right, n, x);
      }
    }
  }

  /** Removal takes out one node, and what is lost with it, and keeps the search order. */
  lemma RemovedTakes(t: Tree, n: Node)
    requires Distinct(t) && Ordered(t) && n in Nodes(t)
    ensures Sub(t, n).Branch?
    ensures var t' := Replace(t, n, Removed(Sub(t, n)));
            var lost := Lost(Sub(t, n));
            && Distinct(t') && Ordered(t') && Nodes(t') == Nodes(t) - {n} - Nodes(lost)
            && (forall k :: k in Keys(lost) ==> k in Keys(t))
            && forall k :: k in Keys(t') <==> k in Keys(t) && k != KeyOf(t, n) && k !in Keys(lost)
  {
    hide Removed, Lost, Replace, Sub, Distinct, Ordered, Nodes, Keys;
    SubFacts(t, n);
    RemovedInside(Sub(t, n));
    ReplaceNodes(t, n, Removed(Sub(t, n)));
    ReplaceOrdered(t, n, Removed(Sub(t, n)));
    KeyInside(t, n);
    KeyIsSub(t, n);
    RootIsNode(Sub(t, n));
  }

  lemma {:induction false} KeyIsSub(t: Tree, n: Node)
    requires Distinct(t) && n in Nodes(t) && Sub(t, n).Branch?
    ensures Sub(t, n).key == KeyOf(t, n) && Sub(t, n).key in Keys(Sub(t, n))
  {
    if t.node != n {
      KeyIsSub(if n in Nodes(t.left) then t.left else t.right, n);
    }
  }

  /** The levels that clearing the link to the last node costs, by the balance factors along the right edge. */
  ghost function Drop(t: Tree): nat
    requires t.Branch?
  {
    if t.right.Leaf? then 1 + Balance(t)
    else if Balance(t) < 0 && Drop(t.right) > 0 then 1
    else 0
  }

  /** No node of the right edge is left-heavy where its right subtree loses a level. */
  ghost predicate SpineHolds(t: Tree)
    requires t.Branch?
  {
    t.right.Branch? ==> SpineHolds(t.right) && Balance(t) + Drop(t.right) <= 1
  }

  /** Clearing the link to the last node of an AVL tree costs one level, or two where the root itself goes, and keeps the balance exactly if the right edge holds. */
  lemma {:induction false} CutDepth(t: Tree)
    requires t.Branch? && Avl(t)
    ensures Depth(CutLast(t)) == Depth(t) - Drop(t) && Drop(t) <= 2
    ensures t.right.Branch? ==> Drop(t) <= 1
    ensures Avl(CutLast(t)) <==> SpineHolds(t)
  {
    if t.right.Branch? {
      CutDepth(t.right);
    }
  }

  /** What bst_remove_node leaves is balanced exactly under this condition on the balance factors before it. */
  ghost predicate StaysBalanced(s: Tree)
    requires s.Branch?
  {
    s.left.Leaf? || s.right.Leaf? || (SpineHolds(s.left) && Balance(s) - Drop(s.left) >= -1)
  }

  lemma RemovedBalance(s: Tree)
    requires s.Branch? && Avl(s)
    ensures Avl(Removed(s)) <==> StaysBalanced(s)
  {
    if s.left.Branch? && s.right.Branch? {
      CutDepth(s.left);
      assert Removed(s) == RemovedBoth(s);
      hide CutLast, LastSub, SpineHolds, Drop;
    }
  }

  /** The subtree at the removed node loses one level at most. */
  lemma RemovedDepth(s: Tree)
    requires s.Branch? && Avl(s)
    ensures Shifted(s, Removed(s), -1, Removed(s))
  {
    if s.left.Branch? && s.right.Branch? {
      CutDepth(s.left);
      assert Depth(s.right) >= 1;
    }
  }

  /** After a removal the path above the removed node waits for repair. */
  lemma {:induction false} RemovedPending(t: Tree, n: Node)
    requires Distinct(t) && Ordered(t) && Avl(t) && n in Nodes(t)
    ensures Sub(t, n).Branch?
    ensures var x := Removed(Sub(t, n));
            var t' := Replace(t, n, x);
            var p := ParentIn(t, n);
            if p == null then t' == x else p in Nodes(t') && Pending(t, t', p, -1, x)
  {
    hide Removed, Lost, Shifted;
    SubFacts(t, n);
    ParentInside(t, n);
    if t.node != n {
      var side := if n in Nodes(t.left) then t.left else t.right;
      ParentInside(side, n);
      SubFacts(side, n);
      RemovedInside(Sub(side, n));
      RemovedPending(side, n);
      ReplaceNodes(side, n, Removed(Sub(t, n)));
      if side.node == n {
        RemovedDepth(side);
      }
    }
  }
}
