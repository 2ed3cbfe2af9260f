/**
 The meaning of the buddy bitmap of kernel/mem/pmm.c.

 A pool of 2^h pages is a full binary tree: level l has 2^l blocks of 2^(h-l)
 pages, and block b of level l owns bit 2^l - 1 + b.  `live` is the set of pages
 handed out.  The bitmap is canonical when a bit is set exactly on the maximal
 blocks that hold no live page; it is then a function of `live` alone.
 */
module BuddyTree {
  import opened Words

  function Index(l: nat, b: nat): nat
  {
    Pow2(l) - 1 + b
  }

  /** The leftmost block d levels below block b. */
  function Leftmost(b: nat, d: nat): nat
  {
    if d == 0 then b else Leftmost(b, d - 1) * 2
  }

  /** It begins with the same page: d levels below there are 2^d blocks to each. */
  lemma {:induction false} LeftmostBegins(b: nat, d: nat)
    ensures Leftmost(b, d) == b * Pow2(d)
  {
    if d > 0 {
      LeftmostBegins(b, d - 1);
    }
  }

  /** Page p lies in block (l, b). */
  ghost predicate InBlock(h: nat, l: nat, b: nat, p: nat)
    requires l <= h
  {
    Shr(p, h - l) == b
  }

  ghost function Pages(h: nat, l: nat, b: nat): set<nat>
    requires l <= h
  {
    set p: nat | p < Pow2(h) && InBlock(h, l, b, p)
  }

  /** Block (l, b) holds no live page. */
  ghost predicate Vacant(h: nat, live: set<nat>, l: nat, b: nat)
    requires l <= h
  {
    forall p: nat :: p in live ==> !InBlock(h, l, b, p)
  }

  /** Level l has a vacant block. */
  ghost predicate RoomAt(h: nat, live: set<nat>, l: nat)
    requires l <= h
  {
    exists b: nat :: b < Pow2(l) && Vacant(h, live, l, b)
  }

  /** A vacant block whose parent, if it has one, is not vacant. */
  ghost predicate Maximal(h: nat, live: set<nat>, l: nat, b: nat)
    requires l <= h
  {
    Vacant(h, live, l, b) && (l == 0 || !Vacant(h, live, l - 1, b / 2))
  }

  ghost predicate Canonical(h: nat, live: set<nat>, v: seq<bool>)
  {
    && 2 * Pow2(h) - 1 <= |v|
    && (forall p :: p in live ==> p < Pow2(h))
    && (forall l: nat, b: nat :: l <= h && b < Pow2(l) ==>
          Index(l, b) < |v| && v[Index(l, b)] == Maximal(h, live, l, b))
  }

  /** The bitmap belongs to some set of live pages. */
  ghost predicate Describes(h: nat, v: seq<bool>)
  {
    exists live :: Canonical(h, live, v)
  }

  lemma CanonicalLength(h: nat, live: set<nat>, v: seq<bool>)
    requires Canonical(h, live, v)
    ensures 2 * Pow2(h) - 1 <= |v|
  {}

  // ------------------------------------------------------------ numbering

  lemma IndexInRange(h: nat, l: nat, b: nat)
    requires l <= h && b < Pow2(l)
    ensures Index(l, b) < 2 * Pow2(h) - 1
  {
    Pow2Monotone(l, h);
  }

  /** Different (level, block) pairs own different bits. */
  lemma IndexInjective(l: nat, b: nat, k: nat, c: nat)
    requires b < Pow2(l) && c < Pow2(k)
    requires (l, b) != (k, c)
    ensures Index(l, b) != Index(k, c)
  {
    if l < k {
      Pow2Monotone(l + 1, k);
    } else if k < l {
      Pow2Monotone(k + 1, l);
    }
  }

  /** Every index below 2^(h+1) - 1 is the bit of some block. */
  lemma {:induction false} IndexSurjective(h: nat, i: nat) returns (l: nat, b: nat)
    requires i < 2 * Pow2(h) - 1
    ensures l <= h && b < Pow2(l) && Index(l, b) == i
  {
    if h == 0 || i >= Pow2(h) - 1 {
      l, b := h, i - (Pow2(h) - 1);
    } else {
      l, b := IndexSurjective(h - 1, i);
    }
  }

  // ------------------------------------------------------------ blocks

  lemma ShrBound(p: nat, n: nat, d: nat)
    requires p < Pow2(n + d)
    ensures Shr(p, d) < Pow2(n)
  {
    if d > 0 {
      ShrBound(p / 2, n, d - 1);
    }
  }

  lemma DoubleProduct(b: nat, d: nat)
    requires d > 0
    ensures b * Pow2(d) == 2 * (b * Pow2(d - 1))
  {}

  lemma {:induction false} ShrOfProduct(b: nat, d: nat)
    ensures Shr(b * Pow2(d), d) == b
  {
    if d > 0 {
      DoubleProduct(b, d);
      ShrOfProduct(b, d - 1);
    }
  }

  lemma {:induction false} ProductBound(b: nat, l: nat, d: nat)
    requires b < Pow2(l)
    ensures (b + 1) * Pow2(d) <= Pow2(l + d)
  {
    if d > 0 {
      ProductBound(b, l, d - 1);
      DoubleProduct(b + 1, d);
    }
  }

  /** The block of p at a coarser level is read off its block at a finer level. */
  lemma Coarser(h: nat, l: nat, k: nat, p: nat)
    requires l <= k <= h
    ensures Shr(p, h - l) == Shr(Shr(p, h - k), k - l)
  {
    ShrShr(p, h - k, k - l);
  }

  lemma ParentShr(c: nat, n: nat)
    requires n > 0
    ensures Shr(c, n) == Shr(c / 2, n - 1)
    ensures Shr(c, n) == Shr(c, n - 1) / 2
  {
    ShrShr(c, n - 1, 1);
  }

  /** Every block has a page; it lies in all coarser blocks around it. */
  lemma SomePage(h: nat, l: nat, b: nat) returns (p: nat)
    requires l <= h && b < Pow2(l)
    ensures p == b * Pow2(h - l) && p < Pow2(h) && InBlock(h, l, b, p) && p in Pages(h, l, b)
  {
    p := b * Pow2(h - l);
    ShrOfProduct(b, h - l);
    ProductBound(b, l, h - l);
    assert (b + 1) * Pow2(h - l) == p + Pow2(h - l);
  }

  /** Blocks that share a page are nested. */
  lemma Nested(h: nat, l: nat, b: nat, k: nat, c: nat, p: nat)
    requires l <= k <= h
    requires InBlock(h, l, b, p) && InBlock(h, k, c, p)
    ensures Shr(c, k - l) == b
  {
    Coarser(h, l, k, p);
  }

  /** A block below a vacant block is vacant. */
  lemma VacantBelow(h: nat, live: set<nat>, l: nat, k: nat, c: nat)
    requires l <= k <= h
    requires Vacant(h, live, l, Shr(c, k - l))
    ensures Vacant(h, live, k, c)
  {
    forall p | p in live
      ensures !InBlock(h, k, c, p)
    {
      Coarser(h, l, k, p);
    }
  }

  /** The pages of a block are the consecutive ones the address arithmetic assumes. */
  lemma {:induction false} InBlockIsRange(d: nat, b: nat, p: nat)
    ensures Shr(p, d) == b <==> b * Pow2(d) <= p < (b + 1) * Pow2(d)
    decreases d
  {
    if d > 0 {
      InBlockIsRange(d - 1, b, p / 2);
      var x, y := b * Pow2(d - 1), (b + 1) * Pow2(d - 1);
      DoubleProduct(b, d);
      DoubleProduct(b + 1, d);
      assert x <= p / 2 < y <==> 2 * x <= p < 2 * y;
    }
  }

  // ------------------------------------------------------------ taking a block

  /** Whether a block changes status when the maximal vacant block (l, b) becomes live. */
  lemma TakeNode(h: nat, live: set<nat>, l: nat, b: nat, k: nat, c: nat)
    requires l <= h && b < Pow2(l) && k <= h && c < Pow2(k)
    requires Maximal(h, live, l, b)
    ensures Maximal(h, live + Pages(h, l, b), k, c) == (Maximal(h, live, k, c) && (k, c) != (l, b))
  {
    if k >= l && Shr(c, k - l) == b {
      TakeBelow(h, live, l, b, k, c);
    } else if k < l && Shr(b, l - k) == c {
      TakeAbove(h, live, l, b, k, c);
    } else {
      TakeElsewhere(h, live, l, b, k, c);
      if k > 0 {
        if k - 1 < l && Shr(b, l - k + 1) == c / 2 {
          TakeAbove(h, live, l, b, k - 1, c / 2);
        } else {
          if k - 1 >= l {
            ParentShr(c, k - l);
          }
          TakeElsewhere(h, live, l, b, k - 1, c / 2);
        }
      }
    }
  }

  lemma TakeBelow(h: nat, live: set<nat>, l: nat, b: nat, k: nat, c: nat)
    requires l <= k <= h && b < Pow2(l) && c < Pow2(k) && Shr(c, k - l) == b
    requires Vacant(h, live, l, b)
    ensures !Vacant(h, live + Pages(h, l, b), k, c)
    ensures k > l ==> !Maximal(h, live, k, c)
  {
    var p := SomePage(h, k, c);
    Coarser(h, l, k, p);
    assert p in Pages(h, l, b);
    if k > l {
      ParentShr(c, k - l);
      VacantBelow(h, live, l, k - 1, c / 2);
    }
  }

  lemma TakeAbove(h: nat, live: set<nat>, l: nat, b: nat, k: nat, c: nat)
    requires k < l <= h && Shr(b, l - k) == c
    requires !Vacant(h, live, l - 1, b / 2)
    ensures !Vacant(h, live, k, c)
    ensures !Vacant(h, live + Pages(h, l, b), k, c)
  {
    var p :| p in live && InBlock(h, l - 1, b / 2, p);
    ParentShr(b, l - k);
    Coarser(h, k, l - 1, p);
  }

  /** A block that is not nested with (l, b) does not see its pages. */
  lemma TakeElsewhere(h: nat, rest: set<nat>, l: nat, b: nat, k: nat, c: nat)
    requires l <= h && k <= h
    requires !(k >= l && Shr(c, k - l) == b)
    requires !(k < l && Shr(b, l - k) == c)
    ensures Vacant(h, rest + Pages(h, l, b), k, c) == Vacant(h, rest, k, c)
  {
    forall p | p in Pages(h, l, b)
      ensures !InBlock(h, k, c, p)
    {
      if InBlock(h, k, c, p) {
        if l <= k {
          Nested(h, l, b, k, c, p);
        } else {
          Nested(h, k, c, l, b, p);
        }
      }
    }
  }

  /** One bit follows the one block whose status changes. */
  lemma OneBitChanges(h: nat, live: set<nat>, live': set<nat>, v: seq<bool>, l: nat, b: nat, bit: bool)
    requires l <= h && b < Pow2(l) && Canonical(h, live, v)
    requires forall p :: p in live' ==> p < Pow2(h)
    requires forall k: nat, c: nat :: k <= h && c < Pow2(k) ==>
               Maximal(h, live', k, c) == if (k, c) == (l, b) then bit else Maximal(h, live, k, c)
    ensures Canonical(h, live', v[Index(l, b) := bit])
  {
    forall k: nat, c: nat | k <= h && c < Pow2(k)
      ensures Index(k, c) < |v|
      ensures v[Index(l, b) := bit][Index(k, c)] == Maximal(h, live', k, c)
    {
      assert v[Index(k, c)] == Maximal(h, live, k, c);
      if (k, c) != (l, b) {
        IndexInjective(l, b, k, c);
      }
    }
  }

  /** Clearing the bit of a maximal vacant block hands out exactly its pages. */
  lemma Take(h: nat, live: set<nat>, v: seq<bool>, l: nat, b: nat)
    requires l <= h && b < Pow2(l)
    requires Canonical(h, live, v) && v[Index(l, b)]
    ensures Canonical(h, live + Pages(h, l, b), v[Index(l, b) := false])
  {
    assert v[Index(l, b)] == Maximal(h, live, l, b);
    forall k: nat, c: nat | k <= h && c < Pow2(k)
      ensures Maximal(h, live + Pages(h, l, b), k, c) == if (k, c) == (l, b) then false else Maximal(h, live, k, c)
    {
      TakeNode(h, live, l, b, k, c);
    }
    OneBitChanges(h, live, live + Pages(h, l, b), v, l, b, false);
  }

  // ------------------------------------------------------------ halving a live block

  lemma ChildBlocks(h: nat, l: nat, b: nat, p: nat)
    requires l < h
    ensures InBlock(h, l, b, p) <==> InBlock(h, l + 1, 2 * b, p) || InBlock(h, l + 1, 2 * b + 1, p)
  {
    ShrShr(p, h - l - 1, 1);
  }

  /**
   The status of every block when of the live block (l, b) only the child `keep`
   stays live: the other child becomes maximal and nothing else changes.
   */
  lemma SplitNode(h: nat, rest: set<nat>, l: nat, b: nat, keep: nat, other: nat, k: nat, c: nat)
    requires l < h && b < Pow2(l) && k <= h && c < Pow2(k)
    requires (keep == 2 * b && other == 2 * b + 1) || (keep == 2 * b + 1 && other == 2 * b)
    requires Vacant(h, rest, l, b)
    ensures Maximal(h, rest + Pages(h, l + 1, keep), k, c)
         == (Maximal(h, rest + Pages(h, l, b), k, c) || (k, c) == (l + 1, other))
  {
    assert Shr(other, 1) == b;
    if k <= l && Shr(b, l - k) == c {
      SplitAbove(h, rest, l, b, keep, k, c);
    } else if k > l && Shr(c, k - l) == b {
      ParentShr(c, k - l);
      if Shr(c, k - l - 1) == keep {
        SplitKeptHalf(h, rest, l, b, keep, k, c);
      } else {
        SplitFreedHalf(h, rest, l, b, keep, other, k, c);
      }
    } else {
      SplitElsewhere(h, rest, l, b, keep, k, c);
    }
  }

  lemma SplitAbove(h: nat, rest: set<nat>, l: nat, b: nat, keep: nat, k: nat, c: nat)
    requires k <= l < h && b < Pow2(l) && Shr(b, l - k) == c && keep / 2 == b
    ensures !Vacant(h, rest + Pages(h, l + 1, keep), k, c)
    ensures !Vacant(h, rest + Pages(h, l, b), k, c)
  {
    var q := SomePage(h, l + 1, keep);
    ChildBlocks(h, l, b, q);
    Coarser(h, k, l, q);
    assert q in Pages(h, l, b);
  }

  lemma SplitKeptHalf(h: nat, rest: set<nat>, l: nat, b: nat, keep: nat, k: nat, c: nat)
    requires l < k <= h && b < Pow2(l) && c < Pow2(k) && Shr(c, k - l - 1) == keep && keep / 2 == b
    ensures !Vacant(h, rest + Pages(h, l + 1, keep), k, c)
    ensures !Vacant(h, rest + Pages(h, l, b), k, c)
  {
    var p := SomePage(h, k, c);
    Coarser(h, l + 1, k, p);
    ChildBlocks(h, l, b, p);
    assert p in Pages(h, l, b) && p in Pages(h, l + 1, keep);
  }

  lemma SplitFreedHalf(h: nat, rest: set<nat>, l: nat, b: nat, keep: nat, other: nat, k: nat, c: nat)
    requires l < k <= h && b < Pow2(l) && c < Pow2(k)
    requires (keep == 2 * b && other == 2 * b + 1) || (keep == 2 * b + 1 && other == 2 * b)
    requires Vacant(h, rest, l, b)
    requires Shr(c, k - l - 1) == other
    ensures Maximal(h, rest + Pages(h, l + 1, keep), k, c) == ((k, c) == (l + 1, other))
    ensures !Maximal(h, rest + Pages(h, l, b), k, c)
  {
    var whole, half := rest + Pages(h, l, b), rest + Pages(h, l + 1, keep);
    forall p | p in half
      ensures !InBlock(h, l + 1, other, p)
    {
      ChildBlocks(h, l, b, p);
    }
    VacantBelow(h, half, l + 1, k, c);
    var r := SomePage(h, k, c);
    Coarser(h, l + 1, k, r);
    ChildBlocks(h, l, b, r);
    assert r in whole;
    if k == l + 1 {
      assert c == other && c / 2 == b;
      var q := SomePage(h, l + 1, keep);
      ChildBlocks(h, l, b, q);
      assert q in half;
    } else {
      ParentShr(c, k - l - 1);
      VacantBelow(h, half, l + 1, k - 1, c / 2);
    }
  }

  lemma SplitElsewhere(h: nat, rest: set<nat>, l: nat, b: nat, keep: nat, k: nat, c: nat)
    requires l < h && b < Pow2(l) && k <= h && keep / 2 == b
    requires !(k <= l && Shr(b, l - k) == c)
    requires !(k > l && Shr(c, k - l) == b)
    ensures Maximal(h, rest + Pages(h, l + 1, keep), k, c) == Maximal(h, rest + Pages(h, l, b), k, c)
  {
    SplitApart(h, rest, l, b, keep, k, c);
    if k > 0 {
      if k - 1 <= l && Shr(b, l - (k - 1)) == c / 2 {
        SplitAbove(h, rest, l, b, keep, k - 1, c / 2);
      } else {
        if k - 1 > l {
          ParentShr(c, k - l);
        }
        SplitApart(h, rest, l, b, keep, k - 1, c / 2);
      }
    }
  }

  lemma SplitApart(h: nat, rest: set<nat>, l: nat, b: nat, keep: nat, k: nat, c: nat)
    requires l < h && k <= h && keep / 2 == b
    requires !(k <= l && Shr(b, l - k) == c)
    requires !(k > l && Shr(c, k - l) == b)
    ensures Vacant(h, rest + Pages(h, l + 1, keep), k, c) == Vacant(h, rest, k, c)
    ensures Vacant(h, rest + Pages(h, l, b), k, c) == Vacant(h, rest, k, c)
  {
    TakeElsewhere(h, rest, l, b, k, c);
    if k == l + 1 {
      assert Shr(c, 1) == c / 2;
    } else if k > l + 1 {
      ParentShr(c, k - l);
    } else if k <= l {
      ParentShr(keep, l + 1 - k);
    }
    TakeElsewhere(h, rest, l + 1, keep, k, c);
  }

  /** Setting the bit of the other child turns a live block into its live half. */
  lemma Split(h: nat, rest: set<nat>, v: seq<bool>, l: nat, b: nat)
    requires l < h && b < Pow2(l)
    requires Vacant(h, rest, l, b)
    requires Canonical(h, rest + Pages(h, l, b), v)
    ensures Canonical(h, rest + Pages(h, l + 1, 2 * b), v[Index(l + 1, 2 * b + 1) := true])
  {
    var whole, half := rest + Pages(h, l, b), rest + Pages(h, l + 1, 2 * b);
    forall k: nat, c: nat | k <= h && c < Pow2(k)
      ensures Maximal(h, half, k, c) == if (k, c) == (l + 1, 2 * b + 1) then true else Maximal(h, whole, k, c)
    {
      SplitNode(h, rest, l, b, 2 * b, 2 * b + 1, k, c);
    }
    OneBitChanges(h, whole, half, v, l + 1, 2 * b + 1, true);
  }

  function Sibling(b: nat): (s: nat)
    ensures s / 2 == b / 2 && s != b
  {
    if b % 2 == 0 then b + 1 else b - 1
  }

  /** Clearing the bit of a vacant sibling turns a live block into its live parent. */
  lemma Merge(h: nat, rest: set<nat>, v: seq<bool>, l: nat, b: nat)
    requires 0 < l <= h && b < Pow2(l)
    requires Vacant(h, rest, l, b)
    requires Canonical(h, rest + Pages(h, l, b), v)
    requires Sibling(b) < Pow2(l) && v[Index(l, Sibling(b))]
    ensures Vacant(h, rest, l - 1, b / 2)
    ensures Canonical(h, rest + Pages(h, l - 1, b / 2), v[Index(l, Sibling(b)) := false])
  {
    var s := Sibling(b);
    var half, whole := rest + Pages(h, l, b), rest + Pages(h, l - 1, b / 2);
    assert v[Index(l, s)] == Maximal(h, half, l, s);
    forall p | p in rest
      ensures !InBlock(h, l - 1, b / 2, p)
    {
      ChildBlocks(h, l - 1, b / 2, p);
    }
    forall k: nat, c: nat | k <= h && c < Pow2(k)
      ensures Maximal(h, whole, k, c) == if (k, c) == (l, s) then false else Maximal(h, half, k, c)
    {
      SplitNode(h, rest, l - 1, b / 2, b, s, k, c);
      if (k, c) == (l, s) {
        SplitFreedHalf(h, rest, l - 1, b / 2, b, s, k, c);
      }
    }
    OneBitChanges(h, half, whole, v, l, s, false);
  }

  lemma SiblingLive(h: nat, rest: set<nat>, v: seq<bool>, l: nat, b: nat)
    requires 0 < l <= h && b < Pow2(l)
    requires Canonical(h, rest + Pages(h, l, b), v)
    requires Sibling(b) < Pow2(l) && !v[Index(l, Sibling(b))]
    ensures !Vacant(h, rest, l - 1, b / 2)
  {
    var live, s := rest + Pages(h, l, b), Sibling(b);
    assert v[Index(l, s)] == Maximal(h, live, l, s);
    var p := SomePage(h, l, b);
    ChildBlocks(h, l - 1, b / 2, p);
    assert p in live;
    var r :| r in live && InBlock(h, l, s, r);
    ChildBlocks(h, l - 1, b / 2, r);
    assert r in rest;
  }

  /** Setting the bit of a live block without a vacant sibling releases it. */
  lemma Release(h: nat, rest: set<nat>, v: seq<bool>, l: nat, b: nat)
    requires l <= h && b < Pow2(l)
    requires Vacant(h, rest, l, b)
    requires Canonical(h, rest + Pages(h, l, b), v)
    requires l > 0 ==> Sibling(b) < Pow2(l) && !v[Index(l, Sibling(b))]
    ensures Canonical(h, rest, v[Index(l, b) := true])
  {
    var live := rest + Pages(h, l, b);
    if l > 0 {
      SiblingLive(h, rest, v, l, b);
    }
    forall k: nat, c: nat | k <= h && c < Pow2(k)
      ensures Maximal(h, rest, k, c) == if (k, c) == (l, b) then true else Maximal(h, live, k, c)
    {
      TakeNode(h, rest, l, b, k, c);
    }
    OneBitChanges(h, live, rest, v, l, b, true);
  }

  // ------------------------------------------------------------ consequences

  /** The bitmap is determined by the live pages: it keeps no history. */
  lemma CanonicalIsUnique(h: nat, live: set<nat>, v: seq<bool>, v': seq<bool>)
    requires Canonical(h, live, v) && Canonical(h, live, v')
    ensures v[..2 * Pow2(h) - 1] == v'[..2 * Pow2(h) - 1]
  {
    forall i: nat | i < 2 * Pow2(h) - 1
      ensures v[i] == v'[i]
    {
      var l, b := IndexSurjective(h, i);
      assert v[Index(l, b)] == Maximal(h, live, l, b) == v'[Index(l, b)];
    }
  }

  /** The block at level l around a live page has its bit clear. */
  lemma BlockOfPage(h: nat, live: set<nat>, v: seq<bool>, p: nat, l: nat)
    requires Canonical(h, live, v) && p < Pow2(h) && l <= h
    ensures Shr(p, h - l) < Pow2(l) && Index(l, Shr(p, h - l)) < |v|
    ensures p in live ==> !v[Index(l, Shr(p, h - l))]
  {
    ShrBound(p, l, h - l);
    assert v[Index(l, Shr(p, h - l))] == Maximal(h, live, l, Shr(p, h - l));
    assert InBlock(h, l, Shr(p, h - l), p);
  }

  /** A page that is not live is a vacant block of its own. */
  lemma OwnBlockVacant(h: nat, live: set<nat>, p: nat)
    requires p !in live
    ensures Vacant(h, live, h, p)
  {
    forall q | q in live
      ensures !InBlock(h, h, p, q)
    {}
  }

  /** Every page is live or in exactly one block whose bit is set. */
  lemma FreeBlocksTile(h: nat, live: set<nat>, v: seq<bool>, p: nat)
    requires Canonical(h, live, v) && p < Pow2(h)
    ensures p in live ==> forall l: nat :: l <= h ==> Shr(p, h - l) < Pow2(l) && !v[Index(l, Shr(p, h - l))]
    ensures p !in live ==> exists l: nat :: OwnerLevel(h, v, p, l)
    ensures forall l: nat, k: nat :: OwnerLevel(h, v, p, l) && OwnerLevel(h, v, p, k) ==> l == k
  {
    hide Canonical, Index, Shr, InBlock;
    forall l: nat | l <= h
      ensures Shr(p, h - l) < Pow2(l) && Index(l, Shr(p, h - l)) < |v|
      ensures p in live ==> !v[Index(l, Shr(p, h - l))]
    {
      BlockOfPage(h, live, v, p, l);
    }
    if p !in live {
      OwnBlockVacant(h, live, p);
      var l := VacantHasMaximal(h, live, v, h, p);
      assert OwnerLevel(h, v, p, l);
    }
    forall l: nat, k: nat | OwnerLevel(h, v, p, l) && OwnerLevel(h, v, p, k)
      ensures l == k
    {
      if l < k {
        OwnerIsFinest(h, live, v, p, l, k);
      } else if k < l {
        OwnerIsFinest(h, live, v, p, k, l);
      }
    }
  }

  /** The block of p at level l has its bit set. */
  ghost predicate OwnerLevel(h: nat, v: seq<bool>, p: nat, l: nat)
  {
    l <= h && Shr(p, h - l) < Pow2(l) && Index(l, Shr(p, h - l)) < |v| && v[Index(l, Shr(p, h - l))]
  }

  lemma OwnerIsFinest(h: nat, live: set<nat>, v: seq<bool>, p: nat, l: nat, k: nat)
    requires Canonical(h, live, v) && l < k <= h
    requires OwnerLevel(h, v, p, l)
    ensures !OwnerLevel(h, v, p, k)
  {
    if OwnerLevel(h, v, p, k) {
      var c := Shr(p, h - k);
      assert v[Index(k, c)] == Maximal(h, live, k, c);
      assert v[Index(l, Shr(p, h - l))] == Maximal(h, live, l, Shr(p, h - l));
      Coarser(h, l, k, p);
      ParentShr(c, k - l);
      VacantBelow(h, live, l, k - 1, c / 2);
    }
  }

  /** A vacant block lies in a block whose bit is set, at its own level or a coarser one. */
  lemma {:induction false} VacantHasMaximal(h: nat, live: set<nat>, v: seq<bool>, l: nat, b: nat) returns (k: nat)
    requires Canonical(h, live, v)
    requires l <= h && b < Pow2(l) && Vacant(h, live, l, b)
    ensures k <= l && Shr(b, l - k) < Pow2(k) && v[Index(k, Shr(b, l - k))]
    decreases l
  {
    if l == 0 || !Vacant(h, live, l - 1, b / 2) {
      k := l;
      assert v[Index(l, b)] == Maximal(h, live, l, b);
    } else {
      k := VacantHasMaximal(h, live, v, l - 1, b / 2);
      ParentShr(b, l - k);
    }
  }

  /** A pool with nothing handed out: only the root bit is set. */
  lemma EmptyPool(h: nat, v: seq<bool>)
    requires 2 * Pow2(h) - 1 <= |v| && v[0]
    requires forall i :: 0 < i < |v| ==> !v[i]
    ensures Canonical(h, {}, v)
  {
    forall l: nat, b: nat | l <= h && b < Pow2(l)
      ensures Index(l, b) < |v| && v[Index(l, b)] == Maximal(h, {}, l, b)
    {
      IndexInRange(h, l, b);
      if l > 0 {
        IndexInjective(0, 0, l, b);
      }
    }
  }
}
