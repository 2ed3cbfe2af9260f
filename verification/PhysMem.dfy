/**
 The list of page pools behind pmm_register_mem, pmm_alloc and pmm_free.

 The abstract value is the set of physical page numbers that are handed out.
 */
module PhysMem {
  import opened Basics
  import opened Words
  import opened Bitmaps
  import opened BuddyTree
  import opened Pmm

  /** The pool hands out physical page number a. */
  ghost predicate Owns(pool: Pool, a: nat)
    reads pool
  {
    pool.baseAddr / PAGE_SIZE <= a && a - pool.baseAddr / PAGE_SIZE in pool.live
  }

  /** Physical page a is one of the `count` pages from address `ptr` on. */
  ghost predicate InRange(ptr: nat, count: nat, a: nat)
  {
    ptr / PAGE_SIZE <= a < ptr / PAGE_SIZE + count
  }

  ghost function End(pool: Pool): nat
  {
    pool.baseAddr + PAGE_SIZE * pool.pageCount
  }

  ghost predicate Apart(p: Pool, q: Pool)
  {
    End(p) <= q.baseAddr || End(q) <= p.baseAddr
  }

  /** The pools, newest first, cover [lo, hi) without gap or overlap. */
  ghost predicate Tiles(pools: seq<Pool>, lo: nat, hi: nat)
  {
    if pools == [] then lo == hi
    else End(pools[0]) == hi && pools[0].baseAddr < hi && Tiles(pools[1..], lo, pools[0].baseAddr)
  }

  /** What becomes of a release that does not give back live pages only. */
  ghost predicate BadRelease(pool: Pool, ptr: nat, n: nat, was: set<nat>, ok: bool)
    reads pool, pool.bitmap.words
  {
    && ((forall l: nat, b: nat :: !pool.BlockAt(ptr, n, l, b)) ==> !ok)
    && (forall l: nat, b: nat :: pool.BlockAt(ptr, n, l, b) && !(Pages(pool.height, l, b) <= was) ==>
          (ok <==> !Maximal(pool.height, was, l, b)) && (ok ==> !Describes(pool.height, pool.bitmap.View())))
  }

  /** The pool is as large as the memory from its start up to hi allows. */
  ghost predicate LargestFit(pool: Pool, hi: nat)
    reads pool
  {
    pool.baseAddr <= hi && pool.pageCount <= (hi - pool.baseAddr) / PAGE_SIZE < 2 * pool.pageCount
  }

  /** The oldest of the pools lies at the start. */
  lemma {:induction false} TilesStart(pools: seq<Pool>, lo: nat, hi: nat)
    requires Tiles(pools, lo, hi) && lo < hi
    ensures pools != [] && pools[|pools| - 1].baseAddr == lo
  {
    if |pools| > 1 {
      assert Tiles(pools[1..], lo, pools[0].baseAddr);
      TilesBelow(pools[1..], lo, pools[0].baseAddr);
      TilesStart(pools[1..], lo, pools[0].baseAddr);
    }
  }

  lemma TilesBelow(pools: seq<Pool>, lo: nat, hi: nat)
    requires Tiles(pools, lo, hi) && pools != []
    ensures lo < hi
  {
    if |pools| > 1 {
      TilesBelow(pools[1..], lo, pools[0].baseAddr);
    }
  }

  /** A pool with nothing handed out has room for every request that is not larger than itself. */
  lemma FreshRoom(pool: Pool, n: nat)
    requires pool.Valid() && pool.live == {} && 0 < n <= pool.pageCount
    ensures pool.HasRoom(n)
  {
    OrderIsLeast(n);
    if pool.height < OrderOf(n) {
      Pow2Monotone(pool.height, OrderOf(n) - 1);
    }
    assert Vacant(pool.height, pool.live, pool.height - OrderOf(n), 0);
  }

  lemma TilesNothing(lo: nat)
    ensures Tiles([], lo, lo)
  {}

  lemma TilesPrepend(pool: Pool, pools: seq<Pool>, lo: nat, hi: nat)
    requires Tiles(pools, lo, hi) && pool.baseAddr == hi && pool.pageCount > 0
    ensures Tiles([pool] + pools, lo, End(pool))
  {
    assert ([pool] + pools)[1..] == pools;
  }

  /** The pages of a block are the physical pages from its address on. */
  lemma BlockPages(pool: Pool, n: nat, ptr: nat, l: nat, b: nat, a: nat)
    requires pool.baseAddr % PAGE_SIZE == 0 && pool.BlockAt(ptr, n, l, b)
    ensures ptr % PAGE_SIZE == 0
    ensures pool.baseAddr / PAGE_SIZE <= a ==>
              (a - pool.baseAddr / PAGE_SIZE in Pages(pool.height, l, b)
               <==> InRange(ptr, Pow2(OrderOf(n)), a))
    ensures InRange(ptr, Pow2(OrderOf(n)), a) ==>
              pool.baseAddr / PAGE_SIZE <= a < pool.baseAddr / PAGE_SIZE + Pow2(pool.height)
  {
    var e := OrderOf(n);
    var first := b * Pow2(e);
    assert ptr == pool.baseAddr + first * PAGE_SIZE;
    assert ptr / PAGE_SIZE == pool.baseAddr / PAGE_SIZE + first;
    assert (b + 1) * Pow2(e) == first + Pow2(e);
    ProductBound(b, l, e);
    if pool.baseAddr / PAGE_SIZE <= a {
      InBlockIsRange(e, b, a - pool.baseAddr / PAGE_SIZE);
    }
  }

  /** The rounded-up size names the same block. */
  lemma LiveBlockRounded(pool: Pool, ptr: nat, n: nat, rounded: nat, l: nat, b: nat)
    requires pool.BlockAt(ptr, n, l, b) && rounded == Pow2(OrderOf(n))
    ensures pool.BlockAt(ptr, rounded, l, b) && OrderOf(rounded) == OrderOf(n)
  {
    OrderUnique(rounded, OrderOf(n));
  }

  lemma VacantPage(h: nat, live: set<nat>, l: nat, b: nat, p: nat)
    requires l <= h && Vacant(h, live, l, b) && p in Pages(h, l, b)
    ensures p !in live
  {}

  /** Pools that are apart never hand out the same page. */
  lemma ApartOwner(p: Pool, q: Pool, a: nat)
    requires p.Valid() && q.Valid() && Apart(p, q)
    ensures p.baseAddr / PAGE_SIZE <= a < p.baseAddr / PAGE_SIZE + p.pageCount ==> !Owns(q, a)
    ensures q.baseAddr / PAGE_SIZE <= a < q.baseAddr / PAGE_SIZE + q.pageCount ==> !Owns(p, a)
  {}

  class PhysicalMemory {
    var pools: seq<Pool>

    ghost predicate Valid()
      reads this, pools, set i | 0 <= i < |pools| :: pools[i].bitmap.words
    {
      && (forall i :: 0 <= i < |pools| ==> pools[i].Valid())
      && (forall i, j :: 0 <= i < j < |pools| ==>
            pools[i] != pools[j] && pools[i].bitmap.words != pools[j].bitmap.words && Apart(pools[i], pools[j]))
    }

    lemma EachValid(i: nat)
      requires Valid() && i < |pools|
      ensures pools[i].Valid()
    {}

    ghost predicate IsLive(a: nat)
      reads this, pools
    {
      exists i :: 0 <= i < |pools| && Owns(pools[i], a)
    }

    constructor ()
      ensures Valid() && pools == []
    {
      pools := [];
    }

    /** No pool reaches into [lo, hi). */
    ghost predicate Unclaimed(lo: nat, hi: nat)
      reads this
    {
      forall i :: 0 <= i < |pools| ==> End(pools[i]) <= lo || hi <= pools[i].baseAddr
    }

    /** The body of the loop of pmm_register_mem: one more pool at the front of the list. */
    method AddPool(base: nat, poolPages: nat, wordCount: nat, ghost height: nat, ghost hi: nat)
      requires Valid() && Unclaimed(base, hi) && base + PAGE_SIZE * poolPages <= hi
      requires poolPages == Pow2(height) && 2 * poolPages - 1 <= WORD_BITS * wordCount
      requires base != 0 && base % PAGE_SIZE == 0 && base + PAGE_SIZE * poolPages <= SIZE_MAX
      modifies this`pools
      ensures Valid() && |pools| > 0 && pools == [pools[0]] + old(pools)
      ensures Unclaimed(base + PAGE_SIZE * poolPages, hi)
      ensures fresh(pools[0]) && fresh(pools[0].bitmap.words) && pools[0].live == {} && pools[0].baseAddr == base && pools[0].pageCount == poolPages
    {
      hide BuddyTree.Canonical;
      var pool := new Pool(base, poolPages, wordCount, height);
      pools := [pool] + pools;
    }

    /** The largest pool that fits the remaining pages. */
    method RegisterPool(base: nat, remaining: nat, ghost hi: nat) returns (poolPages: nat)
      requires Valid() && Unclaimed(base, hi) && base + PAGE_SIZE * remaining == hi <= SIZE_MAX && remaining > 0
      requires base != 0 && base % PAGE_SIZE == 0
      modifies this`pools
      ensures 0 < poolPages <= remaining < 2 * poolPages
      ensures Valid() && |pools| > 0 && pools == [pools[0]] + old(pools)
      ensures Unclaimed(base + PAGE_SIZE * poolPages, hi) && End(pools[0]) == base + PAGE_SIZE * poolPages
      ensures fresh(pools[0]) && fresh(pools[0].bitmap.words) && pools[0].live == {} && pools[0].baseAddr == base && pools[0].pageCount == poolPages
    {
      hide Valid, Unclaimed;
      var levelCount, bitCount;
      poolPages, levelCount, bitCount := CalculatePagepoolSizes(remaining);
      AddPool(base, poolPages, NeededWordCount(bitCount), levelCount - 1, hi);
    }

    /** pmm_register_mem; the allocation of a pool's metadata is assumed to succeed. */
    method RegisterMem(base: nat, pageCount: nat)
      requires Valid() && Unclaimed(base, base + PAGE_SIZE * pageCount)
      requires base != 0 && base % PAGE_SIZE == 0 && base + PAGE_SIZE * pageCount <= SIZE_MAX
      modifies this`pools
      ensures Valid() && |pools| >= |old(pools)| && pools[|pools| - |old(pools)|..] == old(pools)
      ensures Tiles(pools[..|pools| - |old(pools)|], base, base + PAGE_SIZE * pageCount)
      ensures forall i :: 0 <= i < |pools| - |old(pools)| ==> fresh(pools[i]) && fresh(pools[i].bitmap.words) && pools[i].live == {}
      // each pool is the largest power of two that fits what is left
      ensures forall i :: 0 <= i < |pools| - |old(pools)| ==> LargestFit(pools[i], base + PAGE_SIZE * pageCount)
    {
      hide Valid, Unclaimed, Tiles, End;
      TilesNothing(base);
      var current, remaining := base, pageCount;
      ghost var added: seq<Pool> := [];
      while remaining != 0
        invariant current + PAGE_SIZE * remaining == base + PAGE_SIZE * pageCount
        invariant base <= current && current % PAGE_SIZE == 0
        invariant pools == added + old(pools) && Valid()
        invariant Tiles(added, base, current)
        invariant Unclaimed(current, base + PAGE_SIZE * pageCount)
        invariant forall i :: 0 <= i < |added| ==> fresh(added[i]) && fresh(added[i].bitmap.words) && added[i].live == {}
        invariant forall i :: 0 <= i < |added| ==> LargestFit(added[i], base + PAGE_SIZE * pageCount)
        decreases remaining
      {
        var poolPages := RegisterPool(current, remaining, base + PAGE_SIZE * pageCount);
        TilesPrepend(pools[0], added, base, current);
        assert (base + PAGE_SIZE * pageCount - current) / PAGE_SIZE == remaining;
        added := [pools[0]] + added;
        remaining := remaining - poolPages;
        current := current + PAGE_SIZE * poolPages;
      }
      assert pools[..|added|] == added;
    }

    /** A change of one pool's live pages is a change of the live pages. */
    twostate lemma OneOwnerChanged(new i: nat, new a: nat)
      requires old(Valid()) && Valid() && pools == old(pools) && i < |pools|
      requires forall j :: 0 <= j < |pools| && j != i ==> pools[j].live == old(pools[j].live)
      ensures Owns(pools[i], a) == old(Owns(pools[i], a)) ==> IsLive(a) == old(IsLive(a))
      ensures pools[i].baseAddr / PAGE_SIZE <= a < pools[i].baseAddr / PAGE_SIZE + pools[i].pageCount ==>
                IsLive(a) == Owns(pools[i], a) && old(IsLive(a)) == old(Owns(pools[i], a))
    {
      assert forall j :: 0 <= j < |pools| && j != i ==> Owns(pools[j], a) == old(Owns(pools[j], a));
      if pools[i].baseAddr / PAGE_SIZE <= a < pools[i].baseAddr / PAGE_SIZE + pools[i].pageCount {
        forall j | 0 <= j < |pools| && j != i
          ensures !Owns(pools[j], a)
        {
          ApartOwner(pools[if i < j then i else j], pools[if i < j then j else i], a);
        }
      }
    }

    /** One round of pmm_alloc. */
    method AllocAt(i: nat, wantedPages: nat) returns (result: nat, pagesOut: nat, ghost l: nat, ghost b: nat)
      requires Valid() && i < |pools| && 0 < wantedPages <= SIZE_MAX
      modifies pools[i], pools[i].bitmap.words
      ensures Valid()
      ensures result != 0 <==> old(pools[i].HasRoom(wantedPages))
      ensures result == 0 ==> pools[i].live == old(pools[i].live)
      ensures result != 0 ==> result % PAGE_SIZE == 0 && pagesOut == Pow2(OrderOf(wantedPages))
                              && pools[i].LiveBlock(result, pagesOut, l, b)
      ensures result != 0 ==> forall a: nat :: InRange(result, pagesOut, a) ==> !old(IsLive(a))
      ensures result != 0 ==> forall a: nat :: IsLive(a) <==> old(IsLive(a)) || InRange(result, pagesOut, a)
    {
      hide BuddyTree.Canonical, BuddyTree.Vacant, BuddyTree.Pages, FirstFree, OrderOf, InRange, BlockOffset;
      ghost var pool := pools[i];
      ghost var fromLevel, fromBlock;
      result, pagesOut, l, b, fromLevel, fromBlock := pools[i].AllocFromPool(wantedPages);
      assert Valid();
      if result != 0 {
        LiveBlockRounded(pool, result, wantedPages, pagesOut, l, b);
        BlockPages(pool, wantedPages, result, l, b, 0);
        forall a: nat
          ensures InRange(result, pagesOut, a) ==> !old(IsLive(a))
          ensures IsLive(a) <==> old(IsLive(a)) || InRange(result, pagesOut, a)
        {
          BlockPages(pool, wantedPages, result, l, b, a);
          OneOwnerChanged(i, a);
          if InRange(result, pagesOut, a) {
            VacantPage(pool.height, old(pool.live), l, b, a - pool.baseAddr / PAGE_SIZE);
          }
        }
      }
    }

    /** pmm_alloc; address 0 is failure. */
    method Alloc(wantedPages: nat) returns (result: nat, pagesOut: nat)
      requires Valid() && 0 < wantedPages <= SIZE_MAX
      modifies pools, set i | 0 <= i < |pools| :: pools[i].bitmap.words
      ensures Valid()
      ensures result == 0 <==> forall i :: 0 <= i < |pools| ==> !old(pools[i].HasRoom(wantedPages))
      ensures result == 0 ==> pagesOut == wantedPages && forall a: nat :: IsLive(a) <==> old(IsLive(a))
      ensures result != 0 ==> result % PAGE_SIZE == 0 && pagesOut == Pow2(OrderOf(wantedPages))
      ensures result != 0 ==> forall a: nat :: InRange(result, pagesOut, a) ==> !old(IsLive(a))
      ensures result != 0 ==> forall a: nat :: IsLive(a) <==> old(IsLive(a)) || InRange(result, pagesOut, a)
      // what was handed out can be given back
      ensures result != 0 ==> exists i, l: nat, b: nat :: 0 <= i < |pools| && pools[i].LiveBlock(result, pagesOut, l, b)
                                                        // and comes from the first pool with room
                                                        && old(pools[i].HasRoom(wantedPages))
                                                        && forall j :: 0 <= j < i ==> !old(pools[j].HasRoom(wantedPages))
    {
      hide Valid, BuddyTree.Canonical, OrderOf;
      pagesOut := wantedPages;
      result := 0;
      for i := 0 to |pools|
        invariant Valid() && result == 0
        invariant forall j :: 0 <= j < |pools| ==> pools[j].live == old(pools[j].live)
        invariant forall j :: 0 <= j < i ==> !old(pools[j].HasRoom(wantedPages))
      {
        ghost var before := pools;
        assert forall a: nat :: IsLive(a) <==> old(IsLive(a));
        assert pools[i].HasRoom(wantedPages) == old(pools[i].HasRoom(wantedPages));
        var r, count, l, b := AllocAt(i, wantedPages);
        if r != 0 {
          return r, count;
        }
      }
      assert forall a: nat :: IsLive(a) <==> old(IsLive(a));
    }
  
    /** The release inside pmm_free, once the pool of the pointer is found. */
    method FreeAt(i: nat, ptr: nat, n: nat) returns (ok: bool)
      requires Valid() && i < |pools| && 0 < ptr <= SIZE_MAX && 0 < n <= SIZE_MAX
      modifies pools[i], pools[i].bitmap.words
      ensures forall l: nat, b: nat :: old(pools[i].LiveBlock(ptr, n, l, b)) ==> ok && Valid() && Released(ptr, n)
      ensures BadRelease(pools[i], ptr, n, old(pools[i].live), ok)
    {
      hide BuddyTree.Canonical, BuddyTree.Vacant, BuddyTree.Maximal, BuddyTree.Pages, OrderOf, BlockOffset, BuddyTree.Describes;
      ghost var pool := pools[i];
      ok := pools[i].FreeFromPool(ptr, n);
      forall l: nat, b: nat | old(pool.LiveBlock(ptr, n, l, b))
        ensures ok && Valid() && Released(ptr, n)
      {
        assert Valid();
        forall a: nat
          ensures IsLive(a) <==> old(IsLive(a)) && !InRange(ptr, Pow2(OrderOf(n)), a)
        {
          BlockPages(pool, n, ptr, l, b, a);
          OneOwnerChanged(i, a);
        }
      }
    }

    /** Exactly the pages of the block at `ptr` stopped being live. */
    twostate predicate Released(ptr: nat, n: nat)
      reads this, pools
    {
      forall a: nat :: IsLive(a) <==> old(IsLive(a)) && !InRange(ptr, Pow2(OrderOf(n)), a)
    }

    /** pmm_free; `false` is the panic. */
    method Free(ptr: nat, n: nat) returns (ok: bool)
      requires Valid() && ptr <= SIZE_MAX && n <= SIZE_MAX
      modifies pools, set i | 0 <= i < |pools| :: pools[i].bitmap.words
      ensures ptr == 0 || n == 0 ==> ok && Valid() && forall a: nat :: IsLive(a) <==> old(IsLive(a))
      ensures forall i, l: nat, b: nat :: 0 <= i < |pools| && n > 0 && old(pools[i].LiveBlock(ptr, n, l, b)) ==>
                ok && Valid() && Released(ptr, n)
      // of all other releases inside a pool, exactly those of no block and of a free block with its bit set are refused
      ensures forall i :: 0 <= i < |pools| && ptr != 0 && n > 0 && pools[i].baseAddr <= ptr < End(pools[i]) ==>
                BadRelease(pools[i], ptr, n, old(pools[i].live), ok)
      // a pointer into no pool is refused
      ensures ptr != 0 && n != 0 && (forall i :: 0 <= i < |pools| ==> ptr < pools[i].baseAddr || End(pools[i]) <= ptr) ==> !ok
    {
      hide BuddyTree.Canonical, OrderOf, BlockOffset, Released;
      if ptr == 0 || n == 0 {
        return true;
      }
      forall l: nat, b: nat, j | 0 <= j < |pools| && pools[j].BlockAt(ptr, n, l, b)
        ensures pools[j].baseAddr <= ptr && ptr + PAGE_SIZE * n <= End(pools[j])
      {
        BlockInside(pools[j].height, l, b, n);
      }
      for i := 0 to |pools|
        invariant Valid()
        invariant forall j :: 0 <= j < |pools| ==> unchanged(pools[j]) && unchanged(pools[j].bitmap.words)
        invariant forall j :: 0 <= j < i ==> ptr < pools[j].baseAddr || End(pools[j]) <= ptr
      {
        var dataStart := pools[i].baseAddr;
        var dataEnd := dataStart + (PAGE_SIZE * pools[i].pageCount - 1);
        if ptr < dataStart || dataEnd < ptr {
          continue;
        }
        var end := (ptr + (PAGE_SIZE * n - 1)) % WORD_LIMIT;
        forall j | 0 <= j < |pools| && j != i
          ensures ptr < pools[j].baseAddr || End(pools[j]) <= ptr
        {
          assert Apart(pools[i], pools[j]) || Apart(pools[j], pools[i]);
        }
        if end <= dataStart || dataEnd < end {
          assert forall l: nat, b: nat :: !pools[i].BlockAt(ptr, n, l, b);
          return false;
        }
        ok := FreeAt(i, ptr, n);
        return;
      }
      return false;
    }
  }

  /** Of freshly registered memory up to one half is handed out in one piece. */
  method HalfInOnePiece(base: nat, pageCount: nat, n: nat) returns (memory: PhysicalMemory, result: nat)
    requires base != 0 && base % PAGE_SIZE == 0 && base + PAGE_SIZE * pageCount <= SIZE_MAX && 0 < n && 2 * n <= pageCount
    ensures memory.Valid() && result != 0 && forall a: nat :: InRange(result, n, a) ==> memory.IsLive(a)
  {
    hide BuddyTree.Canonical, BuddyTree.Vacant, OrderOf, Tiles, PhysicalMemory.Valid, Pool.HasRoom, Pool.LiveBlock;
    memory := new PhysicalMemory();
    assert memory.Unclaimed(base, base + PAGE_SIZE * pageCount);
    memory.RegisterMem(base, pageCount);
    assert forall i :: 0 <= i < |memory.pools| ==> fresh(memory.pools[i]) && fresh(memory.pools[i].bitmap.words);
    var oldest := |memory.pools| - 1;
    assert memory.pools[..|memory.pools|] == memory.pools;
    TilesStart(memory.pools, base, base + PAGE_SIZE * pageCount);
    memory.EachValid(oldest);
    FreshRoom(memory.pools[oldest], n);
    var pagesOut;
    result, pagesOut := memory.Alloc(n);
    OrderIsLeast(n);
  }
}
