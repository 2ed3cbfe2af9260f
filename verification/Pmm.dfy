/**
 The physical page allocator of kernel/mem/pmm.c: power-of-two pools, each a
 buddy tree over a flat bitmap, and the list of pools.

 Addresses and sizes are 32-bit in the kernel.  They are natural numbers here;
 the one sum that can wrap on bad input is reduced modulo 2^32 explicitly.  A
 panic or a failed assertion is the result `false` (or -1 for an index).
 */
module Pmm {
  import opened Basics
  import opened Words
  import opened Bitmaps
  import opened BuddyTree

  // ------------------------------------------------------------ sizes

  /** The order of the smallest power-of-two block with at least `n` pages. */
  ghost function OrderOf(n: nat): nat
  {
    if n <= 1 then 0 else 1 + OrderOf((n + 1) / 2)
  }

  lemma {:induction false} OrderIsLeast(n: nat)
    ensures n <= Pow2(OrderOf(n))
    ensures OrderOf(n) > 0 ==> Pow2(OrderOf(n) - 1) < n
  {
    if n > 1 {
      OrderIsLeast((n + 1) / 2);
      if OrderOf((n + 1) / 2) > 0 {
        assert Pow2(OrderOf(n) - 1) == 2 * Pow2(OrderOf(n) - 2);
      }
    }
  }

  lemma OrderUnique(n: nat, e: nat)
    requires n <= Pow2(e) && (e > 0 ==> Pow2(e - 1) < n)
    ensures e == OrderOf(n)
  {
    OrderIsLeast(n);
    if e < OrderOf(n) {
      Pow2Monotone(e, OrderOf(n) - 1);
    } else if OrderOf(n) < e {
      Pow2Monotone(OrderOf(n), e - 1);
    }
  }

  /** calculate_pagepool_sizes: the largest power of two that fits, and enough bits for its tree. */
  method CalculatePagepoolSizes(pageCount: nat) returns (poolPages: nat, levelCount: nat, bitCount: nat)
    ensures levelCount > 0 && poolPages == Pow2(levelCount - 1)
    ensures pageCount > 0 ==> poolPages <= pageCount < 2 * poolPages
    ensures 2 * poolPages - 1 <= bitCount <= 2 * pageCount + 1
  {
    var current := pageCount;
    poolPages, levelCount, bitCount := 1, 1, 1;
    while 1 < current
      invariant levelCount > 0 && poolPages == Pow2(levelCount - 1)
      invariant current == Shr(pageCount, levelCount - 1)
      invariant if pageCount > 0 then current > 0 else levelCount == 1
      invariant bitCount >= 1 + current * (2 * poolPages - 2)
      invariant bitCount + 2 * current <= 1 + 2 * pageCount
      decreases current
    {
      ghost var half := current / 2;
      SizeStep(current, half, poolPages);
      ShrShr(pageCount, levelCount - 1, 1);
      bitCount := bitCount + current;
      current := current / 2;
      poolPages := poolPages * 2;
      levelCount := levelCount + 1;
    }
    if pageCount > 0 {
      InBlockIsRange(levelCount - 1, 1, pageCount);
    }
  }

  lemma SizeStep(current: nat, half: nat, p: nat)
    requires 2 * half <= current && p >= 1
    ensures current * (2 * p - 2) + current >= half * (2 * (p * 2) - 2)
  {
    assert current * (2 * p - 2) + current == current * (2 * p - 1);
    assert (2 * half) * (2 * p - 1) <= current * (2 * p - 1);
    assert (2 * half) * (2 * p - 1) == half * (2 * (p * 2) - 2);
  }

  /** bit_indices_range_for_level */
  method BitIndicesRangeForLevel(level: nat) returns (start: nat, end: int)
    ensures start == Index(level, 0) && end == Index(level, Pow2(level) - 1)
  {
    var currentLevel, blocksInLevel, bitOffset := 0, 1, 0;
    while currentLevel < level
      invariant currentLevel <= level
      invariant blocksInLevel == Pow2(currentLevel) && bitOffset == Pow2(currentLevel) - 1
    {
      bitOffset := bitOffset + blocksInLevel;
      blocksInLevel := blocksInLevel * 2;
      currentLevel := currentLevel + 1;
    }
    start, end := bitOffset, bitOffset + blocksInLevel - 1;
  }

  /** bit_index_for_pagepool_block; -1 when its assertion fails. */
  method BitIndexForBlock(level: nat, block: nat) returns (index: int)
    ensures index == if block < Pow2(level) then Index(level, block) else -1
  {
    var start, end := BitIndicesRangeForLevel(level);
    if !(block < end - start + 1) {
      return -1;
    }
    return start + block;
  }

  /** The rounding loop of allocation and release; `ok` is false when it gives up. */
  method RoundUp(pageCount: nat) returns (ok: bool, blockSize: nat)
    requires pageCount <= SIZE_MAX
    ensures ok <==> OrderOf(pageCount) < 32
    ensures ok ==> blockSize == Pow2(OrderOf(pageCount))
  {
    blockSize := 1;
    ghost var e := 0;
    while blockSize < pageCount
      invariant blockSize == Pow2(e) && e < 32
      invariant e > 0 ==> Pow2(e - 1) < pageCount
      decreases 32 - e
    {
      if SIZE_MAX / 2 < blockSize {
        OrderIsLeast(pageCount);
        if OrderOf(pageCount) < 32 {
          Pow2Monotone(OrderOf(pageCount), 31);
          assert e < 31 ==> Pow2(e) <= Pow2(30) by { if e < 31 { Pow2Monotone(e, 30); } }
          WordLimitIsPow2();
        }
        return false, blockSize;
      }
      if e == 31 {
        WordLimitIsPow2();
      }
      blockSize := blockSize * 2;
      e := e + 1;
    }
    OrderUnique(pageCount, e);
    ok := true;
  }

  // ------------------------------------------------------------ addresses

  /** The byte offset of block b among blocks of `size` pages. */
  ghost function BlockOffset(size: nat, b: nat): nat
  {
    b * size * PAGE_SIZE
  }

  lemma OffsetCommutes(size: nat, b: nat)
    ensures size * b * PAGE_SIZE == BlockOffset(size, b)
  {}

  /** The pages of a block lie inside the pool. */
  lemma BlockInside(h: nat, l: nat, b: nat, n: nat)
    requires l + OrderOf(n) == h && b < Pow2(l)
    ensures BlockOffset(Pow2(OrderOf(n)), b) + PAGE_SIZE * n <= PAGE_SIZE * Pow2(h)
  {
    var size := Pow2(OrderOf(n));
    ProductBound(b, l, OrderOf(n));
    OrderIsLeast(n);
    hide Pow2, OrderOf;
    OneMore(b, size);
    assert b * size + n <= Pow2(h);
  }

  lemma OneMore(b: nat, size: nat)
    ensures (b + 1) * size == b * size + size
  {}

  /** Dividing an offset by the block size in bytes undoes BlockOffset, exactly on the aligned offsets. */
  lemma OffsetDecodes(x: nat, size: nat, m: nat, b: nat)
    requires size > 0 && m == size * PAGE_SIZE
    ensures x == BlockOffset(size, b) <==> x % m == 0 && x / m == b
  {
    assert BlockOffset(size, b) == b * m;
    assert x == m * (x / m) + x % m;
    if x == b * m {
      ModOfSum(b, m, 0);
      ExactQuotient(b, x / m, m);
    }
  }

  /** The block index, and the alignment assertion, of free_from_pool. */
  method DecodeOffset(x: nat, size: nat) returns (aligned: bool, block: nat)
    requires size > 0
    ensures forall b: nat :: x == BlockOffset(size, b) <==> aligned && b == block
  {
    var blockBytes := size * PAGE_SIZE;
    block := x / blockBytes;
    aligned := x % blockBytes == 0;
    forall b: nat
      ensures x == BlockOffset(size, b) <==> aligned && b == block
    {
      OffsetDecodes(x, size, blockBytes, b);
    }
  }

  lemma ExactQuotient(b: nat, q: nat, m: nat)
    requires m > 0 && b * m == m * q
    ensures b == q
  {
    assert (b - q) * m == 0;
  }

  // ------------------------------------------------------------ one pool

  class Pool {
    const bitmap: Bitmap
    const baseAddr: nat
    const pageCount: nat
    ghost const height: nat
    /** Indices of the pages that are handed out. */
    ghost var live: set<nat>

    ghost predicate Valid()
      reads this, bitmap.words
    {
      && pageCount == Pow2(height)
      && baseAddr != 0 && baseAddr % PAGE_SIZE == 0
      && baseAddr + PAGE_SIZE * pageCount <= SIZE_MAX
      && Canonical(height, live, bitmap.View())
    }

    /** Block (l, b) exists, starts at address `ptr` and has room for `n` pages and no smaller size would do. */
    ghost predicate BlockAt(ptr: nat, n: nat, l: nat, b: nat)
    {
      && l + OrderOf(n) == height && b < Pow2(l)
      && ptr == baseAddr + BlockOffset(Pow2(OrderOf(n)), b)
    }

    ghost predicate HasRoom(n: nat)
      reads this
    {
      OrderOf(n) <= height && RoomAt(height, live, height - OrderOf(n))
    }

    /** The pool that pmm_register_mem sets up: everything free, only the root bit set. */
    constructor (baseAddr: nat, pageCount: nat, wordCount: nat, ghost height: nat)
      requires pageCount == Pow2(height) && 2 * pageCount - 1 <= WORD_BITS * wordCount
      requires baseAddr != 0 && baseAddr % PAGE_SIZE == 0 && baseAddr + PAGE_SIZE * pageCount <= SIZE_MAX
      ensures Valid() && live == {} && fresh(bitmap.words)
      ensures this.baseAddr == baseAddr && this.pageCount == pageCount && this.height == height
    {
      var bm := new Bitmap(wordCount);
      ghost var _ := bm.SetBit(0);
      this.bitmap := bm;
      this.baseAddr := baseAddr;
      this.pageCount := pageCount;
      this.height := height;
      this.live := {};
      EmptyPool(height, bm.View());
    }

    /** block_size_to_pagepool_level */
    method BlockSizeToLevel(size: nat, ghost e: nat) returns (level: nat)
      requires pageCount == Pow2(height) && size == Pow2(e) && e <= height
      ensures level == height - e
    {
      var sizePerBlock := pageCount;
      level := 0;
      while size < sizePerBlock
        invariant level <= height - e && sizePerBlock == Pow2(height - level)
      {
        if height - level == e {
          assert false;
        }
        level := level + 1;
        sizePerBlock := sizePerBlock / 2;
      }
      if level < height - e {
        Pow2Monotone(e + 1, height - level);
      }
    }

    lemma BitsThere()
      requires Valid()
      ensures 2 * Pow2(height) - 1 <= |bitmap.View()|
    {}

    /**
     The search of alloc_from_pool: the first set bit of the finest level, at or
     above `wanted`, that has one.
     */
    method FindBlock(wanted: nat) returns (found: bool, level: nat, block: nat)
      requires Valid() && wanted <= height
      ensures found ==> FirstFree(bitmap.View(), wanted, level, block)
      ensures !found ==> NoneFree(bitmap.View(), -1, wanted)
    {
      BitsThere();
      hide NoneFree, FirstFree, RunAt, Index, Pow2, Valid;
      level := wanted;
      NothingAbove(bitmap.View(), wanted);
      while true
        invariant level <= wanted
        invariant NoneFree(bitmap.View(), level, wanted)
        decreases level
      {
        var bitStart, bitEnd := BitIndicesRangeForLevel(level);
        var foundAt := bitmap.FindSetBits(bitStart, 1);
        assert RunLength(1) == 1;
        LevelDone(bitmap.View(), height, wanted, level, foundAt);
        if 0 <= foundAt <= bitEnd {
          return true, level, foundAt - bitStart;
        }
        if level == 0 {
          return false, 0, 0;
        }
        level := level - 1;
      }
    }

    /** The bitmap, once the bit of (l, b) is cleared, describes `rest` plus the pages of (l, b). */
    ghost predicate Carved(rest: set<nat>, l: nat, b: nat)
      reads bitmap.words
    {
      && l <= height && b < Pow2(l) && Index(l, b) < |bitmap.View()|
      && Vacant(height, rest, l, b)
      && Canonical(height, rest + Pages(height, l, b), bitmap.View()[Index(l, b) := false])
    }

    /** One round of the splitting loop. */
    method SplitStep(level: nat, block: nat, ghost rest: set<nat>)
      requires Carved(rest, level, block) && level < height
      modifies bitmap.words
      ensures Carved(rest, level + 1, block * 2)
    {
      hide BuddyTree.Canonical, BuddyTree.Vacant;
      ghost var v := bitmap.View()[Index(level, block) := false];
      CanonicalLength(height, rest + Pages(height, level, block), v);
      var bitIndex := BitIndexForBlock(level, block);
      ghost var _ := bitmap.ClearBit(bitIndex);
      IndexInRange(height, level + 1, block * 2 + 1);
      bitIndex := BitIndexForBlock(level + 1, block * 2 + 1);
      ghost var _ := bitmap.SetBit(bitIndex);
      Split(height, rest, v, level, block);
      LeftChild(height, rest, bitmap.View(), level, block);
    }

    /** The bit of the resulting block is cleared last. */
    method TakeCarved(l: nat, b: nat, ghost rest: set<nat>)
      requires Carved(rest, l, b)
      modifies bitmap.words
      ensures Canonical(height, rest + Pages(height, l, b), bitmap.View())
    {
      var bitIndex := BitIndexForBlock(l, b);
      ghost var _ := bitmap.ClearBit(bitIndex);
    }

    lemma CarveFirst(l: nat, b: nat)
      requires Valid() && l <= height && b < Pow2(l) && bitmap.View()[Index(l, b)]
      ensures Carved(live, l, b)
    {
      assert Maximal(height, live, l, b);
      Take(height, live, bitmap.View(), l, b);
    }

    /** The splitting loop of alloc_from_pool, down to the leftmost block of level `wanted`. */
    method SplitDown(foundLevel: nat, foundBlock: nat, wanted: nat) returns (block: nat)
      requires Valid() && foundLevel <= wanted <= height
      requires foundBlock < Pow2(foundLevel) && bitmap.View()[Index(foundLevel, foundBlock)]
      modifies bitmap.words, this`live
      ensures Valid() && block < Pow2(wanted) && block == Leftmost(foundBlock, wanted - foundLevel)
      ensures Vacant(height, old(live), wanted, block)
      ensures live == old(live) + Pages(height, wanted, block)
    {
      hide BuddyTree.Canonical, BuddyTree.Vacant;
      ghost var rest := live;
      CarveFirst(foundLevel, foundBlock);
      var level := foundLevel;
      block := foundBlock;
      while level < wanted
        invariant foundLevel <= level <= wanted
        invariant block == Leftmost(foundBlock, level - foundLevel)
        invariant Carved(rest, level, block)
      {
        SplitStep(level, block, rest);
        level := level + 1;
        block := block * 2;
      }
      TakeCarved(wanted, block, rest);
      live := rest + Pages(height, wanted, block);
    }

    /** alloc_from_pool; address 0 is failure. */
    method AllocFromPool(wantedPages: nat) returns (result: nat, pagesOut: nat, ghost level: nat, ghost block: nat,
                                                        ghost fromLevel: nat, ghost fromBlock: nat)
      requires Valid() && 0 < wantedPages <= SIZE_MAX
      modifies bitmap.words, this`live
      ensures Valid()
      // it fails exactly when no aligned block of the rounded-up size is free, and then changes nothing
      ensures result != 0 <==> old(HasRoom(wantedPages))
      ensures result == 0 ==> live == old(live) && bitmap.View() == old(bitmap.View())
      // the block handed out was free and is now live, and nothing else changed hands
      ensures result != 0 ==> pagesOut == Pow2(OrderOf(wantedPages)) && BlockAt(result, wantedPages, level, block)
      ensures result != 0 ==> Vacant(height, old(live), level, block)
      ensures result != 0 ==> live == old(live) + Pages(height, level, block)
      // best fit: the leftmost part of the first free block of the finest level with one
      ensures result != 0 ==> FirstFree(old(bitmap.View()), level, fromLevel, fromBlock)
                              && block == Leftmost(fromBlock, level - fromLevel)
    {
      hide BuddyTree.Canonical, BuddyTree.Vacant, NoneFree;
      level, block, fromLevel, fromBlock := 0, 0, 0, 0;
      pagesOut := wantedPages;
      HeightBound();
      var ok, blockSize := RoundUp(wantedPages);
      if !ok {
        return 0, pagesOut, 0, 0, 0, 0;
      }
      OrderFits(OrderOf(wantedPages), height);
      if pageCount < blockSize {
        return 0, pagesOut, 0, 0, 0, 0;
      }
      pagesOut := blockSize;
      var wanted := BlockSizeToLevel(blockSize, OrderOf(wantedPages));
      var found, foundLevel, foundBlock := FindBlock(wanted);
      if !found {
        NothingFound(height, live, bitmap.View(), wanted);
        return 0, pagesOut, 0, 0, 0, 0;
      }
      var blk := SplitDown(foundLevel, foundBlock, wanted);
      level, block, fromLevel, fromBlock := wanted, blk, foundLevel, foundBlock;
      OffsetCommutes(blockSize, blk);
      result := baseAddr + (blockSize * blk * PAGE_SIZE);
      assert RoomAt(height, old(live), wanted) by { RoomWitness(height, old(live), wanted, blk); }
    }

    /** The bitmap describes `rest` plus the pages of the block (l, b) on its way back. */
    ghost predicate Returning(rest: set<nat>, l: nat, b: nat)
      reads bitmap.words
    {
      && l <= height && b < Pow2(l) && Vacant(height, rest, l, b)
      && Canonical(height, rest + Pages(height, l, b), bitmap.View())
    }

    /**
     One round of the loop of free_from_pool on the block (level, block): give it
     back, or merge it with a free neighbour and go on with the parent.
     */
    method FreeStep(level: nat, block: nat, ghost rest: set<nat>, ghost good: bool) returns (ok: bool, done: bool)
      requires level <= height && 2 * Pow2(height) - 1 <= |bitmap.View()|
      requires good ==> Returning(rest, level, block)
      modifies bitmap.words
      ensures good ==> ok
      ensures !ok <==> block >= Pow2(level) || BitOf(old(bitmap.View()), level, block)
      ensures !ok ==> bitmap.View() == old(bitmap.View())
      ensures ok && !done ==> level > 0
      ensures ok ==> Index(level, block) < |old(bitmap.View())|
      ensures ok ==> (done <==> level == 0 || !BitOf(old(bitmap.View()), level, Sibling(block)))
      ensures ok && done ==> bitmap.View() == old(bitmap.View())[Index(level, block) := true]
      ensures ok && !done ==> Sibling(block) < Pow2(level) && Index(level, Sibling(block)) < |old(bitmap.View())|
                              && bitmap.View() == old(bitmap.View())[Index(level, Sibling(block)) := false]
      ensures good && done ==> Canonical(height, rest, bitmap.View())
      ensures good && !done ==> level > 0 && Returning(rest, level - 1, block / 2)
    {
      hide BuddyTree.Canonical, BuddyTree.Vacant;
      ghost var v := bitmap.View();
      done := true;
      var bitIndex := BitIndexForBlock(level, block);
      if bitIndex < 0 {
        return false, true;
      }
      IndexInRange(height, level, block);
      if good {
        ReturningBitClear(rest, level, block);
      }
      var isSet, _ := bitmap.IsBitSet(bitIndex);
      if isSet {
        return false, true;
      }
      ok := true;
      ghost var _ := bitmap.SetBit(bitIndex);
      if level == 0 {
        if good {
          Release(height, rest, v, level, block);
        }
        return;
      }
      NeighborIndex(height, level, block);
      var neighborIndex := if block % 2 == 0 then bitIndex + 1 else bitIndex - 1;
      var neighborSet, _ := bitmap.IsBitSet(neighborIndex);
      if !neighborSet {
        if good {
          Release(height, rest, v, level, block);
        }
        return;
      }
      ghost var _ := bitmap.ClearBit(bitIndex);
      ghost var _ := bitmap.ClearBit(neighborIndex);
      done := false;
      assert bitmap.View() == v[neighborIndex := false];
      if good {
        Merge(height, rest, v, level, block);
      }
    }

    /** The loop of free_from_pool. */
    method FreeLoop(level: nat, block: nat, ghost rest: set<nat>, ghost good: bool) returns (ok: bool)
      requires level <= height && 2 * Pow2(height) - 1 <= |bitmap.View()|
      requires good ==> Returning(rest, level, block)
      modifies bitmap.words
      ensures good ==> ok && Canonical(height, rest, bitmap.View())
      ensures block >= Pow2(level) || BitOf(old(bitmap.View()), level, block) ==>
                !ok && bitmap.View() == old(bitmap.View())
      ensures level > 0 && block < Pow2(level) && !BitOf(old(bitmap.View()), level, block) &&
              !BitOf(old(bitmap.View()), level, Sibling(block)) ==>
                ok && Index(level, block) < |old(bitmap.View())| &&
                bitmap.View() == old(bitmap.View())[Index(level, block) := true]
      // with no bit set from the block up, the bit of the block or of an enclosing one is set in the end, and no finer bit changes
      ensures block < Pow2(level) && PathClear(old(bitmap.View()), level, block, level) ==>
                ok && SomePathBit(bitmap.View(), level, block) && FinerSame(old(bitmap.View()), bitmap.View(), level)
    {
      hide BuddyTree.Canonical, BuddyTree.Vacant, PathClear, SomePathBit, FinerSame;
      ghost var bare := block < Pow2(level) && PathClear(bitmap.View(), level, block, level);
      PathStart(bitmap.View(), level, block);
      ghost var refused := block >= Pow2(level) || BitOf(bitmap.View(), level, block);
      var currentLevel: nat, currentBlock: nat := level, block;
      while true
        invariant currentLevel <= level
        invariant good ==> Returning(rest, currentLevel, currentBlock)
        invariant refused ==> currentLevel == level && bitmap.View() == old(bitmap.View())
        invariant currentLevel == level ==> currentBlock == block && bitmap.View() == old(bitmap.View())
        invariant currentLevel < level ==> level == 0 || BitOf(old(bitmap.View()), level, Sibling(block))
        invariant bare ==> PathAt(old(bitmap.View()), bitmap.View(), level, block, currentLevel, currentBlock)
        decreases currentLevel
      {
        ghost var before := bitmap.View();
        if bare {
          PathBitClear(before, level, block, currentLevel, currentBlock);
        }
        var stepOk, done := FreeStep(currentLevel, currentBlock, rest, good);
        if bare {
          PathStep(old(bitmap.View()), before, bitmap.View(), level, block, currentLevel, currentBlock, done);
        }
        if !stepOk {
          return false;
        }
        if done {
          return true;
        }
        currentLevel, currentBlock := currentLevel - 1, currentBlock / 2;
      }
    }

    /** free_from_pool; `false` is the panic. */
    method FreeFromPool(ptr: nat, n: nat) returns (ok: bool)
      requires Valid() && ptr <= SIZE_MAX && n <= SIZE_MAX
      modifies bitmap.words, this`live
      ensures ptr == 0 ==> ok && live == old(live) && bitmap.View() == old(bitmap.View())
      // a live block is taken back, and the panic is not reached
      ensures forall l: nat, b: nat :: old(LiveBlock(ptr, n, l, b)) ==>
                ok && Valid() && live == old(live) - Pages(height, l, b)
      // a pointer outside the pool, or off the grid of its block size, is refused
      ensures ptr != 0 && (forall l: nat, b: nat :: !BlockAt(ptr, n, l, b)) ==>
                !ok && live == old(live) && bitmap.View() == old(bitmap.View())
      // a block that is not all live is noticed exactly if its own bit is set: if it is free and has not merged with its neighbour
      ensures forall l: nat, b: nat :: ptr != 0 && BlockAt(ptr, n, l, b) && !(Pages(height, l, b) <= old(live)) ==>
                (ok <==> !Maximal(height, old(live), l, b))
      // and otherwise the bitmap stops describing any set of live pages
      ensures forall l: nat, b: nat :: ptr != 0 && BlockAt(ptr, n, l, b) && !(Pages(height, l, b) <= old(live)) && ok ==>
                !Describes(height, bitmap.View())
    {
      hide BuddyTree.Canonical, BuddyTree.Vacant, BuddyTree.Maximal, BuddyTree.Describes, PathClear, SomePathBit, FinerSame;
      if ptr == 0 {
        return true;
      }
      var located, level, block := Locate(ptr, n);
      if !located {
        return false;
      }
      CanonicalLength(height, live, bitmap.View());
      ghost var good := block < Pow2(level) && Pages(height, level, block) <= live;
      ghost var rest := live - Pages(height, level, block);
      if good {
        ReturnBlock(rest, level, block);
      }
      if block < Pow2(level) {
        DoubleFreeBits(level, block);
        MixedPath(level, block);
      }
      ok := FreeLoop(level, block, rest, good);
      if good {
        live := rest;
      } else if block < Pow2(level) && ok {
        if Vacant(height, live, level, block) {
          MergedBits(old(bitmap.View()), live, level, block);
        } else {
          MixedBits(old(bitmap.View()), bitmap.View(), level, block);
        }
      }
    }

    /** Freeing what was just allocated puts every bit of the tree back. */
    method AllocThenFree(n: nat) returns (result: nat, ok: bool)
      requires Valid() && 0 < n <= SIZE_MAX
      modifies bitmap.words, this`live
      ensures ok && Valid() && live == old(live)
      ensures result != 0 <==> old(HasRoom(n))
      ensures |bitmap.View()| == |old(bitmap.View())|
      ensures 2 * pageCount - 1 <= |bitmap.View()|
           && bitmap.View()[..2 * pageCount - 1] == old(bitmap.View())[..2 * pageCount - 1]
    {
      hide BuddyTree.Canonical, BuddyTree.Vacant, BuddyTree.Maximal, FirstFree, BlockOffset, BuddyTree.Describes;
      ghost var was, before := live, bitmap.View();
      var pages;
      ghost var l, b, fromLevel, fromBlock;
      result, pages, l, b, fromLevel, fromBlock := AllocFromPool(n);
      if result == 0 {
        ok := true;
      } else {
        OrderUnique(pages, OrderOf(n));
        AddressBound(result, n, l, b);
        OrderIsLeast(n);
        ok := FreeFromPool(result, pages);
        VacantDisjoint(height, was, l, b);
      }
      CanonicalIsUnique(height, was, before, bitmap.View());
      CanonicalLength(height, was, before);
    }

    lemma AddressBound(ptr: nat, n: nat, l: nat, b: nat)
      requires Valid() && BlockAt(ptr, n, l, b)
      ensures ptr <= SIZE_MAX && Pow2(OrderOf(n)) <= SIZE_MAX
    {
      BlockInside(height, l, b, n);
      Pow2Monotone(OrderOf(n), height);
    }

    /** The checks and the address arithmetic of free_from_pool, up to its loop. */
    method Locate(ptr: nat, n: nat) returns (ok: bool, level: nat, block: nat)
      requires Valid() && ptr <= SIZE_MAX && n <= SIZE_MAX
      ensures ok ==> level + OrderOf(n) == height && (block < Pow2(level) ==> BlockAt(ptr, n, level, block))
      ensures forall l: nat, b: nat :: BlockAt(ptr, n, l, b) ==> ok && l == level && b == block
    {
      hide BuddyTree.Canonical, BlockOffset;
      level, block := 0, 0;
      ghost var e := OrderOf(n);
      forall l: nat, b: nat | BlockAt(ptr, n, l, b)
        ensures baseAddr <= ptr && ptr + PAGE_SIZE * n <= baseAddr + PAGE_SIZE * pageCount
      {
        BlockInside(height, l, b, n);
      }
      if ptr < baseAddr || baseAddr + PAGE_SIZE * pageCount < (ptr + PAGE_SIZE * n) % WORD_LIMIT {
        return false, 0, 0;
      }
      HeightBound();
      var rounded, blockSize := RoundUp(n);
      if !rounded {
        return false, 0, 0;
      }
      OrderFits(e, height);
      if pageCount < blockSize {
        return false, 0, 0;
      }
      ok, block := DecodeOffset(ptr - baseAddr, blockSize);
      level := BlockSizeToLevel(blockSize, e);
    }

    lemma ReturnBlock(rest: set<nat>, l: nat, b: nat)
      requires Valid() && l <= height && b < Pow2(l) && Pages(height, l, b) <= live
      requires rest == live - Pages(height, l, b)
      ensures Returning(rest, l, b)
    {
      assert rest + Pages(height, l, b) == live;
      forall p | p in rest
        ensures !InBlock(height, l, b, p)
      {
        assert p < Pow2(height);
      }
    }

    /** What the two bits around a vacant block say. */
    lemma DoubleFreeBits(l: nat, b: nat)
      requires Valid() && l <= height && b < Pow2(l)
      ensures BitOf(bitmap.View(), l, b) == Maximal(height, live, l, b)
      ensures Vacant(height, live, l, b) && !Maximal(height, live, l, b) ==>
                l > 0 && !BitOf(bitmap.View(), l, Sibling(b))
    {
      IndexInRange(height, l, b);
      if l > 0 {
        NeighborIndex(height, l, b);
        assert bitmap.View()[Index(l, Sibling(b))] == Maximal(height, live, l, Sibling(b));
      }
    }

    /** No bit is set on the path above a block that holds a live page, and the block is not maximal. */
    lemma MixedPath(l: nat, b: nat)
      requires Valid() && l <= height && b < Pow2(l)
      ensures !Vacant(height, live, l, b) ==> PathClear(bitmap.View(), l, b, l) && !Maximal(height, live, l, b)
    {
      hide BuddyTree.Canonical;
      if !Vacant(height, live, l, b) {
        forall m: nat | m <= l
          ensures !AroundBit(bitmap.View(), l, b, m)
        {
          AncestorHasLive(m, l, b);
        }
      }
    }

    lemma AncestorHasLive(m: nat, l: nat, b: nat)
      requires Valid() && m <= l <= height && b < Pow2(l) && !Vacant(height, live, l, b)
      ensures !BitOf(bitmap.View(), m, Shr(b, l - m))
    {
      ShrBound(b, m, l - m);
      if Vacant(height, live, m, Shr(b, l - m)) {
        VacantBelow(height, live, m, l, b);
      }
      IndexInRange(height, m, Shr(b, l - m));
    }

    /** Releasing a block of which some pages are live and some are free leaves a bitmap of no set of live pages. */
    lemma MixedBits(v: seq<bool>, v': seq<bool>, l: nat, b: nat)
      requires Canonical(height, live, v) && l <= height && b < Pow2(l)
      requires !Vacant(height, live, l, b) && !(Pages(height, l, b) <= live)
      requires SomePathBit(v', l, b) && FinerSame(v, v', l)
      ensures !Describes(height, v')
    {
      hide BuddyTree.Canonical, BuddyTree.Vacant, BuddyTree.Describes;
      var p :| p in Pages(height, l, b) && p !in live;
      var k := FreePageOwner(v, l, b, p);
      var m: nat :| AroundBit(v', l, b, m);
      ShrShr(p, height - k, k - l);
      ShrShr(p, height - l, l - m);
      ShrShr(p, height - k, k - m);
      var c := Shr(p, height - k);
      assert BitOf(v', k, c);
      forall after
        ensures !Canonical(height, after, v')
      {
        if Canonical(height, after, v') {
          ShrBound(c, m, k - m);
          NoNestedBits(height, after, v', k, c, m);
        }
      }
      NotDescribed(v');
    }

    lemma NotDescribed(v: seq<bool>)
      requires forall after :: !Canonical(height, after, v)
      ensures !Describes(height, v)
    {}

    /** A free page of a block that holds live pages has its set bit inside the block. */
    lemma FreePageOwner(v: seq<bool>, l: nat, b: nat, p: nat) returns (k: nat)
      requires Canonical(height, live, v) && l <= height && b < Pow2(l)
      requires !Vacant(height, live, l, b) && p in Pages(height, l, b) && p !in live
      ensures l < k <= height && Shr(p, height - k) < Pow2(k) && BitOf(v, k, Shr(p, height - k)) && Shr(p, height - l) == b
    {
      hide BuddyTree.Canonical, BuddyTree.Vacant;
      assert p < Pow2(height) && Shr(p, height - l) == b;
      FreeBlocksTile(height, live, v, p);
      k :| OwnerLevel(height, v, p, k);
      OwnerInside(v, l, b, p, k);
    }

    lemma OwnerInside(v: seq<bool>, l: nat, b: nat, p: nat, k: nat)
      requires Canonical(height, live, v) && l <= height && b < Pow2(l) && p < Pow2(height)
      requires !Vacant(height, live, l, b) && Shr(p, height - l) == b && OwnerLevel(height, v, p, k)
      ensures l < k
    {
      if k <= l {
        ShrShr(p, height - l, l - k);
        ShrBound(b, k, l - k);
        VacantBelow(height, live, k, l, b);
      }
    }

    /** A bit set inside a free block is not the bitmap of any set of live pages. */
    lemma MergedBits(v: seq<bool>, was: set<nat>, l: nat, b: nat)
      requires Canonical(height, was, v) && l <= height && b < Pow2(l)
      ensures Index(l, b) < |v|
      ensures Vacant(height, was, l, b) && !Maximal(height, was, l, b) ==>
                !Describes(height, v[Index(l, b) := true])
    {
      IndexInRange(height, l, b);
      if Vacant(height, was, l, b) && !Maximal(height, was, l, b) {
        var k := VacantHasMaximal(height, was, v, l - 1, b / 2);
        ParentShr(b, l - k);
        IndexInjective(l, b, k, Shr(b, l - k));
        var v' := v[Index(l, b) := true];
        forall after
          ensures !Canonical(height, after, v')
        {
          if Canonical(height, after, v') {
            NoNestedBits(height, after, v', l, b, k);
          }
        }
      }
    }

    lemma ReturningBitClear(rest: set<nat>, l: nat, b: nat)
      requires Returning(rest, l, b)
      ensures Index(l, b) < |bitmap.View()| && !bitmap.View()[Index(l, b)]
    {
      var p := SomePage(height, l, b);
      assert p in rest + Pages(height, l, b);
    }

    lemma HeightBound()
      requires Valid()
      ensures height < 21
    {
      assert Pow2(7) == 128;
      assert Pow2(14) == 128 * Pow2(7);
      assert Pow2(21) == 128 * Pow2(14);
      if height >= 21 {
        Pow2Monotone(21, height);
      }
    }

    /** A live block: aligned, in the pool, and all of its pages handed out. */
    ghost predicate LiveBlock(ptr: nat, n: nat, l: nat, b: nat)
      reads this
    {
      BlockAt(ptr, n, l, b) && Pages(height, l, b) <= live
    }
  }

  ghost predicate BitOf(v: seq<bool>, l: nat, b: nat)
  {
    Index(l, b) < |v| && v[Index(l, b)]
  }

  /** The bit of the block of level m that contains (l, b) is set. */
  ghost predicate AroundBit(v: seq<bool>, l: nat, b: nat, m: nat)
  {
    m <= l && BitOf(v, m, Shr(b, l - m))
  }

  /** No bit is set for the blocks around (l, b) at levels up to `upto`. */
  ghost predicate PathClear(v: seq<bool>, l: nat, b: nat, upto: nat)
  {
    forall m: nat :: m <= upto ==> !AroundBit(v, l, b, m)
  }

  /** The bit of (l, b) or of a block around it is set. */
  ghost predicate SomePathBit(v: seq<bool>, l: nat, b: nat)
  {
    exists m: nat :: AroundBit(v, l, b, m)
  }

  /** The bits of levels finer than l are the same. */
  ghost predicate FinerSame(v: seq<bool>, v': seq<bool>, l: nat)
  {
    forall k: nat, c: nat :: l < k && c < Pow2(k) && BitOf(v, k, c) ==> BitOf(v', k, c)
  }

  /** The merging loop at the block (m, c) around (l, b). */
  ghost predicate PathAt(v: seq<bool>, v': seq<bool>, l: nat, b: nat, m: nat, c: nat)
  {
    m <= l && b < Pow2(l) && c == Shr(b, l - m) && c < Pow2(m) && PathClear(v', l, b, m) && FinerSame(v, v', l)
  }

  lemma PathStart(v: seq<bool>, l: nat, b: nat)
    ensures b < Pow2(l) && PathClear(v, l, b, l) ==> PathAt(v, v, l, b, l, b)
  {}

  lemma PathBitClear(v: seq<bool>, l: nat, b: nat, m: nat, c: nat)
    requires m <= l && c == Shr(b, l - m) && PathClear(v, l, b, m)
    ensures !BitOf(v, m, c)
  {
    assert !AroundBit(v, l, b, m);
  }

  /** One round of the loop: the end with the bit set, or the next block up. */
  lemma PathStep(v: seq<bool>, before: seq<bool>, after: seq<bool>, l: nat, b: nat, m: nat, c: nat, done: bool)
    requires PathAt(v, before, l, b, m, c) && Index(m, c) < |before|
    requires done ==> after == before[Index(m, c) := true]
    requires !done ==> m > 0 && Sibling(c) < Pow2(m) && Index(m, Sibling(c)) < |before| && after == before[Index(m, Sibling(c)) := false]
    ensures if done then SomePathBit(after, l, b) && FinerSame(v, after, l)
            else PathAt(v, after, l, b, m - 1, c / 2)
  {
    hide PathClear;
    if done {
      assert AroundBit(after, l, b, m);
      OtherBit(v, before, after, l, m, c, true);
    } else {
      OtherBit(v, before, after, l, m, Sibling(c), false);
      assert c / 2 == Shr(b, l - (m - 1)) by { ShrShr(b, l - m, 1); assert Shr(c, 1) == c / 2; }
      CoarserBits(before, after, l, b, m, Sibling(c));
    }
  }

  /** Changing a bit of level m <= l changes no finer bit than level l. */
  lemma OtherBit(v: seq<bool>, before: seq<bool>, after: seq<bool>, l: nat, m: nat, c: nat, bit: bool)
    requires m <= l && c < Pow2(m) && Index(m, c) < |before| && after == before[Index(m, c) := bit] && FinerSame(v, before, l)
    ensures FinerSame(v, after, l)
  {
    forall k: nat, d: nat | l < k && d < Pow2(k) && BitOf(v, k, d)
      ensures BitOf(after, k, d)
    {
      IndexInjective(k, d, m, c);
    }
  }

  /** Changing a bit of level m changes no coarser bit. */
  lemma CoarserBits(before: seq<bool>, after: seq<bool>, l: nat, b: nat, m: nat, s: nat)
    requires 0 < m <= l && b < Pow2(l) && s < Pow2(m) && Index(m, s) < |before| && after == before[Index(m, s) := false]
    requires PathClear(before, l, b, m)
    ensures PathClear(after, l, b, m - 1)
  {
    forall i: nat | i <= m - 1
      ensures !AroundBit(after, l, b, i)
    {
      assert !AroundBit(before, l, b, i);
      ShrBound(b, i, l - i);
      IndexInjective(i, Shr(b, l - i), m, s);
    }
  }

  /** No block of the levels above `above`, down to `wanted`, has its bit set. */
  ghost predicate NoneFree(v: seq<bool>, above: int, wanted: nat)
  {
    forall k: nat, c: nat :: above < k <= wanted && c < Pow2(k) ==> Index(k, c) < |v| && !v[Index(k, c)]
  }

  /** The block FindBlock settles on. */
  ghost predicate FirstFree(v: seq<bool>, wanted: nat, level: nat, b: nat)
  {
    && level <= wanted && b < Pow2(level)
    && Index(level, b) < |v| && v[Index(level, b)]
    && (forall c: nat :: c < b ==> !v[Index(level, c)])
    && NoneFree(v, level, wanted)
  }


  lemma VacantDisjoint(h: nat, live: set<nat>, l: nat, b: nat)
    requires l <= h && Vacant(h, live, l, b)
    ensures live + Pages(h, l, b) - Pages(h, l, b) == live
  {}

  lemma RoomWitness(h: nat, live: set<nat>, l: nat, b: nat)
    requires l <= h && b < Pow2(l) && Vacant(h, live, l, b)
    ensures RoomAt(h, live, l)
  {}

  lemma OrderFits(e: nat, h: nat)
    ensures e <= h <==> Pow2(e) <= Pow2(h)
  {
    if e <= h {
      Pow2Monotone(e, h);
    } else {
      Pow2Monotone(h + 1, e);
    }
  }

  lemma NothingFound(h: nat, live: set<nat>, v: seq<bool>, l: nat)
    requires Canonical(h, live, v) && l <= h
    requires NoneFree(v, -1, l)
    ensures !RoomAt(h, live, l)
  {
    if RoomAt(h, live, l) {
      var b: nat :| b < Pow2(l) && Vacant(h, live, l, b);
      var k := VacantHasMaximal(h, live, v, l, b);
    }
  }

  /** The neighbour's bit is next to the block's own. */
  lemma NeighborIndex(h: nat, l: nat, b: nat)
    requires 0 < l <= h && b < Pow2(l)
    ensures Sibling(b) < Pow2(l)
    ensures Index(l, Sibling(b)) == if b % 2 == 0 then Index(l, b) + 1 else Index(l, b) - 1
    ensures Index(l, Sibling(b)) < 2 * Pow2(h) - 1
  {
    IndexInRange(h, l, Sibling(b));
  }

  lemma NoNestedBits(h: nat, live: set<nat>, v: seq<bool>, l: nat, b: nat, k: nat)
    requires Canonical(h, live, v) && k < l <= h && b < Pow2(l) && Shr(b, l - k) < Pow2(k)
    ensures !(v[Index(l, b)] && v[Index(k, Shr(b, l - k))])
  {
    if v[Index(l, b)] && v[Index(k, Shr(b, l - k))] {
      assert Maximal(h, live, l, b) && Maximal(h, live, k, Shr(b, l - k));
      ParentShr(b, l - k);
      VacantBelow(h, live, k, l - 1, b / 2);
    }
  }

  lemma NothingAbove(v: seq<bool>, wanted: nat)
    ensures NoneFree(v, wanted, wanted)
  {}

  /** What the first set bit from the start of a level on says about the level. */
  lemma LevelDone(v: seq<bool>, h: nat, wanted: nat, level: nat, foundAt: int)
    requires level <= wanted <= h && 2 * Pow2(h) - 1 <= |v| && NoneFree(v, level, wanted)
    requires foundAt == -1 || (foundAt >= Index(level, 0) && RunAt(v, foundAt, 1))
    requires forall i :: Index(level, 0) <= i && (foundAt == -1 || i < foundAt) ==> !RunAt(v, i, 1)
    ensures if 0 <= foundAt <= Index(level, Pow2(level) - 1) then FirstFree(v, wanted, level, foundAt - Index(level, 0))
            else NoneFree(v, level - 1, wanted)
  {
    LevelScanned(v, level, foundAt);
    Pow2Monotone(level, h);
    hide Pow2;
    if !(0 <= foundAt <= Index(level, Pow2(level) - 1)) {
      forall c: nat | c < Pow2(level)
        ensures Index(level, c) < |v| && !v[Index(level, c)]
      {}
    }
  }

  lemma LevelScanned(v: seq<bool>, level: nat, foundAt: int)
    requires foundAt == -1 || (foundAt >= Index(level, 0) && RunAt(v, foundAt, 1))
    requires forall i :: Index(level, 0) <= i && (foundAt == -1 || i < foundAt) ==> !RunAt(v, i, 1)
    ensures forall c: nat :: Index(level, c) < |v| && (foundAt == -1 || Index(level, c) < foundAt) ==> !v[Index(level, c)]
  {
    forall c: nat | Index(level, c) < |v| && (foundAt == -1 || Index(level, c) < foundAt)
      ensures !v[Index(level, c)]
    {
      assert !RunAt(v, Index(level, c), 1);
    }
  }

  /** After a split the left child is live, so its bit is clear already. */
  lemma LeftChild(h: nat, rest: set<nat>, v: seq<bool>, l: nat, b: nat)
    requires l < h && b < Pow2(l) && Vacant(h, rest, l, b)
    requires Canonical(h, rest + Pages(h, l + 1, 2 * b), v)
    ensures Index(l + 1, 2 * b) < |v| && v[Index(l + 1, 2 * b) := false] == v
    ensures Vacant(h, rest, l + 1, 2 * b)
  {
    assert v[Index(l + 1, 2 * b)] == Maximal(h, rest + Pages(h, l + 1, 2 * b), l + 1, 2 * b);
    var p := SomePage(h, l + 1, 2 * b);
    assert p in rest + Pages(h, l + 1, 2 * b);
    assert Shr(2 * b, 1) == b;
    VacantBelow(h, rest, l, l + 1, 2 * b);
  }

  // ------------------------------------------------------------ a double free that is not noticed

  /** In a pool of two pages, a page that has merged with its neighbour can be freed again, and the bitmap is ruined. */
  method FreedTwice() returns (pool: Pool, ok: bool)
    ensures ok && !Describes(pool.height, pool.bitmap.View())
  {
    hide BuddyTree.Canonical, BuddyTree.Describes, FirstFree, BlockOffset;
    assert Pow2(1) == 2 && Pow2(0) == 1;
    pool := new Pool(PAGE_SIZE, 2, 1, 1);
    assert OrderOf(1) == 0 by { OrderUnique(1, 0); }
    TwoFreePages();
    assert pool.HasRoom(1);
    var p, n;
    ghost var l, b, k, c;
    p, n, l, b, k, c := pool.AllocFromPool(1);
    pool.AddressBound(p, 1, l, b);
    assert pool.LiveBlock(p, 1, l, b);
    ok := pool.FreeFromPool(p, 1);
    var q := SomePage(1, l, b);
    MergedPage(b);
    ok := pool.FreeFromPool(p, 1);
  }

  lemma TwoFreePages()
    ensures Vacant(1, {}, 1, 0) && RoomAt(1, {}, 1)
  {}

  lemma MergedPage(b: nat)
    requires b < 2
    ensures !Maximal(1, {}, 1, b)
  {}
}
