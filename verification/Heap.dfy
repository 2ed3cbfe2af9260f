/**
 The block heap of kernel/mem/heap.c: pools of 64-byte blocks with a bitmap each,
 allocations with a header in front and poison bytes behind.

 Sizes of the two header structures and the alignment are those of the platform;
 they are parameters here.  Memory is a function from addresses to bytes.
 */
module Heap {
  import opened Basics
  import opened Words
  import opened Bitmaps

  const BLOCK_SIZE: nat := 64
  const POISON: seq<nat> := [0xe9, 0x29, 0xf3, 0xfb, 0xd7, 0x67, 0xaa, 0x5a]

  type Memory = nat -> nat

  lemma BlocksCover(size: nat)
    ensures size <= BLOCK_SIZE * SizeToBlocks(size, BLOCK_SIZE) < size + BLOCK_SIZE
  {}

  /** The blocks heap_alloc takes for `size` bytes, with the 32-bit sum it computes. */
  function BlocksFor(header: nat, size: nat): nat
  {
    SizeToBlocks((size + header + |POISON|) % WORD_LIMIT, BLOCK_SIZE)
  }

  /**
   A size that passes the overflow check of heap_alloc gets enough blocks if and
   only if the sum with the poison bytes does not wrap either.
   */
  lemma EnoughBlocksExactly(header: nat, size: nat)
    requires 0 < size && header <= SIZE_MAX && size <= SIZE_MAX - header
    ensures size + header + |POISON| <= BLOCK_SIZE * BlocksFor(header, size) <==> size + header + |POISON| <= SIZE_MAX
  {
    BlocksCover((size + header + |POISON|) % WORD_LIMIT);
  }

  /** And no block more than it needs. */
  lemma FewestBlocks(header: nat, size: nat)
    requires size + header + |POISON| <= SIZE_MAX
    ensures BLOCK_SIZE * BlocksFor(header, size) < size + header + |POISON| + BLOCK_SIZE
  {
    BlocksCover(size + header + |POISON|);
  }

  /** At `first` the first run of n set bits begins. */
  ghost predicate FirstRun(v: seq<bool>, first: nat, n: nat)
  {
    RunAt(v, first, n) && forall k :: 0 <= k < first ==> !RunAt(v, k, n)
  }

  /** The smallest size of the family that wraps. */
  lemma WrappedSize(header: nat)
    requires 0 < header <= 1024
    ensures var size := SIZE_MAX - header - |POISON| + 1;
            size <= SIZE_MAX - header && BlocksFor(header, size) == 0
  {}

  // ------------------------------------------------------------ counting set bits

  ghost function SetCount(v: seq<bool>): nat
  {
    if v == [] then 0 else SetCount(v[..|v| - 1]) + if v[|v| - 1] then 1 else 0
  }

  lemma {:induction false} CountNone(v: seq<bool>)
    requires forall i :: 0 <= i < |v| ==> !v[i]
    ensures SetCount(v) == 0
  {
    if v != [] {
      CountNone(v[..|v| - 1]);
    }
  }

  /** Writing a run that had the opposite value changes the count by its length. */
  lemma {:induction false} CountFilled(v: seq<bool>, offset: nat, len: nat, b: bool)
    requires offset + len <= |v| && forall i :: offset <= i < offset + len ==> v[i] != b
    ensures SetCount(Filled(v, offset, len, b)) == SetCount(v) + (if b then len else 0) - (if b then 0 else len)
  {
    if v != [] {
      var n := |v| - 1;
      var len' := if offset + len <= n || len == 0 then len else len - 1;
      var f, low := Filled(v, offset, len, b), v[..n];
      if offset + len' <= n {
        CountFilled(low, offset, len', b);
        assert f[..n] == Filled(low, offset, len', b);
      } else {
        assert f == v;
      }
    }
  }

  // ------------------------------------------------------------ one pool

  class HeapPool {
    const bitmap: Bitmap
    const base: nat
    const blockCount: nat
    var used: nat

    /** Only the bits of existing blocks are set, and the used blocks are counted. */
    ghost predicate Valid()
      reads this`used, bitmap.words
    {
      && base > 0 && blockCount <= |bitmap.View()|
      && (forall k :: blockCount <= k < |bitmap.View()| ==> !bitmap.View()[k])
      && used + SetCount(bitmap.View()) == blockCount
    }

    /** A pool with all blocks free. */
    constructor (start: nat, blocks: nat, wordCount: nat)
      requires start > 0 && blocks <= WORD_BITS * wordCount
      ensures Valid() && base == start && blockCount == blocks && used == 0 && fresh(bitmap.words) && bitmap.words.Length == wordCount
      ensures forall k :: 0 <= k < |bitmap.View()| ==> bitmap.View()[k] == (k < blocks)
    {
      base, blockCount, used := start, blocks, 0;
      bitmap := new Bitmap(wordCount);
      new;
      ghost var v := bitmap.View();
      CountNone(v);
      bitmap.SetBits(0, blocks);
      CountFilled(v, 0, blocks, true);
    }

    /** The search and the claim of alloc_from_pool: the first run of n free blocks; for none, the first free block is found and nothing claimed. */
    method TakeRun(n: nat) returns (r: int)
      requires Valid()
      modifies this`used, bitmap.words
      ensures Valid()
      ensures r == -1 || (0 <= r && RunAt(old(bitmap.View()), r, RunLength(n)) && r + n <= blockCount)
      ensures forall i :: 0 <= i && (r == -1 || i < r) ==> !RunAt(old(bitmap.View()), i, RunLength(n))
      ensures bitmap.View() == if r == -1 then old(bitmap.View()) else Filled(old(bitmap.View()), r, n, false)
      ensures used == old(used) + if r == -1 then 0 else n
    {
      hide SetCount, Filled;
      assert n > 0 ==> RunLength(n) == n;
      r := bitmap.FindSetBits(0, n);
      if r != -1 {
        ghost var v := bitmap.View();
        CountFilled(v, r, n, false);
        assert v[r + RunLength(n) - 1];
        bitmap.ClearBits(r, n);
        FilledAt(v, r, n, false);
        used := used + n;
      }
    }

    /** The release of heap_free. */
    method GiveRun(first: nat, n: nat)
      requires Valid() && first + n <= blockCount
      requires forall k :: first <= k < first + n ==> !bitmap.View()[k]
      modifies this`used, bitmap.words
      ensures Valid() && n <= old(used) && used == old(used) - n
      ensures bitmap.View() == Filled(old(bitmap.View()), first, n, true)
    {
      hide SetCount, Filled;
      ghost var v := bitmap.View();
      CountFilled(v, first, n, true);
      FilledAt(v, first, n, true);
      CountBound(Filled(v, first, n, true), blockCount);
      bitmap.SetBits(first, n);
      used := used - n;
    }
  }

  lemma FilledAt(v: seq<bool>, offset: nat, len: nat, b: bool)
    ensures |Filled(v, offset, len, b)| == |v|
    ensures forall k :: 0 <= k < |v| ==> Filled(v, offset, len, b)[k] == if offset <= k < offset + len then b else v[k]
  {}

  /** No more bits are set than there are places for them. */
  lemma {:induction false} CountBound(v: seq<bool>, n: nat)
    requires forall k :: n <= k < |v| ==> !v[k]
    ensures SetCount(v) <= n
  {
    if v != [] {
      var m := |v| - 1;
      CountBound(v[..m], if n <= m then n else m);
    }
  }

  // ------------------------------------------------------------ allocations

  /** struct alloc_header, with the pool and the block it lies in */
  datatype Allocation = Allocation(pool: nat, first: nat, blocks: nat, size: nat)

  ghost predicate Holds(a: Allocation, pool: nat, k: nat)
  {
    a.pool == pool && a.first <= k < a.first + a.blocks
  }

  ghost predicate Disjoint(a: Allocation, b: Allocation)
  {
    a.pool != b.pool || a.first + a.blocks <= b.first || b.first + b.blocks <= a.first
  }

  ghost predicate PoolsApart(p: HeapPool, q: HeapPool)
  {
    p.base + BLOCK_SIZE * p.blockCount <= q.base || q.base + BLOCK_SIZE * q.blockCount <= p.base
  }

  /** Block k of pool i belongs to an allocation. */
  ghost predicate Taken(allocs: seq<Allocation>, i: nat, k: nat)
  {
    exists a :: a in allocs && Holds(a, i, k)
  }

  /** The blocks that are free, as the pools count them. */
  ghost function FreeSum(ps: seq<HeapPool>): int
    reads ps`used
    decreases |ps|
  {
    if ps == [] then 0
    else FreeSum(ps[..|ps| - 1]) + ps[|ps| - 1].blockCount - ps[|ps| - 1].used
  }

  /** Memory with `len` bytes from `lo` on set to v. */
  function Fill(m: Memory, lo: nat, len: nat, v: nat): Memory
  {
    (a: nat) => if lo <= a < lo + len then v else m(a)
  }

  /** Memory with bytes copied from `from` to `to`. */
  function Copy(m: Memory, to: nat, from: nat, len: nat): Memory
  {
    (a: nat) => if to <= a < to + len then m(from + (a - to)) else m(a)
  }

  function WritePoison(m: Memory, lo: nat): Memory
  {
    (a: nat) => if lo <= a < lo + |POISON| then POISON[a - lo] else m(a)
  }

  ghost predicate Poisoned(m: Memory, lo: nat)
  {
    forall j :: 0 <= j < |POISON| ==> m(lo + j) == POISON[j]
  }

  /** A change of one pool's counter is a change of the sum. */
  twostate lemma {:induction false} FreeSumShifted(new ps: seq<HeapPool>, new i: nat, new n: int)
    requires old(allocated(ps)) && i < |ps| && ps[i].used == old(ps[i].used) + n
    requires forall j :: 0 <= j < |ps| && j != i ==> ps[j].used == old(ps[j].used) && ps[j] != ps[i]
    ensures FreeSum(ps) == old(FreeSum(ps)) - n
    decreases |ps|
  {
    var low := ps[..|ps| - 1];
    if i < |ps| - 1 {
      FreeSumShifted(low, i, n);
    } else {
      FreeSumSame(low);
    }
  }

  twostate lemma {:induction false} FreeSumSame(new ps: seq<HeapPool>)
    requires old(allocated(ps)) && forall j :: 0 <= j < |ps| ==> ps[j].used == old(ps[j].used)
    ensures FreeSum(ps) == old(FreeSum(ps))
    decreases |ps|
  {
    if ps != [] {
      FreeSumSame(ps[..|ps| - 1]);
    }
  }

  lemma FreeSumAppend(ps: seq<HeapPool>, p: HeapPool)
    ensures FreeSum(ps + [p]) == FreeSum(ps) + p.blockCount - p.used
  {
    assert (ps + [p])[..|ps|] == ps;
  }

  lemma {:induction false} FreeSumNatural(ps: seq<HeapPool>)
    requires forall j :: 0 <= j < |ps| ==> ps[j].used <= ps[j].blockCount
    ensures FreeSum(ps) >= 0
    decreases |ps|
  {
    if ps != [] {
      FreeSumNatural(ps[..|ps| - 1]);
    }
  }

  /** The `len` bytes from `lo` on all have the value v. */
  ghost predicate AllBytes(m: Memory, lo: nat, len: nat, v: nat)
  {
    forall x: nat :: lo <= x < lo + len ==> m(x) == v
  }

  lemma FilledBytes(m: Memory, lo: nat, len: nat, v: nat)
    ensures AllBytes(Fill(m, lo, len, v), lo, len, v)
    ensures OnlyWithin(m, Fill(m, lo, len, v), lo, len)
  {}

  lemma FreshBytes(m: Memory, ptr: nat, size: nat)
    ensures AllBytes(WritePoison(Fill(m, ptr, size, 0x90), ptr + size), ptr, size, 0x90)
  {}

  /** m2 differs from m only in the `len` bytes from `lo` on. */
  ghost predicate OnlyWithin(m: Memory, m2: Memory, lo: nat, len: nat)
  {
    forall x: nat :: !(lo <= x < lo + len) ==> m2(x) == m(x)
  }

  lemma PoisonKept(m: Memory, m2: Memory, lo: nat, len: nat, p: nat)
    requires OnlyWithin(m, m2, lo, len) && Poisoned(m, p) && (p + |POISON| <= lo || lo + len <= p)
    ensures Poisoned(m2, p)
  {}

  lemma CopyWithin(m: Memory, to: nat, from: nat, len: nat, room: nat)
    requires len <= room
    ensures OnlyWithin(m, Copy(m, to, from, len), to, room)
    ensures forall x: nat :: to <= x < to + len ==> Copy(m, to, from, len)(x) == m(from + (x - to))
  {
    hide Copy;
    var m2 := Copy(m, to, from, len);
    forall x: nat | !(to <= x < to + room)
      ensures m2(x) == m(x)
    {
      CopyAt(m, to, from, len, x);
    }
    assert OnlyWithin(m, m2, to, room);
    forall x: nat | to <= x < to + len
      ensures m2(x) == m(from + (x - to))
    {
      CopyAt(m, to, from, len, x);
    }
  }

  lemma CopyAt(m: Memory, to: nat, from: nat, len: nat, x: nat)
    ensures Copy(m, to, from, len)(x) == if to <= x < to + len then m(from + (x - to)) else m(x)
  {}

  /** The whole pages of the memory that add_mem is given. */
  method PagesWithin(memsize: nat, poolHeader: nat) returns (pageCount: nat)
    ensures pageCount == memsize / PAGE_SIZE
  {
    var maxBlocks := SizeToBlocks(memsize, BLOCK_SIZE);
    BlocksCover(memsize);
    var maxsize := poolHeader + NeededWordCount(maxBlocks) * 4 + maxBlocks * BLOCK_SIZE;
    pageCount := SizeToBlocks(maxsize, PAGE_SIZE);
    while memsize < pageCount * PAGE_SIZE
      invariant memsize / PAGE_SIZE <= pageCount
    {
      pageCount := pageCount - 1;
    }
  }

  /**
   The sizes that add_mem computes.  They fit the memory if and only if it has a whole
   page: for less, the 32-bit subtraction wraps and gives a pool of almost 4 GiB.
   */
  method PoolLayout(memsize: nat, poolHeader: nat, align: nat) returns (wordCount: nat, bitmapSize: nat, poolBlocks: nat)
    requires memsize <= SIZE_MAX && align > 0 && poolHeader + align <= 4088
    ensures poolHeader + bitmapSize + BLOCK_SIZE * poolBlocks <= memsize <==> PAGE_SIZE <= memsize
    ensures PAGE_SIZE <= memsize ==> poolBlocks <= WORD_BITS * wordCount && 4 * wordCount <= bitmapSize && bitmapSize % align == 0
    // the bitmap is no larger than the whole pages need, and what it leaves of them holds not one block more
    ensures PAGE_SIZE <= memsize ==> bitmapSize <= 8 * (memsize / PAGE_SIZE) + align
    ensures PAGE_SIZE <= memsize ==> memsize / PAGE_SIZE * PAGE_SIZE < poolHeader + bitmapSize + BLOCK_SIZE * (poolBlocks + 1)
  {
    var pageCount := PagesWithin(memsize, poolHeader);
    var totalBlocks := SizeToBlocks(pageCount * PAGE_SIZE, BLOCK_SIZE);
    wordCount := NeededWordCount(totalBlocks);
    bitmapSize := wordCount * 4;
    RoundedUp(bitmapSize, align);
    ghost var padding := align - bitmapSize % align;
    bitmapSize := bitmapSize + (align - bitmapSize % align);
    assert totalBlocks == 64 * pageCount && wordCount == 2 * pageCount;
    assert bitmapSize == 8 * pageCount + padding;
    var maxPoolSize := (totalBlocks * BLOCK_SIZE - bitmapSize - poolHeader) % WORD_LIMIT;
    WrapOnlyBelowPage(pageCount, padding, poolHeader, maxPoolSize);
    poolBlocks := maxPoolSize / BLOCK_SIZE;
  }

  lemma WrapOnlyBelowPage(pageCount: nat, padding: nat, poolHeader: nat, result: int)
    requires padding > 0 && poolHeader + padding <= 4088 && pageCount * PAGE_SIZE <= SIZE_MAX
    requires result == (pageCount * PAGE_SIZE - (8 * pageCount + padding) - poolHeader) % WORD_LIMIT
    ensures pageCount > 0 ==> result == pageCount * PAGE_SIZE - (8 * pageCount + padding) - poolHeader
    ensures pageCount == 0 ==> result == WORD_LIMIT - padding - poolHeader
  {}

  lemma RoundedUp(x: nat, align: nat)
    requires align > 0
    ensures 0 < align - x % align <= align && (x + (align - x % align)) % align == 0
  {
    assert x == align * (x / align) + x % align;
    ModOfSum(x / align + 1, align, 0);
    assert x + (align - x % align) == (x / align + 1) * align;
  }

  lemma AlignedSum(a: nat, b: nat, c: nat, align: nat)
    requires align > 0 && a % align == 0 && b % align == 0 && c % align == 0
    ensures (a + b + c) % align == 0
  {
    var q := a / align + b / align + c / align;
    assert a == align * (a / align) && b == align * (b / align) && c == align * (c / align);
    assert a + b + c == q * align;
    ModOfSum(q, align, 0);
  }

  class Heap {
    const header: nat
    /** s_heap_pool_list */
    var pools: seq<HeapPool>
    /** s_alloc_list */
    var allocs: seq<Allocation>
    /** s_free_block_count */
    var freeBlocks: nat
    var mem: Memory

    ghost function Start(a: Allocation): nat
      requires a.pool < |pools|
      reads this`pools
    {
      pools[a.pool].base + BLOCK_SIZE * a.first
    }

    /** What the caller of heap_alloc gets. */
    ghost function Ptr(a: Allocation): nat
      requires a.pool < |pools|
      reads this`pools
    {
      Start(a) + header
    }

    /** Header, data and poison fit into the blocks, which exist. */
    ghost predicate Placed(a: Allocation)
      reads this`pools
    {
      && a.pool < |pools| && a.first + a.blocks <= pools[a.pool].blockCount
      && 0 < a.size && header + a.size + |POISON| <= BLOCK_SIZE * a.blocks
    }

    /** The set bits are exactly the blocks that no allocation has. */
    ghost predicate Marked(i: nat)
      requires i < |pools|
      reads this`pools, this`allocs, pools[i].bitmap.words
    {
      forall k :: 0 <= k < pools[i].blockCount && k < |pools[i].bitmap.View()| ==> (pools[i].bitmap.View()[k] <==> !Taken(allocs, i, k))
    }

    ghost predicate PoolsOk()
      reads this`pools, this`allocs, pools, set i | 0 <= i < |pools| :: pools[i].bitmap.words
    {
      && (forall i :: 0 <= i < |pools| ==> pools[i].Valid() && Marked(i))
      && (forall i, j :: 0 <= i < j < |pools| ==>
            pools[i] != pools[j] && pools[i].bitmap.words != pools[j].bitmap.words && PoolsApart(pools[i], pools[j]))
    }

    ghost predicate AllocsOk()
      reads this`pools, this`allocs, this`mem
    {
      && (forall a :: a in allocs ==> Placed(a) && Poisoned(mem, Ptr(a) + a.size))
      && (forall i, j :: 0 <= i < j < |allocs| ==> Disjoint(allocs[i], allocs[j]))
    }

    ghost predicate Valid()
      reads this, pools, set i | 0 <= i < |pools| :: pools[i].bitmap.words
    {
      header > 0 && PoolsOk() && AllocsOk() && freeBlocks == FreeSum(pools)
    }

    /** The data of a is the same in m and m2. */
    ghost predicate SameIn(m: Memory, m2: Memory, a: Allocation)
      requires a.pool < |pools|
      reads this`pools
    {
      forall x: nat :: Ptr(a) <= x < Ptr(a) + a.size ==> m2(x) == m(x)
    }

    /** Every byte of the data of a is as in m. */
    ghost predicate SameData(m: Memory, a: Allocation)
      requires a.pool < |pools|
      reads this`pools, this`mem
    {
      SameIn(m, mem, a)
    }

    lemma SameThrough(m: Memory, mid: Memory, m2: Memory, a: Allocation)
      requires a.pool < |pools| && SameIn(m, mid, a) && SameIn(mid, m2, a)
      ensures SameIn(m, m2, a)
    {}

    /** Every allocation of `was` but the one at ptr is still there, with the data it has in m. */
    ghost predicate OthersKept(was: seq<Allocation>, m: Memory, ptr: nat)
      reads this`pools, this`allocs, this`mem
    {
      forall a :: a in was ==> a.pool < |pools| && (Ptr(a) != ptr ==> a in allocs && SameData(m, a))
    }

    constructor (alloc_header: nat)
      requires alloc_header > 0
      ensures Valid() && pools == [] && allocs == [] && header == alloc_header
    {
      header, pools, allocs, freeBlocks, mem := alloc_header, [], [], 0, (a: nat) => 0;
    }

    /**
     add_mem: the pool header, its bitmap and its blocks fit into the memory given,
     the bitmap has a bit for every block, the blocks start aligned, and nothing of
     the whole pages of the memory that would hold another block is wasted.
     */
    method AddMem(start: nat, memsize: nat, poolHeader: nat, align: nat)
      requires Valid() && start > 0
      requires PAGE_SIZE <= memsize <= SIZE_MAX && align > 0 && poolHeader + align <= 4088
      requires start % align == 0 && poolHeader % align == 0
      requires forall i :: 0 <= i < |pools| ==>
                 pools[i].base + BLOCK_SIZE * pools[i].blockCount <= start || start + memsize <= pools[i].base
      modifies this`pools, this`freeBlocks
      ensures Valid() && |pools| == |old(pools)| + 1 && pools[..|old(pools)|] == old(pools)
      ensures allocs == old(allocs) && mem == old(mem)
      ensures var p := pools[|old(pools)|];
              && p.used == 0 && freeBlocks == old(freeBlocks) + p.blockCount && p.base % align == 0
              && start + poolHeader + 4 * p.bitmap.words.Length <= p.base && p.base + BLOCK_SIZE * p.blockCount <= start + memsize
              && fresh(p) && fresh(p.bitmap.words)
              && p.base <= start + poolHeader + 8 * (memsize / PAGE_SIZE) + align
              && start + memsize / PAGE_SIZE * PAGE_SIZE < p.base + BLOCK_SIZE * (p.blockCount + 1)
    {
      hide SetCount, FreeSum, Heap.AllocsOk, BlocksFor;
      var wordCount, bitmapSize, poolBlocks := PoolLayout(memsize, poolHeader, align);
      AlignedSum(start, poolHeader, bitmapSize, align);
      var pool := new HeapPool(start + poolHeader + bitmapSize, poolBlocks, wordCount);
      AddPool(pool);
    }

    /** The new pool joins the list. */
    method AddPool(pool: HeapPool)
      requires Valid() && pool.Valid() && pool.used == 0
      requires forall k :: 0 <= k < |pool.bitmap.View()| ==> pool.bitmap.View()[k] == (k < pool.blockCount)
      requires forall i :: 0 <= i < |pools| ==> pools[i] != pool && pools[i].bitmap.words != pool.bitmap.words && PoolsApart(pools[i], pool)
      modifies this`pools, this`freeBlocks
      ensures Valid() && pools == old(pools) + [pool] && freeBlocks == old(freeBlocks) + pool.blockCount
    {
      hide SetCount, FreeSum, HeapPool.Valid, Heap.AllocsOk, Heap.PoolsOk, PoolsApart;
      FreeSumAppend(pools, pool);
      freeBlocks := freeBlocks + pool.blockCount;
      pools := pools + [pool];
      FreeSumSame(pools);
      MorePools(pool);
    }

    /** A new pool with all blocks free keeps pools and allocations in order. */
    twostate lemma MorePools(new pool: HeapPool)
      requires old(PoolsOk()) && old(AllocsOk()) && pools == old(pools) + [pool] && allocs == old(allocs) && mem == old(mem)
      requires forall i :: 0 <= i < |old(pools)| ==> pools[i].used == old(pools[i].used) && pools[i].bitmap.View() == old(pools[i].bitmap.View())
      requires forall i :: 0 <= i < |old(pools)| ==> pools[i] != pool && pools[i].bitmap.words != pool.bitmap.words && PoolsApart(pools[i], pool)
      requires pool.Valid() && forall k :: 0 <= k < |pool.bitmap.View()| ==> pool.bitmap.View()[k] == (k < pool.blockCount)
      ensures PoolsOk() && AllocsOk()
    {
      hide SetCount;
      forall a | a in allocs
        ensures Placed(a) && a.pool < |old(pools)| && Poisoned(mem, Ptr(a) + a.size)
      {
        assert old(Placed(a)) && old(Ptr(a)) == Ptr(a);
      }
      forall i | 0 <= i < |pools|
        ensures pools[i].Valid() && Marked(i)
      {
        assert i < |old(pools)| ==> old(Marked(i)) && old(pools[i].Valid());
      }
    }

    lemma SetMeansFree(i: nat, k: nat)
      requires Valid() && i < |pools| && k < pools[i].blockCount && k < |pools[i].bitmap.View()| && pools[i].bitmap.View()[k]
      ensures !Taken(allocs, i, k)
    {
      assert Marked(i);
    }

    /** A free run is disjoint from every allocation. */
    lemma RunIsFree(i: nat, first: nat, n: nat, b: Allocation)
      requires Valid() && i < |pools| && b in allocs && RunAt(pools[i].bitmap.View(), first, n) && first + n <= pools[i].blockCount && n > 0
      ensures Disjoint(b, Allocation(i, first, n, 1))
    {
      if b.pool == i && !(b.first + b.blocks <= first || first + n <= b.first) {
        var k := if first < b.first then b.first else first;
        assert Placed(b) && Holds(b, i, k);
        SetMeansFree(i, k);
      }
    }

    /** Extents of disjoint allocations do not overlap. */
    lemma ExtentsApart(a: Allocation, b: Allocation)
      requires PoolsOk() && Placed(a) && Placed(b) && Disjoint(a, b)
      ensures Start(a) + BLOCK_SIZE * a.blocks <= Start(b) || Start(b) + BLOCK_SIZE * b.blocks <= Start(a)
    {
      if a.pool != b.pool {
        var i, j := if a.pool < b.pool then a.pool else b.pool, if a.pool < b.pool then b.pool else a.pool;
        assert PoolsApart(pools[i], pools[j]);
      }
    }

    /** The sum that heap_alloc computes for the size does not wrap. */
    ghost predicate Sums(size: nat)
    {
      size + header + |POISON| <= SIZE_MAX
    }

    /** The run of free blocks that is searched for. */
    ghost function RunFor(size: nat): nat
    {
      RunLength(BlocksFor(header, size))
    }

    /** alloc_from_pool.  A size whose sum wraps gets an allocation that does not hold it. */
    method AllocFromPool(i: nat, size: nat) returns (ptr: nat)
      requires Valid() && i < |pools| && 0 < size && header <= SIZE_MAX && size <= SIZE_MAX - header
      modifies this`allocs, this`freeBlocks, this`mem, pools[i], pools[i].bitmap.words
      ensures ptr == 0 || Sums(size) ==> Valid()
      ensures ptr != 0 && !Sums(size) ==> Misfit()
      ensures ptr == 0 <==> forall k :: 0 <= k ==> !RunAt(old(pools[i].bitmap.View()), k, RunFor(size))
      ensures ptr == 0 ==> allocs == old(allocs) && freeBlocks == old(freeBlocks) && mem == old(mem) && pools[i].used == old(pools[i].used) && pools[i].bitmap.View() == old(pools[i].bitmap.View())
      ensures ptr != 0 ==> Appended(old(allocs), i, size, ptr) && AllBytes(mem, ptr, size, 0x90)
      ensures ptr != 0 ==> |allocs| > 0 && allocs[|allocs| - 1].pool == i && FirstRun(old(pools[i].bitmap.View()), allocs[|allocs| - 1].first, RunFor(size))
      ensures ptr == 0 || Sums(size) ==> forall a :: a in old(allocs) ==> a.pool < |pools| && SameData(old(mem), a)
    {
      hide SetCount, FreeSum, Fill, WritePoison, AllBytes, Filled, RunAt, Heap.Marked, Heap.AllocsOk, HeapPool.Valid, BlocksFor, RunLength;
      var n := BlocksFor(header, size);
      EnoughBlocksExactly(header, size);
      PositiveRun(n);
      if Sums(size) {
        RunsAreFree(i, n);
      }
      PoolBase(i);
      var r := pools[i].TakeRun(n);
      assert RunFor(size) == RunLength(n);
      assert r != -1 ==> 0 <= r && RunAt(old(pools[i].bitmap.View()), r, RunFor(size));
      assert r == -1 ==> forall k :: 0 <= k ==> !RunAt(old(pools[i].bitmap.View()), k, RunFor(size));
      assert forall j :: 0 <= j < |pools| && j != i ==> pools[j].bitmap.words != pools[i].bitmap.words;
      AllocsPlaced();
      if r == -1 {
        PoolsUntouched(i);
        FreeSumShifted(pools, i, 0);
        return 0;
      }
      var a := Allocation(i, r, n, size);
      ptr := pools[i].base + BLOCK_SIZE * r + header;
      FreeSumShifted(pools, i, n);
      FreeSumAtLeast(i);
      allocs := allocs + [a];
      freeBlocks := freeBlocks - n;
      mem := WritePoison(Fill(mem, ptr, size, 0x90), ptr + size);
      FreshBytes(old(mem), ptr, size);
      if Sums(size) {
        PoolsAfterTake(i, a);
        AllocsAfterTake(a);
      } else {
        assert a in allocs && !Placed(a);
      }
    }

    lemma PositiveRun(n: nat)
      ensures n > 0 ==> RunLength(n) == n
    {}

    /** Some allocation does not fit its blocks, so the heap is not in order. */
    ghost predicate Misfit()
      reads this`pools, this`allocs
    {
      exists a :: a in allocs && !Placed(a)
    }

    lemma MisfitMeans()
      requires Misfit()
      ensures !Valid()
    {}

    /** The counter never goes below zero. */
    lemma FreeSumAtLeast(i: nat)
      requires forall j :: 0 <= j < |pools| ==> pools[j].Valid()
      ensures FreeSum(pools) >= 0
    {
      hide SetCount, FreeSum;
      FreeSumNatural(pools);
    }

    lemma PoolBase(i: nat)
      requires PoolsOk() && i < |pools|
      ensures pools[i].base > 0
    {}

    lemma RunsAreFree(i: nat, n: nat)
      requires Valid() && i < |pools| && n > 0
      ensures forall first: nat, b :: RunAt(pools[i].bitmap.View(), first, n) && first + n <= pools[i].blockCount && b in allocs ==>
                Disjoint(b, Allocation(i, first, n, 1))
    {
      forall first: nat, b | RunAt(pools[i].bitmap.View(), first, n) && first + n <= pools[i].blockCount && b in allocs
        ensures Disjoint(b, Allocation(i, first, n, 1))
      {
        RunIsFree(i, first, n, b);
      }
    }

    lemma AllocsPlaced()
      requires AllocsOk()
      ensures forall a :: a in allocs ==> Placed(a)
    {}

    twostate lemma PoolsUntouched(new i: nat)
      requires old(PoolsOk()) && pools == old(pools) && i < |pools| && allocs == old(allocs)
      requires forall j :: 0 <= j < |pools| ==> pools[j].used == old(pools[j].used) && pools[j].bitmap.View() == old(pools[j].bitmap.View())
      ensures PoolsOk()
    {
      hide SetCount;
      forall j | 0 <= j < |pools|
        ensures pools[j].Valid() && Marked(j)
      {
        assert old(pools[j].Valid()) && old(Marked(j));
      }
    }

    /** Claiming a run for a new allocation keeps the pools in order. */
    twostate lemma PoolsAfterTake(new i: nat, new a: Allocation)
      requires old(PoolsOk()) && pools == old(pools) && i < |pools| && a.pool == i && allocs == old(allocs) + [a]
      requires pools[i].Valid() && pools[i].bitmap.View() == Filled(old(pools[i].bitmap.View()), a.first, a.blocks, false)
      requires forall j :: 0 <= j < |pools| && j != i ==> pools[j].used == old(pools[j].used) && pools[j].bitmap.View() == old(pools[j].bitmap.View())
      ensures PoolsOk()
    {
      hide SetCount;
      forall k: nat, j: nat
        ensures Taken(allocs, j, k) <==> Taken(old(allocs), j, k) || Holds(a, j, k)
      {
        assert a in allocs;
      }
      FilledAt(old(pools[i].bitmap.View()), a.first, a.blocks, false);
      forall j | 0 <= j < |pools|
        ensures pools[j].Valid() && Marked(j)
      {
        assert old(pools[j].Valid()) && old(Marked(j));
      }
    }

    /** The bytes written for a new allocation are its own. */
    twostate lemma AllocsAfterTake(new a: Allocation)
      requires old(AllocsOk()) && PoolsOk() && pools == old(pools) && allocs == old(allocs) + [a] && Placed(a)
      requires forall b :: b in old(allocs) ==> Disjoint(b, a)
      requires mem == WritePoison(Fill(old(mem), Ptr(a), a.size, 0x90), Ptr(a) + a.size)
      ensures AllocsOk() && forall b :: b in old(allocs) ==> b.pool < |pools| && SameData(old(mem), b)
    {
      hide Heap.PoolsOk;
      forall b | b in old(allocs)
        ensures Placed(b) && Poisoned(mem, Ptr(b) + b.size) && SameData(old(mem), b)
      {
        assert Placed(b) && old(Poisoned(mem, Ptr(b) + b.size));
        ExtentsApart(a, b);
      }
    }

    ghost predicate Appended(was: seq<Allocation>, i: nat, size: nat, ptr: nat)
      reads this`pools, this`allocs
    {
      && |allocs| == |was| + 1 && allocs[..|was|] == was
      && var a := allocs[|was|];
         a.pool == i < |pools| && a.size == size && a.blocks == BlocksFor(header, size) && Ptr(a) == ptr
    }

    /** Some pool has a long enough run of free blocks. */
    ghost predicate RunSomewhere(n: nat)
      reads this`pools, pools, set i | 0 <= i < |pools| :: pools[i].bitmap.words
    {
      exists i, k :: 0 <= i < |pools| && 0 <= k && RunAt(pools[i].bitmap.View(), k, n)
    }

    /** The newest allocation has the first run of n free blocks in the first pool that had one. */
    twostate predicate ServedFirst(n: nat)
      reads this
    {
      allocs != [] && pools == old(pools) &&
      var a := allocs[|allocs| - 1];
      && a.pool < |pools| && FirstRun(old(pools[a.pool].bitmap.View()), a.first, n)
      && forall j, k :: 0 <= j < a.pool && 0 <= k ==> !RunAt(old(pools[j].bitmap.View()), k, n)
    }

    /** The loop of heap_alloc: the first pool with room serves the request. */
    method AllocFromPools(size: nat) returns (ptr: nat)
      requires Valid() && 0 < size && header <= SIZE_MAX && size <= SIZE_MAX - header
      modifies this`allocs, this`freeBlocks, this`mem, pools, set i | 0 <= i < |pools| :: pools[i].bitmap.words
      ensures ptr == 0 || Sums(size) ==> Valid()
      ensures ptr != 0 && !Sums(size) ==> Misfit()
      ensures ptr == 0 <==> !old(RunSomewhere(RunFor(size)))
      ensures ptr == 0 ==> allocs == old(allocs) && freeBlocks == old(freeBlocks) && mem == old(mem)
      ensures ptr != 0 ==> (exists i :: Appended(old(allocs), i, size, ptr)) && AllBytes(mem, ptr, size, 0x90)
      ensures ptr != 0 ==> ServedFirst(RunFor(size))
      ensures ptr == 0 || Sums(size) ==> forall a :: a in old(allocs) ==> a.pool < |pools| && SameData(old(mem), a)
    {
      hide SetCount, FreeSum, RunAt, Heap.Marked, Heap.PoolsOk, HeapPool.Valid, BlocksFor, Heap.Appended, Heap.Sums;
      AllocsPlaced();
      hide Heap.AllocsOk;
      ghost var n := RunFor(size);
      for i := 0 to |pools|
        invariant Valid() && allocs == old(allocs) && freeBlocks == old(freeBlocks) && mem == old(mem)
        invariant forall j :: 0 <= j < |pools| ==> pools[j].bitmap.View() == old(pools[j].bitmap.View())
        invariant forall j, k :: 0 <= j < i && 0 <= k ==> !RunAt(old(pools[j].bitmap.View()), k, n)
      {
        WordsApart();
        ptr := AllocFromPool(i, size);
        if ptr != 0 {
          return;
        }
      }
      return 0;
    }

    lemma WordsApart()
      requires PoolsOk()
      ensures forall i, j :: 0 <= i < |pools| && 0 <= j < |pools| && i != j ==> pools[i] != pools[j] && pools[i].bitmap.words != pools[j].bitmap.words
    {
      forall i, j | 0 <= i < |pools| && 0 <= j < |pools| && i != j
        ensures pools[i] != pools[j] && pools[i].bitmap.words != pools[j].bitmap.words
      {
        assert i < j || j < i;
      }
    }

    /**
     heap_alloc; address 0 is failure.  A size that passes the overflow check although
     its sum with header and poison wraps succeeds if a single block is free, with an
     allocation of no block or one (see EnoughBlocksExactly), and ruins the heap.
     With the zero flag a failing call clears bytes from address 0 on.
     */
    method Alloc(size: nat, zero: bool) returns (ptr: nat)
      requires Valid() && header <= SIZE_MAX
      modifies this`allocs, this`freeBlocks, this`mem, pools, set i | 0 <= i < |pools| :: pools[i].bitmap.words
      ensures ptr == 0 <==> size == 0 || SIZE_MAX - header < size || old(freeBlocks) <= BlocksFor(header, size) || !old(RunSomewhere(RunFor(size)))
      ensures ptr == 0 ==> allocs == old(allocs) && freeBlocks == old(freeBlocks)
      ensures ptr == 0 && !(zero && 0 < size <= SIZE_MAX - header) ==> mem == old(mem)
      // it is the first run in the first pool that has one
      ensures ptr != 0 ==> exists i :: Appended(old(allocs), i, size, ptr)
      ensures ptr != 0 ==> ServedFirst(RunFor(size))
      ensures ptr != 0 && Sums(size) ==> forall a :: a in old(allocs) ==> a.pool < |pools| && SameData(old(mem), a)
      ensures ptr != 0 && !Sums(size) ==> Misfit()
      ensures ptr != 0 && !zero ==> AllBytes(mem, ptr, size, 0x90)
      ensures ptr != 0 && zero ==> AllBytes(mem, ptr, size, 0)
      ensures ptr == 0 && zero && 0 < size <= SIZE_MAX - header ==> OnlyWithin(old(mem), mem, 0, size) && AllBytes(mem, 0, size, 0)
      ensures (ptr == 0 && zero ==> forall i :: 0 <= i < |pools| ==> size <= pools[i].base) && (ptr != 0 ==> Sums(size)) ==> Valid()
    {
      hide SetCount, FreeSum, RunAt, Heap.Marked, Heap.PoolsOk, HeapPool.Valid, Heap.AllocsOk, BlocksFor, Fill, Heap.RunSomewhere, Heap.RunFor, Heap.Sums, AllBytes;
      var n := BlocksFor(header, size);
      if size == 0 {
        return 0;
      }
      if SIZE_MAX - header < size {
        return 0;
      }
      ptr := 0;
      if n < freeBlocks {
        ptr := AllocFromPools(size);
      }
      if zero {
        label Before:
        if ptr != 0 {
          ghost var i :| Appended(old(allocs), i, size, ptr);
          mem := Fill(mem, ptr, size, 0);
          FilledBytes(old@Before(mem), ptr, size, 0);
          if Sums(size) {
            WrittenInside@Before(allocs[|allocs| - 1]);
          }
          assert Appended(old(allocs), i, size, ptr);
        } else {
          mem := Fill(mem, ptr, size, 0);
          FilledBytes(old@Before(mem), ptr, size, 0);
          ClearedNowhere@Before(size);
        }
      }
    }

    /** Writing inside the data of the last allocation concerns no other one. */
    twostate lemma WrittenInside(new a: Allocation)
      requires old(AllocsOk()) && PoolsOk() && pools == old(pools) && allocs == old(allocs) && allocs != [] && a == allocs[|allocs| - 1] && a.pool < |pools|
      requires OnlyWithin(old(mem), mem, Ptr(a), a.size)
      ensures AllocsOk()
      ensures forall b :: b in allocs[..|allocs| - 1] ==> b.pool < |pools| && SameData(old(mem), b)
    {
      hide Heap.PoolsOk, Poisoned, OnlyWithin, Heap.SameData, Heap.SameIn;
      var last := |allocs| - 1;
      assert a in allocs;
      forall j | 0 <= j < |allocs|
        ensures Placed(allocs[j]) && Poisoned(mem, Ptr(allocs[j]) + allocs[j].size) && (j < last ==> SameData(old(mem), allocs[j]))
      {
        var b := allocs[j];
        assert b in allocs;
        if j < last {
          assert Disjoint(b, a);
          ExtentsApart(b, a);
          DataKept(a, b);
        }
        PoisonKept(old(mem), mem, Ptr(a), a.size, Ptr(b) + b.size);
      }
    }

    twostate lemma DataKept(new a: Allocation, new b: Allocation)
      requires a.pool < |pools| && b.pool < |pools| && OnlyWithin(old(mem), mem, Ptr(a), a.size)
      requires Ptr(a) + a.size <= Ptr(b) || Ptr(b) + b.size <= Ptr(a)
      ensures SameData(old(mem), b)
    {}

    twostate lemma ClearedNowhere(new size: nat)
      requires old(AllocsOk()) && PoolsOk() && pools == old(pools) && allocs == old(allocs)
      requires mem == Fill(old(mem), 0, size, 0)
      ensures (forall i :: 0 <= i < |pools| ==> size <= pools[i].base) ==> AllocsOk()
    {
      if forall i :: 0 <= i < |pools| ==> size <= pools[i].base {
        forall b | b in allocs
          ensures Placed(b) && Poisoned(mem, Ptr(b) + b.size)
        {
          assert Placed(b) && old(Poisoned(mem, Ptr(b) + b.size));
        }
      }
    }

    /** The pointer is one that heap_alloc handed out and that was not released since. */
    ghost predicate IsLive(ptr: nat)
      reads this`pools, this`allocs
    {
      exists k :: 0 <= k < |allocs| && allocs[k].pool < |pools| && Ptr(allocs[k]) == ptr
    }

    /** An allocation of this size is live at ptr. */
    ghost predicate LiveWithSize(ptr: nat, size: nat)
      reads this`pools, this`allocs
    {
      exists k :: 0 <= k < |allocs| && allocs[k].pool < |pools| && Ptr(allocs[k]) == ptr && allocs[k].size == size
    }

    /** alloc_header_of: the header in front of a live pointer. */
    method HeaderOf(ptr: nat) returns (k: nat)
      requires Valid() && IsLive(ptr)
      ensures k < |allocs| && Placed(allocs[k]) && Ptr(allocs[k]) == ptr
    {
      hide Heap.PoolsOk, FreeSum;
      assert forall j :: 0 <= j < |allocs| ==> Placed(allocs[j]) by {
        assert forall j :: 0 <= j < |allocs| ==> allocs[j] in allocs;
      }
      k := 0;
      while k < |allocs| && pools[allocs[k].pool].base + BLOCK_SIZE * allocs[k].first + header != ptr
        invariant 0 <= k <= |allocs|
        invariant forall j :: 0 <= j < k ==> Ptr(allocs[j]) != ptr
      {
        k := k + 1;
      }
    }

    /** heap_free: exactly the blocks of the allocation become free; `false` would be the panic. */
    method Free(ptr: nat) returns (ok: bool)
      requires Valid() && (ptr == 0 || IsLive(ptr))
      modifies this`allocs, this`freeBlocks, this`mem, pools, set i | 0 <= i < |pools| :: pools[i].bitmap.words
      ensures ok && Valid()
      ensures ptr == 0 ==> allocs == old(allocs) && mem == old(mem) && freeBlocks == old(freeBlocks)
      ensures ptr != 0 ==> exists k :: Removed(old(allocs), k, ptr)
      ensures ptr != 0 ==> forall b :: b in allocs ==> b.pool < |pools| && SameData(old(mem), b)
    {
      if ptr == 0 {
        return true;
      }
      hide SetCount, FreeSum, Heap.Marked, HeapPool.Valid, Heap.PoolsOk, Heap.AllocsOk, Heap.IsLive, Filled, Fill;
      var k := HeaderOf(ptr);
      var a := allocs[k];
      OwnBlocks(k);
      WordsApart();
      var pool := pools[a.pool];
      var poolStart, poolEnd := pool.base, pool.base + pool.blockCount * BLOCK_SIZE;
      var start := ptr - header;
      if ptr < poolStart || poolEnd <= ptr {
        return false;
      }
      if start + a.blocks * BLOCK_SIZE <= poolStart || poolEnd < start + a.blocks * BLOCK_SIZE {
        return false;
      }
      if pool.used < a.blocks {
        return false;
      }
      var blockIndex := (start - poolStart) / BLOCK_SIZE;
      Release(k, blockIndex);
      return true;
    }

    /** The release at the end of heap_free. */
    method Release(k: nat, blockIndex: nat)
      requires Valid() && k < |allocs| && Placed(allocs[k]) && blockIndex == allocs[k].first
      modifies this`allocs, this`freeBlocks, this`mem, pools, set i | 0 <= i < |pools| :: pools[i].bitmap.words
      ensures Valid() && Removed(old(allocs), k, old(Ptr(allocs[k])))
      ensures freeBlocks == old(freeBlocks) + old(allocs)[k].blocks
      ensures forall b :: b in allocs ==> b.pool < |pools| && SameData(old(mem), b)
    {
      hide SetCount, FreeSum, Heap.Marked, HeapPool.Valid, Heap.PoolsOk, Heap.AllocsOk, Filled, Fill, AllBytes, Heap.SameData, Heap.SameIn;
      var a := allocs[k];
      OwnBlocks(k);
      WordsApart();
      allocs := allocs[..k] + allocs[k + 1..];
      pools[a.pool].GiveRun(blockIndex, a.blocks);
      freeBlocks := freeBlocks + a.blocks;
      mem := Fill(mem, pools[a.pool].base + BLOCK_SIZE * a.first, a.blocks * BLOCK_SIZE, 0x6f);
      FilledBytes(old(mem), Start(a), a.blocks * BLOCK_SIZE, 0x6f);
      FreeSumShifted(pools, a.pool, 0 - a.blocks);
      PoolsAfterGive(k, a);
      AllocsAfterGive(k, a);
    }

    /** The k-th allocation is gone and its blocks have the release pattern. */
    ghost predicate Removed(was: seq<Allocation>, k: nat, ptr: nat)
      reads this`pools, this`allocs, this`mem
    {
      && k < |was| && was[k].pool < |pools| && Ptr(was[k]) == ptr && allocs == was[..k] + was[k + 1..]
      && AllBytes(mem, Start(was[k]), was[k].blocks * BLOCK_SIZE, 0x6f)
    }

    /**
     heap_realloc: on success the new allocation starts with the bytes of the old one,
     which is released; on failure the old one stays.
     */
    method Realloc(ptr: nat, newsize: nat, zero: bool) returns (newmem: nat, ghost copied: nat)
      requires Valid() && (ptr == 0 || IsLive(ptr))
      requires header <= SIZE_MAX && (newsize + header + |POISON| <= SIZE_MAX || SIZE_MAX - header < newsize)
      modifies this`allocs, this`freeBlocks, this`mem, pools, set i | 0 <= i < |pools| :: pools[i].bitmap.words
      ensures if ptr == 0 then copied == 0 else exists k ::
                0 <= k < |old(allocs)| && old(allocs)[k].pool < |pools| && Ptr(old(allocs)[k]) == ptr
                && copied == if newsize < old(allocs)[k].size then newsize else old(allocs)[k].size
      ensures newmem == 0 ==> allocs == old(allocs) && freeBlocks == old(freeBlocks)
      ensures newmem == 0 && !zero ==> Valid() && mem == old(mem)
      ensures (newmem == 0 && zero ==> forall i :: 0 <= i < |pools| ==> newsize <= pools[i].base) ==> Valid()
      ensures newmem != 0 ==> LiveWithSize(newmem, newsize)
      ensures newmem != 0 ==> Valid() && IsLive(newmem) && !IsLive(ptr) && OthersKept(old(allocs), old(mem), ptr)
      ensures newmem != 0 ==> forall x: nat :: newmem <= x < newmem + copied ==> mem(x) == old(mem)(ptr + (x - newmem))
    {
      hide SetCount, FreeSum, RunAt, Heap.Marked, Heap.PoolsOk, HeapPool.Valid, Heap.AllocsOk, BlocksFor, Fill, Copy, Heap.RunSomewhere;
      if ptr == 0 {
        copied := 0;
        newmem := Alloc(newsize, zero);
        if newmem != 0 {
          NullIsDead();
          assert allocs[|allocs| - 1].size == newsize;
        }
      } else {
        newmem, copied := ReallocLive(ptr, newsize, zero);
      }
    }

    method ReallocLive(ptr: nat, newsize: nat, zero: bool) returns (newmem: nat, ghost copied: nat)
      requires Valid() && IsLive(ptr)
      requires header <= SIZE_MAX && (newsize + header + |POISON| <= SIZE_MAX || SIZE_MAX - header < newsize)
      modifies this`allocs, this`freeBlocks, this`mem, pools, set i | 0 <= i < |pools| :: pools[i].bitmap.words
      ensures exists k ::
                0 <= k < |old(allocs)| && old(allocs)[k].pool < |pools| && Ptr(old(allocs)[k]) == ptr
                && copied == if newsize < old(allocs)[k].size then newsize else old(allocs)[k].size
      ensures newmem == 0 ==> allocs == old(allocs) && freeBlocks == old(freeBlocks)
      ensures newmem == 0 && !zero ==> Valid() && mem == old(mem)
      ensures (newmem == 0 && zero ==> forall i :: 0 <= i < |pools| ==> newsize <= pools[i].base) ==> Valid()
      ensures newmem != 0 ==> LiveWithSize(newmem, newsize)
      ensures newmem != 0 ==> Valid() && IsLive(newmem) && !IsLive(ptr) && OthersKept(old(allocs), old(mem), ptr)
      ensures newmem != 0 ==> forall x: nat :: newmem <= x < newmem + copied ==> mem(x) == old(mem)(ptr + (x - newmem))
    {
      hide SetCount, FreeSum, RunAt, Heap.Marked, Heap.PoolsOk, HeapPool.Valid, Heap.AllocsOk, BlocksFor, Fill, Copy, Heap.RunSomewhere, Heap.RunFor, Heap.IsLive, Heap.SameIn, Heap.OthersKept, AllBytes, OnlyWithin;
      var k := HeaderOf(ptr);
      var a := allocs[k];
      var copysize := if newsize < a.size then newsize else a.size;
      copied := copysize;
      newmem := Alloc(newsize, zero);
      if newmem == 0 {
        return;
      }
      ghost var mid := mem;
      NewestAllocation(old(allocs), k, newsize, newmem);
      hide Heap.Appended, Heap.Placed;
      MoveTo(k, ptr, newmem, copysize);
      KeptBoth(old(allocs), k, old(mem), mid, ptr, newmem, copysize);
    }

    lemma NewestAllocation(was: seq<Allocation>, k: nat, size: nat, newmem: nat)
      requires AllocsOk() && k < |was| && exists i :: Appended(was, i, size, newmem)
      ensures |allocs| == |was| + 1 && allocs[..|was|] == was && allocs[k] == was[k] && Placed(allocs[k])
      ensures var b := allocs[|was|]; Placed(b) && Ptr(b) == newmem && b.size == size
    {
      assert allocs[k] in allocs && allocs[|was|] in allocs;
    }

    /** The data that survived the allocation and then the move. */
    lemma KeptBoth(was: seq<Allocation>, k: nat, m: Memory, mid: Memory, ptr: nat, newmem: nat, copysize: nat)
      requires k < |was| && was[k].pool < |pools| && Ptr(was[k]) == ptr && copysize <= was[k].size
      requires forall c :: c in was ==> c.pool < |pools| && SameIn(m, mid, c)
      requires OthersKept(was, mid, ptr)
      requires forall x: nat :: newmem <= x < newmem + copysize ==> mem(x) == mid(ptr + (x - newmem))
      ensures OthersKept(was, m, ptr)
      ensures forall x: nat :: newmem <= x < newmem + copysize ==> mem(x) == m(ptr + (x - newmem))
    {
      hide Heap.SameIn;
      assert was[k] in was;
      DataAt(m, mid, was[k], copysize);
      forall c | c in was && Ptr(c) != ptr
        ensures c in allocs && SameData(m, c)
      {
        SameThrough(m, mid, mem, c);
      }
    }

    lemma DataAt(m: Memory, m2: Memory, a: Allocation, n: nat)
      requires a.pool < |pools| && SameIn(m, m2, a) && n <= a.size
      ensures forall x: nat :: Ptr(a) <= x < Ptr(a) + n ==> m2(x) == m(x)
    {}

    /** The end of heap_realloc: copy to the newest allocation and release the old one. */
    method MoveTo(k: nat, ptr: nat, newmem: nat, copysize: nat)
      requires Valid() && k < |allocs| - 1 && Placed(allocs[k]) && Ptr(allocs[k]) == ptr && copysize <= allocs[k].size
      requires var b := allocs[|allocs| - 1]; Placed(b) && Ptr(b) == newmem && copysize <= b.size
      modifies this`allocs, this`freeBlocks, this`mem, pools, set i | 0 <= i < |pools| :: pools[i].bitmap.words
      ensures Valid() && IsLive(newmem) && !IsLive(ptr) && OthersKept(old(allocs)[..|old(allocs)| - 1], old(mem), ptr)
      ensures LiveWithSize(newmem, old(allocs)[|old(allocs)| - 1].size)
      ensures forall x: nat :: newmem <= x < newmem + copysize ==> mem(x) == old(mem)(ptr + (x - newmem))
    {
      hide SetCount, FreeSum, Heap.PoolsOk, Heap.AllocsOk, Heap.Removed, Heap.AllPtrsDistinct, Heap.SameIn, Heap.OthersKept;
      PtrsDistinct();
      LiveAt(k);
      hide Heap.IsLive;
      CopyInto(k, newmem, copysize);
      ghost var was, mid := allocs, mem;
      var ok := Free(ptr);
      EndOfMove(was, k, old(mem), mid, ptr, newmem, copysize);
    }

    lemma LiveAt(k: nat)
      requires k < |allocs| && allocs[k].pool < |pools|
      ensures IsLive(Ptr(allocs[k]))
    {}

    /** What copying and releasing come to. */
    lemma EndOfMove(was: seq<Allocation>, k: nat, m: Memory, mid: Memory, ptr: nat, newmem: nat, copysize: nat)
      requires AllPtrsDistinct(was) && k < |was| - 1 && was[k].pool < |pools| && was[|was| - 1].pool < |pools|
      requires Ptr(was[k]) == ptr && Ptr(was[|was| - 1]) == newmem && copysize <= was[|was| - 1].size
      requires forall a :: a in was[..|was| - 1] ==> a.pool < |pools| && SameIn(m, mid, a)
      requires forall x: nat :: newmem <= x < newmem + copysize ==> mid(x) == m(ptr + (x - newmem))
      requires forall a :: a in allocs ==> a.pool < |pools| && SameIn(mid, mem, a)
      requires exists gone :: Removed(was, gone, ptr)
      ensures IsLive(newmem) && !IsLive(ptr) && OthersKept(was[..|was| - 1], m, ptr) && LiveWithSize(newmem, was[|was| - 1].size)
      ensures forall x: nat :: newmem <= x < newmem + copysize ==> mem(x) == m(ptr + (x - newmem))
    {
      hide Heap.SameIn, Heap.IsLive, Heap.OthersKept, Heap.Removed, Heap.LiveWithSize;
      var last := |was| - 1;
      assert Ptr(was[k]) != Ptr(was[last]);
      var gone :| Removed(was, gone, ptr);
      AfterRemoval(was, gone, ptr);
      hide Heap.AllPtrsDistinct;
      StillThere(was[last]);
      DataAt(mid, mem, was[last], copysize);
      KeptThrough(was[..last], m, mid, ptr);
    }

    lemma StillThere(a: Allocation)
      requires a in allocs && a.pool < |pools|
      ensures LiveWithSize(Ptr(a), a.size)
    {
      var at :| 0 <= at < |allocs| && allocs[at] == a;
    }

    lemma KeptThrough(rest: seq<Allocation>, m: Memory, mid: Memory, ptr: nat)
      requires forall a :: a in rest ==> a.pool < |pools| && SameIn(m, mid, a)
      requires forall a :: a in rest && Ptr(a) != ptr ==> a in allocs && SameIn(mid, mem, a)
      ensures OthersKept(rest, m, ptr)
    {
      hide Heap.SameIn;
      forall a | a in rest && Ptr(a) != ptr
        ensures SameData(m, a)
      {
        SameThrough(m, mid, mem, a);
      }
    }

    /** The copy of heap_realloc into the newest allocation. */
    method CopyInto(k: nat, newmem: nat, copysize: nat)
      requires Valid() && k < |allocs| - 1 && Placed(allocs[k]) && copysize <= allocs[k].size
      requires var b := allocs[|allocs| - 1]; Placed(b) && Ptr(b) == newmem && copysize <= b.size
      modifies this`mem
      ensures Valid()
      ensures forall a :: a in allocs[..|allocs| - 1] ==> a.pool < |pools| && SameData(old(mem), a)
      ensures forall x: nat :: newmem <= x < newmem + copysize ==> mem(x) == old(mem)(Ptr(allocs[k]) + (x - newmem))
    {
      hide SetCount, FreeSum, Heap.PoolsOk, Heap.AllocsOk, Copy, OnlyWithin, Heap.SameIn;
      ghost var b := allocs[|allocs| - 1];
      assert b.pool < |pools| && allocs[k].pool < |pools|;
      hide Heap.Placed;
      var from := pools[allocs[k].pool].base + BLOCK_SIZE * allocs[k].first + header;
      assert from == Ptr(allocs[k]);
      hide Heap.Ptr;
      mem := Copy(mem, newmem, from, copysize);
      CopyWithin(old(mem), newmem, from, copysize, b.size);
      WrittenInside(b);
    }

    lemma NullIsDead()
      requires Valid()
      ensures !IsLive(0)
    {}

    ghost predicate AllPtrsDistinct(s: seq<Allocation>)
      reads this`pools
    {
      && (forall j :: 0 <= j < |s| ==> s[j].pool < |pools|)
      && (forall j, k :: 0 <= j < k < |s| ==> Ptr(s[j]) != Ptr(s[k]))
    }

    lemma PtrsDistinct()
      requires Valid()
      ensures AllPtrsDistinct(allocs)
    {
      forall j | 0 <= j < |allocs|
        ensures Placed(allocs[j])
      {
        assert allocs[j] in allocs;
      }
      forall j, k | 0 <= j < k < |allocs|
        ensures Ptr(allocs[j]) != Ptr(allocs[k])
      {
        LiveApart(j, k);
      }
    }

    /** After a removal the pointer is dead and every other allocation is still there. */
    lemma AfterRemoval(was: seq<Allocation>, gone: nat, ptr: nat)
      requires AllPtrsDistinct(was) && Removed(was, gone, ptr)
      ensures !IsLive(ptr)
      ensures forall m :: 0 <= m < |was| && Ptr(was[m]) != ptr ==> was[m] in allocs && IsLive(Ptr(was[m]))
    {
      assert forall i :: 0 <= i < |allocs| ==> allocs[i] == was[if gone <= i then i + 1 else i];
      forall m | 0 <= m < |was| && Ptr(was[m]) != ptr
        ensures was[m] in allocs && IsLive(Ptr(was[m]))
      {
        assert allocs[if m < gone then m else m - 1] == was[m];
      }
    }

    /** Two allocations that are live have different extents. */
    lemma LiveApart(j: nat, k: nat)
      requires Valid() && j < k < |allocs|
      ensures var a, b := allocs[j], allocs[k];
              Placed(a) && Placed(b) && (Start(a) + BLOCK_SIZE * a.blocks <= Start(b) || Start(b) + BLOCK_SIZE * b.blocks <= Start(a))
    {
      assert allocs[j] in allocs && allocs[k] in allocs;
      ExtentsApart(allocs[j], allocs[k]);
    }

    /** The blocks of an allocation are clear and counted as used. */
    lemma OwnBlocks(k: nat)
      requires Valid() && k < |allocs|
      ensures var a := allocs[k];
              && Placed(a) && a.first + a.blocks <= |pools[a.pool].bitmap.View()| && pools[a.pool].Valid()
              && (forall i :: a.first <= i < a.first + a.blocks ==> !pools[a.pool].bitmap.View()[i])
              && a.blocks <= pools[a.pool].used
    {
      hide SetCount, FreeSum;
      var a := allocs[k];
      assert a in allocs && Placed(a) && Marked(a.pool);
      forall i | a.first <= i < a.first + a.blocks
        ensures !pools[a.pool].bitmap.View()[i]
      {
        assert Holds(a, a.pool, i);
      }
      var v := pools[a.pool].bitmap.View();
      CountFilled(v, a.first, a.blocks, true);
      CountBound(Filled(v, a.first, a.blocks, true), pools[a.pool].blockCount);
    }

    /** Releasing the blocks of an allocation keeps the pools in order. */
    twostate lemma PoolsAfterGive(new k: nat, new a: Allocation)
      requires old(Valid()) && pools == old(pools) && k < |old(allocs)| && old(allocs)[k] == a && a.pool < |pools|
      requires allocs == old(allocs)[..k] + old(allocs)[k + 1..]
      requires pools[a.pool].Valid() && pools[a.pool].bitmap.View() == Filled(old(pools[a.pool].bitmap.View()), a.first, a.blocks, true)
      requires forall j :: 0 <= j < |pools| && j != a.pool ==> pools[j].used == old(pools[j].used) && pools[j].bitmap.View() == old(pools[j].bitmap.View())
      ensures PoolsOk()
    {
      hide SetCount, FreeSum;
      var was := old(allocs);
      forall i: nat, x: nat
        ensures Taken(allocs, i, x) <==> Taken(was, i, x) && !Holds(a, i, x)
      {
        TakenWithout(was, k, i, x);
      }
      FilledAt(old(pools[a.pool].bitmap.View()), a.first, a.blocks, true);
      forall j | 0 <= j < |pools|
        ensures pools[j].Valid() && Marked(j)
      {
        assert old(pools[j].Valid()) && old(Marked(j));
      }
    }

    /** The released bytes are those of the allocation alone. */
    twostate lemma AllocsAfterGive(new k: nat, new a: Allocation)
      requires old(AllocsOk()) && PoolsOk() && pools == old(pools) && k < |old(allocs)| && old(allocs)[k] == a && a.pool < |pools|
      requires allocs == old(allocs)[..k] + old(allocs)[k + 1..]
      requires mem == Fill(old(mem), Start(a), a.blocks * BLOCK_SIZE, 0x6f)
      ensures AllocsOk() && forall b :: b in allocs ==> b.pool < |pools| && SameData(old(mem), b)
    {
      hide Heap.PoolsOk, Fill, Poisoned, Heap.SameData, Heap.SameIn;
      var was := old(allocs);
      assert a in was && Placed(a);
      assert forall i :: 0 <= i < |allocs| ==> allocs[i] == was[if k <= i then i + 1 else i];
      forall i | 0 <= i < |allocs|
        ensures Placed(allocs[i]) && Poisoned(mem, Ptr(allocs[i]) + allocs[i].size) && SameData(old(mem), allocs[i])
      {
        var j := if k <= i then i + 1 else i;
        assert was[j] in was;
        PairDisjoint(was, j, k);
        ByteKept(a, was[j]);
      }
    }

    /** Filling the blocks of a leaves b alone. */
    twostate lemma ByteKept(new a: Allocation, new b: Allocation)
      requires PoolsOk() && pools == old(pools) && Placed(a) && Placed(b) && Disjoint(b, a)
      requires mem == Fill(old(mem), Start(a), a.blocks * BLOCK_SIZE, 0x6f) && Poisoned(old(mem), Ptr(b) + b.size)
      ensures Poisoned(mem, Ptr(b) + b.size) && SameData(old(mem), b)
    {
      hide Heap.PoolsOk;
      ExtentsApart(a, b);
    }
  }

  lemma PairDisjoint(s: seq<Allocation>, j: nat, k: nat)
    requires j < |s| && k < |s| && j != k && forall i, j :: 0 <= i < j < |s| ==> Disjoint(s[i], s[j])
    ensures Disjoint(s[j], s[k])
  {
    assert Disjoint(s[if j < k then j else k], s[if j < k then k else j]);
  }

  /** Without the k-th of disjoint allocations, exactly its blocks are no longer taken. */
  lemma TakenWithout(was: seq<Allocation>, k: nat, i: nat, x: nat)
    requires k < |was| && forall i, j :: 0 <= i < j < |was| ==> Disjoint(was[i], was[j])
    ensures Taken(was[..k] + was[k + 1..], i, x) <==> Taken(was, i, x) && !Holds(was[k], i, x)
  {
    var now := was[..k] + was[k + 1..];
    if Taken(now, i, x) {
      StillTaken(was, k, i, x);
    }
    if Taken(was, i, x) && !Holds(was[k], i, x) {
      var b :| b in was && Holds(b, i, x);
      var n :| 0 <= n < |was| && was[n] == b;
      assert now[if n < k then n else n - 1] == b;
    }
  }

  lemma StillTaken(was: seq<Allocation>, k: nat, i: nat, x: nat)
    requires k < |was| && (forall i, j :: 0 <= i < j < |was| ==> Disjoint(was[i], was[j])) && Taken(was[..k] + was[k + 1..], i, x)
    ensures Taken(was, i, x) && !Holds(was[k], i, x)
  {
    var now := was[..k] + was[k + 1..];
    var b :| b in now && Holds(b, i, x);
    var n :| 0 <= n < |now| && now[n] == b;
    var m := if k <= n then n + 1 else n;
    assert was[m] == b;
    PairDisjoint(was, m, k);
  }

  /** Two free blocks, and a request that needs both: refused, although they are one run. */
  method ExactFitRefused() returns (h: Heap, ptr: nat, ghost room: bool)
    ensures h.Valid() && ptr == 0 && room && h.freeBlocks == BlocksFor(h.header, 64)
  {
    hide SetCount, FreeSum;
    h := new Heap(32);
    var pool := new HeapPool(0x1000, 2, 1);
    OnePool(pool);
    h.AddPool(pool);
    assert h.pools[0] == pool && RunAt(pool.bitmap.View(), 0, 2);
    room := h.RunSomewhere(2);
    assert BlocksFor(32, 64) == 2;
    ptr := h.Alloc(64, false);
  }

  lemma OnePool(pool: HeapPool)
    ensures FreeSum([]) == 0
  {}

  /** A heap of two free blocks hands out almost the whole address space. */
  method WrongAllocation() returns (h: Heap, ptr: nat)
    ensures ptr != 0 && !h.Valid()
    ensures |h.allocs| == 1 && h.allocs[0].size > 0xffff_0000 && h.allocs[0].blocks == 0
  {
    hide SetCount, FreeSum;
    h := new Heap(32);
    var pool := new HeapPool(0x1000, 2, 1);
    OnePool(pool);
    h.AddPool(pool);
    WrappedSize(32);
    assert h.pools[0] == pool && RunAt(pool.bitmap.View(), 0, 1) && RunLength(0) == 1;
    ptr := h.Alloc(SIZE_MAX - 39, false);
    h.MisfitMeans();
  }

  /** On a fresh heap every allocation that leaves a block free succeeds; of n pages it can have all but header, bitmap, padding and two blocks. */
  method FreshHeapServes(start: nat, memsize: nat, poolHeader: nat, align: nat, header: nat, size: nat) returns (h: Heap, ptr: nat)
    requires 0 < start && PAGE_SIZE <= memsize <= SIZE_MAX && align > 0 && poolHeader + align <= 4088
    requires start % align == 0 && poolHeader % align == 0 && 0 < header && 0 < size
    requires size + header + |POISON| + poolHeader + 8 * (memsize / PAGE_SIZE) + align + 3 * BLOCK_SIZE <= memsize / PAGE_SIZE * PAGE_SIZE
    ensures h.Valid() && ptr != 0 && h.LiveWithSize(ptr, size)
  {
    hide SetCount, FreeSum, BlocksFor, RunAt, RunLength, Heap.AllocsOk, Heap.PoolsOk, HeapPool.Valid, Heap.SameData, AllBytes, OnlyWithin;
    h := new Heap(header);
    h.AddMem(start, memsize, poolHeader, align);
    var pool := h.pools[0];
    assert h.pools == [pool] && h.allocs == [] && fresh(pool) && fresh(pool.bitmap.words);
    EnoughBlocksExactly(header, size);
    FewestBlocks(header, size);
    var n := BlocksFor(header, size);
    assert n < pool.blockCount;
    EmptyHeap(h, n);
    ptr := h.Alloc(size, false);
  }

  lemma EmptyHeap(h: Heap, n: nat)
    requires h.Valid() && h.allocs == [] && |h.pools| == 1 && 0 < n < h.pools[0].blockCount
    ensures h.RunSomewhere(RunLength(n)) && h.freeBlocks == h.pools[0].blockCount - h.pools[0].used
  {
    hide SetCount;
    var pool := h.pools[0];
    assert h.Marked(0);
    assert RunAt(pool.bitmap.View(), 0, n);
    assert h.pools == [] + [pool];
    FreeSumAppend([], pool);
    OnePool(pool);
  }
}
