/**
 The inode reader of kernel/fs/fs_ext2.c: a lazy block iterator over direct and
 indirect pointers, and buffered reads, skips and seeks on top of it.

 Disk reads and buffer allocations succeed here; -ENOENT is the result `None` of
 the iterator and `false` of a read or a skip.
 */
module Ext2Inode {
  import opened Basics
  import opened Ext2Layout

  /** A table or block in memory and the offset of the next byte to use; `buf` is None for a null pointer. */
  datatype Buffer = Buffer(buf: Option<seq<Byte>>, off: nat)

  const EMPTY := Buffer(None, 0)

  // ------------------------------------------------------------ the file as bytes

  /** The blocks [a, b) that the iterator yields, one after the other. */
  ghost function Blocks(disk: Disk, ino: Inode, a: nat, b: nat): seq<Byte>
    requires disk.Valid() && ino.Valid()
  {
    if a >= b then [] else Blocks(disk, ino, a, b - 1) + disk.read(BlockAt(disk, ino, b - 1))
  }

  /** `len` consecutive disk blocks. */
  ghost function DiskRun(disk: Disk, base: nat, len: nat): seq<Byte>
  {
    if len == 0 then [] else DiskRun(disk, base, len - 1) + disk.read(base + len - 1)
  }

  /** The number of bytes in k blocks. */
  ghost function Start(bs: nat, k: nat): nat
  {
    if k == 0 then 0 else Start(bs, k - 1) + bs
  }

  lemma {:induction false} StartIsProduct(bs: nat, k: nat)
    ensures Start(bs, k) == k * bs
  {
    if k > 0 {
      StartIsProduct(bs, k - 1);
    }
  }

  lemma {:induction false} StartGrows(bs: nat, a: nat, b: nat)
    requires a <= b
    ensures Start(bs, b) == Start(bs, a) + Start(bs, b - a)
  {
    if a < b {
      StartGrows(bs, a, b - 1);
    }
  }

  lemma StartOrder(bs: nat, a: nat, b: nat)
    requires bs > 0
    ensures Start(bs, a) < Start(bs, b) <==> a < b
  {
    if a < b {
      StartGrows(bs, a, b);
    } else {
      StartGrows(bs, b, a);
    }
  }

  lemma WholeBlockCount(bs: nat, len: nat)
    requires bs > 0
    ensures Start(bs, len / bs) <= len < Start(bs, len / bs) + bs
    ensures bs <= len ==> len / bs > 0
  {
    StartIsProduct(bs, len / bs);
  }

  /** `len` bytes from byte `pos` on of the first `count` blocks that the iterator yields. */
  ghost function StreamBytes(disk: Disk, ino: Inode, count: nat, pos: nat, len: nat): seq<Byte>
    requires disk.Valid() && ino.Valid()
  {
    var all := Blocks(disk, ino, 0, count);
    if pos + len <= |all| then all[pos..pos + len] else []
  }

  /** The logical blocks [a, b) of the file, one after the other. */
  ghost function LogicalBlocks(disk: Disk, ino: Inode, a: nat, b: nat): seq<Byte>
    requires disk.Valid() && ino.Valid()
  {
    if a >= b then [] else LogicalBlocks(disk, ino, a, b - 1) + disk.read(Layout(disk, ino, b - 1).0)
  }

  /** `len` bytes of a file of `count` blocks from byte `pos` on. */
  ghost function FileBytes(disk: Disk, ino: Inode, count: nat, pos: nat, len: nat): seq<Byte>
    requires disk.Valid() && ino.Valid()
  {
    var all := LogicalBlocks(disk, ino, 0, count);
    if pos + len <= |all| then all[pos..pos + len] else []
  }

  lemma {:induction false} BlocksAreLogical(disk: Disk, ino: Inode, file: nat, b: nat)
    requires HoleFree(disk, ino, file) && b <= file
    ensures Blocks(disk, ino, 0, b) == LogicalBlocks(disk, ino, 0, b)
  {
    if b > 0 {
      HoleFreeYields(disk, ino, file);
      BlocksAreLogical(disk, ino, file, b - 1);
    }
  }

  /** Inside a file without holes the bytes that the iterator yields are the bytes of the file, whatever comes behind its end. */
  lemma StreamIsFile(disk: Disk, ino: Inode, file: nat, count: nat, pos: nat, len: nat)
    requires HoleFree(disk, ino, file) && file <= count && pos + len <= Start(disk.blockSize, file)
    ensures StreamBytes(disk, ino, count, pos, len) == FileBytes(disk, ino, file, pos, len)
  {
    hide NextPtr, Ext2Layout.Layout, BlockAt;
    BlocksSplit(disk, ino, 0, file, count);
    BlocksLength(disk, ino, 0, file);
    BlocksAreLogical(disk, ino, file, file);
    var all, more := Blocks(disk, ino, 0, file), Blocks(disk, ino, file, count);
    assert (all + more)[pos..pos + len] == all[pos..pos + len];
  }

  lemma {:induction false} BlocksLength(disk: Disk, ino: Inode, a: nat, b: nat)
    requires disk.Valid() && ino.Valid() && a <= b
    ensures |Blocks(disk, ino, a, b)| == Start(disk.blockSize, b - a)
  {
    if a < b {
      BlocksLength(disk, ino, a, b - 1);
    }
  }

  lemma {:induction false} BlocksSplit(disk: Disk, ino: Inode, a: nat, m: nat, b: nat)
    requires disk.Valid() && ino.Valid() && a <= m <= b
    ensures Blocks(disk, ino, a, b) == Blocks(disk, ino, a, m) + Blocks(disk, ino, m, b)
  {
    if m < b {
      BlocksSplit(disk, ino, a, m, b - 1);
    }
  }

  /** The whole blocks [a, b) of a file are the bytes between their boundaries. */
  lemma WholeBlocks(disk: Disk, ino: Inode, a: nat, b: nat, count: nat)
    requires disk.Valid() && ino.Valid() && a <= b <= count
    ensures |Blocks(disk, ino, a, b)| == Start(disk.blockSize, b - a)
    ensures Start(disk.blockSize, b) == Start(disk.blockSize, a) + Start(disk.blockSize, b - a)
    ensures Blocks(disk, ino, a, b) ==
            StreamBytes(disk, ino, count, Start(disk.blockSize, a), Start(disk.blockSize, b - a))
  {
    BlocksSplit(disk, ino, 0, b, count);
    BlocksSplit(disk, ino, 0, a, b);
    BlocksLength(disk, ino, 0, a);
    BlocksLength(disk, ino, a, b);
    StartGrows(disk.blockSize, a, b);
  }

  /** Bytes inside one block. */
  lemma BlockBytes(disk: Disk, ino: Inode, k: nat, off: nat, len: nat, count: nat)
    requires disk.Valid() && ino.Valid() && k < count && off + len <= disk.blockSize
    ensures StreamBytes(disk, ino, count, Start(disk.blockSize, k) + off, len)
         == disk.read(BlockAt(disk, ino, k))[off..off + len]
  {
    hide Ext2Layout.BlockAt, Blocks, Start;
    var bs, at := disk.blockSize, Start(disk.blockSize, k);
    WholeBlocks(disk, ino, k, k + 1, count);
    SingleBlock(disk, ino, k);
    var data := disk.read(BlockAt(disk, ino, k));
    var all := Blocks(disk, ino, 0, count);
    assert at + bs <= |all| && all[at..at + bs] == data;
    SliceOfSlice(all, at, at + bs, off, off + len);
  }

  lemma SingleBlock(disk: Disk, ino: Inode, k: nat)
    requires disk.Valid() && ino.Valid()
    ensures Blocks(disk, ino, k, k + 1) == disk.read(BlockAt(disk, ino, k)) && Start(disk.blockSize, 1) == disk.blockSize
  {
    hide Ext2Layout.BlockAt;
    assert Blocks(disk, ino, k, k) == [];
    assert Start(disk.blockSize, 1) == Start(disk.blockSize, 0) + disk.blockSize;
  }

  lemma SliceOfSlice<T>(s: seq<T>, a: nat, b: nat, x: nat, y: nat)
    requires a <= b <= |s| && x <= y <= b - a
    ensures s[a..b][x..y] == s[a + x..a + y]
  {
    var left, right := s[a..b][x..y], s[a + x..a + y];
    assert |left| == |right|;
    forall i | 0 <= i < |left|
      ensures left[i] == right[i]
    {
      assert left[i] == s[a..b][x + i] == s[a + (x + i)];
    }
  }

  lemma NoBytes(disk: Disk, ino: Inode, count: nat, pos: nat)
    requires disk.Valid() && ino.Valid()
    ensures StreamBytes(disk, ino, count, pos, 0) == []
  {}

  /** Two neighbouring pieces of a file. */
  lemma StreamBytesJoin(disk: Disk, ino: Inode, count: nat, pos: nat, a: nat, b: nat)
    requires disk.Valid() && ino.Valid() && pos + a + b <= Start(disk.blockSize, count)
    ensures StreamBytes(disk, ino, count, pos, a) + StreamBytes(disk, ino, count, pos + a, b)
         == StreamBytes(disk, ino, count, pos, a + b)
  {
    BlocksLength(disk, ino, 0, count);
  }

  /**
   A transfer of `len` bytes from `pos` that stops exactly at the end of the last
   block after passing over it as a whole.  Such a read leaves the reader at the
   start of that block, and such a skip fails.
   */
  ghost predicate EndsOnWholeBlock(bs: nat, count: nat, pos: nat, len: nat)
    requires bs > 0
  {
    pos + len == Start(bs, count) && len >= bs + Tail(bs, pos)
  }

  /** The bytes from `pos` to the next block boundary. */
  ghost function Tail(bs: nat, pos: nat): nat
    requires bs > 0
  {
    if pos % bs == 0 then 0 else bs - pos % bs
  }

  /** The skips that succeed. */
  ghost predicate Skippable(bs: nat, count: nat, pos: nat, len: nat)
    requires bs > 0
  {
    pos + len <= Start(bs, count) && !EndsOnWholeBlock(bs, count, pos, len)
  }

  /** From the start of a file, exactly the positions before its end can be skipped to. */
  lemma SkipFromStart(bs: nat, count: nat, len: nat)
    requires bs > 0 && count > 0
    ensures Skippable(bs, count, 0, len) <==> len < Start(bs, count)
  {
    StartGrows(bs, 1, count);
  }

  lemma EndOfSkip(bs: nat, k: nat, count: nat, end: nat)
    requires bs > 0 && Start(bs, k) <= end < Start(bs, k) + bs
    ensures end < Start(bs, count) <==> k < count
  {
    if k < count {
      StartGrows(bs, k + 1, count);
    } else {
      StartGrows(bs, count, k);
    }
  }

  const STREAM_MAX_TRANSFER_SIZE: nat := 0x7fff_ffff

  /** The logical blocks p, p+1, ..., p+len-1 lie at the addresses base, base+1, ... */
  ghost predicate Consecutive(disk: Disk, ino: Inode, p: nat, len: nat, base: nat)
  {
    && disk.Valid() && ino.Valid()
    && forall k: nat :: p <= k < p + len ==> BlockAt(disk, ino, k) == base + (k - p)
  }

  lemma {:induction false} DiskRunIsBlocks(disk: Disk, ino: Inode, base: nat, p: nat, len: nat)
    requires Consecutive(disk, ino, p, len, base)
    ensures DiskRun(disk, base, len) == Blocks(disk, ino, p, p + len)
  {
    if len > 0 {
      DiskRunIsBlocks(disk, ino, base, p, len - 1);
    }
  }

  lemma PositionTail(bs: nat, k: nat, off: nat)
    requires bs > 0 && off <= bs
    ensures Tail(bs, Start(bs, k) + off) == if off == 0 || off == bs then 0 else bs - off
  {
    StartIsProduct(bs, k);
    if off < bs {
      QuotientUnique(k * bs + off, bs, k, off);
    } else {
      assert k * bs + off == (k + 1) * bs + 0;
      QuotientUnique(k * bs + off, bs, k + 1, 0);
    }
  }

  class InodeContext {
    const disk: Disk
    const ino: Inode

    var currentBlock: nat
    var nextDirect: nat
    var cnt: nat
    var singly: Buffer
    var doubly: Buffer
    var triply: Buffer
    var block: Buffer
    var singlyUsed: bool
    var doublyUsed: bool
    var triplyUsed: bool

    /** openinode, with the inode read: nothing has been taken from any stream. */
    constructor (disk: Disk, ino: Inode)
      requires disk.Valid() && ino.Valid()
      ensures this.disk == disk && this.ino == ino && At(0) && block == EMPTY
    {
      this.disk, this.ino := disk, ino;
      block, singly, doubly, triply := EMPTY, EMPTY, EMPTY, EMPTY;
      currentBlock, nextDirect, cnt := 0, 0, 0;
      singlyUsed, doublyUsed, triplyUsed := false, false, false;
    }

    // ---------------------------------------------------------- where the streams stand

    /** t pointers have been taken from the triply indirect table. */
    ghost predicate TriplyAt(t: nat)
      requires disk.Valid()
      reads this`triply, this`triplyUsed
    {
      if t == 0 then triply == EMPTY && !triplyUsed
      else triplyUsed && ino.triple != 0 && t <= disk.Fanout() && triply == Buffer(Some(disk.read(ino.triple)), 4 * t)
    }

    /** d pointers have been taken from the doubly indirect tables. */
    ghost predicate DoublyAt(d: nat)
      requires disk.Valid() && ino.Valid()
      reads this`triply, this`triplyUsed, this`doubly, this`doublyUsed
    {
      if d == 0 then doubly == EMPTY && !doublyUsed && TriplyAt(0)
      else
        var n := disk.Fanout();
        var table := DoubleTable(disk, ino, (d - 1) / n);
        doublyUsed && table.Some? && doubly == Buffer(Some(disk.read(table.value)), 4 * ((d - 1) % n + 1))
        && TriplyAt((d - 1) / n)
    }

    /** The offset behind the i-th entry; the iterator stays on a zero first entry. */
    ghost function Passed(i: nat): nat
      requires disk.Valid() && ino.Valid() && i > 0
    {
      if TableNext(disk, ino, i - 1) == Some(0) then 0 else 4 * ((i - 1) % disk.Fanout() + 1)
    }

    /** i blocks behind indirect tables have been produced. */
    ghost predicate SinglyAt(i: nat)
      requires disk.Valid() && ino.Valid()
      reads this`triply, this`triplyUsed, this`doubly, this`doublyUsed, this`singly, this`singlyUsed
    {
      if i == 0 then singly == EMPTY && !singlyUsed && DoublyAt(0)
      else
        var n := disk.Fanout();
        var table := SingleTable(disk, ino, (i - 1) / n);
        singlyUsed && table.Some? && singly == Buffer(Some(disk.read(table.value)), Passed(i))
        && DoublyAt((i - 1) / n)
    }

    /** The iterator has produced c blocks, and block c-1 is the current one. */
    ghost predicate At(c: nat)
      reads this`triply, this`triplyUsed, this`doubly, this`doublyUsed, this`singly, this`singlyUsed,
            this`nextDirect, this`currentBlock, this`cnt
    {
      && disk.Valid() && ino.Valid() && cnt == c
      && (c > 0 ==> NextPtr(disk, ino, c - 1) == Some(currentBlock))
      && nextDirect == (if c <= DIRECT_COUNT then c else DIRECT_COUNT)
      && SinglyAt(if c <= DIRECT_COUNT then 0 else c - DIRECT_COUNT)
    }

    // ---------------------------------------------------------- the iterator

    /** next_triply_block_ptr with next_triply_indirect_table */
    method NextTriplyBlockPtr(ghost t: nat) returns (r: Option<nat>)
      requires disk.Valid() && ino.Valid() && TriplyAt(t)
      modifies this`triply, this`triplyUsed
      ensures r == TripleNext(disk, ino, t)
      ensures r.Some? ==> TriplyAt(t + 1)
    {
      if triply.buf.None? || disk.blockSize <= triply.off {
        if triplyUsed {
          return None;
        }
        if ino.triple == 0 {
          triply := EMPTY;
          return None;
        }
        triply := Buffer(Some(disk.read(ino.triple)), 0);
      }
      triplyUsed := true;
      r := Some(U32At(triply.buf.value, triply.off));
      triply := triply.(off := triply.off + 4);
    }

    /** next_doubly_indirect_table */
    method NextDoublyIndirectTable(ghost d: nat) returns (ok: bool)
      requires disk.Valid() && ino.Valid() && DoublyAt(d) && d % disk.Fanout() == 0
      modifies this`triply, this`triplyUsed, this`doubly, this`doublyUsed
      ensures ok <==> DoubleTable(disk, ino, d / disk.Fanout()).Some?
      ensures ok ==> doublyUsed && TriplyAt(d / disk.Fanout())
                     && doubly == Buffer(Some(disk.read(DoubleTable(disk, ino, d / disk.Fanout()).value)), 0)
    {
      if d > 0 {
        NextEntry(d, disk.Fanout());
      } else {
        QuotientUnique(0, disk.Fanout(), 0, 0);
      }
      var table: Option<nat> := None;
      if !doublyUsed {
        if ino.double != 0 {
          table := Some(ino.double);
        }
        doublyUsed := true;
      } else {
        table := NextTriplyBlockPtr((d - 1) / disk.Fanout());
      }
      if table.None? {
        doubly := EMPTY;
        return false;
      }
      doubly := Buffer(Some(disk.read(table.value)), 0);
      return true;
    }

    /** next_doubly_block_ptr */
    method NextDoublyBlockPtr(ghost d: nat) returns (r: Option<nat>)
      requires disk.Valid() && ino.Valid() && DoublyAt(d)
      modifies this`triply, this`triplyUsed, this`doubly, this`doublyUsed
      ensures r == DoubleNext(disk, ino, d)
      ensures r.Some? ==> DoublyAt(d + 1)
    {
      if d > 0 {
        NextEntry(d, disk.Fanout());
      } else {
        QuotientUnique(0, disk.Fanout(), 0, 0);
      }
      if doubly.buf.None? || disk.blockSize <= doubly.off {
        var ok := NextDoublyIndirectTable(d);
        if !ok {
          return None;
        }
      }
      var p := U32At(doubly.buf.value, doubly.off);
      doubly := doubly.(off := doubly.off + 4);
      if p == 0 {
        return None;
      }
      return Some(p);
    }

    /** next_singly_indirect_table */
    method NextSinglyIndirectTable(ghost i: nat) returns (ok: bool)
      requires disk.Valid() && ino.Valid() && SinglyAt(i) && i % disk.Fanout() == 0
      modifies this`triply, this`triplyUsed, this`doubly, this`doublyUsed, this`singly, this`singlyUsed
      ensures ok <==> SingleTable(disk, ino, i / disk.Fanout()).Some?
      ensures ok ==> singlyUsed && DoublyAt(i / disk.Fanout())
                     && singly == Buffer(Some(disk.read(SingleTable(disk, ino, i / disk.Fanout()).value)), 0)
    {
      if i > 0 {
        NextEntry(i, disk.Fanout());
        AfterZero(disk, ino, i);
      } else {
        QuotientUnique(0, disk.Fanout(), 0, 0);
      }
      var table: Option<nat> := None;
      if !singlyUsed {
        if ino.single != 0 {
          table := Some(ino.single);
        }
      } else {
        table := NextDoublyBlockPtr((i - 1) / disk.Fanout());
      }
      if table.None? {
        singly := EMPTY;
        return false;
      }
      singly := Buffer(Some(disk.read(table.value)), 0);
      singlyUsed := true;
      return true;
    }

    /** next_singly_block_ptr */
    method NextSinglyBlockPtr(ghost i: nat) returns (r: Option<nat>)
      requires disk.Valid() && ino.Valid() && SinglyAt(i)
      modifies this`triply, this`triplyUsed, this`doubly, this`doublyUsed, this`singly, this`singlyUsed
      ensures r == SingleNext(disk, ino, i)
      ensures r.Some? ==> SinglyAt(i + 1)
    {
      hide DoublyAt, TriplyAt, SingleTable;
      if i > 0 {
        NextEntry(i, disk.Fanout());
        AfterZero(disk, ino, i);
      } else {
        QuotientUnique(0, disk.Fanout(), 0, 0);
      }
      var ret: Option<nat> := None;
      if singly.buf.None? || disk.blockSize <= singly.off {
        var ok := NextSinglyIndirectTable(i);
        if !ok {
          return None;
        }
        // the return code is 0 from here on, and the address still unwritten
        ret := Some(0);
      }
      var p := U32At(singly.buf.value, singly.off);
      if p == 0 {
        return ret;
      }
      singly := singly.(off := singly.off + 4);
      return Some(p);
    }

    /** next_inode_block: the c-th call that succeeds makes logical block c the current one. */
    method NextInodeBlock(ghost c: nat) returns (ok: bool)
      requires At(c)
      modifies this`triply, this`triplyUsed, this`doubly, this`doublyUsed, this`singly, this`singlyUsed,
               this`nextDirect, this`currentBlock, this`cnt
      ensures ok <==> NextPtr(disk, ino, c).Some?
      ensures ok ==> currentBlock == NextPtr(disk, ino, c).value
      ensures ok ==> At(c + 1)
      ensures !ok ==> currentBlock == old(currentBlock) && cnt == c
      ensures ok ==> cnt == c + 1
      ensures !ok && c < DIRECT_COUNT ==> At(c)
    {
      var r: Option<nat> := None;
      if nextDirect < DIRECT_COUNT {
        if ino.direct[nextDirect] != 0 {
          r := Some(ino.direct[nextDirect]);
          nextDirect := nextDirect + 1;
        }
      } else {
        r := NextSinglyBlockPtr(c - DIRECT_COUNT);
      }
      if r.None? {
        return false;
      }
      currentBlock := r.value;
      cnt := cnt + 1;
      return true;
    }
  
    // ---------------------------------------------------------- reading

    /**
     The reader stands at byte `pos` of the `count` blocks that the iterator yields.  A position on a
     block boundary may be the end of the block before it: the step to the next
     block is taken when a byte is asked for.
     */
    ghost predicate Stands(count: nat, pos: nat)
      reads this
    {
      && Yields(disk, ino, count)
      && 0 < cnt <= count && At(cnt)
      && block.off <= disk.blockSize
      && pos == Start(disk.blockSize, cnt - 1) + block.off
      && (block.buf.Some? ==> block.buf.value == disk.read(currentBlock))
    }

    /** Whatever is asked for, there is a number of blocks that covers it, or behind which the iterator ends. */
    lemma AnyRequest(count: nat, pos: nat, len: nat) returns (enough: nat)
      requires Stands(count, pos)
      ensures Stands(enough, pos) && (pos + len <= Start(disk.blockSize, enough) || NextPtr(disk, ino, enough).None?)
    {
      hide NextPtr, SinglyAt;
      var n := count + pos + len;
      enough := StreamEnds(disk, ino, n);
      StartIsProduct(disk.blockSize, n);
      assert n * 1 <= n * disk.blockSize;
      assert enough >= count;
    }

    /** The block iterator, while it yields blocks. */
    method Advance(ghost count: nat) returns (ok: bool)
      requires Yields(disk, ino, count) && 0 < cnt <= count && At(cnt)
      modifies this`triply, this`triplyUsed, this`doubly, this`doublyUsed, this`singly, this`singlyUsed,
               this`nextDirect, this`currentBlock, this`cnt
      ensures old(cnt) < count ==> ok && cnt == old(cnt) + 1 && At(cnt) && currentBlock == BlockAt(disk, ino, cnt - 1)
      ensures !ok ==> currentBlock == old(currentBlock) && cnt == old(cnt)
      ensures ok ==> cnt == old(cnt) + 1
      ensures !ok && old(cnt) < DIRECT_COUNT ==> At(cnt)
      ensures old(cnt) == count ==> (ok <==> NextPtr(disk, ino, count).Some?)
    {
      hide Ext2Layout.NextPtr, SinglyAt;
      ok := NextInodeBlock(cnt);
    }

    /** rewindinode; the first direct pointer must not be zero. */
    method Rewind(ghost count: nat)
      requires Yields(disk, ino, count) && count > 0
      modifies this
      ensures Stands(count, 0)
    {
      block, singly, doubly, triply := EMPTY, EMPTY, EMPTY, EMPTY;
      currentBlock, nextDirect := 0, 0;
      singlyUsed, doublyUsed, triplyUsed := false, false, false;
      cnt := 0;
      var ok := NextInodeBlock(0);
    }
  
    /** read_blocks on consecutive addresses */
    method ReadBlocks(base: nat, len: nat) returns (data: seq<Byte>)
      requires disk.Valid()
      ensures data == DiskRun(disk, base, len)
    {
      data := [];
      for i := 0 to len
        invariant data == DiskRun(disk, base, i)
      {
        data := data + disk.read(base + i);
      }
    }

    /** What read_inode_blocks has gathered, and the run of consecutive addresses it has not read yet. */
    ghost predicate Gathered(count: nat, start: nat, data: seq<Byte>, base: nat, run: nat)
      reads this
    {
      && Yields(disk, ino, count) && run > 0 && start + run <= cnt <= count && At(cnt)
      && data == Blocks(disk, ino, start, cnt - run)
      && Consecutive(disk, ino, cnt - run, run, base)
    }

    /** One round of the coalescing loop, after the step to the next block. */
    method Coalesce(ghost count: nat, ghost start: nat, data: seq<Byte>, base: nat, run: nat)
      returns (data': seq<Byte>, base': nat, run': nat)
      requires Yields(disk, ino, count) && run > 0 && start + run < cnt <= count && At(cnt)
      requires data == Blocks(disk, ino, start, cnt - 1 - run) && Consecutive(disk, ino, cnt - 1 - run, run, base)
      requires currentBlock == BlockAt(disk, ino, cnt - 1)
      ensures Gathered(count, start, data', base', run')
    {
      hide At, Ext2Layout.BlockAt, Ext2Layout.NextPtr;
      if currentBlock != base + run {
        var chunk := ReadBlocks(base, run);
        DiskRunIsBlocks(disk, ino, base, cnt - 1 - run, run);
        BlocksSplit(disk, ino, start, cnt - 1 - run, cnt - 1);
        return data + chunk, currentBlock, 1;
      } else {
        return data, base, run + 1;
      }
    }

    /** The loop of read_inode_blocks: steps over `blkcount - 1` blocks, reading whatever is not consecutive. */
    method GatherBlocks(blkcount: nat, ghost count: nat) returns (ok: bool, data: seq<Byte>, base: nat, run: nat)
      requires Yields(disk, ino, count) && 0 < cnt <= count && At(cnt) && 0 < blkcount
      requires cnt - 1 + blkcount <= count || NextPtr(disk, ino, count).None?
      modifies this
      ensures block == old(block)
      ensures ok <==> old(cnt) - 1 + blkcount <= count
      ensures ok ==> cnt == old(cnt) - 1 + blkcount && Gathered(count, old(cnt) - 1, data, base, run)
    {
      hide At, Ext2Layout.BlockAt, Ext2Layout.NextPtr;
      CurrentIsLast();
      ghost var start := cnt - 1;
      data, base, run := [], currentBlock, 1;
      for i := 0 to blkcount - 1
        invariant block == old(block) && cnt == start + 1 + i && Gathered(count, start, data, base, run)
      {
        ok := Advance(count);
        if !ok {
          return;
        }
        data, base, run := Coalesce(count, start, data, base, run);
      }
      ok := true;
    }

    lemma CurrentIsLast()
      requires At(cnt) && cnt > 0
      ensures NextPtr(disk, ino, cnt - 1) == Some(currentBlock) && BlockAt(disk, ino, cnt - 1) == currentBlock
    {}

    /** read_inode_blocks: `blkcount` whole blocks from the current one on, in as few disk reads as the addresses allow. */
    method ReadInodeBlocks(blkcount: nat, remainingIn: nat, ghost count: nat)
      returns (ok: bool, data: seq<Byte>, remaining: int)
      requires Yields(disk, ino, count) && 0 < cnt <= count && At(cnt) && 0 < blkcount
      requires cnt - 1 + blkcount <= count || NextPtr(disk, ino, count).None?
      modifies this
      ensures block.off == old(block.off)
      ensures old(cnt) - 1 + blkcount <= count ==>
                data == Blocks(disk, ino, old(cnt) - 1, old(cnt) - 1 + blkcount)
                && remaining == remainingIn - |data| && block.buf == None
      ensures old(cnt) + blkcount <= count ==> ok && cnt == old(cnt) + blkcount && At(cnt)
      ensures old(cnt) + blkcount == count + 1 ==>
                (remaining == 0 ==> ok) && (cnt == count || cnt == count + 1)
                && (NextPtr(disk, ino, count).None? ==> (ok <==> remaining == 0) && cnt == count)
                && (NextPtr(disk, ino, count).None? && count < DIRECT_COUNT ==> At(count))
      ensures old(cnt) + blkcount > count + 1 ==> !ok
    {
      hide At, Ext2Layout.BlockAt, Ext2Layout.NextPtr;
      ghost var start := cnt - 1;
      var base: nat, run: nat;
      ok, data, base, run := GatherBlocks(blkcount, count);
      remaining := remainingIn - |data|;
      if !ok {
        return;
      }
      var chunk := ReadBlocks(base, run);
      DiskRunIsBlocks(disk, ino, base, cnt - run, run);
      BlocksSplit(disk, ino, start, cnt - run, cnt);
      data := data + chunk;
      remaining := remainingIn - |data|;
      block := block.(buf := None);
      var more := Advance(count);
      ok := more || remaining == 0;
    }
  
    /** The test at the top of both loops: a used-up block is left only when more bytes are wanted. */
    method LeaveUsedBlock(ghost count: nat, ghost pos: nat) returns (ok: bool)
      requires Stands(count, pos)
      requires pos < Start(disk.blockSize, count) || NextPtr(disk, ino, count).None?
      modifies this
      ensures ok <==> pos < Start(disk.blockSize, count)
      ensures ok ==> Stands(count, pos) && block.off < disk.blockSize
    {
      hide At, Ext2Layout.BlockAt, Ext2Layout.NextPtr;
      PositionBound(count, pos);
      ok := true;
      if disk.blockSize <= block.off {
        ok := Advance(count);
        if ok {
          block := EMPTY;
        }
      }
    }

    lemma PositionBound(count: nat, pos: nat)
      requires Stands(count, pos)
      ensures pos <= Start(disk.blockSize, cnt) <= Start(disk.blockSize, count)
      ensures pos < Start(disk.blockSize, count) <==> block.off < disk.blockSize || cnt < count
    {
      hide At, Ext2Layout.BlockAt, Ext2Layout.NextPtr;
      StartGrows(disk.blockSize, cnt, count);
      if cnt < count {
        assert Start(disk.blockSize, count - cnt) >= disk.blockSize;
      }
    }

    /** The direct path of read_inode: as many whole blocks as the request still covers. */
    method ReadWholeBlocks(wanted: nat, ghost count: nat, ghost pos: nat)
      returns (ok: bool, data: seq<Byte>, remaining: int)
      requires Stands(count, pos) && block.off == 0 && disk.blockSize <= wanted
      requires pos + wanted <= Start(disk.blockSize, count) || NextPtr(disk, ino, count).None?
      modifies this
      ensures block.off == 0
      ensures pos + wanted <= Start(disk.blockSize, count) ==> ok
      ensures ok ==> 0 <= remaining == wanted - |data| < disk.blockSize
                     && data == StreamBytes(disk, ino, count, pos, |data|)
      // either the reader goes on right behind the blocks it took, or it took the last one and lost its place
      ensures ok ==> (Stands(count, pos + |data|) && pos + |data| < Start(disk.blockSize, count)) ||
                     (remaining == 0 && pos + wanted == Start(disk.blockSize, count) && !Stands(count, pos + wanted))
      ensures (pos + wanted == Start(disk.blockSize, count) && remaining == 0
               && NextPtr(disk, ino, count).None? && count < DIRECT_COUNT)
              ==> Stands(count, Start(disk.blockSize, count - 1))
    {
      hide At, Ext2Layout.BlockAt, Ext2Layout.NextPtr, StreamBytes, Blocks, Start;
      StartOrder(disk.blockSize, count - 1, count);
      var blkcount := wanted / disk.blockSize;
      ghost var c, bs := cnt, disk.blockSize;
      WholeBlockCount(bs, wanted);
      StartGrows(bs, c - 1, c - 1 + blkcount);
      StartOrder(bs, c - 1 + blkcount, count);
      StartOrder(bs, count, c - 1 + blkcount);
      ok, data, remaining := ReadInodeBlocks(blkcount, wanted, count);
      if c - 1 + blkcount <= count {
        WholeBlocks(disk, ino, c - 1, c - 1 + blkcount, count);
      }
    }
  
    /** The buffered path of read_inode: what the current block still has, or less. */
    method ReadBuffered(wanted: nat, ghost count: nat, ghost pos: nat) returns (data: seq<Byte>)
      requires Stands(count, pos) && block.off < disk.blockSize && wanted > 0
      modifies this`block
      ensures 0 < |data| <= wanted && data == StreamBytes(disk, ino, count, pos, |data|)
      ensures Stands(count, pos + |data|)
      ensures |data| < wanted ==> block.off == disk.blockSize
      ensures block.off == old(block.off) + |data|
    {
      hide At, Ext2Layout.BlockAt, Ext2Layout.NextPtr, StreamBytes;
      if block.buf.None? {
        block := block.(buf := Some(disk.read(currentBlock)));
      }
      var maxlen := disk.blockSize - block.off;
      var readlen := wanted;
      if maxlen < readlen {
        readlen := maxlen;
      }
      data := block.buf.value[block.off..block.off + readlen];
      CurrentIsLast();
      BlockBytes(disk, ino, cnt - 1, block.off, readlen, count);
      block := block.(off := block.off + readlen);
    }

    /** One round of the loop of read_inode. */
    method ReadRound(wanted: nat, ghost count: nat, ghost pos: nat) returns (ok: bool, data: seq<Byte>)
      requires Stands(count, pos) && 0 < wanted
      requires pos + wanted <= Start(disk.blockSize, count) || NextPtr(disk, ino, count).None?
      modifies this
      ensures pos + wanted <= Start(disk.blockSize, count) ==> ok
      ensures ok ==> 0 < |data| <= wanted && pos + |data| <= Start(disk.blockSize, count)
                     && data == StreamBytes(disk, ino, count, pos, |data|)
      ensures ok && |data| < wanted ==> Stands(count, pos + |data|)
      ensures ok && |data| < wanted ==>
                EndsOnWholeBlock(disk.blockSize, count, pos + |data|, wanted - |data|)
                == EndsOnWholeBlock(disk.blockSize, count, pos, wanted)
      ensures ok && |data| == wanted ==>
                (Stands(count, pos + wanted) <==> !EndsOnWholeBlock(disk.blockSize, count, pos, wanted))
      ensures (ok && |data| == wanted && EndsOnWholeBlock(disk.blockSize, count, pos, wanted)
               && NextPtr(disk, ino, count).None? && count < DIRECT_COUNT)
              ==> Stands(count, Start(disk.blockSize, count - 1))
    {
      hide At, Ext2Layout.BlockAt, Ext2Layout.NextPtr, Ext2Layout.Yields, StreamBytes, Blocks, Tail, Start;
      StandsFacts(count, pos);
      ghost var bs := disk.blockSize;
      data := [];
      ok := LeaveUsedBlock(count, pos);
      if !ok {
        return;
      }
      PositionTail(bs, cnt - 1, block.off);
      var remaining := wanted;
      if block.off == 0 && disk.blockSize <= remaining {
        ok, data, remaining := ReadWholeBlocks(wanted, count, pos);
        if !ok || remaining == 0 {
          return;
        }
        PositionTail(bs, cnt - 1, block.off);
      }
      ghost var p := pos + |data|;
      var piece := ReadBuffered(remaining, count, p);
      PositionBound(count, p + |piece|);
      PositionTail(bs, cnt - 1, block.off);
      StreamBytesJoin(disk, ino, count, pos, |data|, |piece|);
      if data == [] {
        NoBytes(disk, ino, count, pos);
      }
      data := data + piece;
    }

    /** read_inode */
    method ReadInode(len: nat, ghost count: nat, ghost pos: nat) returns (ok: bool, data: seq<Byte>)
      requires Stands(count, pos) && len <= STREAM_MAX_TRANSFER_SIZE
      // the blocks cover the request, or the iterator ends behind them
      requires pos + len <= Start(disk.blockSize, count) || NextPtr(disk, ino, count).None?
      modifies this
      ensures ok <==> pos + len <= Start(disk.blockSize, count)
      ensures ok ==> data == StreamBytes(disk, ino, count, pos, len)
      ensures ok && HoleFree(disk, ino, count) ==> data == FileBytes(disk, ino, count, pos, len)
      // the reader keeps its place exactly when it does not finish on the last block as a whole
      ensures ok ==> (Stands(count, pos + len) <==> !EndsOnWholeBlock(disk.blockSize, count, pos, len))
      ensures (ok && EndsOnWholeBlock(disk.blockSize, count, pos, len)
               && NextPtr(disk, ino, count).None? && count < DIRECT_COUNT)
              ==> Stands(count, Start(disk.blockSize, count - 1))
    {
      hide Stands, Ext2Layout.NextPtr, StreamBytes, FileBytes, Ext2Layout.HoleFree, Blocks, EndsOnWholeBlock, Start;
      ghost var p: nat := pos;
      var remaining := len;
      data := [];
      StandsFacts(count, pos);
      while remaining != 0
        invariant 0 <= remaining && p + remaining == pos + len && p <= Start(disk.blockSize, count)
        invariant |data| == p - pos && data == StreamBytes(disk, ino, count, pos, p - pos)
        invariant remaining != 0 || len == 0 ==> Stands(count, p)
        invariant remaining != 0 ==>
                    EndsOnWholeBlock(disk.blockSize, count, p, remaining) == EndsOnWholeBlock(disk.blockSize, count, pos, len)
        invariant remaining == 0 ==>
                    (Stands(count, pos + len) <==> !EndsOnWholeBlock(disk.blockSize, count, pos, len))
        invariant (remaining == 0 && EndsOnWholeBlock(disk.blockSize, count, pos, len)
                   && NextPtr(disk, ino, count).None? && count < DIRECT_COUNT)
                  ==> Stands(count, Start(disk.blockSize, count - 1))
        decreases remaining
      {
        var piece;
        ok, piece := ReadRound(remaining, count, p);
        if !ok {
          return;
        }
        StreamBytesJoin(disk, ino, count, pos, p - pos, |piece|);
        data := data + piece;
        remaining := remaining - |piece|;
        p := p + |piece|;
      }
      ok := true;
      if HoleFree(disk, ino, count) {
        StreamIsFile(disk, ino, count, count, pos, len);
      }
    }

    lemma StandsFacts(count: nat, pos: nat)
      requires Stands(count, pos)
      ensures count > 0 && disk.Valid() && ino.Valid() && pos <= Start(disk.blockSize, count)
      ensures !EndsOnWholeBlock(disk.blockSize, count, pos, 0)
      ensures StreamBytes(disk, ino, count, pos, 0) == []
    {
      PositionBound(count, pos);
    }
  
    /** The whole-block path of skipread_inode. */
    method SkipWholeBlocks(wanted: nat, ghost count: nat, ghost pos: nat) returns (ok: bool, remaining: int)
      requires Stands(count, pos) && block.off == 0 && disk.blockSize <= wanted
      requires pos + wanted < Start(disk.blockSize, count) || NextPtr(disk, ino, count).None?
      modifies this
      ensures ok <==> pos + wanted < Start(disk.blockSize, count)
      ensures ok ==> 0 <= remaining < disk.blockSize && Stands(count, pos + wanted - remaining) && block.off == 0
    {
      hide At, Ext2Layout.BlockAt, Ext2Layout.NextPtr, Start;
      var blkcount := wanted / disk.blockSize;
      ghost var c, bs := cnt, disk.blockSize;
      WholeBlockCount(bs, wanted);
      StartGrows(bs, c - 1, c - 1 + blkcount);
      StartOrder(bs, c - 1 + blkcount, count);
      EndOfSkip(bs, c - 1 + blkcount, count, pos + wanted);
      remaining := wanted;
      for i := 0 to blkcount
        invariant cnt == c + i <= count && At(cnt) && block == old(block)
      {
        ok := Advance(count);
        if !ok {
          return;
        }
      }
      StartIsProduct(bs, blkcount);
      remaining := remaining - disk.blockSize * blkcount;
      block := block.(buf := None);
      ok := true;
    }

    /** One round of the loop of skipread_inode. */
    method SkipRound(wanted: nat, ghost count: nat, ghost pos: nat) returns (ok: bool, remaining: int)
      requires Stands(count, pos) && 0 < wanted
      requires Skippable(disk.blockSize, count, pos, wanted) || NextPtr(disk, ino, count).None?
      modifies this
      ensures Skippable(disk.blockSize, count, pos, wanted) ==> ok
      ensures ok ==> 0 <= remaining < wanted && Stands(count, pos + wanted - remaining)
      ensures ok ==> (Skippable(disk.blockSize, count, pos + wanted - remaining, remaining)
                      <==> Skippable(disk.blockSize, count, pos, wanted))
    {
      hide At, Ext2Layout.BlockAt, Ext2Layout.NextPtr, Ext2Layout.Yields, Tail, Start;
      StandsFacts(count, pos);
      ghost var bs := disk.blockSize;
      PositionBound(count, pos);
      remaining := wanted;
      ok := LeaveUsedBlock(count, pos);
      if !ok {
        return;
      }
      PositionTail(bs, cnt - 1, block.off);
      if block.off == 0 && disk.blockSize <= remaining {
        ok, remaining := SkipWholeBlocks(wanted, count, pos);
        if !ok {
          return;
        }
        PositionBound(count, pos + wanted - remaining);
        PositionTail(bs, cnt - 1, block.off);
      }
      if remaining == 0 {
        return;
      }
      var maxlen := disk.blockSize - block.off;
      var skiplen := remaining;
      if maxlen < skiplen {
        skiplen := maxlen;
      }
      block := block.(off := block.off + skiplen);
      remaining := remaining - skiplen;
      PositionBound(count, pos + wanted - remaining);
      PositionTail(bs, cnt - 1, block.off);
    }

    /** skipread_inode */
    method SkipRead(len: nat, ghost count: nat, ghost pos: nat) returns (ok: bool)
      requires Stands(count, pos) && len <= STREAM_MAX_TRANSFER_SIZE
      requires Skippable(disk.blockSize, count, pos, len) || NextPtr(disk, ino, count).None?
      modifies this
      ensures ok <==> Skippable(disk.blockSize, count, pos, len)
      ensures ok ==> Stands(count, pos + len)
    {
      hide At, Ext2Layout.NextPtr, Start, Tail;
      ghost var p: nat := pos;
      var remaining := len;
      StandsFacts(count, pos);
      while remaining != 0
        invariant 0 <= remaining && p + remaining == pos + len && Stands(count, p)
        invariant Skippable(disk.blockSize, count, p, remaining) <==> Skippable(disk.blockSize, count, pos, len)
        decreases remaining
      {
        var rest;
        ok, rest := SkipRound(remaining, count, p);
        if !ok {
          return;
        }
        p := p + remaining - rest;
        remaining := rest;
      }
      StandsFacts(count, p);
      ok := true;
    }

    /** seek_inode with SEEK_SET; `false` stands for its failed assertions. */
    method SeekSet(offset: int, ghost count: nat) returns (ok: bool)
      requires Yields(disk, ino, count) && count > 0
      requires 0 <= offset < Start(disk.blockSize, count) || NextPtr(disk, ino, count).None?
      modifies this
      ensures ok <==> 0 <= offset <= STREAM_MAX_TRANSFER_SIZE && offset < Start(disk.blockSize, count)
      ensures ok ==> Stands(count, offset)
    {
      hide At, Ext2Layout.NextPtr, Ext2Layout.BlockAt;
      Rewind(count);
      StartOrder(disk.blockSize, 0, count);
      var remaining := offset;
      while remaining != 0
        invariant remaining == 0 || remaining == offset
        invariant remaining == 0 ==> 0 <= offset <= STREAM_MAX_TRANSFER_SIZE && offset < Start(disk.blockSize, count) && Stands(count, offset)
        invariant remaining != 0 ==> Stands(count, 0)
        decreases remaining != 0
      {
        var skiplen := if 0xffff_ffff < remaining then 0xffff_ffff else remaining;
        // a negative length becomes a large unsigned one; both fail the assertion of skipread_inode
        if skiplen < 0 || STREAM_MAX_TRANSFER_SIZE < skiplen {
          return false;
        }
        SkipFromStart(disk.blockSize, count, offset);
        ok := SkipRead(skiplen, count, 0);
        if !ok {
          return;
        }
        remaining := remaining - skiplen;
      }
      ok := true;
    }
  }

  /** A file of one block, read as a whole: the next read yields the same block once more instead of the end of the file. */
  method LastBlockTwice(r: InodeContext) returns (a: seq<Byte>, b: seq<Byte>, again: bool)
    requires r.Stands(1, 0) && NextPtr(r.disk, r.ino, 1).None? && r.disk.blockSize <= STREAM_MAX_TRANSFER_SIZE
    modifies r
    ensures again && a == b == StreamBytes(r.disk, r.ino, 1, 0, r.disk.blockSize)
  {
    hide InodeContext.Stands, StreamBytes, NextPtr, Yields;
    var bs := r.disk.blockSize;
    OneBlockFile(r);
    var ok;
    ok, a := r.ReadInode(bs, 1, 0);
    again, b := r.ReadInode(bs, 1, 0);
  }

  lemma OneBlockFile(r: InodeContext)
    requires r.Stands(1, 0)
    ensures r.disk.blockSize > 0 && Start(r.disk.blockSize, 1) == r.disk.blockSize && Start(r.disk.blockSize, 0) == 0
    ensures EndsOnWholeBlock(r.disk.blockSize, 1, 0, r.disk.blockSize)
  {}

  /** Every byte of this disk is 7, except that blocks 0 and 21 are zero. */
  function SmallDisk(): Disk
  {
    Disk(1024, (a: nat) => seq(1024, (_: int) => if a == 0 || a == 21 then 0 else 7))
  }

  /** An inode with this many direct blocks and this singly indirect table. */
  function SmallInode(blocks: nat, single: nat): Inode
  {
    Inode(seq(DIRECT_COUNT, (i: int) => if i < blocks then 20 else 0), single, 0, 0)
  }

  lemma OneBlock()
    ensures SmallDisk().Valid() && SmallDisk().blockSize == 1024 && SmallInode(1, 0).Valid()
    ensures HoleFree(SmallDisk(), SmallInode(1, 0), 1) && Missing(SmallDisk(), SmallInode(1, 0), 1)
    ensures Yields(SmallDisk(), SmallInode(1, 0), 1) && NextPtr(SmallDisk(), SmallInode(1, 0), 1) == None
  {
    HoleFreeYields(SmallDisk(), SmallInode(1, 0), 1);
  }

  /** A file of one block on this disk: a second read succeeds where the file has ended. */
  method OneBlockTwice() returns (r: InodeContext, a: seq<Byte>, b: seq<Byte>, again: bool)
    ensures again && |a| == 1024 && a == b && HoleFree(r.disk, r.ino, 1) && Missing(r.disk, r.ino, 1)
  {
    hide SmallDisk, SmallInode, InodeContext.At, InodeContext.Stands, NextPtr, HoleFree, Yields, Missing, StreamBytes;
    OneBlock();
    r := new InodeContext(SmallDisk(), SmallInode(1, 0));
    r.Rewind(1);
    a, b, again := LastBlockTwice(r);
    StreamLength(r.disk, r.ino, 1);
  }

  lemma StreamLength(disk: Disk, ino: Inode, count: nat)
    requires disk.Valid() && ino.Valid()
    ensures |StreamBytes(disk, ino, count, 0, Start(disk.blockSize, count))| == Start(disk.blockSize, count) == disk.blockSize * count
  {
    BlocksLength(disk, ino, 0, count);
    StartIsProduct(disk.blockSize, count);
  }

  /** Twelve blocks and an empty singly indirect table. */
  lemma TwelveBlocks()
    ensures SmallDisk().Valid() && SmallDisk().blockSize == 1024 && SmallInode(12, 21).Valid()
    ensures HoleFree(SmallDisk(), SmallInode(12, 21), 12) && Missing(SmallDisk(), SmallInode(12, 21), 12)
    ensures Yields(SmallDisk(), SmallInode(12, 21), 13) && NextPtr(SmallDisk(), SmallInode(12, 21), 13) == None
  {
    var disk, ino := SmallDisk(), SmallInode(12, 21);
    TwelveInLayout();
    hide SmallDisk, SmallInode, NextPtr, Missing, EmptySingleTable;
    MissingBlock(disk, ino, 12);
    ZeroIsLast(disk, ino, 12);
    HoleFreeYields(disk, ino, 12);
  }

  lemma TwelveInLayout()
    ensures SmallDisk().Valid() && SmallDisk().blockSize == 1024 && SmallInode(12, 21).Valid()
    ensures HoleFree(SmallDisk(), SmallInode(12, 21), 12) && Missing(SmallDisk(), SmallInode(12, 21), 12)
    ensures EmptySingleTable(SmallDisk(), SmallInode(12, 21), 12)
  {
    var disk := SmallDisk();
    assert disk.Fanout() == 256 && Entry(disk, 21, 0) == 0;
  }

  /** A file of twelve blocks on this disk: thirteen blocks are read. */
  method ReadsPastEnd() returns (r: InodeContext, ok: bool, data: seq<Byte>)
    ensures ok && |data| == 13 * 1024 && HoleFree(r.disk, r.ino, 12) && Missing(r.disk, r.ino, 12)
  {
    hide SmallDisk, SmallInode, InodeContext.At, InodeContext.Stands, NextPtr, HoleFree, Yields, Missing, StreamBytes;
    TwelveBlocks();
    r := new InodeContext(SmallDisk(), SmallInode(12, 21));
    r.Rewind(13);
    StreamLength(r.disk, r.ino, 13);
    ok, data := r.ReadInode(13 * 1024, 13, 0);
  }
}
