/**
 Where an ext2 inode keeps its blocks.

 `Layout` is the on-disk format: twelve direct pointers, then one singly, one
 doubly and one triply indirect table of `Fanout` little-endian 32-bit pointers
 each.  `NextPtr` is what the lazy iterator of kernel/fs/fs_ext2.c produces,
 stream by stream, including its treatment of zero entries.  The two agree on
 every block of a file without holes.
 */
module Ext2Layout {
  import opened Basics

  const DIRECT_COUNT: nat := 12

  /** A disk of blocks of `blockSize` bytes, at least two pointers each, read by block address. */
  datatype Disk = Disk(blockSize: nat, read: nat -> seq<Byte>)
  {
    ghost predicate Valid()
    {
      && blockSize >= 8 && blockSize % 4 == 0
      && forall a: nat :: |read(a)| == blockSize
    }

    /** Pointers per table. */
    function Fanout(): (n: nat)
      ensures blockSize > 0 && blockSize % 4 == 0 ==> n > 0 && 4 * n == blockSize
    {
      blockSize / 4
    }
  }

  datatype Inode = Inode(direct: seq<nat>, single: nat, double: nat, triple: nat)
  {
    ghost predicate Valid()
    {
      |direct| == DIRECT_COUNT
    }
  }

  /** u32le_at */
  function U32At(buf: seq<Byte>, off: nat): nat
    requires off + 4 <= |buf|
  {
    var b0: int, b1: int, b2: int, b3: int := buf[off], buf[off + 1], buf[off + 2], buf[off + 3];
    b0 + 0x100 * b1 + 0x1_0000 * b2 + 0x100_0000 * b3
  }

  /** Four bytes in little-endian order stand for the number they are the base-256 digits of. */
  lemma U32Means(buf: seq<Byte>, off: nat, n: nat)
    requires off + 4 <= |buf| && n < 0x1_0000_0000
    requires buf[off] as int == n % 0x100 && buf[off + 1] as int == n / 0x100 % 0x100
    requires buf[off + 2] as int == n / 0x1_0000 % 0x100 && buf[off + 3] as int == n / 0x100_0000
    ensures U32At(buf, off) == n
  {
    assert n / 0x100 / 0x100 == n / 0x1_0000 && n / 0x1_0000 / 0x100 == n / 0x100_0000;
  }

  /** So different entries are different addresses, and every entry is one below 2^32. */
  lemma U32Injective(a: seq<Byte>, b: seq<Byte>, i: nat, j: nat)
    requires i + 4 <= |a| && j + 4 <= |b| && U32At(a, i) == U32At(b, j)
    ensures a[i..i + 4] == b[j..j + 4] && U32At(a, i) < 0x1_0000_0000
  {
    U32Digits(a, i);
    U32Digits(b, j);
  }

  lemma U32Digits(buf: seq<Byte>, off: nat)
    requires off + 4 <= |buf|
    ensures var n := U32At(buf, off);
            && n < 0x1_0000_0000
            && buf[off] as int == n % 0x100 && buf[off + 1] as int == n / 0x100 % 0x100
            && buf[off + 2] as int == n / 0x1_0000 % 0x100 && buf[off + 3] as int == n / 0x100_0000
  {
    var b0: int, b1: int, b2: int, b3: int := buf[off], buf[off + 1], buf[off + 2], buf[off + 3];
    var n := U32At(buf, off);
    assert n / 0x100 == b1 + 0x100 * b2 + 0x1_0000 * b3;
    assert n / 0x1_0000 == b2 + 0x100 * b3;
  }

  /** Entry j of the table in block `table`. */
  ghost function Entry(disk: Disk, table: nat, j: nat): nat
    requires disk.Valid() && j < disk.Fanout()
  {
    U32At(disk.read(table), 4 * j)
  }

  // ------------------------------------------------------------ the on-disk format

  /**
   The address of logical block k, and whether all tables on the way to it exist;
   a block beyond the triply indirect table has none.
   */
  ghost function Layout(disk: Disk, ino: Inode, k: nat): (nat, bool)
    requires disk.Valid() && ino.Valid()
  {
    var n := disk.Fanout();
    if k < DIRECT_COUNT then
      (ino.direct[k], true)
    else if k < DIRECT_COUNT + n then
      (Entry(disk, ino.single, k - DIRECT_COUNT), ino.single != 0)
    else if k < DIRECT_COUNT + n + n * n then
      var j := k - DIRECT_COUNT - n;
      Indirect(disk, ino.double, j / n, j % n)
    else
      var j := k - DIRECT_COUNT - n - n * n;
      TwiceIndirect(disk, ino.triple, j / n / n, j / n % n, j % n)
  }

  /** Entry v of the table that entry u of `table` points to. */
  ghost function Indirect(disk: Disk, table: nat, u: nat, v: nat): (nat, bool)
    requires disk.Valid()
  {
    if u < disk.Fanout() && v < disk.Fanout() then
      var t := Entry(disk, table, u);
      (Entry(disk, t, v), table != 0 && t != 0)
    else
      (0, false)
  }

  /** Entry w of the table that is reached through entries u and v. */
  ghost function TwiceIndirect(disk: Disk, table: nat, u: nat, v: nat, w: nat): (nat, bool)
    requires disk.Valid()
  {
    var (t, ok) := Indirect(disk, table, u, v);
    if ok && w < disk.Fanout() then (Entry(disk, t, w), t != 0) else (0, false)
  }

  /** A file of `count` blocks, none of them a hole and every table in place. */
  ghost predicate HoleFree(disk: Disk, ino: Inode, count: nat)
  {
    && disk.Valid() && ino.Valid()
    && forall k: nat :: k < count ==> Layout(disk, ino, k).0 != 0 && Layout(disk, ino, k).1
  }

  // ------------------------------------------------------------ the three streams

  /** The t-th pointer taken from the triply indirect table; zero entries are not noticed. */
  ghost function TripleNext(disk: Disk, ino: Inode, t: nat): Option<nat>
    requires disk.Valid() && ino.Valid()
  {
    if ino.triple == 0 || t >= disk.Fanout() then None else Some(Entry(disk, ino.triple, t))
  }

  /** The u-th doubly indirect table. */
  ghost function DoubleTable(disk: Disk, ino: Inode, u: nat): Option<nat>
    requires disk.Valid() && ino.Valid()
  {
    if u > 0 then TripleNext(disk, ino, u - 1)
    else if ino.double == 0 then None else Some(ino.double)
  }

  /** The d-th pointer taken from the doubly indirect tables; zero is the end. */
  ghost function DoubleNext(disk: Disk, ino: Inode, d: nat): Option<nat>
    requires disk.Valid() && ino.Valid()
  {
    var n := disk.Fanout();
    var table := DoubleTable(disk, ino, d / n);
    if table.None? then None
    else
      var p := Entry(disk, table.value, d % n);
      if p == 0 then None else Some(p)
  }

  /** The s-th singly indirect table. */
  ghost function SingleTable(disk: Disk, ino: Inode, s: nat): Option<nat>
    requires disk.Valid() && ino.Valid()
  {
    if s > 0 then DoubleNext(disk, ino, s - 1)
    else if ino.single == 0 then None else Some(ino.single)
  }

  /** The i-th entry of the singly indirect tables; a zero entry is the end unless it is the first of its table. */
  ghost function TableNext(disk: Disk, ino: Inode, i: nat): Option<nat>
    requires disk.Valid() && ino.Valid()
  {
    var n := disk.Fanout();
    var table := SingleTable(disk, ino, i / n);
    if table.None? then None
    else
      var p := Entry(disk, table.value, i % n);
      if p == 0 && i % n != 0 then None else Some(p)
  }

  /** The i-th block behind the indirect tables; the iterator does not get past a zero first entry once it has handed it out. */
  ghost function SingleNext(disk: Disk, ino: Inode, i: nat): Option<nat>
    requires disk.Valid() && ino.Valid()
  {
    if i % disk.Fanout() == 1 && TableNext(disk, ino, i - 1) == Some(0) then None else TableNext(disk, ino, i)
  }

  /** What the iterator yields as block k. */
  ghost function NextPtr(disk: Disk, ino: Inode, k: nat): Option<nat>
    requires disk.Valid() && ino.Valid()
  {
    if k >= DIRECT_COUNT then SingleNext(disk, ino, k - DIRECT_COUNT)
    else if ino.direct[k] == 0 then None else Some(ino.direct[k])
  }

  /** The iterator yields `count` blocks, whether or not the file has them. */
  ghost predicate Yields(disk: Disk, ino: Inode, count: nat)
  {
    && disk.Valid() && ino.Valid()
    && forall k: nat :: k < count ==> NextPtr(disk, ino, k).Some?
  }

  /** The address of the k-th block that the iterator yields. */
  ghost function BlockAt(disk: Disk, ino: Inode, k: nat): nat
    requires disk.Valid() && ino.Valid()
  {
    var p := NextPtr(disk, ino, k);
    if p.Some? then p.value else 0
  }

  /** For every n: the iterator yields n blocks, or it ends before. */
  lemma {:induction false} StreamEnds(disk: Disk, ino: Inode, n: nat) returns (count: nat)
    requires disk.Valid() && ino.Valid()
    ensures count <= n && Yields(disk, ino, count) && (count == n || NextPtr(disk, ino, count).None?)
  {
    hide NextPtr;
    count := 0;
    if n > 0 {
      count := StreamEnds(disk, ino, n - 1);
      if count == n - 1 && NextPtr(disk, ino, count).Some? {
        count := n;
      }
    }
  }

  // ------------------------------------------------------------ arithmetic of the tables

  lemma QuotientUnique(x: nat, n: nat, q: nat, r: nat)
    requires n > 0 && r < n && x == q * n + r
    ensures x / n == q && x % n == r
  {
    var d := x / n - q;
    assert d >= 1 ==> d * n >= n;
    assert d <= -1 ==> d * n + n <= 0;
    assert d * n == (x / n) * n - q * n == r - x % n;
  }

  lemma QuotientBelow(x: nat, n: nat, m: nat)
    requires n > 0 && x < m * n
    ensures x / n < m
  {
    var q := x / n;
    assert q >= m ==> q * n >= m * n;
    assert q * n <= x;
  }

  /** Adding whole tables moves the quotient and keeps the remainder. */
  lemma SkipTables(j: nat, m: nat, n: nat)
    requires n > 0
    ensures (j + m * n) / n == j / n + m && (j + m * n) % n == j % n
  {
    assert j + m * n == (j / n + m) * n + j % n;
    QuotientUnique(j + m * n, n, j / n + m, j % n);
  }

  /** The position after i-1, seen as a table and an entry. */
  lemma NextEntry(i: nat, n: nat)
    requires n > 0 && i > 0
    ensures (i - 1) % n + 1 == n ==> i % n == 0 && i / n == (i - 1) / n + 1
    ensures (i - 1) % n + 1 != n ==> i % n == (i - 1) % n + 1 && i / n == (i - 1) / n
  {
    var q, r := (i - 1) / n, (i - 1) % n;
    assert i - 1 == q * n + r;
    if r + 1 == n {
      assert i == (q + 1) * n + 0;
      QuotientUnique(i, n, q + 1, 0);
    } else {
      QuotientUnique(i, n, q, r + 1);
    }
  }

  /** Block k of the doubly indirect region, as the streams count it. */
  lemma DoublePosition(k: nat, n: nat)
    requires n > 0 && DIRECT_COUNT + n <= k < DIRECT_COUNT + n + n * n
    ensures var j := k - DIRECT_COUNT - n;
            && (k - DIRECT_COUNT) / n == j / n + 1 && (k - DIRECT_COUNT) % n == j % n
            && j / n < n && j / n / n == 0 && j / n % n == j / n
  {
    var j := k - DIRECT_COUNT - n;
    SkipTables(j, 1, n);
    QuotientBelow(j, n, n);
    QuotientUnique(j / n, n, 0, j / n);
  }

  /** Block k at or behind the triply indirect region, as the streams count it. */
  lemma TriplePosition(k: nat, n: nat) returns (q: nat, u: nat, v: nat, w: nat)
    requires n > 0 && DIRECT_COUNT + n + n * n <= k
    ensures var j := k - DIRECT_COUNT - n - n * n; q == j / n && w == j % n && u == q / n && v == q % n
    ensures (k - DIRECT_COUNT) / n == q + n + 1 && (k - DIRECT_COUNT) % n == w
    ensures (q + n) / n == u + 1 && (q + n) % n == v
  {
    var j := k - DIRECT_COUNT - n - n * n;
    q, w := j / n, j % n;
    u, v := q / n, q % n;
    SkipTables(j, n + 1, n);
    assert k - DIRECT_COUNT == j + (n + 1) * n;
    SkipTables(q, 1, n);
  }

  // ------------------------------------------------------------ agreement

  /** On a file without holes the iterator yields exactly the layout's blocks. */
  lemma {:induction false} IteratorFollowsLayout(disk: Disk, ino: Inode, count: nat, k: nat)
    requires HoleFree(disk, ino, count) && k < count
    ensures NextPtr(disk, ino, k) == Some(Layout(disk, ino, k).0)
  {
    var n := disk.Fanout();
    assert Layout(disk, ino, k).0 != 0 && Layout(disk, ino, k).1;
    if k > 0 {
      IteratorFollowsLayout(disk, ino, count, k - 1);
      assert Layout(disk, ino, k - 1).0 != 0;
      NextToFirst(disk, ino, k);
      hide NextPtr, SingleNext;
    }
    if k < DIRECT_COUNT {
    } else if k < DIRECT_COUNT + n {
      QuotientUnique(k - DIRECT_COUNT, n, 0, k - DIRECT_COUNT);
    } else if k < DIRECT_COUNT + n + n * n {
      DoubleRegion(disk, ino, k);
    } else {
      TripleRegion(disk, ino, k);
    }
  }

  /** Right behind a block that is not zero the iterator takes the next entry. */
  lemma NextToFirst(disk: Disk, ino: Inode, k: nat)
    requires disk.Valid() && ino.Valid() && k > 0 && NextPtr(disk, ino, k - 1).Some? && NextPtr(disk, ino, k - 1) != Some(0)
    ensures k >= DIRECT_COUNT ==> NextPtr(disk, ino, k) == TableNext(disk, ino, k - DIRECT_COUNT)
    ensures k < DIRECT_COUNT ==> NextPtr(disk, ino, k) == if ino.direct[k] == 0 then None else Some(ino.direct[k])
  {
    if k > DIRECT_COUNT && (k - DIRECT_COUNT) % disk.Fanout() == 1 {
      var i, n := k - DIRECT_COUNT, disk.Fanout();
      QuotientUnique(i - 1, n, i / n, 0);
    }
  }

  /** Where the iterator stands after a zero first entry. */
  lemma AfterZero(disk: Disk, ino: Inode, i: nat)
    requires disk.Valid() && ino.Valid() && i > 0
    ensures var n := disk.Fanout();
            TableNext(disk, ino, i - 1) == Some(0) ==>
              (i - 1) % n == 0 && i % n == 1 && Entry(disk, SingleTable(disk, ino, (i - 1) / n).value, 0) == 0
    ensures i % disk.Fanout() == 0 ==> TableNext(disk, ino, i - 1) != Some(0)
  {
    var n := disk.Fanout();
    if (i - 1) % n == 0 {
      QuotientUnique(i, n, (i - 1) / n, 1);
    }
  }

  /** A zero that is handed out is the last block the iterator yields. */
  lemma ZeroIsLast(disk: Disk, ino: Inode, k: nat)
    requires disk.Valid() && ino.Valid() && NextPtr(disk, ino, k) == Some(0)
    ensures NextPtr(disk, ino, k + 1) == None
  {
    var i, n := k - DIRECT_COUNT, disk.Fanout();
    QuotientUnique(i + 1, n, i / n, 1);
  }

  /** Every block of a file without holes is yielded. */
  lemma HoleFreeYields(disk: Disk, ino: Inode, count: nat)
    requires HoleFree(disk, ino, count)
    ensures Yields(disk, ino, count)
    ensures forall k: nat :: k < count ==> BlockAt(disk, ino, k) == Layout(disk, ino, k).0
  {
    hide NextPtr, Layout;
    forall k: nat | k < count
      ensures NextPtr(disk, ino, k).Some? && BlockAt(disk, ino, k) == Layout(disk, ino, k).0
    {
      IteratorFollowsLayout(disk, ino, count, k);
    }
  }

  lemma DoubleRegion(disk: Disk, ino: Inode, k: nat)
    requires disk.Valid() && ino.Valid()
    requires DIRECT_COUNT + disk.Fanout() <= k < DIRECT_COUNT + disk.Fanout() + disk.Fanout() * disk.Fanout()
    requires Layout(disk, ino, k).0 != 0 && Layout(disk, ino, k).1
    ensures TableNext(disk, ino, k - DIRECT_COUNT) == Some(Layout(disk, ino, k).0)
  {
    var n := disk.Fanout();
    var j := k - DIRECT_COUNT - n;
    DoublePosition(k, n);
    assert DoubleNext(disk, ino, j / n) == Some(Entry(disk, ino.double, j / n));
  }

  lemma TripleRegion(disk: Disk, ino: Inode, k: nat)
    requires disk.Valid() && ino.Valid()
    requires DIRECT_COUNT + disk.Fanout() + disk.Fanout() * disk.Fanout() <= k
    requires Layout(disk, ino, k).0 != 0 && Layout(disk, ino, k).1
    ensures TableNext(disk, ino, k - DIRECT_COUNT) == Some(Layout(disk, ino, k).0)
  {
    var q, u, v, w := TriplePosition(k, disk.Fanout());
    TripleStream(disk, ino, k - DIRECT_COUNT, q + disk.Fanout(), u, v, w);
  }

  lemma TripleStream(disk: Disk, ino: Inode, i: nat, d: nat, u: nat, v: nat, w: nat)
    requires disk.Valid() && ino.Valid()
    requires i / disk.Fanout() == d + 1 && i % disk.Fanout() == w
    requires d / disk.Fanout() == u + 1 && d % disk.Fanout() == v
    requires TwiceIndirect(disk, ino.triple, u, v, w).0 != 0 && TwiceIndirect(disk, ino.triple, u, v, w).1
    ensures TableNext(disk, ino, i) == Some(TwiceIndirect(disk, ino.triple, u, v, w).0)
  {
    assert DoubleTable(disk, ino, u + 1) == Some(Entry(disk, ino.triple, u));
    assert DoubleNext(disk, ino, d) == Some(Indirect(disk, ino.triple, u, v).0);
  }

  // ------------------------------------------------------------ the end of a file

  /** Block k has no address, or a table on the way to it is missing. */
  ghost predicate Missing(disk: Disk, ino: Inode, k: nat)
    requires disk.Valid() && ino.Valid()
  {
    Layout(disk, ino, k).0 == 0 || !Layout(disk, ino, k).1
  }

  /** Block k would be the first of a singly indirect table that exists, and that entry is zero. */
  ghost predicate EmptySingleTable(disk: Disk, ino: Inode, k: nat)
    requires disk.Valid() && ino.Valid()
  {
    k >= DIRECT_COUNT && (k - DIRECT_COUNT) % disk.Fanout() == 0 && Layout(disk, ino, k).0 == 0 && Layout(disk, ino, k).1
  }

  /** The number of entries of the triply indirect table before the one that block k needs. */
  ghost function TripleEntry(disk: Disk, k: nat): nat
    requires disk.Valid() && k >= DIRECT_COUNT + disk.Fanout() + disk.Fanout() * disk.Fanout()
  {
    (k - DIRECT_COUNT - disk.Fanout() - disk.Fanout() * disk.Fanout()) / disk.Fanout() / disk.Fanout()
  }

  /** Block k is the first one behind its entry of the triply indirect table. */
  ghost predicate FirstOfTriple(disk: Disk, k: nat)
    requires disk.Valid()
  {
    var n := disk.Fanout();
    k >= DIRECT_COUNT + n + n * n && var j := k - DIRECT_COUNT - n - n * n; j / n % n == 0 && j % n == 0
  }

  /** Block k needs an entry of the triply indirect table that exists and is zero. */
  ghost predicate TripleHole(disk: Disk, ino: Inode, k: nat)
    requires disk.Valid() && ino.Valid()
  {
    var n := disk.Fanout();
    k >= DIRECT_COUNT + n + n * n && ino.triple != 0 && TripleEntry(disk, k) < n && Entry(disk, ino.triple, TripleEntry(disk, k)) == 0
  }

  /**
   What the iterator yields for a missing block, wherever it is: the end, except that
   the zero first entry of a singly indirect table is handed out, and that a zero
   entry of the triply indirect table is followed into disk block 0.
   */
  lemma MissingBlock(disk: Disk, ino: Inode, k: nat)
    requires disk.Valid() && ino.Valid() && Missing(disk, ino, k)
    ensures EmptySingleTable(disk, ino, k) ==> NextPtr(disk, ino, k) == Some(0)
    ensures !EmptySingleTable(disk, ino, k) && !TripleHole(disk, ino, k) ==> NextPtr(disk, ino, k) == None
    ensures TripleHole(disk, ino, k) && FirstOfTriple(disk, k) ==>
              var stray := Entry(disk, 0, 0);
              NextPtr(disk, ino, k) == if stray == 0 then None else Some(Entry(disk, stray, 0))
  {
    var n := disk.Fanout();
    if k < DIRECT_COUNT {
    } else if k < DIRECT_COUNT + n {
      QuotientUnique(k - DIRECT_COUNT, n, 0, k - DIRECT_COUNT);
    } else if k < DIRECT_COUNT + n + n * n {
      DoubleEnd(disk, ino, k);
    } else {
      TripleEnd(disk, ino, k);
    }
  }

  lemma DoubleEnd(disk: Disk, ino: Inode, k: nat)
    requires disk.Valid() && ino.Valid() && Missing(disk, ino, k)
    requires DIRECT_COUNT + disk.Fanout() <= k < DIRECT_COUNT + disk.Fanout() + disk.Fanout() * disk.Fanout()
    ensures NextPtr(disk, ino, k) == if EmptySingleTable(disk, ino, k) then Some(0) else None
  {
    var n := disk.Fanout();
    DoublePosition(k, n);
    var j := k - DIRECT_COUNT - n;
    if ino.double != 0 && Entry(disk, ino.double, j / n) != 0 {
      assert DoubleNext(disk, ino, j / n) == Some(Entry(disk, ino.double, j / n));
    } else {
      assert DoubleNext(disk, ino, j / n) == None;
    }
  }

  lemma TripleEnd(disk: Disk, ino: Inode, k: nat)
    requires disk.Valid() && ino.Valid() && Missing(disk, ino, k)
    requires DIRECT_COUNT + disk.Fanout() + disk.Fanout() * disk.Fanout() <= k
    ensures !TripleHole(disk, ino, k) ==> NextPtr(disk, ino, k) == if EmptySingleTable(disk, ino, k) then Some(0) else None
    ensures TripleHole(disk, ino, k) ==> !EmptySingleTable(disk, ino, k)
    ensures TripleHole(disk, ino, k) && FirstOfTriple(disk, k) ==>
              var stray := Entry(disk, 0, 0);
              NextPtr(disk, ino, k) == if stray == 0 then None else Some(Entry(disk, stray, 0))
  {
    var n := disk.Fanout();
    var q, u, v, w := TriplePosition(k, n);
    var d := q + n;
    assert SingleTable(disk, ino, d + 1) == DoubleNext(disk, ino, d);
    assert DoubleTable(disk, ino, u + 1) == TripleNext(disk, ino, u);
    if ino.triple == 0 || u >= n {
      assert DoubleNext(disk, ino, d) == None;
    } else {
      var t := Entry(disk, ino.triple, u);
      assert DoubleNext(disk, ino, d) == if Entry(disk, t, v) == 0 then None else Some(Entry(disk, t, v));
    }
  }

  /**
   A file that ends exactly with the m-th doubly indirect table of its triply
   indirect table: the zero entry m is taken for a table, so whether the end is
   noticed depends on the first word of disk block 0.
   */
  lemma EndInsideTripleTable(disk: Disk, ino: Inode, m: nat)
    requires disk.Valid() && ino.Valid() && ino.triple != 0 && 0 < m < disk.Fanout()
    requires Entry(disk, ino.triple, m) == 0
    ensures var n := disk.Fanout();
            var stray := Entry(disk, 0, 0);
            NextPtr(disk, ino, DIRECT_COUNT + n + n * n + m * n * n)
            == if stray == 0 then None else Some(Entry(disk, stray, 0))
  {
    var n := disk.Fanout();
    MultipleDigits(m, n);
    var k := DIRECT_COUNT + n + n * n + m * n * n;
    var q, u, v, w := TriplePosition(k, n);
    assert k - DIRECT_COUNT - n - n * n == m * n * n;
    assert q == m * n && w == 0 && u == m && v == 0;
    assert DoubleTable(disk, ino, m + 1) == Some(0);
    assert DoubleNext(disk, ino, q + n) == if Entry(disk, 0, 0) == 0 then None else Some(Entry(disk, 0, 0));
  }

  lemma MultipleDigits(m: nat, n: nat)
    requires n > 0
    ensures (m * n * n) / n == m * n && (m * n * n) % n == 0
    ensures (m * n) / n == m && (m * n) % n == 0
  {
    QuotientUnique(m * n * n, n, m * n, 0);
    QuotientUnique(m * n, n, m, 0);
  }

  /** In a hole-free file, the first block that needs a zero entry of the triply indirect table is the first behind it. */
  lemma HoleComesFirst(disk: Disk, ino: Inode, count: nat)
    requires HoleFree(disk, ino, count) && TripleHole(disk, ino, count)
    ensures FirstOfTriple(disk, count)
  {
    if !FirstOfTriple(disk, count) {
      HoleBefore(disk, ino, count);
    }
  }

  lemma HoleBefore(disk: Disk, ino: Inode, k: nat)
    requires disk.Valid() && ino.Valid() && TripleHole(disk, ino, k) && !FirstOfTriple(disk, k)
    ensures k > 0 && !Layout(disk, ino, k - 1).1
  {
    var n := disk.Fanout();
    var j := k - DIRECT_COUNT - n - n * n;
    SameTripleEntry(j, n);
    assert TwiceIndirect(disk, ino.triple, (j - 1) / n / n, (j - 1) / n % n, (j - 1) % n) == (0, false);
  }

  /** A position that is not the first behind its entry has its predecessor behind the same one. */
  lemma SameTripleEntry(j: nat, n: nat)
    requires n > 0 && !(j / n % n == 0 && j % n == 0)
    ensures j > 0 && (j - 1) / n / n == j / n / n
  {
    QuotientUnique(0, n, 0, 0);
    if j > 0 {
      NextEntry(j, n);
      if j % n == 0 {
        NextEntry(j / n, n);
      }
    }
  }

  /**
   The iterator recognises the end of a hole-free file if and only if the next block
   is not the zero first entry of an existing singly indirect table, and does not need
   a zero entry of the triply indirect table while disk block 0 starts with a
   non-zero word.
   */
  lemma EndNoticedExactly(disk: Disk, ino: Inode, count: nat)
    requires HoleFree(disk, ino, count) && Missing(disk, ino, count)
    ensures NextPtr(disk, ino, count).None? <==>
            !EmptySingleTable(disk, ino, count) && !(TripleHole(disk, ino, count) && Entry(disk, 0, 0) != 0)
  {
    MissingBlock(disk, ino, count);
    if TripleHole(disk, ino, count) {
      HoleComesFirst(disk, ino, count);
      TripleEnd(disk, ino, count);
    }
  }

  // ------------------------------------------------------------ files whose end is missed

  /** A disk of zeros. */
  ghost function BlankDisk(bs: nat): Disk
  {
    Disk(bs, (a: nat) => seq(bs, (_: int) => 0))
  }

  /** Twelve blocks, and a singly indirect table with nothing in it: the iterator yields block 0 as the thirteenth. */
  lemma EmptyTableMissed()
    ensures var disk, ino := BlankDisk(1024), Inode(seq(DIRECT_COUNT, (i: int) => 20), 21, 0, 0);
            HoleFree(disk, ino, 12) && Missing(disk, ino, 12) && NextPtr(disk, ino, 12) == Some(0)
  {
    var disk, ino := BlankDisk(1024), Inode(seq(DIRECT_COUNT, (i: int) => 20), 21, 0, 0);
    assert Entry(disk, 21, 0) == 0;
    assert disk.Fanout() == 256;
  }

  /** Every table of this disk is full of pointers to block 7, except that block 5 has one entry. */
  ghost function FullDisk(bs: nat): Disk
  {
    Disk(bs, (a: nat) => seq(bs, (i: int) => if i % 4 == 0 && (a != 5 || i < 4) then 7 else 0))
  }

  lemma FullDiskEntry(bs: nat, table: nat, j: nat)
    requires bs >= 8 && bs % 4 == 0 && j < bs / 4
    ensures FullDisk(bs).Valid() && Entry(FullDisk(bs), table, j) == if table != 5 || j == 0 then 7 else 0
  {
    var buf := FullDisk(bs).read(table);
    assert 4 * j + 4 <= bs;
    assert buf[4 * j] == (if table != 5 || j == 0 then 7 else 0) && buf[4 * j + 1] == 0 && buf[4 * j + 2] == 0 && buf[4 * j + 3] == 0;
  }

  const FULL_INODE := Inode(seq(DIRECT_COUNT, (i: int) => 7), 7, 7, 5)

  /** A file that ends with the first doubly indirect table of its triply indirect one: the iterator goes on through block 0. */
  lemma TripleEndMissed(bs: nat)
    requires bs >= 8 && bs % 4 == 0
    ensures var n := bs / 4;
            var count := DIRECT_COUNT + n + n * n + n * n;
            HoleFree(FullDisk(bs), FULL_INODE, count) && Missing(FullDisk(bs), FULL_INODE, count) && NextPtr(FullDisk(bs), FULL_INODE, count) == Some(7)
  {
    hide FullDisk, Layout, NextPtr;
    var disk, n := FullDisk(bs), bs / 4;
    var count := DIRECT_COUNT + n + n * n + n * n;
    FullDiskSize(bs);
    FullDiskEntry(bs, 0, 0);
    FullDiskEntry(bs, 5, 1);
    FullDiskEntry(bs, 7, 0);
    forall k: nat | k < count
      ensures Layout(disk, FULL_INODE, k).0 != 0 && Layout(disk, FULL_INODE, k).1
    {
      FullBlock(bs, k);
    }
    assert n * n == 1 * n * n;
    EndInsideTripleTable(disk, FULL_INODE, 1);
    HoleIsMissing(disk, FULL_INODE, 1);
  }

  lemma HoleIsMissing(disk: Disk, ino: Inode, m: nat)
    requires disk.Valid() && ino.Valid() && 0 < m < disk.Fanout() && Entry(disk, ino.triple, m) == 0
    ensures var n := disk.Fanout(); Missing(disk, ino, DIRECT_COUNT + n + n * n + m * n * n)
  {
    var n := disk.Fanout();
    MultipleDigits(m, n);
    var k := DIRECT_COUNT + n + n * n + m * n * n;
    assert k - DIRECT_COUNT - n - n * n == m * n * n;
    assert Layout(disk, ino, k) == TwiceIndirect(disk, ino.triple, m, 0, 0);
  }

  lemma FullBlock(bs: nat, k: nat)
    requires bs >= 8 && bs % 4 == 0 && k < DIRECT_COUNT + bs / 4 + (bs / 4) * (bs / 4) + (bs / 4) * (bs / 4)
    ensures FullDisk(bs).Valid()
    ensures Layout(FullDisk(bs), FULL_INODE, k) == (7, true)
  {
    hide FullDisk, Indirect, TwiceIndirect, Entry;
    FullDiskEntry(bs, 7, 0);
    FullDiskSize(bs);
    var n := bs / 4;
    var square := n * n;
    assert FullDisk(bs).Fanout() == n;
    if DIRECT_COUNT <= k < DIRECT_COUNT + n {
      FullDiskEntry(bs, 7, k - DIRECT_COUNT);
    } else if DIRECT_COUNT + n <= k < DIRECT_COUNT + n + square {
      FullIndirect(bs, 7, k - DIRECT_COUNT - n);
    } else if DIRECT_COUNT + n + square <= k {
      FullTriple(bs, k - DIRECT_COUNT - n - square);
    }
  }

  lemma FullDiskSize(bs: nat)
    ensures FullDisk(bs).blockSize == bs
  {}

  lemma FullIndirect(bs: nat, table: nat, j: nat)
    requires bs >= 8 && bs % 4 == 0 && j < (bs / 4) * (bs / 4) && table == 7
    ensures FullDisk(bs).Valid() && FullDisk(bs).Fanout() == bs / 4 && j / (bs / 4) < bs / 4
    ensures Indirect(FullDisk(bs), table, j / (bs / 4), j % (bs / 4)) == (7, true)
  {
    hide FullDisk;
    var n := bs / 4;
    FullDiskSize(bs);
    QuotientBelow(j, n, n);
    var u, v := j / n, j % n;
    FullDiskEntry(bs, 7, u);
    FullDiskEntry(bs, 7, v);
  }

  lemma FullTriple(bs: nat, j: nat)
    requires bs >= 8 && bs % 4 == 0 && j < (bs / 4) * (bs / 4)
    ensures FullDisk(bs).Valid()
    ensures var n := bs / 4; TwiceIndirect(FullDisk(bs), 5, j / n / n, j / n % n, j % n) == (7, true)
  {
    hide FullDisk;
    var n := bs / 4;
    FullDiskSize(bs);
    QuotientBelow(j, n, n);
    QuotientUnique(j / n, n, 0, j / n);
    var v, w := j / n, j % n;
    FullDiskEntry(bs, 5, 0);
    FullDiskEntry(bs, 7, v);
    FullDiskEntry(bs, 7, w);
  }
}
