/**
 Reading sectors in kernel/dev/atadisk.c, by port I/O or through the bounce buffers
 of kernel/arch/i586/dev/idebus.c, on a drive that may fail at any moment.

 The drive's contents are a function from byte addresses to bytes (READ SECTORS and
 READ DMA of ACS-3, sections 7.21 and 7.28).  How far it gets with each command is
 another function; a transfer by DMA either comes to its end or is not used.
 */
module Ata {
  import opened Basics

  const SECTOR: nat := 512
  const MAX_SECTORS: nat := 256
  const MAX_RETRIES: nat := 3
  const PRD_MAX: nat := 65536

  /** One command to the drive. */
  datatype Attempt = Attempt(lba: nat, count: nat, attempt: nat, ok: bool)

  /** Attempt b follows attempt a: a retry of the same chunk, or the chunk after it. */
  ghost predicate Follows(a: Attempt, b: Attempt)
  {
    if a.ok then b.lba == a.lba + a.count && b.attempt == 0
    else b.lba == a.lba && b.count == a.count && b.attempt == a.attempt + 1
  }

  /** The sectors of the next command when `remaining` are wanted. */
  function ChunkOf(remaining: nat): nat
  {
    if MAX_SECTORS < remaining then MAX_SECTORS else remaining
  }

  /** Every command succeeded exactly if the drive delivered all its sectors. */
  ghost predicate Told(log: seq<Attempt>, delivers: nat -> nat)
  {
    forall i :: 0 <= i < |log| ==> (log[i].ok <==> log[i].count <= delivers(i))
  }

  /** The commands of one read: ordered chunks of 256 sectors, or of all that are left, none tried more than four times. */
  ghost predicate Orderly(log: seq<Attempt>, lba: nat, count: nat)
  {
    && (forall i :: 0 <= i < |log| ==>
          lba <= log[i].lba < lba + count && log[i].count == ChunkOf(lba + count - log[i].lba) && log[i].attempt <= MAX_RETRIES)
    && (log != [] ==> log[0].lba == lba && log[0].attempt == 0)
    && (forall i :: 1 <= i < |log| ==> Follows(log[i - 1], log[i]))
  }

  /** dest holds the n bytes of the medium from `start` on, at offset off. */
  ghost predicate Holds(dest: seq<Byte>, off: nat, media: nat -> Byte, start: nat, n: nat)
  {
    off + n <= |dest| && forall x :: off <= x < off + n ==> dest[x] == media(start + (x - off))
  }

  /** dest differs from was at most in [off, off + n). */
  ghost predicate OnlyIn(was: seq<Byte>, dest: seq<Byte>, off: nat, n: nat)
  {
    |was| == |dest| && forall x :: 0 <= x < |dest| && !(off <= x < off + n) ==> dest[x] == was[x]
  }

  class Controller {
    const media: nat -> Byte
    /** the physical region descriptors: length (0 stands for 65536), last flag, bounce buffer */
    const prdLen: array<nat>
    const prdLast: array<bool>
    const bounce: array2<Byte>
    /** the sectors that the drive delivers for the i-th command of the current read */
    const delivers: nat -> nat
    var commands: nat
    /** the commands of the current read */
    ghost var log: seq<Attempt>

    ghost predicate Sized()
    {
      prdLast.Length == prdLen.Length == bounce.Length0 && bounce.Length1 == PRD_MAX
    }

    /** The descriptors up to the first last one describe exactly len bytes. */
    ghost predicate Describes(len: nat)
      requires Sized()
      reads prdLen, prdLast
    {
      && 0 < len <= PRD_MAX * prdLen.Length
      && forall i :: 0 <= i < prdLen.Length && i * PRD_MAX < len ==>
           && Size(i) == (if len - i * PRD_MAX < PRD_MAX then len - i * PRD_MAX else PRD_MAX)
           && (prdLast[i] <==> len <= (i + 1) * PRD_MAX)
    }

    function Size(i: nat): nat
      requires i < prdLen.Length
      reads prdLen
    {
      if prdLen[i] == 0 then PRD_MAX else prdLen[i]
    }

    /** atadisk_op_dma_init_transfter, for a read */
    method DmaInit(len: nat)
      requires Sized() && 0 < len <= PRD_MAX * prdLen.Length
      modifies prdLen, prdLast
      ensures Describes(len)
    {
      var remaining, i := len, 0;
      while remaining != 0
        invariant 0 <= i <= prdLen.Length
        invariant remaining == if len <= i * PRD_MAX then 0 else len - i * PRD_MAX
        invariant forall k :: 0 <= k < i ==>
                    && k * PRD_MAX < len
                    && Size(k) == (if len - k * PRD_MAX < PRD_MAX then len - k * PRD_MAX else PRD_MAX)
                    && (prdLast[k] <==> len <= (k + 1) * PRD_MAX)
        decreases remaining
      {
        var current := remaining;
        if PRD_MAX < current {
          current := PRD_MAX;
        }
        prdLen[i] := if current == PRD_MAX then 0 else current;
        prdLast[i] := remaining <= PRD_MAX;
        remaining := remaining - current;
        i := i + 1;
      }
    }

    /** The bus master: bytes of the medium go to the regions in order, until the last one is full. */
    method DeviceTransfer(start: nat, ghost len: nat)
      requires Sized() && Describes(len)
      modifies bounce
      ensures forall i, j :: 0 <= i < prdLen.Length && i * PRD_MAX < len && 0 <= j < Size(i) ==> bounce[i, j] == media(start + i * PRD_MAX + j)
    {
      var i := 0;
      while true
        invariant 0 <= i < prdLen.Length && i * PRD_MAX < len
        invariant forall k, j :: 0 <= k < i && 0 <= j < Size(k) ==> bounce[k, j] == media(start + k * PRD_MAX + j)
        decreases prdLen.Length - i
      {
        forall j | 0 <= j < Size(i) {
          bounce[i, j] := media(start + i * PRD_MAX + j);
        }
        if prdLast[i] {
          break;
        }
        i := i + 1;
      }
    }

    /** atadisk_op_dma_end_transfer after success: the regions are gathered into the caller's buffer. */
    method DmaGather(dest: array<Byte>, off: nat, ghost start: nat, ghost len: nat)
      requires Sized() && Describes(len) && off + len <= dest.Length
      requires forall i, j :: 0 <= i < prdLen.Length && i * PRD_MAX < len && 0 <= j < Size(i) ==> bounce[i, j] == media(start + i * PRD_MAX + j)
      modifies dest
      ensures Holds(dest[..], off, media, start, len) && OnlyIn(old(dest[..]), dest[..], off, len)
    {
      for i := 0 to prdLen.Length
        invariant i * PRD_MAX < len || i == 0
        invariant Holds(dest[..], off, media, start, i * PRD_MAX) && OnlyIn(old(dest[..]), dest[..], off, i * PRD_MAX)
      {
        var size := Size(i);
        forall j | 0 <= j < size {
          dest[off + i * PRD_MAX + j] := bounce[i, j];
        }
        if prdLast[i] {
          return;
        }
      }
    }

    /** The word i of the data register for the sector at byte address `start`. */
    function DataWord(start: nat, i: nat): nat
    {
      media(start + 2 * i) + 256 * media(start + 2 * i + 1)
    }

    /** The copy of one sector in try_read_pio: each word gives its low byte, then its high byte. */
    method ReadWords(dest: array<Byte>, off: nat, start: nat)
      requires off + SECTOR <= dest.Length
      modifies dest
      ensures Holds(dest[..], off, media, start, SECTOR) && OnlyIn(old(dest[..]), dest[..], off, SECTOR)
    {
      for i := 0 to 256
        invariant Holds(dest[..], off, media, start, 2 * i) && OnlyIn(old(dest[..]), dest[..], off, 2 * i)
      {
        var w := DataWord(start, i);
        dest[off + 2 * i] := w % 256;
        dest[off + 2 * i + 1] := w / 256 % 256;
      }
    }

    /** try_read_pio: reads as many sectors as the drive delivers, and succeeds exactly if these are all. */
    method TryReadPio(dest: array<Byte>, off: nat, lba: nat, count: nat) returns (ok: bool)
      requires off + count * SECTOR <= dest.Length
      modifies dest
      ensures OnlyIn(old(dest[..]), dest[..], off, count * SECTOR)
      ensures ok <==> count <= delivers(commands)
      ensures Holds(dest[..], off, media, lba * SECTOR, (if ok then count else delivers(commands)) * SECTOR)
    {
      hide Controller.DataWord;
      for s := 0 to count
        invariant OnlyIn(old(dest[..]), dest[..], off, s * SECTOR)
        invariant Holds(dest[..], off, media, lba * SECTOR, s * SECTOR) && s <= delivers(commands)
      {
        if s == delivers(commands) {
          return false;
        }
        ghost var before := dest[..];
        ReadWords(dest, off + s * SECTOR, (lba + s) * SECTOR);
        NextSector(old(dest[..]), before, dest[..], off, s * SECTOR, lba * SECTOR, SECTOR);
      }
      return true;
    }

    /** A piece read behind a piece. */
    lemma NextSector(first: seq<Byte>, before: seq<Byte>, after: seq<Byte>, off: nat, n: nat, start: nat, m: nat)
      requires OnlyIn(first, before, off, n) && Holds(before, off, media, start, n)
      requires OnlyIn(before, after, off + n, m) && Holds(after, off + n, media, start + n, m)
      ensures OnlyIn(first, after, off, n + m) && Holds(after, off, media, start, n + m)
    {}

    /** try_read; each command to the drive is logged. */
    method TryRead(dest: array<Byte>, off: nat, canDma: bool, lba: nat, count: nat, ghost attempt: nat) returns (ok: bool)
      requires Sized() && 0 < count <= MAX_SECTORS && off + count * SECTOR <= dest.Length
      requires canDma ==> MAX_SECTORS * SECTOR <= PRD_MAX * prdLen.Length
      modifies dest, this`log, this`commands, prdLen, prdLast, bounce
      ensures OnlyIn(old(dest[..]), dest[..], off, count * SECTOR)
      ensures ok ==> Holds(dest[..], off, media, lba * SECTOR, count * SECTOR)
      ensures ok <==> count <= delivers(old(commands))
      ensures canDma && !ok ==> dest[..] == old(dest[..])
      ensures log == old(log) + [Attempt(lba, count, attempt, ok)] && commands == old(commands) + 1
    {
      if canDma {
        DmaInit(count * SECTOR);
        ok := count <= delivers(commands);
        if ok {
          DeviceTransfer(lba * SECTOR, count * SECTOR);
          DmaGather(dest, off, lba * SECTOR, count * SECTOR);
        }
      } else {
        ok := TryReadPio(dest, off, lba, count);
      }
      log := log + [Attempt(lba, count, attempt, ok)];
      commands := commands + 1;
    }

    /**
     The retry loop for one chunk: at most four attempts, and on success the chunk is
     in the buffer.
     */
    method ReadChunk(dest: array<Byte>, off: nat, canDma: bool, lba: nat, count: nat, ghost firstLba: nat, ghost total: nat) returns (ok: bool)
      requires Sized() && firstLba <= lba < firstLba + total && count == ChunkOf(firstLba + total - lba) && off + count * SECTOR <= dest.Length
      requires canDma ==> MAX_SECTORS * SECTOR <= PRD_MAX * prdLen.Length
      requires Orderly(log, firstLba, total) && Told(log, delivers) && commands == |log|
      requires Next(log, firstLba, lba)
      modifies dest, this`log, this`commands, prdLen, prdLast, bounce
      ensures OnlyIn(old(dest[..]), dest[..], off, count * SECTOR)
      ensures ok ==> Holds(dest[..], off, media, lba * SECTOR, count * SECTOR) && Next(log, firstLba, lba + count)
      ensures Orderly(log, firstLba, total) && Told(log, delivers) && commands == |log|
      ensures |old(log)| < |log| <= |old(log)| + 1 + MAX_RETRIES && old(log) <= log
      ensures !ok ==> log[|log| - 1] == Attempt(lba, count, MAX_RETRIES, false)
    {
      hide Orderly, Told, Holds, OnlyIn;
      OnlyInSame(dest[..], off, count * SECTOR);
      var attempt := 0;
      ok := false;
      while true
        invariant 0 <= attempt <= MAX_RETRIES && |log| == |old(log)| + attempt && old(log) <= log
        invariant Orderly(log, firstLba, total) && Told(log, delivers) && commands == |log|
        invariant if attempt == 0 then Next(log, firstLba, lba) else log[|log| - 1] == Attempt(lba, count, attempt - 1, false)
        invariant OnlyIn(old(dest[..]), dest[..], off, count * SECTOR)
        decreases MAX_RETRIES - attempt
      {
        ghost var before := dest[..];
        OrderlySnoc(log, firstLba, total, lba, count, attempt);
        ToldSnoc(log, delivers, lba, count, attempt);
        ok := TryRead(dest, off, canDma, lba, count, attempt);
        OnlyInTwice(old(dest[..]), before, dest[..], off, count * SECTOR);
        if ok {
          return;
        }
        if attempt == MAX_RETRIES {
          return;
        }
        attempt := attempt + 1;
      }
    }

    /** read_sectors */
    method ReadSectors(dest: array<Byte>, lba: nat, count: nat, canDma: bool) returns (ok: bool)
      requires Sized() && count * SECTOR <= dest.Length
      requires canDma ==> MAX_SECTORS * SECTOR <= PRD_MAX * prdLen.Length
      modifies dest, this`log, this`commands, prdLen, prdLast, bounce
      ensures ok ==> Holds(dest[..], 0, media, lba * SECTOR, count * SECTOR)
      ensures OnlyIn(old(dest[..]), dest[..], 0, count * SECTOR)
      ensures Orderly(log, lba, count) && Told(log, delivers) && (ok ==> Next(log, lba, lba + count))
      // it gives up only after a chunk has failed four times
      ensures !ok ==> log != [] && log[|log| - 1].attempt == MAX_RETRIES && !log[|log| - 1].ok
    {
      hide Orderly, Next, Told;
      log, commands := [], 0;
      EmptyLog(lba, count);
      var remaining, done := count, 0;
      while remaining > 0
        invariant 0 <= remaining && 0 <= done && remaining + done == count
        invariant Holds(dest[..], 0, media, lba * SECTOR, done * SECTOR) && OnlyIn(old(dest[..]), dest[..], 0, done * SECTOR)
        invariant Orderly(log, lba, count) && Told(log, delivers) && commands == |log| && Next(log, lba, lba + done)
        decreases remaining
      {
        var current := remaining;
        if MAX_SECTORS < remaining {
          current := MAX_SECTORS;
        }
        ghost var before := dest[..];
        ok := ReadChunk(dest, done * SECTOR, canDma, lba + done, current, lba, count);
        if !ok {
          return;
        }
        NextSector(old(dest[..]), before, dest[..], 0, done * SECTOR, lba * SECTOR, current * SECTOR);
        remaining := remaining - current;
        done := done + current;
      }
      return true;
    }
  }

  /** Everything before sector lba has been read: the last command read up to it. */
  ghost predicate Next(log: seq<Attempt>, firstLba: nat, lba: nat)
  {
    if log == [] then lba == firstLba
    else var a := log[|log| - 1]; a.ok && a.lba + a.count == lba
  }

  /** A command that retries, or that goes on where the last one ended, is in order. */
  lemma OrderlySnoc(log: seq<Attempt>, firstLba: nat, total: nat, lba: nat, count: nat, attempt: nat)
    requires Orderly(log, firstLba, total) && firstLba <= lba < firstLba + total
    requires count == ChunkOf(firstLba + total - lba) && attempt <= MAX_RETRIES
    requires if attempt == 0 then Next(log, firstLba, lba) else log != [] && log[|log| - 1] == Attempt(lba, count, attempt - 1, false)
    ensures forall ok :: Orderly(log + [Attempt(lba, count, attempt, ok)], firstLba, total)
  {}

  lemma OnlyInSame(s: seq<Byte>, off: nat, n: nat)
    ensures OnlyIn(s, s, off, n)
  {}

  lemma OnlyInTwice(a: seq<Byte>, b: seq<Byte>, c: seq<Byte>, off: nat, n: nat)
    requires OnlyIn(a, b, off, n) && OnlyIn(b, c, off, n)
    ensures OnlyIn(a, c, off, n)
  {}

  lemma EmptyLog(lba: nat, count: nat)
    ensures Orderly([], lba, count) && Next([], lba, lba) && forall f: nat -> nat :: Told([], f)
  {}

  lemma ToldSnoc(log: seq<Attempt>, delivers: nat -> nat, lba: nat, count: nat, attempt: nat)
    requires Told(log, delivers)
    ensures Told(log + [Attempt(lba, count, attempt, count <= delivers(|log|))], delivers)
  {}

  /** A read fails only on four short answers in a row for the same chunk. */
  lemma FourShortAnswers(log: seq<Attempt>, delivers: nat -> nat, lba: nat, count: nat)
    requires Orderly(log, lba, count) && Told(log, delivers) && log != []
    requires log[|log| - 1].attempt == MAX_RETRIES && !log[|log| - 1].ok
    ensures |log| >= 4 && forall i :: |log| - 4 <= i < |log| ==> delivers(i) < log[|log| - 1].count && log[i].lba == log[|log| - 1].lba
  {
    var n := |log|;
    assert n >= 2 && Follows(log[n - 2], log[n - 1]);
    assert n >= 3 && Follows(log[n - 3], log[n - 2]);
    assert n >= 4 && Follows(log[n - 4], log[n - 3]);
  }
}
