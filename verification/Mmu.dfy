/**
 The page tables of kernel/arch/i586/mmu.c and the processor's translation cache.

 The cache is hardware state: at any moment the processor may drop translations
 and may cache the translation of any page that the tables map (section 4.10 of
 Intel SDM Volume 3A).  `Speculate` is that freedom; it stands after every store
 to a table, so the results hold for walks between any two stores.
 */
module Mmu {
  import opened Basics
  import opened Words
  import Bitmaps

  const ENTRY_COUNT := 1024
  /** Page numbers from here on belong to the recursive window on the tables themselves. */
  const WINDOW := 1023 * 1024
  const SCRATCH_PDE := 1022
  const SCRATCH_PTE := 1023
  const SCRATCH_PAGE := 1022 * 1024 + 1023

  // bit numbers of the flags of a table entry
  const P: nat := 0
  const RW: nat := 1
  const US: nat := 2
  const PCD: nat := 4

  // bit numbers of the map flags
  const PROT_READ: nat := 0
  const PROT_WRITE: nat := 1
  const PROT_NOCACHE: nat := 3

  datatype Status = Done | EPerm | EFault

  /** word & (1 << k) */
  predicate Flag(w: Word, k: nat) { And(w, Shl(1, k)) != 0 }
  /** word | (1 << k) */
  function Set(w: Word, k: nat): Word { Or(w, Shl(1, k)) }

  predicate Present(e: Word) { Flag(e, P) }
  predicate Writable(e: Word) { Flag(e, RW) }
  predicate UserMay(e: Word) { Flag(e, US) }
  predicate Uncached(e: Word) { Flag(e, PCD) }
  function Frame(e: Word): Word { And(e, Not(0xfff)) }
  predicate Aligned(phys: nat) { phys % PAGE_SIZE == 0 }

  function PageOf(virt: nat): nat { virt / PAGE_SIZE }
  function PdeIndex(virt: nat): nat { virt / 0x40_0000 % ENTRY_COUNT }
  function PteIndex(virt: nat): nat { virt / PAGE_SIZE % ENTRY_COUNT }

  lemma Indices(virt: nat)
    requires virt <= SIZE_MAX
    ensures PdeIndex(virt) == PageOf(virt) / ENTRY_COUNT && PteIndex(virt) == PageOf(virt) % ENTRY_COUNT
    ensures PageOf(virt) < ENTRY_COUNT * ENTRY_COUNT
  {}

  /** A translation in the processor's cache, with the rights it grants. */
  datatype Cached = Cached(page: nat, frame: Word, rw: bool, us: bool, pcd: bool)

  /** The cached rights allow the access. */
  ghost predicate Allows(c: Cached, write: bool, user: bool)
  {
    (write ==> c.rw) && (user ==> c.us)
  }

  /** c leads to the frame of entries d and e and grants no right that they do not grant. */
  ghost predicate Within(c: Cached, d: Word, e: Word)
  {
    && Present(d) && Present(e) && c.frame == Frame(e)
    && (c.rw ==> Writable(d) && Writable(e)) && (c.us ==> UserMay(d) && UserMay(e))
  }

  /** c is what a walk over entries d and e caches. */
  ghost predicate Walked(c: Cached, d: Word, e: Word)
  {
    && Present(d) && Present(e) && c.frame == Frame(e)
    && (c.rw <==> Writable(d) && Writable(e)) && (c.us <==> UserMay(d) && UserMay(e)) && (c.pcd <==> Uncached(e))
  }

  /** Entry `lower` maps no more than entry `upper`. */
  ghost predicate NoMore(lower: Word, upper: Word)
  {
    Present(lower) ==>
      Present(upper) && Frame(lower) == Frame(upper)
      && (Writable(lower) ==> Writable(upper)) && (UserMay(lower) ==> UserMay(upper))
  }

  /** The flags in numbers: figure 4-4 of Intel SDM Volume 3A, and the values of the map flags. */
  lemma FlagsInNumbers(e: Word)
    ensures Present(e) <==> e % 2 == 1
    ensures Writable(e) <==> e / 2 % 2 == 1
    ensures UserMay(e) <==> e / 4 % 2 == 1
    ensures Uncached(e) <==> e / 16 % 2 == 1
    ensures Flag(e, PROT_READ) <==> e % 2 == 1
    ensures Flag(e, PROT_WRITE) <==> e / 2 % 2 == 1
    ensures Flag(e, PROT_NOCACHE) <==> e / 8 % 2 == 1
  {
    hide And, Shl;
    Bitmaps.SingleBitTest(e, 0);
    Bitmaps.SingleBitTest(e, 1);
    Bitmaps.SingleBitTest(e, 2);
    Bitmaps.SingleBitTest(e, 3);
    Bitmaps.SingleBitTest(e, 4);
    assert e / 2 / 2 == e / 4 && e / 4 / 2 == e / 8 && e / 8 / 2 == e / 16;
    assert Shr(e, 1) == e / 2;
    assert Shr(e, 2) == Shr(e / 2, 1) == e / 4;
    assert Shr(e, 3) == Shr(e / 2, 2) == Shr(e / 4, 1) == e / 8;
    assert Shr(e, 4) == Shr(e / 2, 3) == Shr(e / 4, 2) == Shr(e / 8, 1) == e / 16;
  }

  // ------------------------------------------------------------ the entries that are written

  lemma SetFlag(e: Word, k: nat, j: nat)
    requires k < WORD_BITS && j < WORD_BITS
    ensures Flag(Set(e, k), j) == (j == k || Flag(e, j))
  {
    hide And, Or, Bit, Shl;
    Bitmaps.SingleBitTest(Set(e, k), j);
    Bitmaps.SingleBitTest(e, j);
    BitOr(e, Shl(1, k), j);
    BitOfSingle(k, j);
  }

  lemma FrameBit(e: Word, i: nat)
    requires i < WORD_BITS
    ensures Bit(Frame(e), i) == (Bit(e, i) && 12 <= i)
  {
    hide And, Bit, Not;
    assert Pow2(12) == 0x1000;
    BitAnd(e, Not(0xfff), i);
    BitNot(0xfff, i);
    BitOfOnes(12, i);
  }

  lemma SetKeepsFrame(e: Word, k: nat)
    requires k < 12
    ensures Frame(Set(e, k)) == Frame(e)
  {
    hide And, Or, Bit, Shl, Not, Frame, Set;
    forall i: nat | i < WORD_BITS
      ensures Bit(Frame(Set(e, k)), i) == Bit(Frame(e), i)
    {
      FrameBit(Set(e, k), i);
      FrameBit(e, i);
      SetBits(e, k, i);
    }
    WordsEqual(Frame(Set(e, k)), Frame(e));
  }

  lemma SetBits(e: Word, k: nat, i: nat)
    requires k < WORD_BITS && i < WORD_BITS
    ensures Bit(Set(e, k), i) == (Bit(e, i) || i == k)
  {
    BitOr(e, Shl(1, k), i);
    BitOfSingle(k, i);
  }

  /** What setting flag k does to an entry. */
  lemma SetMeans(e: Word, k: nat)
    requires k < 12
    ensures var f := Set(e, k);
            && Frame(f) == Frame(e) && Present(f) == (k == P || Present(e))
            && Writable(f) == (k == RW || Writable(e)) && UserMay(f) == (k == US || UserMay(e))
            && Uncached(f) == (k == PCD || Uncached(e))
  {
    hide Flag, Set, Frame;
    SetKeepsFrame(e, k);
    SetFlag(e, k, P);
    SetFlag(e, k, RW);
    SetFlag(e, k, US);
    SetFlag(e, k, PCD);
  }

  lemma AlignedBit(phys: Word, i: nat)
    requires Aligned(phys) && i < 12
    ensures !Bit(phys, i)
  {
    hide Bit;
    assert Pow2(12) == 0x1000;
    BitOfMod(phys, 12, i);
    BitOfZero(i);
  }

  lemma AlignedMeans(phys: Word)
    requires Aligned(phys)
    ensures Frame(phys) == phys && !Present(phys) && !Writable(phys) && !UserMay(phys) && !Uncached(phys)
  {
    hide And, Or, Bit, Shl, Not, Frame, Aligned;
    forall i: nat | i < WORD_BITS
      ensures Bit(Frame(phys), i) == Bit(phys, i)
    {
      FrameBit(phys, i);
      if i < 12 {
        AlignedBit(phys, i);
      }
    }
    WordsEqual(Frame(phys), phys);
    forall i: nat | i < 12
      ensures !Flag(phys, i)
    {
      AlignedBit(phys, i);
      Bitmaps.SingleBitTest(phys, i);
    }
  }

  /** Rights and memory type are added to an entry one by one. */
  function WithWrite(e: Word, write: bool): Word { if write then Set(e, RW) else e }
  function WithNocache(e: Word, nocache: bool): Word { if nocache then Set(e, PCD) else e }
  function WithUser(e: Word, user: bool): Word { if user then Set(e, US) else e }

  function Added(e: Word, write: bool, nocache: bool, user: bool): Word
  {
    WithUser(WithNocache(WithWrite(e, write), nocache), user)
  }

  function MappedEntry(phys: Word, write: bool, nocache: bool, user: bool): Word
  {
    Added(Set(phys, P), write, nocache, user)
  }

  /** Adding rights one by one: what the entries mean, and none on the way maps more than the last. */
  lemma Adding(e: Word, write: bool, nocache: bool, user: bool)
    requires Present(e) && !Uncached(e)
    ensures var e2 := WithWrite(e, write);
            var e3 := WithNocache(e2, nocache);
            var f := WithUser(e3, user);
            && Present(f) && Frame(f) == Frame(e) && Writable(f) == (write || Writable(e)) && UserMay(f) == (user || UserMay(e))
            && Uncached(f) == nocache && !Uncached(e2) && Uncached(e3) == nocache && Present(e2) && Present(e3)
            && NoMore(e, f) && NoMore(e2, f) && NoMore(e3, f)
  {
    hide Present, Writable, UserMay, Uncached, Frame, Set;
    SetMeans(e, RW);
    SetMeans(WithWrite(e, write), PCD);
    SetMeans(WithNocache(WithWrite(e, write), nocache), US);
  }

  /** The entry maps the frame with exactly the rights asked for. */
  lemma MappedEntryMeans(phys: Word, write: bool, nocache: bool, user: bool)
    requires Aligned(phys)
    ensures var e := MappedEntry(phys, write, nocache, user);
            Present(e) && Frame(e) == phys && Writable(e) == write && UserMay(e) == user && Uncached(e) == nocache
  {
    hide Present, Writable, UserMay, Uncached, Frame, Set, WithUser, WithNocache, WithWrite, Aligned;
    AlignedMeans(phys);
    SetMeans(phys, P);
    Adding(Set(phys, P), write, nocache, user);
  }

  /** The condition under which map_single_page invalidates. */
  predicate MapFlushes(was: Word, phys: Word, write: bool, user: bool)
  {
    Present(was) && ((Writable(was) && !write) || (UserMay(was) && !user) || Frame(was) != phys)
  }

  /**
   The flush is skipped exactly when the old entry maps no more than the new one,
   so that what was cached from the old one stays within the new one.
   */
  lemma SkipExactlyWhenHarmless(was: Word, phys: Word, write: bool, nocache: bool, user: bool)
    requires Aligned(phys)
    ensures !MapFlushes(was, phys, write, user) <==> NoMore(was, MappedEntry(phys, write, nocache, user))
  {
    hide MappedEntry, Present, Writable, UserMay, Uncached, Frame;
    MappedEntryMeans(phys, write, nocache, user);
  }

  /**
   The condition under which rewriting a page entry keeps the cached memory types
   right: it ends in a flush, or the entry is neither uncached before nor after.  An
   entry that ends up uncached is stored without the flag first, so it is not enough
   that the type stays the same.
   */
  predicate TypeKept(was: Word, flush: bool, nocache: bool)
  {
    flush || (!nocache && (Present(was) ==> !Uncached(was)))
  }

  /** What remap_single_page keeps of an entry: its frame and its presence. */
  function Stripped(e: Word): Word
  {
    And(e, Not(And(0xfff, Not(Shl(1, P)))))
  }

  lemma StrippedBit(e: Word, i: nat)
    requires i < WORD_BITS
    ensures Bit(Stripped(e), i) == (Bit(e, i) && (12 <= i || i == P))
  {
    hide And, Bit, Not, Shl;
    assert Pow2(12) == 0x1000;
    BitAnd(e, Not(And(0xfff, Not(Shl(1, P)))), i);
    BitNot(And(0xfff, Not(Shl(1, P))), i);
    BitAnd(0xfff, Not(Shl(1, P)), i);
    BitNot(Shl(1, P), i);
    BitOfSingle(P, i);
    BitOfOnes(12, i);
  }

  lemma StrippedMeans(e: Word)
    ensures var f := Stripped(e);
            Frame(f) == Frame(e) && Present(f) == Present(e) && !Writable(f) && !UserMay(f) && !Uncached(f)
  {
    hide And, Bit, Not, Shl, Frame, Stripped;
    var f := Stripped(e);
    forall i: nat | i < WORD_BITS
      ensures Bit(Frame(f), i) == Bit(Frame(e), i)
    {
      StrippedBit(e, i);
      FrameBit(e, i);
      FrameBit(f, i);
    }
    WordsEqual(Frame(f), Frame(e));
    forall i: nat | i < 12
      ensures Flag(f, i) == (Flag(e, i) && i == P)
    {
      StrippedBit(e, i);
      Bitmaps.SingleBitTest(e, i);
      Bitmaps.SingleBitTest(f, i);
    }
  }

  function RemappedEntry(was: Word, write: bool, nocache: bool, user: bool): Word
  {
    Added(Stripped(was), write, nocache, user)
  }

  predicate RemapFlushes(was: Word, write: bool, user: bool)
  {
    (Writable(was) && !write) || (UserMay(was) && !user)
  }

  /** A remapped entry keeps its frame and has exactly the rights asked for; the flush is skipped exactly when that is harmless. */
  lemma RemappedEntryMeans(was: Word, write: bool, nocache: bool, user: bool)
    requires Present(was)
    ensures var e := RemappedEntry(was, write, nocache, user);
            && Present(e) && Frame(e) == Frame(was) && Writable(e) == write && UserMay(e) == user && Uncached(e) == nocache
            && (!RemapFlushes(was, write, user) <==> NoMore(was, e))
  {
    hide Present, Writable, UserMay, Uncached, Frame, Set, WithUser, WithNocache, WithWrite, Stripped;
    StrippedMeans(was);
    Adding(Stripped(was), write, nocache, user);
  }

  lemma PageStep(virt: nat, i: nat)
    ensures PageOf(virt + i * PAGE_SIZE) == PageOf(virt) + i
  {}

  /** The access is one that was asked for, and one that the directory entry d, if it was there, allows. */
  predicate AsAsked(d: Word, write: bool, user: bool, w: bool, u: bool)
  {
    (w ==> write && (Present(d) ==> Writable(d))) && (u ==> user && (Present(d) ==> UserMay(d)))
  }

  /** How many of the tables come before table k. */
  ghost function Rank(tables: set<nat>, k: nat): nat
  {
    |set x | x in tables && x < k|
  }

  /** The entry of a created table: the frame that is its turn, with every right. */
  ghost predicate NewTable(d: Word, missing: set<nat>, k: nat, frames: seq<(Word, seq<Word>)>)
  {
    Rank(missing, k) < |frames| && Frame(d) == frames[Rank(missing, k)].0 && Writable(d) && UserMay(d)
  }

  lemma TurnOf(d: Word, missing: set<nat>, k: nat, frames: seq<(Word, seq<Word>)>)
    requires Rank(missing, k) < |frames| && Frame(d) == frames[Rank(missing, k)].0 && Writable(d) && UserMay(d)
    ensures NewTable(d, missing, k, frames)
  {}

  /** The tables that the first i pages of the range do not need. */
  ghost function Ahead(tables: set<nat>, first: nat, i: nat): set<nat>
  {
    set k | k in tables && (i == 0 || (first + i - 1) / ENTRY_COUNT < k)
  }

  /** One page further, at most the table of that page is no longer ahead. */
  lemma NextAhead(tables: set<nat>, first: nat, i: nat)
    requires forall k :: k in tables ==> first / ENTRY_COUNT <= k
    ensures Ahead(tables, first, i + 1) == Ahead(tables, first, i) - {(first + i) / ENTRY_COUNT}
  {}

  lemma RankIs(tables: set<nat>, ahead: set<nat>, first: nat, i: nat)
    requires ahead == Ahead(tables, first, i) && (first + i) / ENTRY_COUNT in ahead
    requires forall k :: k in tables ==> first / ENTRY_COUNT <= k
    ensures Rank(tables, (first + i) / ENTRY_COUNT) == |tables| - |ahead|
  {
    var k := (first + i) / ENTRY_COUNT;
    var before := set x | x in tables && x < k;
    assert tables == before + ahead && before !! ahead;
  }

  /** The range has a page of table k. */
  ghost predicate Reaches(virtBase: nat, count: nat, k: nat)
  {
    0 < count && PageOf(virtBase) < (k + 1) * ENTRY_COUNT && k * ENTRY_COUNT < PageOf(virtBase) + count
  }

  class Mmu {
    const pagedir: array<Word>
    const pagetables: array2<Word>
    ghost var tlb: set<Cached>

    /** The tables at start, with nothing cached. */
    constructor (pd: array<Word>, pt: array2<Word>)
      requires pd.Length == ENTRY_COUNT && pt.Length0 == ENTRY_COUNT && pt.Length1 == ENTRY_COUNT
      ensures pagedir == pd && pagetables == pt && Sized() && Safe()
    {
      pagedir, pagetables, tlb := pd, pt, {};
    }

    ghost predicate Sized()
    {
      pagedir.Length == ENTRY_COUNT && pagetables.Length0 == ENTRY_COUNT && pagetables.Length1 == ENTRY_COUNT
    }

    ghost function Dir(page: nat): Word
      requires Sized() && page < ENTRY_COUNT * ENTRY_COUNT
      reads pagedir
    {
      pagedir[page / ENTRY_COUNT]
    }

    ghost function Entry(page: nat): Word
      requires Sized() && page < ENTRY_COUNT * ENTRY_COUNT
      reads pagetables
    {
      pagetables[page / ENTRY_COUNT, page % ENTRY_COUNT]
    }

    /** The cached translation matches the tables and grants no more. */
    ghost predicate Sound(c: Cached)
      requires Sized()
      reads pagedir, pagetables
    {
      c.page < ENTRY_COUNT * ENTRY_COUNT && Within(c, Dir(c.page), Entry(c.page))
    }

    /** Every cached translation is sound. */
    ghost predicate Safe()
      requires Sized()
      reads this`tlb, pagedir, pagetables
    {
      forall c :: c in tlb ==> Sound(c)
    }

    /** Every cached translation of another page is sound. */
    ghost predicate SafeBeside(page: nat)
      requires Sized()
      reads this`tlb, pagedir, pagetables
    {
      forall c :: c in tlb && c.page != page ==> Sound(c)
    }

    /** Every cached translation of the page is within entry e. */
    ghost predicate PageWithin(page: nat, e: Word)
      requires Sized() && page < ENTRY_COUNT * ENTRY_COUNT
      reads this`tlb, pagedir
    {
      forall c :: c in tlb && c.page == page ==> Within(c, Dir(page), e)
    }

    ghost predicate Walks(c: Cached)
      requires Sized()
      reads pagedir, pagetables
    {
      c.page < ENTRY_COUNT * ENTRY_COUNT && Walked(c, Dir(c.page), Entry(c.page))
    }

    /** What a walk over the tables caches for the page. */
    ghost function WalkOf(page: nat): Cached
      requires Sized() && page < ENTRY_COUNT * ENTRY_COUNT
      reads pagedir, pagetables
    {
      var d, e := Dir(page), Entry(page);
      Cached(page, Frame(e), Writable(d) && Writable(e), UserMay(d) && UserMay(e), Uncached(e))
    }

    /** The cached memory type is that of the tables. */
    ghost predicate Typed(c: Cached)
      requires Sized()
      reads pagetables
    {
      c.page < ENTRY_COUNT * ENTRY_COUNT && c.pcd == Uncached(Entry(c.page))
    }

    /** Every cached memory type is that of the tables. */
    ghost predicate FreshTypes()
      requires Sized()
      reads this`tlb, pagetables
    {
      forall c :: c in tlb ==> Typed(c)
    }

    ghost predicate TypesBeside(page: nat)
      requires Sized()
      reads this`tlb, pagetables
    {
      forall c :: c in tlb && c.page != page ==> Typed(c)
    }

    /** Every cached translation of the page has memory type v. */
    ghost predicate PageTyped(page: nat, v: bool)
      reads this`tlb
    {
      forall c :: c in tlb && c.page == page ==> c.pcd == v
    }

    /**
     The processor drops any translations and caches any walks; an eager one drops
     nothing and walks the page if it is mapped.
     */
    ghost method Speculate(page: nat, eager: bool)
      requires Sized() && page < ENTRY_COUNT * ENTRY_COUNT
      modifies this`tlb
      ensures forall c :: c in tlb ==> c in old(tlb) || Walks(c)
      ensures eager ==> old(tlb) <= tlb && (Present(Dir(page)) && Present(Entry(page)) ==> WalkOf(page) in tlb)
      ensures (old(Safe()) ==> Safe()) && (old(FreshTypes()) ==> FreshTypes())
    {
      hide Flag, Frame;
      if eager {
        tlb := tlb + if Present(Dir(page)) && Present(Entry(page)) then {WalkOf(page)} else {};
      } else {
        var kept: set<Cached> := *;
        var walked: set<Cached> := *;
        tlb := (set c | c in tlb && c in kept) + (set c | c in walked && Walks(c));
      }
    }

    /** arch_mmu_flush_tlb_for, followed by any walks. */
    method FlushTlbFor(virt: nat, ghost eager: bool)
      requires Sized() && virt <= SIZE_MAX
      modifies this`tlb
      ensures forall c :: c in tlb ==> (c in old(tlb) && c.page != PageOf(virt)) || Walks(c)
    {
      Indices(virt);
      tlb := set c | c in tlb && c.page != PageOf(virt);
      Speculate(PageOf(virt), eager);
    }

    /** A store to one table entry, followed by any walks. */
    method Store(virt: nat, e: Word, ghost eager: bool)
      requires Sized() && virt <= SIZE_MAX
      modifies pagetables, this`tlb
      ensures Entry(PageOf(virt)) == e
      ensures forall p: nat :: p < ENTRY_COUNT * ENTRY_COUNT && p != PageOf(virt) ==> Entry(p) == old(Entry(p))
      ensures forall c :: c in tlb ==> c in old(tlb) || Walks(c)
      ensures eager ==> old(tlb) <= tlb && (Present(Dir(PageOf(virt))) && Present(e) ==> WalkOf(PageOf(virt)) in tlb)
    {
      hide Flag, Frame;
      Indices(virt);
      pagetables[PdeIndex(virt), PteIndex(virt)] := e;
      Speculate(PageOf(virt), eager);
    }

    /** A store keeps other pages sound and typed, and this page within whatever covers both. */
    method StoreStep(virt: nat, e: Word, ghost bound: Word, ghost eager: bool)
      requires Sized() && virt <= SIZE_MAX && SafeBeside(PageOf(virt)) && Present(Dir(PageOf(virt)))
      modifies pagetables, this`tlb
      ensures SafeBeside(PageOf(virt)) && Entry(PageOf(virt)) == e
      ensures forall p: nat :: p < ENTRY_COUNT * ENTRY_COUNT && p != PageOf(virt) ==> Entry(p) == old(Entry(p))
      ensures old(PageWithin(PageOf(virt), bound)) && NoMore(e, bound) ==> PageWithin(PageOf(virt), bound)
      ensures old(TypesBeside(PageOf(virt))) ==> TypesBeside(PageOf(virt))
      ensures old(PageTyped(PageOf(virt), false)) && !Uncached(e) ==> PageTyped(PageOf(virt), false)
      ensures eager ==> old(tlb) <= tlb && (Present(e) ==> WalkOf(PageOf(virt)) in tlb)
    {
      hide Flag, Frame;
      Store(virt, e, eager);
    }

    /** After the flush, if it is needed, the page is sound again. */
    method Settle(virt: nat, flush: bool, ghost eager: bool)
      requires Sized() && virt <= SIZE_MAX && SafeBeside(PageOf(virt))
      requires !flush ==> PageWithin(PageOf(virt), Entry(PageOf(virt)))
      modifies this`tlb
      ensures Safe()
      ensures old(TypesBeside(PageOf(virt))) && (flush || old(PageTyped(PageOf(virt), Uncached(Entry(PageOf(virt)))))) ==> FreshTypes()
      ensures !flush ==> tlb == old(tlb)
    {
      hide Flag, Frame;
      if flush {
        FlushTlbFor(virt, eager);
      }
    }

    /** What is known of the page before its entry is rewritten. */
    lemma TypesAtStart(page: nat)
      requires Sized() && Safe() && page < ENTRY_COUNT * ENTRY_COUNT
      ensures FreshTypes() ==> TypesBeside(page)
      ensures FreshTypes() && (Present(Entry(page)) ==> !Uncached(Entry(page))) ==> PageTyped(page, false)
      ensures SafeBeside(page) && PageWithin(page, Entry(page))
    {
      hide Flag, Frame;
      forall c | c in tlb
        ensures Sound(c)
      {
      }
    }

    /** Two cached translations of a page with different types are not both right. */
    lemma StaleType(c: Cached)
      requires Sized() && c in tlb && c.page < ENTRY_COUNT * ENTRY_COUNT && c.pcd != Uncached(Entry(c.page))
      ensures !FreshTypes()
    {
      assert !Typed(c);
    }

    /**
     The stores that the mapping functions have in common: the entry is written
     without the flags that are still to come, the flags are added one by one, and the
     page is flushed if asked for.
     */
    method WriteEntry(virt: nat, first: Word, write: bool, nocache: bool, user: bool, flush: bool, ghost eager: bool)
      requires Sized() && Safe() && virt <= SIZE_MAX && Present(Dir(PageOf(virt))) && Present(first) && !Uncached(first)
      requires !flush ==> NoMore(Entry(PageOf(virt)), Added(first, write, nocache, user))
      modifies pagetables, this`tlb
      ensures Safe() && Entry(PageOf(virt)) == Added(first, write, nocache, user)
      ensures forall p: nat :: p < ENTRY_COUNT * ENTRY_COUNT && p != PageOf(virt) ==> Entry(p) == old(Entry(p))
      ensures old(FreshTypes()) && TypeKept(old(Entry(PageOf(virt))), flush, nocache) ==> FreshTypes()
      ensures eager && !TypeKept(old(Entry(PageOf(virt))), flush, nocache) ==> !FreshTypes()
    {
      hide Frame, Present, Writable, UserMay, Uncached, Flag, Set, Walked, Mmu.SafeBeside, Mmu.PageTyped, Mmu.TypesBeside, Mmu.FreshTypes;
      Indices(virt);
      Speculate(PageOf(virt), eager);
      TypesAtStart(PageOf(virt));
      ghost var before, final := WalkOf(PageOf(virt)), Added(first, write, nocache, user);
      Adding(first, write, nocache, user);
      WithinMore(PageOf(virt), Entry(PageOf(virt)), final);
      var e := first;
      StoreStep(virt, e, final, eager);
      ghost var bare := WalkOf(PageOf(virt));
      if write {
        e := Set(e, RW);
        StoreStep(virt, e, final, eager);
      }
      if nocache {
        e := Set(e, PCD);
        StoreStep(virt, e, final, eager);
      }
      if user {
        e := Set(e, US);
        StoreStep(virt, e, final, eager);
      }
      Settle(virt, flush, eager);
      if eager && !TypeKept(old(Entry(PageOf(virt))), flush, nocache) {
        StaleType(if nocache then bare else before);
      }
    }

    lemma WithinMore(page: nat, lower: Word, upper: Word)
      requires Sized() && page < ENTRY_COUNT * ENTRY_COUNT && PageWithin(page, lower)
      ensures NoMore(lower, upper) ==> PageWithin(page, upper)
    {
      hide Flag, Frame;
    }

    /** map_single_page */
    method MapSinglePage(virt: nat, phys: Word, flags: Word, user: bool, ghost eager: bool)
      requires Sized() && Safe() && virt <= SIZE_MAX && Present(Dir(PageOf(virt))) && Aligned(phys)
      modifies pagetables, this`tlb
      ensures Safe()
      ensures Entry(PageOf(virt)) == MappedEntry(phys, Flag(flags, PROT_WRITE), Flag(flags, PROT_NOCACHE), user)
      ensures forall p: nat :: p < ENTRY_COUNT * ENTRY_COUNT && p != PageOf(virt) ==> Entry(p) == old(Entry(p))
      // memory types stay right in every run if and only if the flush is made or no uncached entry is involved
      ensures old(FreshTypes()) && TypeKept(old(Entry(PageOf(virt))), MapFlushes(old(Entry(PageOf(virt))), phys, Flag(flags, PROT_WRITE), user), Flag(flags, PROT_NOCACHE)) ==> FreshTypes()
      ensures eager && !TypeKept(old(Entry(PageOf(virt))), MapFlushes(old(Entry(PageOf(virt))), phys, Flag(flags, PROT_WRITE), user), Flag(flags, PROT_NOCACHE)) ==> !FreshTypes()
    {
      hide Frame, Present, Writable, UserMay, Uncached, Aligned, Flag, Set, NoMore, Added, Mmu.Safe, Mmu.FreshTypes;
      Indices(virt);
      var oldpte := pagetables[PdeIndex(virt), PteIndex(virt)];
      var write, nocache := Flag(flags, PROT_WRITE), Flag(flags, PROT_NOCACHE);
      var shouldflush := false;
      if Present(oldpte) {
        if Writable(oldpte) && !write {
          shouldflush := true;
        }
        if UserMay(oldpte) && !user {
          shouldflush := true;
        }
        if Frame(oldpte) != phys {
          shouldflush := true;
        }
      }
      SkipExactlyWhenHarmless(oldpte, phys, write, nocache, user);
      AlignedMeans(phys);
      SetMeans(phys, P);
      WriteEntry(virt, Set(phys, P), write, nocache, user, shouldflush, eager);
    }

    /** The source's demands on a range of pages, which lies outside the recursive window. */
    ghost predicate GoodRange(virtBase: nat, count: nat)
    {
      virtBase != 0 && virtBase + count * PAGE_SIZE <= SIZE_MAX && PageOf(virtBase) + count <= WINDOW
    }

    ghost predicate TablesPresent(virtBase: nat, count: nat)
      requires Sized() && GoodRange(virtBase, count)
      reads pagedir
    {
      forall p: nat :: PageOf(virtBase) <= p < PageOf(virtBase) + count ==> Present(Dir(p))
    }

    ghost predicate Mapped(page: nat)
      requires Sized() && page < ENTRY_COUNT * ENTRY_COUNT
      reads pagedir, pagetables
    {
      Present(Dir(page)) && Present(Entry(page))
    }

    /** Every page of the range is mapped. */
    ghost predicate AllMapped(virtBase: nat, count: nat)
      requires Sized() && GoodRange(virtBase, count)
      reads pagedir, pagetables
    {
      forall p: nat :: PageOf(virtBase) <= p < PageOf(virtBase) + count ==> Mapped(p)
    }

    /** Every cached translation of a page outside table k is sound. */
    ghost predicate SafeBesideTable(k: nat)
      requires Sized()
      reads this`tlb, pagedir, pagetables
    {
      forall c :: c in tlb && c.page / ENTRY_COUNT != k ==> Sound(c)
    }

    /**
     create_pd.  The index is truncated to 8 bits, so the table of directory entry
     `pde` comes into being if and only if pde < 256, and whatever the truncated entry
     led to before is gone.  The new table shows the old contents of its frame until it
     is cleared, and the processor may walk them; the flushes at the end undo that.
     */
    method CreatePd(pde: nat, addr: Word, garbage: seq<Word>, ghost eager: bool)
      requires Sized() && Safe() && pde < ENTRY_COUNT && |garbage| == ENTRY_COUNT && Aligned(addr)
      modifies pagedir, pagetables, this`tlb
      ensures Safe() && Present(pagedir[pde % 256])
      ensures Frame(pagedir[pde % 256]) == addr && Writable(pagedir[pde % 256]) && UserMay(pagedir[pde % 256])
      ensures forall k :: 0 <= k < ENTRY_COUNT && k != pde % 256 ==> pagedir[k] == old(pagedir[k])
      ensures forall p: nat :: p < ENTRY_COUNT * ENTRY_COUNT ==>
                Entry(p) == if p / ENTRY_COUNT == pde % 256 then 0 else old(Entry(p))
      ensures !old(Present(pagedir[pde])) ==> (Present(pagedir[pde]) <==> pde < 256)
    {
      hide Flag, Frame, Present, Writable, UserMay, Uncached, Set, Aligned, Within;
      var k := pde % 256;
      DirectoryEntry(addr);
      ZeroEntry();
      pagedir[k] := Set(Set(Set(addr, P), RW), US);
      FillTable(k, garbage, eager);
      FillTable(k, seq(ENTRY_COUNT, (_: int) => 0), eager);
      FlushTable(k, eager);
    }

    /** Table k gets new contents. */
    method FillTable(k: nat, row: seq<Word>, ghost eager: bool)
      requires Sized() && k < 256 && |row| == ENTRY_COUNT && SafeBesideTable(k)
      modifies pagetables, this`tlb
      ensures SafeBesideTable(k)
      ensures forall j :: 0 <= j < ENTRY_COUNT ==> pagetables[k, j] == row[j]
      ensures forall p: nat :: p < ENTRY_COUNT * ENTRY_COUNT && p / ENTRY_COUNT != k ==> Entry(p) == old(Entry(p))
    {
      hide Flag, Frame, Present, Writable, UserMay, Uncached;
      forall j | 0 <= j < ENTRY_COUNT {
        pagetables[k, j] := row[j];
      }
      Speculate(k * ENTRY_COUNT, eager);
    }

    /** The flush loop of create_pd over a table without present entries. */
    method FlushTable(k: nat, ghost eager: bool)
      requires Sized() && k < 256 && SafeBesideTable(k)
      requires forall j :: 0 <= j < ENTRY_COUNT ==> !Present(pagetables[k, j])
      modifies this`tlb
      ensures Safe()
    {
      hide Flag, Frame, Present, Writable, UserMay, Uncached, PageOf;
      for i := 0 to ENTRY_COUNT
        invariant SafeBesideTable(k)
        invariant forall c :: c in tlb && c.page / ENTRY_COUNT == k ==> i <= c.page % ENTRY_COUNT
      {
        PageStep(0, k * ENTRY_COUNT + i);
        NoWalks(k);
        FlushTlbFor((k * ENTRY_COUNT + i) * PAGE_SIZE, eager);
      }
    }

    lemma NoWalks(k: nat)
      requires Sized() && k < 256 && forall j :: 0 <= j < ENTRY_COUNT ==> !Present(pagetables[k, j])
      ensures PageOf(0) == 0
      ensures forall c :: Walks(c) ==> Sound(c) && c.page / ENTRY_COUNT != k
    {
      hide Flag, Frame, Present, Writable, UserMay, Uncached;
    }

    /** Every table of the range exists, or can be created. */
    ghost predicate Creatable(virtBase: nat, count: nat)
      requires Sized() && GoodRange(virtBase, count)
      reads pagedir
    {
      forall p: nat :: PageOf(virtBase) <= p < PageOf(virtBase) + count ==> Present(Dir(p)) || p / ENTRY_COUNT < 256
    }

    /** The page tables that the range needs and that do not exist. */
    ghost function MissingTables(virtBase: nat, count: nat): set<nat>
      requires Sized()
      reads pagedir
    {
      set k: nat | k < ENTRY_COUNT && Reaches(virtBase, count, k) && !Present(pagedir[k])
    }

    lemma MissingAbsent(virtBase: nat, count: nat)
      requires Sized()
      ensures forall k :: k in MissingTables(virtBase, count) ==> k < ENTRY_COUNT && !Present(pagedir[k])
    {}

    /** At the start no table has been created yet. */
    lemma AllAhead(virtBase: nat, count: nat)
      requires Sized()
      ensures MissingTables(virtBase, count) == Ahead(MissingTables(virtBase, count), PageOf(virtBase), 0)
      ensures forall k :: k in MissingTables(virtBase, count) ==> PageOf(virtBase) / ENTRY_COUNT <= k < ENTRY_COUNT
    {}

    /** A page whose table is missing. */
    lemma MissingTable(virtBase: nat, count: nat, p: nat)
      requires Sized() && GoodRange(virtBase, count) && PageOf(virtBase) <= p < PageOf(virtBase) + count
      ensures p / ENTRY_COUNT in MissingTables(virtBase, count) <==> !Present(Dir(p))
    {
      hide Present;
    }

    lemma NoneMissing(virtBase: nat, count: nat)
      requires Sized() && GoodRange(virtBase, count) && TablesPresent(virtBase, count)
      ensures MissingTables(virtBase, count) == {}
    {
      hide Present;
      forall k: nat | k < ENTRY_COUNT && Reaches(virtBase, count, k)
        ensures Present(pagedir[k])
      {
        var p := if PageOf(virtBase) <= k * ENTRY_COUNT then k * ENTRY_COUNT else PageOf(virtBase);
        assert p / ENTRY_COUNT == k && Present(Dir(p));
      }
    }

    /** Creating a missing table leaves one less to create. */
    twostate lemma OneLessMissing(new virtBase: nat, new count: nat, new k: nat)
      requires Sized() && k in old(MissingTables(virtBase, count)) && Present(pagedir[k])
      requires forall i :: 0 <= i < ENTRY_COUNT && i != k ==> pagedir[i] == old(pagedir[i])
      ensures MissingTables(virtBase, count) == old(MissingTables(virtBase, count)) - {k}
      ensures |MissingTables(virtBase, count)| == |old(MissingTables(virtBase, count))| - 1
    {
      hide Present, Reaches;
      assert MissingTables(virtBase, count) == old(MissingTables(virtBase, count)) - {k};
    }

    /** Pages that were mapped are mapped the same way, and no others are. */
    twostate predicate SameMappings()
      requires Sized()
      reads pagedir, pagetables
    {
      && (forall p: nat :: p < ENTRY_COUNT * ENTRY_COUNT && old(Mapped(p)) ==> Dir(p) == old(Dir(p)) && Entry(p) == old(Entry(p)))
      && (forall p: nat :: p < ENTRY_COUNT * ENTRY_COUNT && !old(Mapped(p)) ==> !Mapped(p))
    }

    /** A table that was missing appears, with no page mapped. */
    twostate lemma TableAppears(new k: nat)
      requires Sized() && k < ENTRY_COUNT && !old(Present(pagedir[k]))
      requires forall i :: 0 <= i < ENTRY_COUNT && i != k ==> pagedir[i] == old(pagedir[i])
      requires forall p: nat :: p < ENTRY_COUNT * ENTRY_COUNT ==> Entry(p) == if p / ENTRY_COUNT == k then 0 else old(Entry(p))
      ensures SameMappings()
    {
      hide Present;
      ZeroEntry();
    }

    /** A missing table of the range is created. */
    method CreateOne(pde: nat, addr: Word, garbage: seq<Word>, ghost virtBase: nat, ghost count: nat, ghost eager: bool)
      requires Sized() && Safe() && pde < 256 && pde in MissingTables(virtBase, count)
      requires |garbage| == ENTRY_COUNT && Aligned(addr)
      modifies pagedir, pagetables, this`tlb
      ensures Safe() && SameMappings() && Present(pagedir[pde])
      ensures Frame(pagedir[pde]) == addr && Writable(pagedir[pde]) && UserMay(pagedir[pde])
      ensures forall k :: 0 <= k < ENTRY_COUNT && k != pde ==> pagedir[k] == old(pagedir[k])
      ensures MissingTables(virtBase, count) == old(MissingTables(virtBase, count)) - {pde}
      ensures |MissingTables(virtBase, count)| == |old(MissingTables(virtBase, count))| - 1
    {
      MissingAbsent(virtBase, count);
      hide Present, Writable, UserMay, Flag, Frame, Mmu.Safe, Mmu.SameMappings, Aligned, Mmu.MissingTables;
      CreatePd(pde, addr, garbage, eager);
      TableAppears(pde);
      OneLessMissing(virtBase, count, pde);
    }

    /**
     The first loop of arch_mmu_map; `frames` is what pmm_alloc has to offer, with what
     they hold.  It succeeds if and only if that is enough for the missing tables,
     which get the frames in order and leave every right to the page entries.
     */
    method CreateTables(virtBase: nat, count: nat, frames: seq<(Word, seq<Word>)>, ghost eager: bool) returns (ok: bool)
      requires Sized() && Safe() && GoodRange(virtBase, count) && Creatable(virtBase, count)
      requires forall f :: f in frames ==> Aligned(f.0) && |f.1| == ENTRY_COUNT
      modifies pagedir, pagetables, this`tlb
      ensures Safe() && SameMappings()
      ensures ok <==> |old(MissingTables(virtBase, count))| <= |frames|
      ensures ok <==> TablesPresent(virtBase, count)
      ensures forall k :: k in old(MissingTables(virtBase, count)) && Present(pagedir[k]) ==>
                NewTable(pagedir[k], old(MissingTables(virtBase, count)), k, frames)
      ensures forall k :: 0 <= k < ENTRY_COUNT && old(Present(pagedir[k])) ==> pagedir[k] == old(pagedir[k])
    {
      hide Present, Writable, UserMay, Flag, Frame, Mmu.Safe, PageOf, Aligned, Mmu.MissingTables, NewTable, Ahead, Rank;
      ghost var first := PageOf(virtBase);
      ghost var missing := MissingTables(virtBase, count);
      AllAhead(virtBase, count);
      var used := 0;
      for i := 0 to count
        invariant used + |MissingTables(virtBase, count)| == |missing|
        invariant MissingTables(virtBase, count) == Ahead(missing, first, i)
        invariant forall k :: k in missing && k !in MissingTables(virtBase, count) ==>
                    k < ENTRY_COUNT && NewTable(pagedir[k], missing, k, frames)
        invariant Safe() && SameMappings() && Creatable(virtBase, count) && 0 <= used <= |frames|
        invariant forall p: nat :: first <= p < first + i ==> Present(Dir(p))
        invariant forall k :: 0 <= k < ENTRY_COUNT && old(Present(pagedir[k])) ==> pagedir[k] == old(pagedir[k])
      {
        PageStep(virtBase, i);
        Indices(virtBase + i * PAGE_SIZE);
        var pde := PdeIndex(virtBase + i * PAGE_SIZE);
        assert pde == (first + i) / ENTRY_COUNT;
        NextAhead(missing, first, i);
        if Present(pagedir[pde]) {
          assert Present(Dir(first + i));
          MissingTable(virtBase, count, first + i);
          continue;
        }
        assert !Present(Dir(first + i));
        MissingTable(virtBase, count, first + i);
        if used == |frames| {
          MissingAbsent(virtBase, count);
          return false;
        }
        assert frames[used] in frames;
        RankIs(missing, MissingTables(virtBase, count), first, i);
        CreateOne(pde, frames[used].0, frames[used].1, virtBase, count, eager);
        TurnOf(pagedir[pde], missing, pde, frames);
        used := used + 1;
      }
      NoneMissing(virtBase, count);
      MissingAbsent(virtBase, count);
      return true;
    }

    /** The pages of the range permit exactly what was asked for, as far as a directory entry that was there allows it. */
    twostate predicate RightsAsked(virtBase: nat, count: nat, write: bool, user: bool)
      requires Sized()
      reads pagedir, pagetables
    {
      forall p: nat, w, u :: p < ENTRY_COUNT * ENTRY_COUNT && PageOf(virtBase) <= p < PageOf(virtBase) + count ==>
        (Permits(p, w, u) <==> AsAsked(old(Dir(p)), write, user, w, u))
    }

    /**
     arch_mmu_map: page by page the range maps the frames from physBase on, and no other
     page changes.  Without memory for all missing tables nothing is mapped, and the
     source reports success all the same, because the inner `ret` hides the outer one.
     */
    method Map(virtBase: nat, physBase: nat, count: nat, flags: Word, user: bool, frames: seq<(Word, seq<Word>)>)
      returns (ret: Status, ghost mapped: bool)
      requires Sized() && Safe() && GoodRange(virtBase, count) && Creatable(virtBase, count)
      requires physBase != 0 && physBase + count * PAGE_SIZE <= SIZE_MAX && Aligned(physBase)
      requires forall f :: f in frames ==> Aligned(f.0) && |f.1| == ENTRY_COUNT
      modifies pagedir, pagetables, this`tlb
      ensures Safe()
      ensures ret == if Flag(flags, PROT_READ) then Done else EPerm
      ensures mapped <==> Flag(flags, PROT_READ) && |old(MissingTables(virtBase, count))| <= |frames|
      ensures !mapped ==> SameMappings()
      ensures mapped ==> RightsAsked(virtBase, count, Flag(flags, PROT_WRITE), user)
      ensures forall p: nat :: p < ENTRY_COUNT * ENTRY_COUNT ==>
                var i := p - PageOf(virtBase);
                if mapped && 0 <= i < count then
                  && Present(Dir(p))
                  && Entry(p) == MappedEntry(physBase + i * PAGE_SIZE, Flag(flags, PROT_WRITE), Flag(flags, PROT_NOCACHE), user)
                else
                  && (old(Mapped(p)) ==> Dir(p) == old(Dir(p)) && Entry(p) == old(Entry(p)))
                  && (!old(Mapped(p)) ==> !Mapped(p))
    {
      hide Present, Writable, UserMay, Flag, MappedEntry, Frame, Mmu.Safe, PageOf, Aligned, Mmu.MissingTables, Mmu.Permits, Rank;
      mapped := false;
      ghost var missing := MissingTables(virtBase, count);
      forall p: nat | PageOf(virtBase) <= p < PageOf(virtBase) + count
        ensures p / ENTRY_COUNT in missing <==> !Present(Dir(p))
      {
        MissingTable(virtBase, count, p);
      }
      if !Flag(flags, PROT_READ) {
        return EPerm, false;
      }
      ghost var eager: bool := *;
      var ok := CreateTables(virtBase, count, frames, eager);
      if !ok {
        return Done, false;
      }
      MapRange(virtBase, physBase, count, flags, user, eager);
      forall p: nat, w, u | p < ENTRY_COUNT * ENTRY_COUNT && PageOf(virtBase) <= p < PageOf(virtBase) + count
        ensures Permits(p, w, u) <==> AsAsked(old(Dir(p)), Flag(flags, PROT_WRITE), user, w, u)
      {
        var i := p - PageOf(virtBase);
        AlignedStep(physBase, i);
        assert Present(Dir(p));
        PermitsMapped(p, physBase + i * PAGE_SIZE, Flag(flags, PROT_WRITE), Flag(flags, PROT_NOCACHE), user, w, u);
      }
      return Done, true;
    }

    /** The second loop of arch_mmu_map. */
    method MapRange(virtBase: nat, physBase: nat, count: nat, flags: Word, user: bool, ghost eager: bool)
      requires Sized() && Safe() && GoodRange(virtBase, count) && TablesPresent(virtBase, count)
      requires physBase != 0 && physBase + count * PAGE_SIZE <= SIZE_MAX && Aligned(physBase)
      modifies pagetables, this`tlb
      ensures Safe()
      ensures forall p: nat :: p < ENTRY_COUNT * ENTRY_COUNT ==>
                var i := p - PageOf(virtBase);
                Entry(p) == if 0 <= i < count
                            then MappedEntry(physBase + i * PAGE_SIZE, Flag(flags, PROT_WRITE), Flag(flags, PROT_NOCACHE), user)
                            else old(Entry(p))
    {
      hide Present, Flag, MappedEntry, Frame, Mmu.Safe, Mmu.Dir, PageOf;
      ghost var first := PageOf(virtBase);
      for i := 0 to count
        invariant Safe() && TablesPresent(virtBase, count)
        invariant forall p: nat :: p < ENTRY_COUNT * ENTRY_COUNT ==>
                    Entry(p) == if 0 <= p - first < i
                                then MappedEntry(physBase + (p - first) * PAGE_SIZE, Flag(flags, PROT_WRITE), Flag(flags, PROT_NOCACHE), user)
                                else old(Entry(p))
      {
        PageStep(virtBase, i);
        AlignedStep(physBase, i);
        assert Present(Dir(first + i));
        MapSinglePage(virtBase + i * PAGE_SIZE, physBase + i * PAGE_SIZE, flags, user, eager);
      }
    }

    /** check_presence */
    method CheckPresence(virt: nat) returns (ret: Status)
      requires Sized() && virt <= SIZE_MAX
      ensures PageOf(virt) < ENTRY_COUNT * ENTRY_COUNT
      ensures ret == if Mapped(PageOf(virt)) then Done else EFault
    {
      Indices(virt);
      if !Present(pagedir[PdeIndex(virt)]) {
        return EFault;
      }
      if !Present(pagetables[PdeIndex(virt), PteIndex(virt)]) {
        return EFault;
      }
      return Done;
    }

    /** The first loop of arch_mmu_remap and arch_mmu_unmap. */
    method CheckRange(virtBase: nat, count: nat) returns (ret: Status)
      requires Sized() && GoodRange(virtBase, count)
      ensures ret == Done || ret == EFault
      ensures ret == Done <==> AllMapped(virtBase, count)
    {
      hide Flag, PageOf;
      for i := 0 to count
        invariant forall p: nat :: PageOf(virtBase) <= p < PageOf(virtBase) + i ==> Mapped(p)
      {
        PageStep(virtBase, i);
        ret := CheckPresence(virtBase + i * PAGE_SIZE);
        if ret != Done {
          return;
        }
      }
      return Done;
    }

    /** remap_single_page */
    method RemapSinglePage(virt: nat, flags: Word, user: bool, ghost eager: bool)
      requires Sized() && Safe() && virt <= SIZE_MAX && PageOf(virt) < ENTRY_COUNT * ENTRY_COUNT && Mapped(PageOf(virt))
      modifies pagetables, this`tlb
      ensures Safe()
      ensures Entry(PageOf(virt)) == RemappedEntry(old(Entry(PageOf(virt))), Flag(flags, PROT_WRITE), Flag(flags, PROT_NOCACHE), user)
      ensures forall p: nat :: p < ENTRY_COUNT * ENTRY_COUNT && p != PageOf(virt) ==> Entry(p) == old(Entry(p))
      // memory types stay right in every run if and only if the flush is made or no uncached entry is involved
      ensures old(FreshTypes()) && TypeKept(old(Entry(PageOf(virt))), RemapFlushes(old(Entry(PageOf(virt))), Flag(flags, PROT_WRITE), user), Flag(flags, PROT_NOCACHE)) ==> FreshTypes()
      ensures eager && !TypeKept(old(Entry(PageOf(virt))), RemapFlushes(old(Entry(PageOf(virt))), Flag(flags, PROT_WRITE), user), Flag(flags, PROT_NOCACHE)) ==> !FreshTypes()
    {
      hide Frame, Present, Writable, UserMay, Uncached, Flag, Set, Stripped, NoMore, Added, Mmu.Safe, Mmu.FreshTypes;
      Indices(virt);
      var oldpte := pagetables[PdeIndex(virt), PteIndex(virt)];
      var write, nocache := Flag(flags, PROT_WRITE), Flag(flags, PROT_NOCACHE);
      var shouldFlush := false;
      if Writable(oldpte) && !write {
        shouldFlush := true;
      }
      if UserMay(oldpte) && !user {
        shouldFlush := true;
      }
      RemappedEntryMeans(oldpte, write, nocache, user);
      StrippedMeans(oldpte);
      WriteEntry(virt, Stripped(oldpte), write, nocache, user, shouldFlush, eager);
    }

    /** arch_mmu_remap: all or nothing; frames stay, rights become exactly those asked for. */
    method Remap(virtBase: nat, count: nat, flags: Word, user: bool) returns (ret: Status)
      requires Sized() && Safe() && GoodRange(virtBase, count)
      modifies pagetables, this`tlb
      ensures Safe()
      ensures ret == EPerm <==> !Flag(flags, PROT_READ)
      ensures ret != EPerm ==> (ret == Done <==> old(AllMapped(virtBase, count)))
      ensures forall p: nat :: p < ENTRY_COUNT * ENTRY_COUNT ==>
                Entry(p) == if ret == Done && PageOf(virtBase) <= p < PageOf(virtBase) + count
                            then RemappedEntry(old(Entry(p)), Flag(flags, PROT_WRITE), Flag(flags, PROT_NOCACHE), user)
                            else old(Entry(p))
    {
      hide Present, Flag, RemappedEntry, Frame, Mmu.Safe, PageOf;
      if !Flag(flags, PROT_READ) {
        return EPerm;
      }
      ret := CheckRange(virtBase, count);
      if ret != Done {
        return;
      }
      ghost var first := PageOf(virtBase);
      ghost var eager: bool := *;
      for i := 0 to count
        invariant Safe()
        invariant forall p: nat :: p < ENTRY_COUNT * ENTRY_COUNT ==>
                    Entry(p) == if first <= p < first + i
                                then RemappedEntry(old(Entry(p)), Flag(flags, PROT_WRITE), Flag(flags, PROT_NOCACHE), user)
                                else old(Entry(p))
      {
        PageStep(virtBase, i);
        assert old(Mapped(first + i)) && Dir(first + i) == old(Dir(first + i)) && Entry(first + i) == old(Entry(first + i));
        RemapSinglePage(virtBase + i * PAGE_SIZE, flags, user, eager);
      }
    }

    /** arch_mmu_unmap: all or nothing; no translation of an unmapped page stays cached. */
    method Unmap(virtBase: nat, count: nat) returns (ret: Status)
      requires Sized() && Safe() && GoodRange(virtBase, count)
      modifies pagetables, this`tlb
      ensures Safe()
      ensures ret == Done || ret == EFault
      ensures ret == Done <==> old(AllMapped(virtBase, count))
      ensures forall p: nat :: p < ENTRY_COUNT * ENTRY_COUNT ==>
                Entry(p) == if ret == Done && PageOf(virtBase) <= p < PageOf(virtBase) + count then 0 else old(Entry(p))
      ensures ret == Done ==> forall c :: c in tlb ==> !(PageOf(virtBase) <= c.page < PageOf(virtBase) + count)
    {
      hide Present, Flag, Frame, PageOf;
      ret := CheckRange(virtBase, count);
      if ret != Done {
        return;
      }
      ghost var first := PageOf(virtBase);
      ghost var eager: bool := *;
      for i := 0 to count
        invariant Safe()
        invariant forall p: nat :: p < ENTRY_COUNT * ENTRY_COUNT ==>
                    Entry(p) == if first <= p < first + i then 0 else old(Entry(p))
      {
        PageStep(virtBase, i);
        assert old(Mapped(first + i)) && Dir(first + i) == old(Dir(first + i)) && Entry(first + i) == old(Entry(first + i));
        StoreStep(virtBase + i * PAGE_SIZE, 0, 0, eager);
        Settle(virtBase + i * PAGE_SIZE, true, eager);
      }
      ZeroEntry();
    }

    /** arch_mmu_scratch_map */
    method ScratchMap(phys: Word, nocache: bool, ghost eager: bool)
      requires Sized() && Safe() && Present(Dir(SCRATCH_PAGE)) && Aligned(phys)
      modifies pagetables, this`tlb
      ensures Safe()
      ensures Entry(SCRATCH_PAGE) == MappedEntry(phys, true, nocache, false)
      ensures forall p: nat :: p < ENTRY_COUNT * ENTRY_COUNT && p != SCRATCH_PAGE ==> Entry(p) == old(Entry(p))
      // memory types stay right in every run if and only if the flush is made or no uncached entry is involved
      ensures old(FreshTypes()) && TypeKept(old(Entry(SCRATCH_PAGE)), MapFlushes(old(Entry(SCRATCH_PAGE)), phys, true, false), nocache) ==> FreshTypes()
      ensures eager && !TypeKept(old(Entry(SCRATCH_PAGE)), MapFlushes(old(Entry(SCRATCH_PAGE)), phys, true, false), nocache) ==> !FreshTypes()
    {
      hide Frame, Present, Writable, UserMay, Uncached, Aligned, Flag, Set, NoMore, Mmu.Safe, Mmu.FreshTypes;
      var oldpte := pagetables[SCRATCH_PDE, SCRATCH_PTE];
      var shouldFlush := false;
      if Present(oldpte) {
        if UserMay(oldpte) {
          shouldFlush := true;
        }
        if Frame(oldpte) != phys {
          shouldFlush := true;
        }
      }
      SkipExactlyWhenHarmless(oldpte, phys, true, nocache, false);
      AlignedMeans(phys);
      SetMeans(phys, P);
      SetMeans(Set(phys, P), RW);
      WriteEntry(SCRATCH_PAGE * PAGE_SIZE, Set(Set(phys, P), RW), false, nocache, false, shouldFlush, eager);
    }

    // ------------------------------------------------------------ translation

    /** The tables allow the access. */
    ghost predicate Permits(page: nat, write: bool, user: bool)
      requires Sized() && page < ENTRY_COUNT * ENTRY_COUNT
      reads pagedir, pagetables
    {
      && Mapped(page)
      && (write ==> Writable(Dir(page)) && Writable(Entry(page)))
      && (user ==> UserMay(Dir(page)) && UserMay(Entry(page)))
    }

    /** A mapped page permits what was asked for and its directory entry allows. */
    lemma PermitsMapped(p: nat, phys: Word, write: bool, nocache: bool, user: bool, w: bool, u: bool)
      requires Sized() && p < ENTRY_COUNT * ENTRY_COUNT && Aligned(phys)
      requires Present(Dir(p)) && Entry(p) == MappedEntry(phys, write, nocache, user)
      ensures Permits(p, w, u) <==> (w ==> write && Writable(Dir(p))) && (u ==> user && UserMay(Dir(p)))
    {
      hide Present, Writable, UserMay, Flag, MappedEntry, Frame, Aligned;
      MappedEntryMeans(phys, write, nocache, user);
    }

    /** arch_mmu_emulate */
    method Emulate(virt: nat, write: bool, user: bool) returns (ret: Status, phys: Word)
      requires Sized() && virt <= SIZE_MAX
      ensures PageOf(virt) < ENTRY_COUNT * ENTRY_COUNT
      ensures ret == Done <==> Permits(PageOf(virt), write, user)
      ensures ret == Done ==> phys == Frame(Entry(PageOf(virt)))
      // a fault is reported for a missing table, and for a missing page whose table allows the access
      ensures ret == EFault <==>
                var d := Dir(PageOf(virt));
                !Present(d) || ((write ==> Writable(d)) && (user ==> UserMay(d)) && !Present(Entry(PageOf(virt))))
    {
      hide Flag, Frame, Present, Writable, UserMay;
      Indices(virt);
      hide PageOf, PdeIndex, PteIndex;
      phys := 0;
      var d := pagedir[PdeIndex(virt)];
      if !Present(d) {
        return EFault, phys;
      }
      if !Writable(d) && write {
        return EPerm, phys;
      }
      if !UserMay(d) && user {
        return EPerm, phys;
      }
      var e := pagetables[PdeIndex(virt), PteIndex(virt)];
      if !Present(e) {
        return EFault, phys;
      }
      if !Writable(e) && write {
        return EPerm, phys;
      }
      if !UserMay(e) && user {
        return EPerm, phys;
      }
      return Done, Frame(e);
    }

    /** arch_mmu_virtual_to_physical */
    method VirtualToPhysical(virt: nat) returns (ret: Status, phys: nat)
      requires Sized() && virt <= SIZE_MAX
      ensures PageOf(virt) < ENTRY_COUNT * ENTRY_COUNT
      ensures ret == if Mapped(PageOf(virt)) then Done else EFault
      ensures ret == Done ==> phys == Frame(Entry(PageOf(virt))) + virt % PAGE_SIZE
      ensures ret != Done ==> phys == 0
    {
      hide Flag, Frame, Present, Writable, UserMay;
      Indices(virt);
      hide PageOf, PdeIndex, PteIndex;
      phys := 0;
      if !Present(pagedir[PdeIndex(virt)]) {
        return EFault, phys;
      }
      var e := pagetables[PdeIndex(virt), PteIndex(virt)];
      if !Present(e) {
        return EFault, phys;
      }
      return Done, Frame(e) + virt % PAGE_SIZE;
    }

    /** In a safe state, an access that the cache lets through is one that the tables permit, to the same frame. */
    lemma CacheGrantsNoMore(c: Cached, write: bool, user: bool)
      requires Sized() && Safe() && c in tlb && Allows(c, write, user)
      ensures c.page < ENTRY_COUNT * ENTRY_COUNT && Permits(c.page, write, user) && c.frame == Frame(Entry(c.page))
    {
      hide Flag, Frame;
      assert Sound(c);
    }

    /**
     The first part of vmm_page_fault: a fault on an access that the tables permit is
     spurious, and after the flush no cached translation of the page refuses it again.
     */
    method CureSpuriousFault(virt: nat, write: bool, user: bool) returns (spurious: bool)
      requires Sized() && Safe() && virt <= SIZE_MAX
      modifies this`tlb
      ensures Safe() && PageOf(virt) < ENTRY_COUNT * ENTRY_COUNT
      ensures spurious <==> Permits(PageOf(virt), write, user)
      ensures spurious ==> forall c :: c in tlb && c.page == PageOf(virt) ==>
                Allows(c, write, user) && c.frame == Frame(Entry(PageOf(virt)))
    {
      hide Flag, Frame;
      var ret, phys := Emulate(virt, write, user);
      spurious := ret == Done;
      if spurious {
        ghost var eager: bool := *;
        FlushTlbFor(virt, eager);
      }
    }
  }

  /** No free frame and a page whose table is missing: success is reported, and the page is not mapped. */
  method UnmappedSuccess(flags: Word) returns (m: Mmu, ret: Status)
    requires Flag(flags, PROT_READ)
    ensures fresh(m) && m.Sized() && m.Safe() && ret == Done && !m.Mapped(PageOf(0x40_0000))
  {
    hide Flag, Present, Mmu.MissingTables, Mmu.Safe;
    ZeroEntry();
    var pd := new Word[ENTRY_COUNT](_ => 0);
    var pt := new Word[ENTRY_COUNT, ENTRY_COUNT]((_, _) => 0);
    m := new Mmu(pd, pt);
    m.MissingTable(0x40_0000, 1, PageOf(0x40_0000));
    assert |m.MissingTables(0x40_0000, 1)| > 0;
    ghost var mapped;
    ret, mapped := m.Map(0x40_0000, 0x1000, 1, flags, true, []);
  }

  lemma AlignedStep(phys: nat, i: nat)
    requires Aligned(phys)
    ensures Aligned(phys + i * PAGE_SIZE)
  {}

  /** The directory entry of a new table is present and leaves every right to the table. */
  lemma DirectoryEntry(addr: Word)
    requires Aligned(addr)
    ensures var d := Set(Set(Set(addr, P), RW), US);
            Present(d) && Writable(d) && UserMay(d) && !Uncached(d) && Frame(d) == addr
  {
    hide Flag, Set, Frame, Aligned, Present, Writable, UserMay, Uncached;
    AlignedMeans(addr);
    SetMeans(addr, P);
    SetMeans(Set(addr, P), RW);
    SetMeans(Set(Set(addr, P), RW), US);
  }

  lemma ZeroEntry()
    ensures !Present(0)
  {
    Bitmaps.SingleBitTest(0, P);
    BitOfZero(P);
  }

  /**
   A page mapped writable and cached, and then mapped again to the same frame as
   uncached: in a run where the processor reads it in between, its old memory type
   stays in the cache.
   */
  method StaleMemoryType(m: Mmu, virt: nat, phys: Word, cached: Word, uncached: Word)
    requires m.Sized() && m.Safe() && m.FreshTypes() && virt <= SIZE_MAX && Aligned(phys)
    requires Present(m.Dir(PageOf(virt))) && !Present(m.Entry(PageOf(virt)))
    requires Flag(cached, PROT_WRITE) && !Flag(cached, PROT_NOCACHE)
    requires Flag(uncached, PROT_WRITE) && Flag(uncached, PROT_NOCACHE)
    modifies m.pagetables, m`tlb
    ensures m.Safe() && !m.FreshTypes()
  {
    hide Flag, Present, Writable, UserMay, Uncached, Frame, MappedEntry, Aligned, Mmu.Safe, Mmu.FreshTypes;
    MappedEntryMeans(phys, true, false, false);
    m.MapSinglePage(virt, phys, cached, false, true);
    assert m.FreshTypes();
    m.MapSinglePage(virt, phys, uncached, false, true);
  }
}
