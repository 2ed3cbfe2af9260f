/**
 Address ranges and demand paging of kernel/mem/vmm.c (the list based variant).

 Page tables and physical pages appear by what `Mmu` and `PhysMem` establish:
 the tables are a map from page numbers to frame numbers, and a frame that is
 handed out is one that is not in use.
 */
module Vmm {
  import opened Basics
  import Words
  import Bitmaps

  /** VMM_PHYSADDR_NOMAP, or the physical range an object shows. */
  datatype Backing = Anonymous | At(firstFrame: nat)

  /** struct vmm_object; `end` is inclusive */
  class VmObject {
    var start: nat
    var end: nat
    const backing: Backing
    const readable: bool

    constructor (b: Backing, r: bool)
      ensures backing == b && readable == r && start == 0 && end == 0
    {
      start, end, backing, readable := 0, 0, b, r;
    }
  }

  ghost predicate Covers(o: VmObject, a: nat)
    reads o
  {
    o.start <= a <= o.end
  }

  ghost predicate Apart(o: VmObject, p: VmObject)
    reads o, p
  {
    o.end < p.start || p.end < o.start
  }

  /** A page-aligned, non-empty range inside [lo, hi]. */
  ghost predicate Shaped(o: VmObject, lo: nat, hi: nat)
    reads o
  {
    lo <= o.start <= o.end <= hi && o.start % PAGE_SIZE == 0 && (o.end + 1) % PAGE_SIZE == 0
  }

  ghost predicate Covered(all: set<VmObject>, a: nat)
    reads all
  {
    exists o :: o in all && Covers(o, a)
  }

  /** The objects are apart and together cover [lo, hi] exactly. */
  ghost predicate Tiling(all: set<VmObject>, lo: nat, hi: nat)
    reads all
  {
    && (forall o :: o in all ==> Shaped(o, lo, hi))
    && (forall o, p :: o in all && p in all && o != p ==> Apart(o, p))
    && (forall a: nat :: lo <= a <= hi ==> Covered(all, a))
  }

  ghost predicate NoRepeats<T>(s: seq<T>)
  {
    forall i, j :: 0 <= i < j < |s| ==> s[i] != s[j]
  }

  ghost function Elements<T>(s: seq<T>): set<T>
  {
    set x | x in s
  }

  lemma RemovedElement<T>(s: seq<T>, i: nat)
    requires NoRepeats(s) && i < |s|
    ensures var s' := s[..i] + s[i + 1..];
            NoRepeats(s') && Elements(s') == Elements(s) - {s[i]}
  {
    var s' := s[..i] + s[i + 1..];
    forall x | x in s && x != s[i]
      ensures x in s'
    {
      var j :| 0 <= j < |s| && s[j] == x;
      assert s'[if j < i then j else j - 1] == x;
    }
    forall k | 0 <= k < |s'|
      ensures s'[k] in s && s'[k] != s[i]
    {
      assert s'[k] == s[if k < i then k else k + 1];
    }
  }

  lemma InsertedElement<T>(s: seq<T>, i: nat, x: T)
    requires NoRepeats(s) && i <= |s| && x !in s
    ensures var s' := s[..i] + [x] + s[i..];
            NoRepeats(s') && Elements(s') == Elements(s) + {x}
  {
    var s' := s[..i] + [x] + s[i..];
    forall y | y in s
      ensures y in s'
    {
      var j :| 0 <= j < |s| && s[j] == y;
      assert s'[if j < i then j else j + 1] == y;
    }
    assert s'[i] == x;
  }

  /** size_to_blocks(size, ARCH_PAGESIZE) */
  function SizeToPages(size: nat): (n: nat)
    ensures size <= n * PAGE_SIZE < size + PAGE_SIZE
  {
    SizeToBlocks(size, PAGE_SIZE)
  }

  // ------------------------------------------------------------ the free list

  /** take_object_with_min_size: the first free object that is large enough leaves the list. */
  method TakeObject(list: seq<VmObject>, pageCount: nat) returns (found: bool, i: nat)
    requires forall o :: o in list ==> o.start <= o.end
    ensures found ==> i < |list| && pageCount <= SizeToPages(list[i].end - list[i].start + 1)
    ensures found ==> forall j :: 0 <= j < i ==> SizeToPages(list[j].end - list[j].start + 1) < pageCount
    ensures !found ==> forall o :: o in list ==> SizeToPages(o.end - o.start + 1) < pageCount
  {
    i := 0;
    while i < |list|
      invariant 0 <= i <= |list|
      invariant forall j :: 0 <= j < i ==> SizeToPages(list[j].end - list[j].start + 1) < pageCount
    {
      var pages := SizeToPages(list[i].end - list[i].start + 1);
      if pages >= pageCount {
        return true, i;
      }
      i := i + 1;
    }
    return false, i;
  }

  ghost predicate Below(list: seq<VmObject>, j: int, o: VmObject)
    reads list, o
  {
    0 <= j < |list| && list[j].end < o.start
  }

  /** Behind the last range below the object, at the end if there is none. */
  ghost predicate RightPlace(list: seq<VmObject>, o: VmObject, at: nat)
    reads list, o
  {
    && at <= |list|
    && if exists j :: Below(list, j, o) then Below(list, at - 1, o) && forall j :: at <= j ==> !Below(list, j, o) else at == |list|
  }

  /** The list with o at its place. */
  ghost predicate WithObject(list: seq<VmObject>, o: VmObject, now: seq<VmObject>)
    reads list, o
  {
    exists at :: 0 <= at <= |list| && RightPlace(list, o, at) && now == list[..at] + [o] + list[at..]
  }

  /** The list after the i-th range has been cut: it is moved to its new place, or gone if nothing is left of it. */
  ghost predicate Cut(list: seq<VmObject>, i: nat, now: seq<VmObject>)
    requires i < |list|
    reads list
  {
    var rest := list[..i] + list[i + 1..];
    if list[i].start <= list[i].end then WithObject(rest, list[i], now) else now == rest
  }

  /** The first range of the list with room for the pages. */
  ghost predicate FirstFit(list: seq<VmObject>, pageCount: nat, i: nat)
    reads list
  {
    i < |list| && Fits(list[i], pageCount) && forall j :: 0 <= j < i ==> !Fits(list[j], pageCount)
  }

  /**
   add_object_to_address_space: the place of an object in the list.  The check
   against the following element never refuses an object that is apart from all
   others, although the list is not sorted.
   */
  method PlaceObject(list: seq<VmObject>, o: VmObject) returns (at: nat, refused: bool)
    requires o.start <= o.end
    requires forall p :: p in list ==> p.start <= p.end
    ensures at <= |list|
    ensures RightPlace(list, o, at)
    ensures (forall p :: p in list ==> Apart(p, o)) ==> !refused
  {
    var after := -1;
    for i := 0 to |list|
      invariant -1 <= after < i
      invariant after >= 0 ==> Below(list, after, o)
      invariant forall j :: after < j < i ==> !Below(list, j, o)
    {
      if list[i].end < o.start {
        after := i;
      }
    }
    if after == -1 {
      return |list|, false;
    }
    at, refused := after + 1, false;
    if after + 1 < |list| {
      var next := list[after + 1];
      assert next in list && !Below(list, after + 1, o);
      if next.start < o.end {
        refused := true;
      }
    }
  }

  // ------------------------------------------------------------ the address space

  /** struct uncommited_object; `bits` is the view of its bitmap */
  class Uncommitted {
    const target: VmObject
    var bits: seq<bool>

    /** create_uncommited_object */
    constructor (o: VmObject, pageCount: nat, bitCount: nat)
      requires pageCount <= bitCount
      ensures target == o && bits == seq(bitCount, k => k < pageCount)
    {
      target := o;
      bits := seq(bitCount, k => k < pageCount);
    }
  }

  datatype Outcome = Spurious | Committed | Panic

  /** Exactly the pages outside `gone` are mapped as they were. */
  ghost predicate Kept(was: map<nat, nat>, wasOwner: map<nat, VmObject>, gone: set<nat>, now: map<nat, nat>, nowOwner: map<nat, VmObject>)
  {
    && was.Keys == wasOwner.Keys && now.Keys == was.Keys - gone && nowOwner.Keys == now.Keys
    && forall q :: q in now ==> now[q] == was[q] && nowOwner[q] == wasOwner[q]
  }

  lemma KeptTwice(a: map<nat, nat>, ao: map<nat, VmObject>, g: set<nat>, b: map<nat, nat>, bo: map<nat, VmObject>, h: set<nat>, c: map<nat, nat>, co: map<nat, VmObject>)
    requires Kept(a, ao, g, b, bo) && Kept(b, bo, h, c, co)
    ensures Kept(a, ao, g + h, c, co)
  {}

  class AddressSpace {
    const lo: nat
    const hi: nat
    /** object_list: the free ranges */
    var freeList: seq<VmObject>
    /** uncommited_objects */
    var uncommitted: seq<Uncommitted>
    /** the page tables: page number to frame number */
    var pages: map<nat, nat>
    /** the frames taken for this space */
    var frames: set<nat>
    /** the objects that are handed out, and the object of each mapped page */
    ghost var live: set<VmObject>
    ghost var owner: map<nat, VmObject>

    /** Free and live ranges tile the space. */
    ghost predicate Ranges()
      reads this`freeList, this`live, freeList, live
    {
      NoRepeats(freeList) && Elements(freeList) !! live && Tiling(Elements(freeList) + live, lo, hi)
    }

    /** A bit of u is set if and only if its page belongs to the object and is not mapped. */
    ghost predicate BitsRight(u: Uncommitted)
      reads u, u.target, this`pages
    {
      && (forall k :: 0 <= k < |u.bits| ==> (u.bits[k] <==> Covers(u.target, u.target.start + k * PAGE_SIZE) && u.target.start / PAGE_SIZE + k !in pages))
      && u.target.end < u.target.start + |u.bits| * PAGE_SIZE
    }

    /** The record u is exact, and some page is still missing. */
    ghost predicate Exact(u: Uncommitted)
      reads u, u.target, this`pages
    {
      BitsRight(u) && true in u.bits
    }

    ghost predicate HasRecord(o: VmObject)
      reads this`uncommitted
    {
      exists i :: 0 <= i < |uncommitted| && uncommitted[i].target == o
    }

    /** Every page of o is mapped. */
    ghost predicate FullyMapped(o: VmObject)
      reads o, this`pages
    {
      forall p: nat :: Covers(o, p * PAGE_SIZE) ==> p in pages
    }

    /** Records exist exactly for the live objects that are not fully mapped, and are exact. */
    ghost predicate Records()
      reads this`uncommitted, this`live, this`pages, uncommitted, live, set u | u in uncommitted :: u.target
    {
      && (forall u :: u in uncommitted ==> u.target in live && Exact(u))
      && (forall i, j :: 0 <= i < j < |uncommitted| ==> uncommitted[i].target != uncommitted[j].target)
      && (forall o :: o in live ==> HasRecord(o) || FullyMapped(o))
    }

    /** Mapped pages belong to live objects, and pages of a physical range show that range. */
    ghost predicate Owned()
      reads this`pages, this`owner, this`live, live
    {
      && owner.Keys == pages.Keys
      && (forall p :: p in pages ==> owner[p] in live && Covers(owner[p], p * PAGE_SIZE))
      && (forall p :: p in pages && owner[p].backing.At? ==> pages[p] == owner[p].backing.firstFrame + (p - owner[p].start / PAGE_SIZE))
    }

    ghost predicate Anon(p: nat)
      reads this`owner
    {
      p in owner && owner[p].backing.Anonymous?
    }

    /** The frames in use are those of the anonymous pages, and no two pages share one. */
    ghost predicate Accounted()
      requires owner.Keys == pages.Keys
      reads this`pages, this`owner, this`frames
    {
      && (forall p :: Anon(p) ==> pages[p] in frames)
      && (forall p, q :: Anon(p) && Anon(q) && p != q ==> pages[p] != pages[q])
      && (forall f :: f in frames ==> exists p :: Anon(p) && pages[p] == f)
    }

    ghost predicate Frames()
      reads this`pages, this`owner, this`live, this`frames, live
    {
      Owned() && Accounted()
    }

    ghost predicate Valid()
      reads this, freeList, live, uncommitted, set u | u in uncommitted :: u.target
    {
      Ranges() && Records() && Frames()
    }

    /** vmm_init_address_space */
    constructor (start: nat, end: nat)
      requires start <= end && start % PAGE_SIZE == 0 && (end + 1) % PAGE_SIZE == 0
      ensures Valid() && live == {} && frames == {} && pages == map[] && lo == start && hi == end
      ensures |freeList| == 1 && fresh(freeList[0]) && freeList[0].start == start && freeList[0].end == end
    {
      lo, hi := start, end;
      var o := new VmObject(Anonymous, false);
      o.start, o.end := start, end;
      freeList, uncommitted, pages, frames, live, owner := [o], [], map[], {}, {}, map[];
      new;
      assert o in Elements(freeList) + live;
    }

    /** add_object_to_address_space */
    method AddObject(o: VmObject)
      requires NoRepeats(freeList) && o !in Elements(freeList) && o.start <= o.end
      requires forall p :: p in Elements(freeList) ==> p.start <= p.end && Apart(p, o)
      modifies this`freeList
      ensures NoRepeats(freeList) && Elements(freeList) == old(Elements(freeList)) + {o}
      ensures WithObject(old(freeList), o, freeList)
    {
      assert forall p :: p in freeList ==> p in Elements(freeList);
      var at, refused := PlaceObject(freeList, o);
      if refused {
        return;
      }
      InsertedElement(freeList, at, o);
      freeList := freeList[..at] + [o] + freeList[at..];
    }

    /** A range that shrinks stays apart from all others. */
    twostate lemma ShrunkApart(new all: set<VmObject>, new was: VmObject, new lo: nat, new hi: nat)
      requires old(allocated(all)) && old(allocated(was)) && old(Tiling(all, lo, hi)) && was in all
      requires forall p :: p in all && p != was ==> p.start == old(p.start) && p.end == old(p.end)
      requires old(was.start) <= was.start && was.end == old(was.end)
      ensures forall p :: p in all && p != was ==> p.start <= p.end && Apart(p, was)
    {
      forall p | p in all && p != was
        ensures p.start <= p.end && Apart(p, was)
      {
        assert old(Shaped(p, lo, hi)) && old(Apart(p, was));
      }
    }

    lemma CutIs(list: seq<VmObject>, i: nat, now: seq<VmObject>)
      requires i < |list|
      requires var rest := list[..i] + list[i + 1..];
               if list[i].start <= list[i].end then WithObject(rest, list[i], now) else now == rest
      ensures Cut(list, i, now)
    {}

    /** A free range leaves the list, and pageCount pages off its front become the object. */
    method CutFront(i: nat, pageCount: nat, o: VmObject)
      requires NoRepeats(freeList) && i < |freeList| && 0 < pageCount && o !in Elements(freeList)
      modifies this`freeList, this`live, freeList[i], o
      ensures freeList == old(freeList)[..i] + old(freeList)[i + 1..] && live == old(live) + {o}
      ensures NoRepeats(freeList) && Elements(freeList) == old(Elements(freeList)) - {old(freeList)[i]}
      ensures o.start == old(freeList[i].start) && o.end == o.start + pageCount * PAGE_SIZE - 1
      ensures var was := old(freeList)[i]; was in old(Elements(freeList)) && was.start == o.end + 1 && was.end == old(was.end)
    {
      var was := freeList[i];
      assert was in Elements(freeList);
      RemovedElement(freeList, i);
      hide NoRepeats, Elements;
      freeList := freeList[..i] + freeList[i + 1..];
      var newsize := pageCount * PAGE_SIZE;
      o.start := was.start;
      o.end := o.start + newsize - 1;
      was.start := was.start + newsize;
      live := live + {o};
    }

    /** What is left of the range goes back to the list. */
    method PutBack(ghost list: seq<VmObject>, ghost i: nat, was: VmObject)
      requires i < |list| && list[i] == was && freeList == list[..i] + list[i + 1..]
      requires NoRepeats(freeList) && was !in Elements(freeList)
      requires forall p :: p in Elements(freeList) ==> p.start <= p.end && Apart(p, was)
      modifies this`freeList
      ensures NoRepeats(freeList) && Cut(list, i, freeList)
      ensures Elements(freeList) == old(Elements(freeList)) + if was.start <= was.end then {was} else {}
    {
      hide NoRepeats, Elements, WithObject, RightPlace, Cut, Apart;
      if was.end >= was.start {
        AddObject(was);
      }
      CutIs(list, i, freeList);
    }

    /** The range part of vmm_alloc_object: cut pageCount pages off the front of a free range. */
    method Carve(i: nat, pageCount: nat, o: VmObject)
      requires Ranges() && i < |freeList| && 0 < pageCount && o !in Elements(freeList) + live
      requires pageCount * PAGE_SIZE <= freeList[i].end - freeList[i].start + 1
      modifies this`freeList, this`live, freeList[i], o
      ensures live == old(live) + {o} && Ranges()
      ensures o.start == old(freeList[i].start) && o.end == o.start + pageCount * PAGE_SIZE - 1
      ensures Elements(freeList) <= old(Elements(freeList)) && Cut(old(freeList), i, freeList)
    {
      hide NoRepeats, Elements, WithObject, RightPlace, Cut, Tiling, Shaped, Apart, AddressSpace.Ranges;
      ghost var list := freeList;
      var was := freeList[i];
      RangeStart(i);
      CutFront(i, pageCount, o);
      CutApart(was);
      PutBack(list, i, was);
      CarvedRanges(was, o);
    }

    /** The range that shrank is apart from all other free ranges. */
    twostate lemma CutApart(new was: VmObject)
      requires old(allocated(was)) && old(Ranges()) && was in old(Elements(freeList))
      requires Elements(freeList) == old(Elements(freeList)) - {was}
      requires forall p :: p in old(Elements(freeList) + live) && old(allocated(p)) && p != was ==> p.start == old(p.start) && p.end == old(p.end)
      requires old(was.start) <= was.start && was.end == old(was.end)
      ensures was !in Elements(freeList) && forall p :: p in Elements(freeList) ==> p.start <= p.end && Apart(p, was)
    {
      hide NoRepeats, Tiling;
      ShrunkApart(old(Elements(freeList)) + old(live), was, lo, hi);
    }

    /** The ranges are apart and cover the space again. */
    twostate lemma CarvedRanges(new was: VmObject, new o: VmObject)
      requires old(allocated(was)) && old(allocated(o)) && old(Ranges()) && was in old(Elements(freeList))
      requires o !in old(Elements(freeList) + live) && live == old(live) + {o} && NoRepeats(freeList)
      requires Elements(freeList) == old(Elements(freeList)) - {was} + if was.start <= was.end then {was} else {}
      requires forall p :: p in old(Elements(freeList) + live) && old(allocated(p)) && p != was ==> p.start == old(p.start) && p.end == old(p.end)
      requires o.start == old(was.start) && o.end + 1 == was.start && was.end == old(was.end)
      requires o.start <= o.end <= was.end && was.start % PAGE_SIZE == 0
      ensures Ranges()
    {
      hide NoRepeats, Tiling;
      SetsAfterCut(old(Elements(freeList)), old(live), was, o);
      CarvedTiling(old(Elements(freeList)) + old(live), was, o, lo, hi, Elements(freeList) + live);
    }

    lemma SetsAfterCut(ranges: set<VmObject>, others: set<VmObject>, was: VmObject, o: VmObject)
      requires was in ranges && ranges !! others && o !in ranges + others
      ensures (ranges - {was}) + {was} == ranges && ranges !! others + {o}
      ensures ranges + (others + {o}) == ranges + others + {o}
      ensures (ranges - {was}) + (others + {o}) == ranges + others - {was} + {o}
    {}

    lemma RangeStart(i: nat)
      requires Ranges() && i < |freeList|
      ensures NoRepeats(freeList)
      ensures freeList[i] in Elements(freeList) && freeList[i].start % PAGE_SIZE == 0 && freeList[i].start <= freeList[i].end
    {
      assert freeList[i] in Elements(freeList) + live;
      assert Shaped(freeList[i], lo, hi);
    }

    /**
     vmm_alloc_object.  The result is an object in either case: on failure it is the one
     that has just been released, and the caller is not told (`ok` is not part of the
     program).
     */
    method AllocObject(backing: Backing, size: nat, readable: bool) returns (o: VmObject, ghost ok: bool)
      requires Valid() && size > 0
      modifies this`freeList, this`uncommitted, this`live, freeList
      ensures Valid() && fresh(o)
      ensures ok <==> exists p :: p in old(freeList) && old(Fits(p, SizeToPages(size)))
      ensures !ok ==> o !in live && live == old(live) && freeList == old(freeList) && uncommitted == old(uncommitted)
      ensures ok ==> live == old(live) + {o} && o.end - o.start + 1 == SizeToPages(size) * PAGE_SIZE
      ensures ok ==> o.backing == backing && o.readable == readable
      ensures Elements(freeList) <= old(Elements(freeList))
      // what is handed out is the front of the first free range with room, and was free
      ensures ok ==> exists p :: p in old(freeList) && old(p.start) <= o.start && o.end <= old(p.end)
      ensures ok ==> exists i :: 0 <= i < |old(freeList)| && old(FirstFit(freeList, SizeToPages(size), i))
                                 && o.start == old(freeList[i].start) && Cut(old(freeList), i, freeList)
    {
      var pageCount := SizeToPages(size);
      o := new VmObject(backing, readable);
      var u := new Uncommitted(o, pageCount, Words.WORD_BITS * Bitmaps.NeededWordCount(pageCount));
      FreeIsShaped();
      hide Shaped, Tiling, Elements, NoRepeats, AddressSpace.Records, AddressSpace.Frames, AddressSpace.Exact, AddressSpace.BitsRight, AddressSpace.Ranges, SizeToPages, FirstFit, Cut;
      var found, i := TakeObject(freeList, pageCount);
      if !found {
        return o, false;
      }
      FirstFitIs(freeList, pageCount, i);
      assert freeList[i] in freeList;
      FreeApartFromLive(o);
      FreeIsUnmapped(freeList[i]);
      ShapedSize(freeList[i], lo, hi);
      HandOut(i, pageCount, o, u);
      return o, true;
    }

    lemma FirstFitIs(list: seq<VmObject>, pageCount: nat, i: nat)
      requires i < |list| && (forall o :: o in list ==> o.start <= o.end)
      requires pageCount <= SizeToPages(list[i].end - list[i].start + 1)
      requires forall j :: 0 <= j < i ==> SizeToPages(list[j].end - list[j].start + 1) < pageCount
      ensures FirstFit(list, pageCount, i)
    {
      hide SizeToPages;
    }

    method HandOut(i: nat, pageCount: nat, o: VmObject, u: Uncommitted)
      requires Valid() && i < |freeList| && freeList[i] in Elements(freeList) && 0 < pageCount
      requires pageCount * PAGE_SIZE <= freeList[i].end - freeList[i].start + 1 && freeList[i].start % PAGE_SIZE == 0
      requires o !in Elements(freeList) + live && u !in uncommitted
      requires u.target == o && |u.bits| >= pageCount > 0 && forall k :: 0 <= k < |u.bits| ==> u.bits[k] == (k < pageCount)
      requires forall p: nat :: p in pages ==> !Covers(freeList[i], p * PAGE_SIZE)
      modifies this`freeList, this`uncommitted, this`live, freeList[i], o
      ensures Valid() && live == old(live) + {o} && Elements(freeList) <= old(Elements(freeList)) && Cut(old(freeList), i, freeList)
      ensures o.start == old(freeList[i].start) && o.end == o.start + pageCount * PAGE_SIZE - 1
    {
      hide Tiling, Elements, NoRepeats, AddressSpace.Records, AddressSpace.Frames, AddressSpace.Exact, AddressSpace.BitsRight;
      Carve(i, pageCount, o);
      uncommitted := uncommitted + [u];
      AllocKeeps(u, o, pageCount);
    }

    lemma FreeApartFromLive(o: VmObject)
      requires Ranges() && o !in freeList && o !in live
      ensures o !in Elements(freeList) + live
    {}

    lemma FreeIsShaped()
      requires Ranges()
      ensures forall p :: p in freeList ==> p in Elements(freeList) && Shaped(p, lo, hi)
    {}

    /** A new object with nothing mapped and a full record keeps the records and the frames. */
    twostate lemma AllocKeeps(new u: Uncommitted, new o: VmObject, new pageCount: nat)
      requires old(Records()) && old(Frames()) && o !in old(live)
      requires live == old(live) + {o} && uncommitted == old(uncommitted) + [u]
      requires pages == old(pages) && owner == old(owner) && frames == old(frames)
      requires forall x :: x in old(live) ==> x.start == old(x.start) && x.end == old(x.end)
      requires forall v :: v in old(uncommitted) ==> v.bits == old(v.bits)
      requires u.target == o && |u.bits| >= pageCount > 0 && forall k :: 0 <= k < |u.bits| ==> u.bits[k] == (k < pageCount)
      requires o.start % PAGE_SIZE == 0 && o.end == o.start + pageCount * PAGE_SIZE - 1
      requires forall p: nat :: p in pages ==> !Covers(o, p * PAGE_SIZE)
      ensures Records() && Frames()
    {
      hide AddressSpace.Records, AddressSpace.Exact, AddressSpace.Frames;
      FullRecordIsExact(u, pageCount);
      AllocKeepsRecords(u, o);
      AllocKeepsFrames(o);
    }

    twostate lemma AllocKeepsFrames(new o: VmObject)
      requires old(Frames()) && live == old(live) + {o}
      requires pages == old(pages) && owner == old(owner) && frames == old(frames)
      requires forall x :: x in old(live) ==> x.start == old(x.start) && x.end == old(x.end)
      ensures Frames()
    {}

    lemma FullRecordIsExact(u: Uncommitted, pageCount: nat)
      requires var o := u.target;
               && o.start % PAGE_SIZE == 0 && o.end == o.start + pageCount * PAGE_SIZE - 1
               && forall p: nat :: p in pages ==> !Covers(o, p * PAGE_SIZE)
      requires |u.bits| >= pageCount > 0 && forall k :: 0 <= k < |u.bits| ==> u.bits[k] == (k < pageCount)
      ensures Exact(u)
    {
      var o := u.target;
      assert u.bits[0];
      forall k | 0 <= k < |u.bits|
        ensures u.bits[k] <==> Covers(o, o.start + k * PAGE_SIZE) && o.start / PAGE_SIZE + k !in pages
      {
        assert (o.start / PAGE_SIZE + k) * PAGE_SIZE == o.start + k * PAGE_SIZE;
      }
    }

    /** An exact record of a new object keeps the records. */
    twostate lemma AllocKeepsRecords(new u: Uncommitted, new o: VmObject)
      requires old(Records()) && o !in old(live)
      requires live == old(live) + {o} && uncommitted == old(uncommitted) + [u] && pages == old(pages)
      requires forall x :: x in old(live) ==> x.start == old(x.start) && x.end == old(x.end)
      requires forall v :: v in old(uncommitted) ==> v.bits == old(v.bits)
      requires u.target == o && Exact(u)
      ensures Records()
    {
      forall v | v in uncommitted
        ensures v.target in live && Exact(v)
      {
        if v in old(uncommitted) {
          assert old(Exact(v));
        }
      }
      hide AddressSpace.Exact;
      forall x | x in live
        ensures HasRecord(x) || FullyMapped(x)
      {
        if x == o {
          assert uncommitted[|uncommitted| - 1].target == o;
        } else if old(HasRecord(x)) {
          var n :| 0 <= n < |old(uncommitted)| && old(uncommitted)[n].target == x;
          assert uncommitted[n].target == x;
        } else {
          assert old(FullyMapped(x));
        }
      }
    }

    /** find_object_in_uncommited */
    method FindUncommitted(ptr: nat) returns (found: bool, n: nat)
      ensures found ==> n < |uncommitted| && Covers(uncommitted[n].target, ptr / PAGE_SIZE * PAGE_SIZE)
      ensures !found ==> forall u :: u in uncommitted ==> !Covers(u.target, ptr / PAGE_SIZE * PAGE_SIZE)
    {
      var pageBase := ptr - ptr % PAGE_SIZE;
      n := 0;
      while n < |uncommitted|
        invariant 0 <= n <= |uncommitted|
        invariant forall i :: 0 <= i < n ==> !Covers(uncommitted[i].target, pageBase)
      {
        if uncommitted[n].target.start <= pageBase && pageBase <= uncommitted[n].target.end {
          return true, n;
        }
        n := n + 1;
      }
      return false, n;
    }

    /** No two live objects cover the same address. */
    lemma OneCover(o: VmObject, x: VmObject, a: nat)
      requires Ranges() && o in live && x in live && Covers(o, a) && Covers(x, a)
      ensures o == x
    {
      assert o != x ==> Apart(o, x);
    }

    /** The bit of a page in the record of its object. */
    lemma BitOfPage(u: Uncommitted, p: nat)
      requires Ranges() && u.target in live && Exact(u) && Covers(u.target, p * PAGE_SIZE)
      ensures var k := p - u.target.start / PAGE_SIZE;
              0 <= k < |u.bits| && u.bits[k] == (p !in pages) && u.target.start + k * PAGE_SIZE == p * PAGE_SIZE
    {
      assert Shaped(u.target, lo, hi);
    }

    /** A page that is not mapped, in a live object, has a record. */
    lemma UnmappedHasRecord(o: VmObject, p: nat)
      requires Records() && o in live && Covers(o, p * PAGE_SIZE) && p !in pages
      ensures exists u :: u in uncommitted && u.target == o
    {
      hide AddressSpace.Exact;
      assert !FullyMapped(o);
      var i :| 0 <= i < |uncommitted| && uncommitted[i].target == o;
      assert uncommitted[i] in uncommitted;
    }

    /** The commitment of one page in vmm_page_fault. */
    method Commit(n: nat, k: nat, page: nat, f: nat)
      requires Valid() && n < |uncommitted|
      requires var o := uncommitted[n].target;
               && Covers(o, page * PAGE_SIZE) && page !in pages && k < |uncommitted[n].bits|
               && k == page - o.start / PAGE_SIZE
               && (if o.backing.At? then f == o.backing.firstFrame + k else f !in frames)
      modifies this`uncommitted, this`pages, this`owner, this`frames, uncommitted[n]
      ensures Valid()
      ensures pages == old(pages)[page := f]
      ensures frames == if old(uncommitted[n]).target.backing.At? then old(frames) else old(frames) + {f}
    {
      hide Tiling, Elements, NoRepeats, AddressSpace.Exact, AddressSpace.BitsRight, AddressSpace.Records, AddressSpace.Frames, AddressSpace.HasRecord, AddressSpace.FullyMapped;
      var u := uncommitted[n];
      assert u in uncommitted;
      RecordedIsLive(u);
      u.bits := u.bits[k := false];
      pages := pages[page := f];
      owner := owner[page := u.target];
      if u.target.backing.Anonymous? {
        frames := frames + {f};
      }
      if true !in u.bits {
        uncommitted := uncommitted[..n] + uncommitted[n + 1..];
      }
      CommitKeepsFrames(u.target, page, f);
      CommitKeepsRecords(n, u, k, page);
    }

    lemma RecordedIsLive(u: Uncommitted)
      requires Records() && u in uncommitted
      ensures u.target in live && Exact(u)
    {}

    twostate lemma CommitKeepsFrames(new o: VmObject, new page: nat, new f: nat)
      requires old(Frames()) && o in live && live == old(live) && page !in old(pages) && Covers(o, page * PAGE_SIZE)
      requires forall x :: x in live ==> x.start == old(x.start) && x.end == old(x.end)
      requires pages == old(pages)[page := f] && owner == old(owner)[page := o]
      requires if o.backing.At? then f == o.backing.firstFrame + (page - o.start / PAGE_SIZE) else f !in old(frames)
      requires frames == if o.backing.At? then old(frames) else old(frames) + {f}
      ensures Frames()
    {
      assert Owned();
      CommitAccounted(o, page, f);
      hide AddressSpace.Accounted;
    }

    twostate lemma CommitAccounted(new o: VmObject, new page: nat, new f: nat)
      requires old(owner).Keys == old(pages).Keys && old(Accounted()) && page !in old(pages)
      requires pages == old(pages)[page := f] && owner == old(owner)[page := o]
      requires o.backing.At? || f !in old(frames)
      requires frames == if o.backing.At? then old(frames) else old(frames) + {f}
      ensures owner.Keys == pages.Keys && Accounted()
    {
      forall p | Anon(p)
        ensures pages[p] in frames && (p != page ==> old(Anon(p)) && pages[p] == old(pages)[p])
      {
        assert p != page ==> old(Anon(p));
      }
      forall g | g in frames
        ensures exists p :: Anon(p) && pages[p] == g
      {
        if g in old(frames) {
          var p :| old(Anon(p)) && old(pages)[p] == g;
          assert Anon(p) && pages[p] == g;
        } else {
          assert Anon(page) && pages[page] == g;
        }
      }
    }

    /** Clearing one bit and mapping its page keeps every record exact. */
    twostate lemma CommitKeepsRecords(new n: nat, new u: Uncommitted, new k: nat, new page: nat)
      requires old(Ranges()) && old(Records()) && n < |old(uncommitted)| && old(uncommitted)[n] == u && u in old(uncommitted)
      requires live == old(live) && freeList == old(freeList)
      requires forall x :: x in Elements(freeList) + live ==> x.start == old(x.start) && x.end == old(x.end)
      requires pages.Keys == old(pages).Keys + {page} && page !in old(pages)
      requires Covers(u.target, page * PAGE_SIZE) && k == page - u.target.start / PAGE_SIZE && k < |u.bits|
      requires |u.bits| == |old(u.bits)| && u.bits == old(u.bits)[k := false]
      requires forall v :: v in old(uncommitted) && v != u ==> v.bits == old(v.bits)
      requires uncommitted == if true in u.bits then old(uncommitted) else old(uncommitted)[..n] + old(uncommitted)[n + 1..]
      ensures Records()
    {
      hide AddressSpace.Exact, AddressSpace.BitsRight, AddressSpace.FullyMapped, AddressSpace.Ranges;
      var was := old(uncommitted);
      forall i | 0 <= i < |was| && i != n
        ensures was[i].target in live && Exact(was[i])
      {
        assert was[i] in was && was[i].target != was[n].target;
        OtherRecordKept(was[i], u.target, page);
      }
      OwnRecordKept(u, k, page);
      forall x | x in live && !old(HasRecord(x))
        ensures FullyMapped(x)
      {
        StaysMapped(x, page);
      }
      RecordsAfter(was, n, true !in u.bits);
    }

    /** The list of records with the n-th one kept or removed. */
    lemma RecordsAfter(was: seq<Uncommitted>, n: nat, removed: bool)
      requires n < |was| && was[n].target in live
      requires forall i :: 0 <= i < |was| && (i != n || !removed) ==> was[i].target in live && Exact(was[i])
      requires forall i, j :: 0 <= i < j < |was| ==> was[i].target != was[j].target
      requires uncommitted == if removed then was[..n] + was[n + 1..] else was
      requires removed ==> FullyMapped(was[n].target)
      requires forall x :: x in live && (forall i :: 0 <= i < |was| ==> was[i].target != x) ==> FullyMapped(x)
      ensures Records()
    {
      hide AddressSpace.Exact, AddressSpace.FullyMapped;
      forall i | 0 <= i < |uncommitted|
        ensures uncommitted[i].target in live && Exact(uncommitted[i])
      {
        assert uncommitted[i] == was[if removed && n <= i then i + 1 else i];
      }
      forall i, j | 0 <= i < j < |uncommitted|
        ensures uncommitted[i].target != uncommitted[j].target
      {
        assert uncommitted[i] == was[if removed && n <= i then i + 1 else i];
        assert uncommitted[j] == was[if removed && n <= j then j + 1 else j];
      }
      forall x | x in live
        ensures HasRecord(x) || FullyMapped(x)
      {
        RecordAfter(was, n, removed, x);
      }
    }

    /** An object keeps its record, unless that is the one removed. */
    lemma RecordAfter(was: seq<Uncommitted>, n: nat, removed: bool, x: VmObject)
      requires n < |was| && uncommitted == if removed then was[..n] + was[n + 1..] else was
      requires removed ==> FullyMapped(was[n].target)
      requires (forall i :: 0 <= i < |was| ==> was[i].target != x) ==> FullyMapped(x)
      ensures HasRecord(x) || FullyMapped(x)
    {
      hide AddressSpace.FullyMapped;
      if i :| 0 <= i < |was| && was[i].target == x {
        if !(removed && i == n) {
          assert uncommitted[if removed && n < i then i - 1 else i] == was[i];
        }
      }
    }

    twostate lemma StaysMapped(new x: VmObject, new page: nat)
      requires old(allocated(x)) && old(FullyMapped(x)) && x.start == old(x.start) && x.end == old(x.end)
      requires pages.Keys == old(pages).Keys + {page}
      ensures FullyMapped(x)
    {
      forall p: nat | Covers(x, p * PAGE_SIZE)
        ensures p in pages
      {
        assert old(Covers(x, p * PAGE_SIZE));
      }
    }

    twostate lemma OtherRecordKept(new v: Uncommitted, new o: VmObject, new page: nat)
      requires old(allocated(v)) && old(Ranges()) && old(Exact(v)) && v.bits == old(v.bits)
      requires o in old(live) && v.target in old(live) && v.target != o && Covers(o, page * PAGE_SIZE)
      requires forall x :: x in old(live) ==> x.start == old(x.start) && x.end == old(x.end)
      requires pages.Keys == old(pages).Keys + {page}
      ensures Exact(v)
    {
      assert old(Apart(v.target, o)) && old(Shaped(v.target, lo, hi));
      forall k | 0 <= k < |v.bits|
        ensures v.bits[k] <==> Covers(v.target, v.target.start + k * PAGE_SIZE) && v.target.start / PAGE_SIZE + k !in pages
      {
        assert (v.target.start / PAGE_SIZE + k) * PAGE_SIZE == v.target.start + k * PAGE_SIZE;
      }
    }

    twostate lemma OwnRecordKept(new u: Uncommitted, new k: nat, new page: nat)
      requires old(allocated(u)) && old(Ranges()) && u.target in old(live) && old(Exact(u))
      requires u.target.start == old(u.target.start) && u.target.end == old(u.target.end)
      requires pages.Keys == old(pages).Keys + {page}
      requires Covers(u.target, page * PAGE_SIZE) && k == page - u.target.start / PAGE_SIZE && k < |u.bits|
      requires |u.bits| == |old(u.bits)| && u.bits == old(u.bits)[k := false]
      ensures BitsRight(u)
      ensures true in u.bits ==> Exact(u)
      ensures true !in u.bits ==> FullyMapped(u.target)
    {
      var o := u.target;
      assert old(Shaped(o, lo, hi));
      forall i | 0 <= i < |u.bits|
        ensures u.bits[i] <==> Covers(o, o.start + i * PAGE_SIZE) && o.start / PAGE_SIZE + i !in pages
      {
        assert old(Covers(o, o.start + i * PAGE_SIZE)) == Covers(o, o.start + i * PAGE_SIZE);
      }
      if true !in u.bits {
        forall p: nat | Covers(o, p * PAGE_SIZE)
          ensures p in pages
        {
          var i := p - o.start / PAGE_SIZE;
          assert o.start + i * PAGE_SIZE == p * PAGE_SIZE;
          assert !u.bits[i];
        }
      }
    }

    /** The page is one that a fault can commit: in a readable live object, not yet mapped. */
    ghost predicate CanCommit(page: nat, havePage: bool)
      reads this`live, this`pages, live
    {
      page !in pages && exists o :: o in live && Covers(o, page * PAGE_SIZE) && o.readable && (o.backing.At? || havePage)
    }

    /** The page of o has the frame it must have; a new frame counts as used. */
    ghost predicate Backs(o: VmObject, page: nat, frame: nat)
      reads o, this`pages, this`frames
    {
      page in pages &&
      match o.backing
      case At(first) => pages[page] == first + page - o.start / PAGE_SIZE
      case Anonymous => pages[page] == frame && frame in frames
    }

    /**
     vmm_page_fault.  `permitted` is the verdict of arch_mmu_emulate, which knows only
     mapped pages; `havePage` and `frame` are what pmm_alloc has to offer.
     */
    method PageFault(ptr: nat, permitted: bool, wasPresent: bool, havePage: bool, frame: nat) returns (outcome: Outcome)
      requires Valid() && (havePage ==> frame !in frames)
      requires permitted ==> ptr / PAGE_SIZE in pages
      modifies this`uncommitted, this`pages, this`owner, this`frames, uncommitted
      ensures outcome == Spurious <==> permitted
      ensures outcome == Spurious ==> Valid() && pages == old(pages) && frames == old(frames)
      // a missing page of a live object is always committed, whatever happened before
      ensures outcome == Committed <==> !permitted && !wasPresent && ptr / PAGE_SIZE != 0 && old(CanCommit(ptr / PAGE_SIZE, havePage))
      ensures outcome == Committed ==> Valid() && ptr / PAGE_SIZE in pages && pages == old(pages)[ptr / PAGE_SIZE := pages[ptr / PAGE_SIZE]]
      ensures outcome == Committed ==> frames == old(frames) || (frames == old(frames) + {frame} && pages[ptr / PAGE_SIZE] == frame)
      // the page shows its part of the physical range of its object, or the new frame
      ensures outcome == Committed ==> exists o :: o in live && Covers(o, ptr / PAGE_SIZE * PAGE_SIZE) && Backs(o, ptr / PAGE_SIZE, frame)
    {
      hide Tiling, Elements, NoRepeats, AddressSpace.Exact, AddressSpace.BitsRight, AddressSpace.Frames;
      var page := ptr / PAGE_SIZE;
      if permitted {
        return Spurious;
      }
      if wasPresent || page == 0 {
        return Panic;
      }
      CoveredInside(page);
      var pageBase := ptr - ptr % PAGE_SIZE;
      if pageBase < lo || hi < pageBase {
        return Panic;
      }
      RecordOfMissing(page);
      hide AddressSpace.Records, AddressSpace.Ranges, AddressSpace.HasRecord, AddressSpace.FullyMapped;
      var found, n := FindUncommitted(ptr);
      if !found {
        return Panic;
      }
      var u := uncommitted[n];
      assert u in uncommitted;
      var k := (pageBase - u.target.start) / PAGE_SIZE;
      RecordedPage(u, page);
      if !u.bits[k] {
        return Panic;
      }
      if u.target.backing.Anonymous? && !havePage {
        return Panic;
      }
      if !u.target.readable {
        return Panic;
      }
      var f := if u.target.backing.At? then u.target.backing.firstFrame + k else frame;
      Commit(n, k, page, f);
      return Committed;
    }

    lemma CoveredInside(page: nat)
      requires Ranges()
      ensures forall o :: o in live && Covers(o, page * PAGE_SIZE) ==> lo <= page * PAGE_SIZE <= hi
    {
      forall o | o in live && Covers(o, page * PAGE_SIZE)
        ensures lo <= page * PAGE_SIZE <= hi
      {
        assert o in Elements(freeList) + live;
        assert Shaped(o, lo, hi);
      }
    }

    lemma RecordOfMissing(page: nat)
      requires Records()
      ensures forall o :: o in live && Covers(o, page * PAGE_SIZE) && page !in pages ==> exists u :: u in uncommitted && u.target == o
    {
      forall o | o in live && Covers(o, page * PAGE_SIZE) && page !in pages
        ensures exists u :: u in uncommitted && u.target == o
      {
        UnmappedHasRecord(o, page);
      }
    }

    /** The record whose object covers the page is the record of the page. */
    lemma RecordedPage(u: Uncommitted, page: nat)
      requires Ranges() && Records() && u in uncommitted && Covers(u.target, page * PAGE_SIZE)
      ensures u.target in live && u.target.start <= page * PAGE_SIZE
      ensures var k := (page * PAGE_SIZE - u.target.start) / PAGE_SIZE;
              0 <= k < |u.bits| && u.bits[k] == (page !in pages) && k == page - u.target.start / PAGE_SIZE
      ensures forall o :: o in live && Covers(o, page * PAGE_SIZE) ==> o == u.target
    {
      hide AddressSpace.BitsRight, Elements, NoRepeats, Tiling;
      RecordedIsLive(u);
      BitOfPage(u, page);
      forall o | o in live && Covers(o, page * PAGE_SIZE)
        ensures o == u.target
      {
        OneCover(o, u.target, page * PAGE_SIZE);
      }
    }

    /** One page of vmm_free: give its frame back if it is anonymous, and unmap it. */
    method UnmapPage(o: VmObject, p: nat)
      requires Frames() && p in pages && owner[p] == o
      modifies this`pages, this`owner, this`frames
      ensures Frames() && Kept(old(pages), old(owner), {p}, pages, owner)
      ensures o.backing.At? ==> frames == old(frames)
    {
      hide AddressSpace.Frames;
      FramesKeys();
      var frame := pages[p];
      if o.backing.Anonymous? {
        frames := frames - {frame};
      }
      pages := map q | q in pages && q != p :: pages[q];
      owner := map q | q in owner && q != p :: owner[q];
      UnmapKeepsFrames(o, p);
    }

    lemma FramesKeys()
      requires Frames()
      ensures owner.Keys == pages.Keys
    {}

    twostate lemma UnmapKeepsFrames(new o: VmObject, new p: nat)
      requires old(Frames()) && p in old(pages) && old(owner)[p] == o && Kept(old(pages), old(owner), {p}, pages, owner)
      requires live == old(live) && forall x :: x in live ==> x.start == old(x.start) && x.end == old(x.end)
      requires frames == if o.backing.Anonymous? then old(frames) - {old(pages)[p]} else old(frames)
      ensures Frames()
    {
      assert Owned();
      UnmapAccounted(o, p);
      hide AddressSpace.Accounted;
    }

    twostate lemma UnmapAccounted(new o: VmObject, new p: nat)
      requires old(owner).Keys == old(pages).Keys && old(Accounted())
      requires p in old(pages) && old(owner)[p] == o && Kept(old(pages), old(owner), {p}, pages, owner)
      requires frames == if o.backing.Anonymous? then old(frames) - {old(pages)[p]} else old(frames)
      ensures owner.Keys == pages.Keys && Accounted()
    {
      forall q | Anon(q)
        ensures pages[q] in frames && q != p && old(Anon(q)) && pages[q] == old(pages)[q]
      {
        assert q in pages && q in old(pages) && old(Anon(q));
        assert o.backing.Anonymous? ==> old(Anon(p));
      }
      forall f | f in frames
        ensures exists q :: Anon(q) && pages[q] == f
      {
        var q :| old(Anon(q)) && old(pages)[q] == f;
        assert q != p;
        assert Anon(q) && pages[q] == f;
      }
    }

    /** The mapped pages of o below address `bound`. */
    static ghost function PagesBelow(was: map<nat, nat>, wasOwner: map<nat, VmObject>, o: VmObject, bound: nat): set<nat>
      requires was.Keys == wasOwner.Keys
    {
      set p | p in was && wasOwner[p] == o && p * PAGE_SIZE < bound
    }

    /** The loop of vmm_free: afterwards no page of o is mapped and every other page is as before. */
    method UnmapObject(o: VmObject)
      requires Ranges() && Frames() && o in live
      modifies this`pages, this`owner, this`frames
      ensures Frames() && old(pages).Keys == old(owner).Keys
      ensures Kept(old(pages), old(owner), PagesBelow(old(pages), old(owner), o, o.end + 1), pages, owner)
      ensures o.backing.At? ==> frames == old(frames)
    {
      hide AddressSpace.Frames, AddressSpace.Ranges, PagesBelow, Kept;
      FramesKeys();
      ObjectIsShaped(o);
      NothingBelow(o);
      var ptr := o.start;
      while ptr <= o.end
        invariant o.start <= ptr <= o.end + 1 && ptr % PAGE_SIZE == 0
        invariant Frames() && Ranges()
        invariant Kept(old(pages), old(owner), PagesBelow(old(pages), old(owner), o, ptr), pages, owner)
        invariant o.backing.At? ==> frames == old(frames)
        decreases o.end + 1 - ptr
      {
        var p: nat := ptr / PAGE_SIZE;
        assert p * PAGE_SIZE == ptr;
        OwnedByCover(o);
        ghost var mid, midOwner := pages, owner;
        if p in pages {
          UnmapPage(o, p);
        }
        KeptStep(old(pages), old(owner), o, ptr, mid, midOwner, pages, owner);
        NextPage(ptr, o.end);
        ptr := ptr + PAGE_SIZE;
      }
    }

    static lemma KeptStep(a: map<nat, nat>, ao: map<nat, VmObject>, o: VmObject, ptr: nat, b: map<nat, nat>, bo: map<nat, VmObject>, c: map<nat, nat>, co: map<nat, VmObject>)
      requires a.Keys == ao.Keys && ptr % PAGE_SIZE == 0
      requires Kept(a, ao, PagesBelow(a, ao, o, ptr), b, bo)
      requires var p := ptr / PAGE_SIZE;
               if p in b then bo[p] == o && Kept(b, bo, {p}, c, co) else c == b && co == bo
      ensures Kept(a, ao, PagesBelow(a, ao, o, ptr + PAGE_SIZE), c, co)
    {
      PagesBelowStep(a, ao, o, ptr);
      if ptr / PAGE_SIZE in b {
        KeptTwice(a, ao, PagesBelow(a, ao, o, ptr), b, bo, {ptr / PAGE_SIZE}, c, co);
      }
    }

    lemma NothingBelow(o: VmObject)
      requires Frames() && owner.Keys == pages.Keys
      ensures Kept(pages, owner, PagesBelow(pages, owner, o, o.start), pages, owner)
    {
      assert PagesBelow(pages, owner, o, o.start) == {};
    }

    static lemma PagesBelowStep(was: map<nat, nat>, wasOwner: map<nat, VmObject>, o: VmObject, ptr: nat)
      requires was.Keys == wasOwner.Keys && ptr % PAGE_SIZE == 0
      ensures var p := ptr / PAGE_SIZE;
              PagesBelow(was, wasOwner, o, ptr + PAGE_SIZE) ==
              PagesBelow(was, wasOwner, o, ptr) + (if p in was && wasOwner[p] == o then {p} else {})
    {}

    static lemma NextPage(ptr: nat, end: nat)
      requires ptr % PAGE_SIZE == 0 && (end + 1) % PAGE_SIZE == 0 && ptr <= end
      ensures (ptr + PAGE_SIZE) % PAGE_SIZE == 0 && ptr + PAGE_SIZE <= end + 1
    {}

    lemma ObjectIsShaped(o: VmObject)
      requires Ranges() && o in live
      ensures Shaped(o, lo, hi)
    {
      assert o in Elements(freeList) + live;
    }

    /** vmm_free: the range is free again, nothing of it stays mapped, and every frame it owned is given back. */
    method FreeObject(o: VmObject)
      requires Valid() && o in live
      modifies this`freeList, this`uncommitted, this`pages, this`owner, this`frames, this`live
      ensures Valid() && live == old(live) - {o} && Elements(freeList) == old(Elements(freeList)) + {o}
      ensures WithObject(old(freeList), o, freeList)
      ensures old(pages).Keys == old(owner).Keys
      ensures Kept(old(pages), old(owner), PagesBelow(old(pages), old(owner), o, o.end + 1), pages, owner)
      ensures forall p :: p in old(pages) && old(owner)[p] == o && o.backing.Anonymous? ==> old(pages)[p] !in frames
      ensures o.backing.At? ==> frames == old(frames)
    {
      hide Tiling, NoRepeats, RightPlace, WithObject, AddressSpace.Frames, AddressSpace.Anon, AddressSpace.Records, AddressSpace.HasRecord, AddressSpace.Exact, AddressSpace.BitsRight, AddressSpace.FullyMapped;
      ObjectIsShaped(o);
      ApartFromFree(o);
      OwnedByCover(o);
      RemoveRecord(o);
      UnmapObject(o);
      FramesReturned(o);
      label Unmapped:
      live := live - {o};
      AddObject(o);
      assert Elements(freeList) + live == old(Elements(freeList) + live);
      FreeKeepsFrames@Unmapped(o);
      FreeKeepsRecords(o);
    }

    /** The first part of vmm_free: the record of o, if there is one, leaves the list. */
    method RemoveRecord(o: VmObject)
      requires Valid() && o in live
      modifies this`uncommitted
      ensures |uncommitted| <= |old(uncommitted)|
      ensures forall u :: u in uncommitted <==> u in old(uncommitted) && u.target != o
      ensures forall i, j :: 0 <= i < j < |uncommitted| ==> uncommitted[i].target != uncommitted[j].target
    {
      hide Tiling, NoRepeats, Elements, AddressSpace.Frames, AddressSpace.Exact;
      ObjectIsShaped(o);
      var was := uncommitted;
      var found, n := FindUncommitted(o.start);
      if found {
        assert was[n] in was;
        OneCover(was[n].target, o, o.start);
        uncommitted := was[..n] + was[n + 1..];
        RemovedRecord(was, n);
      }
    }

    lemma RemovedRecord(was: seq<Uncommitted>, n: nat)
      requires n < |was| && forall i, j :: 0 <= i < j < |was| ==> was[i].target != was[j].target
      ensures var now := was[..n] + was[n + 1..];
              && (forall u :: u in now <==> u in was && u.target != was[n].target)
              && forall i, j :: 0 <= i < j < |now| ==> now[i].target != now[j].target
    {
      var now := was[..n] + was[n + 1..];
      assert forall i :: 0 <= i < |now| ==> now[i] == was[if n <= i then i + 1 else i];
      forall u | u in was && u.target != was[n].target
        ensures u in now
      {
        var i :| 0 <= i < |was| && was[i] == u;
        assert now[if n < i then i - 1 else i] == u;
      }
    }

    lemma ApartFromFree(o: VmObject)
      requires Ranges() && o in live
      ensures o !in Elements(freeList)
      ensures forall p :: p in Elements(freeList) ==> p.start <= p.end && Apart(p, o)
    {
      forall p | p in Elements(freeList)
        ensures p.start <= p.end && Apart(p, o)
      {
        assert Shaped(p, lo, hi);
      }
    }

    /** A mapped page that o covers is owned by o. */
    lemma OwnedByCover(o: VmObject)
      requires Ranges() && Frames() && o in live
      ensures owner.Keys == pages.Keys
      ensures forall p :: p in pages ==> (owner[p] == o <==> Covers(o, p * PAGE_SIZE)) && owner[p] in live
    {
      forall p | p in pages
        ensures owner[p] == o <==> Covers(o, p * PAGE_SIZE)
      {
        if Covers(o, p * PAGE_SIZE) {
          OneCover(owner[p], o, p * PAGE_SIZE);
        }
      }
    }

    /** No frame of an unmapped object is still in use. */
    twostate lemma FramesReturned(new o: VmObject)
      requires old(Frames()) && Frames() && old(allocated(o)) && o.end == old(o.end)
      requires Kept(old(pages), old(owner), PagesBelow(old(pages), old(owner), o, o.end + 1), pages, owner)
      ensures forall p :: p in old(pages) && old(owner)[p] == o && o.backing.Anonymous? ==> old(pages)[p] !in frames
    {
      hide AddressSpace.Frames, Kept, AddressSpace.OneEach;
      FramesBefore(o);
      forall p | p in old(pages) && old(owner)[p] == o && o.backing.Anonymous?
        ensures old(pages)[p] !in frames
      {
        FrameReturned(old(pages), old(owner), PagesBelow(old(pages), old(owner), o, o.end + 1), p);
      }
    }

    /** No two anonymous pages share a frame. */
    static ghost predicate OneEach(was: map<nat, nat>, wasOwner: map<nat, VmObject>)
      requires was.Keys == wasOwner.Keys
    {
      forall q, r :: q in was && r in was && wasOwner[q].backing.Anonymous? && wasOwner[r].backing.Anonymous? && q != r ==> was[q] != was[r]
    }

    /** What the frames were like before. */
    twostate lemma FramesBefore(new o: VmObject)
      requires old(Frames()) && old(allocated(o)) && o.end == old(o.end)
      ensures old(pages).Keys == old(owner).Keys && OneEach(old(pages), old(owner))
      ensures forall p :: p in old(pages) && old(owner)[p] == o ==> p * PAGE_SIZE < o.end + 1
    {
      forall q, r | q in old(pages) && r in old(pages) && old(owner)[q].backing.Anonymous? && old(owner)[r].backing.Anonymous? && q != r
        ensures old(pages)[q] != old(pages)[r]
      {
        assert old(Anon(q)) && old(Anon(r));
      }
    }

    lemma FrameReturned(was: map<nat, nat>, wasOwner: map<nat, VmObject>, gone: set<nat>, p: nat)
      requires Frames() && Kept(was, wasOwner, gone, pages, owner) && p in was && p in gone
      requires OneEach(was, wasOwner) && wasOwner[p].backing.Anonymous?
      ensures was[p] !in frames
    {
      forall q | Anon(q)
        ensures pages[q] != was[p]
      {
        assert q in pages && q != p;
      }
    }

    twostate lemma FreeKeepsFrames(new o: VmObject)
      requires old(Frames()) && forall p :: p in old(pages) ==> old(owner)[p] != o
      requires pages == old(pages) && owner == old(owner) && frames == old(frames) && live == old(live) - {o}
      requires forall x :: x in live ==> x.start == old(x.start) && x.end == old(x.end)
      ensures Frames()
    {}

    twostate lemma FreeKeepsRecords(new o: VmObject)
      requires old(Records()) && old(Ranges()) && live == old(live) - {o} && o in old(live)
      requires forall x :: x in old(live) ==> x.start == old(x.start) && x.end == old(x.end)
      requires forall u :: u in old(uncommitted) ==> u.bits == old(u.bits)
      requires forall u :: u in uncommitted <==> u in old(uncommitted) && u.target != o
      requires forall i, j :: 0 <= i < j < |uncommitted| ==> uncommitted[i].target != uncommitted[j].target
      requires forall p :: p in pages ==> p in old(pages)
      requires forall p :: p in old(pages) && !Covers(o, p * PAGE_SIZE) ==> p in pages
      ensures Records()
    {
      hide AddressSpace.Exact, AddressSpace.BitsRight, AddressSpace.FullyMapped, AddressSpace.Ranges;
      forall u | u in uncommitted
        ensures u.target in live && Exact(u)
      {
        RecordOutlives(u, o);
      }
      forall x | x in live
        ensures HasRecord(x) || FullyMapped(x)
      {
        if old(HasRecord(x)) {
          var i :| 0 <= i < |old(uncommitted)| && old(uncommitted)[i].target == x;
          assert old(uncommitted)[i] in uncommitted;
        } else {
          MappingOutlives(x, o);
        }
      }
    }

    twostate lemma RecordOutlives(new u: Uncommitted, new o: VmObject)
      requires old(allocated(u)) && old(Ranges()) && old(Exact(u)) && u.bits == old(u.bits)
      requires o in old(live) && u.target in old(live) && u.target != o
      requires forall x :: x in old(live) ==> x.start == old(x.start) && x.end == old(x.end)
      requires forall p :: p in pages ==> p in old(pages)
      requires forall p :: p in old(pages) && !Covers(o, p * PAGE_SIZE) ==> p in pages
      ensures Exact(u)
    {
      assert old(Apart(u.target, o)) && old(Shaped(u.target, lo, hi));
      forall k | 0 <= k < |u.bits|
        ensures u.bits[k] <==> Covers(u.target, u.target.start + k * PAGE_SIZE) && u.target.start / PAGE_SIZE + k !in pages
      {
        assert (u.target.start / PAGE_SIZE + k) * PAGE_SIZE == u.target.start + k * PAGE_SIZE;
      }
    }

    twostate lemma MappingOutlives(new x: VmObject, new o: VmObject)
      requires old(allocated(x)) && old(Ranges()) && old(FullyMapped(x)) && x in old(live) && o in old(live) && x != o
      requires forall y :: y in old(live) ==> y.start == old(y.start) && y.end == old(y.end)
      requires forall p :: p in old(pages) && !Covers(o, p * PAGE_SIZE) ==> p in pages
      ensures FullyMapped(x)
    {
      assert old(Apart(x, o));
      forall p: nat | Covers(x, p * PAGE_SIZE)
        ensures p in pages
      {
        assert old(Covers(x, p * PAGE_SIZE));
      }
    }

    /** Nothing is mapped inside a free range. */
    lemma FreeIsUnmapped(f: VmObject)
      requires Ranges() && Frames() && f in Elements(freeList)
      ensures forall p: nat :: p in pages ==> !Covers(f, p * PAGE_SIZE)
    {
      forall p: nat | p in pages
        ensures !Covers(f, p * PAGE_SIZE)
      {
        assert owner[p] in live && Covers(owner[p], p * PAGE_SIZE);
        assert Apart(f, owner[p]);
      }
    }
  }

  ghost predicate Fits(o: VmObject, pageCount: nat)
    reads o
  {
    o.start <= o.end && pageCount <= SizeToPages(o.end - o.start + 1)
  }

  /** A range has the size of its pages. */
  lemma ShapedSize(o: VmObject, lo: nat, hi: nat)
    requires Shaped(o, lo, hi)
    ensures SizeToPages(o.end - o.start + 1) * PAGE_SIZE == o.end - o.start + 1
  {
    var a, b := o.start / PAGE_SIZE, (o.end + 1) / PAGE_SIZE;
    assert o.end - o.start + 1 == (b - a) * PAGE_SIZE;
    WholePages(o.end - o.start + 1);
  }

  lemma WholePages(size: nat)
    requires size % PAGE_SIZE == 0
    ensures SizeToPages(size) * PAGE_SIZE == size
  {}

  /** Cutting o off the front of `was` keeps the tiling. */
  twostate lemma CarvedTiling(new all: set<VmObject>, new was: VmObject, new o: VmObject, new lo: nat, new hi: nat, new all': set<VmObject>)
    requires old(allocated(all)) && old(allocated(was)) && old(allocated(o))
    requires old(Tiling(all, lo, hi)) && was in all && o !in all
    requires forall p :: p in all && p != was ==> p.start == old(p.start) && p.end == old(p.end)
    requires o.start == old(was.start) && o.end + 1 == was.start && was.end == old(was.end)
    requires o.start <= o.end <= was.end && was.start % PAGE_SIZE == 0
    requires all' == if was.start <= was.end then all + {o} else all - {was} + {o}
    ensures Tiling(all', lo, hi)
  {
    assert old(Shaped(was, lo, hi));
    forall p | p in all'
      ensures Shaped(p, lo, hi)
    {
      assert p in all && p != was ==> old(Shaped(p, lo, hi));
    }
    forall p, q | p in all' && q in all' && p != q
      ensures Apart(p, q)
    {
      if p in all && q in all {
        assert old(Apart(p, q));
      }
      if p in all && p != was {
        assert old(Apart(p, was));
      }
      if q in all && q != was {
        assert old(Apart(q, was));
      }
    }
    forall a: nat | lo <= a <= hi
      ensures Covered(all', a)
    {
      assert old(Covered(all, a));
      var p :| p in all && old(Covers(p, a));
      assert Covers(p, a) || Covers(o, a);
    }
  }

  // ------------------------------------------------------------ free ranges never merge

  /** Two apart one-page objects tile a space of two pages, and nothing else has room. */
  lemma TwoPagesFull(all: set<VmObject>, a: VmObject, b: VmObject, lo: nat)
    requires Tiling(all, lo, lo + 2 * PAGE_SIZE - 1) && a in all && b in all && a != b
    requires a.end - a.start + 1 == PAGE_SIZE && b.end - b.start + 1 == PAGE_SIZE
    ensures forall o :: o in all ==> o == a || o == b
  {
    var hi := lo + 2 * PAGE_SIZE - 1;
    assert Shaped(a, lo, hi) && Shaped(b, lo, hi) && Apart(a, b);
    forall o | o in all
      ensures o == a || o == b
    {
      assert Shaped(o, lo, hi);
      assert o != a ==> Apart(o, a);
      assert o != b ==> Apart(o, b);
    }
  }

  /** With one of two pages handed out, the other one is free. */
  lemma OnePageLeft(s: AddressSpace, a: VmObject)
    requires s.Ranges() && s.live == {a} && s.lo % PAGE_SIZE == 0 && s.hi == s.lo + 2 * PAGE_SIZE - 1
    requires a.end - a.start + 1 == PAGE_SIZE
    ensures exists p :: p in s.freeList && Fits(p, 1)
  {
    var all := Elements(s.freeList) + s.live;
    assert Shaped(a, s.lo, s.hi);
    var x := if Covers(a, s.lo) then s.hi else s.lo;
    assert Covered(all, x);
    var p :| p in all && Covers(p, x);
    assert Shaped(p, s.lo, s.hi) && p in s.freeList;
  }

  lemma NoRoomForTwo(s: AddressSpace, a: VmObject, b: VmObject)
    requires s.Ranges() && s.live == {} && s.hi == s.lo + 2 * PAGE_SIZE - 1 && a != b
    requires a in Elements(s.freeList) && b in Elements(s.freeList)
    requires a.end - a.start + 1 == PAGE_SIZE && b.end - b.start + 1 == PAGE_SIZE
    ensures forall p :: p in s.freeList ==> !Fits(p, 2)
  {
    TwoPagesFull(Elements(s.freeList) + s.live, a, b, s.lo);
    forall p | p in s.freeList
      ensures !Fits(p, 2)
    {
      assert p in Elements(s.freeList) + s.live;
    }
  }

  /** Two pages, both handed out one by one. */
  method TwoPagesTaken() returns (s: AddressSpace, a: VmObject, b: VmObject)
    ensures fresh(s) && s.Valid() && s.live == {a, b} && a != b && s.lo == PAGE_SIZE && s.hi == 3 * PAGE_SIZE - 1
    ensures a.end - a.start + 1 == PAGE_SIZE && b.end - b.start + 1 == PAGE_SIZE
    ensures fresh(Elements(s.freeList) + s.live)
  {
    hide Tiling, AddressSpace.Records, AddressSpace.Frames, NoRepeats, AddressSpace.Ranges;
    s := new AddressSpace(PAGE_SIZE, 3 * PAGE_SIZE - 1);
    ghost var whole := s.freeList[0];
    assert whole in s.freeList && Fits(whole, 1) && Elements(s.freeList) == {whole};
    ghost var ok;
    a, ok := s.AllocObject(Anonymous, PAGE_SIZE, true);
    OnePageLeft(s, a);
    s.ApartFromFree(a);
    forall i | 0 <= i < |s.freeList|
      ensures fresh(s.freeList[i]) && s.freeList[i] != a
    {
      assert s.freeList[i] in Elements(s.freeList);
    }
    b, ok := s.AllocObject(Anonymous, PAGE_SIZE, true);
  }

  /** A space of two pages, all of it free again after two allocations of one page: two pages are refused. */
  method FragmentedRefused() returns (s: AddressSpace, ghost ok: bool)
    ensures s.Valid() && s.live == {} && s.hi == s.lo + 2 * PAGE_SIZE - 1
    ensures !ok
  {
    hide Tiling, AddressSpace.Records, AddressSpace.Frames, NoRepeats, AddressSpace.Ranges, Fits;
    var a, b, c;
    s, a, b := TwoPagesTaken();
    s.FreeObject(a);
    s.FreeObject(b);
    NoRoomForTwo(s, a, b);
    forall i | 0 <= i < |s.freeList|
      ensures fresh(s.freeList[i])
    {
      assert s.freeList[i] in Elements(s.freeList);
    }
    assert SizeToPages(2 * PAGE_SIZE) == 2;
    c, ok := s.AllocObject(Anonymous, 2 * PAGE_SIZE, true);
  }
}
