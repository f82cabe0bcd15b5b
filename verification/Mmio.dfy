/**
 `map_range`, `map_mmio_page` and `map_mmio_range`: page by page, what is mapped afterwards, when the
 calls succeed, and exactly when every byte of a device region is reachable, through the higher-half
 window and from the address returned.
 */
module Mmio {
  import opened Wrappers
  import opened Bits
  import opened Frames
  import opened PageTables
  import opened Paging

  /** WRITABLE | NO_CACHE */
  const MMIO_FLAGS: Word := 18

  function PageCount(size: nat): nat {
    (size + FRAME_SIZE - 1) / FRAME_SIZE
  }

  /** Neither the virtual nor the physical end of the range overflows. */
  ghost predicate InRange(virt: nat, phys: nat, pages: nat) {
    virt + FRAME_SIZE * pages < 0x1_0000_0000_0000_0000 && phys + FRAME_SIZE * pages < 0x1_0000_0000_0000_0000
  }

  /** The k-th page of a range. */
  ghost function RangePage(virt: nat, k: nat): nat
    requires virt + FRAME_SIZE * k < 0x1_0000_0000_0000_0000
  {
    PageOf(virt + FRAME_SIZE * k)
  }

  /** The frame the k-th page of a range is mapped to. */
  ghost function RangeFrame(phys: nat, flags: Word, k: nat): nat
    requires phys + FRAME_SIZE * k < 0x1_0000_0000_0000_0000
  {
    FrameOf(LeafEntry(phys + FRAME_SIZE * k, flags))
  }

  /** The page map after the first n pages of a range were mapped. */
  ghost function WithPages(pages: map<nat, nat>, virt: nat, phys: nat, flags: Word, n: nat): map<nat, nat>
    requires InRange(virt, phys, n)
  {
    if n == 0 then pages
    else WithPages(pages, virt, phys, flags, n - 1)[RangePage(virt, n - 1) := RangeFrame(phys, flags, n - 1)]
  }

  /** None of the first n pages was mapped when its turn came. */
  ghost predicate AllFresh(pages: map<nat, nat>, virt: nat, phys: nat, flags: Word, n: nat)
    requires InRange(virt, phys, n)
  {
    n > 0 ==> AllFresh(pages, virt, phys, flags, n - 1) && RangePage(virt, n - 1) !in WithPages(pages, virt, phys, flags, n - 1)
  }

  /** `pages` is `before` with the first n pages of the range, none of which was mapped when its turn came. */
  ghost predicate RangeMapped(before: map<nat, nat>, pages: map<nat, nat>, virt: nat, phys: nat, flags: Word, n: nat) {
    InRange(virt, phys, n) && pages == WithPages(before, virt, phys, flags, n) && AllFresh(before, virt, phys, flags, n)
  }

  /** The pages of the space that lie behind a huge entry. */
  ghost function Barred(space: AddressSpace): set<nat>
    reads space, space.allocator, space.allocator.mem
  {
    BlockedPages(space.allocator.mem[..], space.root)
  }

  /** What mapping the page answers: refused exactly if mapped or barred, and else done if three frames are free. */
  ghost predicate Answers(r: Result<(), PagingError>, page: nat, pages: map<nat, nat>, barred: set<nat>, frames: nat) {
    && (r == Err(AlreadyMapped) <==> page in pages)
    && (r == Err(HugePageInPath) <==> page in barred)
    && (r == Err(OutOfFrames) ==> frames < 3)
    && r != Err(NotMapped)
  }

  ghost predicate NoneBarred(virt: nat, n: nat, barred: set<nat>)
    requires virt + FRAME_SIZE * n < 0x1_0000_0000_0000_0000
  {
    forall k | 0 <= k < n :: RangePage(virt, k) !in barred
  }

  /**
   What a range of pages answers that stopped after the first n of them: everything was mapped, or the
   next page is mapped or barred, or the frames ran out; no page before it is barred.
   */
  ghost predicate RangeAnswers(r: Result<(), PagingError>, virt: nat, count: nat, n: nat, pages: map<nat, nat>, barred: set<nat>, frames: nat)
    requires n <= count && virt + FRAME_SIZE * count < 0x1_0000_0000_0000_0000
  {
    && (r.Ok? <==> n == count)
    && (r == Err(AlreadyMapped) <==> n < count && RangePage(virt, n) in pages)
    && (r == Err(HugePageInPath) <==> n < count && RangePage(virt, n) in barred)
    && (r == Err(OutOfFrames) ==> frames < 3 * (n + 1))
    && r != Err(NotMapped)
    && NoneBarred(virt, n, barred)
  }

  /** Below the address, a leaf entry has exactly the present bit and the bits of the flags. */
  ghost predicate FlagBits(e: Word, flags: Word) {
    forall k: nat | k < 12 :: BitSet(e, k) <==> k == 0 || BitSet(flags, k)
  }

  /** Writable and not cached: of the bits below the address exactly 0, 1 and 4 are set. */
  ghost predicate DeviceBits(e: Word) {
    forall k: nat | k < 12 :: BitSet(e, k) <==> k == 0 || k == 1 || k == 4
  }

  /** The leaf entries there were are kept word for word, and every new one carries the flags. */
  ghost predicate Flagged(before: map<nat, Word>, entries: map<nat, Word>, flags: Word) {
    && (forall q | q in before :: q in entries && entries[q] == before[q])
    && forall q | q in entries && q !in before :: FlagBits(entries[q], flags)
  }

  /** The leaf entries there were are kept word for word, and every new one is writable and not cached. */
  ghost predicate DeviceMapped(before: map<nat, Word>, entries: map<nat, Word>) {
    && (forall q | q in before :: q in entries && entries[q] == before[q])
    && forall q | q in entries && q !in before :: DeviceBits(entries[q])
  }

  lemma FlaggedTrans(a: map<nat, Word>, b: map<nat, Word>, c: map<nat, Word>, flags: Word)
    requires Flagged(a, b, flags) && Flagged(b, c, flags)
    ensures Flagged(a, c, flags)
  {
  }

  lemma FlaggedOne(a: map<nat, Word>, page: nat, e: Word, phys: Word, flags: Word)
    requires page !in a && LeafBits(e, phys, flags)
    ensures Flagged(a, a[page := e], flags)
  {
  }

  /** The flags of `map_mmio_range` and `map_mmio_page` are WRITABLE, bit 1, and NO_CACHE, bit 4. */
  lemma MmioFlags(a: map<nat, Word>, b: map<nat, Word>)
    requires Flagged(a, b, MMIO_FLAGS)
    ensures DeviceMapped(a, b)
  {
    forall q | q in b && q !in a
      ensures DeviceBits(b[q])
    {
      forall k: nat | k < 12
        ensures BitSet(b[q], k) <==> k == 0 || k == 1 || k == 4
      {
        EighteenBits(k);
      }
    }
  }

  lemma EighteenBits(k: nat)
    requires k < 12
    ensures BitSet(18, k) <==> k == 1 || k == 4
  {
    if k >= 4 {
      NibbleBit(18, k - 4);
      FlagBit(k - 4);
    } else if k > 0 {
      assert BitSet(18, k) == BitSet(9, k - 1);
      assert k > 1 ==> BitSet(9, k - 1) == BitSet(4, k - 2);
    }
  }

  lemma DeviceTrans(a: map<nat, Word>, b: map<nat, Word>, c: map<nat, Word>)
    requires DeviceMapped(a, b) && DeviceMapped(b, c)
    ensures DeviceMapped(a, c)
  {
  }

  /** `map_range`: stops at the first page that fails and keeps the pages before it; the error is that of the page. */
  method MapRange(space: AddressSpace, virt: Word, phys: Word, size: Word, flags: Word) returns (r: Result<(), PagingError>, ghost done: nat)
    requires space.Valid() && InRange(virt, phys, PageCount(size))
    modifies space, space.allocator, space.allocator.mem
    ensures space.Valid() && Barred(space) == old(Barred(space))
    ensures done <= PageCount(size) && |old(space.allocator.Free())| <= |space.allocator.Free()| + 3 * (done + 1)
    ensures RangeMapped(old(space.PageMap()), space.PageMap(), virt, phys, flags, done)
    ensures RangeAnswers(r, virt, PageCount(size), done, space.PageMap(), Barred(space), |old(space.allocator.Free())|)
    ensures Flagged(old(space.EntryMap()), space.EntryMap(), flags)
  {
    r, done := MapPages(space, virt, phys, PageCount(size), flags);
  }

  /** The first n pages are mapped and none of them is barred. */
  ghost predicate RangeSoFar(before: map<nat, nat>, pages: map<nat, nat>, barred: set<nat>, virt: nat, phys: nat, flags: Word, n: nat) {
    RangeMapped(before, pages, virt, phys, flags, n) && NoneBarred(virt, n, barred)
  }

  /** The loop of `map_range`. */
  method MapPages(space: AddressSpace, virt: nat, phys: nat, count: nat, flags: Word) returns (r: Result<(), PagingError>, done: nat)
    requires space.Valid() && InRange(virt, phys, count)
    modifies space, space.allocator, space.allocator.mem
    ensures space.Valid() && Barred(space) == old(Barred(space))
    ensures done <= count && |old(space.allocator.Free())| <= |space.allocator.Free()| + 3 * (done + 1)
    ensures RangeMapped(old(space.PageMap()), space.PageMap(), virt, phys, flags, done)
    ensures RangeAnswers(r, virt, count, done, space.PageMap(), Barred(space), |old(space.allocator.Free())|)
    ensures Flagged(old(space.EntryMap()), space.EntryMap(), flags)
  {
    ghost var before, frames, entries := space.PageMap(), |space.allocator.Free()|, space.EntryMap();
    r, done := Ok(()), 0;
    while done < count
      invariant space.Valid() && done <= count && r.Ok? && Barred(space) == old(Barred(space))
      invariant RangeSoFar(before, space.PageMap(), Barred(space), virt, phys, flags, done)
      invariant frames <= |space.allocator.Free()| + 3 * done
      invariant Flagged(entries, space.EntryMap(), flags)
    {
      ghost var between := space.EntryMap();
      r := MapNext(space, virt, phys, count, done, flags, before, frames);
      FlaggedTrans(entries, between, space.EntryMap(), flags);
      if r.Err? {
        return;
      }
      done := done + 1;
    }
  }

  /** One turn of the loop of `map_range`, which began with the page map `before` and so many free frames. */
  method MapNext(space: AddressSpace, virt: nat, phys: nat, count: nat, i: nat, flags: Word, ghost before: map<nat, nat>, ghost frames: nat)
    returns (r: Result<(), PagingError>)
    requires space.Valid() && i < count && InRange(virt, phys, count) && frames <= |space.allocator.Free()| + 3 * i
    requires RangeSoFar(before, space.PageMap(), Barred(space), virt, phys, flags, i)
    modifies space, space.allocator, space.allocator.mem
    ensures space.Valid() && Barred(space) == old(Barred(space)) && frames <= |space.allocator.Free()| + 3 * (i + 1)
    ensures r.Ok? ==> RangeSoFar(before, space.PageMap(), Barred(space), virt, phys, flags, i + 1)
    ensures r.Err? ==> space.PageMap() == old(space.PageMap()) && RangeAnswers(r, virt, count, i, space.PageMap(), Barred(space), frames)
    ensures Flagged(old(space.EntryMap()), space.EntryMap(), flags)
  {
    var v, p := virt + FRAME_SIZE * i, phys + FRAME_SIZE * i;
    ghost var pages, free := space.PageMap(), |space.allocator.Free()|;
    r := MapOnly(space, v, p, flags);
    if r.Ok? {
      RangeNext(before, pages, Barred(space), virt, phys, flags, i, v, p);
    } else {
      RangeStops(r, virt, count, i, v, pages, Barred(space), frames, free);
    }
  }

  lemma RangeNext(before: map<nat, nat>, pages: map<nat, nat>, barred: set<nat>, virt: nat, phys: nat, flags: Word, i: nat, v: Word, p: Word)
    requires RangeSoFar(before, pages, barred, virt, phys, flags, i) && InRange(virt, phys, i + 1)
    requires v == virt + FRAME_SIZE * i && p == phys + FRAME_SIZE * i && PageOf(v) !in pages && PageOf(v) !in barred
    ensures RangeSoFar(before, pages[PageOf(v) := FrameOf(LeafEntry(p, flags))], barred, virt, phys, flags, i + 1)
  {
    NextPage(before, virt, phys, flags, i, v, p);
  }

  lemma RangeStops(r: Result<(), PagingError>, virt: nat, count: nat, i: nat, v: Word, pages: map<nat, nat>, barred: set<nat>, frames: nat, free: nat)
    requires i < count && virt + FRAME_SIZE * count < 0x1_0000_0000_0000_0000 && v == virt + FRAME_SIZE * i
    requires r.Err? && Answers(r, PageOf(v), pages, barred, free) && NoneBarred(virt, i, barred) && frames <= free + 3 * i
    ensures RangeAnswers(r, virt, count, i, pages, barred, frames)
  {
    assert RangePage(virt, i) == PageOf(v);
  }

  lemma NextPage(pages: map<nat, nat>, virt: nat, phys: nat, flags: Word, k: nat, v: Word, p: Word)
    requires InRange(virt, phys, k + 1) && v == virt + FRAME_SIZE * k && p == phys + FRAME_SIZE * k
    ensures RangePage(virt, k) == PageOf(v)
    ensures WithPages(pages, virt, phys, flags, k + 1) == WithPages(pages, virt, phys, flags, k)[PageOf(v) := FrameOf(LeafEntry(p, flags))]
    ensures AllFresh(pages, virt, phys, flags, k + 1) <==>
            AllFresh(pages, virt, phys, flags, k) && PageOf(v) !in WithPages(pages, virt, phys, flags, k)
  {
  }

  /** `map_page` seen through the page map, the barred pages and the number of free frames. */
  method MapOnly(space: AddressSpace, v: Word, p: Word, flags: Word) returns (r: Result<(), PagingError>)
    requires space.Valid()
    modifies space, space.allocator, space.allocator.mem
    ensures space.Valid() && Barred(space) == old(Barred(space))
    ensures Answers(r, PageOf(v), old(space.PageMap()), Barred(space), |old(space.allocator.Free())|)
    ensures r.Ok? ==> space.PageMap() == old(space.PageMap())[PageOf(v) := FrameOf(LeafEntry(p, flags))]
    ensures r.Err? ==> space.PageMap() == old(space.PageMap())
    ensures Flagged(old(space.EntryMap()), space.EntryMap(), flags)
    ensures |old(space.allocator.Free())| <= |space.allocator.Free()| + 3
  {
    ghost var a, before := space.State(), space.EntryMap();
    OutcomeMeaning(a.m, space.root, |a.free|, PageOf(v));
    r := space.MapPage(v, p, flags);
    if r.Err? {
      SameMapping(a, space.State(), space.root);
    } else {
      SameKeys(a.m, space.root);
      FlaggedOne(before, PageOf(v), space.EntryMap()[PageOf(v)], p, flags);
    }
  }

  /**
   What `map_mmio_range` answers after the first n pages of the range at `virt` were mapped: their address
   unless the next page is neither there nor can be mapped; `base` is the physical address of the range.
   */
  ghost predicate WindowAnswer(r: Option<Word>, virt: nat, base: nat, count: nat, n: nat,
                               before: map<nat, nat>, pages: map<nat, nat>, barred: set<nat>, frames: nat) {
    && n <= count && virt + FRAME_SIZE * count < 0x1_0000_0000_0000_0000
    && RangeMapped(before, pages, virt, base, MMIO_FLAGS, n) && NoneBarred(virt, n, barred)
    && (r.Some? ==> r.value == virt && (n < count ==> RangePage(virt, n) in pages))
    && (r.None? ==> n < count && RangePage(virt, n) !in pages && (RangePage(virt, n) in barred || frames < 3 * count))
    && (n < count && RangePage(virt, n) in barred ==> r.None?)
  }

  /** `map_range` with the flags of device memory, and what is made of its answer. */
  method MapWindow(space: AddressSpace, virt: Word, base: Word, size: Word) returns (r: Option<Word>, ghost done: nat)
    requires space.Valid() && InRange(virt, base, PageCount(size))
    modifies space, space.allocator, space.allocator.mem
    ensures space.Valid() && Barred(space) == old(Barred(space))
    ensures WindowAnswer(r, virt, base, PageCount(size), done, old(space.PageMap()), space.PageMap(), Barred(space), |old(space.allocator.Free())|)
    ensures DeviceMapped(old(space.EntryMap()), space.EntryMap())
  {
    ghost var before := space.EntryMap();
    var one;
    one, done := MapRange(space, virt, base, size, MMIO_FLAGS);
    MmioFlags(before, space.EntryMap());
    match one {
      case Ok(_) => return Some(virt), done;
      case Err(AlreadyMapped) => return Some(virt), done;
      case Err(_) => return None, done;
    }
  }

  function PageBase(phys: Word): Word {
    phys - phys % FRAME_SIZE
  }

  /**
   `map_mmio_range`; None stands for the panic on any error but AlreadyMapped. It returns if no page of
   the range is barred and three frames are free for each page, and panics only at a barred page or for
   want of frames. Every page it maps is writable and not cached, and the others keep their entries.
   */
  method MapMmioRange(space: AddressSpace, hhdm: Word, phys: Word, size: Word)
    returns (r: Option<Word>, ghost done: nat, ghost virt: Word, ghost base: Word)
    requires space.Valid() && InRange(PageBase(phys) + hhdm, phys, PageCount(size))
    modifies space, space.allocator, space.allocator.mem
    ensures base == phys - phys % FRAME_SIZE && virt == base + hhdm
    ensures space.Valid() && Barred(space) == old(Barred(space))
    ensures WindowAnswer(r, virt, base, PageCount(size), done, old(space.PageMap()), space.PageMap(), Barred(space), |old(space.allocator.Free())|)
    ensures DeviceMapped(old(space.EntryMap()), space.EntryMap())
  {
    var aligned := PageBase(phys);
    var shifted: Word := aligned + hhdm;
    base, virt := aligned, shifted;
    r, done := MapWindow(space, shifted, aligned, size);
  }

  /** The page map with one page, unless it was mapped already. */
  ghost function WithMissing(pages: map<nat, nat>, virt: Word, base: Word): map<nat, nat> {
    if PageOf(virt) in pages then pages else pages[PageOf(virt) := FrameOf(LeafEntry(base, MMIO_FLAGS))]
  }

  /** What `map_mmio_page` answers for the page at `virt`, and what it does to the page map. */
  ghost predicate PageAnswer(r: Option<Word>, virt: Word, base: Word, before: map<nat, nat>, pages: map<nat, nat>, barred: set<nat>, frames: nat) {
    && (r.Some? ==> r.value == virt && pages == WithMissing(before, virt, base))
    && (r.None? ==> pages == before)
    && (PageOf(virt) in before ==> r.Some?)
    && (PageOf(virt) in barred ==> r.None?)
    && (r.None? ==> PageOf(virt) in barred || frames < 3)
  }

  /**
   `map_mmio_page`: safe to repeat, as a mapped page is answered with its address and kept; panics only
   if the page is barred or fewer than three frames are free.
   */
  method MapMmioPage(space: AddressSpace, hhdm: Word, phys: Word) returns (r: Option<Word>, ghost virt: Word, ghost base: Word)
    requires space.Valid() && PageBase(phys) + hhdm < 0x1_0000_0000_0000_0000
    modifies space, space.allocator, space.allocator.mem
    ensures base == PageBase(phys) && virt == base + hhdm
    ensures PageAnswer(r, virt, base, old(space.PageMap()), space.PageMap(), Barred(space), |old(space.allocator.Free())|)
    ensures DeviceMapped(old(space.EntryMap()), space.EntryMap())
    ensures space.Valid() && Barred(space) == old(Barred(space)) && |old(space.allocator.Free())| <= |space.allocator.Free()| + 3
  {
    var aligned := PageBase(phys);
    var shifted: Word := aligned + hhdm;
    base, virt := aligned, shifted;
    r := MapOrKeep(space, shifted, aligned);
  }

  /** Maps the page at `virt` unless it is mapped already. */
  method MapOrKeep(space: AddressSpace, virt: Word, base: Word) returns (r: Option<Word>)
    requires space.Valid()
    modifies space, space.allocator, space.allocator.mem
    ensures PageAnswer(r, virt, base, old(space.PageMap()), space.PageMap(), Barred(space), |old(space.allocator.Free())|)
    ensures DeviceMapped(old(space.EntryMap()), space.EntryMap())
    ensures space.Valid() && Barred(space) == old(Barred(space)) && |old(space.allocator.Free())| <= |space.allocator.Free()| + 3
  {
    var one := MapOnly(space, virt, base, MMIO_FLAGS);
    MmioFlags(old(space.EntryMap()), space.EntryMap());
    match one {
      case Ok(_) => return Some(virt);
      case Err(AlreadyMapped) => return Some(virt);
      case Err(_) => return None;
    }
  }

  /** How many pages the bytes of a region touch. */
  ghost function TouchedPages(phys: nat, size: nat): nat {
    PageCount(phys % FRAME_SIZE + size)
  }

  /** The byte at physical address b is what its address in the higher-half window translates to. */
  ghost predicate ByteServed(pages: map<nat, nat>, hhdm: Word, b: nat)
    requires b + hhdm < 0x1_0000_0000_0000_0000
  {
    PageOf(b + hhdm) in pages && FRAME_SIZE * pages[PageOf(b + hhdm)] + (b + hhdm) % FRAME_SIZE == b
  }

  /** Every byte of the region is reachable through the higher-half window. */
  ghost predicate Reachable(pages: map<nat, nat>, hhdm: Word, phys: nat, size: nat)
    requires phys + size + hhdm < 0x1_0000_0000_0000_0000
  {
    forall b | phys <= b < phys + size :: ByteServed(pages, hhdm, b)
  }

  /**
   A region inside 52-bit physical memory, seen through a page-aligned window and smaller than the
   page space; `base` and `virt` are its first page there and in the window.
   */
  ghost predicate GoodRegion(hhdm: Word, phys: nat, size: nat, base: nat, virt: nat) {
    && base == phys - phys % FRAME_SIZE && virt == base + hhdm
    && hhdm % FRAME_SIZE == 0 && 0 < size < 0xFFFF_FFFF_F000
    && phys + size + 2 * FRAME_SIZE < 0x10_0000_0000_0000
    && phys + size + hhdm + 2 * FRAME_SIZE < 0x1_0000_0000_0000_0000
  }

  /** Consequences of GoodRegion on page counts. */
  lemma RegionBounds(hhdm: Word, phys: nat, size: nat, base: nat, virt: nat)
    requires GoodRegion(hhdm, phys, size, base, virt)
    ensures base % FRAME_SIZE == 0 && virt % FRAME_SIZE == 0
    ensures PageCount(size) <= TouchedPages(phys, size) <= PageCount(size) + 1 <= PAGES
    ensures InRange(virt, base, PageCount(size) + 1) && base + FRAME_SIZE * (PageCount(size) + 1) < 0x10_0000_0000_0000
    ensures base + FRAME_SIZE * (TouchedPages(phys, size) - 1) < phys + size <= base + FRAME_SIZE * TouchedPages(phys, size)
  {
  }

  /** Page k of the region is mapped to its own frame. */
  ghost predicate PageServed(pages: map<nat, nat>, virt: nat, phys: nat, k: nat)
    requires virt + FRAME_SIZE * k < 0x1_0000_0000_0000_0000
  {
    RangePage(virt, k) in pages && pages[RangePage(virt, k)] == phys / FRAME_SIZE + k
  }

  lemma RangePagesDistinct(virt: nat, j: nat, k: nat)
    requires virt % FRAME_SIZE == 0 && j < k < PAGES && virt + FRAME_SIZE * k < 0x1_0000_0000_0000_0000
    ensures RangePage(virt, j) != RangePage(virt, k)
  {
    var v := virt / FRAME_SIZE;
    assert (virt + FRAME_SIZE * j) / FRAME_SIZE == v + j && (virt + FRAME_SIZE * k) / FRAME_SIZE == v + k;
    NoWrap(v, j, k);
  }

  lemma NoWrap(v: nat, j: nat, k: nat)
    requires j < k < PAGES
    ensures (v + j) % PAGES != (v + k) % PAGES
  {
    var q, r := (v + j) / PAGES, (v + k) / PAGES;
    assert v + j == q * PAGES + (v + j) % PAGES && v + k == r * PAGES + (v + k) % PAGES;
  }

  lemma OwnFrame(base: nat, k: nat)
    requires base % FRAME_SIZE == 0 && base + FRAME_SIZE * k < 0x10_0000_0000_0000
    ensures FrameOf(LeafEntry(base + FRAME_SIZE * k, MMIO_FLAGS)) == base / FRAME_SIZE + k
  {
    FrameAddress(0);
    LeafEntryFields(base + FRAME_SIZE * k, MMIO_FLAGS);
    assert (base + FRAME_SIZE * k) / FRAME_SIZE == base / FRAME_SIZE + k;
  }

  /** After n pages: the pages before n have their new frames, the pages from n on are as before. */
  lemma {:induction false} WithPagesAt(pages: map<nat, nat>, virt: nat, phys: nat, n: nat, k: nat)
    requires virt % FRAME_SIZE == 0 && phys % FRAME_SIZE == 0 && n <= PAGES && k < PAGES
    requires InRange(virt, phys, n) && InRange(virt, phys, k) && phys + FRAME_SIZE * n < 0x10_0000_0000_0000
    ensures var after := WithPages(pages, virt, phys, MMIO_FLAGS, n);
            var page := RangePage(virt, k);
            if k < n then page in after && after[page] == phys / FRAME_SIZE + k
            else (page in after <==> page in pages) && (page in pages ==> after[page] == pages[page])
  {
    if n > 0 {
      WithPagesAt(pages, virt, phys, n - 1, k);
      if k < n - 1 {
        RangePagesDistinct(virt, k, n - 1);
      } else if k > n - 1 {
        RangePagesDistinct(virt, n - 1, k);
      } else {
        OwnFrame(phys, k);
      }
    }
  }

  /** The byte at offset o of page k of the region. */
  lemma ByteOfPage(virt: nat, k: nat, o: nat)
    requires virt % FRAME_SIZE == 0 && o < FRAME_SIZE && virt + FRAME_SIZE * k + o < 0x1_0000_0000_0000_0000
    ensures PageOf(virt + FRAME_SIZE * k + o) == RangePage(virt, k) && (virt + FRAME_SIZE * k + o) % FRAME_SIZE == o
  {
    assert (virt + FRAME_SIZE * k + o) / FRAME_SIZE == virt / FRAME_SIZE + k == (virt + FRAME_SIZE * k) / FRAME_SIZE;
  }

  /** A region is reachable exactly when each page it touches is served. */
  lemma ReachableByPages(pages: map<nat, nat>, hhdm: Word, phys: nat, size: nat, base: nat, virt: nat)
    requires GoodRegion(hhdm, phys, size, base, virt)
    ensures TouchedPages(phys, size) <= PageCount(size) + 1 && InRange(virt, base, PageCount(size) + 1)
    ensures Reachable(pages, hhdm, phys, size) <==>
            forall k | 0 <= k < TouchedPages(phys, size) :: PageServed(pages, virt, base, k)
  {
    RegionBounds(hhdm, phys, size, base, virt);
    if Reachable(pages, hhdm, phys, size) {
      forall k | 0 <= k < TouchedPages(phys, size)
        ensures PageServed(pages, virt, base, k)
      {
        var o := if k == 0 then phys % FRAME_SIZE else 0;
        ByteAndPage(pages, hhdm, base, virt, k, o);
        assert ByteServed(pages, hhdm, base + FRAME_SIZE * k + o);
      }
    }
    if forall k | 0 <= k < TouchedPages(phys, size) :: PageServed(pages, virt, base, k) {
      forall b | phys <= b < phys + size
        ensures ByteServed(pages, hhdm, b)
      {
        var k, o := (b - base) / FRAME_SIZE, (b - base) % FRAME_SIZE;
        assert b == base + FRAME_SIZE * k + o;
        ByteAndPage(pages, hhdm, base, virt, k, o);
        assert PageServed(pages, virt, base, k);
      }
    }
  }

  /** A byte is served exactly when its page is. */
  lemma ByteAndPage(pages: map<nat, nat>, hhdm: Word, base: nat, virt: nat, k: nat, o: nat)
    requires base % FRAME_SIZE == 0 && virt % FRAME_SIZE == 0 && virt == base + hhdm && o < FRAME_SIZE
    requires virt + FRAME_SIZE * k + o < 0x1_0000_0000_0000_0000
    ensures ByteServed(pages, hhdm, base + FRAME_SIZE * k + o) <==> PageServed(pages, virt, base, k)
  {
    ByteOfPage(virt, k, o);
    var b := base + FRAME_SIZE * k + o;
    assert b + hhdm == virt + FRAME_SIZE * k + o;
    assert base == FRAME_SIZE * (base / FRAME_SIZE);
    assert PageOf(b + hhdm) == RangePage(virt, k);
  }

  /** The first of the n pages that is mapped already, or n. */
  ghost function FirstMapped(pages: map<nat, nat>, virt: nat, n: nat): nat
    requires virt + FRAME_SIZE * n < 0x1_0000_0000_0000_0000
  {
    if n == 0 then 0
    else
      var m := FirstMapped(pages, virt, n - 1);
      if m < n - 1 || RangePage(virt, n - 1) in pages then m else n
  }

  lemma {:induction false} FirstMappedMeaning(pages: map<nat, nat>, virt: nat, n: nat)
    requires virt + FRAME_SIZE * n < 0x1_0000_0000_0000_0000
    ensures var m := FirstMapped(pages, virt, n);
            && m <= n && (forall k | 0 <= k < m :: RangePage(virt, k) !in pages)
            && (m < n ==> RangePage(virt, m) in pages)
  {
    if n > 0 {
      FirstMappedMeaning(pages, virt, n - 1);
    }
  }

  /** A successful `map_mmio_range` stops at the first page of the range that was mapped before. */
  lemma DoneIsFirstMapped(pages: map<nat, nat>, virt: nat, base: nat, n: nat, done: nat)
    requires virt % FRAME_SIZE == 0 && base % FRAME_SIZE == 0 && done <= n < PAGES
    requires InRange(virt, base, n + 1) && base + FRAME_SIZE * (n + 1) < 0x10_0000_0000_0000
    requires AllFresh(pages, virt, base, MMIO_FLAGS, done)
    requires done < n ==> RangePage(virt, done) in WithPages(pages, virt, base, MMIO_FLAGS, done)
    ensures done == FirstMapped(pages, virt, n)
  {
    FirstMappedMeaning(pages, virt, n);
    var m := FirstMapped(pages, virt, n);
    WithPagesAt(pages, virt, base, done, done);
    if m < done {
      FreshAt(pages, virt, base, done, m);
    }
  }

  lemma {:induction false} FreshAt(pages: map<nat, nat>, virt: nat, base: nat, n: nat, k: nat)
    requires virt % FRAME_SIZE == 0 && base % FRAME_SIZE == 0 && k < n <= PAGES
    requires InRange(virt, base, n) && base + FRAME_SIZE * n < 0x10_0000_0000_0000
    requires AllFresh(pages, virt, base, MMIO_FLAGS, n)
    ensures RangePage(virt, k) !in pages
  {
    if k == n - 1 {
      WithPagesAt(pages, virt, base, n - 1, k);
    } else {
      FreshAt(pages, virt, base, n - 1, k);
    }
  }

  /**
   After `map_mmio_range` returned an address, the whole region is reachable through it exactly when
   every touched page from the first one that was mapped before the call (or, if none was, from the
   first one beyond the size rounded up without the offset) was already mapped to its own frame.
   */
  lemma MmioReachable(pages: map<nat, nat>, hhdm: Word, phys: nat, size: nat, base: nat, virt: nat, done: nat)
    requires GoodRegion(hhdm, phys, size, base, virt) && InRange(virt, base, PageCount(size) + 1)
    requires TouchedPages(phys, size) <= PageCount(size) + 1
    requires done == FirstMapped(pages, virt, PageCount(size)) <= PageCount(size)
    ensures Reachable(WithPages(pages, virt, base, MMIO_FLAGS, done), hhdm, phys, size) <==>
            forall k | done <= k < TouchedPages(phys, size) :: PageServed(pages, virt, base, k)
  {
    RegionBounds(hhdm, phys, size, base, virt);
    var after := WithPages(pages, virt, base, MMIO_FLAGS, done);
    ReachableByPages(after, hhdm, phys, size, base, virt);
    forall k | 0 <= k < TouchedPages(phys, size)
      ensures PageServed(after, virt, base, k) <==> k < done || PageServed(pages, virt, base, k)
    {
      WithPagesAt(pages, virt, base, done, k);
    }
  }

  /** A region no page of which was mapped: reachable exactly when the rounding offset costs no extra page. */
  lemma FreshRegion(pages: map<nat, nat>, hhdm: Word, phys: nat, size: nat, base: nat, virt: nat)
    requires GoodRegion(hhdm, phys, size, base, virt) && InRange(virt, base, PageCount(size) + 1)
    requires TouchedPages(phys, size) <= PageCount(size) + 1
    requires forall k | 0 <= k < TouchedPages(phys, size) :: RangePage(virt, k) !in pages
    ensures FirstMapped(pages, virt, PageCount(size)) == PageCount(size)
    ensures Reachable(WithPages(pages, virt, base, MMIO_FLAGS, PageCount(size)), hhdm, phys, size) <==>
            phys % FRAME_SIZE + size <= FRAME_SIZE * PageCount(size)
  {
    RegionBounds(hhdm, phys, size, base, virt);
    var n := PageCount(size);
    FirstMappedMeaning(pages, virt, n);
    MmioReachable(pages, hhdm, phys, size, base, virt, n);
    if TouchedPages(phys, size) > n {
      assert !PageServed(pages, virt, base, n);
    }
  }

  /** One page of registers at 0x1800: only the first half can be reached. */
  lemma OffsetNotCovered()
    ensures !Reachable(WithPages(map[], 0xFFFF_8000_0000_1000, 0x1000, MMIO_FLAGS, 1), 0xFFFF_8000_0000_0000, 0x1800, 0x1000)
  {
    FreshRegion(map[], 0xFFFF_8000_0000_0000, 0x1800, 0x1000, 0x1000, 0xFFFF_8000_0000_1000);
  }

  /** Two pages at 0x1000 whose first page was mapped before: the second is silently left out. */
  lemma SwallowedAlreadyMapped()
    ensures var page := PageOf(0xFFFF_8000_0000_1000);
            && FirstMapped(map[page := 1], 0xFFFF_8000_0000_1000, 2) == 0
            && !Reachable(map[page := 1], 0xFFFF_8000_0000_0000, 0x1000, 0x2000)
  {
    var virt := 0xFFFF_8000_0000_1000;
    var pages: map<nat, nat> := map[PageOf(virt) := 1];
    assert RangePage(virt, 0) in pages;
    assert FirstMapped(pages, virt, 1) == 0;
    RangePagesDistinct(virt, 0, 1);
    ReachableByPages(pages, 0xFFFF_8000_0000_0000, 0x1000, 0x2000, 0x1000, virt);
    assert TouchedPages(0x1000, 0x2000) == 2;
    assert !PageServed(pages, virt, 0x1000, 1);
  }

  // The address returned, which is that of the first page.

  /** The address at offset o from `virt` leads to the register at offset o of the region. */
  ghost predicate RegisterServed(pages: map<nat, nat>, virt: nat, phys: nat, o: nat)
    requires virt + o < 0x1_0000_0000_0000_0000
  {
    PageOf(virt + o) in pages && FRAME_SIZE * pages[PageOf(virt + o)] + (virt + o) % FRAME_SIZE == phys + o
  }

  /** The address returned is the base of the whole region. */
  ghost predicate BaseServes(pages: map<nat, nat>, virt: nat, phys: nat, size: nat)
    requires virt + size < 0x1_0000_0000_0000_0000
  {
    forall o: nat | o < size :: RegisterServed(pages, virt, phys, o)
  }

  lemma RegisterIsByte(pages: map<nat, nat>, hhdm: Word, virt: nat, phys: nat, o: nat)
    requires virt == phys + hhdm && virt + o < 0x1_0000_0000_0000_0000
    ensures RegisterServed(pages, virt, phys, o) <==> ByteServed(pages, hhdm, phys + o)
  {
    assert virt + o == phys + o + hhdm;
  }

  /** The address returned is the base of the region if and only if the region is page-aligned and reachable. */
  lemma BaseExact(pages: map<nat, nat>, hhdm: Word, phys: nat, size: nat, base: nat, virt: nat)
    requires GoodRegion(hhdm, phys, size, base, virt)
    ensures BaseServes(pages, virt, phys, size) <==> phys % FRAME_SIZE == 0 && Reachable(pages, hhdm, phys, size)
  {
    RegionBounds(hhdm, phys, size, base, virt);
    if BaseServes(pages, virt, phys, size) {
      assert RegisterServed(pages, virt, phys, 0);
      AlignedBase(virt, phys, pages[PageOf(virt + 0)]);
    }
    if phys % FRAME_SIZE == 0 {
      AlignedBytes(pages, hhdm, virt, phys, size);
    }
  }

  /** If the region starts at the address returned, offsets and bytes are the same thing. */
  lemma AlignedBytes(pages: map<nat, nat>, hhdm: Word, virt: nat, phys: nat, size: nat)
    requires virt == phys + hhdm && virt + size < 0x1_0000_0000_0000_0000
    ensures BaseServes(pages, virt, phys, size) <==> Reachable(pages, hhdm, phys, size)
  {
    if Reachable(pages, hhdm, phys, size) {
      forall o: nat | o < size
        ensures RegisterServed(pages, virt, phys, o)
      {
        RegisterIsByte(pages, hhdm, virt, phys, o);
        assert ByteServed(pages, hhdm, phys + o);
      }
    }
    if BaseServes(pages, virt, phys, size) {
      forall b | phys <= b < phys + size
        ensures ByteServed(pages, hhdm, b)
      {
        RegisterIsByte(pages, hhdm, virt, phys, b - phys);
        assert RegisterServed(pages, virt, phys, b - phys);
      }
    }
  }

  /** A page-aligned address leads to page-aligned addresses only. */
  lemma AlignedBase(virt: nat, phys: nat, frame: nat)
    requires virt % FRAME_SIZE == 0 && FRAME_SIZE * frame + virt % FRAME_SIZE == phys
    ensures phys % FRAME_SIZE == 0
  {
  }

  /**
   What `map_mmio_range` returns is the base of the region exactly if the region is page-aligned and every
   page from the first one that was mapped before the call was already mapped to its own frame.
   */
  lemma MmioBaseExact(pages: map<nat, nat>, hhdm: Word, phys: nat, size: nat, base: nat, virt: nat, done: nat)
    requires GoodRegion(hhdm, phys, size, base, virt) && InRange(virt, base, PageCount(size) + 1)
    requires done == FirstMapped(pages, virt, PageCount(size)) <= PageCount(size)
    ensures BaseServes(WithPages(pages, virt, base, MMIO_FLAGS, done), virt, phys, size) <==>
            phys % FRAME_SIZE == 0 && forall k | done <= k < PageCount(size) :: PageServed(pages, virt, base, k)
  {
    RegionBounds(hhdm, phys, size, base, virt);
    BaseExact(WithPages(pages, virt, base, MMIO_FLAGS, done), hhdm, phys, size, base, virt);
    MmioReachable(pages, hhdm, phys, size, base, virt, done);
  }

  /** Half a page of registers at 0x1800, nothing mapped before: all reachable, but not from the address returned. */
  lemma OffsetLost()
    ensures var pages := WithPages(map[], 0xFFFF_8000_0000_1000, 0x1000, MMIO_FLAGS, 1);
            && Reachable(pages, 0xFFFF_8000_0000_0000, 0x1800, 0x800)
            && !BaseServes(pages, 0xFFFF_8000_0000_1000, 0x1800, 0x800)
            && RegisterServed(pages, 0xFFFF_8000_0000_1000, 0x1000, 0)
  {
    var virt := 0xFFFF_8000_0000_1000;
    FreshRegion(map[], 0xFFFF_8000_0000_0000, 0x1800, 0x800, 0x1000, virt);
    BaseExact(WithPages(map[], virt, 0x1000, MMIO_FLAGS, 1), 0xFFFF_8000_0000_0000, 0x1800, 0x800, 0x1000, virt);
    WithPagesAt(map[], virt, 0x1000, 1, 0);
  }

  // Page by page with `map_mmio_page`.

  /** The page map after `map_mmio_page` was called for n successive pages. */
  ghost function WithAll(pages: map<nat, nat>, virt: nat, base: nat, n: nat): map<nat, nat>
    requires InRange(virt, base, n)
  {
    if n == 0 then pages
    else WithMissing(WithAll(pages, virt, base, n - 1), virt + FRAME_SIZE * (n - 1), base + FRAME_SIZE * (n - 1))
  }

  /** Pages that were mapped keep their frame, the others get their own; no page beyond changes. */
  lemma {:induction false} WithAllAt(pages: map<nat, nat>, virt: nat, base: nat, n: nat, k: nat)
    requires virt % FRAME_SIZE == 0 && base % FRAME_SIZE == 0 && n <= PAGES && k < PAGES
    requires InRange(virt, base, n) && InRange(virt, base, k) && base + FRAME_SIZE * n < 0x10_0000_0000_0000
    ensures var after := WithAll(pages, virt, base, n);
            var page := RangePage(virt, k);
            if k < n then page in after && after[page] == if page in pages then pages[page] else base / FRAME_SIZE + k
            else (page in after <==> page in pages) && (page in pages ==> after[page] == pages[page])
  {
    if n > 0 {
      WithAllAt(pages, virt, base, n - 1, k);
      if k < n - 1 {
        RangePagesDistinct(virt, k, n - 1);
      } else if k > n - 1 {
        RangePagesDistinct(virt, n - 1, k);
      } else {
        OwnFrame(base, k);
      }
    }
  }

  /**
   After `map_mmio_page` was called for each page of the size rounded up, the address it returned for the
   first is the base of the region exactly if the region is page-aligned and no page was mapped elsewhere.
   */
  lemma PagesBaseExact(pages: map<nat, nat>, hhdm: Word, phys: nat, size: nat, base: nat, virt: nat)
    requires GoodRegion(hhdm, phys, size, base, virt) && InRange(virt, base, PageCount(size) + 1)
    ensures BaseServes(WithAll(pages, virt, base, PageCount(size)), virt, phys, size) <==>
            phys % FRAME_SIZE == 0 && forall k | 0 <= k < PageCount(size) :: RangePage(virt, k) in pages ==> PageServed(pages, virt, base, k)
  {
    RegionBounds(hhdm, phys, size, base, virt);
    var n := PageCount(size);
    var after := WithAll(pages, virt, base, n);
    BaseExact(after, hhdm, phys, size, base, virt);
    ReachableByPages(after, hhdm, phys, size, base, virt);
    forall k | 0 <= k < n
      ensures PageServed(after, virt, base, k) <==> (RangePage(virt, k) in pages ==> PageServed(pages, virt, base, k))
    {
      WithAllAt(pages, virt, base, n, k);
    }
  }

  /** A single `map_mmio_page`, for registers that fit in the page. */
  lemma PageBaseExact(pages: map<nat, nat>, hhdm: Word, phys: nat, size: nat, base: nat, virt: nat)
    requires GoodRegion(hhdm, phys, size, base, virt) && size <= FRAME_SIZE && InRange(virt, base, 2)
    ensures BaseServes(WithMissing(pages, virt, base), virt, phys, size) <==>
            phys % FRAME_SIZE == 0 && (RangePage(virt, 0) in pages ==> PageServed(pages, virt, base, 0))
  {
    assert PageCount(size) == 1;
    assert WithAll(pages, virt, base, 1) == WithMissing(pages, virt, base);
    PagesBaseExact(pages, hhdm, phys, size, base, virt);
  }
}
