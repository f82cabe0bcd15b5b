/**
 The register window of the xHCI controller: the pages of BAR0, mapped one by one.
 */
module Registers {
  import opened Wrappers
  import opened Bits
  import opened Frames
  import opened PageTables
  import opened Paging
  import opened Mmio
  import Pci

  /** The window sizes the driver accepts. */
  const MAX_WINDOW := 0x1000_0000

  /** The first n pages were mapped, or had been before, and none of them is barred. */
  ghost predicate PagesSoFar(before: map<nat, nat>, pages: map<nat, nat>, barred: set<nat>, virt: nat, base: nat, n: nat) {
    InRange(virt, base, n) && pages == WithAll(before, virt, base, n) && NoneBarred(virt, n, barred)
  }

  /**
   The mapping part of `XHCI::new`: the size of BAR0, then `map_mmio_page` for each of its pages. None
   stands for a panic: on a suspicious size, at a barred page, or for want of frames.
   */
  method MapRegisters(space: AddressSpace, hhdm: Word, address: Word, size: nat) returns (r: Option<Word>, ghost virt: nat, ghost base: nat)
    requires space.Valid() && InRange(PageBase(address) + hhdm, address, PageCount(size))
    modifies space, space.allocator, space.allocator.mem
    ensures base == PageBase(address) && virt == base + hhdm
    ensures space.Valid() && Barred(space) == old(Barred(space))
    ensures r.Some? ==> 0 < size < 0x1000_0000 && r.value == virt
    ensures r.Some? ==> PagesSoFar(old(space.PageMap()), space.PageMap(), Barred(space), virt, base, PageCount(size))
    ensures r.None? && 0 < size < 0x1000_0000 ==>
              !NoneBarred(virt, PageCount(size), Barred(space)) || |old(space.allocator.Free())| < 3 * PageCount(size)
    ensures DeviceMapped(old(space.EntryMap()), space.EntryMap())
  {
    base := PageBase(address);
    virt := base + hhdm;
    if !(0 < size < MAX_WINDOW) {
      return None, virt, base;
    }
    var count := PageCount(size);
    ghost var before, frames, entries := space.PageMap(), |space.allocator.Free()|, space.EntryMap();
    r := MapRegisterPage(space, hhdm, address, count, 0, virt, base, before, frames);
    if r.None? {
      return;
    }
    for i := 1 to count
      invariant space.Valid() && Barred(space) == old(Barred(space)) && r == Some(virt)
      invariant PagesSoFar(before, space.PageMap(), Barred(space), virt, base, i)
      invariant frames <= |space.allocator.Free()| + 3 * i
      invariant DeviceMapped(entries, space.EntryMap())
    {
      ghost var between := space.EntryMap();
      var one := MapRegisterPage(space, hhdm, address, count, i, virt, base, before, frames);
      DeviceTrans(entries, between, space.EntryMap());
      if one.None? {
        return None, virt, base;
      }
    }
  }

  /** The address BAR0 holds. */
  ghost function BarAddress(b: Pci.Bar, low: Pci.Dword, high: Pci.Dword): nat {
    Pci.KeepFrom(low, b.k) + (if b.is64 then 0x1_0000_0000 * (high as int) else 0)
  }

  /** `XHCI::new` on the function's own BAR0. */
  method OpenController(space: AddressSpace, hhdm: Word, f: Pci.PciFunction)
    returns (r: Option<Word>, ghost address: nat, ghost virt: nat, ghost base: nat)
    requires space.Valid() && f.Valid()
    requires BarAddress(f.bar, f.regs[4], f.regs[5]) < 0x10_0000_0000_0000
    requires BarAddress(f.bar, f.regs[4], f.regs[5]) + hhdm + Pci.Pow2(f.bar.k) + FRAME_SIZE < 0x1_0000_0000_0000_0000
    modifies space, space.allocator, space.allocator.mem, f.regs
    ensures f.Valid() && f.regs[..] == old(f.regs[..]) && address == BarAddress(f.bar, f.regs[4], f.regs[5])
    ensures base == address - address % FRAME_SIZE && virt == base + hhdm
    ensures space.Valid() && Barred(space) == old(Barred(space))
    ensures r.Some? ==>
              && Pci.Pow2(f.bar.k) < 0x1000_0000 && r.value == virt
              && PagesSoFar(old(space.PageMap()), space.PageMap(), Barred(space), virt, base, PageCount(Pci.Pow2(f.bar.k)))
    ensures r.None? && Pci.Pow2(f.bar.k) < 0x1000_0000 ==>
              || !NoneBarred(virt, PageCount(Pci.Pow2(f.bar.k)), Barred(space))
              || |old(space.allocator.Free())| < 3 * PageCount(Pci.Pow2(f.bar.k))
    ensures DeviceMapped(old(space.EntryMap()), space.EntryMap())
  {
    var bar := f.GetBar0();
    var size := f.GetBar0Size();
    assert space.Valid();
    address := bar.value.0;
    r, virt, base := MapRegisters(space, hhdm, bar.value.0, size);
  }

  /** One turn of the loop over the pages of the window. */
  method MapRegisterPage(space: AddressSpace, hhdm: Word, address: Word, count: nat, i: nat, ghost virt: nat, ghost base: nat,
                         ghost before: map<nat, nat>, ghost frames: nat) returns (r: Option<Word>)
    requires space.Valid() && i < count && base == PageBase(address) && virt == base + hhdm && InRange(virt, address, count)
    requires PagesSoFar(before, space.PageMap(), Barred(space), virt, base, i)
    requires frames <= |space.allocator.Free()| + 3 * i
    modifies space, space.allocator, space.allocator.mem
    ensures space.Valid() && Barred(space) == old(Barred(space)) && frames <= |space.allocator.Free()| + 3 * (i + 1)
    ensures r.Some? ==> r.value == virt + FRAME_SIZE * i
    ensures r.Some? ==> PagesSoFar(before, space.PageMap(), Barred(space), virt, base, i + 1)
    ensures r.None? ==> !NoneBarred(virt, count, Barred(space)) || frames < 3 * count
    ensures DeviceMapped(old(space.EntryMap()), space.EntryMap())
  {
    ghost var pages, free := space.PageMap(), |space.allocator.Free()|;
    ghost var v, b;
    LaterPage(address, i);
    r, v, b := MapMmioPage(space, hhdm, address + FRAME_SIZE * i);
    PageStep(r, before, pages, space.PageMap(), Barred(space), virt, base, i, count, v, b, free);
  }

  lemma LaterPage(address: Word, i: nat)
    requires address + FRAME_SIZE * i < 0x1_0000_0000_0000_0000
    ensures PageBase(address + FRAME_SIZE * i) == PageBase(address) + FRAME_SIZE * i
  {
  }

  lemma PageStep(r: Option<Word>, before: map<nat, nat>, pages: map<nat, nat>, pages': map<nat, nat>, barred: set<nat>,
                 virt: nat, base: nat, i: nat, count: nat, v: Word, b: Word, free: nat)
    requires PagesSoFar(before, pages, barred, virt, base, i) && i < count && InRange(virt, base, count)
    requires v == virt + FRAME_SIZE * i && b == base + FRAME_SIZE * i && PageAnswer(r, v, b, pages, pages', barred, free)
    ensures r.Some? ==> r.value == v && PagesSoFar(before, pages', barred, virt, base, i + 1)
    ensures r.None? ==> !NoneBarred(virt, count, barred) || free < 3
  {
    assert RangePage(virt, i) == PageOf(v);
  }

  /**
   The controller's register r is reached at `virt_base + r`, for every r of the window, if and only if the
   window starts at a page and none of its pages was mapped elsewhere before.
   */
  lemma RegistersExact(before: map<nat, nat>, hhdm: Word, address: nat, size: nat, virtBase: nat)
    requires GoodRegion(hhdm, address, size, address - address % FRAME_SIZE, virtBase)
    requires InRange(virtBase, address - address % FRAME_SIZE, PageCount(size) + 1)
    ensures BaseServes(WithAll(before, virtBase, address - address % FRAME_SIZE, PageCount(size)), virtBase, address, size) <==>
            address % FRAME_SIZE == 0
            && forall k | 0 <= k < PageCount(size) :: RangePage(virtBase, k) in before ==> PageServed(before, virtBase, address - address % FRAME_SIZE, k)
  {
    PagesBaseExact(before, hhdm, address, size, address - address % FRAME_SIZE, virtBase);
  }

  /** BAR0 starts at a page whenever its window has at least one page. */
  lemma WindowAligned(b: Pci.Bar, low: Pci.Dword, high: Pci.Dword)
    requires Pci.GoodBar(b) && b.k >= 12
    ensures BarAddress(b, low, high) % FRAME_SIZE == 0
  {
    var pages := 0;
    if b.k < 32 {
      pages := PagesOf(low, b.k);
    }
    WholePagesSum(pages, if b.is64 then high else 0);
  }

  /** Clearing twelve or more bits leaves whole pages. */
  lemma PagesOf(v: nat, k: nat) returns (pages: nat)
    requires k >= 12
    ensures Pci.ClearLow(v, k) == FRAME_SIZE * pages
  {
    SixteenTimes(v, k);
    SixteenTimes(v / 16, k - 4);
    SixteenTimes(v / 16 / 16, k - 8);
    pages := Pci.ClearLow(v / 16 / 16 / 16, k - 12);
  }

  lemma WholePagesSum(y: nat, h: nat)
    ensures (FRAME_SIZE * y) % FRAME_SIZE == 0 && (FRAME_SIZE * y + 0x1_0000_0000 * h) % FRAME_SIZE == 0
  {
    assert FRAME_SIZE * y + 0x1_0000_0000 * h == FRAME_SIZE * (y + 0x10_0000 * h);
  }

  lemma SixteenTimes(v: nat, k: nat)
    requires k >= 4
    ensures Pci.ClearLow(v, k) == 16 * Pci.ClearLow(v / 16, k - 4)
  {
    var a := v / 2;
    var b := a / 2;
    var c := b / 2;
    assert Pci.ClearLow(v, k) == 2 * Pci.ClearLow(a, k - 1);
    assert Pci.ClearLow(a, k - 1) == 2 * Pci.ClearLow(b, k - 2);
    assert Pci.ClearLow(b, k - 2) == 2 * Pci.ClearLow(c, k - 3);
    assert Pci.ClearLow(c, k - 3) == 2 * Pci.ClearLow(c / 2, k - 4);
    assert c / 2 == v / 16;
  }
}
