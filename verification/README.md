# OCTAGRAM-OS: verified models of memory, USB, PCI and terminal

OCTAGRAM-OS is a small x86_64 kernel. This project states, in Dafny, what its stateful parts do and
proves the properties they rely on. `dafny verify dfyconfig.toml` checks everything.

**Physical memory** (`FrameAllocator`, `HeapAllocator`, `PageTables`, `Paging`, `PagingRuns`, `Mmio`, `Registers`).
The frame allocator keeps its free list inside the free frames, and the page tables are frames of that
list, in the same array of 64-bit words. One invariant covers both: the live tables are a tree of
distinct frames, the list is threaded and free of duplicates, and no free frame is a live table. Under
it, every run of map, unmap, allocate and free behaves like a plain map from pages to leaf entries,
fixed bit by bit with their flags, and a plain list of frames. The tables the bootloader built are taken
to be a tree outside usable memory, physical memory to lie below 2^52, and usable memory-map entries to
be sorted and disjoint.

**xHCI rings** (`Trbs`, `EndpointRing`, `EventRing`, `LinklessRing`). Driver and controller are two
parties over one memory, each with its own index and cycle state, and their steps interleave freely.
What the driver writes is read back by the controller's own rules: type, interrupt and cycle bits, setup
packets, commands.

**USB drivers and hotplug** (`ReportLoop`, `ReportLimits`, `HidDrivers`, `JointRun`, `UsbRegistry`,
`UsbDriver`, `Enumeration`, `Hotplug`). Event routing, the arm-event-read-rearm loop, the registry of active ports with
its slot accounting, device enumeration over EP0, and the notification protocol between port events and
the idle loop.

**Parsers and registers** (`Descriptors`, `Pci`). The configuration-descriptor walk, the capability
walk and BAR sizing.

**Terminal** (`Terminal`). In-place pixel scrolling against a rendering of the wrapped text.

## Where the code does less than it promises

Each of these is an exact condition, with concrete failing inputs.

- A transfer ring with a Link TRB has 15 data slots, but delivers safely only while at most 14 TRBs are
  outstanding. With 15 the driver can rewrite the Link TRB for the next lap before the controller has
  followed it, and the controller stops in front of a full ring (`EndpointRing.SafeLimitExact`,
  `EndpointRing.Stuck`). The kernel stays below: an attached driver has at most one TRB outstanding
  (`JointRun.RingsAndLoop`).
- `init_heap` promises to fail on frames that are not contiguous; it continues instead
  (`Heap.HeapWindow`, `Heap.HeapWindowNotOwned`).
- `map_mmio_range` rounds the address down without adding the offset to the size, and hides a partial
  mapping behind `AlreadyMapped` (`Mmio.MmioReachable`, `Mmio.OffsetNotCovered`, `Mmio.SwallowedAlreadyMapped`).
  What it and `map_mmio_page` return has lost that offset too, so it is the base of the registers only for a
  page-aligned region (`Mmio.MmioBaseExact`, `Mmio.PageBaseExact`, `Mmio.OffsetLost`).
- Flags with address bits would corrupt a leaf entry (`PageTables.LeafFrameExact`, `PageTables.LeafFrameWrong`).
- Port change bits are never acknowledged, so notification is reliable only up to one change per port,
  and a device present at power-on has used that one up (`Hotplug.UnacknowledgedExact`,
  `Hotplug.UnplugLost`, `Hotplug.BootUnplugLost`); with acknowledgement it would always be
  (`Hotplug.NoChangeLost`).
- Drivers stay in step and every wait gets its own answer if and only if no second keyboard or mouse is
  attached, no endpoint is shared or EP0, and no Disable Slot fails while the slot has a TRB at the
  controller (`ReportLimits.SafeExact`, and step by step `ReportLimits.AttachKeyboardExact`,
  `ReportLimits.AttachMouseExact`, `ReportLimits.CompleteCommandExact`). Otherwise a report can complete
  somebody else's control transfer (`ReportLimits.SecondKeyboardBreaks`, `ReportLimits.FailedDisableBreaks`).
- The rings without a Link TRB stop for good after their last slot but one (`LinklessRing.DeliversFirst`).
  So a device with a fourth HID endpoint loses the Status Stage of a SET_PROTOCOL, whose wait then times
  out (`Enumeration.EnumerationFits`, `Enumeration.LostStage`), and from the 32nd command since boot on
  no command reaches the controller: every later Enable Slot or Disable Slot times out and fails
  (`Enumeration.CommandsArrive`).
- An interface or endpoint descriptor that gives itself too few bytes, at the end of the buffer, makes the
  walk index past it (`Descriptors.PanicExactly`, `Descriptors.TruncatedPanics`), and the synchronisation
  panics with it (`UsbRegistry.PanicsExactly`). Well-formed descriptors that are merely too many for the
  buffer are read as far as they are whole (`Descriptors.WalkTruncated`).

## Model

| member | source | states |
|---|---|---|
| `Bits.OrShift` | kernel/src/memory/paging.rs:67 | or of two words acts bit by bit, so it commutes with shifting |
| `Bits.OrLow` | kernel/src/memory/paging.rs:112 | or acts separately on the low bits |
| `Frames.AlignUp` | kernel/src/memory/frame_allocator.rs:89-91 | the result is the least page-aligned address not below the argument |
| `Frames.InitListExact` | kernel/src/memory/frame_allocator.rs:27-37 | the list init builds holds exactly the aligned frames wholly inside usable entries |
| `Frames.InitListDescending` | kernel/src/memory/frame_allocator.rs:27-37 | for a sorted disjoint map that list is strictly descending, hence without duplicates, and inside memory |
| `Frames.ThreadPush` | kernel/src/memory/frame_allocator.rs:49-56 | one word write threads the longer list, and no other link changes |
| `Frames.ThreadPop` | kernel/src/memory/frame_allocator.rs:67-72 | the word in the first frame yields the head of the remaining list, which stays threaded |
| `Frames.ThreadFrame` | kernel/src/memory/frame_allocator.rs:68-74 | writes inside a frame that is not on the list never break the list |
| `Frames.FrameAllocator.PushFree` | kernel/src/memory/frame_allocator.rs:49-56 | the frame becomes the head; words of other frames are untouched |
| `Frames.FrameAllocator.Init` | kernel/src/memory/frame_allocator.rs:26-44 | lazy initialisation threads exactly the abstract initial list and writes only into its frames |
| `Frames.FrameAllocator.PushRegion` | kernel/src/memory/frame_allocator.rs:33-37 | the inner loop pushes every whole frame of a region, in ascending order |
| `Frames.FrameAllocator.Allocate` | kernel/src/memory/frame_allocator.rs:59-76 | returns the first free frame fully zeroed and moves it from free to taken; fails only on an empty list; touches only free frames |
| `Frames.FrameAllocator.Release` | kernel/src/memory/frame_allocator.rs:79-86 | a taken frame becomes the head of the list, and free plus taken stays the set of usable frames |
| `Frames.FrameAllocator.constructor` | kernel/src/memory/frame_allocator.rs:18-23 | the allocator starts uninitialised with nothing taken |
| `Heap.HeapWindow` | kernel/src/memory/heap_allocator.rs:33-58 | on a descending list the megabyte window lies in the obtained frames if and only if the first 256 entries are consecutive |
| `Heap.HeapWindowAtBoot` | kernel/src/memory/heap_allocator.rs:21-25 | the same for every sorted disjoint memory map after any number of allocations without release |
| `Heap.HeapWindowNotOwned` | kernel/src/memory/heap_allocator.rs:33-58 | a map with one usable frame succeeds with a window of which 255 frames were never obtained |
| `Heap.LowestRange` | kernel/src/memory/heap_allocator.rs:33-53 | the window starts at most n-1 below the first of n frames, and exactly there only for a consecutive run |
| `Heap.InitHeap` | kernel/src/memory/heap_allocator.rs:29-77 | succeeds as soon as one frame was obtained; takes min(256, free) frames; the window starts at the lowest frame of the chain |
| `PageTables.LinkEntryFields` | kernel/src/memory/paging.rs:67-69 | a new link is present, not huge, and names exactly its frame |
| `PageTables.LeafEntryFields` | kernel/src/memory/paging.rs:97-112 | a leaf is present and names the or of the frame fields of address and flags |
| `PageTables.LeafFrameExact` | kernel/src/memory/paging.rs:97-112 | the leaf names the requested frame if and only if the address is below 2^52 and the flags add no address bit |
| `PageTables.LeafFrameWrong` | kernel/src/memory/paging.rs:97-112 | address 0 with bit 12 among the flags names frame 1 |
| `PageTables.LeafEntryBits` | kernel/src/memory/paging.rs:97-112 | bit by bit the leaf is bit 0, every bit of the flags, and the bits of the address from 12 on |
| `PageTables.LinkEntryBits` | kernel/src/memory/paging.rs:67-69 | bit by bit a new link is bits 0 and 1 and the frame from bit 12 on |
| `PageTables.LeafIsEntry` | kernel/src/memory/paging.rs:112 | those bits determine the word |
| `PageTables.EntryFlags` | kernel/src/memory/paging.rs:61-65 | present is bit 0 of an entry and huge is bit 7 |
| `PageTables.WalkError` | kernel/src/memory/paging.rs:77-84 | a walk that only reads fails with NotMapped exactly at an entry on its way without bit 0, and with HugePageInPath exactly at one with bits 0 and 7 |
| `PageTables.IndicesOfPage` | kernel/src/memory/paging.rs:35-42 | the four table indices of an address are those of its page number and determine it |
| `PageTables.PageDetermined` | kernel/src/memory/paging.rs:35-42 | table path and leaf index determine the page, for all 2^36 pages |
| `PageTables.EmptyTree` | kernel/src/memory/paging.rs:50-55 | one zeroed table is a tree that maps nothing, so the invariant can be met |
| `PageTables.WalkTree` | kernel/src/memory/paging.rs:77-87 | walking memory succeeds exactly on the live tables and yields their frames |
| `PageTables.WalkFrame` | kernel/src/memory/paging.rs:77-87 | writes outside live tables change no walk |
| `PageTables.LinkWalk` | kernel/src/memory/paging.rs:64-72 | linking a zeroed frame makes exactly one new path succeed |
| `PageTables.LinkTree` | kernel/src/memory/paging.rs:64-68 | the tree gains exactly the new table and stays a tree of distinct frames |
| `PageTables.LinkLookup` | kernel/src/memory/paging.rs:64-72 | linking an empty table changes no translation, not even its error |
| `PageTables.LinkMissing` | kernel/src/memory/paging.rs:64-72 | the number of tables missing on a path falls by one exactly for paths through the new table |
| `PageTables.LeafLookup` | kernel/src/memory/paging.rs:107-112 | a leaf write changes the translation of its own page and of no other |
| `PageTables.LeafMapping` | kernel/src/memory/paging.rs:107-112 | the page map after a leaf write, frames and whole entries alike, is the old one with one page set or removed, and the tree is kept |
| `Paging.LinkProgress` | kernel/src/memory/paging.rs:59-73 | creating a table on the way to a page consumes the first free frame, changes no translation and no link, and its own link is present and writable |
| `Paging.OutcomeMeaning` | kernel/src/memory/paging.rs:107-110 | AlreadyMapped is the answer exactly for mapped pages, HugePageInPath exactly for blocked ones, and three free frames suffice |
| `Paging.ProgressTrans` | kernel/src/memory/paging.rs:103-105 | several created tables still change no translation and no older link |
| `Paging.NotBlockedAt` | kernel/src/memory/paging.rs:59-73 | if a table has to be created nothing below it can be huge or mapped |
| `Paging.HugeBlocks` | kernel/src/memory/paging.rs:61-63 | a huge bit on the path blocks the page |
| `Paging.DescentError` | kernel/src/memory/paging.rs:61-66 | HugePageInPath leaves the state identical, and both errors are decided by the state before the call |
| `Paging.DescentOk` | kernel/src/memory/paging.rs:107-110 | AlreadyMapped leaves the state identical; otherwise the call was bound to succeed |
| `Paging.AddressSpace.NextTableOrCreate` | kernel/src/memory/paging.rs:59-73 | returns the next live table, creating an empty one if needed; on error nothing changed |
| `Paging.AddressSpace.DescendOrCreate` | kernel/src/memory/paging.rs:102-105 | after three levels the page table of the page is live and no translation changed |
| `Paging.AddressSpace.MapPage` | kernel/src/memory/paging.rs:91-116 | the answer is decided by the prior state; success sets exactly one page, whose entry has, bit by bit, bit 0, the flags and the address; every new link is present and writable and the others are kept; failure changes no translation; AlreadyMapped and HugePageInPath change nothing; at most three frames become tables |
| `Paging.AddressSpace.Translate` | kernel/src/memory/paging.rs:159-175 | gives frame plus offset exactly for mapped pages, and the error of the walk otherwise |
| `Paging.AddressSpace.UnmapPage` | kernel/src/memory/paging.rs:135-155 | removes exactly one page, returns its address, and changes nothing on error |
| `Paging.AddressSpace.constructor` | kernel/src/memory/paging.rs:50-55 | a tree outside the free list is a valid address space |
| `PagingRuns.Run` | kernel/src/memory/paging.rs:91-155 | any run of map, unmap, allocate and free keeps the joint invariant, answers as the plain map of pages to entries (frame and flags, fixed bit by bit), the blocked pages and the free list do, and conserves frames; the blocked pages never change |
| `PagingRuns.MapSucceeds` | kernel/src/memory/paging.rs:91-116 | in any run a map succeeds, and enters address and flags, whenever the page is neither blocked nor mapped and three frames are free |
| `PagingRuns.UnmapUndoesMap` | kernel/src/memory/paging.rs:135-155 | unmapping after a successful map restores the page map and returns the mapped address, however many tables were created |
| `PagingRuns.TakenFrameIsFresh` | kernel/src/memory/frame_allocator.rs:59-76 | a frame handed out is neither held nor free |
| `PagingRuns.ReturnFrame` | kernel/src/memory/frame_allocator.rs:79-86 | freeing a held frame changes no translation |
| `PagingRuns.HeldKept` | kernel/src/memory/frame_allocator.rs:59-76 | no held frame ever becomes a table |
| `Mmio.MapRange` | kernel/src/memory/paging.rs:119-131 | keeps the pages before the first failure and maps no page that was mapped; succeeds exactly if it gets through, and otherwise answers for the page it stopped at: mapped, barred by a huge entry, or out of frames; each new entry has exactly the present bit and the flags below its address, and the old entries are kept |
| `Mmio.MapMmioPage` | kernel/src/memory/paging.rs:181-196 | safe to repeat: a mapped page is answered with its address and kept, otherwise exactly one page is added, writable and not cached; panics at a barred page, and otherwise only with fewer than three free frames |
| `Mmio.MapMmioRange` | kernel/src/memory/paging.rs:200-213 | returns the window address although only a prefix of the range may have been mapped; every page it maps is writable and not cached (bits 1 and 4 set); panics only at a barred page or for want of frames, so never if no page is barred and three frames are free for each page |
| `Mmio.MmioFlags` | kernel/src/memory/paging.rs:186 | of the bits below the address exactly 0, 1 and 4 are set in a device page |
| `Mmio.DoneIsFirstMapped` | kernel/src/memory/paging.rs:205-208 | the prefix ends at the first page that was mapped before the call |
| `Mmio.ReachableByPages` | kernel/src/memory/paging.rs:198-213 | every byte of a region is reachable if and only if every page it touches is mapped to its own frame |
| `Mmio.MmioReachable` | kernel/src/memory/paging.rs:200-213 | each byte is reachable at its own address in the higher-half window if and only if every touched page from the first one mapped before was already right |
| `Mmio.FreshRegion` | kernel/src/memory/paging.rs:202-205 | a fresh region is reachable in the window if and only if the rounding offset costs no extra page |
| `Mmio.BaseExact` | kernel/src/memory/paging.rs:202-212 | an address of the first page is the base of the region, register by register, if and only if the region is page-aligned and reachable |
| `Mmio.MmioBaseExact` | kernel/src/memory/paging.rs:200-213 | what map_mmio_range returns is the base of the region if and only if the region is page-aligned and every page from the first one mapped before was already right |
| `Mmio.PageBaseExact` | kernel/src/memory/paging.rs:181-196 | the same for map_mmio_page and registers that fit in a page |
| `Mmio.PagesBaseExact` | kernel/src/usb/xhci.rs:163-168 | the same for successive pages mapped one by one |
| `Mmio.OffsetLost` | kernel/src/memory/paging.rs:202-212 | half a page at 0x1800: all of it reachable, but the returned address leads to 0x1000 |
| `Registers.MapRegisters` | kernel/src/usb/xhci.rs:153-170 | maps every page of BAR0 that was not mapped, writable and not cached, and returns the first; panics only on a size out of bounds, at a barred page, or for want of frames |
| `Registers.OpenController` | kernel/src/usb/xhci.rs:153-170 | the same with the address and size read from the BAR0 of the function, which is left as found |
| `Registers.RegistersExact` | kernel/src/usb/xhci.rs:163-168 | every register of the window is reached from virt_base if and only if the window is page-aligned and none of its pages was mapped elsewhere |
| `Registers.WindowAligned` | kernel/src/pci.rs:191-218 | a window of at least one page is page-aligned |
| `Mmio.OffsetNotCovered` | kernel/src/memory/paging.rs:202-205 | 0x1000 bytes at 0x1800 are not all reachable |
| `Mmio.SwallowedAlreadyMapped` | kernel/src/memory/paging.rs:205-208 | with the first of two pages mapped before, the second is not reachable |
| `EndpointRing.InitialInv` | kernel/src/usb/xhci.rs:1391-1396 | the ring configure_endpoint prepares satisfies the protocol invariant |
| `EndpointRing.BeginInv` | kernel/src/usb/xhci.rs:462-467 | starting to overwrite a slot is safe while at most 13 TRBs are outstanding before it |
| `EndpointRing.WriteInv` | kernel/src/usb/xhci.rs:467-474 | each later field write of a data or Link TRB keeps the invariant, also between the last data write and the Link TRB |
| `EndpointRing.FetchExact` | kernel/src/usb/xhci.rs:460-478 | the controller finds a valid TRB exactly when one is unfetched, it is the oldest, of type Normal, and asks for an interrupt |
| `EndpointRing.FetchInv` | kernel/src/usb/xhci.rs:1452-1462 | fetching, and following the Link TRB, keeps the invariant |
| `EndpointRing.DeliversUpTo14` | kernel/src/usb/xhci.rs:445-478 | in every run with at most 14 outstanding TRBs the controller reads exactly what was sent, in order, once each, owes one event per TRB, and can always go on |
| `EndpointRing.Stuck` | kernel/src/usb/xhci.rs:470-474 | a run with 15 outstanding TRBs that ends with the controller stuck |
| `EndpointRing.SafeLimitExact` | kernel/src/usb/xhci.rs:445-478 | the ring is a FIFO over all runs if and only if at most 14 TRBs are outstanding |
| `EndpointRing.EnqueueEffect` | kernel/src/usb/xhci.rs:457-474 | one enqueue is exactly the sequence of field writes of the protocol |
| `EndpointRing.TransferRing.EnqueueNormalTrb` | kernel/src/usb/xhci.rs:445-478 | the method performs exactly the protocol steps of one transfer, for any controller side |
| `EndpointRing.TransferRing.WriteLinkTrb` | kernel/src/usb/xhci.rs:1452-1462 | only the last slot changes |
| `EndpointRing.TransferRing.constructor` | kernel/src/usb/xhci.rs:1391-1396 | a new ring is the initial state of the protocol |
| `EventRing.ProduceInv` | kernel/src/usb/xhci.rs:648-653 | a controller that respects the dequeue pointer never overwrites an undelivered event |
| `EventRing.TakeExact` | kernel/src/usb/xhci.rs:255-262 | the slot at the index is accepted exactly when an event is undelivered, and it is that event |
| `EventRing.TakeInv` | kernel/src/usb/xhci.rs:329-333 | consuming an event keeps the invariant |
| `EventRing.EventRingFifo` | kernel/src/usb/xhci.rs:253-339 | in every run: index and cycle state are position and parity of the events taken, delivery is in order and once, the register holds the address of the next slot with the busy flag |
| `EventRing.EventQueue.Poll` | kernel/src/usb/xhci.rs:253-339 | performs exactly the protocol steps take and pointer write, or nothing if no event is valid |
| `EventRing.EventQueue.constructor` | kernel/src/usb/xhci.rs:702-740 | setup gives the initial state of the protocol |
| `LinklessRing.NeverMore` | kernel/src/usb/xhci.rs:401-409 | in any run whatever at most size - 1 TRBs are ever fetched |
| `LinklessRing.SendInv` | kernel/src/usb/xhci.rs:388-411 | a paced send keeps unfetched TRBs intact, wrap included |
| `LinklessRing.DeliversFirst` | kernel/src/usb/xhci.rs:388-439 | in paced runs the fetched TRBs are a prefix of the sent ones and stop for good after size - 1 |
| `LinklessRing.RunSends` | kernel/src/usb/xhci.rs:388-439 | however sends and fetches interleave, ring, index and cycle state are those of the sends in sequence |
| `LinklessRing.Delivered` | kernel/src/usb/xhci.rs:401-409 | a paced run whose controller took all it can took exactly the first size - 1 requests, or all if there are fewer |
| `LinklessRing.RingOfRun` | kernel/src/usb/xhci.rs:388-439 | the ring in memory is that of any run with the same sends, wherever the controller is |
| `LinklessRing.DecodeUndoesPack` | kernel/src/usb/xhci.rs:1148-1152 | the five fields of a setup packet read back from its eight bytes, for all bytes and 16-bit values |
| `LinklessRing.ParseIncoming` | kernel/src/usb/xhci.rs:1160-1168 | a control transfer with data reads back as its request and buffer: immediate setup announcing IN, data IN of the length asked for, status OUT with the only interrupt |
| `LinklessRing.ParseNoData` | kernel/src/usb/xhci.rs:1332-1337 | a control transfer without data reads back as its request: immediate setup announcing no data, status IN with the only interrupt |
| `LinklessRing.ParseSame` | kernel/src/usb/xhci.rs:388-397 | the cycle bit makes no difference to what is read |
| `Enumeration.RequestStages` | kernel/src/usb/mod.rs:272-346 | stage by stage, what a usable device is sent on EP0: two descriptors, SET_CONFIGURATION, one SET_PROTOCOL per driver endpoint |
| `Enumeration.RequestsAsked` | kernel/src/usb/mod.rs:272-346 | for every device the TRBs on its ring read back as: device descriptor (wValue 0x0100, 18 bytes), configuration descriptor (0x0200, 256 bytes), SET_CONFIGURATION 1, and SET_PROTOCOL 0 to the interface of each driver endpoint, as far as the device lets it get |
| `Enumeration.AskedExactly` | kernel/src/usb/xhci.rs:404-408 | the controller receives exactly those transfers if and only if at most 3 endpoints go to a driver |
| `Enumeration.EnumerationFits` | kernel/src/usb/xhci.rs:404-408 | of the requests on the own ring of a device all arrive if and only if at most 3 endpoints go to a driver |
| `Enumeration.LostStage` | kernel/src/usb/xhci.rs:404-408 | with a fourth such endpoint the first TRB that is lost is the Status Stage of its SET_PROTOCOL |
| `Enumeration.DeviceRing` | kernel/src/usb/xhci.rs:985-994 | the EP0 ring init_one_device leaves is that of any run which sends the requests of the device |
| `Enumeration.CommandsArrive` | kernel/src/usb/xhci.rs:413-439 | of all commands the stack put on the command ring since boot, each with its type in bits 10 to 15 and its slot in bits 24 to 31, every one reaches the controller if and only if there were at most 31, and otherwise exactly the first 31 do |
| `LinklessRing.DriverRing.Enqueue` | kernel/src/usb/xhci.rs:388-411 | performs exactly the protocol step send |
| `LinklessRing.DriverRing.SendCommand` | kernel/src/usb/xhci.rs:413-439 | a command is one send with type and slot packed into the control word |
| `ReportLoop.HandleReport` | kernel/src/usb/keyboard_usb.rs:150-168 | handling a report reads the buffer while the controller holds no TRB, and re-arms exactly one |
| `ReportLoop.InterruptInv` | kernel/src/interrupt.rs:129-140 | one interrupt (one event, then both drivers) keeps the joint invariant |
| `ReportLoop.CompleteReportInv` | kernel/src/usb/keyboard_usb.rs:97-118 | a completed TRB becomes one queued event; the total in flight stays one |
| `ReportLoop.ShutdownInv` | kernel/src/usb/mod.rs:244-262 | after shutdown leftover events of the slot are harmless until Disable Slot completes |
| `ReportLoop.AttachInv` | kernel/src/usb/keyboard_usb.rs:57-95 | attaching on an idle controller starts with exactly one TRB in flight |
| `ReportLoop.ReportLoop` | kernel/src/usb/keyboard_usb.rs:97-168 | in every orderly run TRBs armed equal reports handled plus one, exactly one is in flight, no report is read early, and every wait got its own answer |
| `ReportLoop.RoutedToOwner` | kernel/src/usb/xhci.rs:276-323 | every queued event goes to its owner by slot and DCI; the control flag only gets the answer waited for, or a leftover of a draining slot |
| `ReportLoop.BothAttached` | kernel/src/usb/xhci.rs:276-323 | an orderly run with keyboard and mouse on equal DCIs of different slots: only the mouse gets the report, while a control transfer waits |
| `ReportLimits.SafeExact` | kernel/src/usb/keyboard_usb.rs:57-118 | over all runs, drivers stay in step and waits get their own answers if and only if none of these is allowed: a second keyboard, a second mouse, a shared endpoint, an EP0 endpoint, a failing Disable Slot of an armed slot |
| `ReportLimits.AttachKeyboardExact` | kernel/src/usb/keyboard_usb.rs:74-92 | in any reachable idle state attaching a keyboard is safe if and only if none is attached and the endpoint is neither EP0 nor that of the mouse |
| `ReportLimits.AttachMouseExact` | kernel/src/usb/mouse_usb.rs:73-97 | the same for the mouse |
| `ReportLimits.CompleteCommandExact` | kernel/src/usb/xhci.rs:844-848 | in any reachable state completing a command is safe, except exactly a failed Disable Slot of a slot with TRBs at the controller |
| `ReportLimits.SecondKeyboardBreaks` | kernel/src/usb/keyboard_usb.rs:74-90 | a second keyboard makes a control transfer return before the controller completed it |
| `ReportLimits.FailedDisableBreaks` | kernel/src/usb/xhci.rs:844-848 | after a failed Disable Slot the orphaned report answers a control transfer of another device |
| `HidDrivers.NewKeys` | kernel/src/usb/keyboard_usb.rs:177-188 | the keycodes passed on are the non-empty ones not held since the last report, in the order of the report and as often: the one at i goes to the place counted by those before it |
| `HidDrivers.PressedDetermined` | kernel/src/usb/keyboard_usb.rs:177-188 | that fixes the sequence, and it holds no other keycode |
| `HidDrivers.HidDriver.Init` | kernel/src/usb/keyboard_usb.rs:74-92 | the end of init is the attach step of the report loop, with one TRB on the new ring |
| `HidDrivers.HidDriver.Shutdown` | kernel/src/usb/keyboard_usb.rs:124-147 | is the shutdown step; does nothing if the driver does not own the slot |
| `HidDrivers.Keyboard.Poll` | kernel/src/usb/keyboard_usb.rs:150-188 | is the poll step of the report loop, passes on the new keys in order and updates the held keys |
| `HidDrivers.Mouse.Poll` | kernel/src/usb/mouse_usb.rs:147-206 | is the poll step of the report loop, updates the buttons, and keeps both coordinates the wrapped sum of all movements since the mouse was attached |
| `HidDrivers.Mouse.HandleReport` | kernel/src/usb/mouse_usb.rs:167-206 | moves both coordinates with 32-bit wrap-around, keeping each the wrapped sum of all movements, and gives the button events |
| `HidDrivers.SumPush` | kernel/src/usb/mouse_usb.rs:174-175 | wrapping at every report loses only whole turns of the sum |
| `HidDrivers.WrapsTurns` | kernel/src/usb/mouse_usb.rs:174-175 | the wrapped position is the one 32-bit value that differs by whole turns |
| `HidDrivers.WithinLimit` | kernel/src/usb/keyboard_usb.rs:97-118 | in every orderly run an attached driver has at most one TRB outstanding on its ring and none when it re-arms |
| `JointRun.RingsAndLoop` | kernel/src/usb/keyboard_usb.rs:97-168 | in every joint run of report loop, rings and controller, fetches and writes interleaved: the rings hold what was armed, deliver it in order with an event due for each and at most one outstanding, and reports are handled after their fetch |
| `JointRun.ReportComes` | kernel/src/usb/xhci.rs:460 | in every joint run the next report of an attached driver is on its way: its event is queued, or its TRB can be fetched, or the controller may complete it with any code |
| `JointRun.EnqueuesWithinOne` | kernel/src/usb/xhci.rs:445-478 | every enqueue of a joint run is one that a limit of one outstanding TRB allows |
| `JointRun.DriverTogether` | kernel/src/usb/keyboard_usb.rs:97-118 | a driver object in the state of the run goes with the ring of the run |
| `HidDrivers.EventsReplay` | kernel/src/usb/mouse_usb.rs:179-193 | replaying the click and release events gives exactly the buttons of the report |
| `HidDrivers.EventsExact` | kernel/src/usb/mouse_usb.rs:179-193 | one event for each button that changed and none for the others, in the order left, right, middle |
| `HidDrivers.ButtonBits` | kernel/src/usb/mouse_usb.rs:181-184 | left, right and middle are the three low bits of the button byte |
| `UsbDriver.UsbStack.Sync` | kernel/src/usb/mod.rs:175-240 | entries, slots, commands and failures are exactly those of dropping the vanished ports and initialising the new ones in port order; a port fails if and only if it is not registered and gets no slot or no address at its turn; panics if and only if a descriptor at its turn makes the walk panic; slots, DCBAA, command ring and driver ownership stay accounted |
| `UsbDriver.UsbStack.DisconnectAll` | kernel/src/usb/mod.rs:206-225 | exactly the entries whose port is gone are removed, with one Disable Slot each; exactly the refused ones stay enabled |
| `UsbDriver.UsbStack.ConnectAll` | kernel/src/usb/mod.rs:227-238 | every port in turn is skipped if registered and initialised once otherwise |
| `UsbRegistry.ConnectProgress` | kernel/src/usb/mod.rs:227-238 | the loop keeps the entries there are and appends the successful new ones in port order |
| `UsbRegistry.FailedExactly` | kernel/src/usb/mod.rs:227-238 | a port fails if and only if it was not registered and got no slot or no address at its turn |
| `UsbRegistry.PanicsExactly` | kernel/src/usb/xhci.rs:1260-1273 | the loop panics if and only if at the turn of some port its device, with slot and address, sends a descriptor on which the walk panics |
| `UsbRegistry.TurnsUpExactly` | kernel/src/usb/mod.rs:230-233 | a port is initialised at its turn exactly if it was not registered before the loop |
| `UsbRegistry.NewEntry` | kernel/src/usb/mod.rs:230-238 | a new entry carries the slot of the turn of its port and the flags of the drivers its device was handed to |
| `UsbRegistry.ConnectCounted` | kernel/src/usb/mod.rs:227-238 | one Enable Slot per new entry and per failed port, no Disable Slot, nothing if there are none of them |
| `UsbRegistry.SlotsGivenUp` | kernel/src/usb/mod.rs:287-293 | every failed port that got a slot gives up one slot, each its own |
| `UsbRegistry.NothingNew` | kernel/src/usb/mod.rs:230-233 | on ports that are all registered the loop does nothing |
| `UsbDriver.UsbStack.InitOneDevice` | kernel/src/usb/mod.rs:272-346 | is one initialisation on the books: registers a device exactly if it gets a slot and an address and the walk over its descriptor does not panic; without address the slot is given up, never lost; the ring of its own slot then holds exactly the requests the device was sent (read back by Enumeration.RequestsAsked) |
| `UsbDriver.UsbStack.EnableSlot` | kernel/src/usb/xhci.rs:783-811 | the slot answered is enabled and belongs to nobody yet |
| `UsbDriver.UsbStack.Send` | kernel/src/usb/xhci.rs:413-439 | one command more in the log and, as its TRB, on the command ring |
| `UsbDriver.UsbStack.AddressDevice` | kernel/src/usb/xhci.rs:945-1015 | the slot gets a DCBAA entry and a new empty EP0 ring even if the command fails, and then counts as given up |
| `UsbDriver.UsbStack.Enumerate` | kernel/src/usb/mod.rs:295-345 | walks the first 256 bytes of the configuration descriptor; the flags name exactly the drivers that were handed an endpoint found there; every request goes to the ring of the slot itself |
| `UsbDriver.UsbStack.ControlTransferIn` | kernel/src/usb/xhci.rs:1154-1189 | three stages on the EP0 ring of the device addressed last, which is the one meant |
| `UsbDriver.UsbStack.ControlTransferNoData` | kernel/src/usb/xhci.rs:1317-1345 | two stages on that ring |
| `UsbDriver.UsbStack.ShutdownDevice` | kernel/src/usb/mod.rs:244-262 | the slot is disabled and its context cleared, or recorded as still enabled; its drivers are released |
| `UsbDriver.UsbStack.DispatchEndpoint` | kernel/src/usb/mod.rs:356-392 | a configured HID endpoint goes to the keyboard driver for protocol 1, to the mouse driver for protocol 2, and no other endpoint to any |
| `UsbRegistry.InitCommandsOnce` | kernel/src/usb/mod.rs:272-346 | one initialisation enables exactly one slot and disables none |
| `UsbDriver.UsbStack.ReadPorts` | kernel/src/usb/mod.rs:187-196 | exactly the connected ports, ascending |
| `UsbRegistry.SyncIdempotent` | kernel/src/usb/mod.rs:172-174 | if no init failed a second synchronisation on the same ports changes nothing and issues no command, whatever the controller would answer |
| `UsbRegistry.SyncedConnected` | kernel/src/usb/mod.rs:206-225 | after a synchronisation every registered port is connected |
| `UsbRegistry.RegisteredPorts` | kernel/src/usb/mod.rs:227-238 | after a synchronisation every connected port whose init did not fail is registered |
| `UsbRegistry.RemoveEntry` | kernel/src/usb/mod.rs:219-223 | removal keeps ports and slots distinct and drops exactly one slot |
| `Hotplug.NextInv` | kernel/src/usb/mod.rs:151-164 | every step keeps: a port that differs from what was read will be looked at again |
| `Hotplug.NoChangeLost` | kernel/src/usb/mod.rs:151-240 | with an event per change, in every quiet state active ports are connected and connected ports are active or failed |
| `Hotplug.UnacknowledgedExact` | kernel/src/usb/xhci.rs:125-130 | without acknowledging change bits this holds over all runs from boot if and only if each port changes at most once, where a device present at power-on has changed once |
| `Hotplug.BootUnplugLost` | kernel/src/usb/xhci.rs:606-609 | a device present at power-on is unplugged: it stays active in a quiet state |
| `Hotplug.UnplugLost` | kernel/src/usb/xhci.rs:118-130 | plug in, synchronise, unplug: the unplugged device stays active in a quiet state |
| `Hotplug.SyncGivesResult` | kernel/src/usb/mod.rs:181-239 | the contract of the synchronisation is what the notification protocol assumes of it |
| `Descriptors.FindInterruptEndpoints` | kernel/src/usb/xhci.rs:1244-1300 | the loop computes the recursive walk: endpoints, none, or the panic |
| `Descriptors.WalkUndoesSerialize` | kernel/src/usb/xhci.rs:1252-1294 | for well-formed descriptors and any zero padding the walk returns exactly the interrupt IN endpoints in order, each with its 16-bit packet size |
| `Descriptors.WalkTagsNearest` | kernel/src/usb/xhci.rs:1260-1290 | each is tagged with the nearest interface descriptor before it |
| `Descriptors.WalkTruncated` | kernel/src/usb/xhci.rs:1240-1258 | well-formed descriptors cut anywhere, as the buffer cuts them: no panic, and exactly the endpoints of the descriptors wholly inside |
| `Descriptors.InterruptInFields` | kernel/src/usb/xhci.rs:1279-1281 | the test on address and attributes holds exactly for direction IN and transfer type interrupt, whatever the other bits |
| `Descriptors.PanicExactly` | kernel/src/usb/xhci.rs:1256-1272 | for any buffer the walk panics if and only if it reaches an interface or endpoint descriptor with too few bytes left |
| `Descriptors.TruncatedPanics` | kernel/src/usb/xhci.rs:1260-1263 | a two-byte interface descriptor at the end of the buffer panics |
| `Pci.FindCapability` | kernel/src/pci.rs:301-330 | finds exactly the first of the first 48 nodes with the id |
| `Pci.WithinLimit` | kernel/src/pci.rs:313-316 | with pointers at or above 0x40 the first node with the id is among the first 48 |
| `Pci.CapabilityWalkComplete` | kernel/src/pci.rs:313-327 | so the cut-off walk misses no node, on cyclic lists too |
| `Pci.CapabilityImage` | kernel/src/pci.rs:46-55 | the list walked is that of the 256 bytes: announced by bit 4 of byte 6, starting from byte 52, ids and pointers byte by byte |
| `Pci.WithByteReads` | kernel/src/pci.rs:77-83 | replacing a byte of a dword changes that byte and no other |
| `Pci.PciFunction.WriteByte` | kernel/src/pci.rs:77-83 | a byte write reads back and leaves every other byte of configuration space alone |
| `Pci.PciFunction.WriteHalf` | kernel/src/pci.rs:62-75 | a 16-bit write reads back and leaves every other half alone |
| `Pci.AllOnes` | kernel/src/pci.rs:224-229 | all ones read back as the complement of the window size |
| `Pci.SizeRight` | kernel/src/pci.rs:234-251 | the two-s complement of the readback is the window size, 32-bit and 64-bit |
| `Pci.PciFunction.GetBar0Size` | kernel/src/pci.rs:220-252 | returns 2^k for every window of 2^k bytes and leaves the registers as found |
| `Pci.PciFunction.GetBar0` | kernel/src/pci.rs:191-218 | returns the decoded address bits, width and prefetchability |
| `Terminal.TypingWraps` | kernel/src/terminal/mod.rs:77-107 | typing character by character equals wrapping each newline-free paragraph by itself |
| `Terminal.ScrollShows` | kernel/src/terminal/mod.rs:42-57 | scrolling a full screen by one line shows the lines without the first, for any height and pitch |
| `Terminal.PutPixelByte` | kernel/src/graphics/mod.rs:11-20 | a pixel write reaches exactly its own four bytes |
| `Terminal.ColorWord` | kernel/src/graphics/mod.rs:11-20 | the four bytes of a pixel are the word with red, green and blue in bits 16 to 23, 8 to 15 and 0 to 7 |
| `Terminal.GlyphShows` | kernel/src/terminal/mod.rs:111-127 | drawing a glyph in the cursor cell shows the longer line and changes nothing else |
| `Terminal.LitBits` | kernel/src/terminal/mod.rs:111-117 | a glyph row is read from its top bit down |
| `Terminal.Screen.WritePixel` | kernel/src/graphics/mod.rs:3-25 | paints exactly the rectangle, every write in bounds |
| `Terminal.Screen.ScrollFramebuffer` | kernel/src/terminal/mod.rs:42-57 | moves all rows up and clears the last ones |
| `Terminal.Screen.NewLine` | kernel/src/terminal/mod.rs:78-92 | starts a line, scrolling exactly when the screen is full |
| `Terminal.Screen.PutChar` | kernel/src/terminal/mod.rs:77-133 | one character of the wrapped text |
| `Terminal.Screen.Print` | kernel/src/terminal/mod.rs:71-136 | any sequence of prints keeps pixels, cursor and text in agreement |
| `Terminal.ScreenShowsWrapped` | kernel/src/terminal/mod.rs:71-136 | every byte of the framebuffer is that of a rendering of the last height/16 lines of the wrapped text |

## Left out

- PagingError.HhdmUnavailable: the HHDM response is taken to be present, so an access through the window is an access to physical memory; the panics of `push_free` and `map_mmio_page` without it do not occur.
- Mmio.MapMmioRange: the ranges are taken not to overflow 64 bits; how many frames a range needs exactly is left open between none and three for each page.
- EndpointRing.SafeLimitExact: the three fields of a TRB are taken to land in declaration order; the language does not promise this for a volatile store of 16 bytes.
- LinklessRing.DeliversFirst: a TRB lands in one step, and the driver is taken to wait for completions before it overwrites unfetched TRBs; `LinklessRing.NeverMore` needs neither.
- EventRing.EventRingFifo: the controller writes an event in one step; that one interrupt consumes only one event, and so may leave others waiting, is kept but no liveness is claimed.
- ReportLoop.ReportLoop: the queue stands for the event ring; attaching a driver (ids, state, first TRB) is one step, as is a shutdown with the command it leads to; interrupts do not strike while the main flow holds a lock.
- ReportLoop.RoutedToOwner: the bit fields of event TRBs are not decoded, unknown event types are not modelled, and the residual length is not carried.
- UsbDriver.UsbStack.Sync: the controller and the devices are arbitrary, but each root port and slot has one outcome within one synchronisation, and no command times out, which the command ring allows for 31 commands since boot; the contexts `address_device` and `configure_endpoint` build, and the memory they leak, are not modelled.
- UsbDriver.UsbStack.InitOneDevice: a control transfer succeeds or fails as the device decides, and its reply is what the device sends, cut at 256 bytes; the wait for a SET_PROTOCOL, whose result the drivers ignore, may time out.
- Hotplug.NoChangeLost: a synchronisation is the reads of the ports followed by one step with the result that `UsbDriver.UsbStack.Sync` guarantees.
- HidDrivers.Mouse.Poll: the position wraps; a build with overflow checks would panic instead.
- HidDrivers.Keyboard.Poll: gives the keycodes passed on; the table from keycodes to characters is not part of this model, nor is freeing the report buffer at shutdown.
- Pci.PciFunction.GetBar0Size: registers other than the BARs keep what is written to them; the port I/O behind configuration accesses, the bus scans and MSI-X are left out.
- Terminal.ScreenShowsWrapped: text is ASCII, as the glyph table has 128 entries; the framebuffer is black before the first print, whereas kernel/src/main.rs:58-70 paints a short diagonal there.
- Frames.FrameAllocator.Init: additions on 64-bit addresses do not wrap for a map inside physical memory; the case of no memory-map response is the empty map.
- EndpointRing.TransferRing.EnqueueNormalTrb: the doorbell write that follows is not modelled, nor are those after a command and a control transfer; the controller may look at its rings at any time.
- `terminal_clear`, debug output and the memory self-tests: they add no state.
- Controller reset and start, interrupt and descriptor tables, APIC and ACPI: hardware effects.
- The polling fallback without MSI-X: it never returns and never runs the drivers.
- The `vfs` module named in kernel/src/main.rs:46: kernel/src/vfs.rs is empty.
