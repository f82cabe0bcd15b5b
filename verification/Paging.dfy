/**
 `paging.rs`: the operations that walk, grow and edit the page-table tree. Tables are frames of
 the frame allocator, in the same physical memory as its free list.
 */
module Paging {
  import opened Wrappers
  import opened Bits
  import opened Frames
  import opened PageTables

  /** No frame on the free list is a live table. */
  ghost predicate Apart(tables: map<Path, nat>, free: seq<nat>) {
    forall p | p in tables :: tables[p] !in free
  }

  /** What `map_page` answers, decided by the state before the call. */
  ghost function MapOutcome(m: seq<Word>, root: nat, free: nat, page: nat): Result<(), PagingError> {
    if Blocked(m, root, TablePath(page)) then Err(HugePageInPath)
    else if Lookup(m, root, page).Ok? then Err(AlreadyMapped)
    else if Missing(m, root, TablePath(page)) > free then Err(OutOfFrames)
    else Ok(())
  }

  /** Memory, free list and live tables at one moment. */
  datatype Snapshot = Snapshot(m: seq<Word>, free: seq<nat>, tables: map<Path, nat>)

  ghost predicate GrownAt(a: map<Path, nat>, b: map<Path, nat>, popped: seq<nat>, p: Path) {
    (p in a ==> p in b && b[p] == a[p]) && (p in b && p !in a ==> b[p] in popped)
  }

  /** b extends a by as many tables as there are frames in `popped`, all of them in those frames. */
  ghost predicate Grown(a: map<Path, nat>, b: map<Path, nat>, popped: seq<nat>) {
    |b| == |a| + |popped| && forall p :: GrownAt(a, b, popped, p)
  }

  /** Only the free list was consumed, from the front, and only by new tables, at most three. */
  ghost predicate Extended(free: seq<nat>, tables: map<Path, nat>, free': seq<nat>, tables': map<Path, nat>) {
    var n := |free| - |free'|;
    0 <= n <= 3 && free' == free[n..] && Grown(tables, tables', free[..n])
  }

  ghost predicate SameLookups(a: Snapshot, b: Snapshot, root: nat) {
    forall page: nat | page < PAGES :: Lookup(b.m, root, page) == Lookup(a.m, root, page)
  }

  /** The pages that lie behind a huge entry. */
  ghost function BlockedPages(m: seq<Word>, root: nat): set<nat> {
    set page: nat | page < PAGES && Blocked(m, root, TablePath(page))
  }

  ghost predicate SameBlocked(m: seq<Word>, m': seq<Word>, root: nat) {
    BlockedPages(m', root) == BlockedPages(m, root)
  }

  lemma GrownTrans(a: map<Path, nat>, b: map<Path, nat>, c: map<Path, nat>, s: seq<nat>, t: seq<nat>)
    requires Grown(a, b, s) && Grown(b, c, t)
    ensures Grown(a, c, s + t)
  {
    forall p
      ensures GrownAt(a, c, s + t, p)
    {
      assert GrownAt(a, b, s, p) && GrownAt(b, c, t, p);
    }
  }

  ghost predicate LinkFits(a: Snapshot, b: Snapshot, p: Path, i: nat) {
    Sub(p, i) in b.tables ==>
      && p in b.tables
      && if Sub(p, i) in a.tables then p in a.tables && Read(b.m, b.tables[p], i) == Read(a.m, a.tables[p], i)
         else LinkBits(Read(b.m, b.tables[p], i), b.tables[Sub(p, i)])
  }

  /**
   From a to b the links there were stay as they are, word for word, and each new one is present, writable
   and names its table.
   */
  ghost predicate LinksKept(a: Snapshot, b: Snapshot) {
    forall p, i: nat :: LinkFits(a, b, p, i)
  }

  /**
   From a to b only empty tables on the way to `page` were created: every translation and every link
   is unchanged, the tables are the frames popped from the free list, and nothing at all changed if none was popped.
   */
  ghost predicate Progress(a: Snapshot, b: Snapshot, root: nat, page: nat) {
    var n := |a.free| - |b.free|;
    && n >= 0 && b.free == a.free[n..]
    && SameLookups(a, b, root) && SameBlocked(a.m, b.m, root)
    && Blocked(b.m, root, TablePath(page)) == Blocked(a.m, root, TablePath(page))
    && Missing(b.m, root, TablePath(page)) == Missing(a.m, root, TablePath(page)) - n
    && Grown(a.tables, b.tables, a.free[..n])
    && (n == 0 ==> b == a)
    && (n > 0 ==> !Blocked(a.m, root, TablePath(page)) && Lookup(a.m, root, page) == Err(NotMapped))
    && LinksKept(a, b)
  }

  lemma LinksTrans(a: Snapshot, b: Snapshot, c: Snapshot, popped: seq<nat>, popped': seq<nat>)
    requires LinksKept(a, b) && LinksKept(b, c) && Grown(a.tables, b.tables, popped) && Grown(b.tables, c.tables, popped')
    ensures LinksKept(a, c)
  {
    forall p, i: nat
      ensures LinkFits(a, c, p, i)
    {
      assert LinkFits(a, b, p, i) && LinkFits(b, c, p, i);
      assert GrownAt(a.tables, b.tables, popped, Sub(p, i)) && GrownAt(b.tables, c.tables, popped', Sub(p, i));
    }
  }

  lemma LinksThen(a: Snapshot, b: Snapshot, c: Snapshot)
    requires LinksKept(a, b) && LinksKept(b, c) && c.tables == b.tables && Extended(a.free, a.tables, b.free, b.tables)
    ensures LinksKept(a, c)
  {
    forall p, i: nat
      ensures LinkFits(a, c, p, i)
    {
      assert LinkFits(a, b, p, i) && LinkFits(b, c, p, i);
      assert GrownAt(a.tables, b.tables, a.free[..|a.free| - |b.free|], Sub(p, i));
    }
  }

  /** As long as no live table is written the links stay. */
  lemma LinksSame(a: Snapshot, b: Snapshot, root: nat)
    requires Tree(a.m, root, a.tables) && b.tables == a.tables && SameTables(a.m, b.m, a.tables)
    ensures LinksKept(a, b)
  {
    forall p, i: nat
      ensures LinkFits(a, b, p, i)
    {
      if Sub(p, i) in a.tables {
        assert p in a.tables && i < WORDS;
      }
    }
  }

  /** Writing a leaf touches no link. */
  lemma LeafLinks(a: Snapshot, b: Snapshot, root: nat, page: nat, e: Word)
    requires Tree(a.m, root, a.tables) && page < PAGES && TablePath(page) in a.tables && b.tables == a.tables
    requires LeafIndex(page) < WORDS && b.m == WriteEntry(a.m, a.tables[TablePath(page)], LeafIndex(page), e)
    ensures LinksKept(a, b)
  {
    PageDetermined(page);
    forall p, i: nat
      ensures LinkFits(a, b, p, i)
    {
      if Sub(p, i) in a.tables {
        assert p in a.tables && i < WORDS && p != TablePath(page);
        assert a.tables[p] != a.tables[TablePath(page)];
      }
    }
  }

  /** A link made in an absent entry is the only new one. */
  lemma NewLink(a: Snapshot, m: seq<Word>, root: nat, p: Path, i: nat)
    requires Tree(a.m, root, a.tables) && a.free != [] && SameTables(a.m, m, a.tables) && |m| == |a.m|
    requires Linkable(m, root, a.tables, p, i, a.free[0])
    ensures var f := a.free[0];
            LinksKept(a, Snapshot(WriteEntry(m, a.tables[p], i, LinkEntry(FRAME_SIZE * f)), a.free[1..], a.tables[Sub(p, i) := f]))
  {
    var f := a.free[0];
    var b := Snapshot(WriteEntry(m, a.tables[p], i, LinkEntry(FRAME_SIZE * f)), a.free[1..], a.tables[Sub(p, i) := f]);
    LinkEntryBits(f);
    forall q, j: nat
      ensures LinkFits(a, b, q, j)
    {
      if Sub(q, j) in a.tables {
        assert q in a.tables && j < WORDS && Links(Read(a.m, a.tables[q], j));
        assert Read(m, a.tables[q], j) == Read(a.m, a.tables[q], j);
        if q != p {
          assert a.tables[q] != a.tables[p];
        }
      }
    }
  }

  /** No translation, no blocked page and no link changed, and the new tables come from the free list. */
  ghost predicate Untouched(a: Snapshot, b: Snapshot, root: nat) {
    SameLookups(a, b, root) && SameBlocked(a.m, b.m, root) && LinksKept(a, b) && Extended(a.free, a.tables, b.free, b.tables)
  }

  /** What the descent to the page table of `page` does, and what it means for the answer: only the leaf entry decides from here on. */
  ghost predicate Descended(a: Snapshot, b: Snapshot, root: nat, page: nat, r: Result<nat, PagingError>) {
    && Untouched(a, b, root)
    && (r.Ok? ==>
          && TablePath(page) in b.tables && r.value == FRAME_SIZE * b.tables[TablePath(page)]
          && if Present(Read(b.m, b.tables[TablePath(page)], LeafIndex(page))) then b == a && MapOutcome(a.m, root, |a.free|, page) == Err(AlreadyMapped)
             else MapOutcome(a.m, root, |a.free|, page) == Ok(()))
    && (r.Err? ==> MapOutcome(a.m, root, |a.free|, page) == Err(r.error))
    && (r.Err? ==> (r.error == HugePageInPath && b == a) || (r.error == OutOfFrames && b.free == []))
  }

  /** What writing the leaf does, unless a present entry is refused. */
  ghost predicate Filled(b: Snapshot, c: Snapshot, root: nat, page: nat, leaf: Word, r: Result<(), PagingError>) {
    && TablePath(page) in b.tables && c.free == b.free && c.tables == b.tables
    && r == (if Present(Read(b.m, b.tables[TablePath(page)], LeafIndex(page))) then Err(AlreadyMapped) else Ok(()))
    && LinksKept(b, c) && SameBlocked(b.m, c.m, root)
    && (r.Err? ==> c == b)
    && (r.Ok? ==> Mapping(c.m, root) == Mapping(b.m, root)[page := FrameOf(leaf)] && Entries(c.m, root) == Entries(b.m, root)[page := leaf])
  }

  /** What `map_page` does once the leaf entry is made. */
  ghost predicate MapEffect(a: Snapshot, c: Snapshot, root: nat, page: nat, leaf: Word, r: Result<(), PagingError>) {
    && r == MapOutcome(a.m, root, |a.free|, page)
    && LinksKept(a, c) && SameBlocked(a.m, c.m, root) && Extended(a.free, a.tables, c.free, c.tables)
    && (r.Ok? ==> Mapping(c.m, root) == Mapping(a.m, root)[page := FrameOf(leaf)] && Entries(c.m, root) == Entries(a.m, root)[page := leaf])
    && (r.Err? ==> SameLookups(a, c, root))
    && (r.Err? && r != Err(OutOfFrames) ==> c == a)
    && (r == Err(OutOfFrames) ==> c.free == [])
  }

  /** The descent and the leaf together. */
  lemma MapJoin(a: Snapshot, b: Snapshot, c: Snapshot, root: nat, page: nat, leaf: Word, pt: Result<nat, PagingError>, r: Result<(), PagingError>)
    requires Descended(a, b, root, page, pt) && pt.Ok? && Filled(b, c, root, page, leaf, r)
    ensures MapEffect(a, c, root, page, leaf, r)
  {
    SameMapping(a, b, root);
    LinksThen(a, b, c);
  }

  lemma SameLookupsTrans(a: Snapshot, b: Snapshot, c: Snapshot, root: nat, page: nat)
    requires page < PAGES && SameLookups(a, b, root) && SameLookups(b, c, root)
    ensures SameLookups(a, c, root) && Lookup(b.m, root, page) == Lookup(a.m, root, page)
  {
  }

  lemma SliceJoin(s: seq<nat>, n: nat, k: nat)
    requires n + k <= |s|
    ensures s[n..][k..] == s[n + k..] && s[..n] + s[n..][..k] == s[..n + k]
  {
  }

  lemma ProgressTrans(a: Snapshot, b: Snapshot, c: Snapshot, root: nat, page: nat)
    requires page < PAGES && Progress(a, b, root, page) && Progress(b, c, root, page)
    ensures Progress(a, c, root, page)
  {
    var n, k := |a.free| - |b.free|, |b.free| - |c.free|;
    SliceJoin(a.free, n, k);
    SameLookupsTrans(a, b, c, root, page);
    GrownTrans(a.tables, b.tables, c.tables, a.free[..n], b.free[..k]);
    LinksTrans(a, b, c, a.free[..n], b.free[..k]);
  }

  /** Popping one frame for a missing table of the path to `page` is progress. */
  lemma LinkProgress(a: Snapshot, m: seq<Word>, root: nat, p: Path, i: nat, page: nat)
    requires page < PAGES && Tree(a.m, root, a.tables) && Apart(a.tables, a.free) && a.free != []
    requires SameTables(a.m, m, a.tables) && |m| == |a.m|
    requires p in a.tables && Indexed(p) && Depth(p) < 3 && i < WORDS && Through(TablePath(page), Sub(p, i))
    requires !Present(Read(a.m, a.tables[p], i)) && !Huge(Read(a.m, a.tables[p], i))
    requires a.free[0] < ENTRY_FRAMES && ZeroedFrame(m, a.free[0])
    ensures WORDS * a.tables[p] + WORDS <= |m|
    ensures var b := Snapshot(WriteEntry(m, a.tables[p], i, LinkEntry(FRAME_SIZE * a.free[0])), a.free[1..], a.tables[Sub(p, i) := a.free[0]]);
            Tree(b.m, root, b.tables) && Progress(a, b, root, page)
  {
    var f := a.free[0];
    TreeFrame(a.m, m, root, a.tables);
    FrameNotTable(a.tables, a.free);
    assert Linkable(m, root, a.tables, p, i, f);
    LinkTree(m, root, a.tables, p, i, f);
    var b := Snapshot(WriteEntry(m, a.tables[p], i, LinkEntry(FRAME_SIZE * f)), a.free[1..], a.tables[Sub(p, i) := f]);
    assert SameLookups(a, b, root) by {
      LinkSameLookups(a, m, root, p, i, f);
    }
    assert SameBlocked(a.m, b.m, root) by {
      LinkSameBlocked(a, m, root, p, i, f);
    }
    NewLink(a, m, root, p, i);
    LinkPath(a, m, root, p, i, page);
    OneGrown(a.tables, Sub(p, i), a.free);
  }

  lemma OneGrown(tables: map<Path, nat>, s: Path, free: seq<nat>)
    requires s !in tables && free != []
    ensures Grown(tables, tables[s := free[0]], free[..1])
  {
    assert free[..1] == [free[0]];
    assert |tables[s := free[0]]| == |tables| + 1;
  }

  /** Along the path to `page` one table less is missing, and nothing was blocked or mapped there. */
  lemma LinkPath(a: Snapshot, m: seq<Word>, root: nat, p: Path, i: nat, page: nat)
    requires page < PAGES && Tree(a.m, root, a.tables) && a.free != [] && SameTables(a.m, m, a.tables)
    requires Linkable(m, root, a.tables, p, i, a.free[0]) && Through(TablePath(page), Sub(p, i))
    ensures var m' := WriteEntry(m, a.tables[p], i, LinkEntry(FRAME_SIZE * a.free[0]));
            && Blocked(m', root, TablePath(page)) == Blocked(a.m, root, TablePath(page)) == false
            && Missing(m', root, TablePath(page)) == Missing(a.m, root, TablePath(page)) - 1
            && Lookup(a.m, root, page) == Err(NotMapped)
  {
    var q := TablePath(page);
    PageDetermined(page);
    LinkWalk(m, root, a.tables, p, i, a.free[0], q);
    LinkMissing(m, root, a.tables, p, i, a.free[0], q);
    FramePath(a.m, m, root, a.tables, q);
    NotBlockedAt(m, root, a.tables, q, p, i);
  }

  lemma FrameNotTable(tables: map<Path, nat>, free: seq<nat>)
    requires Apart(tables, free) && free != []
    ensures free[0] !in tables.Values
  {
  }

  lemma LinkSameLookups(a: Snapshot, m: seq<Word>, root: nat, p: Path, i: nat, f: nat)
    requires Tree(a.m, root, a.tables) && SameTables(a.m, m, a.tables) && |m| == |a.m|
    requires Linkable(m, root, a.tables, p, i, f)
    ensures forall other: nat | other < PAGES ::
              Lookup(WriteEntry(m, a.tables[p], i, LinkEntry(FRAME_SIZE * f)), root, other) == Lookup(a.m, root, other)
  {
    FrameLookups(a.m, m, root, a.tables);
    forall other: nat | other < PAGES
      ensures Lookup(WriteEntry(m, a.tables[p], i, LinkEntry(FRAME_SIZE * f)), root, other) == Lookup(a.m, root, other)
    {
      LinkLookup(m, root, a.tables, p, i, f, other);
    }
  }

  lemma LinkSameBlocked(a: Snapshot, m: seq<Word>, root: nat, p: Path, i: nat, f: nat)
    requires Tree(a.m, root, a.tables) && SameTables(a.m, m, a.tables) && |m| == |a.m|
    requires Linkable(m, root, a.tables, p, i, f)
    ensures SameBlocked(a.m, WriteEntry(m, a.tables[p], i, LinkEntry(FRAME_SIZE * f)), root)
  {
    forall page: nat | page < PAGES
      ensures Blocked(WriteEntry(m, a.tables[p], i, LinkEntry(FRAME_SIZE * f)), root, TablePath(page)) == Blocked(a.m, root, TablePath(page))
    {
      PageDetermined(page);
      FramePath(a.m, m, root, a.tables, TablePath(page));
      LinkWalk(m, root, a.tables, p, i, f, TablePath(page));
    }
  }

  lemma LeafSameBlocked(m: seq<Word>, root: nat, tables: map<Path, nat>, page: nat, e: Word)
    requires Tree(m, root, tables) && page < PAGES && TablePath(page) in tables
    ensures LeafIndex(page) < WORDS && SameBlocked(m, WriteEntry(m, tables[TablePath(page)], LeafIndex(page), e), root)
  {
    PageDetermined(page);
    forall other: nat | other < PAGES
      ensures Blocked(WriteEntry(m, tables[TablePath(page)], LeafIndex(page), e), root, TablePath(other)) == Blocked(m, root, TablePath(other))
    {
      PageDetermined(other);
      LeafWalk(m, root, tables, TablePath(page), LeafIndex(page), e, TablePath(other));
    }
  }

  /** Below an absent, non-huge entry nothing is blocked if nothing is blocked above it. */
  lemma {:induction false} NotBlockedAt(m: seq<Word>, root: nat, tables: map<Path, nat>, q: Path, p: Path, i: nat)
    requires Tree(m, root, tables) && p in tables && Indexed(q) && Depth(q) <= 3 && Indexed(p) && Depth(p) < 3
    requires Through(q, Sub(p, i)) && !Present(Read(m, tables[p], i)) && !Huge(Read(m, tables[p], i))
    ensures !Blocked(m, root, q) && Walk(m, root, q) == Err(NotMapped)
  {
    WalkTree(m, root, tables, p);
    if q == Sub(p, i) {
      LiveNotBlocked(m, root, tables, p);
    } else {
      NotBlockedAt(m, root, tables, q.up, p, i);
    }
  }

  lemma {:induction false} LiveNotBlocked(m: seq<Word>, root: nat, tables: map<Path, nat>, p: Path)
    requires Tree(m, root, tables) && p in tables && Indexed(p) && Depth(p) <= 3
    ensures !Blocked(m, root, p)
  {
    if p.Sub? {
      assert Sub(p.up, p.i) in tables;
      LiveNotBlocked(m, root, tables, p.up);
      WalkTree(m, root, tables, p.up);
    }
  }

  lemma FrameLookups(m: seq<Word>, m': seq<Word>, root: nat, tables: map<Path, nat>)
    requires Tree(m, root, tables) && SameTables(m, m', tables)
    ensures forall page: nat | page < PAGES :: Lookup(m', root, page) == Lookup(m, root, page)
    ensures SameBlocked(m, m', root)
  {
    FrameBlocked(m, m', root, tables);
    forall page: nat | page < PAGES
      ensures Lookup(m', root, page) == Lookup(m, root, page)
    {
      PageDetermined(page);
      WalkFrame(m, m', root, tables, TablePath(page));
      WalkTree(m, root, tables, TablePath(page));
    }
  }

  lemma FrameBlocked(m: seq<Word>, m': seq<Word>, root: nat, tables: map<Path, nat>)
    requires Tree(m, root, tables) && SameTables(m, m', tables)
    ensures SameBlocked(m, m', root)
  {
    forall page: nat | page < PAGES
      ensures Blocked(m', root, TablePath(page)) == Blocked(m, root, TablePath(page))
    {
      PageDetermined(page);
      FramePath(m, m', root, tables, TablePath(page));
    }
  }

  lemma {:induction false} FramePath(m: seq<Word>, m': seq<Word>, root: nat, tables: map<Path, nat>, q: Path)
    requires Tree(m, root, tables) && SameTables(m, m', tables) && Indexed(q) && Depth(q) <= 3
    ensures Walk(m', root, q) == Walk(m, root, q) && Blocked(m', root, q) == Blocked(m, root, q)
    ensures Missing(m', root, q) == Missing(m, root, q)
  {
    WalkFrame(m, m', root, tables, q);
    if q.Sub? {
      FramePath(m, m', root, tables, q.up);
    }
  }

  /** Writes confined to free frames do not touch the live tables. */
  lemma FreeWrites(m: seq<Word>, m': seq<Word>, root: nat, tables: map<Path, nat>, free: seq<nat>)
    requires Tree(m, root, tables) && Apart(tables, free)
    requires |m'| == |m| && forall w | 0 <= w < |m| && w / WORDS !in free :: m'[w] == m[w]
    ensures SameTables(m, m', tables)
  {
    forall p, i: nat | p in tables && i < WORDS
      ensures Read(m', tables[p], i) == Read(m, tables[p], i)
    {
      assert (WORDS * tables[p] + i) / WORDS == tables[p];
    }
  }

  class AddressSpace {
    const allocator: FrameAllocator
    /** Frame of the top-level table, from CR3. */
    const root: nat
    /** The live tables; those the bootloader built lie outside usable memory. */
    ghost var tables: map<Path, nat>

    ghost predicate Valid()
      reads this, allocator, allocator.mem
    {
      && allocator.Valid()
      && Tree(allocator.mem[..], root, tables)
      && Apart(tables, allocator.Free())
    }

    ghost function State(): Snapshot
      reads this, allocator, allocator.mem
    {
      Snapshot(allocator.mem[..], allocator.Free(), tables)
    }

    /** Every mapped page with its leaf entry. */
    ghost function EntryMap(): map<nat, Word>
      reads this, allocator, allocator.mem
    {
      Entries(allocator.mem[..], root)
    }

    ghost function PageMap(): map<nat, nat>
      reads this, allocator, allocator.mem
    {
      Mapping(allocator.mem[..], root)
    }

    constructor (allocator: FrameAllocator, root: nat, ghost tables: map<Path, nat>)
      requires allocator.Valid() && Tree(allocator.mem[..], root, tables) && Apart(tables, allocator.Free())
      ensures Valid() && this.allocator == allocator && this.root == root && this.tables == tables
    {
      this.allocator := allocator;
      this.root := root;
      this.tables := tables;
    }

    /** Entry i of a live table lies in memory at word `table / 8 + i`. */
    method ReadEntry(table: nat, i: nat, ghost p: Path) returns (e: Word)
      requires Valid() && p in tables && table == FRAME_SIZE * tables[p] && i < WORDS
      ensures e == Read(allocator.mem[..], tables[p], i)
    {
      assert table / 8 == WORDS * tables[p];
      e := allocator.mem[table / 8 + i];
    }

    /** Pops a zeroed frame, which leaves the live tables and the threaded list as they are. */
    method AllocateTable() returns (r: Option<Word>)
      requires Valid()
      modifies allocator, allocator.mem
      ensures Valid()
      ensures |allocator.mem[..]| == |old(allocator.mem[..])| && SameTables(old(allocator.mem[..]), allocator.mem[..], tables)
      ensures r.None? ==> State() == old(State()) && allocator.Free() == []
      ensures r.Some? ==>
                && old(allocator.Free()) != [] && allocator.Free() == old(allocator.Free())[1..]
                && r.value == FRAME_SIZE * old(allocator.Free())[0] && old(allocator.Free())[0] < ENTRY_FRAMES
                && ZeroedFrame(allocator.mem[..], old(allocator.Free())[0])
                && old(allocator.Free())[0] !in allocator.Free()
                && allocator.taken == old(allocator.taken) + {old(allocator.Free())[0]}
      ensures r.None? ==> allocator.taken == old(allocator.taken)
    {
      ghost var a := State();
      FreeInMemory(allocator);
      r := allocator.Allocate();
      FreeWrites(a.m, allocator.mem[..], root, tables, a.free);
      TreeFrame(a.m, allocator.mem[..], root, tables);
      assert Apart(tables, allocator.Free());
      if r.None? {
        assert allocator.mem[..] == a.m;
      } else {
        assert a.free[0] in allocator.taken;
      }
    }

    /** `next_table_or_create` on entry i of the table at p, on the way to `page`. */
    method NextTableOrCreate(table: nat, i: nat, ghost p: Path, ghost page: nat) returns (r: Result<nat, PagingError>)
      requires Valid() && page < PAGES
      requires p in tables && table == FRAME_SIZE * tables[p] && Indexed(p) && Depth(p) < 3 && i < WORDS
      requires Through(TablePath(page), Sub(p, i))
      modifies this, allocator, allocator.mem
      ensures Valid() && Progress(old(State()), State(), root, page)
      ensures r.Ok? ==> Sub(p, i) in tables && r.value == FRAME_SIZE * tables[Sub(p, i)]
      ensures r.Err? ==> State() == old(State())
      ensures r == Err(HugePageInPath) <==> Huge(Read(old(allocator.mem[..]), old(tables)[p], i))
      ensures r.Err? && r != Err(HugePageInPath) ==>
                r == Err(OutOfFrames) && Sub(p, i) !in tables && allocator.Free() == []
    {
      LinksSame(State(), State(), root);
      var e := ReadEntry(table, i, p);
      if Huge(e) {
        return Err(HugePageInPath);
      }
      if !Present(e) {
        r := CreateTable(table, i, p, page);
        return;
      }
      return Ok(FRAME_SIZE * FrameOf(e));
    }

    /** The entry is neither present nor huge: links a fresh frame there, if there is one. */
    method CreateTable(table: nat, i: nat, ghost p: Path, ghost page: nat) returns (r: Result<nat, PagingError>)
      requires Valid() && page < PAGES
      requires p in tables && table == FRAME_SIZE * tables[p] && Indexed(p) && Depth(p) < 3 && i < WORDS
      requires Through(TablePath(page), Sub(p, i))
      requires !Present(Read(allocator.mem[..], tables[p], i)) && !Huge(Read(allocator.mem[..], tables[p], i))
      modifies this, allocator, allocator.mem
      ensures Valid() && Progress(old(State()), State(), root, page)
      ensures r.Ok? ==> Sub(p, i) in tables && r.value == FRAME_SIZE * tables[Sub(p, i)]
      ensures r.Err? ==> r.error == OutOfFrames && State() == old(State()) && Sub(p, i) !in tables && allocator.Free() == []
    {
      ghost var a := State();
      LinksSame(a, a, root);
      var frame := AllocateTable();
      if frame.None? {
        return Err(OutOfFrames);
      }
      LinkProgress(a, allocator.mem[..], root, p, i, page);
      WriteTableEntry(table, i, LinkEntry(frame.value), p);
      tables := tables[Sub(p, i) := a.free[0]];
      return Ok(frame.value);
    }

    /** One step of the descent of `map_page` that began in state a; p is the table reached so far. */
    method DescendStep(table: nat, i: nat, ghost p: Path, ghost page: nat, ghost a: Snapshot) returns (r: Result<nat, PagingError>)
      requires Valid() && page < PAGES && Progress(a, State(), root, page)
      requires p in tables && table == FRAME_SIZE * tables[p] && Indexed(p) && Depth(p) < 3 && i < WORDS
      requires Through(TablePath(page), Sub(p, i))
      modifies this, allocator, allocator.mem
      ensures Valid() && Progress(a, State(), root, page)
      ensures r.Ok? ==> Sub(p, i) in tables && r.value == FRAME_SIZE * tables[Sub(p, i)]
      ensures r.Err? ==> State() == old(State())
      ensures r.Err? ==> MapOutcome(a.m, root, |a.free|, page) == Err(r.error)
      ensures r.Err? ==> r.error == HugePageInPath || (r.error == OutOfFrames && allocator.Free() == [])
    {
      ghost var b := State();
      DescentError(a, b, root, page, p, i);
      r := NextTableOrCreate(table, i, p, page);
      ProgressTrans(a, b, State(), root, page);
    }

    /** The three calls of `next_table_or_create` in `map_page`. */
    method DescendOrCreate(virt: Word) returns (r: Result<nat, PagingError>)
      requires Valid()
      modifies this, allocator, allocator.mem
      ensures Valid() && Progress(old(State()), State(), root, PageOf(virt))
      ensures r.Ok? ==> TablePath(PageOf(virt)) in tables && r.value == FRAME_SIZE * tables[TablePath(PageOf(virt))]
      ensures r.Err? ==> old(MapOutcome(allocator.mem[..], root, |allocator.Free()|, PageOf(virt))) == Err(r.error)
      ensures r.Err? ==> r.error == HugePageInPath || (r.error == OutOfFrames && allocator.Free() == [])
    {
      ghost var a, page := State(), PageOf(virt);
      LinksSame(a, a, root);
      PathOfAddress(virt);
      var (pml4Index, pdptIndex, pdIndex, ptIndex) := TableIndices(virt);
      ghost var p1 := Sub(Root, pml4Index);
      ghost var p2 := Sub(p1, pdptIndex);
      r := DescendStep(FRAME_SIZE * root, pml4Index, Root, page, a);
      if r.Ok? {
        r := DescendStep(r.value, pdptIndex, p1, page, a);
      }
      if r.Ok? {
        r := DescendStep(r.value, pdIndex, p2, page, a);
      }
    }

    /** `map_page`: success maps exactly one page; failure changes no translation. */
    method MapPage(virtAddr: Word, physAddr: Word, extraFlags: Word) returns (r: Result<(), PagingError>)
      requires Valid()
      modifies this, allocator, allocator.mem
      ensures Valid()
      ensures r == old(MapOutcome(allocator.mem[..], root, |allocator.Free()|, PageOf(virtAddr)))
      ensures r.Ok? ==> PageMap() == old(PageMap())[PageOf(virtAddr) := FrameOf(LeafEntry(physAddr, extraFlags))]
      ensures r.Ok? ==>
                && PageOf(virtAddr) in EntryMap() && LeafBits(EntryMap()[PageOf(virtAddr)], physAddr, extraFlags)
                && EntryMap() == old(EntryMap())[PageOf(virtAddr) := EntryMap()[PageOf(virtAddr)]]
      ensures LinksKept(old(State()), State())
      ensures r.Err? ==> SameLookups(old(State()), State(), root)
      ensures SameBlocked(old(allocator.mem[..]), allocator.mem[..], root)
      ensures r.Err? && r != Err(OutOfFrames) ==> State() == old(State())
      ensures r == Err(OutOfFrames) ==> allocator.Free() == []
      ensures Extended(old(allocator.Free()), old(tables), allocator.Free(), tables)
    {
      var virt := virtAddr - virtAddr % FRAME_SIZE;
      assert PageOf(virt) == PageOf(virtAddr) by {
        PageOfAligned(virtAddr);
      }
      LeafEntryFields(physAddr, extraFlags);
      LeafEntryBits(physAddr, extraFlags);
      r := MapLeaf(virt, LeafEntry(physAddr, extraFlags));
    }

    /** `map_page` on an aligned address, with the leaf entry made. */
    method MapLeaf(virt: Word, leaf: Word) returns (r: Result<(), PagingError>)
      requires Valid() && Present(leaf)
      modifies this, allocator, allocator.mem
      ensures Valid() && MapEffect(old(State()), State(), root, PageOf(virt), leaf, r)
    {
      ghost var a := State();
      var pt := PageTableOf(virt);
      if pt.Err? {
        return Err(pt.error);
      }
      ghost var b := State();
      r := FillEntry(pt.value, virt, leaf);
      MapJoin(a, b, State(), root, PageOf(virt), leaf, pt, r);
    }

    /** The descent of `map_page`. */
    method PageTableOf(virt: Word) returns (r: Result<nat, PagingError>)
      requires Valid()
      modifies this, allocator, allocator.mem
      ensures Valid() && Descended(old(State()), State(), root, PageOf(virt), r)
    {
      ghost var a := State();
      r := DescendOrCreate(virt);
      DescentMeaning(a, State(), root, PageOf(virt), r);
    }

    /** The last step of `map_page`: refuses a present entry, otherwise writes the leaf. */
    method FillEntry(pt: nat, virt: Word, leaf: Word) returns (r: Result<(), PagingError>)
      requires Valid() && Present(leaf)
      requires TablePath(PageOf(virt)) in tables && pt == FRAME_SIZE * tables[TablePath(PageOf(virt))]
      modifies allocator.mem
      ensures Valid() && Filled(old(State()), State(), root, PageOf(virt), leaf, r)
    {
      ghost var b := State();
      LinksSame(b, b, root);
      PathOfAddress(virt);
      var (pml4Index, pdptIndex, pdIndex, ptIndex) := TableIndices(virt);
      var pte := ReadEntry(pt, ptIndex, TablePath(PageOf(virt)));
      if Present(pte) {
        return Err(AlreadyMapped);
      }
      LeafMapping(b.m, root, tables, PageOf(virt), leaf);
      LeafSameBlocked(b.m, root, tables, PageOf(virt), leaf);
      WriteTableEntry(pt, ptIndex, leaf, TablePath(PageOf(virt)));
      LeafLinks(b, State(), root, PageOf(virt), leaf);
      return Ok(());
    }

    /** `translate`: reads the tree and changes nothing. */
    method Translate(virtAddr: Word) returns (r: Result<Word, PagingError>)
      requires Valid()
      ensures r.Ok? <==> PageOf(virtAddr) in PageMap()
      ensures r.Ok? ==> r.value == FRAME_SIZE * PageMap()[PageOf(virtAddr)] + virtAddr % FRAME_SIZE
      ensures r.Err? ==> Lookup(allocator.mem[..], root, PageOf(virtAddr)) == Err(r.error)
    {
      var virt := virtAddr - virtAddr % FRAME_SIZE;
      assert PageOf(virt) == PageOf(virtAddr) by {
        PageOfAligned(virtAddr);
      }
      var pt, ptIndex := Descend(virt);
      if pt.Err? {
        return Err(pt.error);
      }
      var pte := ReadEntry(pt.value, ptIndex, TablePath(PageOf(virt)));
      if !Present(pte) {
        return Err(NotMapped);
      }
      return Ok(FRAME_SIZE * FrameOf(pte) + virtAddr % FRAME_SIZE);
    }

    /** The three calls of `next_table_existing` shared by `unmap_page` and `translate`. */
    method Descend(virt: Word) returns (r: Result<nat, PagingError>, ptIndex: nat)
      requires Valid()
      ensures var p := TablePath(PageOf(virt));
              && ptIndex == LeafIndex(PageOf(virt)) && ptIndex < WORDS
              && (r.Ok? ==> p in tables && r.value == FRAME_SIZE * tables[p] && Walk(allocator.mem[..], root, p) == Ok(tables[p]))
              && (r.Err? ==> Walk(allocator.mem[..], root, p) == Err(r.error))
    {
      PathOfAddress(virt);
      var (pml4Index, pdptIndex, pdIndex, i) := TableIndices(virt);
      ptIndex := i;
      ghost var p1 := Sub(Root, pml4Index);
      ghost var p2 := Sub(p1, pdptIndex);
      r := ExistingStep(FRAME_SIZE * root, pml4Index, Root);
      if r.Ok? {
        r := ExistingStep(r.value, pdptIndex, p1);
      }
      if r.Ok? {
        r := ExistingStep(r.value, pdIndex, p2);
      }
    }

    method ExistingStep(table: nat, i: nat, ghost p: Path) returns (r: Result<nat, PagingError>)
      requires Valid() && Indexed(p) && Depth(p) < 3 && i < WORDS && p in tables && table == FRAME_SIZE * tables[p]
      ensures r.Ok? ==> Sub(p, i) in tables && r.value == FRAME_SIZE * tables[Sub(p, i)] && Walk(allocator.mem[..], root, Sub(p, i)) == Ok(tables[Sub(p, i)])
      ensures r.Err? ==> Walk(allocator.mem[..], root, Sub(p, i)) == Err(r.error)
    {
      WalkTree(allocator.mem[..], root, tables, p);
      var e := ReadEntry(table, i, p);
      var next := Next(e);
      return match next case Ok(f) => Ok(FRAME_SIZE * f) case Err(x) => Err(x);
    }

    /** `unmap_page`: removes exactly one page and returns the address it was mapped to. */
    method UnmapPage(virtAddr: Word) returns (r: Result<Word, PagingError>)
      requires Valid()
      modifies allocator.mem
      ensures Valid() && tables == old(tables) && allocator.Free() == old(allocator.Free())
      ensures r.Ok? <==> PageOf(virtAddr) in old(PageMap())
      ensures r.Ok? ==> r.value == FRAME_SIZE * old(PageMap())[PageOf(virtAddr)]
      ensures r.Ok? ==> PageMap() == old(PageMap()) - {PageOf(virtAddr)} && EntryMap() == old(EntryMap()) - {PageOf(virtAddr)}
      ensures SameBlocked(old(allocator.mem[..]), allocator.mem[..], root)
      ensures r.Err? ==> Lookup(old(allocator.mem[..]), root, PageOf(virtAddr)) == Err(r.error) && State() == old(State())
    {
      var virt := virtAddr - virtAddr % FRAME_SIZE;
      assert PageOf(virt) == PageOf(virtAddr) by {
        PageOfAligned(virtAddr);
      }
      ghost var page := PageOf(virt);
      var pt, ptIndex := Descend(virt);
      if pt.Err? {
        return Err(pt.error);
      }
      var pte := ReadEntry(pt.value, ptIndex, TablePath(page));
      if !Present(pte) {
        return Err(NotMapped);
      }
      LeafMapping(allocator.mem[..], root, tables, page, 0);
      LeafSameBlocked(allocator.mem[..], root, tables, page, 0);
      WriteTableEntry(pt.value, ptIndex, 0, TablePath(page));
      return Ok(FRAME_SIZE * FrameOf(pte));
    }

    /** Writes one entry of a live table; the free list stays threaded. */
    method WriteTableEntry(table: nat, i: nat, e: Word, ghost p: Path)
      requires Valid() && p in tables && table == FRAME_SIZE * tables[p] && i < WORDS
      modifies allocator.mem
      ensures allocator.Valid() && allocator.Free() == old(allocator.Free())
      ensures allocator.mem[..] == WriteEntry(old(allocator.mem[..]), tables[p], i, e)
    {
      ghost var m := allocator.mem[..];
      assert table / 8 == WORDS * tables[p];
      allocator.mem[table / 8 + i] := e;
      assert tables[p] !in allocator.list;
      ThreadFrame(m, allocator.head, allocator.list, allocator.mem[..], tables[p]);
    }
  }

  lemma PathOfAddress(virt: Word)
    ensures var (a, b, c, d) := TableIndices(virt);
            var page := PageOf(virt);
            && page < PAGES && TablePath(page) == Sub(Sub(Sub(Root, a), b), c) && LeafIndex(page) == d
            && Indexed(TablePath(page)) && Depth(Sub(Root, a)) == 1 && Depth(Sub(Sub(Root, a), b)) == 2
            && Through(TablePath(page), Sub(Root, a)) && Through(TablePath(page), Sub(Sub(Root, a), b))
            && Through(TablePath(page), TablePath(page))
  {
    IndicesOfPage(virt);
    var (a, b, c, d) := TableIndices(virt);
    assert Indexed(Sub(Root, a)) && Indexed(Sub(Sub(Root, a), b));
    assert Through(Sub(Root, a), Sub(Root, a)) && Through(Sub(Sub(Root, a), b), Sub(Root, a));
    assert Through(Sub(Sub(Root, a), b), Sub(Sub(Root, a), b));
  }

  /** An entry with the huge bit on the way to the page blocks the page. */
  lemma {:induction false} HugeBlocks(m: seq<Word>, root: nat, tables: map<Path, nat>, q: Path, p: Path, i: nat)
    requires Tree(m, root, tables) && p in tables && Indexed(p) && Depth(p) < 3 && Through(q, Sub(p, i))
    requires Huge(Read(m, tables[p], i))
    ensures Blocked(m, root, q)
  {
    WalkTree(m, root, tables, p);
    if q != Sub(p, i) {
      HugeBlocks(m, root, tables, q.up, p, i);
    }
  }

  /** The answer of the descent is decided by the state it started from. */
  lemma DescentError(a: Snapshot, b: Snapshot, root: nat, page: nat, p: Path, i: nat)
    requires page < PAGES && Tree(b.m, root, b.tables) && Progress(a, b, root, page)
    requires p in b.tables && Indexed(p) && Depth(p) < 3 && i < WORDS && Through(TablePath(page), Sub(p, i))
    ensures Huge(Read(b.m, b.tables[p], i)) ==>
              b == a && MapOutcome(a.m, root, |a.free|, page) == Err(HugePageInPath)
    ensures !Huge(Read(b.m, b.tables[p], i)) && Sub(p, i) !in b.tables && b.free == [] ==>
              MapOutcome(a.m, root, |a.free|, page) == Err(OutOfFrames)
  {
    var q := TablePath(page);
    PageDetermined(page);
    if Huge(Read(b.m, b.tables[p], i)) {
      HugeBlocks(b.m, root, b.tables, q, p, i);
    } else if Sub(p, i) !in b.tables {
      NotBlockedAt(b.m, root, b.tables, q, p, i);
    }
  }

  /** Once the page table of the page is live, only its entry decides. */
  lemma DescentOk(a: Snapshot, b: Snapshot, root: nat, page: nat)
    requires page < PAGES && Tree(b.m, root, b.tables) && Progress(a, b, root, page) && TablePath(page) in b.tables
    ensures Present(Read(b.m, b.tables[TablePath(page)], LeafIndex(page))) ==>
              b == a && MapOutcome(a.m, root, |a.free|, page) == Err(AlreadyMapped)
    ensures !Present(Read(b.m, b.tables[TablePath(page)], LeafIndex(page))) ==>
              MapOutcome(a.m, root, |a.free|, page) == Ok(())
  {
    PageDetermined(page);
    WalkTree(b.m, root, b.tables, TablePath(page));
    LiveNotBlocked(b.m, root, b.tables, TablePath(page));
  }

  lemma ProgressExtended(a: Snapshot, b: Snapshot, root: nat, page: nat)
    requires page < PAGES && Progress(a, b, root, page)
    ensures Untouched(a, b, root)
  {
    PageDetermined(page);
    MissingBound(a.m, root, TablePath(page));
  }

  lemma DescentMeaning(a: Snapshot, b: Snapshot, root: nat, page: nat, r: Result<nat, PagingError>)
    requires page < PAGES && Tree(b.m, root, b.tables) && Progress(a, b, root, page)
    requires r.Ok? ==> TablePath(page) in b.tables && r.value == FRAME_SIZE * b.tables[TablePath(page)]
    requires r.Err? ==> MapOutcome(a.m, root, |a.free|, page) == Err(r.error)
    requires r.Err? ==> (r.error == HugePageInPath && b == a) || (r.error == OutOfFrames && b.free == [])
    ensures Descended(a, b, root, page, r)
  {
    ProgressExtended(a, b, root, page);
    if r.Ok? {
      DescentOk(a, b, root, page);
    }
  }

  lemma MissingBound(m: seq<Word>, root: nat, p: Path)
    ensures Missing(m, root, p) <= Depth(p)
  {
  }

  /** A table that a walk reaches has no huge entry above it. */
  lemma {:induction false} WalkNotBlocked(m: seq<Word>, root: nat, p: Path)
    requires Walk(m, root, p).Ok?
    ensures !Blocked(m, root, p)
  {
    if p.Sub? {
      WalkNotBlocked(m, root, p.up);
    }
  }

  /** `map_page` answers AlreadyMapped exactly for the mapped pages, HugePageInPath exactly for the blocked ones, and three frames suffice. */
  lemma OutcomeMeaning(m: seq<Word>, root: nat, free: nat, page: nat)
    requires page < PAGES
    ensures MapOutcome(m, root, free, page) == Err(AlreadyMapped) <==> page in Mapping(m, root)
    ensures MapOutcome(m, root, free, page) == Err(HugePageInPath) <==> page in BlockedPages(m, root)
    ensures MapOutcome(m, root, free, page) == Err(OutOfFrames) ==> free < 3
    ensures MapOutcome(m, root, free, page) != Err(NotMapped)
  {
    PageDetermined(page);
    MissingBound(m, root, TablePath(page));
    if page in Mapping(m, root) {
      WalkNotBlocked(m, root, TablePath(page));
    }
  }

  lemma SameMapping(a: Snapshot, b: Snapshot, root: nat)
    requires SameLookups(a, b, root)
    ensures Mapping(a.m, root) == Mapping(b.m, root) && Entries(a.m, root) == Entries(b.m, root)
  {
  }

  lemma FreeInMemory(allocator: FrameAllocator)
    requires allocator.Valid()
    ensures forall f | f in allocator.Free() :: f < ENTRY_FRAMES
  {
    InitListDescending(allocator.entries, allocator.mem.Length);
    forall f | f in allocator.Free()
      ensures f < ENTRY_FRAMES
    {
      assert f in Elements(InitList(allocator.entries));
    }
  }
}
