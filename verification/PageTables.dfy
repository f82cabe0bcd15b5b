/**
 The four-level page-table tree as it lies in physical memory (4-level paging, section 4.5 of
 volume 3A of the Intel SDM): reading it, and what single writes to it do to every translation.
 */
module PageTables {
  import opened Wrappers
  import opened Bits
  import opened Frames

  datatype PagingError = HugePageInPath | AlreadyMapped | NotMapped | OutOfFrames

  /** Virtual pages are keyed by bits 12 to 47 of the address. */
  const PAGES := 0x10_0000_0000
  /** Physical frames representable in an entry, bits 12 to 51. */
  const ENTRY_FRAMES := 0x100_0000_0000

  predicate Present(e: Word) {
    e % 2 == 1
  }

  predicate Huge(e: Word) {
    e / 128 % 2 == 1
  }

  /** The entry leads to a table of the next level. */
  predicate Links(e: Word) {
    Present(e) && !Huge(e)
  }

  /** The frame number in an entry, `(e & ADDR_MASK) / 4096`. */
  function FrameOf(e: Word): nat {
    e / 4096 % ENTRY_FRAMES
  }

  /** `frame | PRESENT | WRITABLE`. */
  function LinkEntry(frame: Word): Word {
    OrWord(frame, 1);
    OrWord(BitOr(frame, 1), 2);
    BitOr(BitOr(frame, 1), 2)
  }

  /** `phys | PRESENT | extra_flags`, with `phys` rounded down to its page. */
  function LeafEntry(phys: Word, extraFlags: Word): Word {
    var page := phys - phys % FRAME_SIZE;
    OrWord(page, 1);
    OrWord(BitOr(page, 1), extraFlags);
    BitOr(BitOr(page, 1), extraFlags)
  }

  /**
   A leaf entry bit by bit: present, every flag that was asked for, and the address from bit 12 on.
   This fixes the word (Bits.BitsDetermine).
   */
  ghost predicate LeafBits(e: Word, phys: Word, flags: Word) {
    forall k: nat :: BitSet(e, k) <==> k == 0 || BitSet(flags, k) || (k >= 12 && BitSet(phys, k))
  }

  /** A link bit by bit: present, writable, and the frame from bit 12 on. */
  ghost predicate LinkBits(e: Word, f: nat) {
    forall k: nat :: BitSet(e, k) <==> k == 0 || k == 1 || (k >= 12 && BitSet(f, k - 12))
  }

  lemma LeafEntryBits(phys: Word, extraFlags: Word)
    ensures LeafBits(LeafEntry(phys, extraFlags), phys, extraFlags)
  {
    var page := phys - phys % FRAME_SIZE;
    OrWord(page, 1);
    forall k: nat
      ensures BitSet(LeafEntry(phys, extraFlags), k) <==> k == 0 || BitSet(extraFlags, k) || (k >= 12 && BitSet(phys, k))
    {
      OrBit(BitOr(page, 1), extraFlags, k);
      OrBit(page, 1, k);
      FlagBit(k);
      RoundedBit(phys, k);
    }
  }

  lemma LinkEntryBits(f: nat)
    requires f < ENTRY_FRAMES
    ensures LinkBits(LinkEntry(FRAME_SIZE * f), f)
  {
    OrWord(FRAME_SIZE * f, 1);
    forall k: nat
      ensures BitSet(LinkEntry(FRAME_SIZE * f), k) <==> k == 0 || k == 1 || (k >= 12 && BitSet(f, k - 12))
    {
      OrBit(BitOr(FRAME_SIZE * f, 1), 2, k);
      OrBit(FRAME_SIZE * f, 1, k);
      FlagBit(k);
      if k < 12 {
        LowBits(f, k);
      } else {
        PageBit(FRAME_SIZE * f, k - 12);
        assert FRAME_SIZE * f / 4096 == f;
      }
    }
  }

  /** Present is bit 0 and huge is bit 7. */
  lemma EntryFlags(e: Word)
    ensures Present(e) <==> BitSet(e, 0)
    ensures Huge(e) <==> BitSet(e, 7)
  {
    NibbleBit(e, 3);
    var b := e / 16;
    assert BitSet(b, 3) == BitSet(b / 2, 2) == BitSet(b / 2 / 2, 1) == BitSet(b / 2 / 2 / 2, 0);
    assert b / 2 / 2 / 2 == e / 128;
  }

  /** The bits of a leaf determine it. */
  lemma LeafIsEntry(e: Word, phys: Word, flags: Word)
    requires LeafBits(e, phys, flags)
    ensures e == LeafEntry(phys, flags)
  {
    LeafEntryBits(phys, flags);
    BitsDetermine(e, LeafEntry(phys, flags));
  }

  lemma OrFields(a: Word, b: Word)
    ensures BitOr(a, b) % 2 == 1 <==> a % 2 == 1 || b % 2 == 1
    ensures BitOr(a, b) / 128 % 2 == 1 <==> a / 128 % 2 == 1 || b / 128 % 2 == 1
    ensures BitOr(a, b) / 4096 % ENTRY_FRAMES == BitOr(FrameOf(a), FrameOf(b))
  {
    FieldValues(a);
    FieldValues(b);
    FieldValues(BitOr(a, b));
    OrShift(a, b, 7);
    OrParity(a / 128, b / 128);
    OrParity(a, b);
    OrShift(a, b, 12);
    OrLow(a / 4096, b / 4096, 40);
    FieldValues(a / 4096);
    FieldValues(b / 4096);
    FieldValues(BitOr(a / 4096, b / 4096));
  }

  lemma OrParity(a: nat, b: nat)
    ensures BitOr(a, b) % 2 == 1 <==> a % 2 == 1 || b % 2 == 1
  {
    if a != 0 || b != 0 {
      var rest := BitOr(a / 2, b / 2);
      assert BitOr(a, b) == 2 * rest + (if a % 2 == 1 || b % 2 == 1 then 1 else 0);
      Parity(rest);
    }
  }

  lemma Parity(n: nat)
    ensures 2 * n % 2 == 0 && (2 * n + 1) % 2 == 1
  {
  }

  lemma FrameAddress(f: nat)
    requires f < ENTRY_FRAMES
    ensures FrameOf(FRAME_SIZE * f) == f && !Huge(FRAME_SIZE * f)
    ensures FrameOf(1) == 0 && FrameOf(2) == 0 && !Huge(1) && !Huge(2)
  {
    assert FRAME_SIZE * f / 128 == 32 * f;
  }

  /** A freshly made link is present, not huge, and names exactly its frame. */
  lemma LinkEntryFields(f: nat)
    requires f < ENTRY_FRAMES
    ensures Links(LinkEntry(FRAME_SIZE * f)) && FrameOf(LinkEntry(FRAME_SIZE * f)) == f
  {
    FrameAddress(f);
    FlagFields(FRAME_SIZE * f, 1);
    FlagFields(BitOr(FRAME_SIZE * f, 1), 2);
  }

  /** Or with flags outside the frame field keeps the frame. */
  lemma FlagFields(a: Word, flags: Word)
    ensures BitOr(a, flags) < 0x1_0000_0000_0000_0000
    ensures FrameOf(flags) == 0 ==> FrameOf(BitOr(a, flags)) == FrameOf(a)
    ensures Huge(BitOr(a, flags)) <==> Huge(a) || Huge(flags)
    ensures Present(BitOr(a, flags)) <==> Present(a) || Present(flags)
    ensures FrameOf(BitOr(a, flags)) == BitOr(FrameOf(a), FrameOf(flags))
  {
    OrWord(a, flags);
    OrFields(a, flags);
    OrZero(FrameOf(a));
  }

  lemma RoundDown(phys: Word)
    ensures FrameOf(phys - phys % FRAME_SIZE) == FrameOf(phys)
    ensures phys < 0x10_0000_0000_0000 ==> FrameOf(phys) == phys / FRAME_SIZE
  {
    assert (phys - phys % FRAME_SIZE) / FRAME_SIZE == phys / FRAME_SIZE;
  }

  /** A leaf is present and names the or of the two frame fields: flags with address bits would corrupt it. */
  lemma LeafEntryFields(phys: Word, extraFlags: Word)
    ensures Present(LeafEntry(phys, extraFlags))
    ensures FrameOf(LeafEntry(phys, extraFlags)) == BitOr(FrameOf(phys), FrameOf(extraFlags))
    ensures phys < 0x10_0000_0000_0000 && FrameOf(extraFlags) == 0 ==>
              FrameOf(LeafEntry(phys, extraFlags)) == phys / FRAME_SIZE
  {
    RoundDown(phys);
    PresentFields(phys - phys % FRAME_SIZE);
    FlagFields(BitOr(phys - phys % FRAME_SIZE, 1), extraFlags);
    OrZero(FrameOf(phys));
  }

  /** Setting the present bit keeps the frame. */
  lemma PresentFields(page: Word)
    ensures BitOr(page, 1) < 0x1_0000_0000_0000_0000
    ensures Present(BitOr(page, 1)) && FrameOf(BitOr(page, 1)) == FrameOf(page)
  {
    FrameAddress(0);
    FlagFields(page, 1);
  }

  /** The leaf names the requested frame exactly if it fits in 52 bits and the flags add no address bit to it. */
  lemma LeafFrameExact(phys: Word, extraFlags: Word)
    ensures FrameOf(LeafEntry(phys, extraFlags)) == phys / FRAME_SIZE <==>
            phys < 0x10_0000_0000_0000 && BitOr(FrameOf(phys), FrameOf(extraFlags)) == FrameOf(phys)
  {
    LeafEntryFields(phys, extraFlags);
    RoundDown(phys);
  }

  /** Page 0 mapped with address bit 12 among the flags names frame 1 instead. */
  lemma LeafFrameWrong()
    ensures FrameOf(LeafEntry(0, 0x1000)) == 1
  {
    LeafEntryFields(0, 0x1000);
    ZeroOrOne();
  }

  lemma ZeroOrOne()
    ensures BitOr(0, 1) == 1 && FrameOf(0) == 0 && FrameOf(0x1000) == 1
  {
  }

  /** A node of the tree, as the sequence of entry indices that leads to it. */
  datatype Path = Root | Sub(up: Path, i: nat)

  ghost function Depth(p: Path): nat {
    match p
    case Root => 0
    case Sub(q, _) => Depth(q) + 1
  }

  ghost predicate Indexed(p: Path) {
    p.Sub? ==> p.i < WORDS && Indexed(p.up)
  }

  /** Entry i of the table in frame f. */
  function Read(m: seq<Word>, f: nat, i: nat): Word {
    if WORDS * f + i < |m| then m[WORDS * f + i] else 0
  }

  /** `next_table_existing`. */
  function Next(e: Word): Result<nat, PagingError> {
    if !Present(e) then Err(NotMapped)
    else if Huge(e) then Err(HugePageInPath)
    else Ok(FrameOf(e))
  }

  /** The frame of the table at the end of a path. */
  function Walk(m: seq<Word>, root: nat, p: Path): Result<nat, PagingError> {
    match p
    case Root => Ok(root)
    case Sub(q, i) =>
      match Walk(m, root, q)
      case Err(e) => Err(e)
      case Ok(f) => Next(Read(m, f, i))
  }

  /** Somewhere on the path an existing table holds an entry with the huge bit, present or not. */
  ghost predicate Blocked(m: seq<Word>, root: nat, p: Path) {
    p.Sub? && (Blocked(m, root, p.up) || (Walk(m, root, p.up).Ok? && Huge(Read(m, Walk(m, root, p.up).value, p.i))))
  }

  /** How many tables of the path do not exist yet. */
  ghost function Missing(m: seq<Word>, root: nat, p: Path): nat {
    if Walk(m, root, p).Ok? || p.Root? then 0 else 1 + Missing(m, root, p.up)
  }

  function PageOf(virt: Word): nat {
    virt / FRAME_SIZE % PAGES
  }

  lemma PageOfAligned(virt: Word)
    ensures PageOf(virt - virt % FRAME_SIZE) == PageOf(virt)
  {
    assert (virt - virt % FRAME_SIZE) / FRAME_SIZE == virt / FRAME_SIZE;
  }

  /** The page table responsible for a page, and the index of its entry there. */
  function TablePath(page: nat): Path {
    Sub(Sub(Sub(Root, page / 0x800_0000), page / 0x4_0000 % 512), page / 512 % 512)
  }

  function LeafIndex(page: nat): nat {
    page % 512
  }

  /** `table_indices`. */
  function TableIndices(virt: Word): (nat, nat, nat, nat) {
    (virt / 0x80_0000_0000 % 512, virt / 0x4000_0000 % 512, virt / 0x20_0000 % 512, virt / 0x1000 % 512)
  }

  /** The four indices of an address are those of its page, and they determine the page. */
  lemma IndicesOfPage(virt: Word)
    ensures var (a, b, c, d) := TableIndices(virt);
            && TablePath(PageOf(virt)) == Sub(Sub(Sub(Root, a), b), c)
            && LeafIndex(PageOf(virt)) == d
            && PageOf(virt) == a * 0x800_0000 + b * 0x4_0000 + c * 512 + d
  {
    var w := virt / 0x1000;
    var x := w / 512;
    var y := x / 512;
    var z := y / 512;
    assert virt / 0x20_0000 == x && virt / 0x4000_0000 == y && virt / 0x80_0000_0000 == z;
    IndexSums(w, x, y, z);
  }

  /** Splitting a page number into its four 9-bit fields. */
  lemma IndexSums(w: nat, x: nat, y: nat, z: nat)
    requires x == w / 512 && y == x / 512 && z == y / 512
    ensures var page := w % PAGES;
            && page / 0x800_0000 == z % 512 && page / 0x4_0000 % 512 == y % 512
            && page / 512 % 512 == x % 512 && page % 512 == w % 512
            && page == z % 512 * 0x800_0000 + y % 512 * 0x4_0000 + x % 512 * 512 + w % 512
  {
    var a, b, c, d := z % 512, y % 512, x % 512, w % 512;
    Combine(a, b, c, d);
    assert w == 512 * x + d && x == 512 * y + c && y == 512 * z + b && z == 512 * (z / 512) + a;
    WholePages(w, z / 512, a * 0x800_0000 + b * 0x4_0000 + c * 512 + d);
  }

  lemma Combine(a: nat, b: nat, c: nat, d: nat)
    requires a < 512 && b < 512 && c < 512 && d < 512
    ensures var page := a * 0x800_0000 + b * 0x4_0000 + c * 512 + d;
            page < PAGES && page / 0x800_0000 == a && page / 0x4_0000 % 512 == b && page / 512 % 512 == c && page % 512 == d
  {
    var page := a * 0x800_0000 + b * 0x4_0000 + c * 512 + d;
    assert page / 512 == a * 0x4_0000 + b * 512 + c;
    assert page / 0x4_0000 == a * 512 + b;
  }

  lemma WholePages(w: nat, q: nat, page: nat)
    requires page < PAGES && w == PAGES * q + page
    ensures w % PAGES == page
  {
  }

  /** The page a table and an index in it stand for. */
  ghost function PageNumber(p: Path, i: nat): nat {
    match p
    case Sub(Sub(Sub(Root, a), b), c) => a * 0x800_0000 + b * 0x4_0000 + c * 512 + i
    case _ => 0
  }

  lemma PageSum(p: nat)
    requires p < PAGES
    ensures p / 0x800_0000 * 0x800_0000 + p / 0x4_0000 % 512 * 0x4_0000 + p / 512 % 512 * 512 + p % 512 == p
  {
    assert p % PAGES == p;
    IndexSums(p, p / 512, p / 512 / 512, p / 512 / 512 / 512);
  }

  lemma PageDetermined(p: nat)
    requires p < PAGES
    ensures PageNumber(TablePath(p), LeafIndex(p)) == p
    ensures Indexed(TablePath(p)) && Depth(TablePath(p)) == 3 && LeafIndex(p) < WORDS
  {
    PageSum(p);
    var q := Sub(Root, p / 0x800_0000);
    var r := Sub(q, p / 0x4_0000 % 512);
    assert Indexed(q) && Indexed(r);
    assert Depth(q) == 1;
    assert Depth(r) == Depth(q) + 1;
  }

  /** The frame a page is mapped to. */
  function Lookup(m: seq<Word>, root: nat, page: nat): Result<Word, PagingError> {
    match Walk(m, root, TablePath(page))
    case Err(e) => Err(e)
    case Ok(f) =>
      var e := Read(m, f, LeafIndex(page));
      if Present(e) then Ok(e) else Err(NotMapped)
  }

  /** The address space as a plain map from pages to their leaf entries, frame and flags in one word. */
  ghost function Entries(m: seq<Word>, root: nat): map<nat, Word> {
    map page: nat | page < PAGES && Lookup(m, root, page).Ok? :: Lookup(m, root, page).value
  }

  /** The same as a plain map from pages to frames. */
  ghost function Mapping(m: seq<Word>, root: nat): map<nat, nat> {
    map page: nat | page < PAGES && Lookup(m, root, page).Ok? :: FrameOf(Lookup(m, root, page).value)
  }

  /** Both maps know the same pages, and the frame is the one in the entry. */
  lemma SameKeys(m: seq<Word>, root: nat)
    ensures Entries(m, root).Keys == Mapping(m, root).Keys
    ensures forall q | q in Mapping(m, root) :: Mapping(m, root)[q] == FrameOf(Entries(m, root)[q])
  {
  }

  /** The live tables, each with its frame, form a tree of distinct frames rooted at `root`. */
  ghost predicate Tree(m: seq<Word>, root: nat, tables: map<Path, nat>) {
    && Root in tables && tables[Root] == root
    && (forall p | p in tables :: WORDS * tables[p] + WORDS <= |m|)
    && (forall p, q | p in tables && q in tables && p != q :: tables[p] != tables[q])
    && (forall p, i: nat {:trigger Sub(p, i)} | Sub(p, i) in tables :: p in tables && i < WORDS && Depth(p) < 3)
    && (forall p, i: nat {:trigger Sub(p, i)} | p in tables && i < WORDS && Depth(p) < 3 ::
          && (Links(Read(m, tables[p], i)) <==> Sub(p, i) in tables)
          && (Sub(p, i) in tables ==> tables[Sub(p, i)] == FrameOf(Read(m, tables[p], i))))
  }

  /** Walking memory finds exactly the live tables. */
  lemma {:induction false} WalkTree(m: seq<Word>, root: nat, tables: map<Path, nat>, p: Path)
    requires Tree(m, root, tables) && Indexed(p) && Depth(p) <= 3
    ensures Walk(m, root, p).Ok? <==> p in tables
    ensures p in tables ==> Walk(m, root, p).value == tables[p]
  {
    match p
    case Root =>
    case Sub(q, i) => WalkTree(m, root, tables, q);
  }

  /** One zeroed table is a tree that maps nothing: the invariant can be met from scratch. */
  lemma EmptyTree(m: seq<Word>, root: nat)
    requires ZeroedFrame(m, root)
    ensures Tree(m, root, map[Root := root]) && Mapping(m, root) == map[]
  {
    forall i: nat | i < WORDS
      ensures Read(m, root, i) == 0
    {
      assert (WORDS * root + i) / WORDS == root;
    }
    forall page: nat | page < PAGES
      ensures Lookup(m, root, page).Err?
    {
      PageDetermined(page);
      WalkTree(m, root, map[Root := root], TablePath(page));
    }
  }

  /** m' agrees with m on every word of a live table. */
  ghost predicate SameTables(m: seq<Word>, m': seq<Word>, tables: map<Path, nat>) {
    forall p, i: nat | p in tables && i < WORDS :: Read(m', tables[p], i) == Read(m, tables[p], i)
  }

  /** Writes outside the live tables change no walk. */
  lemma {:induction false} WalkFrame(m: seq<Word>, m': seq<Word>, root: nat, tables: map<Path, nat>, p: Path)
    requires Tree(m, root, tables) && Indexed(p) && Depth(p) <= 3
    requires SameTables(m, m', tables)
    ensures Walk(m', root, p) == Walk(m, root, p)
    ensures Blocked(m', root, p) == Blocked(m, root, p)
  {
    match p
    case Root =>
    case Sub(q, i) =>
      WalkFrame(m, m', root, tables, q);
      WalkTree(m, root, tables, q);
      if q in tables {
        assert Read(m', tables[q], i) == Read(m, tables[q], i);
      }
  }

  lemma TreeFrame(m: seq<Word>, m': seq<Word>, root: nat, tables: map<Path, nat>)
    requires Tree(m, root, tables) && SameTables(m, m', tables) && |m'| == |m|
    ensures Tree(m', root, tables)
  {
    forall p, i: nat {:trigger Sub(p, i)} | p in tables && i < WORDS && Depth(p) < 3
      ensures Read(m', tables[p], i) == Read(m, tables[p], i)
    {
    }
  }

  /** Memory after writing entry i of the table in frame f. */
  ghost function WriteEntry(m: seq<Word>, f: nat, i: nat, e: Word): (m': seq<Word>)
    requires i < WORDS && WORDS * f + WORDS <= |m|
    ensures |m'| == |m| && Read(m', f, i) == e
    ensures forall g, j: nat | j < WORDS && (g != f || j != i) :: Read(m', g, j) == Read(m, g, j)
  {
    m[WORDS * f + i := e]
  }

  /** The path q passes through (or ends at) s. */
  ghost predicate Through(q: Path, s: Path) {
    q == s || (q.Sub? && Through(q.up, s))
  }

  /** On the way to q, entry i of the live table at p lacks bit 0, or has it and bit 7 as well. */
  ghost predicate StopsAt(m: seq<Word>, tables: map<Path, nat>, q: Path, p: Path, i: nat, huge: bool) {
    && p in tables && Through(q, Sub(p, i))
    && if huge then BitSet(Read(m, tables[p], i), 0) && BitSet(Read(m, tables[p], i), 7) else !BitSet(Read(m, tables[p], i), 0)
  }

  /** A walk fails exactly at the one entry on its way that is absent or huge; if it is both, it counts as absent. */
  lemma {:induction false} WalkError(m: seq<Word>, root: nat, tables: map<Path, nat>, q: Path)
    requires Tree(m, root, tables) && Indexed(q) && Depth(q) <= 3
    ensures Walk(m, root, q) == Err(NotMapped) <==> exists p, i: nat :: StopsAt(m, tables, q, p, i, false)
    ensures Walk(m, root, q) == Err(HugePageInPath) <==> exists p, i: nat :: StopsAt(m, tables, q, p, i, true)
    ensures Walk(m, root, q).Err? ==> Walk(m, root, q) in {Err(NotMapped), Err(HugePageInPath)}
  {
    if q.Sub? {
      WalkError(m, root, tables, q.up);
      WalkTree(m, root, tables, q.up);
      StopsBelow(m, tables, q, false);
      StopsBelow(m, tables, q, true);
      if q.up in tables {
        EntryFlags(Read(m, tables[q.up], q.i));
      }
    }
  }

  lemma StopsBelow(m: seq<Word>, tables: map<Path, nat>, q: Path, huge: bool)
    requires q.Sub?
    ensures (exists p, i: nat :: StopsAt(m, tables, q, p, i, huge)) <==>
            (exists p, i: nat :: StopsAt(m, tables, q.up, p, i, huge)) || StopsAt(m, tables, q, q.up, q.i, huge)
  {
    forall p, i: nat
      ensures StopsAt(m, tables, q, p, i, huge) <==> StopsAt(m, tables, q.up, p, i, huge) || (p == q.up && i == q.i && StopsAt(m, tables, q, p, i, huge))
    {
    }
  }

  lemma {:induction false} ThroughDepth(q: Path, s: Path)
    requires Through(q, s)
    ensures Depth(s) <= Depth(q) && (Depth(s) == Depth(q) ==> q == s)
  {
    if q != s {
      ThroughDepth(q.up, s);
    }
  }

  /** A zeroed frame outside the tree can be linked at an entry that is neither present nor huge. */
  ghost predicate Linkable(m: seq<Word>, root: nat, tables: map<Path, nat>, p: Path, i: nat, f: nat) {
    && Tree(m, root, tables) && p in tables && Indexed(p) && Depth(p) < 3 && i < WORDS
    && !Present(Read(m, tables[p], i)) && !Huge(Read(m, tables[p], i))
    && f < ENTRY_FRAMES && ZeroedFrame(m, f) && f !in tables.Values
  }

  /** What linking a new table does to the walk along any path: the path that ends there now succeeds, no other changes. */
  lemma {:induction false} LinkWalk(m: seq<Word>, root: nat, tables: map<Path, nat>, p: Path, i: nat, f: nat, q: Path)
    requires Linkable(m, root, tables, p, i, f) && Indexed(q) && Depth(q) <= 3
    ensures var m' := WriteEntry(m, tables[p], i, LinkEntry(FRAME_SIZE * f));
            && (Through(q, Sub(p, i)) ==> Walk(m, root, q) == Err(NotMapped))
            && Walk(m', root, q) == (if q == Sub(p, i) then Ok(f) else Walk(m, root, q))
            && Blocked(m', root, q) == Blocked(m, root, q)
  {
    var m' := WriteEntry(m, tables[p], i, LinkEntry(FRAME_SIZE * f));
    WalkTree(m, root, tables, p);
    match q
    case Root =>
    case Sub(r, j) =>
      LinkWalk(m, root, tables, p, i, f, r);
      WalkTree(m, root, tables, r);
      LinkEntryFields(f);
      if r == Sub(p, i) {
        assert Read(m', f, j) == Read(m, f, j) == 0;
      } else if r in tables {
        assert r != p ==> tables[r] != tables[p];
      }
  }

  /** The tree gains exactly the new table. */
  lemma LinkTree(m: seq<Word>, root: nat, tables: map<Path, nat>, p: Path, i: nat, f: nat)
    requires Linkable(m, root, tables, p, i, f)
    ensures Tree(WriteEntry(m, tables[p], i, LinkEntry(FRAME_SIZE * f)), root, tables[Sub(p, i) := f])
    ensures Sub(p, i) !in tables
  {
    var s := Sub(p, i);
    var m', t := WriteEntry(m, tables[p], i, LinkEntry(FRAME_SIZE * f)), tables[s := f];
    LinkEntryFields(f);
    assert s !in tables;
    forall q | q in tables
      ensures tables[q] != f && q != s
    {
      assert tables[q] in tables.Values;
    }
    forall q, j: nat {:trigger Sub(q, j)} | q in t && j < WORDS && Depth(q) < 3
      ensures Links(Read(m', t[q], j)) <==> Sub(q, j) in t
      ensures Sub(q, j) in t ==> t[Sub(q, j)] == FrameOf(Read(m', t[q], j))
    {
      if q == s {
        assert Read(m', f, j) == Read(m, f, j) == 0;
        assert Sub(s, j) !in tables;
      } else if q != p {
        assert tables[q] != tables[p];
      }
    }
  }

  /** Linking an empty table changes no translation, not even the error reported. */
  lemma LinkLookup(m: seq<Word>, root: nat, tables: map<Path, nat>, p: Path, i: nat, f: nat, page: nat)
    requires Linkable(m, root, tables, p, i, f) && page < PAGES
    ensures Lookup(WriteEntry(m, tables[p], i, LinkEntry(FRAME_SIZE * f)), root, page) == Lookup(m, root, page)
  {
    var m' := WriteEntry(m, tables[p], i, LinkEntry(FRAME_SIZE * f));
    var q := TablePath(page);
    PageDetermined(page);
    LinkWalk(m, root, tables, p, i, f, q);
    WalkTree(m, root, tables, q);
    if q == Sub(p, i) {
      assert Read(m', f, LeafIndex(page)) == Read(m, f, LeafIndex(page)) == 0;
    } else if q in tables {
      assert q != p;
    }
  }

  /** The number of missing tables falls by one for the paths through the new table. */
  lemma {:induction false} LinkMissing(m: seq<Word>, root: nat, tables: map<Path, nat>, p: Path, i: nat, f: nat, q: Path)
    requires Linkable(m, root, tables, p, i, f) && Indexed(q) && Depth(q) <= 3
    ensures var m' := WriteEntry(m, tables[p], i, LinkEntry(FRAME_SIZE * f));
            Missing(m', root, q) == Missing(m, root, q) - (if Through(q, Sub(p, i)) then 1 else 0)
  {
    LinkWalk(m, root, tables, p, i, f, q);
    WalkTree(m, root, tables, q);
    WalkTree(m, root, tables, p);
    match q
    case Root =>
    case Sub(r, j) =>
      LinkMissing(m, root, tables, p, i, f, r);
      if q in tables && Through(q, Sub(p, i)) {
        assert false;
      }
      if q == Sub(p, i) && Through(r, q) {
        ThroughDepth(r, q);
        assert false;
      }
  }

  /** Writing a leaf entry keeps the tree and every walk. */
  lemma {:induction false} LeafWalk(m: seq<Word>, root: nat, tables: map<Path, nat>, p: Path, i: nat, e: Word, q: Path)
    requires Tree(m, root, tables) && p in tables && Depth(p) == 3 && i < WORDS && Indexed(q) && Depth(q) <= 3
    ensures Walk(WriteEntry(m, tables[p], i, e), root, q) == Walk(m, root, q)
    ensures Blocked(WriteEntry(m, tables[p], i, e), root, q) == Blocked(m, root, q)
  {
    match q
    case Root =>
    case Sub(r, j) =>
      LeafWalk(m, root, tables, p, i, e, r);
      WalkTree(m, root, tables, r);
      if r in tables {
        assert r != p && tables[r] != tables[p];
      }
  }

  lemma LeafTree(m: seq<Word>, root: nat, tables: map<Path, nat>, p: Path, i: nat, e: Word)
    requires Tree(m, root, tables) && p in tables && Depth(p) == 3 && i < WORDS
    ensures Tree(WriteEntry(m, tables[p], i, e), root, tables)
  {
    var m' := WriteEntry(m, tables[p], i, e);
    forall q, j: nat {:trigger Sub(q, j)} | q in tables && j < WORDS && Depth(q) < 3
      ensures Read(m', tables[q], j) == Read(m, tables[q], j)
    {
      assert tables[q] != tables[p];
    }
  }

  /** Writing a leaf entry changes the translation of its own page and of no other. */
  lemma LeafLookup(m: seq<Word>, root: nat, tables: map<Path, nat>, page: nat, e: Word, other: nat)
    requires Tree(m, root, tables) && page < PAGES && TablePath(page) in tables && other < PAGES
    ensures LeafIndex(page) < WORDS && Depth(TablePath(page)) == 3
    ensures var m' := WriteEntry(m, tables[TablePath(page)], LeafIndex(page), e);
            Lookup(m', root, other) ==
              if other != page then Lookup(m, root, other)
              else if Present(e) then Ok(e) else Err(NotMapped)
  {
    PageDetermined(page);
    PageDetermined(other);
    var p, q := TablePath(page), TablePath(other);
    LeafWalk(m, root, tables, p, LeafIndex(page), e, q);
    WalkTree(m, root, tables, q);
    if q in tables && q != p {
      assert tables[q] != tables[p];
    }
  }

  /** From m to m' only the translation of one page changed, to what the entry e says. */
  ghost predicate OnePageChanged(m: seq<Word>, m': seq<Word>, root: nat, page: nat, e: Word) {
    forall other: nat | other < PAGES ::
      Lookup(m', root, other) ==
        if other != page then Lookup(m, root, other)
        else if Present(e) then Ok(e) else Err(NotMapped)
  }

  lemma ChangedMapping(m: seq<Word>, m': seq<Word>, root: nat, page: nat, e: Word)
    requires page < PAGES && OnePageChanged(m, m', root, page, e)
    ensures Mapping(m', root) == if Present(e) then Mapping(m, root)[page := FrameOf(e)] else Mapping(m, root) - {page}
  {
  }

  lemma ChangedEntries(m: seq<Word>, m': seq<Word>, root: nat, page: nat, e: Word)
    requires page < PAGES && OnePageChanged(m, m', root, page, e)
    ensures Entries(m', root) == if Present(e) then Entries(m, root)[page := e] else Entries(m, root) - {page}
  {
  }

  /** The mapping after a leaf write: one page set or removed. */
  lemma LeafMapping(m: seq<Word>, root: nat, tables: map<Path, nat>, page: nat, e: Word)
    requires Tree(m, root, tables) && page < PAGES && TablePath(page) in tables
    ensures LeafIndex(page) < WORDS
    ensures var m' := WriteEntry(m, tables[TablePath(page)], LeafIndex(page), e);
            && Tree(m', root, tables)
            && Mapping(m', root) == (if Present(e) then Mapping(m, root)[page := FrameOf(e)] else Mapping(m, root) - {page})
            && Entries(m', root) == (if Present(e) then Entries(m, root)[page := e] else Entries(m, root) - {page})
  {
    PageDetermined(page);
    LeafTree(m, root, tables, TablePath(page), LeafIndex(page), e);
    var m' := WriteEntry(m, tables[TablePath(page)], LeafIndex(page), e);
    assert OnePageChanged(m, m', root, page, e) by {
      forall other: nat | other < PAGES
        ensures Lookup(m', root, other) ==
                  if other != page then Lookup(m, root, other)
                  else if Present(e) then Ok(e) else Err(NotMapped)
      {
        LeafLookup(m, root, tables, page, e, other);
      }
    }
    ChangedMapping(m, m', root, page, e);
    ChangedEntries(m, m', root, page, e);
  }
}
