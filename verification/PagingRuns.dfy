/**
 Whole runs of the memory subsystem against a plain map of pages to leaf entries, a plain free list and the frames
 held by callers.
 */
module PagingRuns {
  import opened Wrappers
  import opened Bits
  import opened Frames
  import opened PageTables
  import opened Paging

  /** One call into the memory subsystem; GiveBack frees the k-th frame the caller holds. */
  datatype Call = Map(virt: Word, phys: Word, flags: Word) | Unmap(virt: Word) | Take | GiveBack(k: nat)

  datatype Answer = Mapped(m: Result<(), PagingError>) | Unmapped(u: Result<Word, PagingError>) | Taken(f: Option<Word>) | Returned

  /**
   The abstract state: the mapped pages with their leaf entries, the pages behind huge entries, the free
   list and the frames held by callers, in frame numbers.
   */
  datatype Abstract = Abstract(pages: map<nat, Word>, blocked: set<nat>, free: seq<nat>, held: seq<nat>)

  /** The page of v is entered for address p with flags x, and nothing else changes. */
  ghost predicate Enters(pages: map<nat, Word>, v: Word, p: Word, x: Word, pages': map<nat, Word>) {
    PageOf(v) in pages' && LeafBits(pages'[PageOf(v)], p, x) && pages' == pages[PageOf(v) := pages'[PageOf(v)]]
  }

  /** Blocked and mapped pages are refused, and nothing else while three frames are free. */
  ghost predicate MapStep(s: Abstract, v: Word, p: Word, x: Word, r: Result<(), PagingError>, t: Abstract) {
    && t.held == s.held
    && |t.free| <= |s.free| <= |t.free| + 3 && t.free == s.free[|s.free| - |t.free|..]
    && (if r.Ok? then Enters(s.pages, v, p, x, t.pages) else t.pages == s.pages)
    && (r == Err(AlreadyMapped) <==> PageOf(v) in s.pages)
    && (r == Err(HugePageInPath) <==> PageOf(v) in s.blocked)
    && (r.Err? && r != Err(OutOfFrames) ==> t == s)
    && (r == Err(OutOfFrames) ==> t.free == [] && |s.free| < 3)
    && r != Err(NotMapped)
  }

  /** What a call may answer and do to the abstract state. */
  ghost predicate Step(s: Abstract, c: Call, a: Answer, t: Abstract) {
    t.blocked == s.blocked &&
    match c
    case Map(v, p, x) => a.Mapped? && MapStep(s, v, p, x, a.m, t)
    case Unmap(v) =>
      && a.Unmapped? && t.free == s.free && t.held == s.held
      && (a.u.Ok? <==> PageOf(v) in s.pages)
      && (a.u.Ok? ==> a.u.value == FRAME_SIZE * FrameOf(s.pages[PageOf(v)]))
      && t.pages == (if a.u.Ok? then s.pages - {PageOf(v)} else s.pages)
    case Take =>
      && a.Taken? && t.pages == s.pages
      && a.f == (if s.free == [] then None else Some(FRAME_SIZE * s.free[0]))
      && (if s.free == [] then t == s else t.free == s.free[1..] && t.held == s.held + [s.free[0]])
    case GiveBack(k) =>
      && a == Returned && t.pages == s.pages
      && (if k < |s.held| then t.free == [s.held[k]] + s.free && t.held == s.held[..k] + s.held[k + 1..] else t == s)
  }

  /** The concrete space represents s: no held frame is free, a live table, or held twice. */
  ghost predicate Represents(space: AddressSpace, s: Abstract)
    reads space, space.allocator, space.allocator.mem
  {
    && space.Valid()
    && s.pages == space.EntryMap() && s.blocked == BlockedPages(space.allocator.mem[..], space.root) && s.free == space.allocator.Free()
    && NoDuplicates(s.held)
    && (forall k | 0 <= k < |s.held| :: s.held[k] in space.allocator.taken)
    && Apart(space.tables, s.held)
  }

  /** Free frames, held frames and frames turned into tables: their total never changes. */
  ghost function FrameTotal(s: Abstract, tables: map<Path, nat>): nat {
    |s.free| + |s.held| + |tables|
  }

  /** A free list that only shrank from the front leaves every held frame taken and clear of the new tables. */
  lemma HeldKept(usable: set<nat>, free: seq<nat>, taken: set<nat>, tables: map<Path, nat>,
                 free': seq<nat>, taken': set<nat>, tables': map<Path, nat>, held: seq<nat>)
    requires taken + Elements(free) == usable == taken' + Elements(free') && taken !! Elements(free)
    requires Extended(free, tables, free', tables')
    requires Apart(tables, held) && forall k | 0 <= k < |held| :: held[k] in taken
    ensures Apart(tables', held) && forall k | 0 <= k < |held| :: held[k] in taken'
  {
    var n := |free| - |free'|;
    forall f | f in held
      ensures f in taken' && f !in free[..n]
    {
      assert f !in Elements(free) && f in usable;
      assert forall g | g in free' :: g in free;
      assert forall g | g in free[..n] :: g in free;
    }
    forall p | p in tables'
      ensures tables'[p] !in held
    {
      assert GrownAt(tables, tables', free[..n], p);
    }
  }

  method DoMap(space: AddressSpace, v: Word, p: Word, x: Word, ghost s: Abstract) returns (r: Result<(), PagingError>, ghost t: Abstract)
    requires Represents(space, s)
    modifies space, space.allocator, space.allocator.mem
    ensures Represents(space, t) && MapStep(s, v, p, x, r, t) && t.blocked == s.blocked
    ensures FrameTotal(t, space.tables) == FrameTotal(s, old(space.tables))
  {
    ghost var usable := Elements(InitList(space.allocator.entries));
    ghost var a, taken := space.State(), space.allocator.taken;
    OutcomeMeaning(a.m, space.root, |s.free|, PageOf(v));
    r := space.MapPage(v, p, x);
    t := Abstract(space.EntryMap(), s.blocked, space.allocator.Free(), s.held);
    HeldKept(usable, s.free, taken, a.tables, t.free, space.allocator.taken, space.tables, s.held);
    if r.Err? {
      SameMapping(a, space.State(), space.root);
    }
  }

  method DoUnmap(space: AddressSpace, v: Word, ghost s: Abstract) returns (r: Result<Word, PagingError>, ghost t: Abstract)
    requires Represents(space, s)
    modifies space.allocator.mem
    ensures Represents(space, t) && Step(s, Unmap(v), Unmapped(r), t)
    ensures space.tables == old(space.tables) && FrameTotal(t, space.tables) == FrameTotal(s, space.tables)
  {
    r := space.UnmapPage(v);
    t := s.(pages := space.EntryMap());
  }

  method DoTake(space: AddressSpace, ghost s: Abstract) returns (r: Option<Word>, ghost t: Abstract)
    requires Represents(space, s)
    modifies space.allocator, space.allocator.mem
    ensures Represents(space, t) && Step(s, Take, Taken(r), t)
    ensures FrameTotal(t, space.tables) == FrameTotal(s, space.tables)
  {
    ghost var m := space.allocator.mem[..];
    r := space.AllocateTable();
    FrameKeeps(m, space.allocator.mem[..], space.root, space.tables);
    t := if s.free == [] then s else s.(free := s.free[1..], held := s.held + [s.free[0]]);
    if s.free != [] {
      HoldOne(s.held, s.free, old(space.allocator.taken));
    }
  }

  /** Writes outside the live tables change neither the page map nor the blocked pages. */
  lemma FrameKeeps(m: seq<Word>, m': seq<Word>, root: nat, tables: map<Path, nat>)
    requires Tree(m, root, tables) && SameTables(m, m', tables)
    ensures Entries(m', root) == Entries(m, root) && Mapping(m', root) == Mapping(m, root)
    ensures BlockedPages(m', root) == BlockedPages(m, root)
  {
    FrameLookups(m, m', root, tables);
  }

  lemma HoldOne(held: seq<nat>, free: seq<nat>, taken: set<nat>)
    requires free != [] && NoDuplicates(held) && taken !! Elements(free) && forall k | 0 <= k < |held| :: held[k] in taken
    ensures NoDuplicates(held + [free[0]]) && free[0] in Elements(free)
    ensures forall k | 0 <= k < |held + [free[0]]| :: (held + [free[0]])[k] in taken + {free[0]}
  {
  }

  /** Frees a held frame: zeroing it and writing the next pointer into it touches no live table. */
  method ReturnFrame(space: AddressSpace, f: nat)
    requires space.Valid() && f in space.allocator.taken && forall p | p in space.tables :: space.tables[p] != f
    modifies space.allocator, space.allocator.mem
    ensures space.Valid() && space.PageMap() == old(space.PageMap()) && space.EntryMap() == old(space.EntryMap())
    ensures BlockedPages(space.allocator.mem[..], space.root) == old(BlockedPages(space.allocator.mem[..], space.root))
    ensures space.allocator.Free() == [f] + old(space.allocator.Free())
    ensures space.allocator.taken == old(space.allocator.taken) - {f}
  {
    ghost var m := space.allocator.mem[..];
    TakenInMemory(space.allocator, f);
    space.allocator.Release(FRAME_SIZE * f);
    FreeWrites(m, space.allocator.mem[..], space.root, space.tables, [f]);
    TreeFrame(m, space.allocator.mem[..], space.root, space.tables);
    FrameKeeps(m, space.allocator.mem[..], space.root, space.tables);
  }

  lemma TakenInMemory(allocator: FrameAllocator, f: nat)
    requires allocator.Valid() && f in allocator.taken
    ensures FRAME_SIZE * f < 0x1_0000_0000_0000_0000
  {
    InitListDescending(allocator.entries, allocator.mem.Length);
    assert f in Elements(InitList(allocator.entries));
  }

  method DoGiveBack(space: AddressSpace, k: nat, held: seq<nat>, ghost s: Abstract) returns (held': seq<nat>, ghost t: Abstract)
    requires Represents(space, s) && held == s.held
    modifies space.allocator, space.allocator.mem
    ensures Represents(space, t) && Step(s, GiveBack(k), Returned, t) && held' == t.held
    ensures FrameTotal(t, space.tables) == FrameTotal(s, space.tables)
  {
    held', t := held, s;
    if k < |held| {
      assert held[k] in held;
      ReturnFrame(space, held[k]);
      held' := held[..k] + held[k + 1..];
      t := s.(free := [held[k]] + s.free, held := held');
      RemoveHeld(held, k);
    }
  }

  lemma RemoveHeld(s: seq<nat>, k: nat)
    requires k < |s| && NoDuplicates(s)
    ensures var t := s[..k] + s[k + 1..];
            && NoDuplicates(t) && s[k] !in t && (forall x | x in t :: x in s) && forall i | 0 <= i < |t| :: t[i] in s
  {
    var t := s[..k] + s[k + 1..];
    assert forall i | 0 <= i < |t| :: t[i] == if i < k then s[i] else s[i + 1];
  }

  /** Every transition of the trace is a step of the plain machine. */
  ghost predicate Trace(trace: seq<Abstract>, calls: seq<Call>, answers: seq<Answer>) {
    && |calls| == |answers| && |trace| == |calls| + 1
    && forall i | 0 <= i < |calls| :: Step(trace[i], calls[i], answers[i], trace[i + 1])
  }

  /**
   Any run keeps the joint invariant and answers as the plain map of pages to frames and flags and the plain free list do;
   free, held and table frames are conserved.
   */
  method Run(space: AddressSpace, calls: seq<Call>) returns (answers: seq<Answer>, held: seq<nat>, ghost trace: seq<Abstract>)
    requires space.Valid()
    modifies space, space.allocator, space.allocator.mem
    ensures Trace(trace, calls, answers)
    ensures trace[0] == Abstract(old(space.EntryMap()), old(BlockedPages(space.allocator.mem[..], space.root)), old(space.allocator.Free()), [])
    ensures held == trace[|calls|].held && Represents(space, trace[|calls|])
    ensures |space.allocator.Free()| + |held| + |space.tables| == |old(space.allocator.Free())| + |old(space.tables)|
  {
    ghost var s := Abstract(space.EntryMap(), BlockedPages(space.allocator.mem[..], space.root), space.allocator.Free(), []);
    answers, held, trace := RunFrom(space, calls, [], s);
  }

  method RunFrom(space: AddressSpace, calls: seq<Call>, held: seq<nat>, ghost s: Abstract)
    returns (answers: seq<Answer>, held': seq<nat>, ghost trace: seq<Abstract>)
    requires Represents(space, s) && held == s.held
    modifies space, space.allocator, space.allocator.mem
    ensures Trace(trace, calls, answers) && trace[0] == s
    ensures held' == trace[|calls|].held && Represents(space, trace[|calls|])
    ensures FrameTotal(trace[|calls|], space.tables) == FrameTotal(s, old(space.tables))
    decreases |calls|
  {
    if calls == [] {
      return [], held, [s];
    }
    var answer, held1;
    ghost var t, rest;
    answer, held1, t := DoCall(space, calls[0], held, s);
    answers, held', rest := RunFrom(space, calls[1..], held1, t);
    ConsTrace(s, calls[0], answer, rest, calls[1..], answers);
    assert [calls[0]] + calls[1..] == calls;
    answers, trace := [answer] + answers, [s] + rest;
  }

  lemma ConsTrace(s: Abstract, c: Call, a: Answer, trace: seq<Abstract>, calls: seq<Call>, answers: seq<Answer>)
    requires Trace(trace, calls, answers) && Step(s, c, a, trace[0])
    ensures Trace([s] + trace, [c] + calls, [a] + answers)
  {
  }

  method DoCall(space: AddressSpace, c: Call, held: seq<nat>, ghost s: Abstract) returns (a: Answer, held': seq<nat>, ghost t: Abstract)
    requires Represents(space, s) && held == s.held
    modifies space, space.allocator, space.allocator.mem
    ensures Represents(space, t) && Step(s, c, a, t) && held' == t.held
    ensures FrameTotal(t, space.tables) == FrameTotal(s, old(space.tables))
  {
    held' := held;
    match c
    case Map(v, p, x) =>
      var r;
      r, t := DoMap(space, v, p, x, s);
      a := Mapped(r);
    case Unmap(v) =>
      var r;
      r, t := DoUnmap(space, v, s);
      a := Unmapped(r);
    case Take =>
      var r;
      r, t := DoTake(space, s);
      a := Taken(r);
      if r.Some? {
        held' := held + [r.value / FRAME_SIZE];
      }
    case GiveBack(k) =>
      held', t := DoGiveBack(space, k, held, s);
      a := Returned;
  }

  /** A map succeeds whenever the page is neither blocked nor mapped and three frames are free. */
  lemma MapSucceeds(s: Abstract, v: Word, p: Word, x: Word, a: Answer, t: Abstract)
    requires Step(s, Map(v, p, x), a, t)
    requires PageOf(v) !in s.pages && PageOf(v) !in s.blocked && |s.free| >= 3
    ensures a == Mapped(Ok(())) && Enters(s.pages, v, p, x, t.pages)
  {
    match a.m
    case Ok(done) =>
      assert done == ();
    case Err(e) =>
      match e
      case HugePageInPath =>
      case AlreadyMapped =>
      case NotMapped =>
      case OutOfFrames =>
  }

  /** Unmapping right after a successful map restores the page map, however many tables were created. */
  lemma UnmapUndoesMap(s: Abstract, v: Word, p: Word, x: Word, t: Abstract, a: Answer, u: Abstract)
    requires Step(s, Map(v, p, x), Mapped(Ok(())), t) && Step(t, Unmap(v), a, u)
    ensures u.pages == s.pages && a == Unmapped(Ok(FRAME_SIZE * FrameOf(LeafEntry(p, x))))
    ensures p < 0x10_0000_0000_0000 && FrameOf(x) == 0 ==> a == Unmapped(Ok(p - p % FRAME_SIZE))
  {
    LeafEntryFields(p, x);
    LeafIsEntry(t.pages[PageOf(v)], p, x);
    assert a.u.Ok?;
  }

  /** In any run a frame handed out is neither held by anyone else nor free. */
  lemma TakenFrameIsFresh(s: Abstract, a: Answer, t: Abstract)
    requires NoDuplicates(s.free) && NoDuplicates(s.held) && Elements(s.free) !! Elements(s.held)
    requires Step(s, Take, a, t) && a.f.Some?
    ensures a.f.value / FRAME_SIZE !in s.held && a.f.value / FRAME_SIZE !in t.free
    ensures NoDuplicates(t.held) && Elements(t.free) !! Elements(t.held)
  {
    var f := s.free[0];
    assert f in Elements(s.free);
    PopElements(s.free);
    forall i, j | 0 <= i < j < |t.held|
      ensures t.held[i] != t.held[j]
    {
      assert t.held[i] in Elements(s.held);
    }
  }
}
