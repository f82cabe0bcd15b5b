/**
 The physical frame allocator: a LIFO free list whose next pointers live in the first word
 of the free frames themselves. Frames are named by number, that is physical address / 4096.
 */
module Frames {
  import opened Wrappers
  import opened Bits

  const FRAME_SIZE := 4096
  const WORDS := 512
  const NULL_MARK: Word := 0xFFFF_FFFF_FFFF_FFFF
  /** Physical memory lies below 2^52, that is 2^49 words. */
  const MAX_WORDS := 0x2_0000_0000_0000

  datatype MemoryMapEntry = MemoryMapEntry(base: nat, length: nat, usable: bool)

  function AlignUp(addr: nat): (r: nat)
    ensures r % FRAME_SIZE == 0 && addr <= r < addr + FRAME_SIZE
  {
    (addr + FRAME_SIZE - 1) / FRAME_SIZE * FRAME_SIZE
  }

  /** Frames lo, ..., hi - 1 in the order in which a LIFO list returns them. */
  ghost function Descending(lo: nat, hi: nat): (s: seq<nat>)
    requires lo <= hi
    ensures |s| == hi - lo && forall i | 0 <= i < |s| :: s[i] == hi - 1 - i
  {
    if lo == hi then [] else [hi - 1] + Descending(lo, hi - 1)
  }

  lemma DescendingStep(lo: nat, f: nat, rest: seq<nat>)
    requires lo <= f && f !in rest
    ensures f !in Descending(lo, f) + rest
    ensures [f] + (Descending(lo, f) + rest) == Descending(lo, f + 1) + rest
  {
    assert [f] + Descending(lo, f) == Descending(lo, f + 1);
  }

  ghost function FirstFrame(e: MemoryMapEntry): nat {
    AlignUp(e.base) / FRAME_SIZE
  }

  ghost function EndFrame(e: MemoryMapEntry): nat {
    var lo, hi := FirstFrame(e), (e.base + e.length) / FRAME_SIZE;
    if hi < lo then lo else hi
  }

  /** The free list the allocator starts from, head first. */
  ghost function InitList(entries: seq<MemoryMapEntry>): seq<nat> {
    if entries == [] then []
    else
      var e := entries[|entries| - 1];
      var rest := InitList(entries[..|entries| - 1]);
      if e.usable then Descending(FirstFrame(e), EndFrame(e)) + rest else rest
  }

  /** Usable entries are sorted, disjoint and inside physical memory. */
  ghost predicate GoodMap(entries: seq<MemoryMapEntry>, words: nat) {
    && words <= MAX_WORDS
    && (forall i | 0 <= i < |entries| && entries[i].usable ::
          entries[i].base + entries[i].length <= 8 * words)
    && (forall i, j | 0 <= i < j < |entries| && entries[i].usable && entries[j].usable ::
          entries[i].base + entries[i].length <= entries[j].base)
  }

  ghost predicate StrictlyDescending(s: seq<nat>) {
    forall i, j | 0 <= i < j < |s| :: s[i] > s[j]
  }

  ghost predicate NoDuplicates(s: seq<nat>) {
    forall i, j | 0 <= i < j < |s| :: s[i] != s[j]
  }

  ghost function Elements(s: seq<nat>): set<nat> {
    set x | x in s
  }

  /** Frame f lies wholly inside a usable entry. */
  ghost predicate WhollyUsable(entries: seq<MemoryMapEntry>, f: nat) {
    exists i | 0 <= i < |entries| ::
      entries[i].usable && entries[i].base <= FRAME_SIZE * f && FRAME_SIZE * f + FRAME_SIZE <= entries[i].base + entries[i].length
  }

  lemma FrameBounds(e: MemoryMapEntry, f: nat)
    ensures FirstFrame(e) <= f < EndFrame(e) <==>
            e.base <= FRAME_SIZE * f && FRAME_SIZE * f + FRAME_SIZE <= e.base + e.length
  {
  }

  /** The initial list holds exactly the frames that lie wholly inside usable entries. */
  lemma {:induction false} InitListExact(entries: seq<MemoryMapEntry>, f: nat)
    ensures f in InitList(entries) <==> WhollyUsable(entries, f)
  {
    if entries != [] {
      var n := |entries| - 1;
      var e := entries[n];
      var rest := entries[..n];
      InitListExact(rest, f);
      FrameBounds(e, f);
      assert WhollyUsable(entries, f) <==>
        WhollyUsable(rest, f) || (e.usable && FirstFrame(e) <= f < EndFrame(e)) by {
        assert forall i | 0 <= i < n :: entries[i] == rest[i];
      }
      var d := Descending(FirstFrame(e), EndFrame(e));
      if FirstFrame(e) <= f < EndFrame(e) {
        assert d[EndFrame(e) - 1 - f] == f;
      }
      assert f in d <==> FirstFrame(e) <= f < EndFrame(e);
    }
  }

  /** For a good map the initial list is strictly descending, hence free of duplicates. */
  lemma {:induction false} InitListDescending(entries: seq<MemoryMapEntry>, words: nat)
    requires GoodMap(entries, words)
    ensures StrictlyDescending(InitList(entries))
    ensures forall f | f in InitList(entries) :: WORDS * f + WORDS <= words
  {
    if entries != [] {
      var n := |entries| - 1;
      var e := entries[n];
      var rest := entries[..n];
      InitListDescending(rest, words);
      if e.usable {
        forall f | f in InitList(rest)
          ensures f < FirstFrame(e)
        {
          InitListExact(rest, f);
          var i :| 0 <= i < n && rest[i].usable && FRAME_SIZE * f + FRAME_SIZE <= rest[i].base + rest[i].length;
          assert rest[i] == entries[i];
          assert FRAME_SIZE * f + FRAME_SIZE <= e.base;
        }
        BelowAll(Descending(FirstFrame(e), EndFrame(e)), InitList(rest), FirstFrame(e));
      }
    }
  }

  lemma BelowAll(a: seq<nat>, b: seq<nat>, x: nat)
    requires StrictlyDescending(a) && StrictlyDescending(b)
    requires forall f | f in a :: x <= f
    requires forall f | f in b :: f < x
    ensures StrictlyDescending(a + b)
  {
    forall i, j | 0 <= i < j < |a + b|
      ensures (a + b)[i] > (a + b)[j]
    {
      if i < |a| <= j {
        assert a[i] in a && b[j - |a|] in b;
      }
    }
  }

  ghost function NextOf(s: seq<nat>, k: nat): int
    requires k < |s|
  {
    if k + 1 < |s| then FRAME_SIZE * s[k + 1] else NULL_MARK
  }

  /** The list s is threaded through memory, starting at head. */
  ghost predicate Threaded(m: seq<Word>, head: Option<Word>, s: seq<nat>) {
    && head == (if s == [] then None else Some(FRAME_SIZE * s[0]))
    && (forall k | 0 <= k < |s| :: WORDS * s[k] + WORDS <= |m|)
    && (forall k {:trigger NextOf(s, k)} | 0 <= k < |s| :: m[WORDS * s[k]] == NextOf(s, k))
  }

  /** Frame f is usable memory and not yet on the list. */
  ghost predicate Pushable(f: nat, list: seq<nat>, usable: set<nat>, words: nat) {
    f in usable && f !in list && WORDS * f + WORDS <= words
  }

  /** The whole frames of entry n: on the final list, and not on the list of earlier entries. */
  lemma RegionFrames(entries: seq<MemoryMapEntry>, words: nat, n: nat)
    requires GoodMap(entries, words) && n < |entries| && entries[n].usable
    ensures var e := entries[n];
            && AlignUp(e.base) == FRAME_SIZE * FirstFrame(e)
            && e.base + e.length < FRAME_SIZE * EndFrame(e) + FRAME_SIZE
            && (FirstFrame(e) < EndFrame(e) ==> FRAME_SIZE * EndFrame(e) <= e.base + e.length)
            && (forall f | FirstFrame(e) <= f < EndFrame(e) ::
                  Pushable(f, InitList(entries[..n]), Elements(InitList(entries)), words))
  {
    var e := entries[n];
    forall f | FirstFrame(e) <= f < EndFrame(e)
      ensures Pushable(f, InitList(entries[..n]), Elements(InitList(entries)), words)
    {
      FrameBounds(e, f);
      InitListExact(entries, f);
      InitListExact(entries[..n], f);
    }
  }

  ghost function HeadWord(head: Option<Word>): Word {
    if head.Some? then head.value else NULL_MARK
  }

  /** Pushing writes one word and threads the longer list. */
  lemma ThreadPush(m: seq<Word>, head: Option<Word>, s: seq<nat>, f: nat)
    requires Threaded(m, head, s) && f !in s && WORDS * f + WORDS <= |m| <= MAX_WORDS
    ensures Threaded(m[WORDS * f := HeadWord(head)], Some(FRAME_SIZE * f), [f] + s)
  {
    var m', t := m[WORDS * f := HeadWord(head)], [f] + s;
    forall k | 0 <= k < |t|
      ensures WORDS * t[k] + WORDS <= |m'| && m'[WORDS * t[k]] == NextOf(t, k)
    {
      if k > 0 {
        assert t[k] == s[k - 1] && s[k - 1] in s;
        assert NextOf(s, k - 1) == NextOf(t, k);
      }
    }
  }

  /** Popping reads the next head out of the first frame; the rest stays threaded. */
  lemma ThreadPop(m: seq<Word>, head: Option<Word>, s: seq<nat>, m': seq<Word>)
    requires Threaded(m, head, s) && s != [] && NoDuplicates(s) && |m| <= MAX_WORDS
    requires |m'| == |m| && forall w | 0 <= w < |m| && w / WORDS != s[0] :: m'[w] == m[w]
    ensures Threaded(m', if m[WORDS * s[0]] == NULL_MARK then None else Some(m[WORDS * s[0]]), s[1..])
  {
    var t := s[1..];
    assert m[WORDS * s[0]] == NextOf(s, 0);
    forall k | 0 <= k < |t|
      ensures WORDS * t[k] + WORDS <= |m'| && m'[WORDS * t[k]] == NextOf(t, k)
    {
      assert t[k] == s[k + 1];
      assert WORDS * t[k] / WORDS == t[k] != s[0];
      assert m[WORDS * s[k + 1]] == NextOf(s, k + 1) == NextOf(t, k);
    }
  }

  /** Writes inside a frame that is not on the list leave the list threaded. */
  lemma ThreadFrame(m: seq<Word>, head: Option<Word>, s: seq<nat>, m': seq<Word>, f: nat)
    requires Threaded(m, head, s) && f !in s
    requires |m'| == |m| && forall w | 0 <= w < |m| && w / WORDS != f :: m'[w] == m[w]
    ensures Threaded(m', head, s)
  {
    forall k | 0 <= k < |s|
      ensures m'[WORDS * s[k]] == NextOf(s, k)
    {
      assert s[k] in s && WORDS * s[k] / WORDS == s[k];
    }
  }

  lemma PopElements(s: seq<nat>)
    requires s != []
    ensures Elements(s) == {s[0]} + Elements(s[1..])
    ensures NoDuplicates(s) <==> s[0] !in Elements(s[1..]) && NoDuplicates(s[1..])
  {
    var t := s[1..];
    assert s == [s[0]] + t;
    if s[0] !in Elements(t) && NoDuplicates(t) {
      forall i, j | 0 <= i < j < |s|
        ensures s[i] != s[j]
      {
        assert s[j] == t[j - 1] && t[j - 1] in t;
        if i > 0 {
          assert s[i] == t[i - 1];
        }
      }
    }
    if NoDuplicates(s) {
      forall i, j | 0 <= i < j < |t|
        ensures t[i] != t[j]
      {
        assert t[i] == s[i + 1] && t[j] == s[j + 1];
      }
    }
  }

  ghost predicate ZeroedFrame(m: seq<Word>, f: nat) {
    WORDS * f + WORDS <= |m| && forall i | WORDS * f <= i < WORDS * f + WORDS :: m[i] == 0
  }

  class FrameAllocator {
    const mem: array<Word>
    const entries: seq<MemoryMapEntry>
    var head: Option<Word>
    var initialized: bool
    /** The list threaded through memory, and the frames handed out and not returned. */
    ghost var list: seq<nat>
    ghost var taken: set<nat>

    /** The abstract free list; before the lazy initialisation it is the list that will be built. */
    ghost function Free(): seq<nat>
      reads this
    {
      if initialized then list else InitList(entries)
    }

    ghost predicate Valid()
      reads this, mem
    {
      && GoodMap(entries, mem.Length)
      && Threaded(mem[..], head, list)
      && (!initialized ==> list == [] && taken == {})
      && NoDuplicates(Free())
      && taken !! Elements(Free())
      && taken + Elements(Free()) == Elements(InitList(entries))
    }

    constructor (mem: array<Word>, entries: seq<MemoryMapEntry>)
      requires GoodMap(entries, mem.Length)
      ensures Valid() && !initialized && taken == {}
      ensures this.mem == mem && this.entries == entries
    {
      this.mem := mem;
      this.entries := entries;
      head := None;
      initialized := false;
      list := [];
      taken := {};
      new;
      InitListDescending(entries, mem.Length);
    }

    /** Writes the old head into the frame and makes the frame the new head. */
    method PushFree(frame: Word, ghost f: nat)
      requires frame == FRAME_SIZE * f && WORDS * f + WORDS <= mem.Length <= MAX_WORDS
      requires Threaded(mem[..], head, list) && f !in list
      modifies this`head, this`list, mem
      ensures list == [f] + old(list)
      ensures Threaded(mem[..], head, list)
      ensures forall w | 0 <= w < mem.Length && w / WORDS != f :: mem[w] == old(mem[w])
    {
      assert frame / 8 == WORDS * f;
      ThreadPush(mem[..], head, list, f);
      mem[frame / 8] := match head case Some(h) => h case None => NULL_MARK;
      assert mem[..] == old(mem[..])[WORDS * f := HeadWord(old(head))];
      head := Some(frame);
      list := [f] + list;
    }

    /** Builds the free list from the memory map. */
    method Init()
      requires Valid() && !initialized
      modifies this, mem
      ensures Valid() && initialized && list == InitList(entries) && taken == {}
      ensures forall w | 0 <= w < mem.Length && w / WORDS !in InitList(entries) :: mem[w] == old(mem[w])
    {
      InitListDescending(entries, mem.Length);
      for n := 0 to |entries|
        invariant !initialized && taken == {}
        invariant list == InitList(entries[..n])
        invariant Threaded(mem[..], head, list)
        invariant forall w | 0 <= w < mem.Length && w / WORDS !in InitList(entries) :: mem[w] == old(mem[w])
      {
        assert entries[..n + 1][..n] == entries[..n];
        if entries[n].usable {
          ghost var e := entries[n];
          RegionFrames(entries, mem.Length, n);
          PushRegion(AlignUp(entries[n].base), entries[n].base + entries[n].length,
                     FirstFrame(e), EndFrame(e), Elements(InitList(entries)));
        }
      }
      assert entries[..|entries|] == entries;
      initialized := true;
    }

    /** The inner loop of Init: pushes every frame from `start` that ends at or before `end`. */
    method PushRegion(start: nat, end: nat, ghost lo: nat, ghost hi: nat, ghost usable: set<nat>)
      requires start == FRAME_SIZE * lo && lo <= hi && mem.Length <= MAX_WORDS
      requires end < FRAME_SIZE * hi + FRAME_SIZE && (lo < hi ==> FRAME_SIZE * hi <= end)
      requires forall f | lo <= f < hi :: Pushable(f, list, usable, mem.Length)
      requires Threaded(mem[..], head, list)
      modifies this`head, this`list, mem
      ensures list == Descending(lo, hi) + old(list) && Threaded(mem[..], head, list)
      ensures forall w | 0 <= w < mem.Length && w / WORDS !in usable :: mem[w] == old(mem[w])
    {
      ghost var f := lo;
      var addr := start;
      while addr + FRAME_SIZE <= end
        invariant addr == FRAME_SIZE * f && lo <= f <= hi
        invariant list == Descending(lo, f) + old(list)
        invariant Threaded(mem[..], head, list)
        invariant forall w | 0 <= w < mem.Length && w / WORDS !in usable :: mem[w] == old(mem[w])
      {
        assert Pushable(f, old(list), usable, mem.Length);
        DescendingStep(lo, f, old(list));
        PushFree(addr, f);
        addr := addr + FRAME_SIZE;
        f := f + 1;
      }
      assert f == hi;
    }

    /** Clears the 512 words of frame f. */
    method ZeroFrame(ghost f: nat, start: nat)
      requires start == WORDS * f && WORDS * f + WORDS <= mem.Length
      modifies mem
      ensures ZeroedFrame(mem[..], f)
      ensures forall w | 0 <= w < mem.Length && w / WORDS != f :: mem[w] == old(mem[w])
    {
      for i := 0 to WORDS
        invariant forall w | start <= w < start + i :: mem[w] == 0
        invariant forall w | 0 <= w < mem.Length && w / WORDS != f :: mem[w] == old(mem[w])
      {
        assert (start + i) / WORDS == f;
        mem[start + i] := 0;
      }
    }

    /** Pops the first free frame, zeroed, building the list first if that has not happened yet. */
    method Allocate() returns (r: Option<Word>)
      requires Valid()
      modifies this, mem
      ensures Valid() && initialized
      ensures r.None? <==> old(Free()) == []
      ensures r.None? ==> Free() == [] && taken == old(taken)
      ensures r.Some? ==> Free() == old(Free())[1..] && taken == old(taken) + {old(Free())[0]}
      ensures r.Some? ==> r.value == FRAME_SIZE * old(Free())[0] && ZeroedFrame(mem[..], old(Free())[0])
      ensures forall w | 0 <= w < mem.Length && w / WORDS !in old(Free()) :: mem[w] == old(mem[w])
    {
      if !initialized {
        Init();
      }
      if head.None? {
        return None;
      }
      ghost var f, before, all := list[0], mem[..], list;
      var frame := head.value;
      assert frame / 8 == WORDS * f;
      var next := mem[frame / 8];
      ZeroFrame(f, frame / 8);
      ThreadPop(before, head, list, mem[..]);
      head := if next == NULL_MARK then None else Some(next);
      list := list[1..];
      taken := taken + {f};
      PopElements(all);
      return Some(frame);
    }

    /** Clears a frame its holder gives back and makes it the head of the list. */
    method Release(frame: Word)
      requires Valid() && frame % FRAME_SIZE == 0 && frame / FRAME_SIZE in taken
      modifies this, mem
      ensures Valid() && initialized
      ensures Free() == [frame / FRAME_SIZE] + old(Free()) && taken == old(taken) - {frame / FRAME_SIZE}
      ensures forall w | 0 <= w < mem.Length && w / WORDS != frame / FRAME_SIZE :: mem[w] == old(mem[w])
    {
      ghost var f := frame / FRAME_SIZE;
      assert f in Elements(InitList(entries)) && f !in Elements(list);
      InitListDescending(entries, mem.Length);
      assert frame == FRAME_SIZE * f && frame / 8 == WORDS * f;
      ZeroFrame(f, frame / 8);
      ThreadFrame(old(mem[..]), head, list, mem[..], f);
      PushFree(frame, f);
      taken := taken - {f};
      PopElements(list);
    }
  }
}
