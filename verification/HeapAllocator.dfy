/**
 `init_heap`: takes 256 frames one by one and hands the megabyte above the lowest frame of
 the descending chain it followed to the heap.
 */
module Heap {
  import opened Wrappers
  import opened Bits
  import opened Frames

  const HEAP_FRAMES := 256

  /** The frames the loop obtains from the free list `s`. */
  ghost function Obtained(s: seq<nat>): seq<nat> {
    if |s| < 256 then s else s[..256]
  }

  /** The lowest frame of the chain after the loop saw the frames `t`: one that breaks the chain is skipped. */
  ghost function Lowest(t: seq<nat>): Option<nat> {
    if t == [] then None
    else
      var prev, f := Lowest(t[..|t| - 1]), t[|t| - 1];
      if prev.None? || f + 1 == prev.value then Some(f) else prev
  }

  /** Every frame of the heap window starting at `low` is among the frames `t`. */
  ghost predicate WindowOwned(low: nat, t: seq<nat>) {
    forall g | low <= g < low + 256 :: g in t
  }

  ghost predicate ConsecutiveRun(s: seq<nat>) {
    |s| >= 256 && forall k: int | 0 <= k < 256 :: s[k] == s[0] - k
  }

  /** The chain starts at the first frame and ends at most |t| - 1 below it, and only if nothing was skipped exactly there. */
  lemma {:induction false} LowestRange(t: seq<nat>)
    requires t != []
    ensures Lowest(t).Some? && t[0] - (|t| - 1) <= Lowest(t).value <= t[0]
    ensures Lowest(t).value == t[0] - (|t| - 1) <==> forall k | 0 <= k < |t| :: t[k] == t[0] - k
  {
    if |t| > 1 {
      var u := t[..|t| - 1];
      LowestRange(u);
      assert (forall k | 0 <= k < |t| :: t[k] == t[0] - k) ==> forall k | 0 <= k < |u| :: u[k] == u[0] - k;
    }
  }

  /**
   On a strictly descending free list the window is owned exactly when the first 256 entries
   are consecutive descending frames.
   */
  lemma HeapWindow(s: seq<nat>)
    requires StrictlyDescending(s) && s != []
    ensures Lowest(Obtained(s)).Some?
    ensures WindowOwned(Lowest(Obtained(s)).value, Obtained(s)) <==> ConsecutiveRun(s)
  {
    var t := Obtained(s);
    LowestRange(t);
    var low := Lowest(t).value;
    if WindowOwned(low, t) {
      assert low + HEAP_FRAMES - 1 in t;
      var k :| 0 <= k < |t| && t[k] == low + HEAP_FRAMES - 1;
      assert t[0] >= t[k];
      assert forall k | 0 <= k < HEAP_FRAMES :: s[k] == t[k];
    }
    if ConsecutiveRun(s) {
      assert forall k | 0 <= k < |t| :: t[k] == t[0] - k;
      forall g | low <= g < low + HEAP_FRAMES
        ensures g in t
      {
        assert t[t[0] - g] == g;
      }
    }
  }

  /** The same at boot: any sorted disjoint memory map, after any number of allocations and no release. */
  lemma HeapWindowAtBoot(entries: seq<MemoryMapEntry>, words: nat, handedOut: nat)
    requires GoodMap(entries, words) && handedOut < |InitList(entries)|
    ensures var s := InitList(entries)[handedOut..];
            && Lowest(Obtained(s)).Some?
            && (WindowOwned(Lowest(Obtained(s)).value, Obtained(s)) <==> ConsecutiveRun(s))
  {
    InitListDescending(entries, words);
    HeapWindow(InitList(entries)[handedOut..]);
  }

  /** One usable frame is enough for success, with a window that reaches 255 frames it does not own. */
  lemma HeapWindowNotOwned()
    ensures var entries := [MemoryMapEntry(0x5000, 0x1000, true)];
            && GoodMap(entries, 0x1000)
            && InitList(entries) == [5]
            && Lowest(Obtained(InitList(entries))) == Some(5)
            && !WindowOwned(5, Obtained(InitList(entries)))
  {
    var e := MemoryMapEntry(0x5000, 0x1000, true);
    assert InitList([e][..0]) == [];
    assert Descending(5, 6) == [5];
    assert InitList([e]) == Descending(5, 6) + InitList([e][..0]);
    assert 6 !in [5];
  }

  /** The 64-bit wrapping subtraction of the frame size. */
  function WrappingBelow(addr: Word): Word {
    (addr - FRAME_SIZE) % 0x1_0000_0000_0000_0000
  }

  /** What the loop variables say about the frames `got` so far. */
  ghost predicate Chain(got: seq<nat>, low: nat, lowest: Option<Word>, expected: Option<Word>) {
    if got == [] then lowest.None? && expected.None?
    else
      && low < 0x100_0000_0000
      && Lowest(got) == Some(low)
      && lowest == Some(FRAME_SIZE * low)
      && expected == Some(WrappingBelow(FRAME_SIZE * low))
  }

  /** Runs the loop; succeeds as soon as one frame was obtained, whether or not the window is owned. */
  method InitHeap(allocator: FrameAllocator) returns (ok: bool, start: Word)
    requires allocator.Valid()
    modifies allocator, allocator.mem
    ensures allocator.Valid()
    ensures ok <==> old(allocator.Free()) != []
    ensures ok ==> Lowest(Obtained(old(allocator.Free()))).Some? && start == FRAME_SIZE * Lowest(Obtained(old(allocator.Free()))).value
    ensures allocator.Free() == old(allocator.Free())[|Obtained(old(allocator.Free()))|..]
    ensures allocator.taken == old(allocator.taken) + Elements(Obtained(old(allocator.Free())))
  {
    ghost var all := allocator.Free();
    ghost var got: seq<nat> := [];
    ghost var low: nat := 0;
    var lowest: Option<Word> := None;
    var expected: Option<Word> := None;
    for n := 0 to HEAP_FRAMES
      invariant allocator.Valid()
      invariant got == (if n <= |all| then all[..n] else all)
      invariant allocator.Free() == all[|got|..]
      invariant allocator.taken == old(allocator.taken) + Elements(got)
      invariant Chain(got, low, lowest, expected)
    {
      var frame := allocator.Allocate();
      if frame.Some? {
        ghost var f := all[|got|];
        Grow(all, got, f);
        InBounds(allocator, f);
        ChainStep(got, low, lowest, expected, f);
        got := got + [f];
        if expected.Some? && frame.value != expected.value {
          continue;
        }
        lowest, low := frame, f;
        expected := Some(WrappingBelow(frame.value));
      }
    }
    assert got == Obtained(all);
    match lowest {
      case None => return false, 0;
      case Some(addr) => return true, addr;
    }
  }

  lemma Grow(all: seq<nat>, got: seq<nat>, f: nat)
    requires |got| < |all| && got == all[..|got|] && f == all[|got|]
    ensures got + [f] == all[..|got| + 1]
    ensures all[|got|..][1..] == all[|got| + 1..] && all[|got|..][0] == f
    ensures Elements(got + [f]) == Elements(got) + {f}
  {
  }

  lemma ChainStep(got: seq<nat>, low: nat, lowest: Option<Word>, expected: Option<Word>, f: nat)
    requires Chain(got, low, lowest, expected) && f < 0x100_0000_0000
    ensures if expected.Some? && FRAME_SIZE * f != expected.value
            then Chain(got + [f], low, lowest, expected)
            else Chain(got + [f], f, Some(FRAME_SIZE * f), Some(WrappingBelow(FRAME_SIZE * f)))
  {
    assert (got + [f])[..|got|] == got;
    assert got != [] ==> (FRAME_SIZE * f == WrappingBelow(FRAME_SIZE * low) <==> f + 1 == low);
  }

  lemma InBounds(allocator: FrameAllocator, f: nat)
    requires allocator.Valid() && f in allocator.taken
    ensures f < 0x100_0000_0000
  {
    InitListDescending(allocator.entries, allocator.mem.Length);
    assert f in Elements(InitList(allocator.entries));
  }
}
