/**
 PCI configuration space: sub-word access, the capability walk cut off at 48 steps, and BAR sizing
 (sections 6.7 and 6.2.5.1 of the PCI Local Bus 3.0 specification).
 */
module Pci {
  import opened Wrappers

  type Byte = x: int | 0 <= x < 0x100 witness 0
  type Half = x: int | 0 <= x < 0x1_0000 witness 0
  type Dword = x: int | 0 <= x < 0x1_0000_0000 witness 0

  const STATUS: Byte := 0x06
  const CAPABILITIES_PTR: Byte := 0x34
  const MAX_STEPS := 48

  /** 64 dwords of configuration space. */
  ghost predicate ConfigSpace(c: seq<Dword>) {
    |c| == 64
  }

  /** Byte k of a dword, and the dword with byte k replaced. */
  function ByteAt(d: Dword, k: nat): Byte
    requires k < 4
  {
    match k
    case 0 => d % 0x100
    case 1 => d / 0x100 % 0x100
    case 2 => d / 0x1_0000 % 0x100
    case _ => d / 0x100_0000
  }

  /** `config_read_u8` */
  function ReadByte(c: seq<Dword>, offset: Byte): Byte
    requires |c| == 64
  {
    ByteAt(c[offset / 4], offset % 4)
  }

  /** `config_read_u16` */
  function ReadHalf(c: seq<Dword>, offset: Byte): Half
    requires |c| == 64
  {
    if offset / 2 % 2 == 0 then c[offset / 4] % 0x1_0000 else c[offset / 4] / 0x1_0000
  }

  // The capability list.

  /** The pointer with its two reserved bits dropped. */
  function Aligned(p: Byte): Byte {
    p - p % 4
  }

  function FirstPtr(c: seq<Dword>): Byte
    requires |c| == 64
  {
    Aligned(ReadByte(c, CAPABILITIES_PTR))
  }

  /** The capability after the one at p; the end of the list stays the end. */
  function NextPtr(c: seq<Dword>, p: Byte): Byte
    requires |c| == 64 && p % 4 == 0
  {
    if p == 0 then 0 else Aligned(ReadByte(c, p + 1))
  }

  /** The n-th pointer of the list, 0 from its end on. */
  function Ptr(c: seq<Dword>, n: nat): (p: Byte)
    requires |c| == 64
    ensures p % 4 == 0
  {
    if n == 0 then FirstPtr(c) else NextPtr(c, Ptr(c, n - 1))
  }

  ghost predicate HasCapabilities(c: seq<Dword>)
    requires |c| == 64
  {
    ReadHalf(c, STATUS) / 16 % 2 == 1
  }

  /** The n-th node of the list is the first one with this id. */
  ghost predicate FirstWithId(c: seq<Dword>, id: Byte, n: nat)
    requires |c| == 64
  {
    && Ptr(c, n) != 0 && ReadByte(c, Ptr(c, n)) == id
    && forall m | 0 <= m < n :: Ptr(c, m) != 0 && ReadByte(c, Ptr(c, m)) != id
  }

  /** `find_capability`: the walk, cut off after 48 nodes. */
  method FindCapability(c: seq<Dword>, id: Byte) returns (r: Option<Byte>)
    requires ConfigSpace(c)
    ensures r.Some? <==> HasCapabilities(c) && exists n: nat :: n < 48 && FirstWithId(c, id, n)
    ensures r.Some? ==> exists n: nat :: n < 48 && FirstWithId(c, id, n) && r.value == Ptr(c, n)
  {
    if ReadHalf(c, STATUS) / 16 % 2 == 0 {
      return None;
    }
    var ptr := FirstPtr(c);
    var safety := 0;
    while ptr != 0 && safety < MAX_STEPS
      invariant safety <= MAX_STEPS && ptr == Ptr(c, safety)
      invariant forall m | 0 <= m < safety :: Ptr(c, m) != 0 && ReadByte(c, Ptr(c, m)) != id
      decreases MAX_STEPS - safety
    {
      var found := ReadByte(c, ptr);
      if found == id {
        assert FirstWithId(c, id, safety);
        return Some(ptr);
      }
      ptr := Aligned(ReadByte(c, ptr + 1));
      safety := safety + 1;
    }
    forall n: nat | n < MAX_STEPS
      ensures !FirstWithId(c, id, n)
    {
      if safety <= n && ptr == 0 {
        StaysZero(c, safety, n);
      }
    }
    return None;
  }

  lemma {:induction false} StaysZero(c: seq<Dword>, m: nat, n: nat)
    requires |c| == 64 && m <= n && Ptr(c, m) == 0
    ensures Ptr(c, n) == 0
  {
    if m < n {
      StaysZero(c, m, n - 1);
    }
  }

  /** Every pointer of the list is 0 or at least 0x40, as the specification asks. */
  ghost predicate GoodPointers(c: seq<Dword>)
    requires |c| == 64
  {
    forall n: nat :: Ptr(c, n) == 0 || Ptr(c, n) >= 0x40
  }

  /** From two equal pointers on the list repeats. */
  lemma {:induction false} Repeats(c: seq<Dword>, a: nat, b: nat, k: nat)
    requires |c| == 64 && Ptr(c, a) == Ptr(c, b)
    ensures Ptr(c, a + k) == Ptr(c, b + k)
  {
    if k > 0 {
      Repeats(c, a, b, k - 1);
    }
  }

  /** Before the first node with the id no pointer occurs twice. */
  lemma DistinctBefore(c: seq<Dword>, id: Byte, n: nat, a: nat, b: nat)
    requires |c| == 64 && FirstWithId(c, id, n) && a < b <= n
    ensures Ptr(c, a) != Ptr(c, b)
  {
    if Ptr(c, a) == Ptr(c, b) {
      Repeats(c, a, b, n - b);
      assert false;
    }
  }

  /** Pigeonhole: distinct numbers below m, one for each index below n. */
  lemma {:induction false} Pigeonhole(f: seq<nat>, m: nat)
    requires forall i | 0 <= i < |f| :: f[i] < m
    requires forall i, j | 0 <= i < j < |f| :: f[i] != f[j]
    ensures |f| <= m
  {
    if f != [] {
      assert 0 <= f[0] < m;
      if m - 1 in f {
        var i :| 0 <= i < |f| && f[i] == m - 1;
        var g := f[..i] + f[i + 1..];
        assert forall k | 0 <= k < |g| :: g[k] == if k < i then f[k] else f[k + 1];
        Pigeonhole(g, m - 1);
      } else {
        assert forall i | 0 <= i < |f| :: f[i] in f && f[i] != m - 1;
        Pigeonhole(f, m - 1);
      }
    }
  }

  /** Which of the 48 possible places a node is at. */
  ghost function Slot(c: seq<Dword>, i: nat): nat
    requires |c| == 64
  {
    if Ptr(c, i) >= 0x40 then (Ptr(c, i) - 0x40) / 4 else 0
  }

  /** With pointers at or above 0x40 the first node with the id is among the first 48. */
  lemma WithinLimit(c: seq<Dword>, id: Byte, n: nat)
    requires |c| == 64 && GoodPointers(c) && FirstWithId(c, id, n)
    ensures n < MAX_STEPS
  {
    var f: seq<nat> := seq(n + 1, i requires 0 <= i < n + 1 => Slot(c, i));
    forall i | 0 <= i < |f|
      ensures f[i] < MAX_STEPS && 4 * f[i] + 0x40 == Ptr(c, i)
    {
      SlotOf(c, i);
    }
    forall a, b | 0 <= a < b < |f|
      ensures f[a] != f[b]
    {
      DistinctBefore(c, id, n, a, b);
    }
    Pigeonhole(f, MAX_STEPS);
  }

  lemma SlotOf(c: seq<Dword>, i: nat)
    requires |c| == 64 && Ptr(c, i) >= 0x40
    ensures Slot(c, i) < MAX_STEPS && 4 * Slot(c, i) + 0x40 == Ptr(c, i)
  {
  }

  /** The 48-step walk is complete, on cyclic lists too: it misses no node, wherever it lies in the list. */
  lemma CapabilityWalkComplete(c: seq<Dword>, id: Byte, n: nat)
    requires |c| == 64 && GoodPointers(c) && Ptr(c, n) != 0 && ReadByte(c, Ptr(c, n)) == id
    ensures exists k: nat :: k < MAX_STEPS && FirstWithId(c, id, k)
  {
    var k := FirstIndex(c, id, n);
    WithinLimit(c, id, k);
  }

  lemma {:induction false} FirstIndex(c: seq<Dword>, id: Byte, n: nat) returns (k: nat)
    requires |c| == 64 && Ptr(c, n) != 0 && ReadByte(c, Ptr(c, n)) == id
    ensures FirstWithId(c, id, k)
  {
    if m: nat :| m < n && Ptr(c, m) != 0 && ReadByte(c, Ptr(c, m)) == id {
      k := FirstIndex(c, id, m);
    } else {
      k := n;
      forall m | 0 <= m < n
        ensures Ptr(c, m) != 0
      {
        if Ptr(c, m) == 0 {
          StaysZero(c, m, n);
          assert false;
        }
      }
    }
  }

  // Writing parts of a dword.

  /** The dword with byte k replaced, `(old & mask) | (value << shift)`. */
  function WithByte(d: Dword, k: nat, v: Byte): Dword
    requires k < 4
  {
    match k
    case 0 => d - d % 0x100 + v
    case 1 => d - d / 0x100 % 0x100 * 0x100 + v * 0x100
    case 2 => d - d / 0x1_0000 % 0x100 * 0x1_0000 + v * 0x1_0000
    case _ => d % 0x100_0000 + v * 0x100_0000
  }

  lemma DwordBytes(d: Dword)
    ensures d == ByteAt(d, 0) + 0x100 * ByteAt(d, 1) + 0x1_0000 * ByteAt(d, 2) + 0x100_0000 * ByteAt(d, 3)
  {
    var b, c := d / 0x100, d / 0x1_0000;
    assert c == b / 0x100 && d / 0x100_0000 == c / 0x100;
    assert d == 0x100 * b + d % 0x100 && b == 0x100 * c + b % 0x100 && c == 0x100 * (c / 0x100) + c % 0x100;
  }

  lemma BytesDetermine(a: Byte, b: Byte, c: Byte, e: Byte)
    ensures var d := a as int + 0x100 * (b as int) + 0x1_0000 * (c as int) + 0x100_0000 * (e as int);
            d < 0x1_0000_0000 && ByteAt(d, 0) == a && ByteAt(d, 1) == b && ByteAt(d, 2) == c && ByteAt(d, 3) == e
  {
    var d := a as int + 0x100 * (b as int) + 0x1_0000 * (c as int) + 0x100_0000 * (e as int);
    assert d / 0x100 == b as int + 0x100 * (c as int) + 0x1_0000 * (e as int);
    assert d / 0x1_0000 == c as int + 0x100 * (e as int);
    assert d / 0x100_0000 == e as int;
  }

  /** Replacing one byte changes that byte and no other. */
  lemma WithByteReads(d: Dword, k: nat, v: Byte, j: nat)
    requires k < 4 && j < 4
    ensures ByteAt(WithByte(d, k, v), j) == if j == k then v else ByteAt(d, j)
  {
    DwordBytes(d);
    var a, b, c, e := ByteAt(d, 0), ByteAt(d, 1), ByteAt(d, 2), ByteAt(d, 3);
    match k
    case 0 => BytesDetermine(v, b, c, e);
    case 1 => BytesDetermine(a, v, c, e);
    case 2 => BytesDetermine(a, b, v, e);
    case _ => BytesDetermine(a, b, c, v);
  }

  // The 256 bytes of the configuration space as section 6.1 of PCI 3.0 lays them out.

  ghost predicate DwordIs(d: Dword, b0: Byte, b1: Byte, b2: Byte, b3: Byte) {
    d as int == b0 as int + 0x100 * (b1 as int) + 0x1_0000 * (b2 as int) + 0x100_0000 * (b3 as int)
  }

  /** Each dword is four bytes of the image, low byte first. */
  ghost predicate Image(c: seq<Dword>, b: seq<Byte>) {
    && |c| == 64 && |b| == 256
    && forall k | 0 <= k < 64 :: DwordIs(c[k], b[4 * k], b[4 * k + 1], b[4 * k + 2], b[4 * k + 3])
  }

  /** The n-th pointer of the capability list: from byte 52, then from the byte after each node's id, low two bits dropped. */
  ghost function Node(b: seq<Byte>, n: nat): (p: nat)
    requires |b| == 256
    ensures p % 4 == 0 && p <= 252
  {
    if n == 0 then 4 * (b[52] / 4)
    else
      var p := Node(b, n - 1);
      if p == 0 then 0 else 4 * (b[p + 1] / 4)
  }

  lemma ReadsImage(c: seq<Dword>, b: seq<Byte>, o: Byte)
    requires Image(c, b)
    ensures ReadByte(c, o) == b[o]
    ensures o % 2 == 0 ==> ReadHalf(c, o) == b[o] as int + 0x100 * (b[o + 1] as int)
  {
    var k := o / 4;
    assert DwordIs(c[k], b[4 * k], b[4 * k + 1], b[4 * k + 2], b[4 * k + 3]);
    BytesDetermine(b[4 * k], b[4 * k + 1], b[4 * k + 2], b[4 * k + 3]);
    HalvesDetermine(b[4 * k], b[4 * k + 1], b[4 * k + 2], b[4 * k + 3]);
    assert o == 4 * k + o % 4;
  }

  lemma HalvesDetermine(a: Byte, b: Byte, c: Byte, e: Byte)
    ensures var d := a as int + 0x100 * (b as int) + 0x1_0000 * (c as int) + 0x100_0000 * (e as int);
            d % 0x1_0000 == a as int + 0x100 * (b as int) && d / 0x1_0000 == c as int + 0x100 * (e as int)
  {
    var low, high := a as int + 0x100 * (b as int), c as int + 0x100 * (e as int);
    assert low + 0x1_0000 * high == a as int + 0x100 * (b as int) + 0x1_0000 * (c as int) + 0x100_0000 * (e as int);
  }

  lemma {:induction false} PtrIsNode(c: seq<Dword>, b: seq<Byte>, n: nat)
    requires Image(c, b)
    ensures Ptr(c, n) == Node(b, n)
  {
    if n == 0 {
      ReadsImage(c, b, 52);
    } else {
      PtrIsNode(c, b, n - 1);
      var p := Node(b, n - 1);
      ReadsImage(c, b, p + 1);
    }
  }

  /** The n-th node is the first one with this id. */
  ghost predicate FirstNode(b: seq<Byte>, id: Byte, n: nat)
    requires |b| == 256
  {
    && Node(b, n) != 0 && b[Node(b, n)] == id
    && forall m: nat | m < n :: Node(b, m) != 0 && b[Node(b, m)] != id
  }

  lemma NodeReads(c: seq<Dword>, b: seq<Byte>, n: nat)
    requires Image(c, b)
    ensures Ptr(c, n) == Node(b, n) && ReadByte(c, Ptr(c, n)) == b[Node(b, n)]
  {
    PtrIsNode(c, b, n);
    ReadsImage(c, b, Node(b, n));
  }

  lemma StatusBit(low: Byte, high: Byte)
    ensures (low as int + 0x100 * (high as int)) / 16 % 2 == low / 16 % 2
  {
    assert (low as int + 0x100 * (high as int)) / 16 == low / 16 + 16 * (high as int);
    assert low / 16 + 16 * (high as int) == 2 * (8 * high) + low / 16;
  }

  /** The list the walk follows is the one of the image: announced by bit 4 of byte 6, nodes and ids read byte by byte. */
  lemma CapabilityImage(c: seq<Dword>, b: seq<Byte>, id: Byte, n: nat)
    requires Image(c, b)
    ensures HasCapabilities(c) <==> b[6] / 16 % 2 == 1
    ensures Ptr(c, n) == Node(b, n) && (FirstWithId(c, id, n) <==> FirstNode(b, id, n))
  {
    ReadsImage(c, b, 6);
    StatusBit(b[6], b[7]);
    NodeReads(c, b, n);
    if FirstWithId(c, id, n) {
      forall m: nat | m < n
        ensures Node(b, m) != 0 && b[Node(b, m)] != id
      {
        NodeReads(c, b, m);
      }
    }
    if FirstNode(b, id, n) {
      forall m: nat | m < n
        ensures Ptr(c, m) != 0 && ReadByte(c, Ptr(c, m)) != id
      {
        NodeReads(c, b, m);
      }
    }
  }

  // Base address registers.

  ghost function Pow2(k: nat): (p: nat)
    ensures p > 0
  {
    if k == 0 then 1 else 2 * Pow2(k - 1)
  }

  lemma Pow2Values()
    ensures Pow2(4) == 16 && Pow2(32) == 0x1_0000_0000
  {
    Pow2Eight(0);
    Pow2Eight(8);
    Pow2Eight(16);
    Pow2Eight(24);
    assert Pow2(4) == 2 * Pow2(3) == 4 * Pow2(2) == 8 * Pow2(1);
  }

  lemma Pow2Eight(k: nat)
    ensures Pow2(k + 8) == 256 * Pow2(k)
  {
    assert Pow2(k + 8) == 2 * Pow2(k + 7) == 4 * Pow2(k + 6);
    assert Pow2(k + 6) == 2 * Pow2(k + 5) == 4 * Pow2(k + 4);
    assert Pow2(k + 4) == 2 * Pow2(k + 3) == 4 * Pow2(k + 2);
    assert Pow2(k + 2) == 2 * Pow2(k + 1) == 4 * Pow2(k);
  }

  /** A memory BAR for a window of 2^k bytes; the low k address bits are hardwired to zero. */
  datatype Bar = Bar(k: nat, is64: bool, prefetchable: bool)

  ghost predicate GoodBar(b: Bar) {
    4 <= b.k && (if b.is64 then b.k < 64 else b.k < 32)
  }

  /** Bits 0 to 3: memory space, type, prefetchable. */
  function Flags(b: Bar): nat {
    (if b.is64 then 4 else 0) + (if b.prefetchable then 8 else 0)
  }

  /** A number with its low k bits cleared. */
  function ClearLow(v: nat, k: nat): (r: nat)
    ensures r <= v
    decreases k
  {
    if k == 0 then v else 2 * ClearLow(v / 2, k - 1)
  }

  /** The address bits a register that decodes from bit k keeps of a written value. */
  function KeepFrom(v: Dword, k: nat): Dword {
    if k >= 32 then 0 else ClearLow(v, k)
  }

  /** What BAR0, and the upper dword of a 64-bit BAR0, hold after a write. */
  function BarLow(b: Bar, v: Dword): nat {
    KeepFrom(v, b.k) + Flags(b)
  }

  function BarHigh(b: Bar, v: Dword): Dword {
    if b.k <= 32 then v else KeepFrom(v, b.k - 32)
  }

  /** Writing all ones reads back as the two's complement of the window size. */
  lemma {:induction false} AllOnes(n: nat, k: nat)
    requires k <= n
    ensures ClearLow(Pow2(n) - 1, k) == Pow2(n) - Pow2(k)
    decreases k
  {
    if k > 0 {
      AllOnes(n - 1, k - 1);
      assert (Pow2(n) - 1) / 2 == Pow2(n - 1) - 1;
    }
  }

  /** The cleared bits include the four flag bits. */
  lemma ClearSixteen(v: nat, k: nat)
    requires 4 <= k
    ensures ClearLow(v, k) % 16 == 0
  {
    var a := v / 2;
    var b := a / 2;
    var c := b / 2;
    var x := ClearLow(c / 2, k - 4);
    assert ClearLow(v, k) == 2 * ClearLow(a, k - 1);
    assert ClearLow(a, k - 1) == 2 * ClearLow(b, k - 2);
    assert ClearLow(b, k - 2) == 2 * ClearLow(c, k - 3);
    assert ClearLow(c, k - 3) == 2 * x;
    SixteenBits(x, 0);
  }

  lemma LowFits(b: Bar, v: Dword)
    requires GoodBar(b)
    ensures BarLow(b, v) < 0x1_0000_0000 && BarLow(b, v) - BarLow(b, v) % 16 == KeepFrom(v, b.k)
    ensures BarLow(b, v) / 2 % 4 == 2 <==> b.is64
  {
    if b.k < 32 {
      ClearSixteen(v, b.k);
    }
    FlagBits(KeepFrom(v, b.k), Flags(b));
  }

  lemma FlagBits(m: nat, flags: nat)
    requires m % 16 == 0 && flags < 16
    ensures (m + flags) % 16 == flags && (m + flags) / 2 % 4 == flags / 2 % 4
  {
    var q := m / 16;
    SixteenBits(q, flags);
    QuarterBits(2 * q, flags / 2);
    assert (m + flags) / 2 == 8 * q + flags / 2;
  }

  lemma SixteenBits(q: nat, r: nat)
    requires r < 16
    ensures (16 * q + r) % 16 == r
  {
  }

  lemma QuarterBits(q: nat, r: nat)
    ensures (4 * q + r) % 4 == r % 4
  {
  }

  /** The upper half of a power beyond 2^32. */
  lemma {:induction false} Pow2Upper(k: nat)
    requires k >= 32
    ensures Pow2(k) == 0x1_0000_0000 * Pow2(k - 32)
  {
    if k == 32 {
      Pow2Values();
    } else {
      Pow2Upper(k - 1);
    }
  }

  /** What the two registers read back after all ones were written. */
  lemma SizeReadback(b: Bar)
    requires GoodBar(b)
    ensures b.k < 32 ==> KeepFrom(0xFFFF_FFFF, b.k) == 0x1_0000_0000 - Pow2(b.k) && Pow2(b.k) <= 0x1_0000_0000
    ensures b.k >= 32 ==> 0x1_0000_0000 * BarHigh(b, 0xFFFF_FFFF) == 0x1_0000_0000_0000_0000 - Pow2(b.k)
    ensures b.k <= 32 ==> BarHigh(b, 0xFFFF_FFFF) == 0xFFFF_FFFF
  {
    Pow2Values();
    if b.k < 32 {
      AllOnes(32, b.k);
    } else {
      AllOnes(32, b.k - 32);
      Pow2Upper(b.k);
    }
  }

  /** The dword with its lower or upper half replaced. */
  function WithHalf(d: Dword, k: nat, v: Half): Dword
    requires k < 2
  {
    if k == 0 then d - d % 0x1_0000 + v else d % 0x1_0000 + (v as int) * 0x1_0000
  }

  function Complement32(mask: Dword): nat {
    (0x1_0000_0000 - mask as int) % 0x1_0000_0000
  }

  function Complement64(high: Dword, mask: Dword): nat {
    (0x1_0000_0000_0000_0000 - (0x1_0000_0000 * (high as int) + mask as int)) % 0x1_0000_0000_0000_0000
  }

  /** One PCI function: its configuration space and the BAR its device decodes. */
  class PciFunction {
    const regs: array<Dword>
    const bar: Bar

    ghost predicate Valid()
      reads regs
    {
      && regs.Length == 64 && GoodBar(bar)
      && regs[4] == BarLow(bar, regs[4])
      && (bar.is64 ==> regs[5] == BarHigh(bar, regs[5]))
    }

    constructor (bar: Bar, low: Dword, high: Dword)
      requires GoodBar(bar) && low == BarLow(bar, low) && (bar.is64 ==> high == BarHigh(bar, high))
      ensures Valid() && fresh(regs) && this.bar == bar && regs[4] == low && regs[5] == high
    {
      this.bar := bar;
      regs := new Dword[64](i => 0);
      new;
      regs[4], regs[5] := low, high;
    }

    /** A write to BAR0 as the device takes it. */
    method WriteBar0(value: Dword)
      requires regs.Length == 64 && GoodBar(bar)
      modifies regs
      ensures regs[..] == old(regs[..])[4 := BarLow(bar, value)]
    {
      LowFits(bar, value);
      regs[4] := BarLow(bar, value);
    }

    method WriteBar1(value: Dword)
      requires regs.Length == 64 && GoodBar(bar)
      modifies regs
      ensures regs[..] == old(regs[..])[5 := if bar.is64 then BarHigh(bar, value) else value]
    {
      regs[5] := if bar.is64 then BarHigh(bar, value) else value;
    }

    /** `get_bar0_size`: writes all ones, reads back, restores. */
    method GetBar0Size() returns (size: nat)
      requires Valid()
      modifies regs
      ensures Valid() && regs[..] == old(regs[..])
      ensures size == Pow2(bar.k)
    {
      LowFits(bar, regs[4]);
      LowFits(bar, 0xFFFF_FFFF);
      SizeRight(bar);
      var original := regs[4];
      WriteBar0(0xFFFF_FFFF);
      var readback := regs[4];
      WriteBar0(original);
      var mask: Dword := readback - readback % 16;
      if original / 2 % 4 == 2 {
        var originalHigh := regs[5];
        WriteBar1(0xFFFF_FFFF);
        var readbackHigh := regs[5];
        WriteBar1(originalHigh);
        size := Complement64(readbackHigh, mask);
      } else {
        size := Complement32(mask);
      }
    }

    /** `get_bar0`: None stands for the panic on an I/O BAR. */
    method GetBar0() returns (r: Option<(nat, bool, bool)>)
      requires Valid()
      ensures r == Some((KeepFrom(regs[4], bar.k) + (if bar.is64 then 0x1_0000_0000 * (regs[5] as int) else 0), bar.is64, bar.prefetchable))
    {
      LowFits(bar, regs[4]);
      BarFlags(bar, regs[4]);
      var bar0 := regs[4];
      if bar0 % 2 != 0 {
        return None;
      }
      var is64 := bar0 / 2 % 4 == 2;
      var low: nat := bar0 - bar0 % 16;
      var address: nat := if is64 then 0x1_0000_0000 * (regs[5] as int) + low else low;
      return Some((address, is64, bar0 / 8 % 2 == 1));
    }

    /** `config_write_u8` outside the BARs: a read-modify-write of one dword. */
    method WriteByte(offset: Byte, value: Byte)
      requires Valid() && offset / 4 != 4 && offset / 4 != 5
      modifies regs
      ensures Valid()
      ensures forall o: Byte :: ReadByte(regs[..], o) == if o == offset then value else ReadByte(old(regs[..]), o)
    {
      ghost var before := regs[..];
      regs[offset / 4] := WithByte(regs[offset / 4], offset % 4, value);
      forall o: Byte
        ensures ReadByte(regs[..], o) == if o == offset then value else ReadByte(before, o)
      {
        WithByteReads(before[offset / 4], offset % 4, value, o % 4);
      }
    }

    /** `config_write_u16` outside the BARs. */
    method WriteHalf(offset: Byte, value: Half)
      requires Valid() && offset / 4 != 4 && offset / 4 != 5
      modifies regs
      ensures Valid() && ReadHalf(regs[..], offset) == value
      ensures forall o: Byte | o / 2 != offset / 2 :: ReadHalf(regs[..], o) == ReadHalf(old(regs[..]), o)
    {
      var d := regs[offset / 4];
      regs[offset / 4] := WithHalf(d, offset / 2 % 2, value);
      HalfReads(d, offset / 2 % 2, value);
    }
  }

  lemma HalfReads(d: Dword, k: nat, v: Half)
    requires k < 2
    ensures k == 0 ==> WithHalf(d, k, v) % 0x1_0000 == v && WithHalf(d, k, v) / 0x1_0000 == d / 0x1_0000
    ensures k == 1 ==> WithHalf(d, k, v) / 0x1_0000 == v && WithHalf(d, k, v) % 0x1_0000 == d % 0x1_0000
  {
    var q := d / 0x1_0000;
    assert d == 0x1_0000 * q + d % 0x1_0000;
  }

  /** The two's complement of what the registers read back is the window size. */
  lemma SizeRight(b: Bar)
    requires GoodBar(b)
    ensures !b.is64 ==> Complement32(KeepFrom(0xFFFF_FFFF, b.k)) == Pow2(b.k)
    ensures b.is64 ==> Complement64(BarHigh(b, 0xFFFF_FFFF), KeepFrom(0xFFFF_FFFF, b.k)) == Pow2(b.k)
  {
    SizeReadback(b);
    Pow2Bounds(b.k);
  }

  lemma {:induction false} Pow2Bounds(k: nat)
    requires k < 64
    ensures Pow2(k) < 0x1_0000_0000_0000_0000 && (k < 32 ==> Pow2(k) < 0x1_0000_0000)
  {
    Pow2Values();
    Pow2Below(k, 32);
    if k >= 32 {
      Pow2Upper(k);
      Pow2Below(k - 32, 32);
    }
  }

  lemma {:induction false} Pow2Below(k: nat, n: nat)
    ensures k < n ==> 2 * Pow2(k) <= Pow2(n)
    decreases n
  {
    if k < n {
      if k > 0 {
        Pow2Below(k - 1, n - 1);
      } else {
        Pow2Positive(n - 1);
      }
    }
  }

  lemma Pow2Positive(n: nat)
    ensures Pow2(n) >= 1
  {
  }

  lemma BarFlags(b: Bar, v: Dword)
    requires GoodBar(b)
    ensures BarLow(b, v) % 2 == 0 && (BarLow(b, v) / 8 % 2 == 1 <==> b.prefetchable)
  {
    if b.k < 32 {
      ClearSixteen(v, b.k);
    }
    FlagParity(KeepFrom(v, b.k), Flags(b));
  }

  lemma FlagParity(m: nat, flags: nat)
    requires m % 16 == 0 && flags < 16
    ensures (m + flags) % 2 == flags % 2 && (m + flags) / 8 % 2 == flags / 8
  {
    var q := m / 16;
    PairBits(q, flags / 8);
    PairBits(8 * q, flags);
    assert (m + flags) / 8 == 2 * q + flags / 8;
  }

  lemma PairBits(q: nat, r: nat)
    ensures (2 * q + r) % 2 == r % 2
  {
  }
}
