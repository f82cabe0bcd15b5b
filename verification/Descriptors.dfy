/**
 The walk over a configuration descriptor (sections 9.6.5 and 9.6.6 of the USB 2.0 specification)
 that collects the interrupt IN endpoints with the interface each belongs to.
 */
module Descriptors {
  import opened Wrappers

  type Byte = x: int | 0 <= x < 256 witness 0

  const INTERFACE: Byte := 4
  const ENDPOINT: Byte := 5

  datatype Interface = Interface(number: Byte, class_: Byte, protocol: Byte)

  datatype EndpointInfo = EndpointInfo(
    address: Byte, attributes: Byte, maxPacketSize: nat, interval: Byte, interface: Interface)

  /** The IN bit of the address and the interrupt transfer type. */
  predicate InterruptIn(address: Byte, attributes: Byte) {
    address / 128 == 1 && attributes % 4 == 3
  }

  /** Direction in bit 7 of the address, transfer type in the two low bits of the attributes (section 9.6.6 of USB 2.0). */
  lemma InterruptInFields(input: bool, number: nat, kind: nat, rest: nat)
    requires number < 128 && kind < 4 && rest < 64
    ensures InterruptIn((if input then 128 else 0) + number, 4 * rest + kind) <==> input && kind == 3
  {
    assert (4 * rest + kind) % 4 == kind;
  }

  /** wMaxPacketSize, low byte first. */
  function PacketSize(low: Byte, high: Byte): nat {
    low as int + 256 * (high as int)
  }

  /** The walk found endpoints, found none, or indexed past the end of the buffer and panicked. */
  datatype Outcome = Found(endpoints: seq<EndpointInfo>) | NoEndpoint | Panic

  ghost function ReadEndpoint(buf: seq<Byte>, current: Interface): seq<EndpointInfo>
    requires |buf| >= 7
  {
    if InterruptIn(buf[2], buf[3]) then [EndpointInfo(buf[2], buf[3], PacketSize(buf[4], buf[5]), buf[6], current)] else []
  }

  /** What the walk collects from the rest of a buffer; None where it would panic. */
  ghost function Walk(buf: seq<Byte>, current: Interface): Option<seq<EndpointInfo>>
    decreases |buf|
  {
    if |buf| < 2 || buf[0] == 0 || buf[0] > |buf| then Some([])
    else if buf[1] == INTERFACE then
      if |buf| < 8 then None else Walk(buf[buf[0]..], Interface(buf[2], buf[5], buf[7]))
    else if buf[1] == ENDPOINT then
      if |buf| < 7 then None
      else
        match Walk(buf[buf[0]..], current)
        case None => None
        case Some(rest) => Some(ReadEndpoint(buf, current) + rest)
    else Walk(buf[buf[0]..], current)
  }

  ghost function Prepend(found: seq<EndpointInfo>, rest: Option<seq<EndpointInfo>>): Option<seq<EndpointInfo>> {
    match rest
    case None => None
    case Some(r) => Some(found + r)
  }

  /** The descriptor loop of `get_configuration_descriptor_and_find_interrupt_endpoints`. */
  method FindInterruptEndpoints(buf: seq<Byte>) returns (r: Outcome)
    ensures match Walk(buf, Interface(0, 0, 0))
            case None => r == Panic
            case Some(found) => r == if found == [] then NoEndpoint else Found(found)
  {
    var i := 0;
    var current := Interface(0, 0, 0);
    var found := [];
    assert buf[0..] == buf;
    PrependNone(Walk(buf, current));
    while i + 2 <= |buf|
      invariant 0 <= i <= |buf|
      invariant Walk(buf, Interface(0, 0, 0)) == Prepend(found, Walk(buf[i..], current))
      decreases |buf| - i
    {
      var length := buf[i];
      var kind := buf[i + 1];
      if length == 0 || i + length > |buf| {
        break;
      }
      assert buf[i..][length..] == buf[i + length..];
      if kind == INTERFACE {
        if i + 7 >= |buf| {
          return Panic;
        }
        current := Interface(buf[i + 2], buf[i + 5], buf[i + 7]);
      } else if kind == ENDPOINT {
        if i + 6 >= |buf| {
          return Panic;
        }
        ghost var before := found;
        if InterruptIn(buf[i + 2], buf[i + 3]) {
          found := found + [EndpointInfo(buf[i + 2], buf[i + 3], PacketSize(buf[i + 4], buf[i + 5]), buf[i + 6], current)];
        }
        assert found == before + ReadEndpoint(buf[i..], current);
        PrependTwice(before, ReadEndpoint(buf[i..], current), Walk(buf[i + length..], current));
      }
      i := i + length;
    }
    return if found == [] then NoEndpoint else Found(found);
  }

  lemma PrependNone(rest: Option<seq<EndpointInfo>>)
    ensures Prepend([], rest) == rest
  {
    if rest.Some? {
      assert [] + rest.value == rest.value;
    }
  }

  lemma PrependTwice(a: seq<EndpointInfo>, b: seq<EndpointInfo>, rest: Option<seq<EndpointInfo>>)
    ensures Prepend(a, Prepend(b, rest)) == Prepend(a + b, rest)
  {
    if rest.Some? {
      assert a + (b + rest.value) == a + b + rest.value;
    }
  }

  /** Descriptors as a device sends them; `extra` is what follows the standard fields. */
  datatype Descriptor =
    | InterfaceDescriptor(number: Byte, alternate: Byte, endpoints: Byte, class_: Byte, subclass: Byte, protocol: Byte, text: Byte, extra: seq<Byte>)
    | EndpointDescriptor(address: Byte, attributes: Byte, packet: nat, interval: Byte, extra: seq<Byte>)
    | Other(kind: Byte, body: seq<Byte>)

  ghost predicate WellFormed(d: Descriptor) {
    match d
    case InterfaceDescriptor(_, _, _, _, _, _, _, extra) => |extra| <= 246
    case EndpointDescriptor(_, _, packet, _, extra) => packet < 0x1_0000 && |extra| <= 248
    case Other(kind, body) => kind != 4 && kind != 5 && |body| <= 253
  }

  /** Type 4 is an interface and 5 an endpoint, whose packet size goes low byte first (tables 9-5 and 9-13 of USB 2.0). */
  ghost function Serialize(d: Descriptor): seq<Byte>
    requires WellFormed(d)
  {
    match d
    case InterfaceDescriptor(n, a, e, c, s, p, t, extra) => [9 + |extra|, 4, n, a, e, c, s, p, t] + extra
    case EndpointDescriptor(a, b, packet, i, extra) => [7 + |extra|, 5, a, b, packet % 256, packet / 256, i] + extra
    case Other(kind, body) => [2 + |body|, kind] + body
  }

  ghost function SerializeAll(ds: seq<Descriptor>): seq<Byte>
    requires forall d | d in ds :: WellFormed(d)
  {
    if ds == [] then [] else Serialize(ds[0]) + SerializeAll(ds[1..])
  }

  /** The interface in force after a descriptor. */
  ghost function After(d: Descriptor, current: Interface): Interface {
    match d
    case InterfaceDescriptor(n, _, _, c, _, p, _, _) => Interface(n, c, p)
    case _ => current
  }

  /** The endpoint a descriptor itself contributes. */
  ghost function Own(d: Descriptor, current: Interface): seq<EndpointInfo> {
    match d
    case EndpointDescriptor(a, b, packet, i, _) =>
      if a >= 0x80 && b % 4 == 3 then [EndpointInfo(a, b, packet, i, current)] else []
    case _ => []
  }

  /** The interrupt IN endpoints in order, each with the nearest interface before it. */
  ghost function Expected(ds: seq<Descriptor>, current: Interface): seq<EndpointInfo> {
    if ds == [] then [] else Own(ds[0], current) + Expected(ds[1..], After(ds[0], current))
  }

  ghost predicate AllZero(s: seq<Byte>) {
    forall i | 0 <= i < |s| :: s[i] == 0
  }

  /** The walk undoes serialisation, whatever zero padding follows. */
  lemma {:induction false} WalkUndoesSerialize(ds: seq<Descriptor>, padding: seq<Byte>, current: Interface)
    requires (forall d | d in ds :: WellFormed(d)) && AllZero(padding)
    ensures Walk(SerializeAll(ds) + padding, current) == Some(Expected(ds, current))
    decreases |ds|
  {
    if ds == [] {
      assert SerializeAll(ds) + padding == padding;
    } else {
      var rest := SerializeAll(ds[1..]) + padding;
      assert SerializeAll(ds) + padding == Serialize(ds[0]) + rest;
      WalkOne(ds[0], rest, current);
      WalkUndoesSerialize(ds[1..], padding, After(ds[0], current));
    }
  }

  /** How many of the descriptors lie wholly inside the first n bytes. */
  ghost function WholeInside(ds: seq<Descriptor>, n: nat): (k: nat)
    requires forall d | d in ds :: WellFormed(d)
    ensures k <= |ds|
  {
    if ds == [] || |Serialize(ds[0])| > n then 0 else 1 + WholeInside(ds[1..], n - |Serialize(ds[0])|)
  }

  /** Cut anywhere, as the buffer of 256 bytes cuts it, the walk never panics and returns the endpoints of the whole descriptors. */
  lemma {:induction false} WalkTruncated(ds: seq<Descriptor>, n: nat, current: Interface)
    requires (forall d | d in ds :: WellFormed(d)) && n <= |SerializeAll(ds)|
    ensures Walk(SerializeAll(ds)[..n], current) == Some(Expected(ds[..WholeInside(ds, n)], current))
    decreases |ds|
  {
    if ds == [] {
      assert SerializeAll(ds)[..n] == [];
    } else {
      var first, m := Serialize(ds[0]), |Serialize(ds[0])|;
      if m > n {
        assert n > 0 ==> SerializeAll(ds)[..n][0] == m;
        assert Expected(ds[..0], current) == [];
      } else {
        var rest := SerializeAll(ds[1..])[..n - m];
        assert SerializeAll(ds)[..n] == first + rest;
        WalkOne(ds[0], rest, current);
        WalkTruncated(ds[1..], n - m, After(ds[0], current));
        var k := WholeInside(ds, n);
        assert ds[..k][0] == ds[0] && ds[..k][1..] == ds[1..][..k - 1];
      }
    }
  }

  lemma WalkOne(d: Descriptor, rest: seq<Byte>, current: Interface)
    requires WellFormed(d)
    ensures Walk(Serialize(d) + rest, current) ==
              Prepend(Own(d, current), Walk(rest, After(d, current)))
  {
    var buf := Serialize(d) + rest;
    assert buf[0] == |Serialize(d)| && buf[buf[0]..] == rest;
    PrependNone(Walk(rest, After(d, current)));
    match d
    case InterfaceDescriptor(n, _, _, c, _, p, _, _) =>
      assert buf[1] == INTERFACE && buf[2] == n && buf[5] == c && buf[7] == p;
    case EndpointDescriptor(a, b, packet, i, _) =>
      assert buf[1] == ENDPOINT && buf[2] == a && buf[3] == b && buf[4] == packet % 256 && buf[5] == packet / 256 && buf[6] == i;
    case Other(kind, _) =>
      assert buf[1] == kind;
  }

  /** The nearest interface descriptor before position k. */
  ghost function Nearest(ds: seq<Descriptor>, k: nat, current: Interface): Interface
    requires k <= |ds|
  {
    if k == 0 then current
    else if ds[k - 1].InterfaceDescriptor? then Interface(ds[k - 1].number, ds[k - 1].class_, ds[k - 1].protocol)
    else Nearest(ds, k - 1, current)
  }

  /** The interrupt IN endpoints from position k on, each tagged by position rather than by a carried state. */
  ghost function TaggedFrom(ds: seq<Descriptor>, k: nat, current: Interface): seq<EndpointInfo>
    requires k <= |ds|
    decreases |ds| - k
  {
    if k == |ds| then [] else Own(ds[k], Nearest(ds, k, current)) + TaggedFrom(ds, k + 1, current)
  }

  lemma {:induction false} ExpectedTagged(ds: seq<Descriptor>, k: nat, current: Interface)
    requires k <= |ds|
    ensures Expected(ds[k..], Nearest(ds, k, current)) == TaggedFrom(ds, k, current)
    decreases |ds| - k
  {
    if k < |ds| {
      assert ds[k..][1..] == ds[k + 1..];
      ExpectedTagged(ds, k + 1, current);
    }
  }

  /** For every well-formed descriptor sequence and any zero padding the walk returns the tagged endpoints. */
  lemma WalkTagsNearest(ds: seq<Descriptor>, padding: seq<Byte>, current: Interface)
    requires (forall d | d in ds :: WellFormed(d)) && AllZero(padding)
    ensures Walk(SerializeAll(ds) + padding, current) == Some(TaggedFrom(ds, 0, current))
  {
    WalkUndoesSerialize(ds, padding, current);
    ExpectedTagged(ds, 0, current);
    assert ds[0..] == ds;
  }

  /** An interface descriptor cut short at the end of the buffer makes the walk panic. */
  lemma TruncatedPanics(current: Interface)
    ensures Walk([2, INTERFACE], current) == None && Walk([2, ENDPOINT], current) == None
  {
  }

  /** How the walk divides any buffer: complete descriptors by their length bytes, then a rest it ignores. */
  ghost function Pieces(buf: seq<Byte>): seq<seq<Byte>>
    decreases |buf|
  {
    if |buf| < 2 || buf[0] == 0 || buf[0] > |buf| then [] else [buf] + Pieces(buf[buf[0]..])
  }

  ghost predicate CutShort(rest: seq<Byte>) {
    |rest| >= 2 && ((rest[1] == INTERFACE && |rest| < 8) || (rest[1] == ENDPOINT && |rest| < 7))
  }

  /** For every buffer: the walk panics exactly if an interface or endpoint descriptor it reaches has fewer bytes left than it reads. */
  lemma {:induction false} PanicExactly(buf: seq<Byte>, current: Interface)
    ensures Walk(buf, current).None? <==>
            exists k | 0 <= k < |Pieces(buf)| :: CutShort(Pieces(buf)[k])
    decreases |buf|
  {
    if !(|buf| < 2 || buf[0] == 0 || buf[0] > |buf|) {
      var pieces, rest := Pieces(buf), Pieces(buf[buf[0]..]);
      assert pieces == [buf] + rest;
      var next := if buf[1] == INTERFACE && |buf| >= 8 then Interface(buf[2], buf[5], buf[7]) else current;
      PanicExactly(buf[buf[0]..], next);
      assert forall k | 0 <= k < |rest| :: pieces[k + 1] == rest[k];
      assert pieces[0] == buf;
      if exists k | 0 <= k < |pieces| :: CutShort(pieces[k]) {
        var k :| 0 <= k < |pieces| && CutShort(pieces[k]);
        if k > 0 {
          assert CutShort(rest[k - 1]);
        }
      }
      if exists k | 0 <= k < |rest| :: CutShort(rest[k]) {
        var k :| 0 <= k < |rest| && CutShort(rest[k]);
        assert CutShort(pieces[k + 1]);
      }
    }
  }
}
