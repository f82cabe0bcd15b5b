/**
 What arrives of an enumeration: the requests a device's EP0 ring was given, and the commands on the
 command ring, against rings that have no Link TRB.
 */
module Enumeration {
  import opened Wrappers
  import opened Trbs
  import opened LinklessRing
  import R = UsbRegistry
  import UsbDriver

  /** The stages of an enumeration with k driver endpoints: two descriptors, SET_CONFIGURATION, k SET_PROTOCOLs. */
  function EnumerationStages(k: nat): (stages: seq<Stage>)
    ensures |stages| == 8 + 2 * k
  {
    if k == 0 then
      [SetupStage, DataStage, StatusStage, SetupStage, DataStage, StatusStage, SetupStage, StatusStage]
    else EnumerationStages(k - 1) + [SetupStage, StatusStage]
  }

  lemma StagesJoin(a: seq<Trb>, b: seq<Trb>)
    ensures Stages(a + b) == Stages(a) + Stages(b)
  {
  }

  lemma TransferStages(setup: nat, buffer: nat, len: nat)
    ensures Stages(TransferIn(setup, buffer, len)) == [SetupStage, DataStage, StatusStage]
    ensures Stages(TransferNoData(setup)) == [SetupStage, StatusStage]
  {
  }

  /** The requests before the first SET_PROTOCOL. */
  ghost function Preamble(buffer: nat): seq<Trb> {
    TransferIn(R.GET_DEVICE_DESCRIPTOR, buffer, 18) + TransferIn(R.GET_CONFIGURATION_DESCRIPTOR, buffer, 256)
    + TransferNoData(R.SET_CONFIGURATION)
  }

  lemma PreambleStages(buffer: nat)
    ensures Stages(Preamble(buffer)) == EnumerationStages(0) && |Preamble(buffer)| == 8
  {
    TransferStages(R.GET_DEVICE_DESCRIPTOR, buffer, 18);
    TransferStages(R.GET_CONFIGURATION_DESCRIPTOR, buffer, 256);
    TransferStages(R.SET_CONFIGURATION, buffer, 0);
    StagesJoin(TransferIn(R.GET_DEVICE_DESCRIPTOR, buffer, 18), TransferIn(R.GET_CONFIGURATION_DESCRIPTOR, buffer, 256));
    StagesJoin(TransferIn(R.GET_DEVICE_DESCRIPTOR, buffer, 18) + TransferIn(R.GET_CONFIGURATION_DESCRIPTOR, buffer, 256),
               TransferNoData(R.SET_CONFIGURATION));
  }

  /** The requests of the enumeration of a usable device are, stage by stage, those of its driver endpoints. */
  lemma {:induction false} ProtocolStages(buffer: nat, endpoints: seq<R.Target>)
    ensures Stages(Preamble(buffer) + R.ProtocolRequests(endpoints)) == EnumerationStages(R.Dispatchable(endpoints))
    decreases |endpoints|
  {
    if endpoints == [] {
      PreambleStages(buffer);
      assert Preamble(buffer) + [] == Preamble(buffer);
    } else {
      var n := |endpoints| - 1;
      var before := Preamble(buffer) + R.ProtocolRequests(endpoints[..n]);
      ProtocolStages(buffer, endpoints[..n]);
      OneMore(before, endpoints[n], R.Dispatchable(endpoints[..n]));
      assert Preamble(buffer) + R.ProtocolRequests(endpoints) == before + R.ProtocolRequest(endpoints[n]);
    }
  }

  lemma OneMore(before: seq<Trb>, ep: R.Target, k: nat)
    requires Stages(before) == EnumerationStages(k)
    ensures Stages(before + R.ProtocolRequest(ep)) ==
              EnumerationStages(if R.Drives(ep, R.Keyboard) || R.Drives(ep, R.Mouse) then k + 1 else k)
  {
    StagesJoin(before, R.ProtocolRequest(ep));
    TransferStages(R.SetProtocol(ep.info.interface.number), 0, 0);
  }

  lemma RequestStages(d: R.Device, buffer: nat)
    requires R.Usable(d)
    ensures Stages(R.DeviceRequests(d, buffer)) == EnumerationStages(R.Dispatchable(R.Endpoints(d).value))
  {
    ProtocolStages(buffer, R.Endpoints(d).value);
    assert R.DeviceRequests(d, buffer) == Preamble(buffer) + R.ProtocolRequests(R.Endpoints(d).value);
  }

  /** bRequest of a setup packet. */
  function RequestOf(t: Trb): nat {
    t.parameter / 0x100 % 0x100
  }

  const SET_PROTOCOL := 0x0B

  /** Requests 2j and 2j + 1 are the stages of one SET_PROTOCOL. */
  ghost predicate ProtocolAt(ts: seq<Trb>, j: nat) {
    2 * j + 1 < |ts| && RequestOf(ts[2 * j]) == SET_PROTOCOL && StageOf(ts[2 * j]) == SetupStage && StageOf(ts[2 * j + 1]) == StatusStage
  }

  lemma ProtocolFields(interfaceNumber: nat)
    ensures var ts := TransferNoData(R.SetProtocol(interfaceNumber));
            RequestOf(ts[0]) == SET_PROTOCOL && StageOf(ts[0]) == SetupStage && StageOf(ts[1]) == StatusStage
  {
    var p := R.SetProtocol(interfaceNumber);
    assert p == 0x21 + 0x100 * (0x0B + 0x100 * (0x1_0000 * interfaceNumber));
    assert p / 0x100 == 0x0B + 0x100 * (0x1_0000 * interfaceNumber);
  }

  lemma {:induction false} ProtocolShape(endpoints: seq<R.Target>)
    ensures |R.ProtocolRequests(endpoints)| == 2 * R.Dispatchable(endpoints)
    ensures forall j: nat | j < R.Dispatchable(endpoints) :: ProtocolAt(R.ProtocolRequests(endpoints), j)
    decreases |endpoints|
  {
    if endpoints != [] {
      var n := |endpoints| - 1;
      var before := R.ProtocolRequests(endpoints[..n]);
      var k := R.Dispatchable(endpoints[..n]);
      ProtocolShape(endpoints[..n]);
      ProtocolFields(endpoints[n].info.interface.number);
      forall j: nat | j < R.Dispatchable(endpoints)
        ensures ProtocolAt(R.ProtocolRequests(endpoints), j)
      {
        assert j < k ==> ProtocolAt(before, j);
      }
    }
  }

  /** The first four SET_PROTOCOLs of a device with that many driver endpoints. */
  lemma FourthProtocol(d: R.Device, buffer: nat)
    requires R.Usable(d) && R.Dispatchable(R.Endpoints(d).value) >= 4
    ensures var ts := R.DeviceRequests(d, buffer);
            |ts| >= 16 && RequestOf(ts[14]) == SET_PROTOCOL && StageOf(ts[14]) == SetupStage && StageOf(ts[15]) == StatusStage
  {
    var protocols := R.ProtocolRequests(R.Endpoints(d).value);
    ProtocolShape(R.Endpoints(d).value);
    assert ProtocolAt(protocols, 3);
    PreambleStages(buffer);
    var ts := R.DeviceRequests(d, buffer);
    assert ts == Preamble(buffer) + protocols;
    assert ts[14] == protocols[6] && ts[15] == protocols[7];
  }

  lemma SameStage(a: Trb, b: Trb)
    requires SameRequest(a, b)
    ensures StageOf(a) == StageOf(b) && RequestOf(a) == RequestOf(b)
  {
    assert a.control / 1024 == a.control / 2 / 512 && b.control / 1024 == b.control / 2 / 512;
  }

  /**
   Of the requests of a usable device, sent on its own new ring to a controller that takes all it can,
   every one arrives if and only if at most three endpoints go to a driver.
   */
  lemma EnumerationFits(d: R.Device, buffer: nat, run: seq<Action>)
    requires R.Usable(d) && Execute(Initial(CONTROL_RING_SIZE), run, true).Some? && Sends(run) == R.DeviceRequests(d, buffer)
    requires ControllerFetch(Execute(Initial(CONTROL_RING_SIZE), run, true).value).None?
    ensures var s := Execute(Initial(CONTROL_RING_SIZE), run, true).value;
            s.fetched == s.sent <==> R.Dispatchable(R.Endpoints(d).value) <= 3
  {
    Delivered(CONTROL_RING_SIZE, run, R.DeviceRequests(d, buffer));
    RequestStages(d, buffer);
  }

  /** With a fourth endpoint the first TRB that is lost is the Status Stage of its SET_PROTOCOL. */
  lemma LostStage(d: R.Device, buffer: nat, run: seq<Action>)
    requires R.Usable(d) && R.Dispatchable(R.Endpoints(d).value) >= 4
    requires Execute(Initial(CONTROL_RING_SIZE), run, true).Some? && Sends(run) == R.DeviceRequests(d, buffer)
    requires ControllerFetch(Execute(Initial(CONTROL_RING_SIZE), run, true).value).None?
    ensures var s := Execute(Initial(CONTROL_RING_SIZE), run, true).value;
            && |s.sent| >= 16 && s.fetched == s.sent[..15]
            && StageOf(s.sent[14]) == SetupStage && RequestOf(s.sent[14]) == SET_PROTOCOL && StageOf(s.sent[15]) == StatusStage
  {
    var ts := R.DeviceRequests(d, buffer);
    Delivered(CONTROL_RING_SIZE, run, ts);
    FourthProtocol(d, buffer);
    var s := Execute(Initial(CONTROL_RING_SIZE), run, true).value;
    assert SameRequest(s.sent[14], ts[14]) && SameRequest(s.sent[15], ts[15]);
    SameStage(s.sent[14], ts[14]);
    SameStage(s.sent[15], ts[15]);
  }

  // What the device is asked for, as it reads the TRBs.

  /** GET_DESCRIPTOR for the device descriptor, number 1, and its 18 bytes. */
  ghost function AsksDevice(buffer: nat): Control {
    Incoming(Request(0x80, 0x06, 0x0100, 0, 18), buffer)
  }

  /** GET_DESCRIPTOR for the configuration descriptor, number 2, and up to 256 bytes. */
  ghost function AsksConfiguration(buffer: nat): Control {
    Incoming(Request(0x80, 0x06, 0x0200, 0, 256), buffer)
  }

  /** SET_CONFIGURATION, to configuration 1. */
  const SELECTS: Control := NoData(Request(0x00, 0x09, 1, 0, 0))

  /** SET_PROTOCOL to boot protocol, 0, for every interface whose endpoint goes to a driver. */
  ghost function BootProtocols(endpoints: seq<R.Target>): seq<Control> {
    if endpoints == [] then []
    else
      (if R.Drives(endpoints[0], R.Keyboard) || R.Drives(endpoints[0], R.Mouse)
       then [NoData(Request(0x21, 0x0B, 0, endpoints[0].info.interface.number, 0))] else [])
      + BootProtocols(endpoints[1..])
  }

  /** The control transfers of the enumeration of a device, as far as the device lets it get. */
  ghost function Asked(d: R.Device, buffer: nat): seq<Control> {
    if !d.describes then [AsksDevice(buffer)]
    else if R.Endpoints(d).None? then [AsksDevice(buffer), AsksConfiguration(buffer)]
    else if !d.setsConfiguration then [AsksDevice(buffer), AsksConfiguration(buffer), SELECTS]
    else [AsksDevice(buffer), AsksConfiguration(buffer), SELECTS] + BootProtocols(R.Endpoints(d).value)
  }

  lemma Regroup(a: seq<Trb>, b: seq<Trb>, c: seq<Trb>)
    ensures (a + b) + c == a + (b + c)
  {
  }

  /** The requests of the endpoints from the front; the ring has them from the back. */
  lemma {:induction false} ProtocolsFront(endpoints: seq<R.Target>)
    requires endpoints != []
    ensures R.ProtocolRequests(endpoints) == R.ProtocolRequest(endpoints[0]) + R.ProtocolRequests(endpoints[1..])
    decreases |endpoints|
  {
    var n := |endpoints| - 1;
    if n == 0 {
      assert endpoints[..0] == [] && endpoints[1..] == [];
    } else {
      var middle := endpoints[1..][..n - 1];
      ProtocolsFront(endpoints[..n]);
      assert endpoints[..n][1..] == middle && endpoints[1..][n - 1] == endpoints[n];
      Regroup(R.ProtocolRequest(endpoints[0]), R.ProtocolRequests(middle), R.ProtocolRequest(endpoints[n]));
    }
  }

  lemma {:induction false} ParseProtocols(endpoints: seq<R.Target>)
    ensures Parse(R.ProtocolRequests(endpoints)) == Some(BootProtocols(endpoints))
    decreases |endpoints|
  {
    if endpoints != [] {
      var number := endpoints[0].info.interface.number;
      ProtocolsFront(endpoints);
      ParseProtocols(endpoints[1..]);
      DecodeUndoesPack(0x21, 0x0B, 0, number, 0);
      ParseNoData(R.SetProtocol(number), R.ProtocolRequests(endpoints[1..]));
      assert [] + R.ProtocolRequests(endpoints[1..]) == R.ProtocolRequests(endpoints[1..]);
      assert [] + BootProtocols(endpoints[1..]) == BootProtocols(endpoints[1..]);
    }
  }

  lemma PacketFields()
    ensures Decode(R.GET_DEVICE_DESCRIPTOR) == Request(0x80, 0x06, 0x0100, 0, 18)
    ensures Decode(R.GET_CONFIGURATION_DESCRIPTOR) == Request(0x80, 0x06, 0x0200, 0, 256)
    ensures Decode(R.SET_CONFIGURATION) == Request(0x00, 0x09, 1, 0, 0)
  {
    DecodeUndoesPack(0x80, 0x06, 0x0100, 0, 18);
    DecodeUndoesPack(0x80, 0x06, 0x0200, 0, 256);
    DecodeUndoesPack(0x00, 0x09, 1, 0, 0);
  }

  /** Both descriptors and then the rest. */
  lemma ParseDescriptors(buffer: nat, rest: seq<Trb>, cs: seq<Control>)
    requires Parse(rest) == Some(cs)
    ensures var device := TransferIn(R.GET_DEVICE_DESCRIPTOR, buffer, 18);
            var configuration := TransferIn(R.GET_CONFIGURATION_DESCRIPTOR, buffer, 256);
            && Parse(device + rest) == Some([AsksDevice(buffer)] + cs)
            && Parse(device + configuration + rest) == Some([AsksDevice(buffer), AsksConfiguration(buffer)] + cs)
  {
    var device := TransferIn(R.GET_DEVICE_DESCRIPTOR, buffer, 18);
    var configuration := TransferIn(R.GET_CONFIGURATION_DESCRIPTOR, buffer, 256);
    PacketFields();
    ParseIncoming(R.GET_DEVICE_DESCRIPTOR, buffer, rest);
    ParseIncoming(R.GET_CONFIGURATION_DESCRIPTOR, buffer, rest);
    ParseIncoming(R.GET_DEVICE_DESCRIPTOR, buffer, configuration + rest);
    assert device + (configuration + rest) == device + configuration + rest;
    assert [AsksDevice(buffer)] + ([AsksConfiguration(buffer)] + cs) == [AsksDevice(buffer), AsksConfiguration(buffer)] + cs;
  }

  /** SET_CONFIGURATION after both descriptors, and what follows it. */
  lemma ParseSelect(buffer: nat, rest: seq<Trb>, cs: seq<Control>)
    requires Parse(rest) == Some(cs)
    ensures Parse(TransferIn(R.GET_DEVICE_DESCRIPTOR, buffer, 18) + TransferIn(R.GET_CONFIGURATION_DESCRIPTOR, buffer, 256)
                  + TransferNoData(R.SET_CONFIGURATION) + rest)
            == Some([AsksDevice(buffer), AsksConfiguration(buffer), SELECTS] + cs)
  {
    var both := TransferIn(R.GET_DEVICE_DESCRIPTOR, buffer, 18) + TransferIn(R.GET_CONFIGURATION_DESCRIPTOR, buffer, 256);
    PacketFields();
    ParseNoData(R.SET_CONFIGURATION, rest);
    ParseDescriptors(buffer, TransferNoData(R.SET_CONFIGURATION) + rest, [SELECTS] + cs);
    assert both + (TransferNoData(R.SET_CONFIGURATION) + rest) == both + TransferNoData(R.SET_CONFIGURATION) + rest;
    assert [AsksDevice(buffer), AsksConfiguration(buffer)] + ([SELECTS] + cs) == [AsksDevice(buffer), AsksConfiguration(buffer), SELECTS] + cs;
  }

  /** For every device the TRBs on its ring read back as exactly the transfers its answers call for, one event each. */
  lemma RequestsAsked(d: R.Device, buffer: nat)
    ensures Parse(R.DeviceRequests(d, buffer)) == Some(Asked(d, buffer))
  {
    if !d.describes || R.Endpoints(d).None? {
      ParseDescriptors(buffer, [], []);
      Closed(R.DeviceRequests(d, buffer), Asked(d, buffer));
    } else if !d.setsConfiguration {
      ParseSelect(buffer, [], []);
      Closed(R.DeviceRequests(d, buffer), Asked(d, buffer));
    } else {
      ParseProtocols(R.Endpoints(d).value);
      ParseSelect(buffer, R.ProtocolRequests(R.Endpoints(d).value), BootProtocols(R.Endpoints(d).value));
    }
  }

  lemma Closed(ts: seq<Trb>, cs: seq<Control>)
    ensures ts + [] == ts && cs + [] == cs
  {
  }

  /**
   The controller, taking all it can from the device's own new ring, receives exactly the transfers the
   enumeration calls for if and only if at most three endpoints go to a driver.
   */
  lemma AskedExactly(d: R.Device, buffer: nat, run: seq<Action>)
    requires Execute(Initial(CONTROL_RING_SIZE), run, true).Some? && Sends(run) == R.DeviceRequests(d, buffer)
    requires ControllerFetch(Execute(Initial(CONTROL_RING_SIZE), run, true).value).None?
    ensures var s := Execute(Initial(CONTROL_RING_SIZE), run, true).value;
            Parse(s.fetched) == Some(Asked(d, buffer)) <==> !R.Usable(d) || R.Dispatchable(R.Endpoints(d).value) <= 3
  {
    var ts := R.DeviceRequests(d, buffer);
    var s := Execute(Initial(CONTROL_RING_SIZE), run, true).value;
    Delivered(CONTROL_RING_SIZE, run, ts);
    RequestsAsked(d, buffer);
    ParseCounts(ts);
    ParseCounts(s.fetched);
    if R.Usable(d) {
      RequestStages(d, buffer);
    }
    if |ts| <= 15 {
      assert s.fetched == s.sent;
      ParseSame(s.fetched, ts);
    }
  }

  /** The ring `init_one_device` leaves for a device is that of any run which sends its requests, wherever the controller is. */
  lemma DeviceRing(stack: UsbDriver.UsbStack, d: R.Device, buffer: nat, run: seq<Action>)
    requires stack.ep0 != null && stack.ep0.Valid() && stack.ep0.trbs.Length == CONTROL_RING_SIZE
    requires stack.ep0.requests == R.DeviceRequests(d, buffer)
    requires Execute(Initial(CONTROL_RING_SIZE), run, true).Some? && Sends(run) == R.DeviceRequests(d, buffer)
    ensures var s := Execute(Initial(CONTROL_RING_SIZE), run, true).value;
            stack.ep0.Seen(s.dequeue, s.sent, s.fetched) == s
  {
    RingOfRun(stack.ep0, run, true);
  }

  // The command ring, which all devices share and which is never replaced.

  /** The command as the controller reads it: type in bits 10 to 15, slot in bits 24 to 31 (section 6.4.3 of the xHCI specification). */
  ghost predicate Commands(t: Trb, c: R.Command) {
    && t.control / 1024 % 64 == (match c case EnableSlot => 9 case DisableSlot(_) => 10 case AddressDevice(_, _) => 11 case ConfigureEndpoint(_) => 12)
    && (!c.EnableSlot? ==> t.control / 0x100_0000 % 256 == c.slot)
  }

  /** A type and a slot in one control word. */
  lemma TypeAndSlot(k: nat, slot: nat)
    requires k < 64 && slot < 256
    ensures (0x400 * k + 0x100_0000 * slot) / 1024 % 64 == k && (0x400 * k + 0x100_0000 * slot) / 0x100_0000 % 256 == slot
  {
    assert (0x400 * k + 0x100_0000 * slot) / 1024 == k + 0x4000 * slot;
    assert (0x400 * k + 0x100_0000 * slot) / 0x100_0000 == slot;
  }

  lemma SameCommand(a: nat, b: nat)
    requires a / 2 == b / 2
    ensures a / 1024 == b / 1024 && a / 0x100_0000 == b / 0x100_0000
  {
    assert a / 1024 == a / 2 / 512 && b / 1024 == b / 2 / 512;
    assert a / 0x100_0000 == a / 2 / 0x80_0000 && b / 0x100_0000 == b / 2 / 0x80_0000;
  }

  lemma CommandFields(t: Trb, c: R.Command)
    requires R.SlotFits(c) && SameRequest(t, R.CommandTrb(c, t.parameter))
    ensures Commands(t, c)
  {
    var asked := R.CommandTrb(c, t.parameter).control;
    SameCommand(t.control, asked);
    match c
    case EnableSlot => TypeAndSlot(9, 0);
    case DisableSlot(slot) => TypeAndSlot(10, slot);
    case AddressDevice(slot, _) => TypeAndSlot(11, slot);
    case ConfigureEndpoint(slot) => TypeAndSlot(12, slot);
  }

  /**
   Of all commands since boot, as the stack put them on the one command ring, every one reaches the controller if and only if
   there were at most 31; from the 32nd on none does.
   */
  lemma CommandsArrive(stack: UsbDriver.UsbStack, run: seq<Action>)
    requires stack.Wired() && Execute(Initial(COMMAND_RING_SIZE), run, true).Some? && Sends(run) == stack.commands.requests
    requires ControllerFetch(Execute(Initial(COMMAND_RING_SIZE), run, true).value).None?
    ensures var s := Execute(Initial(COMMAND_RING_SIZE), run, true).value;
            && stack.commands.Seen(s.dequeue, s.sent, s.fetched) == s
            && |s.sent| == |stack.log| && (s.fetched == s.sent <==> |stack.log| <= 31)
            && s.fetched == s.sent[..if |stack.log| <= 31 then |stack.log| else 31]
            && forall i | 0 <= i < |stack.log| :: Commands(s.sent[i], stack.log[i])
  {
    Delivered(COMMAND_RING_SIZE, run, Sends(run));
    RingOfRun(stack.commands, run, true);
    var s := Execute(Initial(COMMAND_RING_SIZE), run, true).value;
    forall i | 0 <= i < |stack.log|
      ensures Commands(s.sent[i], stack.log[i])
    {
      assert SameRequest(s.sent[i], stack.commands.requests[i]);
      CommandFields(s.sent[i], stack.log[i]);
    }
  }
}
