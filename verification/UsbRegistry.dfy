/**
 The registry of active ports, on values: which entries a synchronisation keeps and drops, and what
 the initialisation of the new ports does to entries, slots and commands. No command times out,
 which holds for the first 31 commands since boot (Enumeration.CommandsArrive).
 */
module UsbRegistry {
  import opened Wrappers
  import opened Trbs
  import LR = LinklessRing
  import D = Descriptors

  const SLOTS := 256

  datatype ActivePort = ActivePort(rootPort: nat, slot: nat, hasKeyboard: bool, hasMouse: bool)

  datatype Command = EnableSlot | DisableSlot(slot: nat) | AddressDevice(slot: nat, rootPort: nat) | ConfigureEndpoint(slot: nat)

  datatype DeviceKind = Keyboard | Mouse

  /** An interrupt endpoint the descriptor walk reports, and whether configuring it will succeed. */
  datatype Target = Target(info: D.EndpointInfo, configures: bool)

  /** The buffer for the configuration descriptor. */
  const BUFFER := 256

  /**
   What the device on a port will answer during enumeration: whether it takes an address and gives its
   device descriptor, its configuration descriptor, whether it takes the configuration, and which of its
   interrupt endpoints, by position, the controller refuses to configure.
   */
  datatype Device = Device(addresses: bool, describes: bool, configuration: Option<seq<D.Byte>>, setsConfiguration: bool, refused: set<nat>) {
    /** What of the configuration descriptor fits in the buffer. */
    function Received(): (bytes: seq<D.Byte>)
      requires configuration.Some?
      ensures bytes <= configuration.value && |bytes| <= 256 && (|bytes| < 256 ==> bytes == configuration.value)
    {
      if |configuration.value| <= BUFFER then configuration.value else configuration.value[..BUFFER]
    }
  }

  /** The endpoints found, each with what the controller will say to it. */
  function Targets(infos: seq<D.EndpointInfo>, refused: set<nat>): (targets: seq<Target>)
    ensures |targets| == |infos| && forall n | 0 <= n < |infos| :: targets[n] == Target(infos[n], n !in refused)
  {
    seq(|infos|, n requires 0 <= n < |infos| => Target(infos[n], n !in refused))
  }

  /** What the walk over the configuration descriptor finds; None if there is no descriptor or nothing in it. */
  ghost function Endpoints(d: Device): Option<seq<Target>> {
    if d.configuration.None? then None
    else
      match D.Walk(d.Received(), D.Interface(0, 0, 0))
      case None => None
      case Some(infos) => if infos == [] then None else Some(Targets(infos, d.refused))
  }

  /** The walk over the configuration descriptor indexes past the end, and the kernel panics. */
  ghost predicate Panics(d: Device) {
    d.describes && d.configuration.Some? && D.Walk(d.Received(), D.Interface(0, 0, 0)).None?
  }

  /**
   The outside world during one synchronisation: what Enable Slot answers to the initialisation of a
   root port for each set of enabled slots (no slot where the map is undefined), the slots that
   Disable Slot refuses, the devices, and the address of the buffers they fill.
   */
  datatype World = World(free: map<(nat, set<nat>), nat>, stuck: set<nat>, devices: map<nat, Device>, buffer: nat) {
    function Pick(rootPort: nat, used: set<nat>): Option<nat> {
      if (rootPort, used) in free then Some(free[(rootPort, used)]) else None
    }

    function DeviceAt(rootPort: nat): Device {
      if rootPort in devices then devices[rootPort] else Device(false, false, None, false, {})
    }
  }

  /** Enable Slot only hands out slots that are not enabled. */
  ghost predicate HonestWorld(w: World) {
    forall k | k in w.free :: 1 <= w.free[k] < SLOTS && w.free[k] !in k.1
  }

  ghost function Slots(active: seq<ActivePort>): set<nat> {
    set e | e in active :: e.slot
  }

  ghost predicate Distinct(active: seq<ActivePort>) {
    forall i, j | 0 <= i < j < |active| :: active[i].rootPort != active[j].rootPort && active[i].slot != active[j].slot
  }

  predicate HasPort(active: seq<ActivePort>, rootPort: nat) {
    exists i | 0 <= i < |active| :: active[i].rootPort == rootPort
  }

  predicate Connected(e: ActivePort, ports: seq<nat>) {
    exists k | 0 <= k < |ports| :: ports[k] + 1 == e.rootPort
  }

  /** The entries whose port is still connected, in order. */
  ghost function Kept(active: seq<ActivePort>, ports: seq<nat>): seq<ActivePort> {
    if active == [] then []
    else
      var n := |active| - 1;
      Kept(active[..n], ports) + (if Connected(active[n], ports) then [active[n]] else [])
  }

  /** The Disable Slot commands for the entries whose port is gone, in order. */
  ghost function Disables(active: seq<ActivePort>, ports: seq<nat>): seq<Command> {
    if active == [] then []
    else
      var n := |active| - 1;
      Disables(active[..n], ports) + (if Connected(active[n], ports) then [] else [DisableSlot(active[n].slot)])
  }

  ghost function Refusal(w: World, e: ActivePort, ports: seq<nat>): set<nat> {
    if !Connected(e, ports) && e.slot in w.stuck then {e.slot} else {}
  }

  ghost function Release(w: World, e: ActivePort, ports: seq<nat>): set<nat> {
    if !Connected(e, ports) && e.slot !in w.stuck then {e.slot} else {}
  }

  /** The slots of the dropped entries whose Disable Slot fails. */
  ghost function Refused(w: World, active: seq<ActivePort>, ports: seq<nat>): set<nat> {
    if active == [] then {}
    else
      var n := |active| - 1;
      Refused(w, active[..n], ports) + Refusal(w, active[n], ports)
  }

  /** The slots of the dropped entries whose Disable Slot succeeds. */
  ghost function Released(w: World, active: seq<ActivePort>, ports: seq<nat>): set<nat> {
    if active == [] then {}
    else
      var n := |active| - 1;
      Released(w, active[..n], ports) + Release(w, active[n], ports)
  }

  /** An endpoint that is handed to the driver of this kind. */
  ghost predicate Drives(ep: Target, kind: DeviceKind) {
    ep.info.interface.class_ == 3 && ep.configures && ep.info.interface.protocol == (if kind == Keyboard then 1 else 2)
  }

  ghost predicate HasDriver(endpoints: seq<Target>, kind: DeviceKind) {
    exists n | 0 <= n < |endpoints| :: Drives(endpoints[n], kind)
  }

  /** The device gets as far as having its endpoints dispatched. */
  ghost predicate Usable(d: Device) {
    d.describes && Endpoints(d).Some? && d.setsConfiguration
  }

  /** The entry of a device that got this slot and an address: flagged for exactly the drivers it is handed to. */
  ghost function Entry(w: World, rootPort: nat, slot: nat): ActivePort {
    var d := w.DeviceAt(rootPort);
    ActivePort(rootPort, slot, Usable(d) && HasDriver(Endpoints(d).value, Keyboard), Usable(d) && HasDriver(Endpoints(d).value, Mouse))
  }

  /** The Configure Endpoint commands of a device: one for every HID endpoint. */
  ghost function Configures(endpoints: seq<Target>, slot: nat): seq<Command> {
    if endpoints == [] then []
    else
      var n := |endpoints| - 1;
      Configures(endpoints[..n], slot) + (if endpoints[n].info.interface.class_ == 3 then [ConfigureEndpoint(slot)] else [])
  }

  /** The commands of one initialisation, given the answer of Enable Slot. */
  ghost function InitCommands(d: Device, picked: Option<nat>, rootPort: nat): seq<Command> {
    if picked.None? then [EnableSlot]
    else
      [EnableSlot, AddressDevice(picked.value, rootPort)]
      + (if d.addresses && Usable(d) then Configures(Endpoints(d).value, picked.value) else [])
  }

  // The control transfers of one initialisation.

  const GET_DEVICE_DESCRIPTOR := LR.SetupPacket(0x80, 0x06, 0x0100, 0, 18)
  const GET_CONFIGURATION_DESCRIPTOR := LR.SetupPacket(0x80, 0x06, 0x0200, 0, 256)
  const SET_CONFIGURATION := LR.SetupPacket(0x00, 0x09, 1, 0, 0)

  /** SET_PROTOCOL to an interface: boot protocol. */
  function SetProtocol(interfaceNumber: nat): nat {
    LR.SetupPacket(0x21, 0x0B, 0, interfaceNumber, 0)
  }

  ghost function ProtocolRequest(ep: Target): seq<Trb> {
    if Drives(ep, Keyboard) || Drives(ep, Mouse) then LR.TransferNoData(SetProtocol(ep.info.interface.number)) else []
  }

  /** One SET_PROTOCOL for every endpoint that goes to a driver. */
  ghost function ProtocolRequests(endpoints: seq<Target>): seq<Trb> {
    if endpoints == [] then []
    else
      var n := |endpoints| - 1;
      ProtocolRequests(endpoints[..n]) + ProtocolRequest(endpoints[n])
  }

  /** What the enumeration of an addressed device puts on its EP0 ring, as far as the device lets it get. */
  ghost function DeviceRequests(d: Device, buffer: nat): seq<Trb> {
    var device := LR.TransferIn(GET_DEVICE_DESCRIPTOR, buffer, 18);
    var configuration := device + LR.TransferIn(GET_CONFIGURATION_DESCRIPTOR, buffer, 256);
    if !d.describes then device
    else if Endpoints(d).None? then configuration
    else if !d.setsConfiguration then configuration + LR.TransferNoData(SET_CONFIGURATION)
    else configuration + LR.TransferNoData(SET_CONFIGURATION) + ProtocolRequests(Endpoints(d).value)
  }

  /** The TRB of a command; `context` is the address of its input context, if it has one. */
  function CommandTrb(c: Command, context: nat): Trb {
    match c
    case EnableSlot => Trb(0, 0, 0x400 * 9)
    case DisableSlot(slot) => Trb(0, 0, 0x400 * 10 + 0x100_0000 * slot)
    case AddressDevice(slot, _) => Trb(context, 0, 0x400 * 11 + 0x100_0000 * slot)
    case ConfigureEndpoint(slot) => Trb(context, 0, 0x400 * 12 + 0x100_0000 * slot)
  }

  predicate SlotFits(c: Command) {
    !c.EnableSlot? ==> 1 <= c.slot < SLOTS
  }

  /** The command ring carried exactly the logged commands. */
  ghost predicate Carries(ts: seq<Trb>, log: seq<Command>) {
    |ts| == |log| && forall i | 0 <= i < |ts| :: SlotFits(log[i]) && ts[i] == CommandTrb(log[i], ts[i].parameter)
  }

  /** How many initialisations a command sequence contains. */
  ghost function Enables(log: seq<Command>): nat {
    if log == [] then 0
    else Enables(log[..|log| - 1]) + (if log[|log| - 1] == EnableSlot then 1 else 0)
  }

  lemma {:induction false} EnablesJoin(a: seq<Command>, b: seq<Command>)
    ensures Enables(a + b) == Enables(a) + Enables(b)
  {
    if b == [] {
      assert a + b == a;
    } else {
      EnablesJoin(a, b[..|b| - 1]);
      assert (a + b)[..|a + b| - 1] == a + b[..|b| - 1];
    }
  }

  lemma {:induction false} ConfiguresOnly(endpoints: seq<Target>, slot: nat)
    ensures Enables(Configures(endpoints, slot)) == 0
    ensures forall i | 0 <= i < |Configures(endpoints, slot)| :: Configures(endpoints, slot)[i] == ConfigureEndpoint(slot)
  {
    if endpoints != [] {
      var n := |endpoints| - 1;
      ConfiguresOnly(endpoints[..n], slot);
      EnablesJoin(Configures(endpoints[..n], slot), if endpoints[n].info.interface.class_ == 3 then [ConfigureEndpoint(slot)] else []);
    }
  }

  /** `log` extends `before` without disabling any slot. */
  ghost predicate OnlyInits(log: seq<Command>, before: seq<Command>) {
    before <= log && forall i | |before| <= i < |log| :: !log[i].DisableSlot?
  }

  /** One initialisation enables one slot and disables none. */
  lemma InitCommandsOnce(before: seq<Command>, d: Device, picked: Option<nat>, rootPort: nat)
    ensures var log := before + InitCommands(d, picked, rootPort);
            OnlyInits(log, before) && Enables(log) == Enables(before) + 1
  {
    var commands := InitCommands(d, picked, rootPort);
    EnablesJoin(before, commands);
    assert Enables([EnableSlot]) == 1;
    if picked.Some? {
      var first := [EnableSlot, AddressDevice(picked.value, rootPort)];
      assert first[..1] == [EnableSlot];
      var rest := if d.addresses && Usable(d) then Configures(Endpoints(d).value, picked.value) else [];
      if Endpoints(d).Some? {
        ConfiguresOnly(Endpoints(d).value, picked.value);
      }
      EnablesJoin(first, rest);
    }
  }

  /** The root ports to initialise, in port order, that did not fail. */
  ghost function Added(kept: seq<ActivePort>, ports: seq<nat>, failed: seq<nat>): seq<nat> {
    if ports == [] then []
    else
      var n := |ports| - 1;
      var p := ports[n] + 1;
      Added(kept, ports[..n], failed) + (if HasPort(kept, p) || p in failed then [] else [p])
  }

  ghost function RootPorts(active: seq<ActivePort>): seq<nat> {
    seq(|active|, i requires 0 <= i < |active| => active[i].rootPort)
  }

  /** A driver's slot, if it is attached, belongs to a registered device that is flagged for it. */
  ghost predicate DriverRegistered(driver: Option<nat>, active: seq<ActivePort>, keyboard: bool) {
    driver.Some? ==> exists i | 0 <= i < |active| ::
      active[i].slot == driver.value && (if keyboard then active[i].hasKeyboard else active[i].hasMouse)
  }

  // The connect loop.

  /** The state the connect loop works on; `failed` collects the root ports whose initialisation failed. A panic ends everything. */
  datatype Books = Books(active: seq<ActivePort>, log: seq<Command>, enabled: set<nat>, abandoned: set<nat>, failed: seq<nat>, panicked: bool)

  /** `init_one_device` on the books: an entry, or a failed port and, if it got a slot, that slot given up. */
  ghost function Init(w: World, s: Books, rootPort: nat): Books {
    var picked := w.Pick(rootPort, s.enabled);
    var t := s.(log := s.log + InitCommands(w.DeviceAt(rootPort), picked, rootPort));
    match picked
    case None => t.(failed := s.failed + [rootPort])
    case Some(slot) =>
      if w.DeviceAt(rootPort).addresses && Panics(w.DeviceAt(rootPort)) then t.(enabled := s.enabled + {slot}, panicked := true)
      else if w.DeviceAt(rootPort).addresses then t.(enabled := s.enabled + {slot}, active := s.active + [Entry(w, rootPort, slot)])
      else t.(enabled := s.enabled + {slot}, abandoned := s.abandoned + {slot}, failed := s.failed + [rootPort])
  }

  /** One initialisation that got a slot and an address. */
  lemma AddressedInit(w: World, s: Books, rootPort: nat, slot: nat)
    requires w.Pick(rootPort, s.enabled) == Some(slot) && w.DeviceAt(rootPort).addresses
    ensures var d := w.DeviceAt(rootPort);
            var log := s.log + [EnableSlot, AddressDevice(slot, rootPort)] + (if Usable(d) then Configures(Endpoints(d).value, slot) else []);
            Init(w, s, rootPort) ==
              if Panics(d) then s.(log := log, enabled := s.enabled + {slot}, panicked := true)
              else s.(log := log, enabled := s.enabled + {slot}, active := s.active + [Entry(w, rootPort, slot)])
  {
    var d := w.DeviceAt(rootPort);
    var rest := if Usable(d) then Configures(Endpoints(d).value, slot) else [];
    assert s.log + ([EnableSlot, AddressDevice(slot, rootPort)] + rest) == s.log + [EnableSlot, AddressDevice(slot, rootPort)] + rest;
  }

  ghost function ConnectPort(w: World, s: Books, rootPort: nat): Books {
    if s.panicked || HasPort(s.active, rootPort) then s else Init(w, s, rootPort)
  }

  ghost function ConnectPorts(w: World, s: Books, ports: seq<nat>): Books {
    if ports == [] then s
    else
      var n := |ports| - 1;
      ConnectPort(w, ConnectPorts(w, s, ports[..n]), ports[n] + 1)
  }

  /** The books after the disconnect loop. */
  ghost function DropPorts(w: World, s: Books, ports: seq<nat>): Books {
    s.(active := Kept(s.active, ports), log := s.log + Disables(s.active, ports), enabled := s.enabled - Released(w, s.active, ports))
  }

  ghost predicate PanicsNow(w: World, t: Books, p: nat) {
    !t.panicked && !HasPort(t.active, p) && w.Pick(p, t.enabled).Some? && w.DeviceAt(p).addresses && Panics(w.DeviceAt(p))
  }

  /** At its turn, with no panic before, the n-th port is initialised, gets a slot and an address, and its descriptor makes the walk panic. */
  ghost predicate PanicsAt(w: World, s: Books, ports: seq<nat>, n: nat) {
    n < |ports| && PanicsNow(w, ConnectPorts(w, s, ports[..n]), ports[n] + 1)
  }

  /** The order in which the scan finds connected ports. */
  ghost predicate Ascending(ports: seq<nat>) {
    forall i, j | 0 <= i < j < |ports| :: ports[i] < ports[j]
  }

  ghost predicate AllRegistered(active: seq<ActivePort>, ports: seq<nat>) {
    forall k | 0 <= k < |ports| :: HasPort(active, ports[k] + 1)
  }

  ghost predicate IsPort(ports: seq<nat>, p: nat) {
    exists k | 0 <= k < |ports| :: ports[k] + 1 == p
  }

  /** After the connect loop handled `ports`: the entries there were, then the successful new ones in port order. */
  ghost predicate Progressed(kept: seq<ActivePort>, active: seq<ActivePort>, ports: seq<nat>, failed: seq<nat>) {
    && kept <= active && RootPorts(active[|kept|..]) == Added(kept, ports, failed)
    && forall p | p in failed :: IsPort(ports, p)
  }

  /** Once panicked, nothing more happens. */
  lemma {:induction false} Frozen(w: World, s: Books, ports: seq<nat>, n: nat)
    requires n <= |ports| && ConnectPorts(w, s, ports[..n]).panicked
    ensures ConnectPorts(w, s, ports) == ConnectPorts(w, s, ports[..n])
    decreases |ports|
  {
    if n < |ports| {
      var m := |ports| - 1;
      assert ports[..m][..n] == ports[..n];
      Frozen(w, s, ports[..m], n);
    } else {
      assert ports[..n] == ports;
    }
  }

  /** The loop panics if and only if the turn of some port does. */
  lemma {:induction false} PanicsExactly(w: World, s: Books, ports: seq<nat>)
    requires !s.panicked
    ensures ConnectPorts(w, s, ports).panicked <==> exists n: nat :: PanicsAt(w, s, ports, n)
  {
    forall n: nat | PanicsAt(w, s, ports, n)
      ensures ConnectPorts(w, s, ports).panicked
    {
      assert ports[..n + 1][..n] == ports[..n];
      Frozen(w, s, ports, n + 1);
    }
    if ConnectPorts(w, s, ports).panicked {
      var n := FirstPanic(w, s, ports);
    }
  }

  lemma {:induction false} FirstPanic(w: World, s: Books, ports: seq<nat>) returns (n: nat)
    requires !s.panicked && ConnectPorts(w, s, ports).panicked
    ensures PanicsAt(w, s, ports, n)
    decreases |ports|
  {
    var last := |ports| - 1;
    var t := ConnectPorts(w, s, ports[..last]);
    if t.panicked {
      n := FirstPanic(w, s, ports[..last]);
      EarlierPanic(w, s, ports, last, n);
    } else {
      n := last;
      TurnPanics(w, t, ports[n] + 1);
    }
  }

  lemma EarlierPanic(w: World, s: Books, ports: seq<nat>, last: nat, n: nat)
    requires last < |ports| && PanicsAt(w, s, ports[..last], n)
    ensures PanicsAt(w, s, ports, n)
  {
    var before, p := ports[..n], ports[n] + 1;
    assert ports[..last][..n] == before && ports[..last][n] + 1 == p;
    assert PanicsNow(w, ConnectPorts(w, s, before), p);
  }

  lemma TurnPanics(w: World, t: Books, p: nat)
    requires !t.panicked && ConnectPort(w, t, p).panicked
    ensures PanicsNow(w, t, p)
  {
  }

  /** What Enable Slot answers at the turn of the n-th port. */
  ghost function PickAt(w: World, s: Books, ports: seq<nat>, n: nat): Option<nat>
    requires n < |ports|
  {
    w.Pick(ports[n] + 1, ConnectPorts(w, s, ports[..n]).enabled)
  }

  /** At its turn the n-th port is not registered, and is initialised. */
  ghost predicate TurnsUp(w: World, s: Books, ports: seq<nat>, n: nat)
    requires n < |ports|
  {
    !HasPort(ConnectPorts(w, s, ports[..n]).active, ports[n] + 1)
  }

  ghost predicate Gains(w: World, s: Books, rootPort: nat) {
    w.Pick(rootPort, s.enabled).Some? && w.DeviceAt(rootPort).addresses && !Panics(w.DeviceAt(rootPort))
  }

  /** At its turn the n-th port is initialised and gets a slot and an address. */
  ghost predicate Succeeds(w: World, s: Books, ports: seq<nat>, n: nat) {
    n < |ports| && TurnsUp(w, s, ports, n) && Gains(w, ConnectPorts(w, s, ports[..n]), ports[n] + 1)
  }

  /** At its turn the n-th port is initialised and gets no slot or no address. */
  ghost predicate Fails(w: World, s: Books, ports: seq<nat>, n: nat) {
    n < |ports| && TurnsUp(w, s, ports, n) && !(PickAt(w, s, ports, n).Some? && w.DeviceAt(ports[n] + 1).addresses)
  }

  /** After the n-th turn nothing about earlier turns changes. */
  lemma EarlierTurns(w: World, s: Books, ports: seq<nat>, m: nat, n: nat)
    requires n < m <= |ports|
    ensures PickAt(w, s, ports[..m], n) == PickAt(w, s, ports, n) && ports[..m][n] == ports[n]
    ensures Fails(w, s, ports[..m], n) == Fails(w, s, ports, n) && Succeeds(w, s, ports[..m], n) == Succeeds(w, s, ports, n)
  {
    assert ports[..m][..n] == ports[..n];
  }

  /** A port turns up exactly if it was not registered before the loop: no earlier turn registers it. */
  lemma TurnsUpExactly(w: World, s: Books, ports: seq<nat>, n: nat)
    requires n < |ports| && Ascending(ports) && s.failed == [] && !ConnectPorts(w, s, ports[..n]).panicked
    ensures TurnsUp(w, s, ports, n) <==> !HasPort(s.active, ports[n] + 1)
  {
    ConnectProgress(w, s, ports[..n]);
    ConnectStep(s.active, ConnectPorts(w, s, ports[..n]).active, ports, n, ConnectPorts(w, s, ports[..n]).failed);
  }

  /** The loop keeps the entries there are and appends the successful new ones in port order. */
  lemma {:induction false} ConnectProgress(w: World, s: Books, ports: seq<nat>)
    requires Ascending(ports) && s.failed == [] && !ConnectPorts(w, s, ports).panicked
    ensures Progressed(s.active, ConnectPorts(w, s, ports).active, ports, ConnectPorts(w, s, ports).failed)
    decreases |ports|
  {
    if ports != [] {
      var n := |ports| - 1;
      var t := ConnectPorts(w, s, ports[..n]);
      LastPort(w, s, ports, t);
      ConnectProgress(w, s, ports[..n]);
      ProgressStep(w, s.active, t, ConnectPorts(w, s, ports), ports, n);
    }
  }

  lemma ProgressStep(w: World, kept: seq<ActivePort>, t: Books, u: Books, ports: seq<nat>, n: nat)
    requires n + 1 == |ports| && Ascending(ports) && Progressed(kept, t.active, ports[..n], t.failed)
    requires u == ConnectPort(w, t, ports[n] + 1) && !u.panicked
    ensures Progressed(kept, u.active, ports, u.failed)
  {
    var p := ports[n] + 1;
    TurnCases(w, t, p);
    assert ports[..n + 1] == ports;
    if HasPort(t.active, p) {
      ProgressOn(kept, t.active, t.active, ports, n, t.failed);
    } else if Gains(w, t, p) {
      ProgressOn(kept, t.active, u.active, ports, n, t.failed);
    } else {
      ConnectStep(kept, t.active, ports, n, t.failed);
    }
  }

  /** The port was registered, or is now. */
  lemma ProgressOn(kept: seq<ActivePort>, now: seq<ActivePort>, next: seq<ActivePort>, ports: seq<nat>, n: nat, failed: seq<nat>)
    requires n + 1 == |ports| && Ascending(ports) && Progressed(kept, now, ports[..n], failed)
    requires if HasPort(now, ports[n] + 1) then next == now
             else |next| == |now| + 1 && next[..|now|] == now && next[|now|].rootPort == ports[n] + 1
    ensures Progressed(kept, next, ports, failed)
  {
    assert ports[..n + 1] == ports;
    PortsGrow(ports, n, failed, failed);
    ConnectStep(kept, now, ports, n, failed);
    if !HasPort(now, ports[n] + 1) {
      AppendStep(kept, now, next, ports[n] + 1);
    }
  }

  lemma TurnCases(w: World, t: Books, p: nat)
    requires !ConnectPort(w, t, p).panicked
    ensures var u := ConnectPort(w, t, p);
            if HasPort(t.active, p) then u == t
            else if Gains(w, t, p) then u.active == t.active + [Entry(w, p, w.Pick(p, t.enabled).value)] && u.failed == t.failed
            else u.active == t.active && u.failed == t.failed + [p]
  {
  }

  /** The n-th port is p, and fails. */
  ghost predicate FailsAt(w: World, s: Books, ports: seq<nat>, n: nat, p: nat) {
    Fails(w, s, ports, n) && ports[n] + 1 == p
  }

  ghost predicate FailsSome(w: World, s: Books, ports: seq<nat>, p: nat) {
    exists n: nat :: FailsAt(w, s, ports, n, p)
  }

  /** A port fails if and only if it was not registered and got no slot or no address at its turn. */
  lemma {:induction false} FailedExactly(w: World, s: Books, ports: seq<nat>, p: nat)
    requires s.failed == [] && !ConnectPorts(w, s, ports).panicked
    ensures p in ConnectPorts(w, s, ports).failed <==> FailsSome(w, s, ports, p)
    decreases |ports|
  {
    if ports != [] {
      var m := |ports| - 1;
      FailedLast(w, s, ports, p);
      FailedExactly(w, s, ports[..m], p);
      FailsEarlier(w, s, ports, p);
    }
  }

  lemma FailsEarlier(w: World, s: Books, ports: seq<nat>, p: nat)
    requires ports != []
    ensures var m := |ports| - 1;
            FailsSome(w, s, ports, p) <==> FailsSome(w, s, ports[..m], p) || (Fails(w, s, ports, m) && ports[m] + 1 == p)
  {
    var m := |ports| - 1;
    if FailsSome(w, s, ports, p) {
      var n: nat :| FailsAt(w, s, ports, n, p);
      FailsBefore(w, s, ports, p, n);
    }
    if FailsSome(w, s, ports[..m], p) {
      var n: nat :| FailsAt(w, s, ports[..m], n, p);
      FailsBefore(w, s, ports, p, n);
    }
    if Fails(w, s, ports, m) && ports[m] + 1 == p {
      assert FailsAt(w, s, ports, m, p);
    }
  }

  lemma FailsBefore(w: World, s: Books, ports: seq<nat>, p: nat, n: nat)
    requires n < |ports|
    ensures var m := |ports| - 1; n < m ==> FailsAt(w, s, ports[..m], n, p) == FailsAt(w, s, ports, n, p)
  {
    if n < |ports| - 1 {
      EarlierTurns(w, s, ports, |ports| - 1, n);
    }
  }

  lemma FailedLast(w: World, s: Books, ports: seq<nat>, p: nat)
    requires ports != [] && !ConnectPorts(w, s, ports).panicked
    ensures var m := |ports| - 1;
            && !ConnectPorts(w, s, ports[..m]).panicked
            && (p in ConnectPorts(w, s, ports).failed <==>
                p in ConnectPorts(w, s, ports[..m]).failed || (Fails(w, s, ports, m) && ports[m] + 1 == p))
  {
    var m := |ports| - 1;
    LastPort(w, s, ports, ConnectPorts(w, s, ports[..m]));
    FailStep(w, ConnectPorts(w, s, ports[..m]), ConnectPorts(w, s, ports), ports[m] + 1, p);
  }

  lemma FailStep(w: World, t: Books, u: Books, q: nat, p: nat)
    requires u == ConnectPort(w, t, q) && !u.panicked
    ensures !t.panicked
    ensures p in u.failed <==> p in t.failed || (!HasPort(t.active, q) && !(w.Pick(q, t.enabled).Some? && w.DeviceAt(q).addresses) && q == p)
  {
  }

  /** The i-th new entry is that of a port that succeeded, with the slot of its turn. */
  lemma {:induction false} NewEntry(w: World, s: Books, ports: seq<nat>, i: nat) returns (n: nat)
    requires !ConnectPorts(w, s, ports).panicked && |s.active| <= i < |ConnectPorts(w, s, ports).active|
    ensures Succeeds(w, s, ports, n) && ConnectPorts(w, s, ports).active[i] == Entry(w, ports[n] + 1, PickAt(w, s, ports, n).value)
    decreases |ports|
  {
    var m := |ports| - 1;
    LastEntry(w, s, ports, i);
    if i < |ConnectPorts(w, s, ports[..m]).active| {
      n := NewEntry(w, s, ports[..m], i);
      EarlierTurns(w, s, ports, m, n);
    } else {
      n := m;
    }
  }

  /** An entry is there before the last turn, or is what the last turn appended. */
  lemma LastEntry(w: World, s: Books, ports: seq<nat>, i: nat)
    requires ports != [] && !ConnectPorts(w, s, ports).panicked && i < |ConnectPorts(w, s, ports).active|
    ensures var m := |ports| - 1;
            var t := ConnectPorts(w, s, ports[..m]);
            && !t.panicked
            && if i < |t.active| then ConnectPorts(w, s, ports).active[i] == t.active[i]
               else Succeeds(w, s, ports, m) && ConnectPorts(w, s, ports).active[i] == Entry(w, ports[m] + 1, PickAt(w, s, ports, m).value)
  {
    var m := |ports| - 1;
    LastPort(w, s, ports, ConnectPorts(w, s, ports[..m]));
    EntryStep(w, ConnectPorts(w, s, ports[..m]), ConnectPorts(w, s, ports), ports[m] + 1, i);
  }

  lemma EntryStep(w: World, t: Books, u: Books, p: nat, i: nat)
    requires u == ConnectPort(w, t, p) && !u.panicked && i < |u.active|
    ensures !t.panicked
    ensures if i < |t.active| then u.active[i] == t.active[i]
            else !HasPort(t.active, p) && Gains(w, t, p) && u.active[i] == Entry(w, p, w.Pick(p, t.enabled).value)
  {
    TurnCases(w, t, p);
  }

  /** One Enable Slot per new entry and per failed port, no Disable Slot, and nothing at all if there are none of them. */
  ghost predicate Counted(s: Books, t: Books) {
    var inits := |t.active| - |s.active| + |t.failed| - |s.failed| + (if t.panicked then 1 else 0) - (if s.panicked then 1 else 0);
    OnlyInits(t.log, s.log) && Enables(t.log) == Enables(s.log) + inits && (inits == 0 ==> t.log == s.log) && inits >= 0
  }

  lemma {:induction false} ConnectCounted(w: World, s: Books, ports: seq<nat>)
    ensures Counted(s, ConnectPorts(w, s, ports))
    decreases |ports|
  {
    if ports != [] {
      var n := |ports| - 1;
      var t := ConnectPorts(w, s, ports[..n]);
      ConnectCounted(w, s, ports[..n]);
      LastPort(w, s, ports, t);
      CountedStep(w, s, t, ConnectPorts(w, s, ports), ports[n] + 1);
    }
  }

  lemma LastPort(w: World, s: Books, ports: seq<nat>, t: Books)
    requires ports != [] && t == ConnectPorts(w, s, ports[..|ports| - 1])
    ensures ConnectPorts(w, s, ports) == ConnectPort(w, t, ports[|ports| - 1] + 1)
  {
  }

  lemma CountedStep(w: World, s: Books, t: Books, u: Books, rootPort: nat)
    requires Counted(s, t) && u == ConnectPort(w, t, rootPort)
    ensures Counted(s, u)
  {
    if !t.panicked && !HasPort(t.active, rootPort) {
      InitCommandsOnce(t.log, w.DeviceAt(rootPort), w.Pick(rootPort, t.enabled), rootPort);
      InitsJoin(u.log, t.log, s.log);
    }
  }

  /** How many ports got no slot at their turn. */
  ghost function SlotlessTurns(w: World, s: Books, ports: seq<nat>): nat {
    if ports == [] then 0
    else
      var n := |ports| - 1;
      var t := ConnectPorts(w, s, ports[..n]);
      SlotlessTurns(w, s, ports[..n]) + (if !t.panicked && !HasPort(t.active, ports[n] + 1) && w.Pick(ports[n] + 1, t.enabled).None? then 1 else 0)
  }

  /** Every failed port that got a slot gives up one slot, each its own. */
  lemma {:induction false} SlotsGivenUp(w: World, s: Books, ports: seq<nat>)
    requires HonestWorld(w) && s.abandoned <= s.enabled
    ensures var t := ConnectPorts(w, s, ports);
            && s.abandoned <= t.abandoned <= t.enabled && s.enabled <= t.enabled
            && |t.abandoned| - |s.abandoned| == |t.failed| - |s.failed| - SlotlessTurns(w, s, ports)
    decreases |ports|
  {
    if ports != [] {
      var n := |ports| - 1;
      var t := ConnectPorts(w, s, ports[..n]);
      SlotsGivenUp(w, s, ports[..n]);
      LastPort(w, s, ports, t);
      GivenUpStep(w, t, ConnectPorts(w, s, ports), ports[n] + 1);
    }
  }

  lemma GivenUpStep(w: World, t: Books, u: Books, p: nat)
    requires HonestWorld(w) && t.abandoned <= t.enabled && u == ConnectPort(w, t, p)
    ensures t.abandoned <= u.abandoned <= u.enabled && t.enabled <= u.enabled
    ensures |u.abandoned| - |t.abandoned| ==
              |u.failed| - |t.failed| - (if !t.panicked && !HasPort(t.active, p) && w.Pick(p, t.enabled).None? then 1 else 0)
  {
  }

  /** On ports that are all registered the loop does nothing. */
  lemma {:induction false} NothingNew(w: World, s: Books, ports: seq<nat>)
    requires AllRegistered(s.active, ports)
    ensures ConnectPorts(w, s, ports) == s
    decreases |ports|
  {
    if ports != [] {
      var n := |ports| - 1;
      assert forall k | 0 <= k < n :: ports[..n][k] == ports[k];
      NothingNew(w, s, ports[..n]);
    }
  }

  /** The parts of the state the disconnect loop changes. */
  datatype Registry = Registry(active: seq<ActivePort>, log: seq<Command>, enabled: set<nat>, undisabled: set<nat>)

  /** The state after the disconnect loop has dealt with the first k entries there were at its start. */
  ghost function DropFirst(w: World, ports: seq<nat>, start: Registry, k: nat): Registry
    requires k <= |start.active|
  {
    var done := start.active[..k];
    Registry(Kept(done, ports) + start.active[k..], start.log + Disables(done, ports),
             start.enabled - Released(w, done, ports), start.undisabled + Refused(w, done, ports))
  }

  ghost predicate Dropped(w: World, ports: seq<nat>, start: Registry, k: nat, i: nat, now: Registry) {
    k <= |start.active| && i == |Kept(start.active[..k], ports)| && now == DropFirst(w, ports, start, k)
  }

  /** The loop's test: entry i exists exactly while entries of the start are left. */
  lemma DropMore(w: World, ports: seq<nat>, start: Registry, k: nat, i: nat, now: Registry)
    requires Dropped(w, ports, start, k, i, now)
    ensures i < |now.active| <==> k < |start.active|
  {
  }

  lemma DroppedAll(w: World, ports: seq<nat>, start: Registry, k: nat, i: nat, now: Registry, abandoned: set<nat>)
    requires Dropped(w, ports, start, k, i, now) && k == |start.active|
    ensures Books(now.active, now.log, now.enabled, abandoned, [], false)
            == DropPorts(w, Books(start.active, start.log, start.enabled, abandoned, [], false), ports)
    ensures now.undisabled == start.undisabled + Refused(w, start.active, ports)
  {
    assert start.active[..k] == start.active;
  }

  /** Entry i is the k-th of the start; keeping it or dropping it is one more turn. */
  lemma DropStep(w: World, ports: seq<nat>, start: Registry, k: nat, i: nat, now: Registry)
    requires k < |start.active| && Dropped(w, ports, start, k, i, now)
    ensures i < |now.active| && now.active[i] == start.active[k]
    ensures Connected(now.active[i], ports) ==> Dropped(w, ports, start, k + 1, i + 1, now)
    ensures !Connected(now.active[i], ports) ==>
              Dropped(w, ports, start, k + 1, i,
                      Registry(now.active[..i] + now.active[i + 1..], now.log + [DisableSlot(now.active[i].slot)],
                               now.enabled - (if now.active[i].slot in w.stuck then {} else {now.active[i].slot}),
                               now.undisabled + (if now.active[i].slot in w.stuck then {now.active[i].slot} else {})))
  {
    LoopStep(start.active, k, ports);
    SlotsStep(w, start.active, k, ports);
    var next := DropFirst(w, ports, start, k + 1);
    assert now.active[i] == start.active[k];
    if Connected(start.active[k], ports) {
      assert next.active == now.active && next.log == now.log;
    } else {
      assert next.active == now.active[..i] + now.active[i + 1..];
    }
  }

  lemma SlotsStep(w: World, s: seq<ActivePort>, k: nat, ports: seq<nat>)
    requires k < |s|
    ensures Refused(w, s[..k + 1], ports) == Refused(w, s[..k], ports) + Refusal(w, s[k], ports)
    ensures Released(w, s[..k + 1], ports) == Released(w, s[..k], ports) + Release(w, s[k], ports)
  {
    assert s[..k + 1][..k] == s[..k];
  }

  lemma InitsJoin(c: seq<Command>, b: seq<Command>, a: seq<Command>)
    requires OnlyInits(c, b) && OnlyInits(b, a)
    ensures OnlyInits(c, a)
  {
    forall i | |a| <= i < |c|
      ensures !c[i].DisableSlot?
    {
      if i < |b| {
        assert c[i] == b[i];
      }
    }
  }

  lemma DispatchStep(endpoints: seq<Target>, n: nat, slot: nat)
    requires n < |endpoints|
    ensures Configures(endpoints[..n + 1], slot) == Configures(endpoints[..n], slot) + (if endpoints[n].info.interface.class_ == 3 then [ConfigureEndpoint(slot)] else [])
    ensures ProtocolRequests(endpoints[..n + 1]) == ProtocolRequests(endpoints[..n]) + ProtocolRequest(endpoints[n])
    ensures forall kind :: HasDriver(endpoints[..n + 1], kind) <==> HasDriver(endpoints[..n], kind) || Drives(endpoints[n], kind)
  {
    var done, seen := endpoints[..n + 1], endpoints[..n];
    assert done[..n] == seen;
    assert done[n] == endpoints[n] && forall k | 0 <= k < n :: done[k] == seen[k];
  }

  lemma {:induction false} AddedMember(kept: seq<ActivePort>, ports: seq<nat>, failed: seq<nat>, p: nat)
    requires p in Added(kept, ports, failed)
    ensures exists k | 0 <= k < |ports| :: ports[k] + 1 == p
  {
    if ports != [] {
      var n := |ports| - 1;
      if p in Added(kept, ports[..n], failed) {
        AddedMember(kept, ports[..n], failed, p);
        var k :| 0 <= k < n && ports[..n][k] + 1 == p;
        assert ports[k] + 1 == p;
      }
    }
  }

  lemma {:induction false} AddedSame(kept: seq<ActivePort>, ports: seq<nat>, failed: seq<nat>, p: nat)
    requires forall k | 0 <= k < |ports| :: ports[k] + 1 != p
    ensures Added(kept, ports, failed + [p]) == Added(kept, ports, failed)
  {
    if ports != [] {
      AddedSame(kept, ports[..|ports| - 1], failed, p);
    }
  }

  /** Earlier turns did not register this port, and what its turn can do to the list. */
  lemma ConnectStep(kept: seq<ActivePort>, now: seq<ActivePort>, ports: seq<nat>, n: nat, failed: seq<nat>)
    requires n < |ports| && Ascending(ports) && Progressed(kept, now, ports[..n], failed)
    ensures var p := ports[n] + 1;
            && (HasPort(now, p) <==> HasPort(kept, p)) && p !in failed
            && Added(kept, ports[..n + 1], failed) == Added(kept, ports[..n], failed) + (if HasPort(kept, p) then [] else [p])
            && Progressed(kept, now, ports[..n + 1], failed + [p])
  {
    NewPort(ports, n, failed);
    SamePort(kept, now, ports, n, failed);
    AddedStep(kept, ports, n, failed);
    PortsGrow(ports, n, failed, failed + [ports[n] + 1]);
  }

  /** The n-th port comes after all earlier ones. */
  lemma NewPort(ports: seq<nat>, n: nat, failed: seq<nat>)
    requires n < |ports| && Ascending(ports) && forall p | p in failed :: IsPort(ports[..n], p)
    ensures ports[n] + 1 !in failed && forall k | 0 <= k < n :: ports[..n][k] + 1 != ports[n] + 1
  {
  }

  lemma SamePort(kept: seq<ActivePort>, now: seq<ActivePort>, ports: seq<nat>, n: nat, failed: seq<nat>)
    requires n < |ports| && Progressed(kept, now, ports[..n], failed)
    requires forall k | 0 <= k < n :: ports[..n][k] + 1 != ports[n] + 1
    ensures HasPort(now, ports[n] + 1) <==> HasPort(kept, ports[n] + 1)
  {
    var p := ports[n] + 1;
    var fresh' := RootPorts(now[|kept|..]);
    if HasPort(now, p) {
      var i :| 0 <= i < |now| && now[i].rootPort == p;
      if i >= |kept| {
        assert fresh'[i - |kept|] == p;
        AddedMember(kept, ports[..n], failed, p);
      }
      assert kept[i] == now[i];
    }
    if HasPort(kept, p) {
      var i :| 0 <= i < |kept| && kept[i].rootPort == p;
      assert now[i] == kept[i];
    }
  }

  lemma AddedStep(kept: seq<ActivePort>, ports: seq<nat>, n: nat, failed: seq<nat>)
    requires n < |ports| && ports[n] + 1 !in failed && forall k | 0 <= k < n :: ports[..n][k] + 1 != ports[n] + 1
    ensures var p := ports[n] + 1;
            && Added(kept, ports[..n + 1], failed) == Added(kept, ports[..n], failed) + (if HasPort(kept, p) then [] else [p])
            && Added(kept, ports[..n + 1], failed + [p]) == Added(kept, ports[..n], failed)
  {
    assert ports[..n + 1][..n] == ports[..n];
    AddedSame(kept, ports[..n], failed, ports[n] + 1);
  }

  lemma PortsGrow(ports: seq<nat>, n: nat, failed: seq<nat>, failed': seq<nat>)
    requires n < |ports| && forall p | p in failed :: IsPort(ports[..n], p)
    requires forall p | p in failed' :: p in failed || p == ports[n] + 1
    ensures forall p | p in failed' :: IsPort(ports[..n + 1], p)
  {
    var seen, done := ports[..n], ports[..n + 1];
    forall p | p in failed'
      ensures IsPort(done, p)
    {
      if p in failed {
        var k :| 0 <= k < |seen| && seen[k] + 1 == p;
        assert done[k] + 1 == p;
      } else {
        assert done[n] + 1 == p;
      }
    }
  }

  lemma AppendStep(kept: seq<ActivePort>, now: seq<ActivePort>, next: seq<ActivePort>, p: nat)
    requires kept <= now && |next| == |now| + 1 && next[..|now|] == now && next[|now|].rootPort == p
    ensures kept <= next && RootPorts(next[|kept|..]) == RootPorts(now[|kept|..]) + [p]
  {
    assert next[|kept|..] == now[|kept|..] + [next[|now|]];
  }

  lemma AppendEntry(s: seq<ActivePort>, e: ActivePort)
    requires Distinct(s) && !HasPort(s, e.rootPort) && e.slot !in Slots(s)
    ensures Distinct(s + [e]) && Slots(s + [e]) == Slots(s) + {e.slot}
  {
    assert forall i | 0 <= i < |s| :: s[i] in s && s[i].slot in Slots(s);
  }

  lemma DriverAppended(driver: Option<nat>, driver': Option<nat>, s: seq<ActivePort>, e: ActivePort, keyboard: bool)
    requires DriverRegistered(driver, s, keyboard)
    requires driver' == (if (if keyboard then e.hasKeyboard else e.hasMouse) then Some(e.slot) else driver)
    ensures DriverRegistered(driver', s + [e], keyboard)
  {
    var t := s + [e];
    if driver' == driver && driver.Some? {
      var j :| 0 <= j < |s| && s[j].slot == driver.value && (if keyboard then s[j].hasKeyboard else s[j].hasMouse);
      assert t[j] == s[j];
    } else if driver'.Some? {
      assert t[|s|] == e;
    }
  }

  /** How many endpoints go to a driver. */
  ghost function Dispatchable(endpoints: seq<Target>): nat {
    if endpoints == [] then 0
    else
      var ep := endpoints[|endpoints| - 1];
      Dispatchable(endpoints[..|endpoints| - 1]) + (if Drives(ep, Keyboard) || Drives(ep, Mouse) then 1 else 0)
  }

  ghost function Without(s: seq<ActivePort>, i: nat): (t: seq<ActivePort>)
    requires i < |s|
    ensures |t| == |s| - 1 && forall j | 0 <= j < |t| :: t[j] == if j < i then s[j] else s[j + 1]
  {
    s[..i] + s[i + 1..]
  }

  lemma RemoveDistinct(s: seq<ActivePort>, i: nat)
    requires i < |s| && Distinct(s)
    ensures Distinct(Without(s, i)) && forall e | e in Without(s, i) :: e in s && e.slot != s[i].slot
  {
  }

  lemma RemoveEntry(s: seq<ActivePort>, i: nat)
    requires i < |s| && Distinct(s)
    ensures var t := s[..i] + s[i + 1..];
            Distinct(t) && Slots(s) == Slots(t) + {s[i].slot} && s[i].slot !in Slots(t)
  {
    RemoveDistinct(s, i);
    var t := Without(s, i);
    forall e | e in s && e != s[i]
      ensures e in t
    {
      var j :| 0 <= j < |s| && s[j] == e;
      assert t[if j < i then j else j - 1] == e;
    }
  }

  /** Shutting down the entry's own drivers keeps the others registered. */
  lemma DriverKept(driver: Option<nat>, driver': Option<nat>, s: seq<ActivePort>, i: nat, keyboard: bool)
    requires i < |s| && Distinct(s) && DriverRegistered(driver, s, keyboard)
    requires driver' == if (if keyboard then s[i].hasKeyboard else s[i].hasMouse) && driver == Some(s[i].slot) then None else driver
    ensures DriverRegistered(driver', s[..i] + s[i + 1..], keyboard)
  {
    var t := s[..i] + s[i + 1..];
    if driver'.Some? {
      var j :| 0 <= j < |s| && s[j].slot == driver.value && (if keyboard then s[j].hasKeyboard else s[j].hasMouse);
      assert j != i;
      assert t[if j < i then j else j - 1] == s[j];
    }
  }

  lemma LoopStep(s: seq<ActivePort>, k: nat, ports: seq<nat>)
    requires k < |s|
    ensures var kept := Kept(s[..k], ports);
            && (kept + s[k..])[|kept|] == s[k]
            && Kept(s[..k + 1], ports) == kept + (if Connected(s[k], ports) then [s[k]] else [])
            && Disables(s[..k + 1], ports) == Disables(s[..k], ports) + (if Connected(s[k], ports) then [] else [DisableSlot(s[k].slot)])
            && kept + s[k..] == kept + [s[k]] + s[k + 1..]
            && (kept + s[k..])[..|kept|] + (kept + s[k..])[|kept| + 1..] == kept + s[k + 1..]
  {
    assert s[..k + 1][..k] == s[..k];
    assert s[k..] == [s[k]] + s[k + 1..];
  }

  /** The registered ports after a synchronisation: exactly the connected ones whose init did not fail. */
  lemma {:induction false} RegisteredPorts(kept: seq<ActivePort>, active: seq<ActivePort>, ports: seq<nat>, failed: seq<nat>, k: nat)
    requires Progressed(kept, active, ports, failed) && k < |ports| && ports[k] + 1 !in failed
    ensures HasPort(active, ports[k] + 1)
  {
    var p := ports[k] + 1;
    if HasPort(kept, p) {
      var i :| 0 <= i < |kept| && kept[i].rootPort == p;
      assert active[i].rootPort == p;
    } else {
      AddedHas(kept, ports, failed, k);
      var i :| 0 <= i < |RootPorts(active[|kept|..])| && RootPorts(active[|kept|..])[i] == p;
      assert active[|kept| + i].rootPort == p;
    }
  }

  lemma {:induction false} AddedHas(kept: seq<ActivePort>, ports: seq<nat>, failed: seq<nat>, k: nat)
    requires k < |ports| && ports[k] + 1 !in failed && !HasPort(kept, ports[k] + 1)
    ensures ports[k] + 1 in Added(kept, ports, failed)
  {
    var n := |ports| - 1;
    if k < n {
      AddedHas(kept, ports[..n], failed, k);
    }
  }

  lemma {:induction false} KeptConnected(active: seq<ActivePort>, ports: seq<nat>, e: ActivePort)
    ensures e in Kept(active, ports) <==> e in active && Connected(e, ports)
  {
    if active != [] {
      KeptConnected(active[..|active| - 1], ports, e);
      assert active == active[..|active| - 1] + [active[|active| - 1]];
    }
  }

  lemma {:induction false} AllConnected(active: seq<ActivePort>, ports: seq<nat>)
    requires forall i | 0 <= i < |active| :: Connected(active[i], ports)
    ensures Kept(active, ports) == active && Disables(active, ports) == []
  {
    if active != [] {
      var n := |active| - 1;
      assert forall i | 0 <= i < n :: active[..n][i] == active[i];
      AllConnected(active[..n], ports);
    }
  }

  /** Every registered entry is connected after a synchronisation. */
  lemma SyncedConnected(before: seq<ActivePort>, active: seq<ActivePort>, ports: seq<nat>, failed: seq<nat>, i: nat)
    requires Progressed(Kept(before, ports), active, ports, failed) && i < |active|
    ensures Connected(active[i], ports)
  {
    var kept := Kept(before, ports);
    if i < |kept| {
      assert kept[i] == active[i] && active[i] in kept;
      KeptConnected(before, ports, active[i]);
    } else {
      var added := RootPorts(active[|kept|..]);
      assert added[i - |kept|] == active[i].rootPort;
      AddedMember(kept, ports, failed, active[i].rootPort);
    }
  }

  /** If no init failed, a second synchronisation on the same ports issues no command and changes nothing, whatever the world does. */
  lemma SyncIdempotent(w: World, before: Books, ports: seq<nat>, again: World)
    requires Ascending(ports) && before.failed == []
    requires ConnectPorts(w, DropPorts(w, before, ports), ports).failed == [] && !ConnectPorts(w, DropPorts(w, before, ports), ports).panicked
    ensures var s := ConnectPorts(w, DropPorts(w, before, ports), ports);
            ConnectPorts(again, DropPorts(again, s, ports), ports) == s
  {
    ConnectProgress(w, DropPorts(w, before, ports), ports);
    SettledAgain(before.active, ConnectPorts(w, DropPorts(w, before, ports), ports), ports, again);
  }

  lemma SettledAgain(before: seq<ActivePort>, s: Books, ports: seq<nat>, again: World)
    requires Progressed(Kept(before, ports), s.active, ports, [])
    ensures ConnectPorts(again, DropPorts(again, s, ports), ports) == s
  {
    SyncSettles(before, s.active, ports);
    StaysSettled(again, s, ports);
  }

  lemma StaysSettled(w: World, s: Books, ports: seq<nat>)
    requires (forall i | 0 <= i < |s.active| :: Connected(s.active[i], ports)) && AllRegistered(s.active, ports)
    ensures ConnectPorts(w, DropPorts(w, s, ports), ports) == s
  {
    NothingDropped(w, s, ports);
    NothingNew(w, s, ports);
  }

  lemma NothingDropped(w: World, s: Books, ports: seq<nat>)
    requires forall i | 0 <= i < |s.active| :: Connected(s.active[i], ports)
    ensures DropPorts(w, s, ports) == s
  {
    AllConnected(s.active, ports);
    NoneReleased(w, s.active, ports);
  }

  lemma SyncSettles(before: seq<ActivePort>, active: seq<ActivePort>, ports: seq<nat>)
    requires Progressed(Kept(before, ports), active, ports, [])
    ensures forall i | 0 <= i < |active| :: Connected(active[i], ports)
    ensures Kept(active, ports) == active && Disables(active, ports) == [] && AllRegistered(active, ports)
  {
    forall i | 0 <= i < |active|
      ensures Connected(active[i], ports)
    {
      SyncedConnected(before, active, ports, [], i);
    }
    AllConnected(active, ports);
    forall k | 0 <= k < |ports|
      ensures HasPort(active, ports[k] + 1)
    {
      RegisteredPorts(Kept(before, ports), active, ports, [], k);
    }
  }

  lemma {:induction false} NoneReleased(w: World, active: seq<ActivePort>, ports: seq<nat>)
    requires forall i | 0 <= i < |active| :: Connected(active[i], ports)
    ensures Released(w, active, ports) == {}
  {
    if active != [] {
      NoneReleased(w, active[..|active| - 1], ports);
    }
  }
}
