/**
 The USB stack as an object: synchronisation of the registry with the ports, device initialisation
 and shutdown, control transfers, and the slot accounting at the controller.
 */
module UsbDriver {
  import opened Wrappers
  import opened Trbs
  import opened UsbRegistry
  import LR = LinklessRing
  import D = Descriptors

  /** Some non-zero address of a fresh device context. */
  function ContextAddress(slot: nat): (a: nat)
    ensures a > 0
  {
    0x10_0000 + 0x400 * slot
  }

  class UsbStack {
    var active: seq<ActivePort>
    /** Slot of the attached keyboard and mouse state. */
    var keyboard: Option<nat>
    var mouse: Option<nat>
    /** Device context addresses; zero means no context. */
    const dcbaa: array<nat>
    /** The command ring, which all devices share. */
    const commands: LR.DriverRing
    /** The EP0 ring of the device addressed last, and its slot. */
    var ep0: LR.DriverRing?
    ghost var ep0Slot: nat

    /** At the controller: the enabled slots. Among them the slots given up after a failed
        Address Device and those whose Disable Slot failed. */
    var enabled: set<nat>
    ghost var abandoned: set<nat>
    ghost var undisabled: set<nat>
    ghost var log: seq<Command>

    /** Slot accounting with one slot `busy` that is enabled but not registered. */
    ghost predicate Accounts(busy: set<nat>)
      reads this, dcbaa
    {
      && dcbaa.Length == SLOTS
      && Distinct(active)
      && enabled == Slots(active) + abandoned + undisabled + busy
      && Slots(active) !! abandoned && Slots(active) !! undisabled && abandoned !! undisabled
      && busy !! Slots(active) && busy !! abandoned && busy !! undisabled
      && (forall s | s in enabled :: 1 <= s < SLOTS)
      && (forall s | 0 <= s < SLOTS && s !in busy :: dcbaa[s] != 0 <==> s in enabled)
    }

    ghost predicate Valid()
      reads this, dcbaa
    {
      && Accounts({})
      && DriverRegistered(keyboard, active, true)
      && DriverRegistered(mouse, active, false)
    }

    /** The command ring holds exactly the logged commands. */
    ghost predicate Wired()
      reads this, commands, commands.trbs
    {
      commands.Valid() && commands.trbs.Length == LR.COMMAND_RING_SIZE && Carries(commands.requests, log)
    }

    /** The EP0 ring in use belongs to this slot. */
    ghost predicate Ep0Of(slot: nat)
      reads this, ep0, if ep0 == null then {} else {ep0.trbs}
    {
      1 <= slot < SLOTS && ep0 != null && ep0.Valid() && slot == ep0Slot && ep0 != commands && ep0.trbs != commands.trbs
    }

    ghost function Now(failed: seq<nat>, panicked: bool): Books
      reads this
    {
      Books(active, log, enabled, abandoned, failed, panicked)
    }

    constructor ()
      ensures Valid() && Wired() && active == [] && enabled == {} && log == []
      ensures fresh(dcbaa) && fresh(commands) && fresh(commands.trbs)
    {
      commands := new LR.DriverRing(LR.COMMAND_RING_SIZE);
      active, keyboard, mouse := [], None, None;
      enabled, abandoned, undisabled, log := {}, {}, {}, [];
      ep0, ep0Slot := null, 0;
      dcbaa := new nat[SLOTS](i => 0);
    }

    /** `send_command`; `context` is the address of the input context, if the command has one. */
    method Send(c: Command, context: nat)
      requires Wired() && SlotFits(c)
      modifies this`log, commands, commands.trbs
      ensures Wired() && log == old(log) + [c]
    {
      match c {
        case EnableSlot =>
          commands.SendCommand(0, 0, 9, 0);
        case DisableSlot(slot) =>
          commands.SendCommand(0, 0, 10, slot);
        case AddressDevice(slot, _) =>
          commands.SendCommand(context, 0, 11, slot);
        case ConfigureEndpoint(slot) =>
          commands.SendCommand(context, 0, 12, slot);
      }
      log := log + [c];
    }

    /** `shutdown_device`: releases the drivers that own the slot, then disables it. */
    method ShutdownDevice(w: World, entry: ActivePort)
      requires Accounts({entry.slot}) && dcbaa[entry.slot] != 0 && Wired()
      modifies this`keyboard, this`mouse, this`enabled, this`undisabled, this`log, dcbaa, commands, commands.trbs
      ensures Accounts({}) && Wired()
      ensures log == old(log) + [DisableSlot(entry.slot)]
      ensures enabled == old(enabled) - (if entry.slot in w.stuck then {} else {entry.slot})
      ensures undisabled == old(undisabled) + (if entry.slot in w.stuck then {entry.slot} else {})
      ensures keyboard == (if entry.hasKeyboard && old(keyboard) == Some(entry.slot) then None else old(keyboard))
      ensures mouse == (if entry.hasMouse && old(mouse) == Some(entry.slot) then None else old(mouse))
    {
      if entry.hasKeyboard && keyboard == Some(entry.slot) {
        keyboard := None;
      }
      if entry.hasMouse && mouse == Some(entry.slot) {
        mouse := None;
      }
      Send(DisableSlot(entry.slot), 0);
      if entry.slot !in w.stuck {
        enabled := enabled - {entry.slot};
        dcbaa[entry.slot] := 0;
      } else {
        undisabled := undisabled + {entry.slot};
      }
    }

    /** `active.remove(i)` followed by `shutdown_device`. */
    method Disconnect(w: World, i: nat)
      requires Valid() && Wired() && i < |active|
      modifies this`active, this`keyboard, this`mouse, this`enabled, this`undisabled, this`log, dcbaa, commands, commands.trbs
      ensures Valid() && Wired()
      ensures active == old(active[..i] + active[i + 1..])
      ensures log == old(log) + [DisableSlot(old(active[i]).slot)]
      ensures enabled == old(enabled) - (if old(active[i]).slot in w.stuck then {} else {old(active[i]).slot})
      ensures undisabled == old(undisabled) + (if old(active[i]).slot in w.stuck then {old(active[i]).slot} else {})
    {
      var entry := active[i];
      ghost var before := active;
      RemoveEntry(active, i);
      active := active[..i] + active[i + 1..];
      ShutdownDevice(w, entry);
      DriverKept(old(keyboard), keyboard, before, i, true);
      DriverKept(old(mouse), mouse, before, i, false);
    }

    ghost function Parts(): Registry
      reads this
    {
      Registry(active, log, enabled, undisabled)
    }

    /** One turn of the disconnect loop, at the k-th of the entries there were before it. */
    method DisconnectTurn(w: World, ports: seq<nat>, i: nat, ghost start: Registry, ghost k: nat) returns (i': nat)
      requires Valid() && Wired() && k < |start.active| && Dropped(w, ports, start, k, i, Parts())
      modifies this`active, this`keyboard, this`mouse, this`enabled, this`undisabled, this`log, dcbaa, commands, commands.trbs
      ensures Valid() && Wired()
      ensures Dropped(w, ports, start, k + 1, i', Parts())
    {
      DropStep(w, ports, start, k, i, Parts());
      i' := i;
      if Connected(active[i], ports) {
        i' := i + 1;
      } else {
        Disconnect(w, i);
      }
    }

    /** The disconnect loop: every entry whose port is gone is removed and shut down, once. */
    method DisconnectAll(w: World, ports: seq<nat>)
      requires Valid() && Wired()
      modifies this`active, this`keyboard, this`mouse, this`enabled, this`undisabled, this`log, dcbaa, commands, commands.trbs
      ensures Valid() && Wired()
      ensures Now([], false) == DropPorts(w, old(Now([], false)), ports)
      ensures undisabled == old(undisabled) + Refused(w, old(active), ports)
    {
      ghost var start := Parts();
      ghost var i := DropLoop(w, ports);
      DroppedAll(w, ports, start, |start.active|, i, Parts(), abandoned);
    }

    /** The loop itself. */
    method DropLoop(w: World, ports: seq<nat>) returns (i: nat)
      requires Valid() && Wired()
      modifies this`active, this`keyboard, this`mouse, this`enabled, this`undisabled, this`log, dcbaa, commands, commands.trbs
      ensures Valid() && Wired()
      ensures Dropped(w, ports, old(Parts()), |old(active)|, i, Parts())
    {
      ghost var start, k := Parts(), 0;
      i := 0;
      while i < |active|
        invariant Valid() && Wired()
        invariant Dropped(w, ports, start, k, i, Parts())
        decreases |start.active| - k
      {
        DropMore(w, ports, start, k, i, Parts());
        i := DisconnectTurn(w, ports, i, start, k);
        k := k + 1;
      }
      DropMore(w, ports, start, k, i, Parts());
    }

    /** `control_transfer_in`, for the device addressed last. */
    method ControlTransferIn(slot: nat, setup: nat, buffer: nat, len: nat)
      requires Ep0Of(slot)
      modifies ep0, ep0.trbs
      ensures Ep0Of(slot) && ep0.requests == old(ep0.requests) + LR.TransferIn(setup, buffer, len)
    {
      ep0.Enqueue(setup, 8, 2 * 1024 + 0x40 + 0x3_0000);
      ep0.Enqueue(buffer, len, 3 * 1024 + 0x1_0000);
      ep0.Enqueue(0, 0, 4 * 1024 + 0x20);
    }

    /** `control_transfer_no_data`, for the device addressed last. */
    method ControlTransferNoData(slot: nat, setup: nat)
      requires Ep0Of(slot)
      modifies ep0, ep0.trbs
      ensures Ep0Of(slot) && ep0.requests == old(ep0.requests) + LR.TransferNoData(setup)
    {
      ep0.Enqueue(setup, 8, 2 * 1024 + 0x40);
      ep0.Enqueue(0, 0, 4 * 1024 + 0x20 + 0x1_0000);
    }

    /** `dispatch_endpoint`: configures an HID endpoint and hands it to its driver, which sends SET_PROTOCOL first. */
    method DispatchEndpoint(slot: nat, ep: Target) returns (kind: Option<DeviceKind>)
      requires Ep0Of(slot) && Wired()
      modifies this`keyboard, this`mouse, this`log, ep0, ep0.trbs, commands, commands.trbs
      ensures Ep0Of(slot) && Wired() && ep0.requests == old(ep0.requests) + ProtocolRequest(ep)
      ensures keyboard == (if kind == Some(Keyboard) then Some(slot) else old(keyboard))
      ensures mouse == (if kind == Some(Mouse) then Some(slot) else old(mouse))
      ensures log == old(log) + (if ep.info.interface.class_ == 3 then [ConfigureEndpoint(slot)] else [])
      ensures kind == Some(Keyboard) <==> Drives(ep, Keyboard)
      ensures kind == Some(Mouse) <==> Drives(ep, Mouse)
    {
      if ep.info.interface.class_ != 3 {
        return None;
      }
      Send(ConfigureEndpoint(slot), ContextAddress(slot));
      if !ep.configures {
        return None;
      }
      match ep.info.interface.protocol {
        case 1 =>
          ControlTransferNoData(slot, SetProtocol(ep.info.interface.number));
          keyboard := Some(slot);
          return Some(Keyboard);
        case 2 =>
          ControlTransferNoData(slot, SetProtocol(ep.info.interface.number));
          mouse := Some(slot);
          return Some(Mouse);
        case _ =>
          return None;
      }
    }

    /** The dispatch loop of `init_one_device`. */
    method DispatchAll(slot: nat, endpoints: seq<Target>) returns (hasKeyboard: bool, hasMouse: bool)
      requires Ep0Of(slot) && Wired()
      modifies this`keyboard, this`mouse, this`log, ep0, ep0.trbs, commands, commands.trbs
      ensures Ep0Of(slot) && Wired() && ep0.requests == old(ep0.requests) + ProtocolRequests(endpoints)
      ensures keyboard == if hasKeyboard then Some(slot) else old(keyboard)
      ensures mouse == if hasMouse then Some(slot) else old(mouse)
      ensures log == old(log) + Configures(endpoints, slot)
      ensures (hasKeyboard <==> HasDriver(endpoints, Keyboard)) && (hasMouse <==> HasDriver(endpoints, Mouse))
    {
      hasKeyboard, hasMouse := false, false;
      for n := 0 to |endpoints|
        invariant Ep0Of(slot) && Wired() && ep0.requests == old(ep0.requests) + ProtocolRequests(endpoints[..n])
        invariant keyboard == if hasKeyboard then Some(slot) else old(keyboard)
        invariant mouse == if hasMouse then Some(slot) else old(mouse)
        invariant log == old(log) + Configures(endpoints[..n], slot)
        invariant hasKeyboard <==> HasDriver(endpoints[..n], Keyboard)
        invariant hasMouse <==> HasDriver(endpoints[..n], Mouse)
      {
        var kind := DispatchEndpoint(slot, endpoints[n]);
        DispatchStep(endpoints, n, slot);
        match kind {
          case Some(Keyboard) =>
            hasKeyboard := true;
          case Some(Mouse) =>
            hasMouse := true;
          case None =>
        }
      }
      assert endpoints[..|endpoints|] == endpoints;
    }

    /** `enable_slot`: the slot is enabled, and nobody's yet. */
    method EnableSlot(w: World, rootPort: nat) returns (slot: Option<nat>)
      requires Valid() && Wired() && HonestWorld(w)
      modifies this`enabled, this`log, commands, commands.trbs
      ensures Wired()
      ensures slot == w.Pick(rootPort, old(enabled)) && log == old(log) + [Command.EnableSlot]
      ensures enabled == old(enabled) + (if slot.Some? then {slot.value} else {})
      ensures if slot.Some? then Accounts({slot.value}) else Accounts({})
    {
      Send(Command.EnableSlot, 0);
      slot := w.Pick(rootPort, enabled);
      if slot.Some? {
        enabled := enabled + {slot.value};
      }
    }

    /** `address_device`: the slot gets its context and a new EP0 ring, and is given up if the command fails. */
    method AddressDevice(w: World, slot: nat, rootPort: nat) returns (ok: bool)
      requires Accounts({slot}) && Wired()
      modifies this`abandoned, this`log, this`ep0, this`ep0Slot, dcbaa, commands, commands.trbs
      ensures Wired()
      ensures ok == w.DeviceAt(rootPort).addresses && log == old(log) + [Command.AddressDevice(slot, rootPort)]
      ensures Ep0Of(slot) && fresh(ep0) && fresh(ep0.trbs)
      ensures ep0.requests == [] && ep0.trbs.Length == LR.CONTROL_RING_SIZE
      ensures ok ==> Accounts({slot}) && dcbaa[slot] != 0 && abandoned == old(abandoned)
      ensures !ok ==> Accounts({}) && abandoned == old(abandoned) + {slot} && slot !in old(abandoned)
    {
      dcbaa[slot] := ContextAddress(slot);
      ep0 := new LR.DriverRing(LR.CONTROL_RING_SIZE);
      ep0Slot := slot;
      Send(Command.AddressDevice(slot, rootPort), ContextAddress(slot));
      ok := w.DeviceAt(rootPort).addresses;
      if !ok {
        abandoned := abandoned + {slot};
      }
    }

    /** What `init_one_device` does with a device that has an address; None stands for the panic in the descriptor walk. */
    method Enumerate(w: World, rootPort: nat, slot: nat) returns (entry: Option<ActivePort>)
      requires Ep0Of(slot) && Wired() && ep0.requests == []
      modifies this`keyboard, this`mouse, this`log, ep0, ep0.trbs, commands, commands.trbs
      ensures Ep0Of(slot) && Wired() && ep0.requests == DeviceRequests(w.DeviceAt(rootPort), w.buffer)
      ensures entry == if Panics(w.DeviceAt(rootPort)) then None else Some(Entry(w, rootPort, slot))
      ensures keyboard == (if entry.Some? && entry.value.hasKeyboard then Some(slot) else old(keyboard))
      ensures mouse == (if entry.Some? && entry.value.hasMouse then Some(slot) else old(mouse))
      ensures var d := w.DeviceAt(rootPort);
              log == old(log) + (if Usable(d) then Configures(Endpoints(d).value, slot) else [])
    {
      var device := w.DeviceAt(rootPort);
      entry := Some(ActivePort(rootPort, slot, false, false));
      ControlTransferIn(slot, GET_DEVICE_DESCRIPTOR, w.buffer, 18);
      if !device.describes {
        return;
      }
      ControlTransferIn(slot, GET_CONFIGURATION_DESCRIPTOR, w.buffer, BUFFER);
      if device.configuration.None? {
        return;
      }
      var found := D.FindInterruptEndpoints(device.Received());
      match found {
        case Panic =>
          return None;
        case NoEndpoint =>
          return;
        case Found(infos) =>
          ControlTransferNoData(slot, SET_CONFIGURATION);
          if !device.setsConfiguration {
            return;
          }
          var hasKeyboard, hasMouse := DispatchAll(slot, Targets(infos, device.refused));
          entry := Some(ActivePort(rootPort, slot, hasKeyboard, hasMouse));
      }
    }

    /**
     `init_one_device`. A slot whose device cannot be addressed is given up; after that every failure
     still registers the device, unless the walk over its descriptor panics. The device's own EP0 ring
     holds exactly the requests it was sent.
     */
    method InitOneDevice(w: World, rootPort: nat) returns (r: Option<ActivePort>, panicked: bool)
      requires Valid() && Wired() && HonestWorld(w)
      modifies this`keyboard, this`mouse, this`enabled, this`abandoned, this`log, this`ep0, this`ep0Slot, dcbaa, commands, commands.trbs
      ensures Wired() && (panicked ==> r.None?)
      ensures Now([], panicked).(active := old(active) + (if r.Some? then [r.value] else []), failed := if r.None? && !panicked then [rootPort] else [])
              == Init(w, old(Now([], false)), rootPort)
      ensures r.None? && !panicked ==> Valid()
      ensures r.Some? ==> Accounts({r.value.slot}) && dcbaa[r.value.slot] != 0 && r.value == Entry(w, rootPort, r.value.slot)
      ensures r.Some? ==> keyboard == (if r.value.hasKeyboard then Some(r.value.slot) else old(keyboard))
      ensures r.Some? ==> mouse == (if r.value.hasMouse then Some(r.value.slot) else old(mouse))
      ensures r.Some? || panicked ==>
                && ep0 != null && fresh(ep0) && ep0.Valid() && ep0.trbs.Length == LR.CONTROL_RING_SIZE
                && ep0.requests == DeviceRequests(w.DeviceAt(rootPort), w.buffer) && Some(ep0Slot) == w.Pick(rootPort, old(enabled))
    {
      r, panicked := None, false;
      var slot := AddressedSlot(w, rootPort);
      if slot.None? {
        return;
      }
      AddressedInit(w, old(Now([], false)), rootPort, slot.value);
      r := Enumerate(w, rootPort, slot.value);
      panicked := r.None?;
    }

    /** The first two commands of `init_one_device`. */
    method AddressedSlot(w: World, rootPort: nat) returns (slot: Option<nat>)
      requires Valid() && Wired() && HonestWorld(w)
      modifies this`enabled, this`abandoned, this`log, this`ep0, this`ep0Slot, dcbaa, commands, commands.trbs
      ensures Wired()
      ensures slot.None? ==> Valid() && Now([rootPort], false) == Init(w, old(Now([], false)), rootPort)
      ensures slot.Some? ==>
                && w.DeviceAt(rootPort).addresses && slot == w.Pick(rootPort, old(enabled))
                && Accounts({slot.value}) && dcbaa[slot.value] != 0 && abandoned == old(abandoned)
                && enabled == old(enabled) + {slot.value}
                && log == old(log) + [Command.EnableSlot, Command.AddressDevice(slot.value, rootPort)]
                && Ep0Of(slot.value) && fresh(ep0) && fresh(ep0.trbs)
                && ep0.requests == [] && ep0.trbs.Length == LR.CONTROL_RING_SIZE
    {
      slot := EnableSlot(w, rootPort);
      if slot.Some? {
        var ok := AddressDevice(w, slot.value, rootPort);
        if !ok {
          return None;
        }
      }
    }

    /** One turn of the connect loop: initialises a port, unless it is registered already. */
    method ConnectTurn(w: World, rootPort: nat, ghost failed: seq<nat>) returns (ghost failed': seq<nat>, panicked: bool)
      requires Valid() && Wired() && HonestWorld(w)
      modifies this`active, this`keyboard, this`mouse, this`enabled, this`abandoned, this`log, this`ep0, this`ep0Slot, dcbaa, commands, commands.trbs
      ensures Wired() && (!panicked ==> Valid()) && Now(failed', panicked) == ConnectPort(w, old(Now(failed, false)), rootPort)
    {
      if exists i | 0 <= i < |active| :: active[i].rootPort == rootPort {
        return failed, false;
      }
      failed', panicked := Connect(w, rootPort, failed);
    }

    /** Initialises a port that is not registered, and appends its entry. */
    method Connect(w: World, rootPort: nat, ghost failed: seq<nat>) returns (ghost failed': seq<nat>, panicked: bool)
      requires Valid() && Wired() && HonestWorld(w) && !HasPort(active, rootPort)
      modifies this`active, this`keyboard, this`mouse, this`enabled, this`abandoned, this`log, this`ep0, this`ep0Slot, dcbaa, commands, commands.trbs
      ensures Wired() && (!panicked ==> Valid()) && Now(failed', panicked) == Init(w, old(Now(failed, false)), rootPort)
    {
      ghost var before, kbd, mse := active, keyboard, mouse;
      var entry;
      entry, panicked := InitOneDevice(w, rootPort);
      if panicked {
        return failed, true;
      }
      if entry.None? {
        return failed + [rootPort], false;
      }
      AppendEntry(active, entry.value);
      active := active + [entry.value];
      DriverAppended(kbd, keyboard, before, entry.value, true);
      DriverAppended(mse, mouse, before, entry.value, false);
      return failed, false;
    }

    /** The connect loop over the connected ports; `failed` collects the root ports whose init failed. */
    method ConnectAll(w: World, ports: seq<nat>) returns (ghost failed: seq<nat>, panicked: bool)
      requires Valid() && Wired() && HonestWorld(w)
      modifies this`active, this`keyboard, this`mouse, this`enabled, this`abandoned, this`log, this`ep0, this`ep0Slot, dcbaa, commands, commands.trbs
      ensures Wired() && (!panicked ==> Valid()) && Now(failed, panicked) == ConnectPorts(w, old(Now([], false)), ports)
    {
      failed, panicked := [], false;
      for n := 0 to |ports|
        invariant Valid() && Wired() && !panicked && Now(failed, false) == ConnectPorts(w, old(Now([], false)), ports[..n])
      {
        assert ports[..n + 1][..n] == ports[..n];
        failed, panicked := ConnectTurn(w, ports[n] + 1, failed);
        if panicked {
          Frozen(w, old(Now([], false)), ports, n + 1);
          return;
        }
      }
      assert ports[..|ports|] == ports;
    }

    /** The scan of the port status registers; bit 0 says that a device is connected. */
    method ReadPorts(portsc: seq<nat>) returns (ports: seq<nat>)
      ensures Ascending(ports)
      ensures forall p | 0 <= p < |portsc| :: p in ports <==> portsc[p] % 2 == 1
      ensures forall p | p in ports :: p < |portsc|
    {
      ports := [];
      for p := 0 to |portsc|
        invariant Ascending(ports) && forall q | q in ports :: q < p
        invariant forall q | 0 <= q < p :: q in ports <==> portsc[q] % 2 == 1
      {
        if portsc[p] % 2 == 1 {
          assert forall i | 0 <= i < |ports| :: ports[i] in ports;
          ports := ports + [p];
        }
      }
    }

    /**
     `discover_and_init_hid_devices`: entries whose port is gone are dropped, then the connected ports
     without an entry are initialised, in port order.
     */
    method Sync(w: World, portsc: seq<nat>) returns (ghost ports: seq<nat>, ghost failed: seq<nat>, panicked: bool)
      requires Valid() && Wired() && HonestWorld(w)
      modifies this, dcbaa, commands, commands.trbs
      ensures Wired() && (!panicked ==> Valid())
      ensures Ascending(ports) && (forall p | 0 <= p < |portsc| :: p in ports <==> portsc[p] % 2 == 1)
      ensures forall p | p in ports :: p < |portsc|
      ensures Now(failed, panicked) == ConnectPorts(w, DropPorts(w, old(Now([], false)), ports), ports)
      ensures undisabled == old(undisabled) + Refused(w, old(active), ports)
      ensures panicked <==> exists n: nat :: PanicsAt(w, DropPorts(w, old(Now([], false)), ports), ports, n)
      ensures !panicked ==> Progressed(Kept(old(active), ports), active, ports, failed)
      ensures !panicked ==> forall p :: p in failed <==> FailsSome(w, DropPorts(w, old(Now([], false)), ports), ports, p)
    {
      var states := ReadPorts(portsc);
      DisconnectAll(w, states);
      ghost var dropped := Now([], false);
      failed, panicked := ConnectAll(w, states);
      ports := states;
      PanicsExactly(w, dropped, ports);
      if !panicked {
        ConnectProgress(w, dropped, ports);
        forall p
          ensures p in failed <==> FailsSome(w, dropped, ports, p)
        {
          FailedExactly(w, dropped, ports, p);
        }
      }
    }
  }
}
