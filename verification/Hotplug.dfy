/**
 Hotplug notification: port changes, port events, the interrupt handler and the idle loop as
 interleaved steps. The ports are read one register at a time, after the flag was cleared.
 */
module Hotplug {
  import opened Wrappers
  import opened UsbRegistry

  datatype MainFlow = Idle | Reading(next: nat) | Applying

  /**
   `seen` holds the value last read from each port, `changeBit` the connect status change bits,
   which the kernel never clears, and `changes` how often each port changed, counting a change
   before boot that left its bit set.
   */
  datatype State = State(
    connected: seq<bool>, changeBit: seq<bool>, changes: seq<nat>,
    queued: nat, flag: bool, main: MainFlow, seen: seq<bool>,
    registered: set<nat>, failed: set<nat>)

  datatype Action =
    | Change(port: nat)
    | Interrupt
    | Poll
    | ReadPort
    | Apply(registered: set<nat>, failed: set<nat>)

  ghost predicate Shape(s: State) {
    && |s.connected| == |s.changeBit| == |s.changes| == |s.seen|
    && (s.main.Reading? ==> s.main.next < |s.connected|)
  }

  /** The controller has a change bit for each port; a device present at power-on has set the bit of its port. */
  ghost predicate Booted(connected: seq<bool>, changeBit: seq<bool>) {
    |changeBit| == |connected| && forall q | 0 <= q < |connected| :: connected[q] ==> changeBit[q]
  }

  /** Boot: the first synchronisation runs at once, on an empty registry; events may be waiting already. */
  ghost function Initial(connected: seq<bool>, changeBit: seq<bool>, queued: nat): (s: State)
    requires |changeBit| == |connected|
    ensures Shape(s)
  {
    var n := |connected|;
    State(connected, changeBit, seq(n, q requires 0 <= q < n => if changeBit[q] then 1 else 0), queued, false,
          if n == 0 then Applying else Reading(0), seq(n, i => false), {}, {})
  }

  /** What a synchronisation leaves behind: registered ports were connected when read, and every such port is registered or failed. */
  ghost predicate SyncResult(seen: seq<bool>, registered: set<nat>, failed: set<nat>) {
    && (forall q | q in registered :: q < |seen| && seen[q])
    && (forall q | 0 <= q < |seen| && seen[q] :: q in registered || q in failed)
  }

  /** A change raises an event if change bits are acknowledged, or if the port's bit was still clear. */
  ghost function Next(s: State, a: Action, acknowledges: bool): Option<State>
    requires Shape(s)
  {
    match a
    case Change(q) =>
      if q >= |s.connected| then None
      else Some(s.(connected := s.connected[q := !s.connected[q]], changeBit := s.changeBit[q := true],
                   changes := s.changes[q := s.changes[q] + 1],
                   queued := if acknowledges || !s.changeBit[q] then s.queued + 1 else s.queued))
    case Interrupt => if s.queued == 0 then None else Some(s.(queued := s.queued - 1, flag := true))
    case Poll =>
      if s.main != Idle || !s.flag then None
      else Some(s.(flag := false, main := if |s.connected| == 0 then Applying else Reading(0)))
    case ReadPort =>
      if !s.main.Reading? then None
      else
        var p := s.main.next;
        Some(s.(seen := s.seen[p := s.connected[p]], main := if p + 1 < |s.connected| then Reading(p + 1) else Applying))
    case Apply(registered, failed) =>
      if s.main != Applying || !SyncResult(s.seen, registered, failed) then None
      else Some(s.(registered := registered, failed := failed, main := Idle))
  }

  ghost function Execute(s: State, run: seq<Action>, acknowledges: bool): (r: Option<State>)
    requires Shape(s)
    ensures r.Some? ==> Shape(r.value)
    decreases |run|
  {
    if run == [] then Some(s)
    else
      match Next(s, run[0], acknowledges)
      case None => None
      case Some(t) => Execute(t, run[1..], acknowledges)
  }

  ghost predicate Quiescent(s: State) {
    s.main == Idle && !s.flag && s.queued == 0
  }

  /** Every active port is connected, and every connected port is active or failed its last init. */
  ghost predicate Settled(s: State) {
    && (forall q | q in s.registered :: q < |s.connected| && s.connected[q])
    && (forall q | 0 <= q < |s.connected| && s.connected[q] :: q in s.registered || q in s.failed)
  }

  /** A port that differs from what was last read will be looked at again. */
  ghost predicate Noticed(s: State, q: nat)
    requires Shape(s) && q < |s.connected|
  {
    s.connected[q] != s.seen[q] ==> s.queued > 0 || s.flag || (s.main.Reading? && s.main.next <= q)
  }

  /** With acknowledged change bits every port is noticed; without, every port that changed at most once. */
  ghost predicate Inv(s: State, acknowledges: bool) {
    && Shape(s)
    && (s.main == Idle ==> SyncResult(s.seen, s.registered, s.failed))
    && (forall q | 0 <= q < |s.connected| :: acknowledges || s.changes[q] <= 1 ==> Noticed(s, q))
    && (forall q | 0 <= q < |s.connected| :: s.changes[q] == 0 ==> !s.changeBit[q])
  }

  lemma NextInv(s: State, a: Action, acknowledges: bool)
    requires Inv(s, acknowledges) && Next(s, a, acknowledges).Some?
    ensures Inv(Next(s, a, acknowledges).value, acknowledges)
  {
    var t := Next(s, a, acknowledges).value;
    forall q | 0 <= q < |t.connected| && (acknowledges || t.changes[q] <= 1)
      ensures Noticed(t, q)
    {
      assert acknowledges || s.changes[q] <= 1 ==> Noticed(s, q);
    }
  }

  lemma {:induction false} RunInv(s: State, run: seq<Action>, acknowledges: bool)
    requires Inv(s, acknowledges) && Execute(s, run, acknowledges).Some?
    ensures Inv(Execute(s, run, acknowledges).value, acknowledges)
    decreases |run|
  {
    if run != [] {
      NextInv(s, run[0], acknowledges);
      RunInv(Next(s, run[0], acknowledges).value, run[1..], acknowledges);
    }
  }

  /** If the controller raises an event per change, no change is lost in any interleaving. */
  lemma NoChangeLost(connected: seq<bool>, changeBit: seq<bool>, queued: nat, run: seq<Action>)
    requires |changeBit| == |connected|
    requires var r := Execute(Initial(connected, changeBit, queued), run, true); r.Some? && Quiescent(r.value)
    ensures Settled(Execute(Initial(connected, changeBit, queued), run, true).value)
  {
    RunInv(Initial(connected, changeBit, queued), run, true);
    QuietSettled(Execute(Initial(connected, changeBit, queued), run, true).value, true);
  }

  /** No port changed more than `limit` times. */
  ghost predicate AtMost(s: State, limit: nat) {
    forall q | 0 <= q < |s.changes| :: s.changes[q] <= limit
  }

  lemma QuietSettled(s: State, acknowledges: bool)
    requires Inv(s, acknowledges) && Quiescent(s) && (acknowledges || AtMost(s, 1))
    ensures Settled(s)
  {
    forall q | 0 <= q < |s.connected|
      ensures s.connected[q] == s.seen[q]
    {
      assert Noticed(s, q);
    }
    assert s.connected == s.seen;
  }

  /** A run as the kernel is, from boot to a quiet state. */
  ghost predicate Quiet(connected: seq<bool>, changeBit: seq<bool>, queued: nat, run: seq<Action>, limit: nat) {
    Booted(connected, changeBit) &&
    var r := Execute(Initial(connected, changeBit, queued), run, false);
    r.Some? && Quiescent(r.value) && AtMost(r.value, limit)
  }

  /** Without acknowledging, every quiet state after at most `limit` changes per port is settled, however the machine boots. */
  ghost predicate SafeWithoutAcknowledge(limit: nat) {
    forall connected, changeBit, queued: nat, run | Quiet(connected, changeBit, queued, run, limit) ::
      Settled(Execute(Initial(connected, changeBit, queued), run, false).value)
  }

  /** Plug in, synchronise, unplug: the second change raises no event. */
  function UnplugRun(): seq<Action> {
    [ReadPort, Apply({}, {}), Change(0), Interrupt, Poll, ReadPort, Apply({0}, {}), Change(0)]
  }

  lemma UnplugLost()
    ensures Execute(Initial([false], [false], 0), UnplugRun(), false).Some?
    ensures var s := Execute(Initial([false], [false], 0), UnplugRun(), false).value;
            Quiescent(s) && s.changes == [2] && s.registered == {0} && s.connected == [false]
  {
    var a := Initial([false], [false], 0);
    var b := Next(a, ReadPort, false).value;
    var c := Next(b, Apply({}, {}), false).value;
    var d := Next(c, Change(0), false).value;
    UnplugEnd(d);
    RunTail(c, Change(0), [Interrupt, Poll, ReadPort, Apply({0}, {}), Change(0)]);
    RunTail(b, Apply({}, {}), [Change(0), Interrupt, Poll, ReadPort, Apply({0}, {}), Change(0)]);
    RunTail(a, ReadPort, [Apply({}, {}), Change(0), Interrupt, Poll, ReadPort, Apply({0}, {}), Change(0)]);
    assert UnplugRun() == [ReadPort] + [Apply({}, {}), Change(0), Interrupt, Poll, ReadPort, Apply({0}, {}), Change(0)];
  }

  /** The same run from the moment the device was plugged in. */
  lemma UnplugEnd(d: State)
    requires d == State([true], [true], [1], 1, false, Idle, [false], {}, {})
    ensures Execute(d, [Interrupt, Poll, ReadPort, Apply({0}, {}), Change(0)], false)
            == Some(State([false], [true], [2], 0, false, Idle, [true], {0}, {}))
  {
    var e := Next(d, Interrupt, false).value;
    var f := Next(e, Poll, false).value;
    var g := Next(f, ReadPort, false).value;
    assert g.seen == [true] && SyncResult(g.seen, {0}, {});
    var h := Next(g, Apply({0}, {}), false).value;
    var i := Next(h, Change(0), false).value;
    assert i.connected == [false] && i.changeBit == [true] && i.changes == [2] && i.seen == [true];
    assert Execute(h, [Change(0)], false) == Execute(i, [], false);
    RunTail(g, Apply({0}, {}), [Change(0)]);
    RunTail(f, ReadPort, [Apply({0}, {}), Change(0)]);
    RunTail(e, Poll, [ReadPort, Apply({0}, {}), Change(0)]);
    RunTail(d, Interrupt, [Poll, ReadPort, Apply({0}, {}), Change(0)]);
  }

  lemma RunTail(s: State, a: Action, rest: seq<Action>)
    requires Shape(s) && Next(s, a, false).Some? && Shape(Next(s, a, false).value)
    ensures Execute(s, [a] + rest, false) == Execute(Next(s, a, false).value, rest, false)
  {
    assert ([a] + rest)[1..] == rest;
  }

  /** A device that was there at power-on is unplugged: this one change raises no event. */
  function BootUnplugRun(): seq<Action> {
    [ReadPort, Apply({0}, {}), Change(0)]
  }

  lemma BootUnplugLost()
    ensures Execute(Initial([true], [true], 0), BootUnplugRun(), false).Some?
    ensures var s := Execute(Initial([true], [true], 0), BootUnplugRun(), false).value;
            Quiescent(s) && s.changes == [2] && s.registered == {0} && s.connected == [false]
  {
    var a := Initial([true], [true], 0);
    var b := Next(a, ReadPort, false).value;
    assert b.seen == [true] && SyncResult(b.seen, {0}, {});
    var c := Next(b, Apply({0}, {}), false).value;
    var d := Next(c, Change(0), false).value;
    assert Execute(c, [Change(0)], false) == Execute(d, [], false);
    RunTail(b, Apply({0}, {}), [Change(0)]);
    RunTail(a, ReadPort, [Apply({0}, {}), Change(0)]);
    assert BootUnplugRun() == [ReadPort] + [Apply({0}, {}), Change(0)];
  }

  /**
   As the kernel is, which never acknowledges: notification is reliable exactly up to one change per
   port, and a device present at power-on has used up that one.
   */
  lemma UnacknowledgedExact(limit: nat)
    ensures SafeWithoutAcknowledge(limit) <==> limit <= 1
  {
    if limit <= 1 {
      forall connected, changeBit, queued: nat, run | Quiet(connected, changeBit, queued, run, limit)
        ensures Settled(Execute(Initial(connected, changeBit, queued), run, false).value)
      {
        RunInv(Initial(connected, changeBit, queued), run, false);
        QuietSettled(Execute(Initial(connected, changeBit, queued), run, false).value, false);
      }
    } else {
      UnplugLost();
      assert Quiet([false], [false], 0, UnplugRun(), limit);
    }
  }

  /** Port q is root port q + 1 of the registry. */
  ghost predicate PortRegistered(active: seq<ActivePort>, q: nat) {
    HasPort(active, q + 1)
  }

  ghost predicate PortFailed(failed: seq<nat>, q: nat) {
    q + 1 in failed
  }

  /** `discover_and_init_hid_devices` is such a synchronisation: `ports` are the ports read as connected. */
  lemma SyncGivesResult(before: seq<ActivePort>, active: seq<ActivePort>, ports: seq<nat>, failed: seq<nat>, seen: seq<bool>)
    requires Progressed(Kept(before, ports), active, ports, failed)
    requires (forall p | p in ports :: p < |seen|) && forall p | 0 <= p < |seen| :: p in ports <==> seen[p]
    ensures SyncResult(seen, (set q | 0 <= q < |seen| && PortRegistered(active, q)), (set q | 0 <= q < |seen| && PortFailed(failed, q)))
    ensures forall i | 0 <= i < |active| :: 1 <= active[i].rootPort <= |seen| && seen[active[i].rootPort - 1]
  {
    forall i | 0 <= i < |active|
      ensures 1 <= active[i].rootPort <= |seen| && seen[active[i].rootPort - 1]
    {
      SyncedConnected(before, active, ports, failed, i);
      var k :| 0 <= k < |ports| && ports[k] + 1 == active[i].rootPort;
      assert ports[k] in ports;
    }
    forall q | 0 <= q < |seen| && seen[q] && !PortFailed(failed, q)
      ensures PortRegistered(active, q)
    {
      assert q in ports;
      var k :| 0 <= k < |ports| && ports[k] == q;
      RegisteredPorts(Kept(before, ports), active, ports, failed, k);
    }
  }
}
