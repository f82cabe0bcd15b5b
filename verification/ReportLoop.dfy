/**
 Event routing and the report loop: controller, interrupt handler and main flow as interleaved
 steps over the event queue (a FIFO, by module EventRing), the global completion flags and the two
 HID drivers. Timeouts do not occur: the main flow waits until its flag is set.
 */
module ReportLoop {
  import opened Wrappers

  datatype Endpoint = Endpoint(slot: nat, dci: nat)

  /**
   `id` names the request an event answers; reports carry 0, which is no request. `code` stands for
   what the event reports: the completion code and, for a command, the slot.
   */
  datatype Event =
    | PortChange
    | CommandDone(id: nat, code: nat)
    | TransferDone(ep: Endpoint, id: nat, code: nat)

  /** A driver's atomics and its locked state; `armed` and `handled` count TRBs and reports since it was attached. */
  datatype Driver = Driver(dci: nat, slot: nat, pending: bool, state: Option<Attached>)
  datatype Attached = Attached(ep: Endpoint, armed: nat, handled: nat)

  /** A completion flag with the code stored beside it and the request that code belongs to. */
  datatype Flag = Flag(pending: bool, code: nat, id: nat)

  datatype MainFlow = Idle | WaitCommand(id: nat, drains: Option<nat>) | WaitTransfer(id: nat)

  datatype Returned = Returned(id: nat, code: nat)

  datatype State = State(
    queue: seq<Event>, portFlag: bool, command: Flag, transfer: Flag,
    keyboard: Driver, mouse: Driver, main: MainFlow,
    commandAtController: Option<nat>, transferAtController: Option<Endpoint>,
    live: map<Endpoint, nat>, answers: map<nat, nat>, returned: seq<Returned>, raced: bool)

  datatype Action =
    | CompleteCommand(code: nat) | CompleteTransfer(code: nat) | CompleteReport(ep: Endpoint, code: nat) | RaisePortChange
    | Interrupt
    | StartCommand(id: nat) | StartShutdown(id: nat, slot: nat) | StartTransfer(id: nat, slot: nat) | Finish
    | AttachKeyboard(ep: Endpoint) | AttachMouse(ep: Endpoint)

  const OFF := Driver(0, 0, false, None)

  ghost function Initial(): State {
    State([], false, Flag(false, 0, 0), Flag(false, 0, 0), OFF, OFF, Idle, None, None, map[], map[], [], false)
  }

  /** TRBs of an endpoint the controller has not completed. */
  function Outstanding(live: map<Endpoint, nat>, ep: Endpoint): nat {
    if ep in live then live[ep] else 0
  }

  predicate Matches(d: Driver, ep: Endpoint) {
    d.dci != 0 && ep.slot == d.slot && ep.dci == d.dci
  }

  /** The event dispatch of `poll_event_ring`. */
  function Route(s: State, e: Event): State {
    match e
    case PortChange => s.(portFlag := true)
    case CommandDone(id, code) => s.(command := Flag(true, code, id))
    case TransferDone(ep, id, code) =>
      if Matches(s.keyboard, ep) then s.(keyboard := s.keyboard.(pending := true))
      else if Matches(s.mouse, ep) then s.(mouse := s.mouse.(pending := true))
      else s.(transfer := Flag(true, code, id))
  }

  /** `poll_keyboard` and `poll_mouse`: read the report, handle it, arm the next one. */
  function PollDriver(d: Driver, live: map<Endpoint, nat>): (r: (Driver, map<Endpoint, nat>, bool)) {
    if !d.pending then (d, live, false)
    else
      match d.state
      case None => (d.(pending := false), live, false)
      case Some(a) =>
        (d.(pending := false, state := Some(a.(armed := a.armed + 1, handled := a.handled + 1))),
         live[a.ep := Outstanding(live, a.ep) + 1],
         Outstanding(live, a.ep) > 0)
  }

  /** One vector-44 interrupt: one event, then both drivers. */
  function HandleInterrupt(s: State): State {
    var routed := if s.queue == [] then s else Route(s.(queue := s.queue[1..]), s.queue[0]);
    var (keyboard, live1, race1) := PollDriver(routed.keyboard, routed.live);
    var (mouse, live2, race2) := PollDriver(routed.mouse, live1);
    routed.(keyboard := keyboard, mouse := mouse, live := live2, raced := routed.raced || race1 || race2)
  }

  /** `init_keyboard` or `init_mouse`: publishes the ids, replaces the state and arms the first report. */
  function Attach(d: Driver, ep: Endpoint): Driver {
    Driver(ep.dci, ep.slot, d.pending, Some(Attached(ep, 1, 0)))
  }

  /** `shutdown_keyboard` or `shutdown_mouse`: nothing if the driver does not own the slot. */
  function Shutdown(d: Driver, slot: nat): Driver {
    if d.state.Some? && d.state.value.ep.slot == slot then OFF else d
  }

  function Remaining(live: map<Endpoint, nat>, slot: nat): map<Endpoint, nat> {
    map ep | ep in live && ep.slot != slot :: live[ep]
  }

  /** The answer of the awaited flag, if it is set. */
  function Collect(s: State, f: Flag): Option<State>
    requires s.main != Idle
  {
    if f.pending then Some(s.(main := Idle, returned := s.returned + [Returned(s.main.id, f.code)])) else None
  }

  /** What a run may do beyond the orderly behaviour under which the drivers work. */
  datatype Rules = Rules(secondKeyboard: bool, secondMouse: bool, sharedEndpoint: bool, controlEndpoint: bool, failedDisable: bool)

  /**
   At most one keyboard and one mouse are attached, on endpoints other than EP0 and distinct from each
   other, and a Disable Slot that leaves TRBs of the slot at the controller succeeds.
   */
  const ORDERLY := Rules(false, false, false, false, false)

  predicate KeyboardFits(s: State, ep: Endpoint, rules: Rules) {
    && (rules.secondKeyboard || s.keyboard == OFF)
    && (rules.controlEndpoint || ep.dci > 1)
    && (rules.sharedEndpoint || !Matches(s.mouse, ep))
  }

  predicate MouseFits(s: State, ep: Endpoint, rules: Rules) {
    && (rules.secondMouse || s.mouse == OFF)
    && (rules.controlEndpoint || ep.dci > 1)
    && (rules.sharedEndpoint || !Matches(s.keyboard, ep))
  }

  /** A Disable Slot may fail only if the controller holds no TRB of the slot. */
  predicate DisableFits(s: State, code: nat, rules: Rules) {
    s.main.WaitCommand? && s.main.drains.Some? ==>
      rules.failedDisable || code == 1 || forall ep | ep in s.live && ep.slot == s.main.drains.value :: s.live[ep] == 0
  }

  function KeyboardAttached(s: State, ep: Endpoint): State {
    s.(keyboard := Attach(s.keyboard, ep), live := s.live[ep := Outstanding(s.live, ep) + 1])
  }

  function MouseAttached(s: State, ep: Endpoint): State {
    s.(mouse := Attach(s.mouse, ep), live := s.live[ep := Outstanding(s.live, ep) + 1])
  }

  function CommandCompleted(s: State, code: nat): State
    requires s.commandAtController.Some? && s.main.WaitCommand?
  {
    var id := s.commandAtController.value;
    s.(commandAtController := None, queue := s.queue + [CommandDone(id, code)], answers := s.answers[id := code],
       live := if s.main.drains.Some? && code == 1 then Remaining(s.live, s.main.drains.value) else s.live)
  }

  /** The main flow is idle and the request number has not been used. */
  predicate Fresh(s: State, id: nat) {
    s.main == Idle && id > 0 && id !in s.answers
  }

  /** One step under the given rules. */
  function Next(s: State, a: Action, rules: Rules): Option<State> {
    match a
    case CompleteCommand(code) =>
      if s.commandAtController.None? || !s.main.WaitCommand? || !DisableFits(s, code, rules) then None
      else Some(CommandCompleted(s, code))
    case CompleteTransfer(code) =>
      if s.transferAtController.None? || !s.main.WaitTransfer? then None
      else
        Some(s.(transferAtController := None, answers := s.answers[s.main.id := code],
                queue := s.queue + [TransferDone(s.transferAtController.value, s.main.id, code)]))
    case CompleteReport(ep, code) =>
      if Outstanding(s.live, ep) == 0 then None
      else Some(s.(live := s.live[ep := s.live[ep] - 1], queue := s.queue + [TransferDone(ep, 0, code)]))
    case RaisePortChange => Some(s.(queue := s.queue + [PortChange]))
    case Interrupt => Some(HandleInterrupt(s))
    case StartCommand(id) =>
      if !Fresh(s, id) then None
      else Some(s.(command := s.command.(pending := false), commandAtController := Some(id), main := WaitCommand(id, None)))
    case StartShutdown(id, slot) =>
      if !Fresh(s, id) then None
      else Some(s.(keyboard := Shutdown(s.keyboard, slot), mouse := Shutdown(s.mouse, slot),
                   command := s.command.(pending := false), commandAtController := Some(id), main := WaitCommand(id, Some(slot))))
    case StartTransfer(id, slot) =>
      if !Fresh(s, id) then None
      else Some(s.(transfer := s.transfer.(pending := false), transferAtController := Some(Endpoint(slot, 1)), main := WaitTransfer(id)))
    case Finish =>
      match s.main {
        case Idle => None
        case WaitCommand(_, _) => Collect(s, s.command)
        case WaitTransfer(_) => Collect(s, s.transfer)
      }
    case AttachKeyboard(ep) =>
      if s.main != Idle || !KeyboardFits(s, ep, rules) then None else Some(KeyboardAttached(s, ep))
    case AttachMouse(ep) =>
      if s.main != Idle || !MouseFits(s, ep, rules) then None else Some(MouseAttached(s, ep))
  }

  function Execute(s: State, run: seq<Action>, rules: Rules): Option<State>
    decreases |run|
  {
    if run == [] then Some(s)
    else
      match Next(s, run[0], rules)
      case None => None
      case Some(t) => Execute(t, run[1..], rules)
  }

  /** How many queued events belong to an endpoint. */
  ghost function Queued(q: seq<Event>, ep: Endpoint): nat {
    if q == [] then 0
    else Queued(q[..|q| - 1], ep) + (if q[|q| - 1].TransferDone? && q[|q| - 1].ep == ep then 1 else 0)
  }

  lemma {:induction false} QueuedPop(q: seq<Event>, ep: Endpoint)
    requires q != []
    ensures Queued(q, ep) == Queued(q[1..], ep) + (if q[0].TransferDone? && q[0].ep == ep then 1 else 0)
  {
    var n := |q| - 1;
    if n > 0 {
      QueuedPop(q[..n], ep);
      assert q[..n][1..] == q[1..][..n - 1];
      assert q[1..][n - 1] == q[n];
    } else {
      assert q[1..] == [] && q[..n] == [];
    }
  }

  lemma QueuedPush(q: seq<Event>, e: Event, ep: Endpoint)
    ensures Queued(q + [e], ep) == Queued(q, ep) + (if e.TransferDone? && e.ep == ep then 1 else 0)
  {
    assert (q + [e])[..|q|] == q;
  }

  lemma {:induction false} QueuedNone(q: seq<Event>, ep: Endpoint)
    requires forall i | 0 <= i < |q| :: q[i].TransferDone? ==> q[i].ep != ep
    ensures Queued(q, ep) == 0
  {
    if q != [] {
      QueuedNone(q[..|q| - 1], ep);
    }
  }

  /** An attached driver has one TRB in flight: at the controller or as an event in the queue. */
  ghost predicate DriverInv(d: Driver, q: seq<Event>, live: map<Endpoint, nat>) {
    && !d.pending
    && (d.state.None? ==> d == OFF)
    && (d.state.Some? ==>
          var a := d.state.value;
          && a.ep == Endpoint(d.slot, d.dci) && d.dci > 1
          && Outstanding(live, a.ep) + Queued(q, a.ep) == 1
          && a.armed == a.handled + 1)
  }

  ghost predicate Owned(s: State, ep: Endpoint) {
    Matches(s.keyboard, ep) || Matches(s.mouse, ep)
  }

  /** Endpoints of a slot being disabled may still complete until the command does. */
  ghost predicate Draining(s: State, ep: Endpoint) {
    s.main.WaitCommand? && s.main.drains == Some(ep.slot)
  }

  /** Each queued event has a place to go. */
  ghost predicate EventInv(s: State, i: nat)
    requires i < |s.queue|
  {
    match s.queue[i]
    case PortChange => true
    case CommandDone(id, code) =>
      && s.main.WaitCommand? && id == s.main.id && id in s.answers && s.answers[id] == code
      && s.commandAtController.None? && !s.command.pending
    case TransferDone(ep, id, code) =>
      if id == 0 then
        ep.dci > 1 && (Owned(s, ep) || (Draining(s, ep) && !s.command.pending && forall j | 0 <= j < |s.queue| && s.queue[j].CommandDone? :: i < j))
      else
        && s.main.WaitTransfer? && id == s.main.id && id in s.answers && s.answers[id] == code && ep.dci == 1
        && s.transferAtController.None? && !s.transfer.pending
  }

  /** A set flag that is being waited for holds the answer to the request waited for. */
  ghost predicate FlagInv(s: State) {
    && (s.main.WaitCommand? && s.command.pending ==>
          s.commandAtController.None? && s.command.id == s.main.id && s.main.id in s.answers && s.answers[s.main.id] == s.command.code)
    && (s.main.WaitTransfer? && s.transfer.pending ==>
          s.transferAtController.None? && s.transfer.id == s.main.id && s.main.id in s.answers && s.answers[s.main.id] == s.transfer.code)
    && (s.commandAtController.Some? ==> s.main.WaitCommand? && s.commandAtController.value == s.main.id && !s.command.pending && s.main.id !in s.answers)
    && (s.transferAtController.Some? ==> s.main.WaitTransfer? && s.transferAtController.value.dci == 1 && !s.transfer.pending && s.main.id !in s.answers)
    && (!s.main.Idle? ==> s.main.id > 0)
    && 0 !in s.answers
  }

  /** The slot being disabled carries no attached driver. */
  ghost predicate DrainsNone(s: State) {
    s.main.WaitCommand? && s.main.drains.Some? ==>
      && (s.keyboard.state.Some? ==> s.keyboard.slot != s.main.drains.value)
      && (s.mouse.state.Some? ==> s.mouse.slot != s.main.drains.value)
  }

  ghost predicate Inv(s: State) {
    && DriverInv(s.keyboard, s.queue, s.live) && DriverInv(s.mouse, s.queue, s.live)
    && (s.keyboard.state.Some? && s.mouse.state.Some? ==> s.keyboard.state.value.ep != s.mouse.state.value.ep)
    && (forall ep | ep in s.live && s.live[ep] > 0 :: ep.dci > 1 && (Owned(s, ep) || (Draining(s, ep) && s.commandAtController.Some?)))
    && (forall i | 0 <= i < |s.queue| :: EventInv(s, i))
    && (forall i, j | 0 <= i < j < |s.queue| :: !(s.queue[i].CommandDone? && s.queue[j].CommandDone?))
    && (forall i, j | 0 <= i < j < |s.queue| && s.queue[i].TransferDone? && s.queue[j].TransferDone? ::
          s.queue[i].id == 0 || s.queue[j].id == 0)
    && FlagInv(s) && DrainsNone(s)
    && (forall r | r in s.returned :: r.id in s.answers && s.answers[r.id] == r.code)
    && !s.raced
  }

  /** Removing the first event keeps the remaining events in order. */
  lemma PopEvents(s: State, t: State)
    requires Inv(s) && s.queue != [] && t == s.(queue := s.queue[1..])
    ensures forall i | 0 <= i < |t.queue| :: EventInv(t, i)
    ensures forall i, j | 0 <= i < j < |t.queue| :: !(t.queue[i].CommandDone? && t.queue[j].CommandDone?)
    ensures forall i, j | 0 <= i < j < |t.queue| && t.queue[i].TransferDone? && t.queue[j].TransferDone? ::
              t.queue[i].id == 0 || t.queue[j].id == 0
  {
    forall i | 0 <= i < |t.queue|
      ensures EventInv(t, i)
    {
      assert t.queue[i] == s.queue[i + 1];
      assert EventInv(s, i + 1);
      forall j | 0 <= j < |t.queue| && t.queue[j].CommandDone?
        ensures s.queue[j + 1].CommandDone?
      {
      }
    }
  }

  /** An event for an attached driver: its report is read while the controller holds no TRB, and re-armed. */
  lemma HandleReport(d: Driver, q: seq<Event>, live: map<Endpoint, nat>)
    requires DriverInv(d, q, live) && q != [] && q[0].TransferDone? && Matches(d, q[0].ep)
    ensures var (d', live', race) := PollDriver(d.(pending := true), live);
            && !race && DriverInv(d', q[1..], live') && Matches(d', q[0].ep) && live' == live[q[0].ep := 1]
            && d'.state.Some? && d.state.Some? && d'.state.value.ep == d.state.value.ep == q[0].ep
            && d'.dci == d.dci && d'.slot == d.slot
  {
    QueuedPop(q, q[0].ep);
  }

  /** An event for somebody else leaves a driver as it was. */
  lemma OtherEvent(d: Driver, q: seq<Event>, live: map<Endpoint, nat>, live': map<Endpoint, nat>)
    requires DriverInv(d, q, live) && q != []
    requires q[0].TransferDone? ==> !Matches(d, q[0].ep)
    requires d.state.Some? ==> Outstanding(live', d.state.value.ep) == Outstanding(live, d.state.value.ep)
    ensures DriverInv(d, q[1..], live') && PollDriver(d, live') == (d, live', false)
  {
    if d.state.Some? {
      QueuedPop(q, d.state.value.ep);
    }
  }

  ghost predicate SameOwner(d: Driver, d': Driver) {
    && d'.dci == d.dci && d'.slot == d.slot && d'.state.Some? == d.state.Some?
    && (d.state.Some? ==> d'.state.value.ep == d.state.value.ep)
  }

  /** The rest of the invariant when an owned report was consumed. */
  lemma ReportInv(s: State, keyboard: Driver, mouse: Driver)
    requires Inv(s) && s.queue != [] && s.queue[0].TransferDone? && Owned(s, s.queue[0].ep) && s.queue[0].ep.dci > 1
    requires SameOwner(s.keyboard, keyboard) && SameOwner(s.mouse, mouse)
    requires DriverInv(keyboard, s.queue[1..], s.live[s.queue[0].ep := 1]) && DriverInv(mouse, s.queue[1..], s.live[s.queue[0].ep := 1])
    ensures Inv(s.(queue := s.queue[1..], live := s.live[s.queue[0].ep := 1], keyboard := keyboard, mouse := mouse))
  {
    ReportEvents(s, s.(queue := s.queue[1..], live := s.live[s.queue[0].ep := 1], keyboard := keyboard, mouse := mouse));
  }

  lemma ReportEvents(s: State, t: State)
    requires Inv(s) && s.queue != [] && SameOwner(s.keyboard, t.keyboard) && SameOwner(s.mouse, t.mouse)
    requires t == s.(queue := s.queue[1..], live := t.live, keyboard := t.keyboard, mouse := t.mouse)
    ensures forall i | 0 <= i < |t.queue| :: EventInv(t, i)
    ensures forall i, j | 0 <= i < j < |t.queue| :: !(t.queue[i].CommandDone? && t.queue[j].CommandDone?)
    ensures forall i, j | 0 <= i < j < |t.queue| && t.queue[i].TransferDone? && t.queue[j].TransferDone? ::
              t.queue[i].id == 0 || t.queue[j].id == 0
  {
    var u := s.(queue := s.queue[1..]);
    PopEvents(s, u);
    forall i | 0 <= i < |t.queue|
      ensures EventInv(t, i)
    {
      assert EventInv(u, i);
    }
  }

  /** The rest of the invariant when the event set a flag. */
  lemma FlagEventInv(s: State)
    requires Inv(s) && s.queue != []
    requires s.queue[0].TransferDone? ==> !Owned(s, s.queue[0].ep)
    requires DriverInv(s.keyboard, s.queue[1..], s.live) && DriverInv(s.mouse, s.queue[1..], s.live)
    ensures Inv(Route(s.(queue := s.queue[1..]), s.queue[0]))
  {
    var u := s.(queue := s.queue[1..]);
    var t := Route(u, s.queue[0]);
    PopEvents(s, u);
    assert EventInv(s, 0);
    forall i | 0 <= i < |t.queue|
      ensures EventInv(t, i)
    {
      FlagEventKeeps(s, i);
    }
  }

  /** The event behind does not wait for the flag the first event sets. */
  lemma FlagEventKeeps(s: State, i: nat)
    requires Inv(s) && i + 1 < |s.queue|
    requires s.queue[0].TransferDone? ==> !Owned(s, s.queue[0].ep)
    ensures EventInv(Route(s.(queue := s.queue[1..]), s.queue[0]), i)
  {
    var u := s.(queue := s.queue[1..]);
    PopEvents(s, u);
    assert EventInv(u, i) && EventInv(s, 0) && EventInv(s, i + 1);
    assert u.queue[i] == s.queue[i + 1];
  }

  lemma InterruptKeyboard(s: State)
    requires Inv(s) && s.queue != [] && s.queue[0].TransferDone? && Matches(s.keyboard, s.queue[0].ep)
    ensures Inv(HandleInterrupt(s))
  {
    var e := s.queue[0];
    assert EventInv(s, 0);
    HandleReport(s.keyboard, s.queue, s.live);
    OtherEvent(s.mouse, s.queue, s.live, s.live[e.ep := 1]);
    var keyboard := PollDriver(s.keyboard.(pending := true), s.live).0;
    assert HandleInterrupt(s) == s.(queue := s.queue[1..], live := s.live[e.ep := 1], keyboard := keyboard, mouse := s.mouse);
    ReportInv(s, keyboard, s.mouse);
  }

  lemma InterruptMouse(s: State)
    requires Inv(s) && s.queue != [] && s.queue[0].TransferDone? && Matches(s.mouse, s.queue[0].ep) && !Matches(s.keyboard, s.queue[0].ep)
    ensures Inv(HandleInterrupt(s))
  {
    var e := s.queue[0];
    assert EventInv(s, 0);
    HandleReport(s.mouse, s.queue, s.live);
    OtherEvent(s.keyboard, s.queue, s.live, s.live[e.ep := 1]);
    var mouse := PollDriver(s.mouse.(pending := true), s.live).0;
    assert HandleInterrupt(s) == s.(queue := s.queue[1..], live := s.live[e.ep := 1], keyboard := s.keyboard, mouse := mouse);
    ReportInv(s, s.keyboard, mouse);
  }

  lemma InterruptFlag(s: State)
    requires Inv(s) && s.queue != [] && (s.queue[0].TransferDone? ==> !Owned(s, s.queue[0].ep))
    ensures Inv(HandleInterrupt(s))
  {
    OtherEvent(s.keyboard, s.queue, s.live, s.live);
    OtherEvent(s.mouse, s.queue, s.live, s.live);
    assert HandleInterrupt(s) == Route(s.(queue := s.queue[1..]), s.queue[0]);
    FlagEventInv(s);
  }

  lemma InterruptInv(s: State)
    requires Inv(s)
    ensures Inv(HandleInterrupt(s))
  {
    if s.queue != [] {
      var e := s.queue[0];
      if e.TransferDone? && Matches(s.keyboard, e.ep) {
        InterruptKeyboard(s);
      } else if e.TransferDone? && Matches(s.mouse, e.ep) {
        InterruptMouse(s);
      } else {
        InterruptFlag(s);
      }
    }
  }

  /** Appending an event that has a place to go. */
  lemma PushEvents(s: State, t: State, e: Event)
    requires Inv(s) && t.queue == s.queue + [e] && t.main == s.main && t.keyboard == s.keyboard && t.mouse == s.mouse
    requires t.command == s.command && t.transfer == s.transfer
    requires EventInv(t, |s.queue|)
    requires forall i | 0 <= i < |s.queue| && s.queue[i].CommandDone? :: !e.CommandDone? && (s.commandAtController == t.commandAtController)
    requires forall i | 0 <= i < |s.queue| && s.queue[i].TransferDone? && s.queue[i].id != 0 ::
               s.transferAtController == t.transferAtController && (e.TransferDone? ==> e.id == 0)
    requires forall id | id in s.answers :: id in t.answers && t.answers[id] == s.answers[id]
    ensures forall i | 0 <= i < |t.queue| :: EventInv(t, i)
    ensures forall i, j | 0 <= i < j < |t.queue| :: !(t.queue[i].CommandDone? && t.queue[j].CommandDone?)
    ensures forall i, j | 0 <= i < j < |t.queue| && t.queue[i].TransferDone? && t.queue[j].TransferDone? ::
              t.queue[i].id == 0 || t.queue[j].id == 0
  {
    forall i | 0 <= i < |t.queue|
      ensures EventInv(t, i)
    {
      if i < |s.queue| {
        assert EventInv(s, i);
      }
    }
  }

  lemma CompleteCommandInv(s: State, code: nat)
    requires Inv(s) && Next(s, CompleteCommand(code), ORDERLY).Some?
    ensures Inv(Next(s, CompleteCommand(code), ORDERLY).value)
  {
    var t := Next(s, CompleteCommand(code), ORDERLY).value;
    var e := CommandDone(s.main.id, code);
    forall i | 0 <= i < |s.queue|
      ensures !s.queue[i].CommandDone? && (s.queue[i].TransferDone? ==> s.queue[i].id == 0)
    {
      assert EventInv(s, i);
    }
    PushEvents(s, t, e);
    QueuedPush(s.queue, e, Endpoint(s.keyboard.slot, s.keyboard.dci));
    QueuedPush(s.queue, e, Endpoint(s.mouse.slot, s.mouse.dci));
  }

  lemma CompleteTransferInv(s: State, code: nat)
    requires Inv(s) && Next(s, CompleteTransfer(code), ORDERLY).Some?
    ensures Inv(Next(s, CompleteTransfer(code), ORDERLY).value)
  {
    var t := Next(s, CompleteTransfer(code), ORDERLY).value;
    var e := TransferDone(s.transferAtController.value, s.main.id, code);
    forall i | 0 <= i < |s.queue|
      ensures !s.queue[i].CommandDone? && (s.queue[i].TransferDone? ==> s.queue[i].id == 0)
    {
      assert EventInv(s, i);
    }
    PushEvents(s, t, e);
    QueuedPush(s.queue, e, Endpoint(s.keyboard.slot, s.keyboard.dci));
    QueuedPush(s.queue, e, Endpoint(s.mouse.slot, s.mouse.dci));
  }

  /** The queue with one more report event in it. */
  ghost function AfterReport(s: State, ep: Endpoint, code: nat): State
    requires Outstanding(s.live, ep) > 0
  {
    s.(live := s.live[ep := s.live[ep] - 1], queue := s.queue + [TransferDone(ep, 0, code)])
  }

  lemma CompleteReportEvents(s: State, ep: Endpoint, code: nat)
    requires Inv(s) && Outstanding(s.live, ep) > 0
    ensures var t := AfterReport(s, ep, code);
            && (forall i | 0 <= i < |t.queue| :: EventInv(t, i))
            && (forall i, j | 0 <= i < j < |t.queue| :: !(t.queue[i].CommandDone? && t.queue[j].CommandDone?))
            && (forall i, j | 0 <= i < j < |t.queue| && t.queue[i].TransferDone? && t.queue[j].TransferDone? ::
                  t.queue[i].id == 0 || t.queue[j].id == 0)
  {
    var t := AfterReport(s, ep, code);
    NoCommandQueued(s, ep);
    PushEvents(s, t, TransferDone(ep, 0, code));
  }

  lemma CompleteReportInv(s: State, ep: Endpoint, code: nat)
    requires Inv(s) && Next(s, CompleteReport(ep, code), ORDERLY).Some?
    ensures Inv(Next(s, CompleteReport(ep, code), ORDERLY).value)
  {
    CompleteReportEvents(s, ep, code);
    ReportQueued(s.keyboard, s.queue, s.live, ep, code);
    ReportQueued(s.mouse, s.queue, s.live, ep, code);
    var t := AfterReport(s, ep, code);
    assert Next(s, CompleteReport(ep, code), ORDERLY) == Some(t);
    assert forall e | e in t.live && t.live[e] > 0 :: e in s.live && s.live[e] > 0;
    assert Inv(t);
  }

  /** While a slot drains its Disable Slot command has not completed. */
  lemma NoCommandQueued(s: State, ep: Endpoint)
    requires Inv(s) && (Owned(s, ep) || s.commandAtController.Some?)
    ensures !Owned(s, ep) ==> forall i | 0 <= i < |s.queue| :: !s.queue[i].CommandDone?
  {
    forall i | 0 <= i < |s.queue| && !Owned(s, ep)
      ensures !s.queue[i].CommandDone?
    {
      assert EventInv(s, i);
    }
  }

  /** A completed TRB becomes a queued event; the total in flight stays the same. */
  lemma ReportQueued(d: Driver, q: seq<Event>, live: map<Endpoint, nat>, ep: Endpoint, code: nat)
    requires DriverInv(d, q, live) && Outstanding(live, ep) > 0
    ensures DriverInv(d, q + [TransferDone(ep, 0, code)], live[ep := live[ep] - 1])
  {
    if d.state.Some? {
      QueuedPush(q, TransferDone(ep, 0, code), d.state.value.ep);
    }
  }

  lemma PortChangeInv(s: State)
    requires Inv(s)
    ensures Inv(Next(s, RaisePortChange, ORDERLY).value)
  {
    PushEvents(s, Next(s, RaisePortChange, ORDERLY).value, PortChange);
    OtherQueued(s.keyboard, s.queue, s.live);
    OtherQueued(s.mouse, s.queue, s.live);
  }

  /** A port change is no event of a driver. */
  lemma OtherQueued(d: Driver, q: seq<Event>, live: map<Endpoint, nat>)
    requires DriverInv(d, q, live)
    ensures DriverInv(d, q + [PortChange], live)
  {
    if d.state.Some? {
      QueuedPush(q, PortChange, d.state.value.ep);
    }
  }

  /** While the main flow is idle every queued event is a port change or an owned report. */
  lemma IdleEvents(s: State, i: nat)
    requires Inv(s) && s.main.Idle? && i < |s.queue|
    ensures s.queue[i].PortChange? || (s.queue[i].TransferDone? && s.queue[i].id == 0 && Owned(s, s.queue[i].ep) && s.queue[i].ep.dci > 1)
  {
    assert EventInv(s, i);
  }

  lemma StartInv(s: State, a: Action)
    requires Inv(s) && (a.StartCommand? || a.StartTransfer?) && Next(s, a, ORDERLY).Some?
    ensures Inv(Next(s, a, ORDERLY).value)
  {
    var t := Next(s, a, ORDERLY).value;
    forall i | 0 <= i < |t.queue|
      ensures EventInv(t, i)
    {
      IdleEvents(s, i);
    }
  }

  lemma ShutdownInv(s: State, id: nat, slot: nat)
    requires Inv(s) && Next(s, StartShutdown(id, slot), ORDERLY).Some?
    ensures Inv(Next(s, StartShutdown(id, slot), ORDERLY).value)
  {
    var t := Next(s, StartShutdown(id, slot), ORDERLY).value;
    forall i | 0 <= i < |t.queue|
      ensures EventInv(t, i) && !t.queue[i].CommandDone?
    {
      IdleEvents(s, i);
      forall j | 0 <= j < |t.queue|
        ensures !t.queue[j].CommandDone?
      {
        IdleEvents(s, j);
      }
    }
  }

  lemma FinishInv(s: State)
    requires Inv(s) && Next(s, Finish, ORDERLY).Some?
    ensures Inv(Next(s, Finish, ORDERLY).value)
  {
    var t := Next(s, Finish, ORDERLY).value;
    forall i | 0 <= i < |t.queue|
      ensures EventInv(t, i)
    {
      assert EventInv(s, i);
    }
  }

  lemma AttachInv(s: State, a: Action)
    requires Inv(s) && (a.AttachKeyboard? || a.AttachMouse?) && Next(s, a, ORDERLY).Some?
    ensures Inv(Next(s, a, ORDERLY).value)
  {
    match a
    case AttachKeyboard(ep) => AttachKeyboardInv(s, ep);
    case AttachMouse(ep) => AttachMouseInv(s, ep);
  }

  lemma AttachKeyboardInv(s: State, ep: Endpoint)
    requires Inv(s) && s.main.Idle? && KeyboardFits(s, ep, ORDERLY)
    ensures Inv(KeyboardAttached(s, ep))
  {
    AttachEvents(s, KeyboardAttached(s, ep), ep);
  }

  lemma AttachMouseInv(s: State, ep: Endpoint)
    requires Inv(s) && s.main.Idle? && MouseFits(s, ep, ORDERLY)
    ensures Inv(MouseAttached(s, ep))
  {
    AttachEvents(s, MouseAttached(s, ep), ep);
  }

  /** The events in the queue are owned by the driver that is attached already. */
  lemma AttachEvents(s: State, t: State, ep: Endpoint)
    requires Inv(s) && s.main.Idle? && !Owned(s, ep) && t == s.(keyboard := t.keyboard, mouse := t.mouse, live := t.live)
    requires s.keyboard.state.Some? ==> t.keyboard == s.keyboard
    requires s.mouse.state.Some? ==> t.mouse == s.mouse
    ensures Queued(s.queue, ep) == 0 && forall i | 0 <= i < |t.queue| :: EventInv(t, i)
  {
    forall i | 0 <= i < |s.queue|
      ensures (s.queue[i].TransferDone? ==> s.queue[i].ep != ep) && EventInv(t, i)
    {
      IdleEvents(s, i);
    }
    QueuedNone(s.queue, ep);
  }

  lemma NextInv(s: State, a: Action)
    requires Inv(s) && Next(s, a, ORDERLY).Some?
    ensures Inv(Next(s, a, ORDERLY).value)
  {
    match a {
      case CompleteCommand(code) => CompleteCommandInv(s, code);
      case CompleteTransfer(code) => CompleteTransferInv(s, code);
      case CompleteReport(ep, code) => CompleteReportInv(s, ep, code);
      case RaisePortChange => PortChangeInv(s);
      case Interrupt => InterruptInv(s);
      case StartCommand(_) => StartInv(s, a);
      case StartShutdown(id, slot) => ShutdownInv(s, id, slot);
      case StartTransfer(_, _) => StartInv(s, a);
      case Finish => FinishInv(s);
      case AttachKeyboard(_) => AttachInv(s, a);
      case AttachMouse(_) => AttachInv(s, a);
    }
  }

  lemma {:induction false} RunInv(s: State, run: seq<Action>)
    requires Inv(s) && Execute(s, run, ORDERLY).Some?
    ensures Inv(Execute(s, run, ORDERLY).value)
    decreases |run|
  {
    if run != [] {
      NextInv(s, run[0]);
      RunInv(Next(s, run[0], ORDERLY).value, run[1..]);
    }
  }

  /** The driver's books: one more TRB armed than reports handled, and exactly one in flight. */
  ghost predicate InStep(d: Driver, q: seq<Event>, live: map<Endpoint, nat>) {
    d.state.Some? ==>
      var a := d.state.value;
      a.armed == a.handled + 1 && Outstanding(live, a.ep) + Queued(q, a.ep) == 1
  }

  /** In step, no report read early, every answer its own. */
  ghost predicate Good(s: State) {
    && InStep(s.keyboard, s.queue, s.live) && InStep(s.mouse, s.queue, s.live)
    && !s.raced
    && forall r | r in s.returned :: r.id in s.answers && s.answers[r.id] == r.code
  }

  /** In every orderly run the report loop is in step, no report is read early, and every wait gets its own answer. */
  lemma ReportLoop(run: seq<Action>)
    requires Execute(Initial(), run, ORDERLY).Some?
    ensures Good(Execute(Initial(), run, ORDERLY).value)
  {
    RunInv(Initial(), run);
  }

  /** In every orderly run the event at the head goes to its owner, and to the control flag only when it answers the request waited for or is left over from a slot being disabled. */
  lemma RoutedToOwner(run: seq<Action>)
    requires Execute(Initial(), run, ORDERLY).Some? && Execute(Initial(), run, ORDERLY).value.queue != []
    ensures var s := Execute(Initial(), run, ORDERLY).value;
            var t := Route(s.(queue := s.queue[1..]), s.queue[0]);
            match s.queue[0]
            case PortChange => t.portFlag
            case CommandDone(id, code) => s.main.WaitCommand? && s.main.id == id && id in s.answers && t.command == Flag(true, s.answers[id], id)
            case TransferDone(ep, id, code) =>
              if id != 0 then s.main.WaitTransfer? && s.main.id == id && id in s.answers && t.transfer == Flag(true, s.answers[id], id)
                              && t.keyboard == s.keyboard && t.mouse == s.mouse
              else if s.keyboard.state.Some? && s.keyboard.state.value.ep == ep then t == s.(queue := s.queue[1..], keyboard := t.keyboard) && t.keyboard.pending
              else if s.mouse.state.Some? && s.mouse.state.value.ep == ep then t == s.(queue := s.queue[1..], mouse := t.mouse) && t.mouse.pending
              else Draining(s, ep) && t == s.(queue := s.queue[1..], transfer := t.transfer)
  {
    RunInv(Initial(), run);
    assert EventInv(Execute(Initial(), run, ORDERLY).value, 0);
  }

  /** Keyboard and mouse on equal DCIs of different slots; the mouse reports, and the keyboard is not disturbed. */
  function BothAttachedRun(): seq<Action> {
    [AttachKeyboard(Endpoint(1, 3)), AttachMouse(Endpoint(2, 3)), StartTransfer(7, 2), CompleteReport(Endpoint(2, 3), 1), Interrupt, CompleteTransfer(1)]
  }

  lemma BothAttached()
    ensures Execute(Initial(), BothAttachedRun(), ORDERLY).Some?
    ensures var s := Execute(Initial(), BothAttachedRun(), ORDERLY).value;
            && s.keyboard.state == Some(Attached(Endpoint(1, 3), 1, 0)) && s.mouse.state == Some(Attached(Endpoint(2, 3), 2, 1))
            && s.main == WaitTransfer(7) && !s.transfer.pending && s.queue == [TransferDone(Endpoint(2, 1), 7, 1)]
  {
    var b, c, d := BothStart();
    var e, f, g := BothEnd(d);
    RunSix(Initial(), b, c, d, e, f, g, BothAttachedRun(), ORDERLY);
  }

  lemma BothStart() returns (b: State, c: State, d: State)
    ensures Next(Initial(), AttachKeyboard(Endpoint(1, 3)), ORDERLY) == Some(b) && Next(b, AttachMouse(Endpoint(2, 3)), ORDERLY) == Some(c)
    ensures Next(c, StartTransfer(7, 2), ORDERLY) == Some(d)
    ensures d == Initial().(keyboard := Attach(OFF, Endpoint(1, 3)), mouse := Attach(OFF, Endpoint(2, 3)), main := WaitTransfer(7),
                            transferAtController := Some(Endpoint(2, 1)), live := map[Endpoint(1, 3) := 1, Endpoint(2, 3) := 1])
  {
    b := KeyboardAttached(Initial(), Endpoint(1, 3));
    c := MouseAttached(b, Endpoint(2, 3));
    d := c.(main := WaitTransfer(7), transferAtController := Some(Endpoint(2, 1)));
    assert Next(c, StartTransfer(7, 2), ORDERLY) == Some(d);
  }

  lemma BothEnd(d: State) returns (e: State, f: State, g: State)
    requires d == Initial().(keyboard := Attach(OFF, Endpoint(1, 3)), mouse := Attach(OFF, Endpoint(2, 3)), main := WaitTransfer(7),
                             transferAtController := Some(Endpoint(2, 1)), live := map[Endpoint(1, 3) := 1, Endpoint(2, 3) := 1])
    ensures Next(d, CompleteReport(Endpoint(2, 3), 1), ORDERLY) == Some(e) && Next(e, Interrupt, ORDERLY) == Some(f)
    ensures Next(f, CompleteTransfer(1), ORDERLY) == Some(g)
    ensures g.keyboard.state == Some(Attached(Endpoint(1, 3), 1, 0)) && g.mouse.state == Some(Attached(Endpoint(2, 3), 2, 1))
    ensures g.main == WaitTransfer(7) && !g.transfer.pending && g.queue == [TransferDone(Endpoint(2, 1), 7, 1)]
  {
    e := d.(live := d.live[Endpoint(2, 3) := 0], queue := [TransferDone(Endpoint(2, 3), 0, 1)]);
    assert d.queue + [TransferDone(Endpoint(2, 3), 0, 1)] == e.queue;
    assert Next(d, CompleteReport(Endpoint(2, 3), 1), ORDERLY) == Some(e);
    f := HandleInterrupt(e);
    assert e.queue[1..] == [];
    assert f.queue == [] && f.mouse == d.mouse.(state := Some(Attached(Endpoint(2, 3), 2, 1)));
    g := Next(f, CompleteTransfer(1), ORDERLY).value;
  }

  lemma RunSix(a: State, b: State, c: State, d: State, e: State, f: State, g: State, run: seq<Action>, rules: Rules)
    requires |run| == 6
    requires Next(a, run[0], rules) == Some(b) && Next(b, run[1], rules) == Some(c) && Next(c, run[2], rules) == Some(d)
    requires Next(d, run[3], rules) == Some(e) && Next(e, run[4], rules) == Some(f) && Next(f, run[5], rules) == Some(g)
    ensures Execute(a, run, rules) == Some(g)
  {
    assert Execute(g, run[1..][1..][1..][1..][1..][1..], rules) == Some(g);
    assert Execute(f, run[1..][1..][1..][1..][1..], rules) == Some(g);
    assert Execute(e, run[1..][1..][1..][1..], rules) == Some(g);
    assert Execute(d, run[1..][1..][1..], rules) == Some(g);
    assert Execute(c, run[1..][1..], rules) == Some(g);
    assert Execute(b, run[1..], rules) == Some(g);
  }
}
