/**
 The keyboard and mouse drivers as objects: what each call does to the atomics, the locked state
 and the endpoint ring, in terms of the driver steps of module ReportLoop.
 */
module HidDrivers {
  import opened Wrappers
  import opened Trbs
  import opened EndpointRing
  import RL = ReportLoop

  const REPORT_LEN := 8

  /** A boot keyboard report. */
  datatype KeyboardReport = KeyboardReport(modifier: nat, keycodes: seq<nat>)

  /** A keycode that is neither an empty slot nor held since the last report. */
  predicate Pressed(key: nat, last: seq<nat>) {
    key != 0 && key !in last
  }

  /** How many of the first n keycodes were pressed since the last report. */
  ghost function PressedAmong(keycodes: seq<nat>, last: seq<nat>, n: nat): nat
    requires n <= |keycodes|
  {
    if n == 0 then 0 else PressedAmong(keycodes, last, n - 1) + (if Pressed(keycodes[n - 1], last) then 1 else 0)
  }

  /** `keys` are the newly pressed ones of the first n keycodes, each as often as it is there and in the same order. */
  ghost predicate PressedInOrder(keys: seq<nat>, keycodes: seq<nat>, last: seq<nat>, n: nat)
    requires n <= |keycodes|
  {
    && |keys| == PressedAmong(keycodes, last, n)
    && forall i | 0 <= i < n && keycodes[i] != 0 && keycodes[i] !in last ::
         PressedAmong(keycodes, last, i) < |keys| && keys[PressedAmong(keycodes, last, i)] == keycodes[i]
  }

  /** Nothing but the newly pressed keycodes, and the order leaves no choice. */
  lemma {:induction false} PressedDetermined(a: seq<nat>, b: seq<nat>, keycodes: seq<nat>, last: seq<nat>, n: nat)
    requires n <= |keycodes| && PressedInOrder(a, keycodes, last, n) && PressedInOrder(b, keycodes, last, n)
    ensures a == b && forall k :: k in a <==> k in keycodes[..n] && k != 0 && k !in last
    decreases n
  {
    if n > 0 {
      var m := PressedAmong(keycodes, last, n - 1);
      assert keycodes[..n] == keycodes[..n - 1] + [keycodes[n - 1]];
      EarlierFit(a, keycodes, last, n);
      EarlierFit(b, keycodes, last, n);
      PressedDetermined(a[..m], b[..m], keycodes, last, n - 1);
      assert a == a[..m] + (if Pressed(keycodes[n - 1], last) then [keycodes[n - 1]] else []);
      assert b == b[..m] + (if Pressed(keycodes[n - 1], last) then [keycodes[n - 1]] else []);
    }
  }

  lemma EarlierFit(keys: seq<nat>, keycodes: seq<nat>, last: seq<nat>, n: nat)
    requires 0 < n <= |keycodes| && PressedInOrder(keys, keycodes, last, n)
    ensures PressedAmong(keycodes, last, n - 1) <= |keys|
    ensures PressedInOrder(keys[..PressedAmong(keycodes, last, n - 1)], keycodes, last, n - 1)
  {
    forall i | 0 <= i < n - 1 && Pressed(keycodes[i], last)
      ensures PressedAmong(keycodes, last, i) < PressedAmong(keycodes, last, n - 1)
    {
      CountGrows(keycodes, last, i + 1, n - 1);
    }
  }

  lemma {:induction false} CountGrows(keycodes: seq<nat>, last: seq<nat>, i: nat, n: nat)
    requires i <= n <= |keycodes|
    ensures PressedAmong(keycodes, last, i) <= PressedAmong(keycodes, last, n)
  {
    if i < n {
      CountGrows(keycodes, last, i, n - 1);
    }
  }

  /** The loop of `handle_report` over the keycodes. */
  method NewKeys(keycodes: seq<nat>, last: seq<nat>) returns (keys: seq<nat>)
    ensures PressedInOrder(keys, keycodes, last, |keycodes|)
  {
    keys := [];
    for n := 0 to |keycodes|
      invariant PressedInOrder(keys, keycodes, last, n)
    {
      if keycodes[n] == 0 || keycodes[n] in last {
        continue;
      }
      keys := keys + [keycodes[n]];
    }
  }

  /** One report handled, one TRB armed. */
  ghost function Rearmed(d: RL.Driver): RL.Driver {
    if d.state.None? then d
    else d.(state := Some(d.state.value.(armed := d.state.value.armed + 1, handled := d.state.value.handled + 1)))
  }

  /** The two halves of a poll are the poll step of the report loop. */
  lemma PollHalves(d: RL.Driver, live: map<RL.Endpoint, nat>)
    ensures RL.PollDriver(d, live).0 ==
              if d.pending && d.state.Some? then Rearmed(d.(pending := false)) else d.(pending := false)
  {
  }

  /** Interrupt endpoint ownership shared by both drivers; `ring` is null while no device is attached. */
  class HidDriver {
    var dci: nat
    var slotId: nat
    var pending: bool
    var ring: TransferRing?
    var stateSlot: nat
    var stateDci: nat
    var buffer: nat
    ghost var handled: nat

    ghost predicate Valid()
      reads this, ring
    {
      ring != null ==> ring.Valid()
    }

    /** The driver as module ReportLoop sees it: a TRB is armed for every transfer on the ring. */
    ghost function View(): RL.Driver
      reads this, ring
    {
      RL.Driver(dci, slotId, pending,
                if ring == null then None else Some(RL.Attached(RL.Endpoint(stateSlot, stateDci), |ring.sent|, handled)))
    }

    constructor ()
      ensures Valid() && View() == RL.OFF
    {
      dci, slotId, pending, ring, stateSlot, stateDci, buffer, handled := 0, 0, false, null, 0, 0, 0, 0;
    }

    /** `arm_next_report`: one more TRB for the report buffer on the attached ring. */
    method ArmNextReport()
      requires Valid() && ring != null
      modifies ring, ring.trbs
      ensures Valid() && ring.sent == old(ring.sent) + [Transfer(buffer, 8)]
    {
      ring.EnqueueNormalTrb(buffer, REPORT_LEN);
    }

    /** The end of `init_keyboard` and `init_mouse`, on the new ring of a configured endpoint. */
    method Init(slot: nat, endpoint: nat, newRing: TransferRing, newBuffer: nat)
      requires Valid() && newRing.Valid() && newRing.sent == []
      modifies this, newRing, newRing.trbs
      ensures Valid() && ring == newRing && buffer == newBuffer
      ensures View() == RL.Attach(old(View()), RL.Endpoint(slot, endpoint))
    {
      dci := endpoint;
      slotId := slot;
      ring, stateSlot, stateDci, buffer, handled := newRing, slot, endpoint, newBuffer, 0;
      ArmNextReport();
    }

    /** `shutdown_keyboard` and `shutdown_mouse` */
    method Shutdown(slot: nat)
      requires Valid()
      modifies this
      ensures Valid() && View() == RL.Shutdown(old(View()), slot)
    {
      if ring == null || stateSlot != slot {
        return;
      }
      ring := null;
      dci, slotId, pending := 0, 0, false;
    }

    /** The frame of `poll_keyboard` and `poll_mouse`: says whether there is a report to handle. */
    method TakePending() returns (ready: bool)
      requires Valid()
      modifies this`pending
      ensures Valid() && !pending && ready == (old(pending) && ring != null)
      ensures View() == old(View()).(pending := false)
    {
      ready := pending && ring != null;
      pending := false;
    }

    /** After the report was handled: count it and arm the next one. */
    method Rearm()
      requires Valid() && ring != null
      modifies this`handled, ring, ring.trbs
      ensures Valid() && handled == old(handled) + 1
      ensures ring.sent == old(ring.sent) + [Transfer(buffer, 8)]
      ensures View() == Rearmed(old(View()))
    {
      handled := handled + 1;
      ArmNextReport();
    }
  }

  class Keyboard {
    const driver: HidDriver
    var lastKeycodes: seq<nat>

    constructor (driver: HidDriver)
      ensures this.driver == driver && lastKeycodes == []
    {
      this.driver := driver;
      lastKeycodes := [];
    }

    /** `init_keyboard`: a newly attached keyboard holds no keys. */
    method Attach(slot: nat, endpoint: nat, newRing: TransferRing, newBuffer: nat)
      requires driver.Valid() && newRing.Valid() && newRing.sent == []
      modifies this, driver, newRing, newRing.trbs
      ensures driver.Valid() && driver.View() == RL.Attach(old(driver.View()), RL.Endpoint(slot, endpoint))
      ensures lastKeycodes == [0, 0, 0, 0, 0, 0]
    {
      driver.Init(slot, endpoint, newRing, newBuffer);
      lastKeycodes := [0, 0, 0, 0, 0, 0];
    }

    /** `poll_keyboard` with the report the device left in the buffer; `typed` are the keycodes it passes on. */
    method Poll(report: KeyboardReport) returns (typed: seq<nat>)
      requires driver.Valid()
      modifies this, driver, driver.ring, if driver.ring == null then {} else {driver.ring.trbs}
      ensures driver.Valid()
      ensures forall live :: driver.View() == RL.PollDriver(old(driver.View()), live).0
      ensures if old(driver.pending) && driver.ring != null
              then PressedInOrder(typed, report.keycodes, old(lastKeycodes), |report.keycodes|) && lastKeycodes == report.keycodes
              else typed == [] && lastKeycodes == old(lastKeycodes)
    {
      typed := [];
      ghost var view := driver.View();
      var ready := driver.TakePending();
      if ready {
        typed := NewKeys(report.keycodes, lastKeycodes);
        lastKeycodes := report.keycodes;
        driver.Rearm();
      }
      forall live
        ensures driver.View() == RL.PollDriver(view, live).0
      {
        PollHalves(view, live);
      }
    }
  }

  /** A boot mouse report; x and y are signed bytes. */
  datatype MouseReport = MouseReport(buttons: nat, x: int, y: int)

  /** The position as an `i32`, which wraps. */
  function Wrap32(x: int): int {
    (x + 0x8000_0000) % 0x1_0000_0000 - 0x8000_0000
  }

  /** The one 32-bit value that differs from x by whole turns. */
  lemma WrapsTurns(x: int, y: int)
    requires -0x8000_0000 <= y < 0x8000_0000
    ensures -0x8000_0000 <= Wrap32(x) < 0x8000_0000
    ensures y == Wrap32(x) <==> (x - y) % 0x1_0000_0000 == 0
  {
    var q := (x + 0x8000_0000) / 0x1_0000_0000;
    assert x - y == Wrap32(x) - y + 0x1_0000_0000 * q;
    WholeTurns(Wrap32(x) - y, -q);
  }

  datatype ButtonEvent = ButtonEvent(button: nat, pressed: bool)

  function ButtonBit(buttons: nat, button: nat): bool {
    button < 3 && buttons / [1, 2, 4][button] % 2 == 1
  }

  /** Left, right and middle are the three low bits. */
  lemma ButtonBits(left: bool, right: bool, middle: bool, rest: nat)
    ensures var b := (if left then 1 else 0) + (if right then 2 else 0) + (if middle then 4 else 0) + 8 * rest;
            ButtonBit(b, 0) == left && ButtonBit(b, 1) == right && ButtonBit(b, 2) == middle
  {
  }

  /** The click and release events of one report, for the left, right and middle button in turn. */
  function ButtonEvents(before: nat, after: nat, button: nat): seq<ButtonEvent>
    decreases 3 - button
  {
    if button >= 3 then []
    else
      (if ButtonBit(before, button) != ButtonBit(after, button) then [ButtonEvent(button, ButtonBit(after, button))] else [])
      + ButtonEvents(before, after, button + 1)
  }

  ghost function Sum(moves: seq<int>): int {
    if moves == [] then 0 else Sum(moves[..|moves| - 1]) + moves[|moves| - 1]
  }

  class Mouse {
    const driver: HidDriver
    var posX: int
    var posY: int
    var lastButtons: nat
    /** The movements reported since the mouse was attached. */
    ghost var movesX: seq<int>
    ghost var movesY: seq<int>

    /** Each coordinate is the wrapped sum of all movements: wrapping at every report loses only whole turns. */
    ghost predicate Tracks()
      reads this
    {
      posX == Wrap32(Sum(movesX)) && posY == Wrap32(Sum(movesY))
    }

    constructor (driver: HidDriver)
      ensures this.driver == driver && posX == 0 && posY == 0 && lastButtons == 0 && movesX == movesY == []
    {
      this.driver := driver;
      posX, posY, lastButtons := 0, 0, 0;
      movesX, movesY := [], [];
    }

    /** `init_mouse`: a newly attached mouse starts at the origin with no button down. */
    method Attach(slot: nat, endpoint: nat, newRing: TransferRing, newBuffer: nat)
      requires driver.Valid() && newRing.Valid() && newRing.sent == []
      modifies this, driver, newRing, newRing.trbs
      ensures driver.Valid() && driver.View() == RL.Attach(old(driver.View()), RL.Endpoint(slot, endpoint))
      ensures Tracks() && posX == 0 && posY == 0 && lastButtons == 0 && movesX == movesY == []
    {
      driver.Init(slot, endpoint, newRing, newBuffer);
      posX, posY, lastButtons := 0, 0, 0;
      movesX, movesY := [], [];
    }

    /** `handle_report` */
    method HandleReport(report: MouseReport) returns (events: seq<ButtonEvent>)
      requires Tracks()
      modifies this
      ensures Tracks() && movesX == old(movesX) + [report.x] && movesY == old(movesY) + [report.y]
      ensures posX == Wrap32(old(posX) + report.x) && posY == Wrap32(old(posY) + report.y)
      ensures lastButtons == report.buttons && events == ButtonEvents(old(lastButtons), report.buttons, 0)
    {
      SumPush(movesX, report.x);
      SumPush(movesY, report.y);
      posX := Wrap32(posX + report.x);
      posY := Wrap32(posY + report.y);
      movesX, movesY := movesX + [report.x], movesY + [report.y];
      events := ButtonEvents(lastButtons, report.buttons, 0);
      lastButtons := report.buttons;
    }

    /** `poll_mouse` */
    method Poll(report: MouseReport) returns (events: seq<ButtonEvent>)
      requires driver.Valid() && Tracks()
      modifies this, driver, driver.ring, if driver.ring == null then {} else {driver.ring.trbs}
      ensures driver.Valid() && Tracks()
      ensures forall live :: driver.View() == RL.PollDriver(old(driver.View()), live).0
      ensures if old(driver.pending) && driver.ring != null
              then posX == Wrap32(old(posX) + report.x) && posY == Wrap32(old(posY) + report.y)
                   && movesX == old(movesX) + [report.x] && movesY == old(movesY) + [report.y]
                   && lastButtons == report.buttons && events == ButtonEvents(old(lastButtons), report.buttons, 0)
              else posX == old(posX) && posY == old(posY) && lastButtons == old(lastButtons) && events == []
                   && movesX == old(movesX) && movesY == old(movesY)
    {
      events := [];
      ghost var view := driver.View();
      var ready := driver.TakePending();
      if ready {
        events := HandleReport(report);
        driver.Rearm();
      }
      forall live
        ensures driver.View() == RL.PollDriver(view, live).0
      {
        PollHalves(view, live);
      }
    }
  }

  /** One more movement, added to the wrapped sum or to the sum. */
  lemma SumPush(moves: seq<int>, d: int)
    ensures Wrap32(Wrap32(Sum(moves)) + d) == Wrap32(Sum(moves + [d]))
  {
    assert (moves + [d])[..|moves|] == moves;
    WrapAdds(Sum(moves), d);
  }

  lemma WrapAdds(a: int, b: int)
    ensures Wrap32(Wrap32(a) + b) == Wrap32(a + b)
  {
    var q := (a + 0x8000_0000) / 0x1_0000_0000;
    assert Wrap32(a) == a - 0x1_0000_0000 * q;
    WholeTurns(a + b + 0x8000_0000, q);
  }

  lemma WholeTurns(x: int, q: int)
    ensures (x - 0x1_0000_0000 * q) % 0x1_0000_0000 == x % 0x1_0000_0000
  {
    var r := x / 0x1_0000_0000;
    assert x - 0x1_0000_0000 * q == 0x1_0000_0000 * (r - q) + x % 0x1_0000_0000;
  }

  /** The state of one button after a list of events. */
  ghost function Replay(pressed: bool, events: seq<ButtonEvent>, button: nat): bool
    decreases |events|
  {
    if events == [] then pressed
    else Replay(if events[0].button == button then events[0].pressed else pressed, events[1..], button)
  }

  ghost predicate Changed(e: ButtonEvent, before: nat, after: nat) {
    e.button < 3 && ButtonBit(before, e.button) != e.pressed && ButtonBit(after, e.button) == e.pressed
  }

  /** The events of the buttons from `from` on: one for each that changed, in the order of the buttons. */
  ghost predicate ExactEvents(events: seq<ButtonEvent>, before: nat, after: nat, from: nat) {
    && (forall e :: e in events <==> e.button >= from && Changed(e, before, after))
    && forall i, j | 0 <= i < j < |events| :: events[i].button < events[j].button
  }

  /** One event for each button that changed and none for the others. */
  lemma {:induction false} EventsExact(before: nat, after: nat, from: nat)
    ensures ExactEvents(ButtonEvents(before, after, from), before, after, from)
    decreases 3 - from
  {
    if from < 3 {
      EventsExact(before, after, from + 1);
      var rest := ButtonEvents(before, after, from + 1);
      if ButtonBit(before, from) != ButtonBit(after, from) {
        OneEventMore(rest, before, after, from);
      } else {
        assert [] + rest == rest;
      }
    }
  }

  lemma OneEventMore(rest: seq<ButtonEvent>, before: nat, after: nat, button: nat)
    requires button < 3 && ButtonBit(before, button) != ButtonBit(after, button) && ExactEvents(rest, before, after, button + 1)
    ensures ExactEvents([ButtonEvent(button, ButtonBit(after, button))] + rest, before, after, button)
  {
    var first := ButtonEvent(button, ButtonBit(after, button));
    var events := [first] + rest;
    assert forall j | 0 < j < |events| :: events[j] == rest[j - 1] && rest[j - 1] in rest;
    forall e
      ensures e in events <==> e.button >= button && Changed(e, before, after)
    {
      assert e in events <==> e == first || e in rest;
    }
  }

  /** Replaying the reported events gives exactly the buttons of the report. */
  lemma {:induction false} EventsReplay(before: nat, after: nat, from: nat, button: nat)
    requires button < 3
    ensures Replay(ButtonBit(before, button), ButtonEvents(before, after, from), button) ==
              if from <= button then ButtonBit(after, button) else ButtonBit(before, button)
    decreases 3 - from
  {
    if from < 3 {
      EventsReplay(before, after, from + 1, button);
      var rest := ButtonEvents(before, after, from + 1);
      if ButtonBit(before, from) != ButtonBit(after, from) {
        assert ([ButtonEvent(from, ButtonBit(after, from))] + rest)[1..] == rest;
        if from == button {
          LaterEvents(before, after, from + 1, button, ButtonBit(after, button));
        }
      } else {
        assert [] + rest == rest;
      }
    }
  }

  lemma {:induction false} LaterEvents(before: nat, after: nat, from: nat, button: nat, pressed: bool)
    requires button < from
    ensures Replay(pressed, ButtonEvents(before, after, from), button) == pressed
    decreases 3 - from
  {
    if from < 3 {
      LaterEvents(before, after, from + 1, button, pressed);
      var rest := ButtonEvents(before, after, from + 1);
      assert [] + rest == rest;
      assert ([ButtonEvent(from, ButtonBit(after, from))] + rest)[1..] == rest;
    }
  }

  // The ring's limit.

  /** The ring's protocol state s goes with driver d: the same TRBs were sent, and a completed TRB was fetched. */
  ghost predicate Together(d: HidDriver, s: State, live: map<RL.Endpoint, nat>)
    reads d, d.ring
  {
    d.ring != null && s.sent == d.ring.sent && |s.sent| <= |s.fetched| + RL.Outstanding(live, RL.Endpoint(d.stateSlot, d.stateDci))
  }

  /**
   In every orderly run an attached driver has at most one TRB outstanding on its ring, and none when it
   comes to re-arm, so it never needs more than a limit of one, where the ring is safe up to 14.
   */
  lemma WithinLimit(d: HidDriver, s: State, run: seq<RL.Action>, t: Transfer)
    requires RL.Execute(RL.Initial(), run, RL.ORDERLY).Some?
    requires var r := RL.Execute(RL.Initial(), run, RL.ORDERLY).value;
             (d.View() == r.keyboard || d.View() == r.mouse) && Together(d, s, r.live)
    ensures |s.sent| <= |s.fetched| + 1 && d.handled <= |s.fetched|
    ensures var r := RL.Execute(RL.Initial(), run, RL.ORDERLY).value;
            Shape(s) && s.phase == Ready && RL.Queued(r.queue, RL.Endpoint(d.stateSlot, d.stateDci)) > 0 ==>
              |s.sent| <= |s.fetched| && Next(s, Begin(t), 1).Some?
  {
    RL.ReportLoop(run);
  }
}
