/**
 The report loop and the endpoint rings together: every report the drivers arm is an enqueue on the
 ring of the endpoint, interleaved with the controller's fetches, and the controller completes only
 what it has fetched.
 */
module JointRun {
  import opened Wrappers
  import ER = EndpointRing
  import RL = ReportLoop
  import HidDrivers

  /** The report loop with the rings of the attached keyboard and mouse. */
  datatype State = State(loop: RL.State, keyboard: ER.State, mouse: ER.State)

  /** The controller fetches on a ring, or the report loop makes a step, during which the rings make these runs. */
  datatype Action = KeyboardFetch | MouseFetch | Step(a: RL.Action, keyboardRun: seq<ER.Action>, mouseRun: seq<ER.Action>)

  /** The driver's own steps in a run of a ring. */
  ghost function DriverPart(run: seq<ER.Action>): seq<ER.Action> {
    if run == [] then [] else (if run[0].Fetch? then [] else [run[0]]) + DriverPart(run[1..])
  }

  ghost predicate IsEnqueue(part: seq<ER.Action>, k: nat) {
    part != [] && part[0].Begin? && part == ER.EnqueueRun(part[0].t, k)
  }

  /** The driver enqueues one TRB on the ring, while the controller may fetch in between. */
  ghost predicate Arms(ring: ER.State, run: seq<ER.Action>, ring': ER.State) {
    && ER.Shape(ring) && IsEnqueue(DriverPart(run), ring.enqueue)
    && ER.Execute(ring, run, |ring.sent| + 1) == Some(ring')
  }

  /** A driver that is attached gets a new ring with one TRB; one that re-arms enqueues one more. */
  ghost predicate RingStep(d: RL.Driver, d': RL.Driver, ring: ER.State, run: seq<ER.Action>, ring': ER.State) {
    if d'.state.None? then run == [] && ring' == ring
    else if d.state.None? then Arms(ER.Initial(ring'.base), run, ring')
    else if d'.state.value.armed == d.state.value.armed then run == [] && ring' == ring
    else Arms(ring, run, ring')
  }

  /** A TRB that completes has been fetched and its event is due. */
  ghost predicate Fetched(d: RL.Driver, live: map<RL.Endpoint, nat>, ring: ER.State, a: RL.Action) {
    a.CompleteReport? && d.state.Some? && d.state.value.ep == a.ep ==>
      d.state.value.armed < ring.due + RL.Outstanding(live, a.ep)
  }

  ghost predicate Next(j: State, x: Action, j': State) {
    match x
    case KeyboardFetch =>
      j.loop.keyboard.state.Some? && ER.Shape(j.keyboard) && ER.ControllerFetch(j.keyboard) == Some(j'.keyboard)
      && j' == j.(keyboard := j'.keyboard)
    case MouseFetch =>
      j.loop.mouse.state.Some? && ER.Shape(j.mouse) && ER.ControllerFetch(j.mouse) == Some(j'.mouse)
      && j' == j.(mouse := j'.mouse)
    case Step(a, keyboardRun, mouseRun) =>
      && RL.Next(j.loop, a, RL.ORDERLY) == Some(j'.loop)
      && Fetched(j.loop.keyboard, j.loop.live, j.keyboard, a) && Fetched(j.loop.mouse, j.loop.live, j.mouse, a)
      && RingStep(j.loop.keyboard, j'.loop.keyboard, j.keyboard, keyboardRun, j'.keyboard)
      && RingStep(j.loop.mouse, j'.loop.mouse, j.mouse, mouseRun, j'.mouse)
  }

  ghost predicate StepAt(states: seq<State>, actions: seq<Action>, i: nat) {
    i < |actions| && i + 1 < |states| && Next(states[i], actions[i], states[i + 1])
  }

  /** The states of a joint run from the start. */
  ghost predicate Run(states: seq<State>, actions: seq<Action>) {
    && |states| == |actions| + 1 && states[0].loop == RL.Initial()
    && forall i: nat | i < |actions| :: StepAt(states, actions, i)
  }

  // What keeps rings and loop together.

  ghost predicate Healthy(ring: ER.State) {
    exists lap: nat, controllerLap: nat :: ER.Inv(ring, lap, controllerLap)
  }

  /** Every armed report is on the ring, and for every completed one an event was due. */
  ghost predicate RingInv(d: RL.Driver, live: map<RL.Endpoint, nat>, ring: ER.State) {
    d.state.Some? ==>
      var a := d.state.value;
      && Healthy(ring) && ring.phase == ER.Ready
      && |ring.sent| == a.armed <= ring.due + RL.Outstanding(live, a.ep)
  }

  ghost predicate Inv(j: State) {
    RL.Inv(j.loop) && RingInv(j.loop.keyboard, j.loop.live, j.keyboard) && RingInv(j.loop.mouse, j.loop.live, j.mouse)
  }

  /** What a step of the report loop does to a driver: nothing, detach, attach with one TRB, complete one, or re-arm when none is out. */
  ghost predicate Moves(d: RL.Driver, d': RL.Driver, live: map<RL.Endpoint, nat>, live': map<RL.Endpoint, nat>, completes: bool) {
    d'.state.Some? ==>
      var a' := d'.state.value;
      if d.state.None? then a'.armed == 1 && RL.Outstanding(live', a'.ep) == 1
      else
        var a := d.state.value;
        && a'.ep == a.ep
        && (if a'.armed == a.armed then RL.Outstanding(live', a.ep) + (if completes then 1 else 0) >= RL.Outstanding(live, a.ep)
            else a'.armed == a.armed + 1 && RL.Outstanding(live, a.ep) == 0 && RL.Outstanding(live', a.ep) == 1)
  }

  ghost predicate Completes(d: RL.Driver, a: RL.Action) {
    a.CompleteReport? && d.state.Some? && d.state.value.ep == a.ep
  }

  /** The keyboard or mouse, or both, through one step of the loop. */
  ghost predicate BothMove(s: RL.State, a: RL.Action, t: RL.State) {
    && Moves(s.keyboard, t.keyboard, s.live, t.live, Completes(s.keyboard, a))
    && Moves(s.mouse, t.mouse, s.live, t.live, Completes(s.mouse, a))
  }

  /** What the first event and both polls leave of a driver. */
  lemma InterruptParts(s: RL.State, keyboard: RL.Driver, mouse: RL.Driver, live: map<RL.Endpoint, nat>)
    requires RL.HandleInterrupt(s).keyboard == keyboard && RL.HandleInterrupt(s).mouse == mouse && RL.HandleInterrupt(s).live == live
    requires Moves(s.keyboard, keyboard, s.live, live, false) && Moves(s.mouse, mouse, s.live, live, false)
    ensures BothMove(s, RL.Interrupt, RL.HandleInterrupt(s))
  {
  }

  lemma KeyboardReport(s: RL.State)
    requires RL.Inv(s) && s.queue != [] && s.queue[0].TransferDone? && RL.Matches(s.keyboard, s.queue[0].ep)
    ensures BothMove(s, RL.Interrupt, RL.HandleInterrupt(s))
  {
    var ep := s.queue[0].ep;
    assert RL.EventInv(s, 0);
    RL.HandleReport(s.keyboard, s.queue, s.live);
    RL.OtherEvent(s.mouse, s.queue, s.live, s.live[ep := 1]);
    RL.QueuedPop(s.queue, ep);
    InterruptParts(s, RL.PollDriver(s.keyboard.(pending := true), s.live).0, s.mouse, s.live[ep := 1]);
  }

  lemma MouseReport(s: RL.State)
    requires RL.Inv(s) && s.queue != [] && s.queue[0].TransferDone?
    requires RL.Matches(s.mouse, s.queue[0].ep) && !RL.Matches(s.keyboard, s.queue[0].ep)
    ensures BothMove(s, RL.Interrupt, RL.HandleInterrupt(s))
  {
    var ep := s.queue[0].ep;
    assert RL.EventInv(s, 0);
    RL.HandleReport(s.mouse, s.queue, s.live);
    RL.OtherEvent(s.keyboard, s.queue, s.live, s.live[ep := 1]);
    RL.QueuedPop(s.queue, ep);
    InterruptParts(s, s.keyboard, RL.PollDriver(s.mouse.(pending := true), s.live).0, s.live[ep := 1]);
  }

  lemma InterruptMoves(s: RL.State)
    requires RL.Inv(s)
    ensures BothMove(s, RL.Interrupt, RL.HandleInterrupt(s))
  {
    if s.queue != [] && s.queue[0].TransferDone? && RL.Matches(s.keyboard, s.queue[0].ep) {
      KeyboardReport(s);
    } else if s.queue != [] && s.queue[0].TransferDone? && RL.Matches(s.mouse, s.queue[0].ep) {
      MouseReport(s);
    } else {
      NoReport(s);
    }
  }

  lemma NoReport(s: RL.State)
    requires RL.Inv(s) && (s.queue != [] && s.queue[0].TransferDone? ==> !RL.Owned(s, s.queue[0].ep))
    ensures BothMove(s, RL.Interrupt, RL.HandleInterrupt(s))
  {
    NothingPolled(s);
    InterruptParts(s, s.keyboard, s.mouse, s.live);
  }

  lemma NothingPolled(s: RL.State)
    requires RL.Inv(s) && (s.queue != [] && s.queue[0].TransferDone? ==> !RL.Owned(s, s.queue[0].ep))
    ensures var t := RL.HandleInterrupt(s); t.keyboard == s.keyboard && t.mouse == s.mouse && t.live == s.live
  {
    if s.queue != [] {
      RL.OtherEvent(s.keyboard, s.queue, s.live, s.live);
      RL.OtherEvent(s.mouse, s.queue, s.live, s.live);
    }
  }

  lemma AttachMoves(s: RL.State, a: RL.Action, t: RL.State)
    requires RL.Inv(s) && RL.Next(s, a, RL.ORDERLY) == Some(t) && (a.AttachKeyboard? || a.AttachMouse?)
    ensures BothMove(s, a, t)
  {
    RL.AttachInv(s, a);
  }

  lemma OtherMoves(s: RL.State, a: RL.Action, t: RL.State)
    requires RL.Inv(s) && RL.Next(s, a, RL.ORDERLY) == Some(t)
    requires !a.Interrupt? && !a.AttachKeyboard? && !a.AttachMouse?
    ensures BothMove(s, a, t)
  {
    if a.CompleteReport? || a.CompleteCommand? {
      CompletionMoves(s, a, t);
    } else if a.StartShutdown? {
      ShutdownMoves(s, a, t);
    } else {
      assert t.keyboard == s.keyboard && t.mouse == s.mouse && t.live == s.live;
    }
  }

  lemma CompletionMoves(s: RL.State, a: RL.Action, t: RL.State)
    requires RL.Inv(s) && RL.Next(s, a, RL.ORDERLY) == Some(t) && (a.CompleteReport? || a.CompleteCommand?)
    ensures BothMove(s, a, t)
  {
  }

  lemma ShutdownMoves(s: RL.State, a: RL.Action, t: RL.State)
    requires RL.Inv(s) && RL.Next(s, a, RL.ORDERLY) == Some(t) && a.StartShutdown?
    ensures BothMove(s, a, t)
  {
  }

  lemma LoopMoves(s: RL.State, a: RL.Action, t: RL.State)
    requires RL.Inv(s) && RL.Next(s, a, RL.ORDERLY) == Some(t)
    ensures BothMove(s, a, t)
  {
    if a.Interrupt? {
      InterruptMoves(s);
    } else if a.AttachKeyboard? || a.AttachMouse? {
      AttachMoves(s, a, t);
    } else {
      OtherMoves(s, a, t);
    }
  }

  // One enqueue, however the controller's fetches fall between its writes.

  /** A run whose only Begin, if any, is the driver's first step. */
  ghost predicate BeginsFirst(part: seq<ER.Action>) {
    forall i | 1 <= i < |part| :: part[i] == ER.Write
  }

  /** If nothing is outstanding when the run begins a TRB, it is a run with at most one outstanding. */
  lemma {:induction false} WithinOne(s: ER.State, run: seq<ER.Action>, limit: nat)
    requires ER.Shape(s) && BeginsFirst(DriverPart(run)) && ER.Execute(s, run, limit).Some?
    requires DriverPart(run) != [] && DriverPart(run)[0].Begin? ==> |s.sent| <= |s.fetched|
    ensures ER.Execute(s, run, 1) == ER.Execute(s, run, limit)
    decreases |run|
  {
    if run != [] {
      ER.NextShape(s, run[0], limit);
      var t := ER.Next(s, run[0], limit).value;
      if run[0].Fetch? {
        assert DriverPart(run) == DriverPart(run[1..]);
      } else {
        assert DriverPart(run)[1..] == DriverPart(run[1..]);
        assert DriverPart(run[1..]) != [] ==> DriverPart(run[1..])[0] == DriverPart(run)[1];
      }
      assert ER.Next(s, run[0], 1) == Some(t);
      WithinOne(t, run[1..], limit);
    }
  }

  ghost predicate SameDriver(a: ER.State, b: ER.State) {
    && a.base == b.base && a.ring == b.ring && a.enqueue == b.enqueue && a.producerCycle == b.producerCycle
    && a.phase == b.phase && a.sent == b.sent
  }

  /** Fetches do not touch the driver's side: it ends as if the driver's steps had run alone. */
  lemma {:induction false} DriverAlone(s: ER.State, alone: ER.State, run: seq<ER.Action>, limit: nat, large: nat)
    requires ER.Shape(s) && ER.Shape(alone) && SameDriver(s, alone) && ER.Execute(s, run, limit).Some?
    requires BeginsFirst(DriverPart(run)) && (DriverPart(run) != [] && DriverPart(run)[0].Begin? ==> |alone.sent| - |alone.fetched| < large)
    ensures ER.Execute(alone, DriverPart(run), large).Some?
    ensures SameDriver(ER.Execute(s, run, limit).value, ER.Execute(alone, DriverPart(run), large).value)
    ensures |ER.Execute(s, run, limit).value.fetched| >= |s.fetched|
    decreases |run|
  {
    if run != [] {
      ER.NextShape(s, run[0], limit);
      var t := ER.Next(s, run[0], limit).value;
      if run[0].Fetch? {
        assert DriverPart(run) == DriverPart(run[1..]);
        DriverAlone(t, alone, run[1..], limit, large);
      } else {
        assert DriverPart(run)[1..] == DriverPart(run[1..]);
        assert DriverPart(run[1..]) != [] ==> DriverPart(run[1..])[0] == DriverPart(run)[1];
        ER.NextShape(alone, run[0], large);
        DriverAlone(t, ER.Next(alone, run[0], large).value, run[1..], limit, large);
      }
    }
  }

  /** Arming with nothing outstanding keeps the ring healthy, adds one TRB, and never has two outstanding. */
  lemma ArmsOne(ring: ER.State, run: seq<ER.Action>, ring': ER.State)
    requires Arms(ring, run, ring') && Healthy(ring) && ring.phase == ER.Ready && |ring.sent| <= ring.due
    ensures ER.Execute(ring, run, 1) == Some(ring')
    ensures Healthy(ring') && ring'.phase == ER.Ready && |ring'.sent| == |ring.sent| + 1 && ring'.due >= ring.due
  {
    var lap: nat, controllerLap: nat :| ER.Inv(ring, lap, controllerLap);
    var part := DriverPart(run);
    assert BeginsFirst(part);
    WithinOne(ring, run, |ring.sent| + 1);
    ER.EnqueueEffect(ring, part[0].t, |ring.sent| + 1);
    DriverAlone(ring, ring, run, |ring.sent| + 1, |ring.sent| + 1);
    var lap', controllerLap' := ER.RunInv(ring, lap, controllerLap, run, 1);
  }

  /** Without any fetch in between, an enqueue is always possible. */
  lemma ArmPossible(ring: ER.State, t: ER.Transfer)
    requires Healthy(ring) && ring.phase == ER.Ready
    ensures Arms(ring, ER.EnqueueRun(t, ring.enqueue), ER.Enqueued(ring, t))
  {
    ER.EnqueueEffect(ring, t, |ring.sent| + 1);
    OwnPart(ER.EnqueueRun(t, ring.enqueue));
  }

  lemma {:induction false} OwnPart(run: seq<ER.Action>)
    requires forall i | 0 <= i < |run| :: !run[i].Fetch?
    ensures DriverPart(run) == run
  {
    if run != [] {
      OwnPart(run[1..]);
    }
  }

  lemma NewRing(base: nat)
    ensures Healthy(ER.Initial(base)) && ER.Initial(base).phase == ER.Ready && ER.Initial(base).sent == [] && ER.Initial(base).due == 0
  {
    ER.InitialInv(base);
  }

  /** One step keeps ring and driver together. */
  lemma RingKept(d: RL.Driver, d': RL.Driver, live: map<RL.Endpoint, nat>, live': map<RL.Endpoint, nat>, a: RL.Action,
                 ring: ER.State, run: seq<ER.Action>, ring': ER.State)
    requires RingInv(d, live, ring) && Moves(d, d', live, live', Completes(d, a)) && Fetched(d, live, ring, a)
    requires RingStep(d, d', ring, run, ring')
    ensures RingInv(d', live', ring')
  {
    if d'.state.Some? {
      if d.state.None? {
        NewRing(ring'.base);
        ArmsOne(ER.Initial(ring'.base), run, ring');
      } else if d'.state.value.armed != d.state.value.armed {
        ArmsOne(ring, run, ring');
      }
    }
  }

  lemma FetchKept(d: RL.Driver, live: map<RL.Endpoint, nat>, ring: ER.State, ring': ER.State)
    requires RingInv(d, live, ring) && d.state.Some? && ER.Shape(ring) && ER.ControllerFetch(ring) == Some(ring')
    ensures RingInv(d, live, ring')
  {
    var lap: nat, controllerLap: nat :| ER.Inv(ring, lap, controllerLap);
    ER.FetchInv(ring, lap, controllerLap);
  }

  lemma NextInv(j: State, x: Action, j': State)
    requires Inv(j) && Next(j, x, j')
    ensures Inv(j')
  {
    match x {
      case KeyboardFetch => FetchKept(j.loop.keyboard, j.loop.live, j.keyboard, j'.keyboard);
      case MouseFetch => FetchKept(j.loop.mouse, j.loop.live, j.mouse, j'.mouse);
      case Step(a, keyboardRun, mouseRun) =>
        RL.NextInv(j.loop, a);
        LoopMoves(j.loop, a, j'.loop);
        RingKept(j.loop.keyboard, j'.loop.keyboard, j.loop.live, j'.loop.live, a, j.keyboard, keyboardRun, j'.keyboard);
        RingKept(j.loop.mouse, j'.loop.mouse, j.loop.live, j'.loop.live, a, j.mouse, mouseRun, j'.mouse);
    }
  }

  lemma {:induction false} RunInv(states: seq<State>, actions: seq<Action>, n: nat)
    requires Run(states, actions) && n <= |actions|
    ensures Inv(states[n])
    decreases n
  {
    if n > 0 {
      RunInv(states, actions, n - 1);
      assert StepAt(states, actions, n - 1);
      StepInv(states, actions, n - 1);
    }
  }

  lemma StepInv(states: seq<State>, actions: seq<Action>, i: nat)
    requires StepAt(states, actions, i) && Inv(states[i])
    ensures Inv(states[i + 1])
  {
    NextInv(states[i], actions[i], states[i + 1]);
  }

  /** The ring of an attached driver: what it armed was sent, at most one TRB is outstanding, and the controller receives all in order. */
  ghost predicate RingGood(d: RL.Driver, ring: ER.State) {
    d.state.Some? ==>
      && ER.Shape(ring) && ER.Delivers(ring) && |ring.sent| == d.state.value.armed
      && |ring.sent| <= |ring.fetched| + 1 && d.state.value.handled <= |ring.fetched|
  }

  /**
   In every joint run, however fetches and writes interleave: the rings hold what was armed, deliver it in
   order with an event due for each TRB, and have at most one outstanding; a report is handled only after its
   TRB was fetched.
   */
  lemma RingsAndLoop(states: seq<State>, actions: seq<Action>)
    requires Run(states, actions)
    ensures var j := states[|actions|];
            RL.Good(j.loop) && RingGood(j.loop.keyboard, j.keyboard) && RingGood(j.loop.mouse, j.mouse)
  {
    RunInv(states, actions, |actions|);
    var j := states[|actions|];
    OneRing(j.loop.keyboard, j.loop.queue, j.loop.live, j.keyboard);
    OneRing(j.loop.mouse, j.loop.queue, j.loop.live, j.mouse);
  }

  lemma OneRing(d: RL.Driver, q: seq<RL.Event>, live: map<RL.Endpoint, nat>, ring: ER.State)
    requires RL.DriverInv(d, q, live) && RingInv(d, live, ring)
    ensures RingGood(d, ring)
  {
    if d.state.Some? {
      var lap: nat, controllerLap: nat :| ER.Inv(ring, lap, controllerLap);
      ER.InvDelivers(ring, lap, controllerLap);
    }
  }

  /** The controller may complete the TRB of the endpoint with this code in the next step of the run. */
  ghost predicate MayComplete(j: State, ep: RL.Endpoint, code: nat) {
    var loop := RL.Next(j.loop, RL.CompleteReport(ep, code), RL.ORDERLY);
    loop.Some? && Next(j, Step(RL.CompleteReport(ep, code), [], []), j.(loop := loop.value))
  }

  /** The report an attached driver waits for: its event is queued, or its TRB can be fetched now, or it can complete now. */
  ghost predicate Coming(j: State, d: RL.Driver, ring: ER.State) {
    d.state.Some? ==>
      var ep := d.state.value.ep;
      && ER.Shape(ring)
      && (RL.Queued(j.loop.queue, ep) == 1 || ER.ControllerFetch(ring).Some? || forall code: nat :: MayComplete(j, ep, code))
  }

  /** In every joint run no attached driver waits in vain, because each TRB it armed asks for its event. */
  lemma ReportComes(states: seq<State>, actions: seq<Action>)
    requires Run(states, actions)
    ensures var j := states[|actions|];
            Coming(j, j.loop.keyboard, j.keyboard) && Coming(j, j.loop.mouse, j.mouse)
  {
    RunInv(states, actions, |actions|);
    var j := states[|actions|];
    OneComes(j, j.loop.keyboard, j.keyboard, j.loop.mouse, j.mouse);
    OneComes(j, j.loop.mouse, j.mouse, j.loop.keyboard, j.keyboard);
  }

  lemma OneComes(j: State, d: RL.Driver, ring: ER.State, other: RL.Driver, otherRing: ER.State)
    requires Inv(j)
    requires (d, ring, other, otherRing) == (j.loop.keyboard, j.keyboard, j.loop.mouse, j.mouse)
             || (d, ring, other, otherRing) == (j.loop.mouse, j.mouse, j.loop.keyboard, j.keyboard)
    ensures Coming(j, d, ring)
  {
    if d.state.Some? {
      var lap: nat, controllerLap: nat :| ER.Inv(ring, lap, controllerLap);
      ER.InvDelivers(ring, lap, controllerLap);
    }
  }

  ghost predicate Rearms(d: RL.Driver, d': RL.Driver) {
    d.state.Some? && d'.state.Some? && d'.state.value.armed != d.state.value.armed
  }

  /** In every joint run each enqueue is one that at most one outstanding TRB allows, far from the 14 at which the ring is still safe. */
  lemma EnqueuesWithinOne(states: seq<State>, actions: seq<Action>, i: nat)
    requires Run(states, actions) && i < |actions| && actions[i].Step?
    ensures var j, j', x := states[i], states[i + 1], actions[i];
            && (Rearms(j.loop.keyboard, j'.loop.keyboard) ==> ER.Shape(j.keyboard) && ER.Execute(j.keyboard, x.keyboardRun, 1) == Some(j'.keyboard))
            && (Rearms(j.loop.mouse, j'.loop.mouse) ==> ER.Shape(j.mouse) && ER.Execute(j.mouse, x.mouseRun, 1) == Some(j'.mouse))
  {
    RunInv(states, actions, i);
    assert StepAt(states, actions, i);
    var j, j', x := states[i], states[i + 1], actions[i];
    LoopMoves(j.loop, x.a, j'.loop);
    if Rearms(j.loop.keyboard, j'.loop.keyboard) {
      ArmsOne(j.keyboard, x.keyboardRun, j'.keyboard);
    }
    if Rearms(j.loop.mouse, j'.loop.mouse) {
      ArmsOne(j.mouse, x.mouseRun, j'.mouse);
    }
  }

  /** A driver object that is in the state of the run goes with the ring of the run. */
  lemma DriverTogether(d: HidDrivers.HidDriver, states: seq<State>, actions: seq<Action>)
    requires Run(states, actions) && d.ring != null
    ensures var j := states[|actions|];
            && (d.View() == j.loop.keyboard && d.ring.sent == j.keyboard.sent ==> HidDrivers.Together(d, j.keyboard, j.loop.live))
            && (d.View() == j.loop.mouse && d.ring.sent == j.mouse.sent ==> HidDrivers.Together(d, j.mouse, j.loop.live))
  {
    RunInv(states, actions, |actions|);
  }
}
