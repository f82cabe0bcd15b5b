/**
 The transfer ring of an interrupt endpoint: 15 data TRBs closed by a Link TRB (sections 4.9.2
 and 6.4.4.1 of the xHCI specification). Driver and controller are two parties over one memory;
 a TRB is written field by field in declaration order, and the controller may act in between.
 */
module EndpointRing {
  import opened Wrappers
  import opened Trbs

  const RING_SIZE := 16
  /** Index of the Link TRB. */
  const LINK := 15

  predicate IsLink(t: Trb) {
    t.control / 1024 % 64 == 6
  }

  predicate ToggleCycle(t: Trb) {
    t.control / 2 % 2 == 1
  }

  predicate IsNormal(t: Trb) {
    t.control / 1024 % 64 == 1
  }

  /** Bit 5, Interrupt On Completion (section 6.4.1.1). */
  predicate AsksInterrupt(t: Trb) {
    t.control / 32 % 2 == 1
  }

  /** Type Normal, interrupt on completion, cycle bit. */
  function NormalControl(cycle: bool): nat {
    0x400 + 0x20 + Bit(cycle)
  }

  /** Type Link, toggle cycle, cycle bit. */
  function LinkControl(cycle: bool): nat {
    0x1800 + 2 + Bit(cycle)
  }

  /** What a transfer asks for: a buffer and a length. */
  datatype Transfer = Transfer(buffer: nat, length: nat)

  /**
   The driver's next memory write: the three fields of a data TRB, then, if that TRB was the last
   of the lap, the three fields of the Link TRB.
   */
  datatype Phase = Ready | DataStatus(t: Transfer) | DataControl(t: Transfer) | LinkParameter | LinkStatus | LinkCycle

  /** `due` counts the fetched TRBs whose completion the controller will report by an event. */
  datatype State = State(
    base: nat, ring: seq<Trb>,
    enqueue: nat, producerCycle: bool, phase: Phase,
    dequeue: nat, consumerCycle: bool,
    sent: seq<Transfer>, fetched: seq<Transfer>, due: nat)

  datatype Action = Begin(t: Transfer) | Write | Fetch

  ghost predicate Linking(s: State) {
    s.phase.LinkParameter? || s.phase.LinkStatus? || s.phase.LinkCycle?
  }

  /** The ring `configure_endpoint` prepares: zeroed, with a Link TRB whose cycle bit is already set. */
  ghost function Initial(base: nat): State {
    State(base, seq(LINK, i => EMPTY) + [Trb(base, 0, LinkControl(true))], 0, true, Ready, 0, true, [], [], 0)
  }

  ghost predicate Shape(s: State) {
    |s.ring| == RING_SIZE && s.enqueue <= LINK && s.dequeue <= LINK && (s.enqueue == LINK <==> Linking(s))
  }

  /** One memory write of the driver. */
  ghost function DriverWrite(s: State): Option<State>
    requires Shape(s)
  {
    match s.phase
    case Ready => None
    case DataStatus(t) =>
      Some(s.(ring := s.ring[s.enqueue := s.ring[s.enqueue].(status := t.length)], phase := DataControl(t)))
    case DataControl(t) =>
      var ring := s.ring[s.enqueue := s.ring[s.enqueue].(control := NormalControl(s.producerCycle))];
      Some(s.(ring := ring, enqueue := s.enqueue + 1, sent := s.sent + [t],
              phase := if s.enqueue + 1 >= LINK then LinkParameter else Ready))
    case LinkParameter =>
      Some(s.(ring := s.ring[LINK := s.ring[LINK].(parameter := s.base)], phase := LinkStatus))
    case LinkStatus =>
      Some(s.(ring := s.ring[LINK := s.ring[LINK].(status := 0)], phase := LinkCycle))
    case LinkCycle =>
      Some(s.(ring := s.ring[LINK := s.ring[LINK].(control := LinkControl(s.producerCycle))],
              enqueue := 0, producerCycle := !s.producerCycle, phase := Ready))
  }

  /**
   The controller fetches the TRB at its dequeue pointer if the cycle bit says it is valid and the type is
   one it accepts; it owes an event for it only if the TRB asks for one.
   */
  ghost function ControllerFetch(s: State): Option<State>
    requires Shape(s)
  {
    var trb := s.ring[s.dequeue];
    if Cycle(trb) != s.consumerCycle then None
    else if IsLink(trb) then
      if trb.parameter != s.base then None
      else Some(s.(dequeue := 0, consumerCycle := if ToggleCycle(trb) then !s.consumerCycle else s.consumerCycle))
    else if s.dequeue == LINK || !IsNormal(trb) then None
    else
      Some(s.(dequeue := s.dequeue + 1, fetched := s.fetched + [Transfer(trb.parameter, trb.status)],
              due := if AsksInterrupt(trb) then s.due + 1 else s.due))
  }

  /** One step; a new TRB is begun only while fewer than `limit` are outstanding. */
  ghost function Next(s: State, a: Action, limit: nat): Option<State>
    requires Shape(s)
  {
    match a
    case Begin(t) =>
      if s.phase != Ready || |s.sent| - |s.fetched| >= limit then None
      else Some(s.(ring := s.ring[s.enqueue := s.ring[s.enqueue].(parameter := t.buffer)], phase := DataStatus(t)))
    case Write => DriverWrite(s)
    case Fetch => ControllerFetch(s)
  }

  lemma NextShape(s: State, a: Action, limit: nat)
    requires Shape(s)
    ensures Next(s, a, limit).Some? ==> Shape(Next(s, a, limit).value)
  {
  }

  /** The state after a whole run, or None if some step of it was not possible. */
  ghost function Execute(s: State, run: seq<Action>, limit: nat): (r: Option<State>)
    requires Shape(s)
    ensures r.Some? ==> Shape(r.value)
    decreases |run|
  {
    if run == [] then Some(s)
    else
      NextShape(s, run[0], limit);
      match Next(s, run[0], limit)
      case None => None
      case Some(t) => Execute(t, run[1..], limit)
  }

  /**
   FIFO: what was fetched is what was sent first, an event is due for each fetched TRB, and anything
   outstanding can be fetched right now.
   */
  ghost predicate Delivers(s: State)
    requires Shape(s)
  {
    && s.fetched <= s.sent && s.due == |s.fetched|
    && (|s.fetched| < |s.sent| ==> ControllerFetch(s).Some?)
  }

  ghost predicate Holds(s: State, trb: Trb, k: int, lap: nat, intact: bool) {
    && 0 <= k < |s.sent|
    && trb.control == NormalControl(Even(lap))
    && (intact ==> Transfer(trb.parameter, trb.status) == s.sent[k])
  }

  /** Slot i of the data part holds what the driver wrote there last. */
  ghost predicate SlotHolds(s: State, lap: nat, i: nat)
    requires Shape(s) && i < LINK
  {
    var trb := s.ring[i];
    if i < s.enqueue then Holds(s, trb, LINK * lap + i, lap, true)
    else if lap > 0 then Holds(s, trb, LINK * (lap - 1) + i, lap - 1, i > s.enqueue || s.phase == Ready)
    else trb.control == 0
  }

  /** The fields of the half-written TRB. */
  ghost predicate HalfWritten(s: State)
    requires Shape(s)
  {
    && (s.phase.DataStatus? ==> s.ring[s.enqueue].parameter == s.phase.t.buffer)
    && (s.phase.DataControl? ==> s.ring[s.enqueue].parameter == s.phase.t.buffer && s.ring[s.enqueue].status == s.phase.t.length)
  }

  /** The invariant, with the number of laps the driver and the controller have completed. */
  ghost predicate Inv(s: State, lap: nat, controllerLap: nat) {
    && Shape(s)
    && |s.sent| == LINK * lap + s.enqueue && s.producerCycle == Even(lap)
    && |s.fetched| == LINK * controllerLap + s.dequeue && s.consumerCycle == Even(controllerLap)
    && |s.fetched| <= |s.sent| <= |s.fetched| + 14
    && (s.phase.DataStatus? || s.phase.DataControl? ==> |s.sent| <= |s.fetched| + 13)
    && s.fetched <= s.sent && s.due == |s.fetched|
    && s.ring[LINK] == Trb(s.base, 0, LinkControl(lap == 0 || Even(lap - 1)))
    && HalfWritten(s)
    && forall i | 0 <= i < LINK :: SlotHolds(s, lap, i)
  }

  lemma ControlFields(cycle: bool)
    ensures Cycle(Trb(0, 0, NormalControl(cycle))) == cycle && !IsLink(Trb(0, 0, NormalControl(cycle)))
    ensures NormalControl(cycle) % 2 == Bit(cycle) && NormalControl(cycle) / 1024 % 64 == 1
    ensures NormalControl(cycle) / 32 % 2 == 1
    ensures LinkControl(cycle) % 2 == Bit(cycle) && LinkControl(cycle) / 1024 % 64 == 6 && LinkControl(cycle) / 2 % 2 == 1
  {
  }

  lemma InitialInv(base: nat)
    ensures Inv(Initial(base), 0, 0)
  {
  }

  lemma BeginInv(s: State, lap: nat, controllerLap: nat, t: Transfer)
    requires Inv(s, lap, controllerLap) && Next(s, Begin(t), 14).Some?
    ensures Inv(Next(s, Begin(t), 14).value, lap, controllerLap)
  {
    var s' := Next(s, Begin(t), 14).value;
    forall i | 0 <= i < LINK
      ensures SlotHolds(s', lap, i)
    {
      assert SlotHolds(s, lap, i);
    }
  }

  lemma WriteInv(s: State, lap: nat, controllerLap: nat)
    requires Inv(s, lap, controllerLap) && DriverWrite(s).Some?
    ensures Inv(DriverWrite(s).value, if s.phase.LinkCycle? then lap + 1 else lap, controllerLap)
  {
    if s.phase.DataStatus? || s.phase.DataControl? {
      DataWriteInv(s, lap, controllerLap);
    } else {
      LinkWriteInv(s, lap, controllerLap);
    }
  }

  lemma DataWriteInv(s: State, lap: nat, controllerLap: nat)
    requires Inv(s, lap, controllerLap) && (s.phase.DataStatus? || s.phase.DataControl?)
    ensures Inv(DriverWrite(s).value, lap, controllerLap)
  {
    var s' := DriverWrite(s).value;
    forall i | 0 <= i < LINK
      ensures SlotHolds(s', lap, i)
    {
      assert SlotHolds(s, lap, i);
    }
  }

  lemma LinkWriteInv(s: State, lap: nat, controllerLap: nat)
    requires Inv(s, lap, controllerLap) && Linking(s)
    ensures Inv(DriverWrite(s).value, if s.phase.LinkCycle? then lap + 1 else lap, controllerLap)
  {
    var s' := DriverWrite(s).value;
    var lap' := if s.phase.LinkCycle? then lap + 1 else lap;
    forall i | 0 <= i < LINK
      ensures SlotHolds(s', lap', i)
    {
      assert SlotHolds(s, lap, i);
    }
  }

  /** The slot the controller looks at is valid exactly when a sent TRB is unfetched, and it is that TRB. */
  lemma FetchExact(s: State, lap: nat, controllerLap: nat)
    requires Inv(s, lap, controllerLap) && s.dequeue < LINK
    ensures |s.fetched| < |s.sent| <==> ControllerFetch(s).Some?
    ensures ControllerFetch(s).Some? ==>
              ControllerFetch(s).value == s.(dequeue := s.dequeue + 1, fetched := s.fetched + [s.sent[|s.fetched|]], due := s.due + 1)
  {
    assert SlotHolds(s, lap, s.dequeue);
    ControlFields(true);
    ControlFields(false);
  }

  lemma FetchInv(s: State, lap: nat, controllerLap: nat)
    requires Inv(s, lap, controllerLap) && ControllerFetch(s).Some?
    ensures Inv(ControllerFetch(s).value, lap, if s.dequeue == LINK then controllerLap + 1 else controllerLap)
  {
    if s.dequeue < LINK {
      FetchExact(s, lap, controllerLap);
    } else {
      ControlFields(true);
      ControlFields(false);
    }
    FetchSlots(s, lap, controllerLap);
  }

  lemma FetchSlots(s: State, lap: nat, controllerLap: nat)
    requires Inv(s, lap, controllerLap) && ControllerFetch(s).Some?
    ensures forall i | 0 <= i < LINK :: SlotHolds(ControllerFetch(s).value, lap, i)
  {
    forall i | 0 <= i < LINK
      ensures SlotHolds(ControllerFetch(s).value, lap, i)
    {
      assert SlotHolds(s, lap, i);
    }
  }

  /** Every reachable state satisfies the invariant, for some lap counts. */
  lemma {:induction false} RunInv(s: State, lap: nat, controllerLap: nat, run: seq<Action>, limit: nat)
    returns (lap': nat, controllerLap': nat)
    requires Inv(s, lap, controllerLap) && limit <= 14 && Execute(s, run, limit).Some?
    ensures Inv(Execute(s, run, limit).value, lap', controllerLap')
    decreases |run|
  {
    if run == [] {
      return lap, controllerLap;
    }
    var t := Next(s, run[0], limit).value;
    lap', controllerLap' := lap, controllerLap;
    match run[0] {
      case Begin(x) => BeginInv(s, lap, controllerLap, x);
      case Write =>
        WriteInv(s, lap, controllerLap);
        lap' := if s.phase.LinkCycle? then lap + 1 else lap;
      case Fetch =>
        FetchInv(s, lap, controllerLap);
        controllerLap' := if s.dequeue == LINK then controllerLap + 1 else controllerLap;
    }
    lap', controllerLap' := RunInv(t, lap', controllerLap', run[1..], limit);
  }

  lemma InvDelivers(s: State, lap: nat, controllerLap: nat)
    requires Inv(s, lap, controllerLap)
    ensures Delivers(s)
  {
    if s.dequeue < LINK {
      FetchExact(s, lap, controllerLap);
    } else {
      ControlFields(true);
      ControlFields(false);
    }
  }

  lemma DeliversUpTo14(base: nat, run: seq<Action>, limit: nat)
    requires limit <= 14 && Execute(Initial(base), run, limit).Some?
    ensures Delivers(Execute(Initial(base), run, limit).value)
  {
    InitialInv(base);
    var lap, controllerLap := RunInv(Initial(base), 0, 0, run, limit);
    InvDelivers(Execute(Initial(base), run, limit).value, lap, controllerLap);
  }

  // With 15 outstanding the driver can rewrite the Link TRB of the next lap before the controller
  // has followed it, and the controller is stuck in front of a full ring.

  const FILLER := Transfer(0, 0)

  /** Sends until the lap is complete, starting at slot k. */
  ghost function LapRun(k: nat): seq<Action>
    requires k <= LINK
    decreases LINK - k
  {
    if k == LINK then [Write, Write, Write] else [Begin(FILLER), Write, Write] + LapRun(k + 1)
  }

  ghost function FetchRun(n: nat): seq<Action> {
    if n == 0 then [] else [Fetch] + FetchRun(n - 1)
  }

  lemma {:induction false} ExecuteAppend(s: State, a: seq<Action>, b: seq<Action>, limit: nat)
    requires Shape(s) && Execute(s, a, limit).Some?
    ensures Execute(s, a + b, limit) == Execute(Execute(s, a, limit).value, b, limit)
    decreases |a|
  {
    if a == [] {
      assert a + b == b;
    } else {
      assert (a + b)[1..] == a[1..] + b;
      NextShape(s, a[0], limit);
      ExecuteAppend(Next(s, a[0], limit).value, a[1..], b, limit);
    }
  }

  lemma ExecuteThree(s: State, a: Action, b: Action, c: Action, limit: nat)
    requires Shape(s) && Next(s, a, limit).Some? && Shape(Next(s, a, limit).value)
    requires var t := Next(s, a, limit).value; Next(t, b, limit).Some? && Shape(Next(t, b, limit).value)
    ensures Execute(s, [a, b, c], limit) == Next(Next(Next(s, a, limit).value, b, limit).value, c, limit)
  {
    var t := Next(s, a, limit).value;
    var u := Next(t, b, limit).value;
    assert [a, b, c][1..] == [b, c] && [b, c][1..] == [c] && [c][1..] == [];
    assert Execute(s, [a, b, c], limit) == Execute(t, [b, c], limit);
    assert Execute(t, [b, c], limit) == Execute(u, [c], limit);
    if Next(u, c, limit).Some? {
      NextShape(u, c, limit);
      assert Execute(Next(u, c, limit).value, [c][1..], limit) == Next(u, c, limit);
    }
  }

  /** The state after the driver sent fillers from slot k to the end of its lap. */
  ghost predicate LapSent(s: State, t: State, k: nat)
    requires Shape(s) && Shape(t) && k <= LINK
  {
    && t.phase == Ready && t.enqueue == 0 && t.producerCycle == !s.producerCycle
    && t.base == s.base && t.dequeue == s.dequeue && t.consumerCycle == s.consumerCycle && t.fetched == s.fetched
    && |t.sent| == |s.sent| + LINK - k
    && t.ring[LINK] == Trb(s.base, 0, LinkControl(s.producerCycle))
    && forall i | k <= i < LINK :: t.ring[i].control == NormalControl(s.producerCycle)
  }

  lemma {:induction false} LapEffect(s: State, k: nat)
    requires Shape(s) && k <= LINK && s.enqueue == k
    requires if k == LINK then s.phase == LinkParameter else s.phase == Ready
    requires |s.sent| - |s.fetched| + LINK - k <= 15
    ensures Execute(s, LapRun(k), 15).Some? && LapSent(s, Execute(s, LapRun(k), 15).value, k)
    ensures forall i | 0 <= i < k :: Execute(s, LapRun(k), 15).value.ring[i] == s.ring[i]
    decreases LINK - k
  {
    if k == LINK {
      ExecuteThree(s, Write, Write, Write, 15);
    } else {
      ExecuteThree(s, Begin(FILLER), Write, Write, 15);
      var t := Execute(s, [Begin(FILLER), Write, Write], 15).value;
      ExecuteAppend(s, [Begin(FILLER), Write, Write], LapRun(k + 1), 15);
      LapEffect(t, k + 1);
      assert t.ring[k].control == NormalControl(s.producerCycle);
    }
  }

  /** The controller fetches the rest of a lap of valid data TRBs. */
  lemma {:induction false} FetchEffect(s: State, n: nat)
    requires Shape(s) && s.dequeue + n == LINK
    requires forall i | s.dequeue <= i < LINK :: s.ring[i].control == NormalControl(s.consumerCycle)
    ensures Execute(s, FetchRun(n), 15).Some?
    ensures var t := Execute(s, FetchRun(n), 15).value;
            t == s.(dequeue := LINK, fetched := t.fetched, due := t.due) && |t.fetched| == |s.fetched| + n
    decreases n
  {
    if n > 0 {
      ControlFields(s.consumerCycle);
      var t := ControllerFetch(s).value;
      assert FetchRun(n)[1..] == FetchRun(n - 1);
      FetchEffect(t, n - 1);
    }
  }

  ghost function StuckRun(): seq<Action> {
    LapRun(0) + (FetchRun(15) + LapRun(0))
  }

  /** Fifteen TRBs are outstanding, the driver is idle, and the controller cannot take another step. */
  lemma Stuck(base: nat)
    ensures Execute(Initial(base), StuckRun(), 15).Some?
    ensures var s := Execute(Initial(base), StuckRun(), 15).value;
            s.phase == Ready && |s.sent| == 30 && |s.fetched| == 15 && ControllerFetch(s).None?
  {
    var a := Initial(base);
    LapEffect(a, 0);
    var b := Execute(a, LapRun(0), 15).value;
    ExecuteAppend(a, LapRun(0), FetchRun(15) + LapRun(0), 15);
    FetchEffect(b, 15);
    var c := Execute(b, FetchRun(15), 15).value;
    ExecuteAppend(b, FetchRun(15), LapRun(0), 15);
    LapEffect(c, 0);
    ControlFields(false);
  }

  lemma {:induction false} LargerLimit(s: State, run: seq<Action>, limit: nat, larger: nat)
    requires Shape(s) && limit <= larger && Execute(s, run, limit).Some?
    ensures Execute(s, run, larger) == Execute(s, run, limit)
    decreases |run|
  {
    if run != [] {
      NextShape(s, run[0], limit);
      LargerLimit(Next(s, run[0], limit).value, run[1..], limit, larger);
    }
  }

  /** In every run with this bound on outstanding TRBs the ring delivers. */
  ghost predicate SafeLimit(limit: nat) {
    forall base: nat, run | Execute(Initial(base), run, limit).Some? :: Delivers(Execute(Initial(base), run, limit).value)
  }

  /** The ring refines a FIFO, over runs of any length, exactly when at most 14 TRBs are outstanding. */
  lemma SafeLimitExact(limit: nat)
    ensures SafeLimit(limit) <==> limit <= 14
  {
    if limit <= 14 {
      forall base: nat, run | Execute(Initial(base), run, limit).Some?
        ensures Delivers(Execute(Initial(base), run, limit).value)
      {
        DeliversUpTo14(base, run, limit);
      }
    } else {
      Stuck(0);
      LargerLimit(Initial(0), StuckRun(), 15, limit);
      assert !Delivers(Execute(Initial(0), StuckRun(), limit).value);
    }
  }

  /** The driver's steps for one transfer enqueued at index k. */
  ghost function EnqueueRun(t: Transfer, k: nat): seq<Action> {
    [Begin(t), Write, Write] + (if k + 1 >= LINK then [Write, Write, Write] else [])
  }

  /** The uninterrupted steps of one enqueue in closed form. */
  ghost function Enqueued(s: State, t: Transfer): State
    requires Shape(s) && s.phase == Ready
  {
    var ring := s.ring[s.enqueue := Trb(t.buffer, t.length, NormalControl(s.producerCycle))];
    var s' := s.(sent := s.sent + [t]);
    if s.enqueue + 1 >= LINK then
      s'.(ring := ring[LINK := Trb(s.base, 0, LinkControl(s.producerCycle))], enqueue := 0, producerCycle := !s.producerCycle)
    else s'.(ring := ring, enqueue := s.enqueue + 1)
  }

  lemma EnqueueEffect(s: State, t: Transfer, limit: nat)
    requires Shape(s) && s.phase == Ready && |s.sent| - |s.fetched| < limit
    ensures Execute(s, EnqueueRun(t, s.enqueue), limit) == Some(Enqueued(s, t))
  {
    ExecuteThree(s, Begin(t), Write, Write, limit);
    var a := Execute(s, [Begin(t), Write, Write], limit).value;
    assert a.ring == s.ring[s.enqueue := Trb(t.buffer, t.length, NormalControl(s.producerCycle))];
    if s.enqueue + 1 >= LINK {
      ExecuteThree(a, Write, Write, Write, limit);
      ExecuteAppend(s, [Begin(t), Write, Write], [Write, Write, Write], limit);
      assert Execute(a, [Write, Write, Write], limit).value.ring == a.ring[LINK := Trb(s.base, 0, LinkControl(s.producerCycle))];
    } else {
      assert [Begin(t), Write, Write] + [] == [Begin(t), Write, Write];
    }
  }

  /** The ring of one endpoint together with the index and cycle state its driver keeps. */
  class TransferRing {
    const trbs: array<Trb>
    const base: nat
    var enqueueIndex: nat
    var cycleState: bool
    /** Everything enqueued so far. */
    ghost var sent: seq<Transfer>

    ghost predicate Valid()
      reads this
    {
      trbs.Length == RING_SIZE && enqueueIndex < LINK
    }

    /** The protocol state with a given controller side, between two calls. */
    ghost function Seen(dequeue: nat, consumerCycle: bool, sent: seq<Transfer>, fetched: seq<Transfer>): State
      reads this, trbs
    {
      State(base, trbs[..], enqueueIndex, cycleState, Ready, dequeue, consumerCycle, sent, fetched, |fetched|)
    }

    /** The new ring of `configure_endpoint`. */
    constructor (base: nat)
      ensures Valid() && fresh(trbs) && this.base == base
      ensures Seen(0, true, [], []) == Initial(base) && sent == []
    {
      sent := [];
      this.base := base;
      trbs := new Trb[RING_SIZE](i => EMPTY);
      enqueueIndex, cycleState := 0, true;
      new;
      trbs[LINK] := Trb(base, 0, LinkControl(true));
    }

    /** `write_link_trb` at the end of the ring. */
    method WriteLinkTrb(cycle: bool)
      requires trbs.Length == RING_SIZE
      modifies trbs
      ensures trbs[..] == old(trbs[..])[LINK := Trb(base, 0, LinkControl(cycle))]
    {
      trbs[LINK] := Trb(base, 0, LinkControl(cycle));
    }

    /** `enqueue_normal_trb_and_ring`: exactly the driver's three writes, and three more at the end of a lap. */
    method EnqueueNormalTrb(buffer: nat, len: nat)
      requires Valid()
      modifies this, trbs
      ensures Valid() && sent == old(sent) + [Transfer(buffer, len % 0x2_0000)]
      ensures forall dequeue: nat, consumerCycle, sent, fetched, limit: nat |
                dequeue <= LINK && |sent| - |fetched| < limit ::
                Execute(old(Seen(dequeue, consumerCycle, sent, fetched)), EnqueueRun(Transfer(buffer, len % 0x2_0000), old(enqueueIndex)), limit)
                == Some(Seen(dequeue, consumerCycle, sent + [Transfer(buffer, len % 0x2_0000)], fetched))
    {
      ghost var ring, index, cycle := trbs[..], enqueueIndex, cycleState;
      trbs[enqueueIndex] := Trb(buffer, len % 0x2_0000, NormalControl(cycleState));
      enqueueIndex := enqueueIndex + 1;
      if enqueueIndex >= LINK {
        WriteLinkTrb(cycleState);
        enqueueIndex := 0;
        cycleState := !cycleState;
      }
      ghost var t := Transfer(buffer, len % 0x2_0000);
      sent := sent + [t];
      forall dequeue: nat, consumerCycle, sent, fetched, limit: nat | dequeue <= LINK && |sent| - |fetched| < limit
        ensures Execute(State(base, ring, index, cycle, Ready, dequeue, consumerCycle, sent, fetched, |fetched|), EnqueueRun(t, index), limit)
                == Some(Seen(dequeue, consumerCycle, sent + [t], fetched))
      {
        EnqueueEffect(State(base, ring, index, cycle, Ready, dequeue, consumerCycle, sent, fetched, |fetched|), t, limit);
      }
    }
  }
}
