/**
 The event ring (section 4.9.4 of the xHCI specification): the controller produces, the interrupt
 handler consumes one event per call and then writes the dequeue pointer register.
 */
module EventRing {
  import opened Wrappers
  import opened Trbs

  const EVENT_RING_SIZE := 32

  /** `taken` is true between taking an event and the write of the dequeue pointer register. */
  datatype State = State(
    base: nat, ring: seq<Trb>,
    enqueue: nat, producerCycle: bool,
    dequeue: nat, cycleState: bool, taken: bool, erdp: nat,
    produced: seq<Trb>, delivered: seq<Trb>)

  datatype Action = Produce(e: Trb) | Take | WriteErdp

  ghost predicate Shape(s: State) {
    |s.ring| == EVENT_RING_SIZE && s.enqueue < EVENT_RING_SIZE && s.dequeue < EVENT_RING_SIZE
  }

  ghost function Initial(base: nat): State {
    State(base, seq(EVENT_RING_SIZE, i => EMPTY), 0, true, 0, true, false, base, [], [])
  }

  /** The slot the dequeue pointer register names; its low four bits carry the busy flag. */
  function ErdpIndex(base: nat, erdp: nat): int {
    (erdp / 16 * 16 - base) / 16
  }

  function ErdpFor(base: nat, index: nat): nat {
    base + 16 * index + 8
  }

  function Step1(i: nat): nat {
    if i + 1 >= EVENT_RING_SIZE then 0 else i + 1
  }

  /** The state after the controller wrote w. */
  ghost function Produced(s: State, w: Trb): State
    requires Shape(s)
  {
    s.(ring := s.ring[s.enqueue := w], enqueue := Step1(s.enqueue),
       producerCycle := if s.enqueue + 1 >= EVENT_RING_SIZE then !s.producerCycle else s.producerCycle,
       produced := s.produced + [w])
  }

  /** The controller writes an event unless that would make its pointer meet the dequeue pointer. */
  ghost function ControllerProduce(s: State, e: Trb): Option<State>
    requires Shape(s)
  {
    if Step1(s.enqueue) == ErdpIndex(s.base, s.erdp) then None
    else Some(Produced(s, WithCycle(e, s.producerCycle)))
  }

  /** `poll_event_ring` up to the advance of the index: nothing if the cycle bit does not match. */
  ghost function TakeEvent(s: State): Option<State>
    requires Shape(s)
  {
    if s.taken || Cycle(s.ring[s.dequeue]) != s.cycleState then None
    else Some(s.(
      dequeue := Step1(s.dequeue),
      cycleState := if s.dequeue + 1 >= EVENT_RING_SIZE then !s.cycleState else s.cycleState,
      taken := true,
      delivered := s.delivered + [s.ring[s.dequeue]]))
  }

  ghost function Next(s: State, a: Action): Option<State>
    requires Shape(s)
  {
    match a
    case Produce(e) => ControllerProduce(s, e)
    case Take => TakeEvent(s)
    case WriteErdp => if s.taken then Some(s.(erdp := ErdpFor(s.base, s.dequeue), taken := false)) else None
  }

  ghost function Execute(s: State, run: seq<Action>): (r: Option<State>)
    requires Shape(s)
    decreases |run|
  {
    if run == [] then Some(s)
    else
      match Next(s, run[0])
      case None => None
      case Some(t) => Execute(t, run[1..])
  }

  /** How many laps the controller, the handler and the dequeue pointer register have completed. */
  datatype Laps = Laps(producer: nat, consumer: nat, register: nat, index: nat)

  ghost predicate Holds(s: State, trb: Trb, k: int, lap: nat) {
    0 <= k < |s.produced| && trb == s.produced[k] && Cycle(trb) == Even(lap)
  }

  ghost predicate SlotHolds(s: State, lap: nat, i: nat)
    requires Shape(s) && i < EVENT_RING_SIZE
  {
    if i < s.enqueue then Holds(s, s.ring[i], EVENT_RING_SIZE * lap + i, lap)
    else if lap > 0 then Holds(s, s.ring[i], EVENT_RING_SIZE * (lap - 1) + i, lap - 1)
    else s.ring[i] == EMPTY
  }

  /** The register is as set up until the first event was handled, and then names slot i with the busy flag. */
  ghost predicate Register(s: State, i: nat) {
    s.erdp == if |s.delivered| == Bit(s.taken) then s.base else ErdpFor(s.base, i)
  }

  ghost predicate Inv(s: State, l: Laps) {
    && Shape(s) && s.base % 64 == 0
    && |s.produced| == EVENT_RING_SIZE * l.producer + s.enqueue && s.producerCycle == Even(l.producer)
    && |s.delivered| == EVENT_RING_SIZE * l.consumer + s.dequeue && s.cycleState == Even(l.consumer)
    && l.index < EVENT_RING_SIZE && Register(s, l.index)
    && EVENT_RING_SIZE * l.register + l.index == |s.delivered| - Bit(s.taken)
    && |s.delivered| <= |s.produced| <= EVENT_RING_SIZE * l.register + l.index + 31
    && s.delivered <= s.produced
    && forall i | 0 <= i < EVENT_RING_SIZE :: SlotHolds(s, l.producer, i)
  }

  lemma InitialInv(base: nat)
    requires base % 64 == 0
    ensures Inv(Initial(base), Laps(0, 0, 0, 0))
  {
  }

  lemma ErdpDecodes(base: nat, index: nat)
    requires base % 64 == 0
    ensures ErdpIndex(base, base + 16 * index) == index && ErdpIndex(base, ErdpFor(base, index)) == index
  {
    var b := base / 16;
    assert base == 16 * b;
    assert (base + 16 * index) / 16 == b + index && ErdpFor(base, index) / 16 == b + index;
  }

  lemma ProduceEnabled(s: State, l: Laps, e: Trb)
    requires Inv(s, l) && ControllerProduce(s, e).Some?
    ensures Step1(s.enqueue) != l.index && Cycle(WithCycle(e, s.producerCycle)) == s.producerCycle
  {
    ErdpDecodes(s.base, l.index);
    WithCycleKeeps(e, s.producerCycle);
  }

  lemma ProduceInv(s: State, l: Laps, w: Trb)
    requires Inv(s, l) && Step1(s.enqueue) != l.index && Cycle(w) == s.producerCycle
    ensures Inv(Produced(s, w), if s.enqueue == 31 then l.(producer := l.producer + 1) else l)
  {
    ProduceRoom(l.producer, s.enqueue, l.register, l.index);
    ProduceSlots(s, l, w, if s.enqueue == 31 then l.producer + 1 else l.producer);
  }

  /** A full ring is one whose next slot is the one the register names. */
  lemma ProduceRoom(producer: nat, enqueue: nat, register: nat, index: nat)
    requires enqueue < EVENT_RING_SIZE && index < EVENT_RING_SIZE && Step1(enqueue) != index
    ensures EVENT_RING_SIZE * producer + enqueue != EVENT_RING_SIZE * register + index + 31
  {
  }

  lemma ProduceSlots(s: State, l: Laps, w: Trb, lap': nat)
    requires Inv(s, l) && Cycle(w) == s.producerCycle && lap' == if s.enqueue == 31 then l.producer + 1 else l.producer
    ensures forall i | 0 <= i < EVENT_RING_SIZE :: SlotHolds(Produced(s, w), lap', i)
  {
    forall i | 0 <= i < EVENT_RING_SIZE
      ensures SlotHolds(Produced(s, w), lap', i)
    {
      assert SlotHolds(s, l.producer, i);
    }
  }

  /** The slot at the dequeue index is accepted exactly when an event is undelivered, and it is that event. */
  lemma TakeExact(s: State, l: Laps)
    requires Inv(s, l)
    ensures Cycle(s.ring[s.dequeue]) == s.cycleState <==> |s.delivered| < |s.produced|
    ensures |s.delivered| < |s.produced| ==> s.ring[s.dequeue] == s.produced[|s.delivered|]
  {
    Behind(s, l);
    assert SlotHolds(s, l.producer, s.dequeue);
  }

  /** The handler is in the controller's lap or the one before. */
  lemma Behind(s: State, l: Laps)
    requires Inv(s, l)
    ensures if s.dequeue <= s.enqueue && l.consumer == l.producer then |s.produced| - |s.delivered| == s.enqueue - s.dequeue
            else l.consumer + 1 == l.producer && s.dequeue > s.enqueue
  {
  }

  lemma TakeInv(s: State, l: Laps)
    requires Inv(s, l) && TakeEvent(s).Some?
    ensures Inv(TakeEvent(s).value, if s.dequeue == 31 then l.(consumer := l.consumer + 1) else l)
  {
    TakeExact(s, l);
    TakeSlots(s, l);
  }

  lemma TakeSlots(s: State, l: Laps)
    requires Inv(s, l) && TakeEvent(s).Some?
    ensures forall i | 0 <= i < EVENT_RING_SIZE :: SlotHolds(TakeEvent(s).value, l.producer, i)
  {
    forall i | 0 <= i < EVENT_RING_SIZE
      ensures SlotHolds(TakeEvent(s).value, l.producer, i)
    {
      assert SlotHolds(s, l.producer, i);
    }
  }

  lemma ErdpInv(s: State, l: Laps)
    requires Inv(s, l) && s.taken
    ensures Inv(Next(s, WriteErdp).value, l.(register := l.consumer, index := s.dequeue))
  {
    var s' := Next(s, WriteErdp).value;
    forall i | 0 <= i < EVENT_RING_SIZE
      ensures SlotHolds(s', l.producer, i)
    {
      assert SlotHolds(s, l.producer, i);
    }
  }

  lemma {:induction false} RunInv(s: State, l: Laps, run: seq<Action>) returns (l': Laps)
    requires Inv(s, l) && Execute(s, run).Some?
    ensures Inv(Execute(s, run).value, l')
    decreases |run|
  {
    if run == [] {
      return l;
    }
    match run[0] {
      case Produce(e) =>
        ProduceEnabled(s, l, e);
        ProduceInv(s, l, WithCycle(e, s.producerCycle));
        l' := if s.enqueue == 31 then l.(producer := l.producer + 1) else l;
      case Take =>
        TakeInv(s, l);
        l' := if s.dequeue == 31 then l.(consumer := l.consumer + 1) else l;
      case WriteErdp =>
        ErdpInv(s, l);
        l' := l.(register := l.consumer, index := s.dequeue);
    }
    l' := RunInv(Next(s, run[0]).value, l', run[1..]);
  }

  /**
   What holds of every run: index, cycle state and order of delivery; from the first event on the register
   holds the address of the next slot with the busy flag, bit 3, which a write of one clears.
   */
  ghost predicate Consumes(s: State)
    requires Shape(s)
  {
    && s.dequeue == |s.delivered| % 32 && s.cycleState == Even(|s.delivered| / 32)
    && s.delivered <= s.produced && |s.produced| - |s.delivered| < 32
    && (!s.taken ==> (TakeEvent(s).Some? <==> |s.delivered| < |s.produced|))
    && s.base <= s.erdp < s.base + 512 && s.erdp % 16 in {0, 8}
    && (!s.taken ==> s.erdp == s.base + 16 * s.dequeue + (if s.delivered == [] then 0 else 8))
  }

  lemma ModPosition(n: nat, lap: nat, i: nat)
    requires n == EVENT_RING_SIZE * lap + i && i < EVENT_RING_SIZE
    ensures n % EVENT_RING_SIZE == i && n / EVENT_RING_SIZE == lap
  {
  }

  lemma ErdpBits(base: nat, index: nat)
    requires base % 64 == 0
    ensures (base + 16 * index) % 16 == 0 && ErdpFor(base, index) % 16 == 8
  {
    var b := base / 64;
    Sixteen(4 * b + index);
  }

  lemma Sixteen(n: nat)
    ensures 16 * n % 16 == 0 && (16 * n + 8) % 16 == 8
  {
  }

  lemma InvConsumes(s: State, l: Laps)
    requires Inv(s, l)
    ensures Consumes(s)
  {
    TakeExact(s, l);
    ModPosition(|s.delivered|, l.consumer, s.dequeue);
    InvRegister(s, l);
  }

  lemma InvRegister(s: State, l: Laps)
    requires Inv(s, l)
    ensures s.base <= s.erdp < s.base + 512 && s.erdp % 16 in {0, 8}
    ensures !s.taken ==> s.erdp == s.base + 16 * s.dequeue + (if s.delivered == [] then 0 else 8)
  {
    ErdpBits(s.base, l.index);
    if !s.taken {
      ModPosition(|s.delivered|, l.consumer, s.dequeue);
      ModPosition(|s.delivered|, l.register, l.index);
    }
  }

  /** Against a controller that respects the dequeue pointer, every event is delivered once and in order. */
  lemma EventRingFifo(base: nat, run: seq<Action>)
    requires base % 64 == 0 && Execute(Initial(base), run).Some?
    ensures Shape(Execute(Initial(base), run).value) && Consumes(Execute(Initial(base), run).value)
  {
    InitialInv(base);
    var l := RunInv(Initial(base), Laps(0, 0, 0, 0), run);
    InvConsumes(Execute(Initial(base), run).value, l);
  }

  /** The handler's side of the ring. */
  class EventQueue {
    const trbs: array<Trb>
    const base: nat
    var dequeueIndex: nat
    var cycleState: bool
    /** The dequeue pointer register of interrupter 0. */
    var erdp: nat

    ghost predicate Valid()
      reads this
    {
      trbs.Length == EVENT_RING_SIZE && dequeueIndex < EVENT_RING_SIZE
    }

    /** The protocol state for a given controller side. */
    ghost function Seen(enqueue: nat, producerCycle: bool, produced: seq<Trb>, delivered: seq<Trb>): State
      reads this, trbs
    {
      State(base, trbs[..], enqueue, producerCycle, dequeueIndex, cycleState, false, erdp, produced, delivered)
    }

    /** `setup_event_ring` */
    constructor (base: nat)
      ensures Valid() && fresh(trbs) && Seen(0, true, [], []) == Initial(base)
    {
      this.base := base;
      trbs := new Trb[EVENT_RING_SIZE](i => EMPTY);
      dequeueIndex, cycleState, erdp := 0, true, base;
    }

    /** `poll_event_ring`: at most one event per call; the caller routes it. */
    method Poll() returns (event: Option<Trb>)
      requires Valid()
      modifies this
      ensures Valid()
      ensures forall enqueue: nat, producerCycle, produced, delivered | enqueue < EVENT_RING_SIZE ::
                var s := old(Seen(enqueue, producerCycle, produced, delivered));
                if event.None? then TakeEvent(s).None? && Seen(enqueue, producerCycle, produced, delivered) == s
                else erdp == base + 16 * dequeueIndex + 8 && Execute(s, [Take, WriteErdp]) == Some(Seen(enqueue, producerCycle, produced, delivered + [event.value]))
    {
      ghost var index, cycle, register := dequeueIndex, cycleState, erdp;
      var trb := trbs[dequeueIndex];
      if Cycle(trb) != cycleState {
        return None;
      }
      dequeueIndex := dequeueIndex + 1;
      if dequeueIndex >= EVENT_RING_SIZE {
        dequeueIndex := 0;
        cycleState := !cycleState;
      }
      erdp := base + dequeueIndex * 16 + 8;
      forall enqueue: nat, producerCycle, produced, delivered | enqueue < EVENT_RING_SIZE
        ensures Execute(State(base, trbs[..], enqueue, producerCycle, index, cycle, false, register, produced, delivered), [Take, WriteErdp])
                == Some(Seen(enqueue, producerCycle, produced, delivered + [trb]))
      {
        PollEffect(State(base, trbs[..], enqueue, producerCycle, index, cycle, false, register, produced, delivered));
      }
      return Some(trb);
    }
  }

  lemma PollEffect(s: State)
    requires Shape(s) && !s.taken && Cycle(s.ring[s.dequeue]) == s.cycleState
    ensures Execute(s, [Take, WriteErdp]) ==
              Some(TakeEvent(s).value.(erdp := ErdpFor(s.base, Step1(s.dequeue)), taken := false))
  {
    var t := TakeEvent(s).value;
    assert [Take, WriteErdp][1..] == [WriteErdp] && [WriteErdp][1..] == [];
    assert Execute(t, [WriteErdp]) == Execute(Next(t, WriteErdp).value, []);
  }
}
