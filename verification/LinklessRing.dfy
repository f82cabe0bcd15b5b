/**
 The command ring and the EP0 rings: the driver wraps its index before the last slot and toggles
 its cycle state, but no Link TRB is ever written there.
 */
module LinklessRing {
  import opened Wrappers
  import opened Trbs

  const COMMAND_RING_SIZE := 32
  const CONTROL_RING_SIZE := 16

  datatype State = State(
    ring: seq<Trb>, enqueue: nat, producerCycle: bool, dequeue: nat,
    sent: seq<Trb>, fetched: seq<Trb>)

  datatype Action = Send(t: Trb) | Fetch

  ghost predicate Shape(s: State) {
    |s.ring| >= 2 && s.enqueue < |s.ring| - 1 && s.dequeue < |s.ring|
  }

  ghost function Initial(size: nat): State {
    State(seq(size, i => EMPTY), 0, true, 0, [], [])
  }

  /** `ep0_enqueue_trb` and `send_command` */
  ghost function DriverSend(s: State, t: Trb): State
    requires Shape(s)
  {
    var wraps := s.enqueue + 1 >= |s.ring| - 1;
    s.(ring := s.ring[s.enqueue := WithCycle(t, s.producerCycle)],
       enqueue := if wraps then 0 else s.enqueue + 1,
       producerCycle := if wraps then !s.producerCycle else s.producerCycle,
       sent := s.sent + [WithCycle(t, s.producerCycle)])
  }

  /** The controller starts with cycle state 1 and, meeting no Link TRB, never changes it. */
  ghost function ControllerFetch(s: State): Option<State>
    requires Shape(s)
  {
    var trb := s.ring[s.dequeue];
    if !Cycle(trb) || s.dequeue + 1 >= |s.ring| then None
    else Some(s.(dequeue := s.dequeue + 1, fetched := s.fetched + [trb]))
  }

  /** The driver waits for completions: it never overwrites a TRB the controller has yet to fetch. */
  ghost predicate Paced(s: State) {
    |s.fetched| >= |s.ring| - 1 || |s.sent| - |s.fetched| < |s.ring| - 1
  }

  ghost function Next(s: State, a: Action, paced: bool): Option<State>
    requires Shape(s)
  {
    match a
    case Send(t) => if paced && !Paced(s) then None else Some(DriverSend(s, t))
    case Fetch => ControllerFetch(s)
  }

  ghost function Execute(s: State, run: seq<Action>, paced: bool): (r: Option<State>)
    requires Shape(s)
    ensures r.Some? ==> Shape(r.value)
    decreases |run|
  {
    if run == [] then Some(s)
    else
      match Next(s, run[0], paced)
      case None => None
      case Some(t) => Execute(t, run[1..], paced)
  }

  /** The last slot is never written and the controller never gets past it. */
  ghost predicate Blocked(s: State) {
    Shape(s) && s.ring[|s.ring| - 1] == EMPTY && |s.fetched| == s.dequeue <= |s.ring| - 1
  }

  /** In any run whatever, at most size - 1 TRBs are ever fetched. */
  lemma {:induction false} NeverMore(s: State, run: seq<Action>, paced: bool)
    requires Blocked(s) && Execute(s, run, paced).Some?
    ensures Blocked(Execute(s, run, paced).value) && |Execute(s, run, paced).value.ring| == |s.ring|
    decreases |run|
  {
    if run != [] {
      NeverMore(Next(s, run[0], paced).value, run[1..], paced);
    }
  }

  /** While the controller is in its only lap, the driver is in its first or second. */
  ghost predicate Inv(s: State) {
    && Blocked(s)
    && var last := |s.ring| - 1;
       s.dequeue < last ==>
         && s.fetched <= s.sent
         && |s.sent| == (if s.producerCycle then s.enqueue else last + s.enqueue)
         && |s.sent| <= |s.fetched| + last
         && (forall i | s.dequeue <= i < last ::
               if i < |s.sent| then s.ring[i] == s.sent[i] && Cycle(s.sent[i]) else s.ring[i] == EMPTY)
  }

  lemma SendInv(s: State, t: Trb)
    requires Inv(s) && Paced(s) && s.dequeue < |s.ring| - 1
    ensures Inv(DriverSend(s, t))
  {
    WithCycleKeeps(t, s.producerCycle);
  }

  /** The dead ring keeps the first size - 1 TRBs as the fetched ones. */
  ghost predicate FirstOnes(s: State) {
    s.fetched <= s.sent
  }

  lemma {:induction false} RunInv(s: State, run: seq<Action>)
    requires Inv(s) && FirstOnes(s) && Execute(s, run, true).Some?
    ensures Inv(Execute(s, run, true).value) && FirstOnes(Execute(s, run, true).value)
    decreases |run|
  {
    if run != [] {
      var t := Next(s, run[0], true).value;
      match run[0] {
        case Send(x) =>
          if s.dequeue < |s.ring| - 1 {
            SendInv(s, x);
          }
        case Fetch =>
          assert s.dequeue < |s.ring| - 1;
      }
      RunInv(t, run[1..]);
    }
  }

  /**
   In every paced run the controller receives a prefix of what was sent, can go on exactly while it
   has received fewer than size - 1 TRBs and one is outstanding, and receives nothing after that.
   */
  lemma DeliversFirst(size: nat, run: seq<Action>)
    requires size >= 2 && Execute(Initial(size), run, true).Some?
    ensures var s := Execute(Initial(size), run, true).value;
            && s.fetched <= s.sent && |s.fetched| <= size - 1
            && (ControllerFetch(s).Some? <==> |s.fetched| < |s.sent| && |s.fetched| < size - 1)
  {
    RunInv(Initial(size), run);
    NeverMore(Initial(size), run, true);
  }

  // The driver's side of a run depends on what it sends alone.

  ghost function SendAll(s: State, ts: seq<Trb>): (r: State)
    requires Shape(s)
    ensures Shape(r)
    decreases |ts|
  {
    if ts == [] then s else SendAll(DriverSend(s, ts[0]), ts[1..])
  }

  lemma {:induction false} SendAllPush(s: State, ts: seq<Trb>, t: Trb)
    requires Shape(s)
    ensures SendAll(s, ts + [t]) == DriverSend(SendAll(s, ts), t)
    decreases |ts|
  {
    if ts == [] {
      assert [] + [t] == [t];
      assert SendAll(DriverSend(s, t), [t][1..]) == DriverSend(s, t);
    } else {
      assert (ts + [t])[1..] == ts[1..] + [t];
      SendAllPush(DriverSend(s, ts[0]), ts[1..], t);
    }
  }

  ghost function Sends(run: seq<Action>): seq<Trb> {
    if run == [] then [] else (if run[0].Send? then [run[0].t] else []) + Sends(run[1..])
  }

  ghost predicate SameDriver(a: State, b: State) {
    a.ring == b.ring && a.enqueue == b.enqueue && a.producerCycle == b.producerCycle && a.sent == b.sent
  }

  /** However sends and fetches interleave, ring, index and cycle state are those of the sends in sequence. */
  lemma {:induction false} RunSends(s: State, alone: State, run: seq<Action>, paced: bool)
    requires Shape(s) && Shape(alone) && SameDriver(s, alone) && Execute(s, run, paced).Some?
    ensures SameDriver(Execute(s, run, paced).value, SendAll(alone, Sends(run)))
    decreases |run|
  {
    if run != [] {
      var t := Next(s, run[0], paced).value;
      if run[0].Send? {
        assert Sends(run)[1..] == Sends(run[1..]);
        RunSends(t, DriverSend(alone, run[0].t), run[1..], paced);
      } else {
        assert Sends(run) == Sends(run[1..]);
        RunSends(t, alone, run[1..], paced);
      }
    }
  }

  /** Equal but for the cycle bit. */
  ghost predicate SameRequest(a: Trb, b: Trb) {
    a.parameter == b.parameter && a.status == b.status && a.control / 2 == b.control / 2
  }

  /** What was sent are the requests, each with the cycle bit of its lap. */
  lemma {:induction false} SentRequests(s: State, ts: seq<Trb>)
    requires Shape(s)
    ensures var r := SendAll(s, ts);
            && |r.sent| == |s.sent| + |ts| && s.sent <= r.sent
            && forall i | 0 <= i < |ts| :: SameRequest(r.sent[|s.sent| + i], ts[i])
    decreases |ts|
  {
    if ts != [] {
      var t := DriverSend(s, ts[0]);
      WithCycleKeeps(ts[0], s.producerCycle);
      SentRequests(t, ts[1..]);
      var r := SendAll(s, ts);
      forall i | 0 <= i < |ts|
        ensures SameRequest(r.sent[|s.sent| + i], ts[i])
      {
        if i > 0 {
          assert SameRequest(r.sent[|t.sent| + (i - 1)], ts[1..][i - 1]);
        } else {
          assert r.sent[|s.sent|] == t.sent[|s.sent|];
        }
      }
    }
  }

  /** A paced run whose controller took all it can took the first requests, up to the size of the ring. */
  lemma Delivered(size: nat, run: seq<Action>, ts: seq<Trb>)
    requires size >= 2 && Execute(Initial(size), run, true).Some? && Sends(run) == ts
    requires ControllerFetch(Execute(Initial(size), run, true).value).None?
    ensures var s := Execute(Initial(size), run, true).value;
            && |s.sent| == |ts| && s.fetched == s.sent[..if |ts| < size then |ts| else size - 1]
            && forall i | 0 <= i < |ts| :: SameRequest(s.sent[i], ts[i])
  {
    DeliversFirst(size, run);
    RunSends(Initial(size), Initial(size), run, true);
    SentRequests(Initial(size), ts);
    var s := Execute(Initial(size), run, true).value;
    assert forall i | 0 <= i < |ts| :: SameRequest(SendAll(Initial(size), ts).sent[0 + i], ts[i]);
  }

  // Control transfers.

  datatype Stage = SetupStage | DataStage | StatusStage | NoStage

  /** The stage a TRB stands for, by its type field. */
  function StageOf(t: Trb): Stage {
    match t.control / 1024 % 64
    case 2 => SetupStage
    case 3 => DataStage
    case 4 => StatusStage
    case _ => NoStage
  }

  function Stages(ts: seq<Trb>): (stages: seq<Stage>)
    ensures |stages| == |ts| && forall i | 0 <= i < |ts| :: stages[i] == StageOf(ts[i])
  {
    seq(|ts|, i requires 0 <= i < |ts| => StageOf(ts[i]))
  }

  /** The eight bytes of a setup packet, low byte first. */
  function SetupPacket(requestType: nat, request: nat, value: nat, index: nat, length: nat): nat {
    requestType + 0x100 * request + 0x1_0000 * value + 0x1_0000_0000 * index + 0x1_0000_0000_0000 * length
  }

  /** Setup with immediate data and an IN data stage, data IN, status with interrupt on completion. */
  function TransferIn(setup: nat, buffer: nat, len: nat): seq<Trb> {
    [Trb(setup, 8, 2 * 1024 + 0x40 + 0x3_0000), Trb(buffer, len, 3 * 1024 + 0x1_0000), Trb(0, 0, 4 * 1024 + 0x20)]
  }

  /** Setup without data stage, status IN. */
  function TransferNoData(setup: nat): seq<Trb> {
    [Trb(setup, 8, 2 * 1024 + 0x40), Trb(0, 0, 4 * 1024 + 0x20 + 0x1_0000)]
  }

  // The same bits as the controller and the device read them (sections 4.11.2.2 and 6.4.1.2 of the xHCI
  // specification, section 9.3 of the USB 2.0 specification).

  /** A setup packet: bmRequestType, bRequest, wValue, wIndex, wLength. */
  datatype Request = Request(requestType: nat, request: nat, value: nat, index: nat, length: nat)

  /** A control transfer: the request, and the buffer that receives its data if it has any. */
  datatype Control = Incoming(request: Request, buffer: nat) | NoData(request: Request)

  function Decode(packet: nat): Request {
    Request(packet % 0x100, packet / 0x100 % 0x100, packet / 0x1_0000 % 0x1_0000,
            packet / 0x1_0000_0000 % 0x1_0000, packet / 0x1_0000_0000_0000 % 0x1_0000)
  }

  /** Bit 5: the completion of the TRB raises an event. */
  predicate Interrupts(t: Trb) {
    t.control / 0x20 % 2 == 1
  }

  /** Bit 6: the parameter is the data itself. */
  predicate Immediate(t: Trb) {
    t.control / 0x40 % 2 == 1
  }

  /** Bit 16 of a Data or Status Stage: from device to host. */
  predicate ToHost(t: Trb) {
    t.control / 0x1_0000 % 2 == 1
  }

  /** The Setup Stage holds its eight bytes itself and announces the data stage: 0 none, 3 IN. */
  predicate Announces(t: Trb, dataStage: nat) {
    StageOf(t) == SetupStage && Immediate(t) && !Interrupts(t) && t.status == 8 && t.control / 0x1_0000 % 4 == dataStage
  }

  predicate ReadsData(t: Trb, length: nat) {
    StageOf(t) == DataStage && ToHost(t) && !Immediate(t) && !Interrupts(t) && t.status == length
  }

  /** The Status Stage goes against the data and raises the one event of the transfer. */
  predicate Closes(t: Trb, toHost: bool) {
    StageOf(t) == StatusStage && Interrupts(t) && ToHost(t) == toHost
  }

  ghost predicate StartsIncoming(ts: seq<Trb>) {
    && |ts| >= 3 && Announces(ts[0], 3) && ReadsData(ts[1], Decode(ts[0].parameter).length) && Closes(ts[2], false)
    && Decode(ts[0].parameter).length > 0 && Decode(ts[0].parameter).requestType >= 0x80
  }

  ghost predicate StartsNoData(ts: seq<Trb>) {
    |ts| >= 2 && Announces(ts[0], 0) && Closes(ts[1], true) && Decode(ts[0].parameter).length == 0
  }

  ghost function Before(c: Control, rest: Option<seq<Control>>): Option<seq<Control>> {
    if rest.None? then None else Some([c] + rest.value)
  }

  /** The control transfers a sequence of TRBs is made of, or None if it is anything else. */
  ghost function Parse(ts: seq<Trb>): Option<seq<Control>> {
    if ts == [] then Some([])
    else if StartsIncoming(ts) then Before(Incoming(Decode(ts[0].parameter), ts[1].parameter), Parse(ts[3..]))
    else if StartsNoData(ts) then Before(NoData(Decode(ts[0].parameter)), Parse(ts[2..]))
    else None
  }

  /** The five fields read back as they were put in. */
  lemma DecodeUndoesPack(requestType: nat, request: nat, value: nat, index: nat, length: nat)
    requires requestType < 0x100 && request < 0x100 && value < 0x1_0000 && index < 0x1_0000 && length < 0x1_0000
    ensures Decode(SetupPacket(requestType, request, value, index, length)) == Request(requestType, request, value, index, length)
  {
    var p := SetupPacket(requestType, request, value, index, length);
    var a := request + 0x100 * value + 0x100_0000 * index + 0x100_0000_0000 * length;
    var b := value + 0x1_0000 * index + 0x1_0000_0000 * length;
    var c := index + 0x1_0000 * length;
    assert p == requestType + 0x100 * a && p / 0x100 == a;
    assert a == request + 0x100 * b && p / 0x1_0000 == b;
    assert b == value + 0x1_0000 * c && p / 0x1_0000_0000 == c;
    assert p / 0x1_0000_0000_0000 == length;
  }

  lemma ParseIncoming(setup: nat, buffer: nat, rest: seq<Trb>)
    requires Decode(setup).length > 0 && Decode(setup).requestType >= 0x80
    ensures Parse(TransferIn(setup, buffer, Decode(setup).length) + rest) == Before(Incoming(Decode(setup), buffer), Parse(rest))
  {
    var ts := TransferIn(setup, buffer, Decode(setup).length) + rest;
    assert ts[0] == Trb(setup, 8, 2 * 1024 + 0x40 + 0x3_0000);
    assert StartsIncoming(ts) && ts[3..] == rest;
  }

  lemma ParseNoData(setup: nat, rest: seq<Trb>)
    requires Decode(setup).length == 0
    ensures Parse(TransferNoData(setup) + rest) == Before(NoData(Decode(setup)), Parse(rest))
  {
    var ts := TransferNoData(setup) + rest;
    assert ts[0] == Trb(setup, 8, 2 * 1024 + 0x40);
    assert StartsNoData(ts) && !StartsIncoming(ts) && ts[2..] == rest;
  }

  /** How many TRBs a sequence of control transfers takes. */
  ghost function TrbCount(cs: seq<Control>): nat {
    if cs == [] then 0 else (if cs[0].Incoming? then 3 else 2) + TrbCount(cs[1..])
  }

  lemma {:induction false} ParseCounts(ts: seq<Trb>)
    ensures Parse(ts).Some? ==> |ts| == TrbCount(Parse(ts).value)
  {
    if ts != [] && StartsIncoming(ts) {
      ParseCounts(ts[3..]);
    } else if ts != [] && StartsNoData(ts) {
      ParseCounts(ts[2..]);
    }
  }

  /** The cycle bit makes no difference to what is asked for. */
  lemma SameBits(a: Trb, b: Trb)
    requires SameRequest(a, b)
    ensures StageOf(a) == StageOf(b) && Interrupts(a) == Interrupts(b) && Immediate(a) == Immediate(b) && ToHost(a) == ToHost(b)
    ensures a.control / 0x1_0000 % 4 == b.control / 0x1_0000 % 4
  {
    HalfFirst(a.control);
    HalfFirst(b.control);
  }

  lemma HalfFirst(c: nat)
    ensures c / 1024 == c / 2 / 512 && c / 0x20 == c / 2 / 0x10 && c / 0x40 == c / 2 / 0x20 && c / 0x1_0000 == c / 2 / 0x8000
  {
  }

  lemma {:induction false} ParseSame(a: seq<Trb>, b: seq<Trb>)
    requires |a| == |b| && forall i | 0 <= i < |a| :: SameRequest(a[i], b[i])
    ensures Parse(a) == Parse(b)
  {
    if a != [] {
      SameStarts(a, b);
      if StartsIncoming(a) {
        ParseSame(a[3..], b[3..]);
      } else if StartsNoData(a) {
        ParseSame(a[2..], b[2..]);
      }
    }
  }

  lemma SameStarts(a: seq<Trb>, b: seq<Trb>)
    requires |a| == |b| && forall i | 0 <= i < |a| :: SameRequest(a[i], b[i])
    ensures StartsIncoming(a) == StartsIncoming(b) && StartsNoData(a) == StartsNoData(b)
  {
    if |a| >= 2 {
      SameBits(a[0], b[0]);
      SameBits(a[1], b[1]);
      if |a| >= 3 {
        SameBits(a[2], b[2]);
      }
    }
  }

  class DriverRing {
    const trbs: array<Trb>
    var enqueueIndex: nat
    var cycleState: bool
    /** Everything enqueued so far, before the cycle bit was added. */
    ghost var requests: seq<Trb>

    /** The ring is as the sends of the requests leave it. */
    ghost predicate Valid()
      reads this, trbs
    {
      trbs.Length >= 2 &&
      var s := SendAll(Initial(trbs.Length), requests);
      s == s.(ring := trbs[..], enqueue := enqueueIndex, producerCycle := cycleState)
    }

    ghost function Seen(dequeue: nat, sent: seq<Trb>, fetched: seq<Trb>): State
      reads this, trbs
    {
      State(trbs[..], enqueueIndex, cycleState, dequeue, sent, fetched)
    }

    constructor (size: nat)
      requires size >= 2
      ensures Valid() && fresh(trbs) && Seen(0, [], []) == Initial(size) && trbs.Length == size && requests == []
    {
      requests := [];
      trbs := new Trb[size](i => EMPTY);
      enqueueIndex, cycleState := 0, true;
    }

    /** `ep0_enqueue_trb` */
    method Enqueue(parameter: nat, status: nat, controlNoCycle: nat)
      requires Valid() && controlNoCycle % 2 == 0
      modifies this, trbs
      ensures Valid() && requests == old(requests) + [Trb(parameter, status, controlNoCycle)]
      ensures forall dequeue, sent, fetched | 0 <= dequeue < trbs.Length ::
                Seen(dequeue, sent + [WithCycle(Trb(parameter, status, controlNoCycle), old(cycleState))], fetched)
                == DriverSend(old(Seen(dequeue, sent, fetched)), Trb(parameter, status, controlNoCycle))
    {
      ghost var ring, index, cycle := trbs[..], enqueueIndex, cycleState;
      SendAllPush(Initial(trbs.Length), requests, Trb(parameter, status, controlNoCycle));
      requests := requests + [Trb(parameter, status, controlNoCycle)];
      trbs[enqueueIndex] := Trb(parameter, status, controlNoCycle + Bit(cycleState));
      enqueueIndex := enqueueIndex + 1;
      if enqueueIndex >= trbs.Length - 1 {
        enqueueIndex := 0;
        cycleState := !cycleState;
      }
      assert trbs[..] == ring[index := WithCycle(Trb(parameter, status, controlNoCycle), cycle)];
    }

    /** `send_command` */
    method SendCommand(parameter: nat, status: nat, trbType: nat, slotId: nat)
      requires Valid()
      modifies this, trbs
      ensures Valid() && requests == old(requests) + [Trb(parameter, status, 0x400 * trbType + 0x100_0000 * slotId)]
      ensures forall dequeue, sent, fetched | 0 <= dequeue < trbs.Length ::
                var t := Trb(parameter, status, 0x400 * trbType + 0x100_0000 * slotId);
                Seen(dequeue, sent + [WithCycle(t, old(cycleState))], fetched) == DriverSend(old(Seen(dequeue, sent, fetched)), t)
    {
      Enqueue(parameter, status, 0x400 * trbType + 0x100_0000 * slotId);
    }
  }

  /** Between two calls the ring in memory is that of any run with the same sends, wherever the controller is. */
  lemma RingOfRun(ring: DriverRing, run: seq<Action>, paced: bool)
    requires ring.Valid() && Sends(run) == ring.requests && Execute(Initial(ring.trbs.Length), run, paced).Some?
    ensures var s := Execute(Initial(ring.trbs.Length), run, paced).value;
            ring.Seen(s.dequeue, s.sent, s.fetched) == s
  {
    var start := Initial(ring.trbs.Length);
    RunSends(start, start, run, paced);
  }
}
