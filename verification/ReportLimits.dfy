/**
 What the orderly conditions of module ReportLoop exclude: each of them is necessary, in every state
 in which the step it guards can be taken.
 */
module ReportLimits {
  import opened Wrappers
  import opened ReportLoop

  /** Every orderly continuation is good. */
  ghost predicate SafeFrom(t: State) {
    forall run | Execute(t, run, ORDERLY).Some? :: Good(Execute(t, run, ORDERLY).value)
  }

  /** A continuation that ends badly. */
  ghost predicate Breaks(t: State, run: seq<Action>) {
    Execute(t, run, ORDERLY).Some? && !Good(Execute(t, run, ORDERLY).value)
  }

  /** Every run under these rules is good. */
  ghost predicate Safe(rules: Rules) {
    forall run | Execute(Initial(), run, rules).Some? :: Good(Execute(Initial(), run, rules).value)
  }

  lemma {:induction false} ExecuteAppend(s: State, a: seq<Action>, b: seq<Action>, rules: Rules)
    requires Execute(s, a, rules).Some?
    ensures Execute(s, a + b, rules) == Execute(Execute(s, a, rules).value, b, rules)
    decreases |a|
  {
    if a == [] {
      assert a + b == b;
    } else {
      assert (a + b)[1..] == a[1..] + b;
      ExecuteAppend(Next(s, a[0], rules).value, a[1..], b, rules);
    }
  }

  lemma ExecuteFirst(s: State, a: Action, rest: seq<Action>, rules: Rules)
    requires Next(s, a, rules).Some?
    ensures Execute(s, [a] + rest, rules) == Execute(Next(s, a, rules).value, rest, rules)
  {
    assert ([a] + rest)[1..] == rest;
  }

  lemma BreaksBefore(s: State, a: Action, rest: seq<Action>)
    requires Next(s, a, ORDERLY).Some? && Breaks(Next(s, a, ORDERLY).value, rest)
    ensures Breaks(s, [a] + rest)
  {
    ExecuteFirst(s, a, rest, ORDERLY);
  }

  lemma {:induction false} LooserRules(s: State, run: seq<Action>, rules: Rules)
    requires Execute(s, run, ORDERLY).Some?
    ensures Execute(s, run, rules) == Execute(s, run, ORDERLY)
    decreases |run|
  {
    if run != [] {
      assert Next(s, run[0], rules) == Next(s, run[0], ORDERLY);
      LooserRules(Next(s, run[0], ORDERLY).value, run[1..], rules);
    }
  }

  ghost function Interrupts(n: nat): seq<Action> {
    if n == 0 then [] else [Interrupt] + Interrupts(n - 1)
  }

  ghost predicate Unowned(s: State, e: Event) {
    e.TransferDone? && !Owned(s, e.ep)
  }

  /** The flag that event i of u sets is set in v. */
  ghost predicate FlagSet(u: State, v: State, i: nat) {
    i < |u.queue| && (u.queue[i].CommandDone? ==> v.command.pending) && (Unowned(u, u.queue[i]) ==> v.transfer.pending)
  }

  /** What n interrupts do to the first n events: ownership stays, and flags once set stay set. */
  ghost predicate Drained(u: State, v: State, n: nat)
    requires n <= |u.queue|
  {
    && v.queue == u.queue[n..] && v.main == u.main && v.answers == u.answers && v.returned == u.returned
    && v.keyboard.dci == u.keyboard.dci && v.keyboard.slot == u.keyboard.slot
    && v.mouse.dci == u.mouse.dci && v.mouse.slot == u.mouse.slot
    && (u.command.pending ==> v.command.pending) && (u.transfer.pending ==> v.transfer.pending)
    && forall i: nat | i < n :: FlagSet(u, v, i)
  }

  lemma DrainOne(u: State) returns (t: State)
    requires u.queue != []
    ensures t == HandleInterrupt(u) && Drained(u, t, 1)
  {
    t := HandleInterrupt(u);
    var routed := Route(u.(queue := u.queue[1..]), u.queue[0]);
    RouteKeeps(u.(queue := u.queue[1..]), u.queue[0]);
    PollKeeps(routed.keyboard, routed.live);
    PollKeeps(routed.mouse, PollDriver(routed.keyboard, routed.live).1);
  }

  lemma RouteKeeps(s: State, e: Event)
    ensures var t := Route(s, e);
            && t.queue == s.queue && t.main == s.main && t.answers == s.answers && t.returned == s.returned
            && t.keyboard.dci == s.keyboard.dci && t.keyboard.slot == s.keyboard.slot
            && t.mouse.dci == s.mouse.dci && t.mouse.slot == s.mouse.slot
            && (s.command.pending || e.CommandDone? ==> t.command.pending)
            && (s.transfer.pending || Unowned(s, e) ==> t.transfer.pending)
  {
  }

  lemma PollKeeps(d: Driver, live: map<Endpoint, nat>)
    ensures PollDriver(d, live).0.dci == d.dci && PollDriver(d, live).0.slot == d.slot
  {
  }

  lemma DrainJoin(u: State, v: State, w: State, n: nat)
    requires 1 <= n <= |u.queue| && Drained(u, v, 1) && |v.queue| >= n - 1 && Drained(v, w, n - 1)
    ensures Drained(u, w, n)
  {
    forall i: nat | i < n
      ensures FlagSet(u, w, i)
    {
      if i == 0 {
        assert FlagSet(u, v, 0);
      } else {
        assert FlagSet(v, w, i - 1) && v.queue[i - 1] == u.queue[i];
      }
    }
  }

  ghost function After(u: State, n: nat): State
    decreases n
  {
    if n == 0 then u else After(HandleInterrupt(u), n - 1)
  }

  lemma {:induction false} AfterRuns(u: State, n: nat)
    ensures Execute(u, Interrupts(n), ORDERLY) == Some(After(u, n))
    decreases n
  {
    if n > 0 {
      ExecuteFirst(u, Interrupt, Interrupts(n - 1), ORDERLY);
      AfterRuns(HandleInterrupt(u), n - 1);
    }
  }

  lemma {:induction false} AfterDrains(u: State, n: nat)
    requires n <= |u.queue|
    ensures Drained(u, After(u, n), n)
    decreases n
  {
    if n > 0 {
      var t := DrainOne(u);
      AfterDrains(t, n - 1);
      DrainJoin(u, t, After(t, n - 1), n);
    }
  }

  lemma Drain(u: State, n: nat) returns (v: State)
    requires n <= |u.queue|
    ensures Execute(u, Interrupts(n), ORDERLY) == Some(v) && Drained(u, v, n)
  {
    AfterRuns(u, n);
    AfterDrains(u, n);
    v := After(u, n);
  }

  lemma {:induction false} Bound(s: set<nat>) returns (b: nat)
    ensures forall x | x in s :: x < b
    decreases |s|
  {
    b := 0;
    if s != {} {
      var x :| x in s;
      var rest := Bound(s - {x});
      b := if x < rest then rest else x + 1;
      assert forall y | y in s :: y == x || y in s - {x};
    }
  }

  /** In an idle state a queued event that nobody owns can be taken for the answer of the next control transfer. */
  lemma UnownedBreaks(u: State, k: nat) returns (run: seq<Action>)
    requires u.main.Idle? && k < |u.queue| && Unowned(u, u.queue[k])
    ensures Breaks(u, run)
  {
    var id := Bound(u.answers.Keys);
    id := id + 1;
    assert id !in u.answers.Keys;
    var a := Next(u, StartTransfer(id, 0), ORDERLY).value;
    assert Unowned(a, a.queue[k]);
    var v := Drain(a, k + 1);
    assert FlagSet(a, v, k);
    var w := Next(v, Finish, ORDERLY).value;
    assert w.returned == v.returned + [Returned(id, v.transfer.code)];
    assert w.returned[|v.returned|] in w.returned;
    assert Execute(w, [], ORDERLY) == Some(w);
    ExecuteFirst(v, Finish, [], ORDERLY);
    ExecuteAppend(a, Interrupts(k + 1), [Finish] + [], ORDERLY);
    run := [StartTransfer(id, 0)] + (Interrupts(k + 1) + ([Finish] + []));
    BreaksBefore(u, StartTransfer(id, 0), Interrupts(k + 1) + ([Finish] + []));
  }

  lemma {:induction false} QueuedSome(q: seq<Event>, ep: Endpoint) returns (k: nat)
    requires Queued(q, ep) > 0
    ensures k < |q| && q[k].TransferDone? && q[k].ep == ep
  {
    k := |q| - 1;
    if !(q[k].TransferDone? && q[k].ep == ep) {
      k := QueuedSome(q[..|q| - 1], ep);
    }
  }

  /** A TRB at the controller whose endpoint nobody owns, or an event of such an endpoint. */
  lemma OrphanBreaks(t: State, ep: Endpoint) returns (run: seq<Action>)
    requires t.main.Idle? && !Owned(t, ep) && Outstanding(t.live, ep) + Queued(t.queue, ep) > 0
    ensures Breaks(t, run)
  {
    if Outstanding(t.live, ep) > 0 {
      var u := Next(t, CompleteReport(ep, 1), ORDERLY).value;
      assert u.queue[|t.queue|] == TransferDone(ep, 0, 1);
      assert Unowned(u, u.queue[|t.queue|]);
      var rest := UnownedBreaks(u, |t.queue|);
      BreaksBefore(t, CompleteReport(ep, 1), rest);
      run := [CompleteReport(ep, 1)] + rest;
    } else {
      var k := QueuedSome(t.queue, ep);
      run := UnownedBreaks(t, k);
    }
  }

  /** A driver whose endpoint has more than one TRB in flight is out of step already. */
  lemma OutOfStep(t: State, ep: Endpoint)
    requires Outstanding(t.live, ep) + Queued(t.queue, ep) != 1
    requires (t.keyboard.state.Some? && t.keyboard.state.value.ep == ep) || (t.mouse.state.Some? && t.mouse.state.value.ep == ep)
    ensures Breaks(t, [])
  {
    assert Execute(t, [], ORDERLY) == Some(t);
  }

  /** A driver on EP0 gets the events of control transfers. */
  lemma ControlBreaks(t: State, ep: Endpoint) returns (run: seq<Action>)
    requires t.main.Idle? && ep.dci == 1 && Outstanding(t.live, ep) > 0
    requires (t.keyboard.state.Some? && t.keyboard.state.value.ep == ep) || (t.mouse.state.Some? && t.mouse.state.value.ep == ep)
    ensures Breaks(t, run)
  {
    var id := Bound(t.answers.Keys);
    id := id + 1;
    assert id !in t.answers.Keys;
    var u := Next(t, StartTransfer(id, ep.slot), ORDERLY).value;
    var v := Next(u, CompleteTransfer(1), ORDERLY).value;
    assert v.queue == u.queue + [TransferDone(ep, id, 1)];
    QueuedPush(u.queue, TransferDone(ep, id, 1), ep);
    OutOfStep(v, ep);
    BreaksBefore(u, CompleteTransfer(1), []);
    BreaksBefore(t, StartTransfer(id, ep.slot), [CompleteTransfer(1)] + []);
    run := [StartTransfer(id, ep.slot)] + ([CompleteTransfer(1)] + []);
  }

  /** In flight before the attachment, and after it. */
  lemma AttachCount(s: State, ep: Endpoint)
    requires Inv(s) && s.main.Idle?
    ensures ep.dci <= 1 ==> Outstanding(s.live, ep) == 0
    ensures s.keyboard.state.Some? ==> !Matches(s.mouse, s.keyboard.state.value.ep)
    ensures s.mouse.state.Some? ==> !Matches(s.keyboard, s.mouse.state.value.ep)
    ensures Matches(s.keyboard, ep) ==> s.keyboard.state.Some? && s.keyboard.state.value.ep == ep
    ensures Matches(s.mouse, ep) ==> s.mouse.state.Some? && s.mouse.state.value.ep == ep
    ensures s.keyboard != OFF ==> s.keyboard.state.Some?
    ensures s.mouse != OFF ==> s.mouse.state.Some?
  {
  }

  lemma KeyboardBreaks(s: State, ep: Endpoint) returns (run: seq<Action>)
    requires Inv(s) && s.main.Idle? && !KeyboardFits(s, ep, ORDERLY)
    ensures Breaks(KeyboardAttached(s, ep), run)
  {
    var t := KeyboardAttached(s, ep);
    AttachCount(s, ep);
    if s.keyboard != OFF && s.keyboard.state.value.ep != ep {
      run := OrphanBreaks(t, s.keyboard.state.value.ep);
    } else if s.keyboard != OFF || Matches(s.mouse, ep) {
      OutOfStep(t, ep);
      run := [];
    } else if ep.dci == 1 {
      run := ControlBreaks(t, ep);
    } else {
      run := OrphanBreaks(t, ep);
    }
  }

  lemma MouseBreaks(s: State, ep: Endpoint) returns (run: seq<Action>)
    requires Inv(s) && s.main.Idle? && !MouseFits(s, ep, ORDERLY)
    ensures Breaks(MouseAttached(s, ep), run)
  {
    var t := MouseAttached(s, ep);
    AttachCount(s, ep);
    if s.mouse != OFF && s.mouse.state.value.ep != ep {
      run := OrphanBreaks(t, s.mouse.state.value.ep);
    } else if s.mouse != OFF || Matches(s.keyboard, ep) {
      OutOfStep(t, ep);
      run := [];
    } else if ep.dci == 1 {
      run := ControlBreaks(t, ep);
    } else {
      run := OrphanBreaks(t, ep);
    }
  }

  lemma InvSafe(t: State)
    requires Inv(t)
    ensures SafeFrom(t)
  {
    forall run | Execute(t, run, ORDERLY).Some?
      ensures Good(Execute(t, run, ORDERLY).value)
    {
      RunInv(t, run);
    }
  }

  /** Attaching a keyboard in any reachable idle state is safe if and only if no keyboard is attached and the endpoint is neither EP0 nor the mouse's. */
  lemma AttachKeyboardExact(s: State, ep: Endpoint)
    requires Inv(s) && s.main.Idle?
    ensures SafeFrom(KeyboardAttached(s, ep)) <==> s.keyboard == OFF && ep.dci > 1 && !Matches(s.mouse, ep)
  {
    if KeyboardFits(s, ep, ORDERLY) {
      AttachInv(s, AttachKeyboard(ep));
      InvSafe(KeyboardAttached(s, ep));
    } else {
      var run := KeyboardBreaks(s, ep);
    }
  }

  lemma AttachMouseExact(s: State, ep: Endpoint)
    requires Inv(s) && s.main.Idle?
    ensures SafeFrom(MouseAttached(s, ep)) <==> s.mouse == OFF && ep.dci > 1 && !Matches(s.keyboard, ep)
  {
    if MouseFits(s, ep, ORDERLY) {
      AttachInv(s, AttachMouse(ep));
      InvSafe(MouseAttached(s, ep));
    } else {
      var run := MouseBreaks(s, ep);
    }
  }

  lemma DisableBreaks(s: State, code: nat) returns (run: seq<Action>)
    requires Inv(s) && s.commandAtController.Some? && s.main.WaitCommand? && !DisableFits(s, code, ORDERLY)
    ensures Breaks(CommandCompleted(s, code), run)
  {
    var t := CommandCompleted(s, code);
    var ep :| ep in s.live && ep.slot == s.main.drains.value && s.live[ep] > 0;
    assert !Owned(t, ep) && t.live == s.live;
    run := CommandThenOrphan(t, ep);
  }

  /** The command is answered before the orphaned report is looked at, so the report meets the next wait. */
  lemma CommandThenOrphan(t: State, ep: Endpoint) returns (run: seq<Action>)
    requires t.main.WaitCommand? && t.queue != [] && t.queue[|t.queue| - 1].CommandDone?
    requires !Owned(t, ep) && Outstanding(t.live, ep) > 0
    ensures Breaks(t, run)
  {
    var n := |t.queue|;
    var u := ReportAfter(t, ep);
    var v := Drain(u, n);
    assert FlagSet(u, v, n - 1);
    assert v.queue == [TransferDone(ep, 0, 1)];
    var x := Finished(v);
    var rest := UnownedBreaks(x, 0);
    BreaksBefore(v, Finish, rest);
    ExecuteAppend(u, Interrupts(n), [Finish] + rest, ORDERLY);
    BreaksBefore(t, CompleteReport(ep, 1), Interrupts(n) + ([Finish] + rest));
    run := [CompleteReport(ep, 1)] + (Interrupts(n) + ([Finish] + rest));
  }

  lemma ReportAfter(t: State, ep: Endpoint) returns (u: State)
    requires t.main.WaitCommand? && t.queue != [] && t.queue[|t.queue| - 1].CommandDone?
    requires !Owned(t, ep) && Outstanding(t.live, ep) > 0
    ensures Next(t, CompleteReport(ep, 1), ORDERLY) == Some(u)
    ensures u.queue == t.queue + [TransferDone(ep, 0, 1)] && u.queue[|t.queue| - 1].CommandDone? && u.main == t.main && !Owned(u, ep)
  {
    u := Next(t, CompleteReport(ep, 1), ORDERLY).value;
  }

  lemma Finished(v: State) returns (x: State)
    requires v.main.WaitCommand? && v.command.pending
    ensures Next(v, Finish, ORDERLY) == Some(x)
    ensures x.main.Idle? && x.queue == v.queue && x.keyboard == v.keyboard && x.mouse == v.mouse
  {
    x := Next(v, Finish, ORDERLY).value;
  }

  /** Completing a command in any reachable state is safe, unless it is a failed Disable Slot of a slot with TRBs at the controller. */
  lemma CompleteCommandExact(s: State, code: nat)
    requires Inv(s) && s.commandAtController.Some? && s.main.WaitCommand?
    ensures SafeFrom(CommandCompleted(s, code)) <==>
              s.main.drains.None? || code == 1 || forall ep | ep in s.live && ep.slot == s.main.drains.value :: s.live[ep] == 0
  {
    if DisableFits(s, code, ORDERLY) {
      CompleteCommandInv(s, code);
      InvSafe(CommandCompleted(s, code));
    } else {
      var run := DisableBreaks(s, code);
    }
  }

  lemma InitialInv()
    ensures Inv(Initial())
  {
  }

  /** An orderly run, then one step that only these rules allow, then an orderly run that ends badly. */
  lemma UnsafeRules(rules: Rules, before: seq<Action>, s: State, a: Action, t: State, after: seq<Action>)
    requires Execute(Initial(), before, ORDERLY) == Some(s) && Next(s, a, rules) == Some(t) && Breaks(t, after)
    ensures !Safe(rules)
  {
    LooserRules(Initial(), before, rules);
    LooserRules(t, after, rules);
    ExecuteFirst(s, a, after, rules);
    ExecuteAppend(Initial(), before, [a] + after, rules);
    assert !Good(Execute(Initial(), before + ([a] + after), rules).value);
  }

  lemma OneStep(a: Action)
    requires Next(Initial(), a, ORDERLY).Some?
    ensures Execute(Initial(), [a], ORDERLY) == Next(Initial(), a, ORDERLY) && Inv(Next(Initial(), a, ORDERLY).value)
  {
    InitialInv();
    ExecuteFirst(Initial(), a, [], ORDERLY);
    assert [a] + [] == [a];
    NextInv(Initial(), a);
  }

  const KEYBOARD := Endpoint(1, 3)
  const OTHER := Endpoint(2, 3)

  lemma WithKeyboard() returns (s: State)
    ensures Execute(Initial(), [AttachKeyboard(KEYBOARD)], ORDERLY) == Some(s) && Inv(s) && s.main.Idle?
    ensures s.keyboard != OFF && Matches(s.keyboard, KEYBOARD) && s.mouse == OFF
  {
    OneStep(AttachKeyboard(KEYBOARD));
    s := KeyboardAttached(Initial(), KEYBOARD);
  }

  lemma WithMouse() returns (s: State)
    ensures Execute(Initial(), [AttachMouse(KEYBOARD)], ORDERLY) == Some(s) && Inv(s) && s.main.Idle?
    ensures s.mouse != OFF && s.keyboard == OFF
  {
    OneStep(AttachMouse(KEYBOARD));
    s := MouseAttached(Initial(), KEYBOARD);
  }

  lemma KeyboardThenBad() returns (s: State, second: seq<Action>, shared: seq<Action>)
    ensures Execute(Initial(), [AttachKeyboard(KEYBOARD)], ORDERLY) == Some(s) && s.main.Idle? && s.mouse == OFF
    ensures Breaks(KeyboardAttached(s, OTHER), second) && Breaks(MouseAttached(s, KEYBOARD), shared)
  {
    s := WithKeyboard();
    second := KeyboardBreaks(s, OTHER);
    shared := MouseBreaks(s, KEYBOARD);
  }

  lemma MouseThenBad() returns (s: State, run: seq<Action>)
    ensures Execute(Initial(), [AttachMouse(KEYBOARD)], ORDERLY) == Some(s) && s.main.Idle? && s.keyboard == OFF
    ensures Breaks(MouseAttached(s, OTHER), run)
  {
    s := WithMouse();
    run := MouseBreaks(s, OTHER);
  }

  lemma KeyboardRuleUnsafe(rules: Rules)
    requires rules.secondKeyboard
    ensures !Safe(rules)
  {
    var s, run, _ := KeyboardThenBad();
    assert Next(s, AttachKeyboard(OTHER), rules) == Some(KeyboardAttached(s, OTHER));
    UnsafeRules(rules, [AttachKeyboard(KEYBOARD)], s, AttachKeyboard(OTHER), KeyboardAttached(s, OTHER), run);
  }

  lemma MouseRuleUnsafe(rules: Rules)
    requires rules.secondMouse
    ensures !Safe(rules)
  {
    var s, run := MouseThenBad();
    assert Next(s, AttachMouse(OTHER), rules) == Some(MouseAttached(s, OTHER));
    UnsafeRules(rules, [AttachMouse(KEYBOARD)], s, AttachMouse(OTHER), MouseAttached(s, OTHER), run);
  }

  lemma SharedRuleUnsafe(rules: Rules)
    requires rules.sharedEndpoint
    ensures !Safe(rules)
  {
    var s, _, run := KeyboardThenBad();
    assert Next(s, AttachMouse(KEYBOARD), rules) == Some(MouseAttached(s, KEYBOARD));
    UnsafeRules(rules, [AttachKeyboard(KEYBOARD)], s, AttachMouse(KEYBOARD), MouseAttached(s, KEYBOARD), run);
  }

  lemma ControlRuleUnsafe(rules: Rules)
    requires rules.controlEndpoint
    ensures !Safe(rules)
  {
    InitialInv();
    var run := KeyboardBreaks(Initial(), Endpoint(1, 1));
    UnsafeRules(rules, [], Initial(), AttachKeyboard(Endpoint(1, 1)), KeyboardAttached(Initial(), Endpoint(1, 1)), run);
  }

  lemma DisableRuleUnsafe(rules: Rules)
    requires rules.failedDisable
    ensures !Safe(rules)
  {
    var before, t := DisableStarted();
    var run := DisableBreaks(t, 11);
    UnsafeRules(rules, before, t, CompleteCommand(11), CommandCompleted(t, 11), run);
  }

  lemma DisableStarted() returns (before: seq<Action>, t: State)
    ensures Execute(Initial(), before, ORDERLY) == Some(t) && Inv(t)
    ensures t.commandAtController.Some? && t.main == WaitCommand(5, Some(1)) && KEYBOARD in t.live && t.live[KEYBOARD] == 1
  {
    OneStep(AttachMouse(KEYBOARD));
    var s := Next(Initial(), AttachMouse(KEYBOARD), ORDERLY).value;
    t := Next(s, StartShutdown(5, 1), ORDERLY).value;
    ShutdownInv(s, 5, 1);
    ExecuteFirst(s, StartShutdown(5, 1), [], ORDERLY);
    ExecuteAppend(Initial(), [AttachMouse(KEYBOARD)], [StartShutdown(5, 1)] + [], ORDERLY);
    before := [AttachMouse(KEYBOARD)] + ([StartShutdown(5, 1)] + []);
  }

  /** Over all runs, the drivers work if and only if none of the orderly conditions is relaxed. */
  lemma SafeExact(rules: Rules)
    ensures Safe(rules) <==> rules == ORDERLY
  {
    if rules == ORDERLY {
      InitialInv();
      InvSafe(Initial());
    } else if rules.secondKeyboard {
      KeyboardRuleUnsafe(rules);
    } else if rules.secondMouse {
      MouseRuleUnsafe(rules);
    } else if rules.sharedEndpoint {
      SharedRuleUnsafe(rules);
    } else if rules.controlEndpoint {
      ControlRuleUnsafe(rules);
    } else {
      DisableRuleUnsafe(rules);
    }
  }

  // The two cases the kernel meets, as concrete runs.

  /** A second keyboard: the first one's report answers a control transfer the controller has not even completed. */
  function SecondKeyboardRun(): seq<Action> {
    [AttachKeyboard(Endpoint(1, 3)), AttachKeyboard(Endpoint(2, 3)), StartTransfer(7, 2), CompleteReport(Endpoint(1, 3), 1), Interrupt, Finish]
  }

  lemma SecondKeyboardBreaks()
    ensures var rules := ORDERLY.(secondKeyboard := true);
            && Execute(Initial(), SecondKeyboardRun(), rules).Some?
            && var s := Execute(Initial(), SecondKeyboardRun(), rules).value;
               s.returned == [Returned(7, 1)] && 7 !in s.answers && s.transferAtController.Some?
  {
    var rules := ORDERLY.(secondKeyboard := true);
    var b, c, d := SecondKeyboardStart(rules);
    var e, f, g := SecondKeyboardEnd(d, rules);
    RunSix(Initial(), b, c, d, e, f, g, SecondKeyboardRun(), rules);
  }

  lemma SecondKeyboardStart(rules: Rules) returns (b: State, c: State, d: State)
    requires rules.secondKeyboard
    ensures Next(Initial(), AttachKeyboard(Endpoint(1, 3)), rules) == Some(b) && Next(b, AttachKeyboard(Endpoint(2, 3)), rules) == Some(c)
    ensures Next(c, StartTransfer(7, 2), rules) == Some(d)
    ensures d == Initial().(keyboard := Attach(OFF, Endpoint(2, 3)), main := WaitTransfer(7), transferAtController := Some(Endpoint(2, 1)),
                            live := map[Endpoint(1, 3) := 1, Endpoint(2, 3) := 1])
  {
    b := KeyboardAttached(Initial(), Endpoint(1, 3));
    c := KeyboardAttached(b, Endpoint(2, 3));
    d := c.(main := WaitTransfer(7), transferAtController := Some(Endpoint(2, 1)));
    assert Next(c, StartTransfer(7, 2), rules) == Some(d);
  }

  lemma SecondKeyboardEnd(d: State, rules: Rules) returns (e: State, f: State, g: State)
    requires d == Initial().(keyboard := Attach(OFF, Endpoint(2, 3)), main := WaitTransfer(7), transferAtController := Some(Endpoint(2, 1)),
                             live := map[Endpoint(1, 3) := 1, Endpoint(2, 3) := 1])
    ensures Next(d, CompleteReport(Endpoint(1, 3), 1), rules) == Some(e) && Next(e, Interrupt, rules) == Some(f) && Next(f, Finish, rules) == Some(g)
    ensures g.returned == [Returned(7, 1)] && 7 !in g.answers && g.transferAtController.Some?
  {
    e := d.(live := d.live[Endpoint(1, 3) := 0], queue := [TransferDone(Endpoint(1, 3), 0, 1)]);
    assert d.queue + [TransferDone(Endpoint(1, 3), 0, 1)] == e.queue;
    assert Next(d, CompleteReport(Endpoint(1, 3), 1), rules) == Some(e);
    f := e.(queue := [], transfer := Flag(true, 1, 0));
    assert e.queue[1..] == [];
    assert HandleInterrupt(e) == f;
    g := Next(f, Finish, rules).value;
  }

  /** A Disable Slot that fails: the endpoint stays armed, and its report answers a control transfer of another device. */
  function FailedDisableRun(): seq<Action> {
    [AttachMouse(KEYBOARD), StartShutdown(5, 1), CompleteCommand(11), Interrupt, Finish, StartTransfer(7, 2)]
  }

  function OrphanRun(): seq<Action> {
    [CompleteReport(KEYBOARD, 1), Interrupt, Finish]
  }

  /** The states of the run from the failed completion to the start of the transfer. */
  lemma FailedDisableMiddle(d: State, rules: Rules) returns (e: State, f: State, g: State)
    requires d == Initial().(queue := [CommandDone(5, 11)], main := WaitCommand(5, Some(1)),
                             live := map[KEYBOARD := 1], answers := map[5 := 11])
    ensures Next(d, Interrupt, rules) == Some(e) && Next(e, Finish, rules) == Some(f) && Next(f, StartTransfer(7, 2), rules) == Some(g)
    ensures g == Initial().(command := Flag(true, 11, 5), main := WaitTransfer(7), transferAtController := Some(Endpoint(2, 1)),
                            live := map[KEYBOARD := 1], answers := map[5 := 11], returned := [Returned(5, 11)])
  {
    e := d.(queue := [], command := Flag(true, 11, 5));
    assert d.queue[1..] == [];
    assert HandleInterrupt(d) == e;
    f := e.(main := Idle, returned := [Returned(5, 11)]);
    assert e.returned + [Returned(5, 11)] == f.returned;
    assert Next(e, Finish, rules) == Some(f);
    g := f.(main := WaitTransfer(7), transferAtController := Some(Endpoint(2, 1)));
    assert Next(f, StartTransfer(7, 2), rules) == Some(g);
  }

  /** After the failed command the mouse is shut down and its endpoint still armed. */
  lemma FailedDisableStart(rules: Rules) returns (b: State, c: State, d: State)
    requires rules.failedDisable
    ensures Next(Initial(), AttachMouse(KEYBOARD), rules) == Some(b) && Next(b, StartShutdown(5, 1), rules) == Some(c)
    ensures Next(c, CompleteCommand(11), rules) == Some(d)
    ensures d == Initial().(queue := [CommandDone(5, 11)], main := WaitCommand(5, Some(1)),
                            live := map[KEYBOARD := 1], answers := map[5 := 11])
  {
    b := Initial().(mouse := Attach(OFF, KEYBOARD), live := map[KEYBOARD := 1]);
    assert MouseAttached(Initial(), KEYBOARD) == b;
    c := b.(mouse := OFF, commandAtController := Some(5), main := WaitCommand(5, Some(1)));
    assert Shutdown(b.mouse, 1) == OFF;
    d := CommandCompleted(c, 11);
  }

  /** The orphaned report is the answer the waiting transfer gets. */
  lemma OrphanAnswers(g: State, rules: Rules) returns (h: State, i: State, j: State)
    requires g == Initial().(command := Flag(true, 11, 5), main := WaitTransfer(7), transferAtController := Some(Endpoint(2, 1)),
                             live := map[KEYBOARD := 1], answers := map[5 := 11], returned := [Returned(5, 11)])
    ensures Execute(g, OrphanRun(), rules) == Some(j)
    ensures j.returned == [Returned(5, 11), Returned(7, 1)] && 7 !in j.answers && j.transferAtController.Some? && j.mouse == OFF
  {
    h := g.(live := map[KEYBOARD := 0], queue := [TransferDone(KEYBOARD, 0, 1)]);
    assert g.live[KEYBOARD := 0] == map[KEYBOARD := 0] && g.queue + [TransferDone(KEYBOARD, 0, 1)] == [TransferDone(KEYBOARD, 0, 1)];
    assert Next(g, CompleteReport(KEYBOARD, 1), rules) == Some(h);
    i := h.(queue := [], transfer := Flag(true, 1, 0));
    assert h.queue[1..] == [];
    assert HandleInterrupt(h) == i;
    j := Next(i, Finish, rules).value;
    assert Execute(j, [], rules) == Some(j);
    ExecuteFirst(i, Finish, [], rules);
    ExecuteFirst(h, Interrupt, [Finish] + [], rules);
    ExecuteFirst(g, CompleteReport(KEYBOARD, 1), [Interrupt] + ([Finish] + []), rules);
    assert OrphanRun() == [CompleteReport(KEYBOARD, 1)] + ([Interrupt] + ([Finish] + []));
  }

  lemma FailedDisableBreaks()
    ensures var rules := ORDERLY.(failedDisable := true);
            && Execute(Initial(), FailedDisableRun() + OrphanRun(), rules).Some?
            && var s := Execute(Initial(), FailedDisableRun() + OrphanRun(), rules).value;
               s.returned == [Returned(5, 11), Returned(7, 1)] && 7 !in s.answers && s.transferAtController.Some? && s.mouse == OFF
  {
    var rules := ORDERLY.(failedDisable := true);
    var b, c, d := FailedDisableStart(rules);
    var e, f, g := FailedDisableMiddle(d, rules);
    RunSix(Initial(), b, c, d, e, f, g, FailedDisableRun(), rules);
    ExecuteAppend(Initial(), FailedDisableRun(), OrphanRun(), rules);
    var h, i, j := OrphanAnswers(g, rules);
  }
}
