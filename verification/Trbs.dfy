/** Transfer request blocks, the 16-byte entries of every xHCI ring. */
module Trbs {
  datatype Trb = Trb(parameter: nat, status: nat, control: nat)

  const EMPTY := Trb(0, 0, 0)

  /** The cycle bit, which says whether a TRB is valid for its reader. */
  predicate Cycle(t: Trb) {
    t.control % 2 == 1
  }

  function Bit(b: bool): nat {
    if b then 1 else 0
  }

  /** The cycle state of lap n of a ring whose first lap has cycle state 1. */
  predicate Even(n: nat) {
    n % 2 == 0
  }

  /** The TRB as its writer leaves it: its own control word with the writer's cycle bit. */
  function WithCycle(t: Trb, cycle: bool): Trb {
    t.(control := t.control / 2 * 2 + Bit(cycle))
  }

  /** The cycle bit is set and every other bit of the TRB kept. */
  lemma WithCycleKeeps(t: Trb, cycle: bool)
    ensures Cycle(WithCycle(t, cycle)) == cycle && WithCycle(t, cycle).control / 2 == t.control / 2
    ensures WithCycle(t, cycle).(control := t.control) == t
  {
  }
}
