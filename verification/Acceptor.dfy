/**
 The acceptor: three registers per instance that answer 1A and 2A packets.
 */
module Acceptor {
  import opened Messages

  datatype Reg = Reg(rnd: nat, vrnd: nat, val: Value)

  /** The registers by instance; those never written read as zero. */
  type Registers = map<nat, Reg>

  function At(regs: Registers, inst: nat, blank: Value): Reg
  {
    if inst in regs then regs[inst] else Reg(0, 0, blank)
  }

  /** What one packet does: the registers it leaves and the packet sent on, if it is not dropped. */
  function Step(id: nat, blank: Value, regs: Registers, m: Msg): (Registers, Option<Msg>)
  {
    match m
    case P1A(i, r) =>
      var reg := At(regs, i, blank);
      if reg.rnd <= r then
        (regs[i := Reg(r, reg.vrnd, reg.val)], Some(P1B(i, r, id, reg.vrnd, reg.val)))
      else
        (regs, None)
    case P2A(i, r, v) =>
      if At(regs, i, blank).rnd <= r then
        (regs[i := Reg(r, r, v)], Some(P2B(i, r, id, v)))
      else
        (regs, None)
    case _ => (regs, None)
  }

  /** The registers after a message history. */
  function After(id: nat, blank: Value, ms: seq<Msg>): Registers
  {
    if ms == [] then map[] else Step(id, blank, After(id, blank, ms[..|ms| - 1]), ms[|ms| - 1]).0
  }

  lemma AfterMore(id: nat, blank: Value, ms: seq<Msg>, m: Msg)
    ensures After(id, blank, ms + [m]) == Step(id, blank, After(id, blank, ms), m).0
  {
    assert (ms + [m])[..|ms|] == ms;
  }

  /** The switch acceptor: register arrays indexed by the 16-bit instance number. */
  class Switch {
    static const INSTANCE_COUNT: nat := 65536
    static const ZERO: Value := [0]

    const id: nat
    const rounds: array<nat>
    const vrounds: array<nat>
    const values: array<Value>
    ghost var history: seq<Msg>

    /** The arrays hold exactly the registers that the history leads to. */
    ghost predicate Valid()
      reads this, rounds, vrounds, values
    {
      && rounds.Length == INSTANCE_COUNT
      && vrounds.Length == INSTANCE_COUNT
      && values.Length == INSTANCE_COUNT
      && rounds != vrounds && rounds as object != values && vrounds as object != values
      && forall i: nat :: i < INSTANCE_COUNT ==> Reg(rounds[i], vrounds[i], values[i]) == At(After(id, ZERO, history), i, ZERO)
    }

    constructor (id: nat)
      ensures Valid() && history == [] && this.id == id
      ensures fresh(rounds) && fresh(vrounds) && fresh(values)
    {
      this.id := id;
      rounds := new nat[INSTANCE_COUNT](_ => 0);
      vrounds := new nat[INSTANCE_COUNT](_ => 0);
      values := new Value[INSTANCE_COUNT](_ => ZERO);
      history := [];
    }

    /** One pass through the pipeline: read the round, compare, and apply the action that matches the type. */
    method Ingress(m: Msg) returns (reply: Option<Msg>)
      requires Valid() && m.inst < INSTANCE_COUNT
      modifies this`history, rounds, vrounds, values
      ensures Valid() && history == old(history) + [m]
      ensures reply == Step(id, ZERO, After(id, ZERO, old(history)), m).1
    {
      hide After;
      AfterMore(id, ZERO, history, m);
      assert Reg(rounds[m.inst], vrounds[m.inst], values[m.inst]) == At(After(id, ZERO, history), m.inst, ZERO);
      var round := rounds[m.inst];
      reply := None;
      if round <= m.rnd {
        match m {
          case P1A(i, r) =>
            reply := Some(P1B(i, r, id, vrounds[i], values[i]));
            rounds[i] := r;
          case P2A(i, r, v) =>
            reply := Some(P2B(i, r, id, v));
            rounds[i] := r;
            vrounds[i] := r;
            values[i] := v;
          case _ =>
        }
      }
      history := history + [m];
    }
  }
}
