/**
 The acceptor in C: the same registers as global arrays, with the value spread over
 eight arrays of 32-bit words, and the sequencer's counter.
 */
module NetroAcceptor {
  import opened Messages
  import opened Acceptor

  const MAX_INST: nat := 2000000
  const SWITCH_ID: nat := 1
  const WORD: nat := 0x1_0000_0000
  const ZERO: Value := [0, 0, 0, 0, 0, 0, 0, 0]

  class Plugin {
    var curInstance: nat
    const rnds: array<nat>
    const vrnds: array<nat>
    const value0s: array<nat>
    const value1s: array<nat>
    const value2s: array<nat>
    const value3s: array<nat>
    const value4s: array<nat>
    const value5s: array<nat>
    const value6s: array<nat>
    const value7s: array<nat>
    ghost var history: seq<Msg>   // since the last reset
    ghost var sequenced: nat      // packets numbered since the last reset

    /** The ten arrays are different objects of full length. */
    ghost predicate Separate()
    {
      && rnds.Length == vrnds.Length == MAX_INST
      && value0s.Length == value1s.Length == value2s.Length == value3s.Length == MAX_INST
      && value4s.Length == value5s.Length == value6s.Length == value7s.Length == MAX_INST
      && rnds !in {vrnds, value0s, value1s, value2s, value3s, value4s, value5s, value6s, value7s}
      && vrnds !in {value0s, value1s, value2s, value3s, value4s, value5s, value6s, value7s}
      && value0s !in {value1s, value2s, value3s, value4s, value5s, value6s, value7s}
      && value1s !in {value2s, value3s, value4s, value5s, value6s, value7s}
      && value2s !in {value3s, value4s, value5s, value6s, value7s}
      && value3s !in {value4s, value5s, value6s, value7s}
      && value4s !in {value5s, value6s, value7s}
      && value5s !in {value6s, value7s}
      && value6s != value7s
    }

    /** The value of instance i, joined from the eight arrays. */
    function Joined(i: nat): Value
      requires Separate() && i < MAX_INST
      reads value0s, value1s, value2s, value3s, value4s, value5s, value6s, value7s
    {
      [value0s[i], value1s[i], value2s[i], value3s[i], value4s[i], value5s[i], value6s[i], value7s[i]]
    }

    /** The ten arrays hold exactly the registers that the history leads to in the switch acceptor. */
    ghost predicate Valid()
      reads this, rnds, vrnds, value0s, value1s, value2s, value3s, value4s, value5s, value6s, value7s
    {
      && Separate()
      && curInstance == sequenced % WORD
      && forall i: nat :: i < MAX_INST ==> Reg(rnds[i], vrnds[i], Joined(i)) == At(After(SWITCH_ID, ZERO, history), i, ZERO)
    }

    constructor ()
      ensures Separate()
      ensures fresh({rnds, vrnds, value0s, value1s, value2s, value3s, value4s, value5s, value6s, value7s})
    {
      rnds, vrnds := new nat[MAX_INST], new nat[MAX_INST];
      value0s, value1s := new nat[MAX_INST], new nat[MAX_INST];
      value2s, value3s := new nat[MAX_INST], new nat[MAX_INST];
      value4s, value5s := new nat[MAX_INST], new nat[MAX_INST];
      value6s, value7s := new nat[MAX_INST], new nat[MAX_INST];
    }

    method ResetRegisters()
      requires Separate()
      modifies this, rnds, vrnds, value0s, value1s, value2s, value3s, value4s, value5s, value6s, value7s
      ensures Valid() && history == [] && sequenced == 0
    {
      curInstance := 0;
      for i := 0 to MAX_INST
        invariant curInstance == 0
        invariant forall j: nat :: j < i ==> rnds[j] == 0 && vrnds[j] == 0
        invariant forall j: nat :: j < i ==> value0s[j] == 0 && value1s[j] == 0 && value2s[j] == 0 && value3s[j] == 0
        invariant forall j: nat :: j < i ==> value4s[j] == 0 && value5s[j] == 0 && value6s[j] == 0 && value7s[j] == 0
      {
        rnds[i] := 0;
        vrnds[i] := 0;
        value0s[i] := 0;
        value1s[i] := 0;
        value2s[i] := 0;
        value3s[i] := 0;
        value4s[i] := 0;
        value5s[i] := 0;
        value6s[i] := 0;
        value7s[i] := 0;
      }
      history, sequenced := [], 0;
    }

    /** The sequencer: the k-th packet since the reset gets instance k - 1, in 32 bits, and keeps its round. */
    method SeqFunc(rnd: nat, val: Value) returns (m: Msg)
      requires Valid()
      modifies this`curInstance, this`sequenced
      ensures Valid() && sequenced == old(sequenced) + 1
      ensures m == P2A((sequenced - 1) % WORD, rnd, val)
    {
      m := P2A(curInstance, rnd, val);
      curInstance := (curInstance + 1) % WORD;
      sequenced := sequenced + 1;
    }

    method Phase1a(inst: nat, rnd: nat) returns (reply: Option<Msg>)
      requires Valid() && inst < MAX_INST
      modifies this`history, rnds
      ensures Valid() && history == old(history) + [P1A(inst, rnd)]
      ensures reply == Step(SWITCH_ID, ZERO, After(SWITCH_ID, ZERO, old(history)), P1A(inst, rnd)).1
    {
      hide After;
      AfterMore(SWITCH_ID, ZERO, history, P1A(inst, rnd));
      assert Reg(rnds[inst], vrnds[inst], Joined(inst)) == At(After(SWITCH_ID, ZERO, history), inst, ZERO);
      if rnd < rnds[inst] {
        history := history + [P1A(inst, rnd)];
        return None;
      }
      rnds[inst] := rnd;
      reply := Some(P1B(inst, rnd, SWITCH_ID, vrnds[inst],
                        [value0s[inst], value1s[inst], value2s[inst], value3s[inst],
                         value4s[inst], value5s[inst], value6s[inst], value7s[inst]]));
      history := history + [P1A(inst, rnd)];
    }

    /** The eight word assignments of phase 2a. */
    method WriteValue(inst: nat, val: Value)
      requires Separate() && inst < MAX_INST && |val| == 8
      modifies value0s, value1s, value2s, value3s, value4s, value5s, value6s, value7s
      ensures Joined(inst) == val
      ensures forall i: nat :: i < MAX_INST && i != inst ==> Joined(i) == old(Joined(i))
    {
      value0s[inst] := val[0];
      value1s[inst] := val[1];
      value2s[inst] := val[2];
      value3s[inst] := val[3];
      value4s[inst] := val[4];
      value5s[inst] := val[5];
      value6s[inst] := val[6];
      value7s[inst] := val[7];
    }

    method Phase2a(inst: nat, rnd: nat, val: Value) returns (reply: Option<Msg>)
      requires Valid() && inst < MAX_INST && |val| == 8
      modifies this`history, rnds, vrnds, value0s, value1s, value2s, value3s, value4s, value5s, value6s, value7s
      ensures Valid() && history == old(history) + [P2A(inst, rnd, val)]
      ensures reply == Step(SWITCH_ID, ZERO, After(SWITCH_ID, ZERO, old(history)), P2A(inst, rnd, val)).1
    {
      hide After;
      AfterMore(SWITCH_ID, ZERO, history, P2A(inst, rnd, val));
      assert Reg(rnds[inst], vrnds[inst], Joined(inst)) == At(After(SWITCH_ID, ZERO, history), inst, ZERO);
      if rnd < rnds[inst] {
        history := history + [P2A(inst, rnd, val)];
        return None;
      }
      rnds[inst] := rnd;
      vrnds[inst] := rnd;
      WriteValue(inst, val);
      reply := Some(P2B(inst, rnd, SWITCH_ID, val));
      history := history + [P2A(inst, rnd, val)];
    }
  }
}
