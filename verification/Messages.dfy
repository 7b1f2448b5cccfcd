/**
 The messages of the protocol.
 */
module Messages {

  /** A register value, word by word. */
  type Value = seq<nat>

  datatype Option<+T> = None | Some(value: T)

  datatype Msg =
    | P1A(inst: nat, rnd: nat)
    | P1B(inst: nat, rnd: nat, acc: nat, vrnd: nat, val: Value)
    | P2A(inst: nat, rnd: nat, val: Value)
    | P2B(inst: nat, rnd: nat, acc: nat, val: Value)
}
