/**
 The coordinator: it turns client requests into 2A packets and numbers them.
 */
module Coordinator {
  import opened Messages

  /** The instance field has 16 bits. */
  const INSTANCES: nat := 65536

  /** The instance register after k requests. */
  function Assigned(k: nat): nat
  {
    if k == 0 then 0 else (Assigned(k - 1) + 1) % INSTANCES
  }

  lemma {:induction false} AssignedIs(k: nat)
    ensures Assigned(k) == k % INSTANCES
  {
    if k > 0 { AssignedIs(k - 1); }
  }

  /** Two requests share an instance exactly when their numbers differ by a multiple of 65536. */
  lemma Collisions(j: nat, k: nat)
    requires j <= k
    ensures Assigned(j) == Assigned(k) <==> (k - j) % INSTANCES == 0
  {
    AssignedIs(j);
    AssignedIs(k);
    hide Assigned;
    var x, y := j / INSTANCES, k / INSTANCES;
    assert j == INSTANCES * x + j % INSTANCES && k == INSTANCES * y + k % INSTANCES;
  }

  class Switch {
    var instance: nat
    ghost var requests: nat

    ghost predicate Valid()
      reads this
    {
      instance == Assigned(requests)
    }

    constructor ()
      ensures Valid() && requests == 0
    {
      instance, requests := 0, 0;
    }

    /** The k-th request leaves as a 2A of round 0 for the k-th instance. */
    method HandleRequest(val: Value) returns (m: Msg)
      requires Valid()
      modifies this
      ensures Valid() && requests == old(requests) + 1
      ensures m == P2A(Assigned(requests), 0, val)
    {
      instance := (instance + 1) % INSTANCES;
      requests := requests + 1;
      m := P2A(instance, 0, val);
    }
  }
}
