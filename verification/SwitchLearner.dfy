/**
 The learner in the switch: a vote bitmap per instance, and a test on the bitmap that
 decides whether the packet at hand is forwarded to the application.
 */
module SwitchLearner {
  import opened Messages
  import opened Tally

  /** The bitmap has eight bits, kept in the lower half of a word. */
  const WIDTH: nat := 8

  /** The registers of one instance. */
  datatype Reg = Reg(rnd: nat, val: Value, history: bv16)

  function Blank(blank: Value): Reg
  {
    Reg(0, blank, 0)
  }

  /**
   One 2B packet. The test reads the metadata bitmap: updated in the branch for the
   same round, but still the old one when a newer round resets the register, and also
   when the packet is of an older round.
   */
  function Ingress(reg: Reg, rnd: nat, acc: nat, val: Value): (Reg, bool)
  {
    if rnd > reg.rnd then (Reg(rnd, val, Bit(WIDTH, acc)), TwoOfThree(reg.history))
    else if rnd == reg.rnd then (Reg(rnd, val, Set(WIDTH, reg.history, acc)), TwoOfThree(Set(WIDTH, reg.history, acc)))
    else (reg, TwoOfThree(reg.history))
  }

  predicate Ballots(ms: seq<Msg>)
  {
    forall m :: m in ms ==> m.P2B?
  }

  /** The registers of an instance after its packets ms. */
  function After(blank: Value, ms: seq<Msg>): Reg
    requires Ballots(ms)
  {
    if ms == [] then Blank(blank)
    else var m := ms[|ms| - 1]; Ingress(After(blank, ms[..|ms| - 1]), m.rnd, m.acc, m.val).0
  }

  /**
   Any packet. The tables do nothing for other types than 2B, or drop, but the bitmap is
   tested all the same, and forwarding takes back the drop.
   */
  function Pass(reg: Reg, m: Msg): (Reg, bool)
  {
    if m.P2B? then Ingress(reg, m.rnd, m.acc, m.val) else (reg, TwoOfThree(reg.history))
  }

  /** The 2B packets of instance i among ms. */
  function Of(ms: seq<Msg>, i: nat): (r: seq<Msg>)
    ensures forall m :: m in r <==> m in ms && m.P2B? && m.inst == i
    ensures Ballots(r)
  {
    if ms == [] then []
    else
      var m := ms[|ms| - 1];
      assert m in ms && forall m' :: m' in ms ==> m' == m || m' in ms[..|ms| - 1];
      Of(ms[..|ms| - 1], i) + if m.P2B? && m.inst == i then [m] else []
  }

  /** One more packet concerns its own instance only. */
  lemma OneMore(blank: Value, ms: seq<Msg>, m: Msg, i: nat)
    ensures After(blank, Of(ms + [m], i)) ==
      if i == m.inst then Pass(After(blank, Of(ms, i)), m).0 else After(blank, Of(ms, i))
  {
    assert (ms + [m])[..|ms|] == ms;
    var before := Of(ms, i);
    assert (before + [m])[..|before|] == before;
    assert before + [] == before;
  }

  /** The switch with its register arrays. */
  class Switch {
    static const INSTANCE_COUNT: nat := 65536
    static const ZERO: Value := [0]

    const rounds: array<nat>
    const values: array<Value>
    const history2B: array<bv16>
    ghost var history: seq<Msg>

    ghost predicate Separate()
    {
      && rounds.Length == values.Length == history2B.Length == INSTANCE_COUNT
      && rounds as object != values && rounds as object != history2B && values as object != history2B
    }

    function At(i: nat): Reg
      requires Separate() && i < INSTANCE_COUNT
      reads rounds, values, history2B
    {
      Reg(rounds[i], values[i], history2B[i])
    }

    /** Each instance's registers are those its own packets lead to. */
    ghost predicate Valid()
      reads this, rounds, values, history2B
    {
      && Separate()
      && forall i: nat :: i < INSTANCE_COUNT ==> At(i) == After(ZERO, Of(history, i))
    }

    constructor ()
      ensures Valid() && history == []
      ensures fresh(rounds) && fresh(values) && fresh(history2B)
    {
      rounds := new nat[INSTANCE_COUNT](_ => 0);
      values := new Value[INSTANCE_COUNT](_ => ZERO);
      history2B := new bv16[INSTANCE_COUNT](_ => 0);
      history := [];
    }

    method Process(m: Msg) returns (forwarded: bool)
      requires Valid() && m.inst < INSTANCE_COUNT
      modifies this`history, rounds, values, history2B
      ensures Valid() && history == old(history) + [m]
      ensures forwarded == Pass(After(ZERO, Of(old(history), m.inst)), m).1
    {
      hide Bit, Set, TwoOfThree, After, Of, Ballots;
      forall i: nat ensures After(ZERO, Of(history + [m], i)) ==
          if i == m.inst then Pass(After(ZERO, Of(history, i)), m).0 else After(ZERO, Of(history, i))
      {
        OneMore(ZERO, history, m, i);
      }
      var i := m.inst;
      assert At(i) == After(ZERO, Of(history, i));
      var round, acceptors := rounds[i], history2B[i];
      if m.rnd > round {
        if m.P2B? {
          rounds[i] := m.rnd;
          values[i] := m.val;
          history2B[i] := Bit(WIDTH, m.acc);
        }
      } else if m.rnd == round {
        if m.P2B? {
          rounds[i] := m.rnd;
          values[i] := m.val;
          acceptors := Set(WIDTH, acceptors, m.acc);
          history2B[i] := acceptors;
        }
      }
      history := history + [m];
      forwarded := TwoOfThree(acceptors);
    }
  }

  // ----- the bitmap is exact

  function Votes(ms: seq<Msg>): seq<Vote>
    requires forall m :: m in ms ==> m.P2B?
  {
    seq(|ms|, i requires 0 <= i < |ms| => Vote(ms[i].rnd, ms[i].acc))
  }

  lemma OnePacket(reg: Reg, st: Tally.State, m: Msg)
    requires m.P2B? && reg.rnd == st.rnd && Marks(WIDTH, reg.history, st.voters)
    ensures var reg', st' := Ingress(reg, m.rnd, m.acc, m.val).0, Step(st, Vote(m.rnd, m.acc));
      reg'.rnd == st'.rnd && Marks(WIDTH, reg'.history, st'.voters)
  {
    MarksUnion(WIDTH, reg.history, st.voters, m.acc);
    hide Marks, Bit, Set, TwoOfThree;
  }

  lemma LastVote(ms: seq<Msg>)
    requires Ballots(ms) && ms != []
    ensures var m, rest := ms[|ms| - 1], ms[..|ms| - 1];
      Ballots(rest) && Tally.Run(Votes(ms)) == Step(Tally.Run(Votes(rest)), Vote(m.rnd, m.acc))
  {
    assert Votes(ms)[..|ms| - 1] == Votes(ms[..|ms| - 1]);
  }

  /** Register and bitmap hold the exact tally. */
  lemma {:induction false} RunIsTally(blank: Value, ms: seq<Msg>)
    requires Ballots(ms)
    ensures After(blank, ms).rnd == Tally.Run(Votes(ms)).rnd
    ensures Marks(WIDTH, After(blank, ms).history, Tally.Run(Votes(ms)).voters)
  {
    if ms != [] {
      var m, rest := ms[|ms| - 1], ms[..|ms| - 1];
      RunIsTally(blank, rest);
      LastVote(ms);
      OnePacket(After(blank, rest), Tally.Run(Votes(rest)), m);
    } else {
      MarksNothing(WIDTH);
    }
  }

  /** The p-th packet is the last of round r. */
  predicate LastOfRound(ms: seq<Msg>, r: nat, p: nat)
  {
    p < |ms| && ms[p].rnd == r && forall q :: p < q < |ms| ==> ms[q].rnd != r
  }

  /** When somebody is counted, the stored value is that of the last packet of the stored round. */
  lemma {:induction false} StoredIsCounted(blank: Value, ms: seq<Msg>) returns (p: nat)
    requires Ballots(ms) && Tally.Run(Votes(ms)).voters != {}
    ensures LastOfRound(ms, After(blank, ms).rnd, p) && ms[p].val == After(blank, ms).val
  {
    p := 0;
    if ms != [] {
      var m, rest := ms[|ms| - 1], ms[..|ms| - 1];
      LastVote(ms);
      RunIsTally(blank, rest);
      hide Marks, Bit, Set, TwoOfThree, Tally.Run;
      if m.rnd < After(blank, rest).rnd {
        p := StoredIsCounted(blank, rest);
      } else {
        p := |ms| - 1;
      }
    }
  }

  /**
   In every reachable register state the bitmap names precisely the acceptors whose vote
   for the stored round was processed, among those that have a bit.
   */
  lemma BitmapIsExact(blank: Value, ms: seq<Msg>, a: nat)
    requires Ballots(ms)
    requires a < WIDTH
    ensures !Unset(WIDTH, After(blank, ms).history, a) <==> exists m :: m in ms && m.rnd == After(blank, ms).rnd && m.acc == a
  {
    RunIsTally(blank, ms);
    RunIsExact(Votes(ms));
    hide Marks, Unset, Set, Bit, After, Tally.Run;
    MarksUnion(WIDTH, After(blank, ms).history, Tally.Run(Votes(ms)).voters, a);
    if a in Tally.Run(Votes(ms)).voters {
      var p :| 0 <= p < |Votes(ms)| && Votes(ms)[p] == Vote(After(blank, ms).rnd, a);
      assert ms[p] in ms;
    }
    if m :| m in ms && m.rnd == After(blank, ms).rnd && m.acc == a {
      var p :| 0 <= p < |ms| && ms[p] == m;
      assert Votes(ms)[p] == Vote(After(blank, ms).rnd, a);
    }
  }
}
