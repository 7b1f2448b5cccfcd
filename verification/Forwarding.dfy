/**
 What the switch learner forwards. A forwarded packet carries the chosen value
 whenever it is not of an older round than the one stored; for older packets the
 switch tests a bitmap that says nothing about them.
 */
module Forwarding {
  import opened FiniteSets
  import opened Messages
  import opened Protocol
  import opened ProtocolInvariant
  import opened Replication
  import SwitchLearner
  import Agreement
  import Necessity
  import Tally

  /** A 2B packet of instance i that the run has put on the network. */
  ghost predicate Vote(c: Config, es: seq<Event>, i: nat, m: Msg)
  {
    m.P2B? && m.inst == i && m in Run(c, es).net
  }

  ghost predicate Stream(c: Config, es: seq<Event>, i: nat, ms: seq<Msg>)
  {
    forall m :: m in ms ==> Vote(c, es, i, m)
  }

  /** The registers of the instance after the packets ms. */
  function Stored(c: Config, ms: seq<Msg>): SwitchLearner.Reg
    requires SwitchLearner.Ballots(ms)
  {
    SwitchLearner.After(c.blank, ms)
  }

  /** After the packets ms, packet m is forwarded. */
  predicate Forwards(c: Config, ms: seq<Msg>, m: Msg)
    requires SwitchLearner.Ballots(ms)
    requires m.P2B?
  {
    SwitchLearner.Ingress(Stored(c, ms), m.rnd, m.acc, m.val).1
  }

  /** The acceptors whose packets of the stored round have been processed. */
  function Counted(ms: seq<Msg>): set<nat>
    requires forall m :: m in ms ==> m.P2B?
  {
    Tally.Run(SwitchLearner.Votes(ms)).voters
  }

  /** A packet of the stored round is forwarded exactly when it makes, or finds, two distinct voters; the third stays silent. */
  lemma ForwardsAtTwo(c: Config, ms: seq<Msg>, m: Msg)
    requires SwitchLearner.Ballots(ms) && m.P2B?
    ensures m.rnd == Stored(c, ms).rnd ==> (Forwards(c, ms, m) <==> Tally.TwoVoters(SwitchLearner.WIDTH, Counted(ms) + {m.acc}))
    ensures m.rnd != Stored(c, ms).rnd ==> (Forwards(c, ms, m) <==> Tally.TwoVoters(SwitchLearner.WIDTH, Counted(ms)))
  {
    SwitchLearner.RunIsTally(c.blank, ms);
    hide Tally.Marks, Tally.Set, Tally.TwoOfThree, Tally.TwoVoters, Tally.Run, SwitchLearner.After;
    var bits := Stored(c, ms).history;
    Tally.MarksUnion(SwitchLearner.WIDTH, bits, Counted(ms), m.acc);
    Tally.TwoOfThreeMeans(SwitchLearner.WIDTH, bits, Counted(ms));
    Tally.TwoOfThreeMeans(SwitchLearner.WIDTH, Tally.Set(SwitchLearner.WIDTH, bits, m.acc), Counted(ms) + {m.acc});
  }

  /** Acceptor a's vote for the stored round is on the network. */
  lemma CountedVoted(c: Config, es: seq<Event>, i: nat, ms: seq<Msg>, a: nat)
    requires Stream(c, es, i, ms) && a in Counted(ms)
    ensures exists v: Value :: P2B(i, Stored(c, ms).rnd, a, v) in Run(c, es).net
  {
    var votes := SwitchLearner.Votes(ms);
    SwitchLearner.RunIsTally(c.blank, ms);
    Tally.RunIsExact(votes);
    hide Tally.Run, SwitchLearner.After, Run;
    var p :| 0 <= p < |votes| && votes[p] == Tally.Vote(Stored(c, ms).rnd, a);
    assert ms[p] in ms;
    assert P2B(i, Stored(c, ms).rnd, a, ms[p].val) in Run(c, es).net;
  }

  /** With three acceptors only they are counted, so the test is for two of them. */
  lemma CountedAreAcceptors(c: Config, es: seq<Event>, i: nat, ms: seq<Msg>, m: Msg)
    requires Sound(c) && c.n == 3 && Stream(c, es, i, ms) && Vote(c, es, i, m)
    ensures Counted(ms) <= Below(3) && m.acc < 3
    ensures m.rnd == Stored(c, ms).rnd ==> (Forwards(c, ms, m) <==> |Counted(ms) + {m.acc}| == 2)
    ensures m.rnd != Stored(c, ms).rnd ==> (Forwards(c, ms, m) <==> |Counted(ms)| == 2)
  {
    CountedBelowThree(c, es, i, ms);
    hide Sound, Run, SwitchLearner.After, Tally.Run, Inv, Forwards, Tally.TwoVoters;
    RunInv(c, es);
    VotesHaveOneValue(c, Run(c, es));
    ForwardsAtTwo(c, ms, m);
    assert P2B(i, m.rnd, m.acc, m.val) in Run(c, es).net;
    Tally.AllBelowThree(SwitchLearner.WIDTH, Counted(ms));
    Tally.AllBelowThree(SwitchLearner.WIDTH, Counted(ms) + {m.acc});
  }

  lemma CountedBelowThree(c: Config, es: seq<Event>, i: nat, ms: seq<Msg>)
    requires Sound(c) && c.n == 3 && Stream(c, es, i, ms)
    ensures Counted(ms) <= Below(3)
  {
    hide Sound, Run, SwitchLearner.After, Tally.Run, Inv;
    RunInv(c, es);
    VotesHaveOneValue(c, Run(c, es));
    forall a | a in Counted(ms) ensures a < 3 {
      CountedVoted(c, es, i, ms, a);
    }
  }

  /** Two acceptors that voted in round r make its one value the chosen one. */
  lemma TwoVotesChoose(c: Config, es: seq<Event>, i: nat, r: nat, v: Value, voters: set<nat>)
    requires Sound(c) && c.n == 3 && |voters| == 2 && voters <= Below(3)
    requires forall a :: a in voters ==> exists w: Value :: P2B(i, r, a, w) in Run(c, es).net
    requires exists a: nat :: P2B(i, r, a, v) in Run(c, es).net
    ensures Chosen(3, Run(c, es).net, i, r, v)
  {
    hide Run, Sound, Inv;
    var net := Run(c, es).net;
    RunInv(c, es);
    VotesHaveOneValue(c, Run(c, es));
    forall a | a in voters ensures P2B(i, r, a, v) in net {
      var w: Value :| P2B(i, r, a, w) in net;
    }
    SubsetSize(voters, Voters(3, net, i, r, v));
  }

  /** When two acceptors of the stored round are counted, the stored value is chosen in that round. */
  lemma StoredIsChosen(c: Config, es: seq<Event>, i: nat, ms: seq<Msg>)
    requires Sound(c) && c.n == 3 && Stream(c, es, i, ms) && |Counted(ms)| == 2 && Counted(ms) <= Below(3)
    ensures Chosen(3, Run(c, es).net, i, Stored(c, ms).rnd, Stored(c, ms).val)
  {
    SwitchLearner.RunIsTally(c.blank, ms);
    hide Sound, Run, Chosen, SwitchLearner.After, Tally.Run;
    var reg := Stored(c, ms);
    forall a | a in Counted(ms) ensures exists w: Value :: P2B(i, reg.rnd, a, w) in Run(c, es).net {
      CountedVoted(c, es, i, ms, a);
    }
    var p := SwitchLearner.StoredIsCounted(c.blank, ms);
    var m := ms[p];
    assert m in ms;
    assert P2B(i, reg.rnd, m.acc, reg.val) in Run(c, es).net;
    TwoVotesChoose(c, es, i, reg.rnd, reg.val, Counted(ms));
  }

  /** A packet of the stored round that is forwarded carries the value chosen in that round. */
  lemma SameRoundIsChosen(c: Config, es: seq<Event>, i: nat, ms: seq<Msg>, m: Msg)
    requires Sound(c) && c.n == 3 && Stream(c, es, i, ms) && Vote(c, es, i, m)
    requires Forwards(c, ms, m) && m.rnd == Stored(c, ms).rnd
    ensures Chosen(3, Run(c, es).net, i, m.rnd, m.val)
  {
    SwitchLearner.RunIsTally(c.blank, ms);
    CountedAreAcceptors(c, es, i, ms, m);
    hide Sound, Run, Chosen, SwitchLearner.After, Tally.Run, Forwards;
    var voters := Counted(ms) + {m.acc};
    forall a | a in voters ensures exists w: Value :: P2B(i, m.rnd, a, w) in Run(c, es).net {
      if a in Counted(ms) {
        CountedVoted(c, es, i, ms, a);
      } else {
        assert P2B(i, m.rnd, a, m.val) in Run(c, es).net;
      }
    }
    assert P2B(i, m.rnd, m.acc, m.val) in Run(c, es).net;
    TwoVotesChoose(c, es, i, m.rnd, m.val, voters);
  }

  /** What was chosen in the stored round is what a later round proposes, so the old bitmap vouches for the new packet. */
  lemma NewerCarriesChosen(c: Config, es: seq<Event>, i: nat, r: nat, v: Value, m: Msg)
    requires Sound(c) && c.n == 3 && Chosen(3, Run(c, es).net, i, r, v)
    requires m.P2B? && m.inst == i && m in Run(c, es).net && r <= m.rnd
    ensures m.val == v
  {
    hide Sound, Run, Chosen, AcceptorsOk, PromisesOk, ProposalsOk, LeadersOk, JustifiedOk;
    RunInv(c, es);
    assert P2A(i, m.rnd, m.val) in Run(c, es).net;
    Agreement.ChosenStays(c, Run(c, es), i, r, v, m.rnd, m.val);
  }

  /**
   Forwarding, exactly: a forwarded packet carries the chosen value if and only if its
   round is at least the stored one or its value is the stored one.
   */
  lemma ForwardedIsChosen(c: Config, es: seq<Event>, i: nat, ms: seq<Msg>, m: Msg)
    requires Sound(c) && c.n == 3 && Stream(c, es, i, ms) && Vote(c, es, i, m)
    requires Forwards(c, ms, m)
    ensures Decided(c, Run(c, es).net, i, m.val) <==> m.rnd >= Stored(c, ms).rnd || m.val == Stored(c, ms).val
  {
    CountedAreAcceptors(c, es, i, ms, m);
    hide Sound, Run, Chosen, SwitchLearner.After, Tally.Run, Forwards;
    var net, reg := Run(c, es).net, Stored(c, ms);
    if m.rnd == reg.rnd {
      SameRoundIsChosen(c, es, i, ms, m);
      assert Chosen(c.n, net, i, m.rnd, m.val);
    } else {
      StoredIsChosen(c, es, i, ms);
      assert Chosen(c.n, net, i, reg.rnd, reg.val);
      if m.rnd > reg.rnd {
        NewerCarriesChosen(c, es, i, reg.rnd, reg.val, m);
      } else if Decided(c, net, i, m.val) {
        OneDecision(c, es, i, m.val, reg.val);
      }
    }
  }

  /** While two acceptors are counted, the stored value is the only one ever chosen. */
  lemma OnlyStoredIsChosen(c: Config, es: seq<Event>, i: nat, ms: seq<Msg>, v: Value)
    requires Sound(c) && c.n == 3 && Stream(c, es, i, ms) && |Counted(ms)| == 2 && Counted(ms) <= Below(3)
    ensures Decided(c, Run(c, es).net, i, v) <==> v == Stored(c, ms).val
  {
    hide Sound, Run, Chosen, SwitchLearner.After, Tally.Run;
    StoredIsChosen(c, es, i, ms);
    assert Chosen(c.n, Run(c, es).net, i, Stored(c, ms).rnd, Stored(c, ms).val);
    if Decided(c, Run(c, es).net, i, v) {
      OneDecision(c, es, i, v, Stored(c, ms).val);
    }
  }

  /**
   Packets of other types are forwarded too, exactly while two acceptors are counted. A
   2A then carries the chosen value if and only if its round is at least the stored one
   or its value is the stored one, and a 1B if and only if its value is the stored one.
   */
  lemma OthersAreForwarded(c: Config, es: seq<Event>, i: nat, ms: seq<Msg>, m: Msg)
    requires Sound(c) && c.n == 3 && Stream(c, es, i, ms)
    requires !m.P2B? && m.inst == i && m in Run(c, es).net
    ensures SwitchLearner.Pass(Stored(c, ms), m).1 <==> |Counted(ms)| == 2
    ensures SwitchLearner.Pass(Stored(c, ms), m).1 && m.P2A? ==>
      (Decided(c, Run(c, es).net, i, m.val) <==> m.rnd >= Stored(c, ms).rnd || m.val == Stored(c, ms).val)
    ensures SwitchLearner.Pass(Stored(c, ms), m).1 && m.P1B? ==>
      (Decided(c, Run(c, es).net, i, m.val) <==> m.val == Stored(c, ms).val)
  {
    CountedBelowThree(c, es, i, ms);
    SwitchLearner.RunIsTally(c.blank, ms);
    hide Sound, Run, Chosen, SwitchLearner.After, Tally.Run, Tally.Marks, Tally.TwoOfThree, Tally.TwoVoters;
    var reg := Stored(c, ms);
    Tally.TwoOfThreeMeans(SwitchLearner.WIDTH, reg.history, Counted(ms));
    Tally.AllBelowThree(SwitchLearner.WIDTH, Counted(ms));
    if |Counted(ms)| == 2 && !m.P1A? {
      OnlyStoredIsChosen(c, es, i, ms, m.val);
      StoredIsChosen(c, es, i, ms);
      if m.P2A? && m.rnd >= reg.rnd {
        RunInv(c, es);
        Agreement.ChosenStays(c, Run(c, es), i, reg.rnd, reg.val, m.rnd, m.val);
      }
    }
  }

  /** Whatever the switch forwards in any run is the chosen value. */
  ghost predicate AlwaysForwardsChosen(c: Config)
  {
    forall es: seq<Event>, i: nat, ms: seq<Msg>, m: Msg ::
      Stream(c, es, i, ms) && Vote(c, es, i, m) && Forwards(c, ms, m) ==> Decided(c, Run(c, es).net, i, m.val)
  }

  /** With no recovery there is one round only. */
  lemma OneRoundOnly(c: Config, es: seq<Event>, i: nat, ms: seq<Msg>, m: Msg)
    requires Sound(c) && c.leaders == 0 && Stream(c, es, i, ms) && Vote(c, es, i, m)
    ensures m.rnd >= Stored(c, ms).rnd
  {
    hide Sound, Run, AcceptorsOk, PromisesOk, JustifiedOk, SwitchLearner.After, Tally.Run;
    RunInv(c, es);
    SwitchLearner.RunIsTally(c.blank, ms);
    var votes := SwitchLearner.Votes(ms);
    Tally.RunIsExact(votes);
    assert P2A(i, m.rnd, m.val) in Run(c, es).net;
    if Stored(c, ms).rnd > 0 {
      var p :| 0 <= p < |votes| && votes[p].rnd == Stored(c, ms).rnd;
      var m' := ms[p];
      assert m' in ms && P2A(i, m'.rnd, m'.val) in Run(c, es).net;
    }
  }

  /**
   A run with recovery in which the switch forwards a value nobody chose: acceptor 0
   alone votes for the client value, the next round chooses the initial value, and
   then the old vote arrives and finds the bitmap of the newer round.
   */
  lemma OldVoteIsForwarded(c: Config) returns (es: seq<Event>, ms: seq<Msg>, m: Msg)
    requires Sound(c) && c.n == 3 && c.requests >= 1 && c.leaders >= 1
    ensures Stream(c, es, 1, ms) && Vote(c, es, 1, m) && Forwards(c, ms, m)
    ensures !Decided(c, Run(c, es).net, 1, m.val)
  {
    hide Run, Chosen, Sound;
    var v, cr := c.blank + [1], c.coordRound;
    es := Necessity.LoneVote(c, v);
    var one, two := P2B(1, cr + 1, 1, c.blank), P2B(1, cr + 1, 2, c.blank);
    m := P2B(1, cr, 0, v);
    ms := [one, two];
    BothCounted(c, one, two);
    assert Forwards(c, ms, m);
    hide SwitchLearner.After, Forwards;
    ForwardedIsChosen(c, es, 1, ms, m);
  }

  lemma BothCounted(c: Config, one: Msg, two: Msg)
    requires one.P2B? && two.P2B? && one.acc == 1 && two.acc == 2 && one.rnd == two.rnd > 0
    ensures Stored(c, [one, two]) == SwitchLearner.Reg(two.rnd, two.val, 6)
  {
    assert [one, two][..1] == [one];
    assert [one][..0] == [];
    assert SwitchLearner.After(c.blank, [one]) == SwitchLearner.Reg(one.rnd, one.val, 2);
  }

  /** The exact condition: the switch forwards nothing but chosen values if and only if no leader ever recovers. */
  lemma ForwardsChosenIffNoRecovery(c: Config)
    requires Sound(c) && c.n == 3 && c.requests >= 1
    ensures AlwaysForwardsChosen(c) <==> c.leaders == 0
  {
    if c.leaders == 0 {
      forall es: seq<Event>, i: nat, ms: seq<Msg>, m: Msg |
        Stream(c, es, i, ms) && Vote(c, es, i, m) && Forwards(c, ms, m)
        ensures Decided(c, Run(c, es).net, i, m.val)
      {
        OneRoundOnly(c, es, i, ms, m);
        ForwardedIsChosen(c, es, i, ms, m);
      }
    } else {
      var es, ms, m := OldVoteIsForwarded(c);
    }
  }
}
