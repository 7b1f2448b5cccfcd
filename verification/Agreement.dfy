/**
 The safety theorem: in a sound deployment no run chooses two values for one instance.
 */
module Agreement {
  import opened FiniteSets
  import opened Messages
  import opened Protocol
  import opened ProtocolInvariant

  lemma VotersAreAcceptors(n: nat, net: set<Msg>, i: nat, r: nat, v: Value)
    ensures Voters(n, net, i, r, v) <= Below(n)
    ensures n > 0 && Chosen(n, net, i, r, v) ==> exists a: nat :: P2B(i, r, a, v) in net
  {
    if n > 0 && Chosen(n, net, i, r, v) {
      assert Voters(n, net, i, r, v) != {};
      var a :| a in Voters(n, net, i, r, v);
    }
  }

  /** A chosen value was proposed in its round. */
  lemma ChosenWasProposed(c: Config, s: State, i: nat, r: nat, v: Value)
    requires c.n > 0 && Inv(c, s) && Chosen(c.n, s.net, i, r, v)
    ensures P2A(i, r, v) in s.net && r >= c.coordRound
  {
    VotersAreAcceptors(c.n, s.net, i, r, v);
    var a: nat :| P2B(i, r, a, v) in s.net;
  }

  /** An acceptor whose reply was counted for a proposal has no vote between the bar and that proposal. */
  lemma VoteNotAbove(c: Config, s: State, i: nat, r: nat, v: Value, r': nat, v': Value, a: nat, hv: nat)
    requires |s.acceptors| == c.n && VotesOk(c, s) && PromisesOk(c, s) && OnceOk(c, s)
    requires P2B(i, r, a, v) in s.net && r < r' && P2A(i, r', v') in s.net && Replied(c, s.net, i, r', a, hv)
    ensures r <= hv
  {
    var r0: nat, k: nat, w: Value :| P1B(i, r0, a, k, w) in s.net && Fits(c, r0, r') && k <= hv;
    assert NothingBetween(s.net, i, a, k, r0);
    assert P2A(i, r, v) in s.net;
  }

  /** A recovery leader's quorum shares an acceptor with any majority, so its highest report is not below r. */
  lemma QuorumSawVote(c: Config, s: State, i: nat, r: nat, v: Value, r': nat, v': Value, q: set<nat>, hv: nat)
    requires Inv(c, s) && c.n % 2 == 1
    requires Chosen(c.n, s.net, i, r, v) && r < r'
    requires P2A(i, r', v') in s.net && SafeAt(c, s.net, i, r', v', q, hv)
    ensures r <= hv
  {
    hide VotesOk, PromisesOk, ProposalsOk, LeadersOk, JustifiedOk, OnceOk, Replied;
    VotersAreAcceptors(c.n, s.net, i, r, v);
    Pigeonhole(Voters(c.n, s.net, i, r, v), q, c.n);
    var a :| a in Voters(c.n, s.net, i, r, v) * q;
    VoteNotAbove(c, s, i, r, v, r', v', a, hv);
  }

  /** Once v is chosen in round r, every proposal of a later round carries v. */
  lemma {:induction false} ChosenStays(c: Config, s: State, i: nat, r: nat, v: Value, r': nat, v': Value)
    requires Sound(c) && Inv(c, s)
    requires Chosen(c.n, s.net, i, r, v) && P2A(i, r', v') in s.net && r <= r'
    ensures v' == v
    decreases r'
  {
    ChosenWasProposed(c, s, i, r, v);
    if r < r' {
      assert (i, r', Owner(c, r')) in s.leaders;
      var q: set<nat>, hv: nat :| SafeAt(c, s.net, i, r', v', q, hv);
      QuorumSawVote(c, s, i, r, v, r', v', q, hv);
      ChosenStays(c, s, i, r, v, hv, v');
    }
  }

  /** Agreement in every state that satisfies the invariant. */
  lemma InvAgrees(c: Config, s: State)
    requires Sound(c) && Inv(c, s)
    ensures Agrees(c, s)
  {
    forall i: nat, r: nat, v: Value, r': nat, v': Value |
      Chosen(c.n, s.net, i, r, v) && Chosen(c.n, s.net, i, r', v')
      ensures v == v'
    {
      ChosenWasProposed(c, s, i, r, v);
      ChosenWasProposed(c, s, i, r', v');
      if r <= r' {
        ChosenStays(c, s, i, r, v, r', v');
      } else {
        ChosenStays(c, s, i, r', v', r, v);
      }
    }
  }

  /** Agreement in every run. */
  lemma SoundAgrees(c: Config)
    requires Sound(c)
    ensures AlwaysAgrees(c)
  {
    forall es: seq<Event> ensures Agrees(c, Run(c, es)) {
      RunInv(c, es);
      InvAgrees(c, Run(c, es));
    }
  }

  /** With the coordinator alone, all votes of an instance are for one value in one round. */
  lemma OneVoteValue(c: Config, es: seq<Event>, i: nat, r: nat, a: nat, v: Value, r': nat, b: nat, w: Value)
    requires Sound(c) && c.leaders == 0
    requires P2B(i, r, a, v) in Run(c, es).net && P2B(i, r', b, w) in Run(c, es).net
    ensures r == r' == c.coordRound && v == w
  {
    hide Run, AcceptorsOk, PromisesOk, JustifiedOk;
    RunInv(c, es);
    assert P2A(i, r, v) in Run(c, es).net && P2A(i, r', w) in Run(c, es).net;
  }
}
