/**
 What every step of a sound deployment keeps.
 */
module ProtocolInvariant {
  import opened FiniteSets
  import opened Messages
  import opened Acceptor
  import opened Protocol
  import Coordinator
  import Leader

  /** The registers of instance i at acceptor a. */
  function RegAt(c: Config, s: State, a: nat, i: nat): Reg
    requires a < |s.acceptors|
  {
    At(s.acceptors[a], i, c.blank)
  }

  ghost predicate AcceptorsOk(c: Config, s: State)
  {
    && |s.acceptors| == c.n
    && forall a: nat, i: nat :: a < c.n ==>
         && RegAt(c, s, a, i).vrnd <= RegAt(c, s, a, i).rnd
         && (RegAt(c, s, a, i).vrnd >= 1 ==> P2B(i, RegAt(c, s, a, i).vrnd, a, RegAt(c, s, a, i).val) in s.net)
  }

  /** Every vote was proposed, and its acceptor has not gone back behind it. */
  ghost predicate VotesOk(c: Config, s: State)
    requires |s.acceptors| == c.n
  {
    forall i: nat, r: nat, a: nat, v: Value :: P2B(i, r, a, v) in s.net ==>
      a < c.n && P2A(i, r, v) in s.net && r <= RegAt(c, s, a, i).vrnd
  }

  /** No vote of acceptor a lies strictly between k and r. */
  ghost predicate NothingBetween(net: set<Msg>, i: nat, a: nat, k: nat, r: nat)
  {
    forall r': nat, w: Value :: P2B(i, r', a, w) in net && r' < r ==> r' <= k
  }

  ghost predicate PromisesOk(c: Config, s: State)
    requires |s.acceptors| == c.n
  {
    forall i: nat, r: nat, a: nat, k: nat, v: Value :: P1B(i, r, a, k, v) in s.net ==>
      && a < c.n && k <= r <= RegAt(c, s, a, i).rnd
      && (k >= 1 ==> P2B(i, k, a, v) in s.net)
      && NothingBetween(s.net, i, a, k, r)
  }

  /** Instance i is among those the first sent requests were given. */
  predicate Issued(sent: nat, i: nat)
  {
    if i == 0 then sent >= Coordinator.INSTANCES else i <= sent
  }

  ghost predicate ProposalsOk(c: Config, s: State)
  {
    && s.sent <= c.requests
    && (forall i: nat, r: nat, v: Value :: P2A(i, r, v) in s.net ==>
          && r >= c.coordRound
          && (r == c.coordRound ==> Issued(s.sent, i))
          && (r > c.coordRound ==> (i, r, Owner(c, r)) in s.leaders && s.leaders[(i, r, Owner(c, r))].finished))
    && (forall i: nat, r: nat, v: Value, w: Value :: P2A(i, r, v) in s.net && P2A(i, r, w) in s.net ==> v == w)
  }

  /** A reply for round r0 may be counted for round r: the same round, or a lower one where counts are carried along. */
  predicate Fits(c: Config, r0: nat, r: nat)
  {
    c.coordRound < r0 <= r && (c.clears ==> r0 == r)
  }

  /** Acceptor a has answered and had not voted above hv. */
  ghost predicate Replied(c: Config, net: set<Msg>, i: nat, r: nat, a: nat, hv: nat)
  {
    exists r0: nat, k: nat, w: Value :: P1B(i, r0, a, k, w) in net && Fits(c, r0, r) && k <= hv
  }

  ghost predicate Reported(net: set<Msg>, i: nat, r: nat, k: nat, v: Value)
  {
    exists r0: nat, a: nat :: P1B(i, r0, a, k, v) in net && r0 <= r
  }

  ghost predicate LeaderOk(c: Config, net: set<Msg>, i: nat, r: nat, ld: Leader.State)
  {
    && ld.nids <= Below(c.n)
    && (forall a :: a in ld.nids ==> Replied(c, net, i, r, a, ld.hvrnd))
    && (ld.hvrnd >= 1 ==> Reported(net, i, r, ld.hvrnd, ld.hval))
    && (!ld.finished ==> forall v: Value :: P2A(i, r, v) !in net)
  }

  ghost predicate LeadersOk(c: Config, s: State)
  {
    forall key :: key in s.leaders ==>
      key.1 > c.coordRound && c.leaders > 0 && key.2 == Owner(c, key.1) && LeaderOk(c, s.net, key.0, key.1, s.leaders[key])
  }

  /** A quorum answered, none had voted above hv < r, and v was the proposal of round hv if hv was a voting round. */
  ghost predicate SafeAt(c: Config, net: set<Msg>, i: nat, r: nat, v: Value, q: set<nat>, hv: nat)
  {
    && Leader.IsQuorum(c.n, q)
    && hv < r
    && (forall a :: a in q ==> Replied(c, net, i, r, a, hv))
    && (hv >= 1 ==> P2A(i, hv, v) in net)
  }

  ghost predicate JustifiedOk(c: Config, s: State)
  {
    forall i: nat, r: nat, v: Value :: P2A(i, r, v) in s.net && r > c.coordRound ==>
      exists q: set<nat>, hv: nat :: SafeAt(c, s.net, i, r, v, q, hv)
  }

  /** Nobody but the coordinator has proposed for instance i. */
  ghost predicate NoRecovery(c: Config, net: set<Msg>, i: nat)
  {
    forall r: nat, v: Value :: P2A(i, r, v) in net ==> r <= c.coordRound
  }

  /** A leader whose counts are carried along proposes at most once per instance. */
  ghost predicate OnceOk(c: Config, s: State)
  {
    !c.clears ==>
      && (forall i: nat, r: nat, v: Value, r': nat, v': Value ::
            P2A(i, r, v) in s.net && P2A(i, r', v') in s.net && r > c.coordRound && r' > c.coordRound ==> r == r')
      && (forall key :: key in s.leaders && NotBeyond(s, key.0, key.1, key.2) && !s.leaders[key].finished ==>
            NoRecovery(c, s.net, key.0))
  }

  ghost predicate Inv(c: Config, s: State)
  {
    && AcceptorsOk(c, s)
    && VotesOk(c, s)
    && PromisesOk(c, s)
    && ProposalsOk(c, s)
    && LeadersOk(c, s)
    && JustifiedOk(c, s)
    && OnceOk(c, s)
  }

  lemma InitInv(c: Config)
    ensures Inv(c, Init(c))
  {
  }

  // ----- growth of the network

  lemma RepliedGrows(c: Config, net: set<Msg>, net': set<Msg>, i: nat, r: nat, a: nat, hv: nat, hv': nat)
    requires net <= net' && hv <= hv' && Replied(c, net, i, r, a, hv)
    ensures Replied(c, net', i, r, a, hv')
  {
    var r0: nat, k: nat, w: Value :| P1B(i, r0, a, k, w) in net && Fits(c, r0, r) && k <= hv;
    assert P1B(i, r0, a, k, w) in net';
  }

  lemma ReportedGrows(net: set<Msg>, net': set<Msg>, i: nat, r: nat, k: nat, v: Value)
    requires net <= net' && Reported(net, i, r, k, v)
    ensures Reported(net', i, r, k, v)
  {
    var r0: nat, a: nat :| P1B(i, r0, a, k, v) in net && r0 <= r;
    assert P1B(i, r0, a, k, v) in net';
  }

  lemma JustifiedGrows(c: Config, net: set<Msg>, net': set<Msg>, i: nat, r: nat, v: Value)
    requires net <= net' && exists q: set<nat>, hv: nat :: SafeAt(c, net, i, r, v, q, hv)
    ensures exists q: set<nat>, hv: nat :: SafeAt(c, net', i, r, v, q, hv)
  {
    var q: set<nat>, hv: nat :| SafeAt(c, net, i, r, v, q, hv);
    forall a | a in q ensures Replied(c, net', i, r, a, hv) {
      RepliedGrows(c, net, net', i, r, a, hv, hv);
    }
    assert SafeAt(c, net', i, r, v, q, hv);
  }

  /** A leader state stays right as long as nobody proposes in its round. */
  lemma LeaderGrows(c: Config, net: set<Msg>, net': set<Msg>, i: nat, r: nat, ld: Leader.State)
    requires net <= net' && LeaderOk(c, net, i, r, ld)
    requires forall v: Value :: P2A(i, r, v) in net' ==> P2A(i, r, v) in net || ld.finished
    ensures LeaderOk(c, net', i, r, ld)
  {
    forall a | a in ld.nids ensures Replied(c, net', i, r, a, ld.hvrnd) {
      RepliedGrows(c, net, net', i, r, a, ld.hvrnd, ld.hvrnd);
    }
    if ld.hvrnd >= 1 {
      ReportedGrows(net, net', i, r, ld.hvrnd, ld.hval);
    }
  }

  /** Steps that add no proposal keep the leaders' part of the invariant. */
  lemma LeadersKept(c: Config, s: State, s': State)
    requires LeadersOk(c, s) && JustifiedOk(c, s) && ProposalsOk(c, s) && OnceOk(c, s)
    requires s.net <= s'.net && s'.leaders == s.leaders && s'.sent == s.sent
    requires forall i: nat, r: nat, v: Value :: P2A(i, r, v) in s'.net ==> P2A(i, r, v) in s.net
    ensures LeadersOk(c, s') && JustifiedOk(c, s') && ProposalsOk(c, s') && OnceOk(c, s')
  {
    forall key | key in s'.leaders ensures LeaderOk(c, s'.net, key.0, key.1, s'.leaders[key]) {
      LeaderGrows(c, s.net, s'.net, key.0, key.1, s.leaders[key]);
    }
    forall key | !c.clears && key in s'.leaders && NotBeyond(s', key.0, key.1, key.2) && !s'.leaders[key].finished
      ensures NoRecovery(c, s'.net, key.0)
    {
      assert NotBeyond(s, key.0, key.1, key.2);
    }
    forall i: nat, r: nat, v: Value | P2A(i, r, v) in s'.net && r > c.coordRound
      ensures exists q: set<nat>, hv: nat :: SafeAt(c, s'.net, i, r, v, q, hv)
    {
      JustifiedGrows(c, s.net, s'.net, i, r, v);
    }
  }

  /** Steps that touch no acceptor and send neither 1B nor 2B keep the acceptors' part of the invariant. */
  lemma AcceptorsKept(c: Config, s: State, s': State)
    requires AcceptorsOk(c, s) && VotesOk(c, s) && PromisesOk(c, s)
    requires s.net <= s'.net && s'.acceptors == s.acceptors
    requires forall m :: m in s'.net && m !in s.net ==> !m.P1B? && !m.P2B?
    ensures AcceptorsOk(c, s') && VotesOk(c, s') && PromisesOk(c, s')
  {
    assert forall a: nat, i: nat :: a < c.n ==> RegAt(c, s', a, i) == RegAt(c, s, a, i);
    forall i: nat, r: nat, a: nat, k: nat, v: Value | P1B(i, r, a, k, v) in s'.net
      ensures NothingBetween(s'.net, i, a, k, r)
    {
      assert P1B(i, r, a, k, v) in s.net;
      assert NothingBetween(s.net, i, a, k, r);
    }
  }

  lemma PrepareInv(c: Config, s: State, i: nat, r: nat)
    requires Inv(c, s)
    ensures Inv(c, s.(net := s.net + {P1A(i, r)}))
  {
    var s' := s.(net := s.net + {P1A(i, r)});
    AcceptorsKept(c, s, s');
    LeadersKept(c, s, s');
  }

  /** The coordinator's next instance is a new one, so its proposal is the only one of its round. */
  lemma SubmitProposals(c: Config, s: State, v: Value)
    requires Sound(c) && ProposalsOk(c, s) && s.sent < c.requests
    ensures ProposalsOk(c, SubmitStep(c, s, v))
  {
    Coordinator.AssignedIs(s.sent + 1);
    var i := Coordinator.Assigned(s.sent + 1);
    assert !Issued(s.sent, i) && Issued(s.sent + 1, i);
  }

  lemma SubmitLeaders(c: Config, s: State, v: Value)
    requires LeadersOk(c, s) && JustifiedOk(c, s) && s.sent < c.requests
    ensures LeadersOk(c, SubmitStep(c, s, v)) && JustifiedOk(c, SubmitStep(c, s, v))
  {
    var s' := SubmitStep(c, s, v);
    forall key | key in s'.leaders ensures LeaderOk(c, s'.net, key.0, key.1, s'.leaders[key]) {
      LeaderGrows(c, s.net, s'.net, key.0, key.1, s.leaders[key]);
    }
    forall i: nat, r: nat, v: Value | P2A(i, r, v) in s'.net && r > c.coordRound
      ensures exists q: set<nat>, hv: nat :: SafeAt(c, s'.net, i, r, v, q, hv)
    {
      JustifiedGrows(c, s.net, s'.net, i, r, v);
    }
  }

  lemma SubmitOnce(c: Config, s: State, v: Value)
    requires OnceOk(c, s) && s.sent < c.requests
    ensures OnceOk(c, SubmitStep(c, s, v))
  {
    var s' := SubmitStep(c, s, v);
    forall key | !c.clears && key in s'.leaders && NotBeyond(s', key.0, key.1, key.2) && !s'.leaders[key].finished
      ensures NoRecovery(c, s'.net, key.0)
    {
      assert NotBeyond(s, key.0, key.1, key.2);
    }
  }

  lemma SubmitInv(c: Config, s: State, v: Value)
    requires Sound(c) && Inv(c, s)
    ensures Inv(c, SubmitStep(c, s, v))
  {
    hide AcceptorsOk, VotesOk, PromisesOk, ProposalsOk, LeadersOk, JustifiedOk, OnceOk;
    if s.sent < c.requests {
      SubmitOnce(c, s, v);
      AcceptorsKept(c, s, SubmitStep(c, s, v));
      SubmitProposals(c, s, v);
      SubmitLeaders(c, s, v);
    }
  }

  // ----- an acceptor answers

  lemma DeliverInv(c: Config, s: State, a: nat, m: Msg)
    requires Inv(c, s)
    ensures Inv(c, DeliverStep(c, s, a, m))
  {
    if a < |s.acceptors| && m in s.net {
      var s' := DeliverStep(c, s, a, m);
      DeliverAcceptors(c, s, a, m);
      DeliverPromises(c, s, a, m);
      LeadersKept(c, s, s');
    }
  }

  /** One packet at one acceptor, seen from one instance. */
  lemma DeliverOne(c: Config, s: State, a: nat, m: Msg, b: nat, i: nat)
    requires AcceptorsOk(c, s) && a < c.n && b < c.n && m in s.net
    ensures var s' := DeliverStep(c, s, a, m); var x, y := RegAt(c, s, b, i), RegAt(c, s', b, i);
      && x.rnd <= y.rnd && x.vrnd <= y.vrnd <= y.rnd
      && (y.vrnd >= 1 ==> P2B(i, y.vrnd, b, y.val) in s'.net)
  {
    var s' := DeliverStep(c, s, a, m);
    var x, y := RegAt(c, s, b, i), RegAt(c, s', b, i);
    if y.vrnd == x.vrnd && y.val == x.val && x.vrnd >= 1 {
      assert P2B(i, x.vrnd, b, x.val) in s.net;
    }
  }

  lemma DeliverAcceptors(c: Config, s: State, a: nat, m: Msg)
    requires AcceptorsOk(c, s) && VotesOk(c, s) && a < c.n && m in s.net
    ensures AcceptorsOk(c, DeliverStep(c, s, a, m)) && VotesOk(c, DeliverStep(c, s, a, m))
    ensures var s' := DeliverStep(c, s, a, m);
      forall b: nat, i: nat :: b < c.n ==> RegAt(c, s, b, i).rnd <= RegAt(c, s', b, i).rnd
  {
    var s' := DeliverStep(c, s, a, m);
    forall b: nat, i: nat | b < c.n
      ensures var x, y := RegAt(c, s, b, i), RegAt(c, s', b, i);
        && x.rnd <= y.rnd && x.vrnd <= y.vrnd <= y.rnd
        && (y.vrnd >= 1 ==> P2B(i, y.vrnd, b, y.val) in s'.net)
    {
      DeliverOne(c, s, a, m, b, i);
    }
    forall i: nat, r: nat, b: nat, v: Value | P2B(i, r, b, v) in s'.net
      ensures b < c.n && P2A(i, r, v) in s'.net && r <= RegAt(c, s', b, i).vrnd
    {
      if P2B(i, r, b, v) in s.net { DeliverOne(c, s, a, m, b, i); }
    }
  }

  lemma DeliverPromises(c: Config, s: State, a: nat, m: Msg)
    requires AcceptorsOk(c, s) && VotesOk(c, s) && PromisesOk(c, s) && a < c.n && m in s.net
    requires AcceptorsOk(c, DeliverStep(c, s, a, m))
    ensures PromisesOk(c, DeliverStep(c, s, a, m))
  {
    var s' := DeliverStep(c, s, a, m);
    DeliverAcceptors(c, s, a, m);
    forall i: nat, r: nat, b: nat, k: nat, v: Value | P1B(i, r, b, k, v) in s'.net
      ensures b < c.n && k <= r <= RegAt(c, s', b, i).rnd
      ensures k >= 1 ==> P2B(i, k, b, v) in s'.net
      ensures NothingBetween(s'.net, i, b, k, r)
    {
      if P1B(i, r, b, k, v) in s.net {
        assert NothingBetween(s.net, i, b, k, r);
      }
    }
  }

  // ----- a leader gathers

  /** What one counted reply does to a leader that has not proposed yet. */
  lemma CountKeepsLeader(c: Config, net: set<Msg>, i: nat, r: nat, ld: Leader.State, a: nat, k: nat, v: Value)
    requires LeaderOk(c, net, i, r, ld) && c.raises && !ld.finished
    requires P1B(i, r, a, k, v) in net && a < c.n && r > c.coordRound
    ensures LeaderOk(c, net, i, r, Leader.Count(true, ld, Leader.Reply(a, k, v)))
  {
    var ld' := Leader.Count(true, ld, Leader.Reply(a, k, v));
    forall b | b in ld'.nids ensures Replied(c, net, i, r, b, ld'.hvrnd) {
      if b in ld.nids {
        RepliedGrows(c, net, net, i, r, b, ld.hvrnd, ld'.hvrnd);
      } else {
        assert P1B(i, r, a, k, v) in net && Fits(c, r, r) && k <= ld'.hvrnd;
      }
    }
    assert Reported(net, i, r, k, v);
  }

  /** The value a leader proposes is safe. */
  lemma PickIsSafe(c: Config, s: State, i: nat, r: nat, ld: Leader.State, waiting: Option<Value>)
    requires Inv(c, s) && LeaderOk(c, s.net, i, r, ld) && !ld.finished && r > c.coordRound
    requires |ld.nids| >= Leader.Quorum(c.n)
    ensures SafeAt(c, s.net, i, r, Pick(s, ld, waiting), ld.nids, ld.hvrnd)
  {
    hide AcceptorsOk, ProposalsOk, LeadersOk, JustifiedOk, Replied, NothingBetween;
    if ld.hvrnd >= 1 {
      var r0: nat, a: nat :| P1B(i, r0, a, ld.hvrnd, ld.hval) in s.net && r0 <= r;
      assert P2B(i, ld.hvrnd, a, ld.hval) in s.net;
      assert P2A(i, ld.hvrnd, ld.hval) in s.net;
    }
  }

  /** Where inherited registers come from. */
  lemma {:induction false} InheritedFrom(c: Config, s: State, i: nat, r: nat, l: nat) returns (from: Option<nat>)
    ensures match from
            case None => Inherited(c, s, i, r, l) == Leader.Fresh(c.blank) && forall q: nat :: q < r ==> (i, q, l) !in s.leaders
            case Some(r0) =>
              && r0 < r && (i, r0, l) in s.leaders && Inherited(c, s, i, r, l) == s.leaders[(i, r0, l)]
              && forall q: nat :: r0 < q < r ==> (i, q, l) !in s.leaders
  {
    if r == 0 {
      from := None;
    } else if (i, r - 1, l) in s.leaders {
      from := Some(r - 1);
    } else {
      from := InheritedFrom(c, s, i, r - 1, l);
    }
  }

  /** Registers carried to a higher round, for which nobody has proposed yet, are right there too. */
  lemma CarriedOk(c: Config, net: set<Msg>, i: nat, r0: nat, r: nat, ld: Leader.State)
    requires LeaderOk(c, net, i, r0, ld) && r0 <= r && !c.clears
    requires forall v: Value :: P2A(i, r, v) !in net
    ensures LeaderOk(c, net, i, r, ld)
  {
    forall a | a in ld.nids ensures Replied(c, net, i, r, a, ld.hvrnd) {
      var q: nat, k: nat, w: Value :| P1B(i, q, a, k, w) in net && Fits(c, q, r0) && k <= ld.hvrnd;
      assert Fits(c, q, r);
    }
    if ld.hvrnd >= 1 {
      var q: nat, a: nat :| P1B(i, q, a, ld.hvrnd, ld.hval) in net && q <= r0;
    }
  }

  /**
   A leader that may count for a round has right registers, and where they are carried along it
   has not proposed unless they say so.
   */
  lemma GathererOk(c: Config, s: State, key: (nat, nat, nat))
    requires Sound(c) && Inv(c, s) && Leads(c, s, key.0, key.1, key.2)
    ensures c.raises && c.leaders > 0 && key.2 == Owner(c, key.1) && (!c.clears ==> c.leaders == 1)
    ensures LeaderOk(c, s.net, key.0, key.1, LeaderAt(c, s, key))
    ensures !c.clears && !LeaderAt(c, s, key).finished ==> NoRecovery(c, s.net, key.0)
  {
    hide AcceptorsOk, VotesOk, PromisesOk, JustifiedOk, LeaderOk;
    var i, r, l := key.0, key.1, key.2;
    if key in s.leaders {
    } else if c.clears {
      FreshOk(c, s.net, i, r);
    } else {
      var from := InheritedFrom(c, s, i, r, l);
      match from
      case None =>
        FreshOk(c, s.net, i, r);
        NobodyLed(c, s, i, r, l);
      case Some(r0) =>
        CarriedOk(c, s.net, i, r0, r, s.leaders[(i, r0, l)]);
        assert NotBeyond(s, i, r0, l);
        assert OnceOk(c, s) && (i, r0, l) in s.leaders;
    }
  }

  lemma NobodyLed(c: Config, s: State, i: nat, r: nat, l: nat)
    requires ProposalsOk(c, s) && c.leaders == 1 && l == 0 && NotBeyond(s, i, r, l)
    requires forall q: nat :: q <= r ==> (i, q, l) !in s.leaders
    ensures NoRecovery(c, s.net, i)
  {
    forall r': nat, v: Value | P2A(i, r', v) in s.net ensures r' <= c.coordRound {
      var led := (i, r', Owner(c, r')) in s.leaders;
    }
  }

  lemma FreshOk(c: Config, net: set<Msg>, i: nat, r: nat)
    requires forall v: Value :: P2A(i, r, v) !in net
    ensures LeaderOk(c, net, i, r, Leader.Fresh(c.blank))
  {
  }

  lemma GatherInv(c: Config, s: State, i: nat, r: nat, l: nat, m: Msg, waiting: Option<Value>)
    requires Sound(c) && Inv(c, s)
    ensures Inv(c, GatherStep(c, s, i, r, l, m, waiting))
  {
    hide AcceptorsOk, VotesOk, ProposalsOk, LeadersOk, JustifiedOk, OnceOk, LeaderOk, SafeAt, Leads, LeaderAt, NotBeyond, NoRecovery;
    if Leads(c, s, i, r, l) && m in s.net && m.P1B? && m.inst == i && m.rnd == r {
      var key := (i, r, l);
      var ld := LeaderAt(c, s, key);
      var s' := GatherStep(c, s, i, r, l, m, waiting);
      AcceptorsKept(c, s, s');
      GathererOk(c, s, key);
      LeadsAbove(c, s, i, r, l);
      if !ld.finished && m.acc !in ld.nids {
        ReplierIsAcceptor(c, s, m);
        CountKeepsLeader(c, s.net, i, r, ld, m.acc, m.vrnd, m.val);
        var counted := Leader.Count(true, ld, Leader.Reply(m.acc, m.vrnd, m.val));
        if |counted.nids| >= Leader.Quorum(c.n) {
          PickIsSafe(c, s, i, r, counted, waiting);
          ProposeInv(c, s, s', i, r, Pick(s, counted, waiting), counted);
        } else {
          KeepGathering(c, s, s', key, counted);
        }
      } else {
        KeepGathering(c, s, s', key, ld);
      }
    }
  }

  lemma LeadsAbove(c: Config, s: State, i: nat, r: nat, l: nat)
    requires Leads(c, s, i, r, l)
    ensures r > c.coordRound && (!c.clears ==> NotBeyond(s, i, r, l))
    ensures (i, r, l) in s.leaders && s.leaders[(i, r, l)].finished ==> LeaderAt(c, s, (i, r, l)).finished
  {
  }

  lemma ReplierIsAcceptor(c: Config, s: State, m: Msg)
    requires |s.acceptors| == c.n && PromisesOk(c, s) && m in s.net && m.P1B?
    ensures m.acc < c.n
  {
  }

  lemma KeepGathering(c: Config, s: State, s': State, key: (nat, nat, nat), ld: Leader.State)
    requires Inv(c, s) && s' == s.(leaders := s.leaders[key := ld])
    requires key.1 > c.coordRound && c.leaders > 0 && key.2 == Owner(c, key.1) && LeaderOk(c, s.net, key.0, key.1, ld)
    requires key in s.leaders && s.leaders[key].finished ==> ld.finished
    requires !c.clears ==> c.leaders == 1 && NotBeyond(s, key.0, key.1, key.2) && (!ld.finished ==> NoRecovery(c, s.net, key.0))
    ensures ProposalsOk(c, s') && LeadersOk(c, s') && JustifiedOk(c, s') && OnceOk(c, s')
  {
    hide AcceptorsOk, VotesOk, PromisesOk, LeaderOk, NoRecovery, SafeAt;
    forall k | !c.clears && k in s'.leaders && NotBeyond(s', k.0, k.1, k.2) && !s'.leaders[k].finished
      ensures NoRecovery(c, s'.net, k.0)
    {
      if k.0 == key.0 && k != key {
        assert key in s'.leaders;
      } else if k != key {
        assert NotBeyond(s, k.0, k.1, k.2);
      }
    }
  }

  /** The one leader of a round proposes. */
  lemma ProposeInv(c: Config, s: State, s': State, i: nat, r: nat, v: Value, ld: Leader.State)
    requires Inv(c, s) && LeaderOk(c, s.net, i, r, ld) && !ld.finished
    requires r > c.coordRound && c.leaders > 0
    requires SafeAt(c, s.net, i, r, v, ld.nids, ld.hvrnd)
    requires s' == s.(leaders := s.leaders[(i, r, Owner(c, r)) := ld.(finished := true)], net := s.net + {P2A(i, r, v)})
    requires !c.clears ==> c.leaders == 1 && NotBeyond(s, i, r, Owner(c, r)) && NoRecovery(c, s.net, i)
    ensures ProposalsOk(c, s') && LeadersOk(c, s') && JustifiedOk(c, s') && OnceOk(c, s')
  {
    ProposeLeaders(c, s, s', i, r, v, ld);
    ProposeOnce(c, s, s', i, r, v, ld);
    forall i': nat, r': nat, v': Value | P2A(i', r', v') in s'.net && r' > c.coordRound
      ensures exists q: set<nat>, hv: nat :: SafeAt(c, s'.net, i', r', v', q, hv)
    {
      if P2A(i', r', v') in s.net {
        JustifiedGrows(c, s.net, s'.net, i', r', v');
      } else {
        JustifiedGrows(c, s.net, s'.net, i, r, v);
      }
    }
  }

  lemma ProposeLeaders(c: Config, s: State, s': State, i: nat, r: nat, v: Value, ld: Leader.State)
    requires ProposalsOk(c, s) && LeadersOk(c, s) && LeaderOk(c, s.net, i, r, ld) && !ld.finished
    requires r > c.coordRound && c.leaders > 0
    requires s' == s.(leaders := s.leaders[(i, r, Owner(c, r)) := ld.(finished := true)], net := s.net + {P2A(i, r, v)})
    ensures ProposalsOk(c, s') && LeadersOk(c, s')
  {
    forall key | key in s'.leaders ensures LeaderOk(c, s'.net, key.0, key.1, s'.leaders[key]) {
      if key == (i, r, Owner(c, r)) {
        LeaderGrows(c, s.net, s'.net, i, r, ld.(finished := true));
      } else {
        LeaderGrows(c, s.net, s'.net, key.0, key.1, s.leaders[key]);
      }
    }
  }

  /** A top key that is open is that of another instance, and was top before. */
  lemma OnlyTopIsOpen(s: State, s': State, key: (nat, nat, nat), k: (nat, nat, nat))
    requires key in s'.leaders && s'.leaders[key].finished && s'.leaders.Keys == s.leaders.Keys + {key}
    requires NotBeyond(s, key.0, key.1, key.2)
    requires k in s'.leaders && NotBeyond(s', k.0, k.1, k.2) && !s'.leaders[k].finished && k.2 == key.2
    ensures k.0 != key.0 && NotBeyond(s, k.0, k.1, k.2)
  {
  }

  lemma ProposeOnce(c: Config, s: State, s': State, i: nat, r: nat, v: Value, ld: Leader.State)
    requires OnceOk(c, s) && LeadersOk(c, s)
    requires s' == s.(leaders := s.leaders[(i, r, Owner(c, r)) := ld.(finished := true)], net := s.net + {P2A(i, r, v)})
    requires !c.clears ==> c.leaders == 1 && NotBeyond(s, i, r, Owner(c, r)) && NoRecovery(c, s.net, i)
    ensures OnceOk(c, s')
  {
    hide LeaderOk, NotBeyond;
    forall k | !c.clears && k in s'.leaders && NotBeyond(s', k.0, k.1, k.2) && !s'.leaders[k].finished
      ensures k.0 != i && NoRecovery(c, s'.net, k.0)
    {
      OnlyTopIsOpen(s, s', (i, r, Owner(c, r)), k);
    }
    forall j: nat, q: nat, w: Value, q': nat, w': Value |
      && !c.clears && P2A(j, q, w) in s'.net && P2A(j, q', w') in s'.net
      && q > c.coordRound && q' > c.coordRound
      ensures q == q'
    {
      if j != i {
        assert P2A(j, q, w) in s.net && P2A(j, q', w') in s.net;
      }
    }
  }

  /** Every step of a sound deployment keeps the invariant. */
  lemma StepInv(c: Config, s: State, e: Event)
    requires Sound(c) && Inv(c, s)
    ensures Inv(c, Protocol.Step(c, s, e))
  {
    match e
    case Submit(v) => SubmitInv(c, s, v);
    case Prepare(i, r) => PrepareInv(c, s, i, r);
    case Deliver(a, m) => DeliverInv(c, s, a, m);
    case Gather(i, r, l, m, w) => GatherInv(c, s, i, r, l, m, w);
  }

  /** Every reachable state of a sound deployment satisfies the invariant. */
  lemma {:induction false} RunInv(c: Config, es: seq<Event>)
    requires Sound(c)
    ensures Inv(c, Run(c, es))
  {
    if es == [] {
      InitInv(c);
    } else {
      RunInv(c, es[..|es| - 1]);
      StepInv(c, Run(c, es[..|es| - 1]), es[|es| - 1]);
    }
  }
}
