/**
 Safety is not bought by doing nothing: every deployment, sound or not, has runs in which
 a client's value is chosen and delivered, with the coordinator alone and by recovery.
 */
module Progress {
  import opened FiniteSets
  import opened Messages
  import opened Protocol
  import opened Necessity
  import Leader
  import Replication

  /** A value sent to the coordinator can be delivered as the first command. */
  lemma RequestCanBeDelivered(c: Config, v: Value) returns (es: seq<Event>, ms: seq<Msg>)
    requires c.n >= 1 && c.requests >= 1
    ensures Replication.Received(c, es, ms) && Replication.Reached(c, ms).delivered == [v]
    ensures Chosen(c.n, Run(c, es).net, 1, c.coordRound, v)
  {
    hide Run, Chosen, Replication.Received, Replication.Reached;
    es := Opening(c, v);
    es := RangeVotes(c, es, 0, Leader.Quorum(c.n), c.coordRound, v);
    ms := Replication.VotesDeliver(c, es, c.coordRound, v);
  }

  /** A client's value is waiting, and a quorum of acceptors that never voted has promised the next round. */
  lemma PreparedRound(c: Config, v: Value) returns (es: seq<Event>)
    requires c.n >= 1 && c.requests >= 1
    ensures var s, r := Run(c, es), c.coordRound + 1;
      && |s.acceptors| == c.n && s.leaders == map[] && v in s.clients
      && (forall a: nat :: a < Leader.Quorum(c.n) ==> RegOf(c, 1, s.acceptors, a).rnd == r)
      && (forall a: nat :: a < Leader.Quorum(c.n) ==> P1B(1, r, a, 0, c.blank) in s.net)
  {
    hide Run;
    es := Opening(c, v);
    var s, q, r := Run(c, es), Leader.Quorum(c.n), c.coordRound + 1;
    es := PromiseAll(c, es, 0, q, r);
    SilentReports(c, s, Run(c, es), 0, q, r, 0, q);
  }

  /** All but one of the replies that a quorum needs have been counted. */
  lemma AllButOne(c: Config, es: seq<Event>, r: nat, l: nat) returns (es': seq<Event>)
    requires c.n >= 1 && Run(c, es).leaders == map[] && NewAt(c, Run(c, es), r, l)
    requires forall a: nat :: a < Leader.Quorum(c.n) ==> P1B(1, r, a, 0, c.blank) in Run(c, es).net
    ensures var s, s' := Run(c, es), Run(c, es'); var ld := LeaderAt(c, s', (1, r, l));
      && s'.clients == s.clients && s'.acceptors == s.acceptors && s.net <= s'.net
      && !ld.finished && ld.hvrnd == 0 && |ld.nids| == Leader.Quorum(c.n) - 1
      && (forall a :: a in ld.nids ==> a < Leader.Quorum(c.n) - 1)
      && Leads(c, s', 1, r, l)
  {
    hide Run, LeaderAt, Leads, NewAt;
    var q := Leader.Quorum(c.n);
    NewLeader(c, Run(c, es), r, l);
    es' := es;
    if q > 1 {
      var ld := Leader.Fresh(c.blank);
      es' := HearSilent(c, es, r, l, ld, 0, q - 1);
      AtKey(c, Run(c, es'), r, l, Silent(c, ld, 0, q - 1));
    }
  }

  /** The reply that completes a quorum of acceptors without a vote lets the leader propose a waiting value. */
  lemma ProposesWaiting(c: Config, s: State, r: nat, l: nat, a: nat, v: Value)
    requires var ld := LeaderAt(c, s, (1, r, l));
      && !ld.finished && ld.hvrnd == 0 && a !in ld.nids && |ld.nids| + 1 == Leader.Quorum(c.n)
    requires Leads(c, s, 1, r, l) && v in s.clients && P1B(1, r, a, 0, c.blank) in s.net
    ensures var s' := GatherStep(c, s, 1, r, l, P1B(1, r, a, 0, c.blank), Some(v));
      s'.acceptors == s.acceptors && P2A(1, r, v) in s'.net
  {
    hide Leads, LeaderAt;
  }

  /** A leader that hears of no vote can have a client's value chosen and delivered in its own round. */
  lemma RecoveryCanDeliver(c: Config, v: Value) returns (es: seq<Event>, ms: seq<Msg>)
    requires c.n >= 1 && c.requests >= 1 && c.leaders >= 1
    ensures Replication.Received(c, es, ms) && Replication.Reached(c, ms).delivered == [v]
    ensures Chosen(c.n, Run(c, es).net, 1, c.coordRound + 1, v)
  {
    hide Run, Chosen, Replication.Received, Replication.Reached, Owner, LeaderAt, Leads;
    var r, q := c.coordRound + 1, Leader.Quorum(c.n);
    var l := Owner(c, r);
    OwnerIsLeader(c, r);
    es := PreparedRound(c, v);
    es := AllButOne(c, es, r, l);
    var e := Gather(1, r, l, P1B(1, r, q - 1, 0, c.blank), Some(v));
    ProposesWaiting(c, Run(c, es), r, l, q - 1, v);
    RunMore(c, es, e);
    es := RangeVotes(c, es + [e], 0, q, r, v);
    ms := Replication.VotesDeliver(c, es, r, v);
  }
}
