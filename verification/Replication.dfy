/**
 End to end: replicas of a sound deployment deliver prefixes of one command sequence,
 and equally far replicas hold the same database.
 */
module Replication {
  import opened FiniteSets
  import opened Messages
  import opened Protocol
  import opened ProtocolInvariant
  import Agreement
  import Coordinator
  import Database
  import Delivery
  import Leader
  import Necessity
  import PyLearner
  import Validity

  /** The packets a replica was handed: any 2B packets of the network, in any order, any number of times. */
  ghost predicate Received(c: Config, es: seq<Event>, ms: seq<Msg>)
  {
    forall m :: m in ms ==> m.P2B? && m in Run(c, es).net
  }

  /** A reachable network holds one value per instance and round, voted by real acceptors. */
  lemma VotesHaveOneValue(c: Config, s: State)
    requires Sound(c) && Inv(c, s)
    ensures PyLearner.OneValue(s.net)
    ensures forall i: nat, r: nat, a: nat, v: Value :: P2B(i, r, a, v) in s.net ==> a < c.n
  {
    hide PromisesOk, LeadersOk, JustifiedOk, Sound;
    forall i: nat, r: nat, a: nat, b: nat, v: Value, w: Value | P2B(i, r, a, v) in s.net && P2B(i, r, b, w) in s.net
      ensures v == w
    {
      assert P2A(i, r, v) in s.net && P2A(i, r, w) in s.net;
    }
  }

  /** What a replica holds after the packets ms. */
  function Reached(c: Config, ms: seq<Msg>): Delivery.Replica
    requires forall m :: m in ms ==> m.P2B?
  {
    Delivery.After(Leader.Quorum(c.n), ms)
  }

  ghost predicate Decided(c: Config, net: set<Msg>, i: nat, v: Value)
  {
    exists r: nat :: Chosen(c.n, net, i, r, v)
  }

  /** A replica is in order and what it logged is chosen. */
  lemma ReplicaIsSound(c: Config, es: seq<Event>, ms: seq<Msg>)
    requires Sound(c) && Received(c, es, ms)
    ensures Delivery.InOrder(Reached(c, ms))
    ensures var logs := Reached(c, ms).learner.logs;
      forall i :: i in logs ==> Decided(c, Run(c, es).net, i, logs[i])
  {
    hide Sound, Inv, Run, Chosen, Delivery.After, Delivery.InOrder, PyLearner.Sound, PyLearner.OneValue;
    var net := Run(c, es).net;
    RunInv(c, es);
    VotesHaveOneValue(c, Run(c, es));
    Delivery.RunKeepsOrder(Leader.Quorum(c.n), ms);
    Delivery.LearnerOf(Leader.Quorum(c.n), ms);
    PyLearner.RunIsSound(c.n, net, ms);
    var ln := Reached(c, ms).learner;
    forall i | i in ln.logs ensures Decided(c, net, i, ln.logs[i]) {
      PyLearner.LoggedIsChosen(c.n, net, ln, i);
    }
  }

  /** A run decides one value per instance. */
  lemma OneDecision(c: Config, es: seq<Event>, i: nat, v: Value, w: Value)
    requires Sound(c) && Decided(c, Run(c, es).net, i, v) && Decided(c, Run(c, es).net, i, w)
    ensures v == w
  {
    hide Sound, Run, Chosen;
    Agreement.SoundAgrees(c);
    assert Agrees(c, Run(c, es));
  }

  /** The commands behind a sequence of values; decoding is a parameter. */
  function Commands(decode: Value -> Database.Command, vs: seq<Value>): seq<Database.Command>
  {
    seq(|vs|, i requires 0 <= i < |vs| => decode(vs[i]))
  }

  /** Replica consistency in every run. */
  lemma ReplicasAgree(c: Config, es: seq<Event>, ms: seq<Msg>, ms': seq<Msg>, decode: Value -> Database.Command)
    requires Sound(c) && Received(c, es, ms) && Received(c, es, ms')
    ensures var d, d' := Reached(c, ms).delivered, Reached(c, ms').delivered;
      && (d <= d' || d' <= d)
      && (|d| == |d'| ==> Database.Replay(Commands(decode, d)) == Database.Replay(Commands(decode, d')))
  {
    hide Sound, Run, Decided, Delivery.After, Delivery.InOrder, Commands, Database.Replay;
    var rp, rp' := Reached(c, ms), Reached(c, ms');
    ReplicaIsSound(c, es, ms);
    ReplicaIsSound(c, es, ms');
    forall i | i in rp.learner.logs && i in rp'.learner.logs ensures rp.learner.logs[i] == rp'.learner.logs[i] {
      OneDecision(c, es, i, rp.learner.logs[i], rp'.learner.logs[i]);
    }
    Delivery.PrefixComparable(rp, rp');
    if |rp.delivered| == |rp'.delivered| {
      assert rp.delivered == rp'.delivered;
    }
  }

  /** In every run the command sequences of any two replicas are prefixes of one another. */
  ghost predicate AlwaysConsistent(c: Config)
  {
    forall es: seq<Event>, ms: seq<Msg>, ms': seq<Msg> :: Received(c, es, ms) && Received(c, es, ms') ==>
      Reached(c, ms).delivered <= Reached(c, ms').delivered || Reached(c, ms').delivered <= Reached(c, ms).delivered
  }

  /** A replica that has counted the votes of the acceptors ids, less than a quorum, all for v in round r of instance i. */
  ghost predicate Counting(c: Config, rp: Delivery.Replica, i: nat, r: nat, ids: set<nat>, v: Value)
  {
    if ids == {} then rp == Delivery.START
    else rp == Delivery.Replica(PyLearner.Learner(map[i := PyLearner.LearnerState(r, ids, Some(v), false)], map[]), 1, 1, [])
  }

  lemma CountOne(c: Config, rp: Delivery.Replica, i: nat, r: nat, ids: set<nat>, a: nat, v: Value)
    requires Counting(c, rp, i, r, ids, v) && a !in ids && |ids| + 1 < Leader.Quorum(c.n)
    ensures Counting(c, Delivery.AfterPacket(Leader.Quorum(c.n), rp, P2B(i, r, a, v)), i, r, ids + {a}, v)
  {
    AddOne(ids, a);
    assert ids != {} || ids + {a} == {a};
  }

  /** The vote that completes the quorum delivers the value of instance 1. */
  lemma LastVoteDelivers(c: Config, rp: Delivery.Replica, r: nat, ids: set<nat>, a: nat, v: Value)
    requires Counting(c, rp, 1, r, ids, v) && a !in ids && |ids| + 1 == Leader.Quorum(c.n)
    ensures Delivery.AfterPacket(Leader.Quorum(c.n), rp, P2B(1, r, a, v)).delivered == [v]
  {
    AddOne(ids, a);
    assert ids != {} || ids + {a} == {a};
    assert Delivery.Advance(map[1 := v], 1, 1) == 2;
    assert Delivery.Entries(map[1 := v], 1, 2) == [v];
  }

  /** The vote that completes the quorum of instance 0 ends the replica as written. */
  lemma LastVoteEnds(c: Config, rp: Delivery.Replica, r: nat, ids: set<nat>, a: nat, v: Value)
    requires Counting(c, rp, 0, r, ids, v) && a !in ids && |ids| + 1 == Leader.Quorum(c.n)
    ensures Delivery.Ends(Leader.Quorum(c.n), rp, P2B(0, r, a, v))
  {
    AddOne(ids, a);
    assert ids != {} || ids + {a} == {a};
  }

  /** The votes of less than a quorum of acceptors, in some order. */
  lemma {:induction false} DeliverVotes(c: Config, i: nat, r: nat, ids: set<nat>, v: Value) returns (ms: seq<Msg>)
    requires |ids| < Leader.Quorum(c.n)
    ensures forall m :: m in ms ==> m.P2B? && m.inst == i && m.rnd == r && m.val == v && m.acc in ids
    ensures Counting(c, Reached(c, ms), i, r, ids, v)
    decreases ids
  {
    if ids == {} {
      ms := [];
    } else {
      var a :| a in ids;
      var ms0 := DeliverVotes(c, i, r, ids - {a}, v);
      assert ids == (ids - {a}) + {a};
      ms := ms0 + [P2B(i, r, a, v)];
      Delivery.OneMore(Leader.Quorum(c.n), ms0, P2B(i, r, a, v));
      hide Delivery.After, Delivery.AfterPacket, Counting;
      CountOne(c, Reached(c, ms0), i, r, ids - {a}, a, v);
    }
  }

  lemma QuorumOfVotes(n: nat, net: set<Msg>, i: nat, r: nat, v: Value) returns (ids: set<nat>)
    requires Chosen(n, net, i, r, v)
    ensures |ids| == Leader.Quorum(n) && forall a :: a in ids ==> P2B(i, r, a, v) in net
  {
    ids := SubsetOfSize(Voters(n, net, i, r, v), Leader.Quorum(n));
  }

  /** A quorum of votes is enough for a replica to deliver a value chosen for instance 1. */
  lemma VotesDeliver(c: Config, es: seq<Event>, r: nat, v: Value) returns (ms: seq<Msg>)
    requires c.n >= 1 && Chosen(c.n, Run(c, es).net, 1, r, v)
    ensures Received(c, es, ms) && Reached(c, ms).delivered == [v]
  {
    hide Run, Chosen, Delivery.After, Delivery.AfterPacket, Counting;
    var ids := QuorumOfVotes(c.n, Run(c, es).net, 1, r, v);
    var a :| a in ids;
    var ms0 := DeliverVotes(c, 1, r, ids - {a}, v);
    ms := ms0 + [P2B(1, r, a, v)];
    Delivery.OneMore(Leader.Quorum(c.n), ms0, P2B(1, r, a, v));
    LastVoteDelivers(c, Reached(c, ms0), r, ids - {a}, a, v);
  }

  /**
   The exact condition end to end: two acceptors or more keep all replicas consistent in
   every run if and only if the deployment is sound.
   */
  lemma ConsistentIffSound(c: Config)
    requires c.n >= 2 && c.requests >= 1
    ensures AlwaysConsistent(c) <==> Sound(c)
  {
    hide Run, Chosen, Reached, Sound;
    if Sound(c) {
      forall es: seq<Event>, ms: seq<Msg>, ms': seq<Msg> | Received(c, es, ms) && Received(c, es, ms')
        ensures Reached(c, ms).delivered <= Reached(c, ms').delivered || Reached(c, ms').delivered <= Reached(c, ms).delivered
      {
        ReplicasAgree(c, es, ms, ms', (_: Value) => Database.Other);
      }
    } else {
      var es, v, w := Necessity.UnsoundSplits(c);
      var r: nat :| Chosen(c.n, Run(c, es).net, 1, r, v);
      var r': nat :| Chosen(c.n, Run(c, es).net, 1, r', w);
      var ms := VotesDeliver(c, es, r, v);
      var ms' := VotesDeliver(c, es, r', w);
      assert Reached(c, ms).delivered[0] != Reached(c, ms').delivered[0];
    }
  }

  /** The j-th delivered command is the value chosen for instance j, and a client submitted it or it is the initial value. */
  lemma DeliveredIsChosen(c: Config, es: seq<Event>, ms: seq<Msg>, j: nat)
    requires Sound(c) && Received(c, es, ms)
    requires 1 <= j <= |Reached(c, ms).delivered|
    ensures var v := Reached(c, ms).delivered[j - 1];
      && (exists r: nat :: Chosen(c.n, Run(c, es).net, j, r, v))
      && (v in Run(c, es).clients || v == c.blank)
  {
    hide Run, Chosen, Delivery.After, Delivery.Entries;
    var rp := Reached(c, ms);
    ReplicaIsSound(c, es, ms);
    Delivery.DeliveredAt(rp, j);
    var v := rp.delivered[j - 1];
    assert Decided(c, Run(c, es).net, j, v);
    var r: nat :| Chosen(c.n, Run(c, es).net, j, r, v);
    Validity.ChosenIsGenuine(c, es, j, r, v);
  }

  // ----- replicas as they are written

  /** In no run does the learner as written raise on a vote of a newer round. */
  ghost predicate LearnerNeverRaises(c: Config)
  {
    forall es: seq<Event>, ms: seq<Msg> :: Received(c, es, ms) ==> PyLearner.AsWritten(Leader.Quorum(c.n), ms).Some?
  }

  /** Votes that a run without recovery delivers for one instance or another are all of the coordinator's round. */
  lemma VotesOfOneRound(c: Config, es: seq<Event>, ms: seq<Msg>)
    requires Sound(c) && c.leaders == 0 && Received(c, es, ms)
    ensures PyLearner.AsWritten(Leader.Quorum(c.n), ms).Some?
  {
    hide Run, Sound;
    forall m | m in ms ensures m.rnd == c.coordRound {
      Agreement.OneVoteValue(c, es, m.inst, m.rnd, m.acc, m.val, m.rnd, m.acc, m.val);
    }
    PyLearner.OneRoundNeverRaises(Leader.Quorum(c.n), ms, c.coordRound);
  }

  /** With recovery some replica receives votes of two rounds. */
  lemma TwoRoundsReceived(c: Config) returns (es: seq<Event>, ms: seq<Msg>)
    requires Sound(c) && c.n >= 2 && c.requests >= 1 && c.leaders >= 1
    ensures Received(c, es, ms) && PyLearner.AsWritten(Leader.Quorum(c.n), ms) == None
  {
    hide Run, PyLearner.AsWritten;
    var v, cr := c.blank, c.coordRound;
    es := Necessity.LoneVote(c, v);
    ms := [P2B(1, cr, 0, v), P2B(1, cr + 1, 1, v)];
    PyLearner.SecondRoundRaises(Leader.Quorum(c.n), 1, cr, 0, v, cr + 1, 1, v);
  }

  /** For the name that is not in scope alone: in a sound deployment no learner meets it if and only if no leader ever recovers. */
  lemma LearnerNeverRaisesIffNoRecovery(c: Config)
    requires Sound(c) && c.n >= 2 && c.requests >= 1
    ensures LearnerNeverRaises(c) <==> c.leaders == 0
  {
    hide Run, PyLearner.AsWritten;
    if c.leaders == 0 {
      forall es: seq<Event>, ms: seq<Msg> | Received(c, es, ms) ensures PyLearner.AsWritten(Leader.Quorum(c.n), ms).Some? {
        VotesOfOneRound(c, es, ms);
      }
    } else {
      var es, ms := TwoRoundsReceived(c);
    }
  }

  /** In no run does a replica as written end. */
  ghost predicate NeverEnds(c: Config)
  {
    forall es: seq<Event>, ms: seq<Msg> :: Received(c, es, ms) ==> Delivery.Written(Leader.Quorum(c.n), ms).Some?
  }

  /** Nobody votes in instance 0 without recovery before all its requests are accepted. */
  lemma NoVoteInInstanceZero(c: Config, es: seq<Event>, r: nat, a: nat, v: Value)
    requires Sound(c) && c.leaders == 0 && c.requests < Coordinator.INSTANCES
    ensures P2B(0, r, a, v) !in Run(c, es).net
  {
    hide Run, AcceptorsOk, PromisesOk, JustifiedOk, OnceOk;
    RunInv(c, es);
    assert P2A(0, r, v) !in Run(c, es).net;
  }

  /** The single coordinator's votes, none of them in instance 0, end no replica. */
  lemma OneCoordinatorNeverEnds(c: Config, es: seq<Event>, ms: seq<Msg>)
    requires Sound(c) && c.leaders == 0 && c.requests < Coordinator.INSTANCES && Received(c, es, ms)
    ensures Delivery.Written(Leader.Quorum(c.n), ms).Some?
  {
    hide Run, Sound, Inv, Delivery.Written, Delivery.After, Delivery.InOrder;
    hide PyLearner.AsWritten, PyLearner.Learned, PyLearner.Raises, PyLearner.Sound, PyLearner.OneValue, PyLearner.AfterVote;
    var q, net := Leader.Quorum(c.n), Run(c, es).net;
    VotesOfOneRound(c, es, ms);
    PyLearner.AsWrittenIsMeant(q, ms);
    RunInv(c, es);
    VotesHaveOneValue(c, Run(c, es));
    Delivery.WrittenIsMeant(q, ms);
    forall p | 0 <= p < |ms| ensures !Delivery.Ends(q, Delivery.After(q, ms[..p]), ms[p]) {
      assert ms[p] in ms && ms[p] in net;
      Delivery.LearnerOf(q, ms[..p]);
      Delivery.RunKeepsOrder(q, ms[..p]);
      Delivery.OnlyInstanceZeroIsSkipped(q, Delivery.After(q, ms[..p]), ms[p]);
      NoVoteInInstanceZero(c, es, ms[p].rnd, ms[p].acc, ms[p].val);
    }
  }

  /** All 65536 requests: a quorum of votes of instance 0 ends a replica. */
  lemma InstanceZeroEnds(c: Config) returns (es: seq<Event>, ms: seq<Msg>)
    requires c.n >= 1 && c.requests >= Coordinator.INSTANCES
    ensures Received(c, es, ms) && Delivery.Written(Leader.Quorum(c.n), ms) == None
  {
    hide Run, Delivery.After, Delivery.Written, Delivery.Ends, Counting;
    var q, cr, v := Leader.Quorum(c.n), c.coordRound, c.blank;
    es := Necessity.InstanceZeroVotes(c, v);
    SpanSize(0, q - 1);
    var ms0 := DeliverVotes(c, 0, cr, Span(0, q - 1), v);
    var m := P2B(0, cr, q - 1, v);
    ms := ms0 + [m];
    forall m' | m' in ms ensures m'.P2B? && m' in Run(c, es).net {
      assert m' == P2B(0, cr, m'.acc, v) && m'.acc < q;
    }
    LastVoteEnds(c, Reached(c, ms0), cr, Span(0, q - 1), q - 1, v);
    Delivery.WrittenIsMeant(q, ms);
    assert ms[..|ms0|] == ms0 && ms[|ms0|] == m;
  }

  /**
   The exact condition: in a sound deployment no replica as written ever ends if and only
   if no leader ever recovers and not all 65536 requests are accepted.
   */
  lemma NeverEndsIff(c: Config)
    requires Sound(c) && c.n >= 2 && c.requests >= 1
    ensures NeverEnds(c) <==> c.leaders == 0 && c.requests < Coordinator.INSTANCES
  {
    hide Run, PyLearner.AsWritten, Delivery.Written;
    if c.leaders >= 1 {
      var es, ms := TwoRoundsReceived(c);
      Delivery.WrittenCoversRaises(Leader.Quorum(c.n), ms);
    } else if c.requests >= Coordinator.INSTANCES {
      var es, ms := InstanceZeroEnds(c);
    } else {
      forall es: seq<Event>, ms: seq<Msg> | Received(c, es, ms) ensures Delivery.Written(Leader.Quorum(c.n), ms).Some? {
        OneCoordinatorNeverEnds(c, es, ms);
      }
    }
  }
}
