/**
 Why each condition on a deployment is needed: with two acceptors or more, a deployment
 agrees in all its runs exactly when it is sound. The other direction is a concrete way
 to choose two values for instance 1 for each condition that fails.
 */
module Necessity {
  import opened FiniteSets
  import opened Messages
  import opened Acceptor
  import opened Protocol
  import opened ProtocolInvariant
  import opened Agreement
  import Coordinator
  import Leader
  import Probing

  lemma RunMore(c: Config, es: seq<Event>, e: Event)
    ensures Run(c, es + [e]) == Protocol.Step(c, Run(c, es), e)
  {
    assert (es + [e])[..|es|] == es;
  }

  /** An acceptor's registers of instance i. */
  function RegOf(c: Config, i: nat, acceptors: seq<Registers>, a: nat): Reg
    requires a < |acceptors|
  {
    At(acceptors[a], i, c.blank)
  }

  // ----- what a range of acceptors can be made to do

  ghost predicate AllVoted(net: set<Msg>, i: nat, lo: nat, hi: nat, r: nat, v: Value)
  {
    forall a: nat :: lo <= a < hi ==> P2B(i, r, a, v) in net
  }

  /** Acceptors lo to hi - 1 have voted for v in round r; the others and the leaders are where they were. */
  ghost predicate Voted(c: Config, i: nat, s: State, s': State, lo: nat, hi: nat, r: nat, v: Value)
  {
    && |s.acceptors| == |s'.acceptors| == c.n
    && s'.leaders == s.leaders && s.net <= s'.net
    && AllVoted(s'.net, i, lo, hi, r, v)
    && (forall a: nat :: lo <= a < hi && a < c.n ==> RegOf(c, i, s'.acceptors, a) == Reg(r, r, v))
    && (forall a: nat :: a < c.n && !(lo <= a < hi) ==> RegOf(c, i, s'.acceptors, a) == RegOf(c, i, s.acceptors, a))
  }

  lemma {:induction false} VoteAll(c: Config, es: seq<Event>, i: nat, lo: nat, hi: nat, r: nat, v: Value) returns (es': seq<Event>)
    requires lo <= hi <= c.n && |Run(c, es).acceptors| == c.n && P2A(i, r, v) in Run(c, es).net
    requires forall a: nat :: lo <= a < hi ==> RegOf(c, i, Run(c, es).acceptors, a).rnd <= r
    ensures Voted(c, i, Run(c, es), Run(c, es'), lo, hi, r, v)
    decreases hi
  {
    es' := es;
    if lo < hi {
      var es0 := VoteAll(c, es, i, lo, hi - 1, r, v);
      var e := Deliver(hi - 1, P2A(i, r, v));
      RunMore(c, es0, e);
      es' := es0 + [e];
      hide Run;
      VoteOne(c, i, Run(c, es), Run(c, es0), Run(c, es'), lo, hi, r, v);
    }
  }

  lemma VoteOne(c: Config, i: nat, s: State, s0: State, s': State, lo: nat, hi: nat, r: nat, v: Value)
    requires lo < hi <= c.n && Voted(c, i, s, s0, lo, hi - 1, r, v)
    requires P2A(i, r, v) in s.net && RegOf(c, i, s.acceptors, hi - 1).rnd <= r
    requires s' == DeliverStep(c, s0, hi - 1, P2A(i, r, v))
    ensures Voted(c, i, s, s', lo, hi, r, v)
  {
    assert RegOf(c, i, s0.acceptors, hi - 1) == RegOf(c, i, s.acceptors, hi - 1);
    assert s'.net == s0.net + {P2B(i, r, hi - 1, v)};
    forall a: nat | lo <= a < hi ensures P2B(i, r, a, v) in s'.net {
      if a < hi - 1 { assert P2B(i, r, a, v) in s0.net; }
    }
    forall a: nat | lo <= a < hi ensures RegOf(c, i, s'.acceptors, a) == Reg(r, r, v) {
      if a < hi - 1 { assert RegOf(c, i, s0.acceptors, a) == Reg(r, r, v); }
    }
  }

  /** Acceptors lo to hi - 1 have promised round r and reported their registers. */
  ghost predicate Promised(c: Config, s: State, s': State, lo: nat, hi: nat, r: nat)
  {
    && |s.acceptors| == |s'.acceptors| == c.n
    && s'.clients == s.clients && s'.leaders == s.leaders && s.net <= s'.net
    && (forall a: nat :: lo <= a < hi && a < c.n ==> RegOf(c, 1, s'.acceptors, a) == RegOf(c, 1, s.acceptors, a).(rnd := r))
    && (forall a: nat :: lo <= a < hi && a < c.n ==> P1B(1, r, a, RegOf(c, 1, s.acceptors, a).vrnd, RegOf(c, 1, s.acceptors, a).val) in s'.net)
    && (forall a: nat :: a < c.n && !(lo <= a < hi) ==> RegOf(c, 1, s'.acceptors, a) == RegOf(c, 1, s.acceptors, a))
  }

  lemma {:induction false} PromiseAll(c: Config, es: seq<Event>, lo: nat, hi: nat, r: nat) returns (es': seq<Event>)
    requires lo <= hi <= c.n && |Run(c, es).acceptors| == c.n && P1A(1, r) in Run(c, es).net
    requires forall a: nat :: lo <= a < hi ==> RegOf(c, 1, Run(c, es).acceptors, a).rnd <= r
    ensures Promised(c, Run(c, es), Run(c, es'), lo, hi, r)
    decreases hi
  {
    es' := es;
    if lo < hi {
      var es0 := PromiseAll(c, es, lo, hi - 1, r);
      var e := Deliver(hi - 1, P1A(1, r));
      RunMore(c, es0, e);
      es' := es0 + [e];
      hide Run;
      PromiseOne(c, Run(c, es), Run(c, es0), Run(c, es'), lo, hi, r);
    }
  }

  lemma PromiseOne(c: Config, s: State, s0: State, s': State, lo: nat, hi: nat, r: nat)
    requires lo < hi <= c.n && Promised(c, s, s0, lo, hi - 1, r)
    requires P1A(1, r) in s.net && RegOf(c, 1, s.acceptors, hi - 1).rnd <= r
    requires s' == DeliverStep(c, s0, hi - 1, P1A(1, r))
    ensures Promised(c, s, s', lo, hi, r)
  {
  }

  /** Acceptors that never voted have said so. */
  lemma SilentReports(c: Config, s: State, s': State, lo: nat, hi: nat, r: nat, x: nat, y: nat)
    requires Promised(c, s, s', lo, hi, r) && lo <= x <= y <= hi <= c.n
    requires forall a: nat :: x <= a < y ==> RegOf(c, 1, s.acceptors, a).vrnd == 0 && RegOf(c, 1, s.acceptors, a).val == c.blank
    ensures forall a: nat :: x <= a < y ==> P1B(1, r, a, 0, c.blank) in s'.net
  {
    forall a: nat | x <= a < y ensures P1B(1, r, a, 0, c.blank) in s'.net {
      assert RegOf(c, 1, s'.acceptors, a) == RegOf(c, 1, s.acceptors, a).(rnd := r);
    }
  }

  /** A single voter reports its vote. */
  lemma VoterReports(c: Config, s: State, s': State, lo: nat, hi: nat, r: nat, a: nat)
    requires Promised(c, s, s', lo, hi, r) && lo <= a < hi <= c.n
    ensures P1B(1, r, a, RegOf(c, 1, s.acceptors, a).vrnd, RegOf(c, 1, s.acceptors, a).val) in s'.net
  {
    assert RegOf(c, 1, s'.acceptors, a) == RegOf(c, 1, s.acceptors, a).(rnd := r);
  }

  lemma RangeChooses(c: Config, net: set<Msg>, lo: nat, hi: nat, r: nat, v: Value)
    requires lo + Leader.Quorum(c.n) <= hi <= c.n
    requires AllVoted(net, 1, lo, hi, r, v)
    ensures Chosen(c.n, net, 1, r, v)
  {
    SpanSize(lo, hi);
    SubsetSize(Span(lo, hi), Voters(c.n, net, 1, r, v));
  }

  /** A range of a quorum or more votes: its value is chosen. */
  lemma RangeVotes(c: Config, es: seq<Event>, lo: nat, hi: nat, r: nat, v: Value) returns (es': seq<Event>)
    requires lo + Leader.Quorum(c.n) <= hi <= c.n && |Run(c, es).acceptors| == c.n && P2A(1, r, v) in Run(c, es).net
    requires forall a: nat :: lo <= a < hi ==> RegOf(c, 1, Run(c, es).acceptors, a).rnd <= r
    ensures Voted(c, 1, Run(c, es), Run(c, es'), lo, hi, r, v)
    ensures Chosen(c.n, Run(c, es').net, 1, r, v)
  {
    es' := VoteAll(c, es, 1, lo, hi, r, v);
    hide Run, Chosen;
    RangeChooses(c, Run(c, es').net, lo, hi, r, v);
  }

  lemma StaysChosen(n: nat, net: set<Msg>, net': set<Msg>, i: nat, r: nat, v: Value)
    requires net <= net' && Chosen(n, net, i, r, v)
    ensures Chosen(n, net', i, r, v)
  {
    SubsetSize(Voters(n, net, i, r, v), Voters(n, net', i, r, v));
  }

  // ----- what a leader can be made to hear, in instance 1

  lemma OwnerIsLeader(c: Config, r: nat)
    requires c.leaders >= 1
    ensures Owner(c, r) < c.leaders
  {
  }

  /** Leader l has led no round of instance 1 and may lead round r. */
  ghost predicate NewAt(c: Config, s: State, r: nat, l: nat)
  {
    && l < c.leaders && r > c.coordRound && (c.exclusive ==> l == Owner(c, r))
    && forall key :: key in s.leaders && key.0 == 1 ==> key.2 != l
  }

  lemma NewLeader(c: Config, s: State, r: nat, l: nat)
    requires NewAt(c, s, r, l)
    ensures LeaderAt(c, s, (1, r, l)) == Leader.Fresh(c.blank)
    ensures Leads(c, s, 1, r, l)
  {
    var from := InheritedFrom(c, s, 1, r, l);
  }

  lemma AtKey(c: Config, s: State, r: nat, l: nat, ld: Leader.State)
    requires (1, r, l) in s.leaders && s.leaders[(1, r, l)] == ld
    ensures LeaderAt(c, s, (1, r, l)) == ld
  {
  }

  function Finished(c: Config, ld: Leader.State): Leader.State
  {
    if |ld.nids| >= Leader.Quorum(c.n) then ld.(finished := true) else ld
  }

  /** One reply reaches leader l. */
  lemma HearOne(c: Config, es: seq<Event>, r: nat, l: nat, a: nat, k: nat, w: Value) returns (es': seq<Event>)
    requires var s := Run(c, es); var ld := LeaderAt(c, s, (1, r, l));
      && Leads(c, s, 1, r, l) && P1B(1, r, a, k, w) in s.net && !ld.finished && a !in ld.nids
    ensures var s, s' := Run(c, es), Run(c, es'); var ld := LeaderAt(c, s, (1, r, l));
      var ld' := Leader.Count(c.raises, ld, Leader.Reply(a, k, w));
      && s'.clients == s.clients && s'.acceptors == s.acceptors && s.net <= s'.net
      && s'.leaders == s.leaders[(1, r, l) := Finished(c, ld')]
      && (|ld'.nids| >= Leader.Quorum(c.n) ==> P2A(1, r, ld'.hval) in s'.net)
      && Leads(c, s', 1, r, l)
  {
    var e := Gather(1, r, l, P1B(1, r, a, k, w), None);
    RunMore(c, es, e);
    es' := es + [e];
    hide Run, LeaderAt;
  }

  /** The leader registers after hearing acceptors lo to hi - 1, none of which ever voted. */
  ghost function Silent(c: Config, ld: Leader.State, lo: nat, hi: nat): Leader.State
  {
    Leader.State(ld.nids + Span(lo, hi), ld.hvrnd, if lo < hi && ld.hvrnd == 0 then c.blank else ld.hval, false)
  }

  /** Leader l hears acceptors lo to hi - 1, none of which ever voted, and proposes when that completes a quorum. */
  lemma {:induction false} HearSilent(c: Config, es: seq<Event>, r: nat, l: nat, ld: Leader.State, lo: nat, hi: nat)
    returns (es': seq<Event>)
    requires lo < hi && ld == LeaderAt(c, Run(c, es), (1, r, l)) && !ld.finished && Leads(c, Run(c, es), 1, r, l)
    requires forall a: nat :: lo <= a < hi ==> P1B(1, r, a, 0, c.blank) in Run(c, es).net && a !in ld.nids
    requires |ld.nids| + hi - lo <= Leader.Quorum(c.n)
    ensures var s, s' := Run(c, es), Run(c, es'); var ld' := Silent(c, ld, lo, hi);
      && s'.clients == s.clients && s'.acceptors == s.acceptors && s.net <= s'.net
      && s'.leaders == s.leaders[(1, r, l) := Finished(c, ld')]
      && |ld'.nids| == |ld.nids| + hi - lo
      && (|ld'.nids| == Leader.Quorum(c.n) ==> P2A(1, r, ld'.hval) in s'.net)
      && Leads(c, s', 1, r, l)
    decreases hi
  {
    hide Run, Leads, LeaderAt, Silent, Leader.Count;
    SilentIsOpen(c, ld, lo, hi - 1);
    if lo == hi - 1 {
      SilentMore(c, ld, ld, lo, hi);
      es' := HearOne(c, es, r, l, lo, 0, c.blank);
    } else {
      var es0 := HearSilent(c, es, r, l, ld, lo, hi - 1);
      var ld0 := Silent(c, ld, lo, hi - 1);
      AtKey(c, Run(c, es0), r, l, ld0);
      SilentMore(c, ld, ld0, lo, hi);
      es' := HearOne(c, es0, r, l, hi - 1, 0, c.blank);
    }
  }

  lemma SilentIsOpen(c: Config, ld: Leader.State, lo: nat, hi: nat)
    ensures !Silent(c, ld, lo, hi).finished
  {
  }

  lemma SilentMore(c: Config, ld: Leader.State, ld0: Leader.State, lo: nat, hi: nat)
    requires lo < hi && !ld.finished && forall a: nat :: lo <= a < hi ==> a !in ld.nids
    requires ld0 == if lo < hi - 1 then Silent(c, ld, lo, hi - 1) else ld
    ensures hi - 1 !in ld0.nids
    ensures Leader.Count(c.raises, ld0, Leader.Reply(hi - 1, 0, c.blank)) == Silent(c, ld, lo, hi)
    ensures |Silent(c, ld, lo, hi).nids| == |ld0.nids| + 1
  {
    NidsMore(ld.nids, lo, hi);
    var before, after := ld.nids + Span(lo, hi - 1), ld.nids + Span(lo, hi);
    hide Span;
    if lo == hi - 1 {
      assert before == ld.nids;
    }
    assert ld0.nids == before && before + {hi - 1} == after;
  }

  lemma NidsMore(nids: set<nat>, lo: nat, hi: nat)
    requires lo < hi && forall a: nat :: lo <= a < hi ==> a !in nids
    ensures hi - 1 !in nids + Span(lo, hi - 1)
    ensures nids + Span(lo, hi) == nids + Span(lo, hi - 1) + {hi - 1}
    ensures |nids + Span(lo, hi)| == |nids + Span(lo, hi - 1)| + 1
    ensures lo == hi - 1 ==> nids + Span(lo, hi - 1) == nids
  {
    SpanMore(lo, hi);
    var before := Span(lo, hi - 1);
    hide Span;
    UnionOne(nids, before, hi - 1);
    AddOne(nids + before, hi - 1);
  }

  lemma UnionOne(a: set<nat>, b: set<nat>, x: nat)
    ensures (a + b) + {x} == a + (b + {x})
  {
  }

  /** A new leader hears a quorum of acceptors that never voted, and proposes the initial value. */
  lemma SilentQuorum(c: Config, es: seq<Event>, r: nat, l: nat, lo: nat, hi: nat) returns (es': seq<Event>)
    requires lo < hi && hi - lo == Leader.Quorum(c.n) && NewAt(c, Run(c, es), r, l)
    requires forall a: nat :: lo <= a < hi ==> P1B(1, r, a, 0, c.blank) in Run(c, es).net
    ensures Hears(Run(c, es), Run(c, es'), r, l) && P2A(1, r, c.blank) in Run(c, es').net
  {
    hide Run, LeaderAt, Leads, Owner;
    NewLeader(c, Run(c, es), r, l);
    es' := HearSilent(c, es, r, l, Leader.Fresh(c.blank), lo, hi);
  }

  /** A new leader hears one acceptor that reports (k, w), and then silent ones that complete the quorum. */
  lemma VoterThenSilent(c: Config, es: seq<Event>, r: nat, l: nat, a: nat, k: nat, w: Value, lo: nat, hi: nat)
    returns (es': seq<Event>)
    requires lo < hi && 1 + hi - lo == Leader.Quorum(c.n) && !(lo <= a < hi) && NewAt(c, Run(c, es), r, l)
    requires P1B(1, r, a, k, w) in Run(c, es).net
    requires forall a: nat :: lo <= a < hi ==> P1B(1, r, a, 0, c.blank) in Run(c, es).net
    ensures Hears(Run(c, es), Run(c, es'), r, l)
    ensures P2A(1, r, if c.raises && k > 0 then w else c.blank) in Run(c, es').net
  {
    hide Run, LeaderAt, Leads, Owner;
    NewLeader(c, Run(c, es), r, l);
    var es0 := HearOne(c, es, r, l, a, k, w);
    var ld := Leader.State({a}, if c.raises then k else 0, w, false);
    assert Leader.Count(c.raises, Leader.Fresh(c.blank), Leader.Reply(a, k, w)) == ld;
    AtKey(c, Run(c, es0), r, l, ld);
    es' := HearSilent(c, es0, r, l, ld, lo, hi);
  }

  /** Only the registers of leader l for round r change, and packets are added. */
  ghost predicate Hears(s: State, s': State, r: nat, l: nat)
  {
    && s'.acceptors == s.acceptors && s.net <= s'.net
    && s'.leaders.Keys == s.leaders.Keys + {(1, r, l)}
    && forall key :: key in s.leaders && key != (1, r, l) ==> s'.leaders[key] == s.leaders[key]
  }

  // ----- openings

  /** A client value for instance 1, and a 1A for the round after the coordinator's. */
  lemma Opening(c: Config, v: Value) returns (es: seq<Event>)
    requires c.requests >= 1
    ensures var s := Run(c, es);
      && |s.acceptors| == c.n && s.leaders == map[] && v in s.clients
      && P2A(1, c.coordRound, v) in s.net && P1A(1, c.coordRound + 1) in s.net
      && forall a: nat :: a < c.n ==> RegOf(c, 1, s.acceptors, a) == Reg(0, 0, c.blank)
  {
    var e1, e2 := Submit(v), Prepare(1, c.coordRound + 1);
    es := [e1, e2];
    RunMore(c, [], e1);
    RunMore(c, [e1], e2);
    assert [] + [e1] == [e1] && [e1] + [e2] == es;
    assert Coordinator.Assigned(1) == 1;
  }

  lemma Prepares(c: Config, es: seq<Event>, r: nat) returns (es': seq<Event>)
    requires r > c.coordRound
    ensures Run(c, es') == Run(c, es).(net := Run(c, es).net + {P1A(1, r)})
  {
    RunMore(c, es, Prepare(1, r));
    es' := es + [Prepare(1, r)];
  }

  /** Two values, each chosen for instance 1. */
  ghost predicate Split(c: Config, es: seq<Event>, v: Value, w: Value)
  {
    v != w && (exists r: nat :: Chosen(c.n, Run(c, es).net, 1, r, v)) && (exists r: nat :: Chosen(c.n, Run(c, es).net, 1, r, w))
  }

  lemma Splits(c: Config, es: seq<Event>, net: set<Msg>, r: nat, v: Value, r': nat, w: Value)
    requires v != w && net <= Run(c, es).net && Chosen(c.n, net, 1, r, v) && Chosen(c.n, Run(c, es).net, 1, r', w)
    ensures Split(c, es, v, w)
  {
    StaysChosen(c.n, net, Run(c, es).net, 1, r, v);
  }

  // ----- one run for each condition

  /** An even number of acceptors: one half chooses, and the leader hears the other half. */
  lemma EvenDisagrees(c: Config) returns (es: seq<Event>, v: Value, w: Value)
    requires c.n >= 2 && c.n % 2 == 0 && c.requests >= 1 && c.leaders >= 1
    ensures Split(c, es, v, w)
  {
    hide Run, Chosen, Split, Owner;
    v, w := c.blank + [1], c.blank;
    var cr, q := c.coordRound, Leader.Quorum(c.n);
    OwnerIsLeader(c, cr + 1);
    es := Opening(c, v);
    es := RangeVotes(c, es, 0, q, cr, v);
    var s := Run(c, es);
    es := PromiseAll(c, es, q, c.n, cr + 1);
    SilentReports(c, s, Run(c, es), q, c.n, cr + 1, q, c.n);
    es := SilentQuorum(c, es, cr + 1, Owner(c, cr + 1), q, c.n);
    es := RangeVotes(c, es, q, c.n, cr + 1, w);
    Splits(c, es, s.net, cr, v, cr + 1, w);
  }

  /**
   Rounds that start at 0, or a leader that does not raise its bar: after v is
   chosen, a leader hears one voter first and then only acceptors that never voted.
   */
  lemma LowBarDisagrees(c: Config) returns (es: seq<Event>, v: Value, w: Value)
    requires c.n >= 3 && c.n % 2 == 1 && c.requests >= 1 && c.leaders >= 1 && (c.coordRound == 0 || !c.raises)
    ensures Split(c, es, v, w)
  {
    hide Run, Chosen, Split, Owner;
    v, w := c.blank + [1], c.blank;
    var cr, q := c.coordRound, Leader.Quorum(c.n);
    OwnerIsLeader(c, cr + 1);
    es := Opening(c, v);
    es := RangeVotes(c, es, 0, q, cr, v);
    var s := Run(c, es);
    es := PromiseAll(c, es, q - 1, c.n, cr + 1);
    VoterReports(c, s, Run(c, es), q - 1, c.n, cr + 1, q - 1);
    SilentReports(c, s, Run(c, es), q - 1, c.n, cr + 1, q, c.n);
    es := VoterThenSilent(c, es, cr + 1, Owner(c, cr + 1), q - 1, cr, v, q, c.n);
    es := RangeVotes(c, es, q - 1, c.n, cr + 1, w);
    Splits(c, es, s.net, cr, v, cr + 1, w);
  }

  /** Two leaders in one round: one hears no vote, the other hears the only one. */
  lemma TwoLeadersDisagree(c: Config) returns (es: seq<Event>, v: Value, w: Value)
    requires c.n >= 3 && c.n % 2 == 1 && c.requests >= 1 && c.coordRound >= 1 && c.raises
    requires c.leaders >= 2 && !c.exclusive
    ensures Split(c, es, v, w)
  {
    hide Run, Chosen, Split, Owner;
    v, w := c.blank + [1], c.blank;
    var cr, q := c.coordRound, Leader.Quorum(c.n);
    es := Opening(c, v);
    es := VoteAll(c, es, 1, 0, 1, cr, v);
    var s := Run(c, es);
    es := PromiseAll(c, es, 0, c.n, cr + 1);
    VoterReports(c, s, Run(c, es), 0, c.n, cr + 1, 0);
    SilentReports(c, s, Run(c, es), 0, c.n, cr + 1, 1, c.n);
    es := SilentQuorum(c, es, cr + 1, 0, 1, q + 1);
    es := VoterThenSilent(c, es, cr + 1, 1, 0, cr, v, 1, q);
    es := RangeVotes(c, es, 0, q, cr + 1, v);
    var net := Run(c, es).net;
    es := RangeVotes(c, es, 0, q, cr + 1, w);
    Splits(c, es, net, cr + 1, v, cr + 1, w);
  }

  /**
   Counts carried to a higher round, first part: a leader hears all but one of a
   quorum, acceptors 1 to q - 1, none of which ever voted.
   */
  lemma StaleCounts(c: Config, v: Value) returns (es: seq<Event>)
    requires c.n >= 3 && c.n % 2 == 1 && c.requests >= 1 && c.leaders >= 2
    ensures var s, q, r1 := Run(c, es), Leader.Quorum(c.n), c.coordRound + 1;
      && |s.acceptors| == c.n && s.leaders.Keys == {(1, r1, Owner(c, r1))}
      && Stale(c, s.leaders[(1, r1, Owner(c, r1))])
      && RegOf(c, 1, s.acceptors, q) == Reg(c.coordRound, c.coordRound, v)
      && forall a: nat :: a < q ==> RegOf(c, 1, s.acceptors, a) == Reg(if a == 0 then 0 else r1, 0, c.blank)
  {
    hide Run, LeaderAt, Leads, Owner;
    var cr, q := c.coordRound, Leader.Quorum(c.n);
    OwnerIsLeader(c, cr + 1);
    es := Opening(c, v);
    es := VoteAll(c, es, 1, q, q + 1, cr, v);
    var s := Run(c, es);
    es := PromiseAll(c, es, 1, q, cr + 1);
    SilentReports(c, s, Run(c, es), 1, q, cr + 1, 1, q);
    NewLeader(c, Run(c, es), cr + 1, Owner(c, cr + 1));
    es := HearSilent(c, es, cr + 1, Owner(c, cr + 1), Leader.Fresh(c.blank), 1, q);
  }

  /** All but one of a quorum have been heard, and none had voted. */
  ghost predicate Stale(c: Config, ld: Leader.State)
  {
    !ld.finished && ld.hvrnd == 0 && ld.hval == c.blank && 0 !in ld.nids && |ld.nids| == Leader.Quorum(c.n) - 1
  }

  /** Second part: these acceptors and a voter let another leader's round choose the voter's value. */
  lemma ChosenMeanwhile(c: Config, v: Value) returns (es: seq<Event>)
    requires c.n >= 3 && c.n % 2 == 1 && c.requests >= 1 && c.leaders >= 2 && c.coordRound >= 1 && c.raises
    ensures var s, q, r1, r2 := Run(c, es), Leader.Quorum(c.n), c.coordRound + 1, c.coordRound + 2;
      && |s.acceptors| == c.n && s.leaders.Keys == {(1, r1, Owner(c, r1)), (1, r2, Owner(c, r2))}
      && Stale(c, s.leaders[(1, r1, Owner(c, r1))])
      && Chosen(c.n, s.net, 1, r2, v)
      && RegOf(c, 1, s.acceptors, 0) == Reg(0, 0, c.blank)
      && forall a: nat :: 1 <= a < q ==> RegOf(c, 1, s.acceptors, a).rnd == r2
  {
    hide Run, Chosen, Owner, Stale;
    var cr, q, r2 := c.coordRound, Leader.Quorum(c.n), c.coordRound + 2;
    Owners(c, cr + 1);
    es := StaleCounts(c, v);
    es := Prepares(c, es, r2);
    var s := Run(c, es);
    es := PromiseAll(c, es, 1, q + 1, r2);
    VoterReports(c, s, Run(c, es), 1, q + 1, r2, q);
    SilentReports(c, s, Run(c, es), 1, q + 1, r2, 1, q);
    es := VoterThenSilent(c, es, r2, Owner(c, r2), q, cr, v, 1, q);
    es := RangeVotes(c, es, 1, q + 1, r2, v);
  }

  /** Third part: the first leader moves on, and one more silent acceptor completes its stale quorum. */
  lemma CarriedCountsDisagree(c: Config) returns (es: seq<Event>, v: Value, w: Value)
    requires c.n >= 3 && c.n % 2 == 1 && c.requests >= 1 && c.coordRound >= 1 && c.raises
    requires c.leaders >= 2 && c.exclusive && !c.clears
    ensures Split(c, es, v, w)
  {
    hide Run, Chosen, Split, LeaderAt, Leads, Owner;
    v, w := c.blank + [1], c.blank;
    var q, r1, r2 := Leader.Quorum(c.n), c.coordRound + 1, c.coordRound + 2;
    var p, r3 := Owner(c, r1), r1 + c.leaders;
    Owners(c, r1);
    es := ChosenMeanwhile(c, v);
    var net, stale := Run(c, es).net, Run(c, es).leaders[(1, r1, p)];
    es := Prepares(c, es, r3);
    var s := Run(c, es);
    es := PromiseAll(c, es, 0, 1, r3);
    SilentReports(c, s, Run(c, es), 0, 1, r3, 0, 1);
    StaleRegisters(c, Run(c, es), r1, r2, r3, p, Owner(c, r2), stale);
    es := HearSilent(c, es, r3, p, stale, 0, 1);
    es := RangeVotes(c, es, 0, q, r3, w);
    Splits(c, es, net, r2, v, r3, w);
  }

  lemma Owners(c: Config, r: nat)
    requires c.leaders >= 2
    ensures Owner(c, r) != Owner(c, r + 1) && Owner(c, r) == Owner(c, r + c.leaders)
    ensures Owner(c, r) < c.leaders && Owner(c, r + 1) < c.leaders
  {
    NextOwner(r, c.leaders);
  }

  lemma NextOwner(r: nat, n: nat)
    requires n >= 2
    ensures r % n != (r + 1) % n && (r + n) % n == r % n
  {
    Probing.SameRemainder(r, r + 1, n);
    Probing.AddMultiple(r, 1, n);
    assert 1 % n == 1;
  }

  lemma StaleRegisters(c: Config, s: State, r1: nat, r2: nat, r3: nat, p: nat, p': nat, stale: Leader.State)
    requires r1 < r2 < r3 && p != p' && !c.clears
    requires s.leaders.Keys == {(1, r1, p), (1, r2, p')} && s.leaders[(1, r1, p)] == stale
    requires r1 > c.coordRound && p < c.leaders && p == Owner(c, r3)
    ensures LeaderAt(c, s, (1, r3, p)) == stale && Leads(c, s, 1, r3, p)
  {
    var from := InheritedFrom(c, s, 1, r3, p);
  }

  /** k requests, all for v, before any acceptor hears of one. */
  lemma {:induction false} ManyRequests(c: Config, v: Value, k: nat) returns (es: seq<Event>)
    requires k <= c.requests
    ensures Run(c, es).sent == k && Run(c, es).acceptors == Init(c).acceptors
    ensures k >= 1 ==> P2A(1, c.coordRound, v) in Run(c, es).net
  {
    if k == 0 {
      es := [];
    } else {
      es := ManyRequests(c, v, k - 1);
      RunMore(c, es, Submit(v));
      es := es + [Submit(v)];
      assert Coordinator.Assigned(1) == 1;
    }
  }

  /** With all 65536 requests accepted, the last one gets instance 0, and a quorum votes for it. */
  lemma InstanceZeroVotes(c: Config, v: Value) returns (es: seq<Event>)
    requires c.n >= 1 && c.requests >= Coordinator.INSTANCES
    ensures AllVoted(Run(c, es).net, 0, 0, Leader.Quorum(c.n), c.coordRound, v)
  {
    hide Run, Coordinator.Assigned;
    es := ManyRequests(c, v, Coordinator.INSTANCES - 1);
    RunMore(c, es, Submit(v));
    es := es + [Submit(v)];
    Coordinator.AssignedIs(Coordinator.INSTANCES);
    es := VoteAll(c, es, 0, 0, Leader.Quorum(c.n), c.coordRound, v);
  }

  /** One request too many gets the instance of the first. */
  lemma WrapAroundDisagrees(c: Config) returns (es: seq<Event>, v: Value, w: Value)
    requires c.n >= 1 && c.requests > Coordinator.INSTANCES
    ensures Split(c, es, v, w)
  {
    hide Run, Chosen, Split, Coordinator.Assigned;
    v, w := [0], [1];
    var cr, q := c.coordRound, Leader.Quorum(c.n);
    es := ManyRequests(c, v, Coordinator.INSTANCES);
    RunMore(c, es, Submit(w));
    es := es + [Submit(w)];
    Coordinator.AssignedIs(Coordinator.INSTANCES + 1);
    es := RangeVotes(c, es, 0, q, cr, v);
    var net := Run(c, es).net;
    es := RangeVotes(c, es, 0, q, cr, w);
    Splits(c, es, net, cr, v, cr, w);
  }

  /** Every unsound deployment of two acceptors or more has a run that chooses two values. */
  lemma UnsoundSplits(c: Config) returns (es: seq<Event>, v: Value, w: Value)
    requires c.n >= 2 && c.requests >= 1 && !Sound(c)
    ensures Split(c, es, v, w)
  {
    hide Split;
    if c.requests > Coordinator.INSTANCES {
      es, v, w := WrapAroundDisagrees(c);
    } else if c.n % 2 == 0 {
      es, v, w := EvenDisagrees(c);
    } else if c.coordRound == 0 || !c.raises {
      es, v, w := LowBarDisagrees(c);
    } else if !c.exclusive {
      es, v, w := TwoLeadersDisagree(c);
    } else {
      es, v, w := CarriedCountsDisagree(c);
    }
  }

  /** The exact condition: two acceptors or more agree in every run if and only if the deployment is sound. */
  lemma AgreesIffSound(c: Config)
    requires c.n >= 2 && c.requests >= 1
    ensures AlwaysAgrees(c) <==> Sound(c)
  {
    hide Run, Chosen;
    if Sound(c) {
      SoundAgrees(c);
    } else {
      var es, v, w := UnsoundSplits(c);
      assert !Agrees(c, Run(c, es));
    }
  }

  /**
   With recovery, a lone vote may be left behind: acceptor 0 votes for the client value,
   then a leader hears a quorum of the others, which vote for the initial value.
   */
  lemma LoneVote(c: Config, v: Value) returns (es: seq<Event>)
    requires c.n >= 3 && c.n % 2 == 1 && c.requests >= 1 && c.leaders >= 1
    ensures var net, cr := Run(c, es).net, c.coordRound;
      && P2B(1, cr, 0, v) in net
      && AllVoted(net, 1, 1, Leader.Quorum(c.n) + 1, cr + 1, c.blank)
  {
    hide Run, Chosen, Owner;
    var cr, q := c.coordRound, Leader.Quorum(c.n);
    OwnerIsLeader(c, cr + 1);
    es := Opening(c, v);
    es := VoteAll(c, es, 1, 0, 1, cr, v);
    var s := Run(c, es);
    es := PromiseAll(c, es, 1, q + 1, cr + 1);
    SilentReports(c, s, Run(c, es), 1, q + 1, cr + 1, 1, q + 1);
    es := SilentQuorum(c, es, cr + 1, Owner(c, cr + 1), 1, q + 1);
    es := VoteAll(c, es, 1, 1, q + 1, cr + 1, c.blank);
  }
}
