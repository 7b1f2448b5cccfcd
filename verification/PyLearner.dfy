/**
 The learner of the replicas: per instance it collects 2B votes of the newest round
 and logs the value once a majority has voted.
 */
module PyLearner {
  import opened FiniteSets
  import opened Messages
  import opened Protocol
  import Leader

  datatype LearnerState = LearnerState(crnd: nat, nids: set<nat>, val: Option<Value>, finished: bool)

  datatype Learner = Learner(states: map<nat, LearnerState>, logs: map<nat, Value>)

  datatype Decision = Decision(inst: nat, val: Value)

  const EMPTY: Learner := Learner(map[], map[])

  function FreshState(crnd: nat): LearnerState
  {
    LearnerState(crnd, {}, None, false)
  }

  /** The state that a vote of round crnd is counted in. */
  function Current(ln: Learner, inst: nat, crnd: nat): LearnerState
  {
    var st := if inst in ln.states then ln.states[inst] else FreshState(crnd);
    if !st.finished && st.crnd < crnd then FreshState(crnd) else st
  }

  /** A vote counts when its instance is open, its round is the newest, and its acceptor has not voted in it. */
  predicate Counts(ln: Learner, m: Msg)
    requires m.P2B?
  {
    var st := Current(ln, m.inst, m.rnd);
    !st.finished && st.crnd == m.rnd && m.acc !in st.nids
  }

  function AfterVote(quorum: nat, ln: Learner, m: Msg): (Learner, Option<Decision>)
    requires m.P2B?
  {
    if !Counts(ln, m) then (ln, None)
    else
      var st := Current(ln, m.inst, m.rnd);
      var nids, val := st.nids + {m.acc}, (if st.val.None? then m.val else st.val.value);
      var done := |nids| >= quorum;
      (Learner(ln.states[m.inst := LearnerState(st.crnd, nids, Some(val), done)],
               if done then ln.logs[m.inst := val] else ln.logs),
       if done then Some(Decision(m.inst, val)) else None)
  }

  function Learned(quorum: nat, ms: seq<Msg>): Learner
    requires forall m :: m in ms ==> m.P2B?
  {
    if ms == [] then EMPTY else AfterVote(quorum, Learned(quorum, ms[..|ms| - 1]), ms[|ms| - 1]).0
  }

  lemma LearnedMore(quorum: nat, ms: seq<Msg>, m: Msg)
    requires m.P2B? && forall m' :: m' in ms ==> m'.P2B?
    ensures Learned(quorum, ms + [m]) == AfterVote(quorum, Learned(quorum, ms), m).0
  {
    assert (ms + [m])[..|ms|] == ms;
  }

  // ----- the learner as it is written

  /** A vote of a newer round for an open instance: here the program names a class that is not in scope, and ends. */
  predicate Raises(ln: Learner, m: Msg)
    requires m.P2B?
  {
    m.inst in ln.states && !ln.states[m.inst].finished && ln.states[m.inst].crnd < m.rnd
  }

  /** The learner as written, with no result once it has raised. */
  function AsWritten(quorum: nat, ms: seq<Msg>): Option<Learner>
    requires forall m :: m in ms ==> m.P2B?
  {
    if ms == [] then Some(EMPTY)
    else
      match AsWritten(quorum, ms[..|ms| - 1])
      case None => None
      case Some(ln) => if Raises(ln, ms[|ms| - 1]) then None else Some(AfterVote(quorum, ln, ms[|ms| - 1]).0)
  }

  ghost predicate NoneRaises(quorum: nat, ms: seq<Msg>)
    requires forall m :: m in ms ==> m.P2B?
  {
    forall p :: 0 <= p < |ms| ==> !Raises(Learned(quorum, ms[..p]), ms[p])
  }

  lemma NoneRaisesMore(quorum: nat, ms: seq<Msg>)
    requires ms != [] && forall m :: m in ms ==> m.P2B?
    ensures var k := |ms| - 1;
      NoneRaises(quorum, ms) <==> NoneRaises(quorum, ms[..k]) && !Raises(Learned(quorum, ms[..k]), ms[k])
  {
    hide Learned, Raises;
    var k := |ms| - 1;
    forall p | 0 <= p < k
      ensures Raises(Learned(quorum, ms[..k][..p]), ms[..k][p]) <==> Raises(Learned(quorum, ms[..p]), ms[p])
    {
      assert ms[..k][p] == ms[p] && ms[..k][..p] == ms[..p];
    }
    if !NoneRaises(quorum, ms[..k]) {
      var p :| 0 <= p < k && Raises(Learned(quorum, ms[..k][..p]), ms[..k][p]);
      assert Raises(Learned(quorum, ms[..p]), ms[p]);
    }
  }

  /** The learner as written and the one meant agree on a stream if and only if no packet of it raises. */
  lemma {:induction false} AsWrittenIsMeant(quorum: nat, ms: seq<Msg>)
    requires forall m :: m in ms ==> m.P2B?
    ensures AsWritten(quorum, ms) == if NoneRaises(quorum, ms) then Some(Learned(quorum, ms)) else None
  {
    hide NoneRaises, Raises, AfterVote;
    if ms != [] {
      NoneRaisesMore(quorum, ms);
      AsWrittenIsMeant(quorum, ms[..|ms| - 1]);
    } else {
      NoPackets(quorum);
    }
  }

  lemma NoPackets(quorum: nat)
    ensures NoneRaises(quorum, [])
  {
  }

  /** Two packets that raise: votes of two rounds, where one vote is not a majority. */
  lemma SecondRoundRaises(quorum: nat, i: nat, r: nat, a: nat, v: Value, r': nat, b: nat, w: Value)
    requires quorum >= 2 && r < r'
    ensures AsWritten(quorum, [P2B(i, r, a, v), P2B(i, r', b, w)]) == None
  {
    var one, two := P2B(i, r, a, v), P2B(i, r', b, w);
    assert [one, two][..1] == [one] && [one][..0] == [];
    var ln := AfterVote(quorum, EMPTY, one).0;
    assert AsWritten(quorum, [one]) == Some(ln);
    assert |{a}| == 1;
    assert ln.states[i] == LearnerState(r, {a}, Some(v), false);
  }

  /** Votes of a single round never raise. */
  lemma {:induction false} OneRoundNeverRaises(quorum: nat, ms: seq<Msg>, r: nat)
    requires forall m :: m in ms ==> m.P2B? && m.rnd == r
    ensures AsWritten(quorum, ms).Some?
    ensures forall i :: i in AsWritten(quorum, ms).value.states ==> AsWritten(quorum, ms).value.states[i].crnd == r
  {
    if ms != [] { OneRoundNeverRaises(quorum, ms[..|ms| - 1], r); }
  }

  /** Exactly the finished instances are logged. */
  ghost predicate Orderly(ln: Learner)
  {
    forall i :: i in ln.logs <==> i in ln.states && ln.states[i].finished
  }

  /** Whatever the vote, a decision is for an instance not decided before, and changes no other entry. */
  lemma StepStaysOrderly(quorum: nat, ln: Learner, m: Msg)
    requires Orderly(ln) && m.P2B?
    ensures Orderly(AfterVote(quorum, ln, m).0)
    ensures match AfterVote(quorum, ln, m)
            case (ln', None) => ln'.logs == ln.logs
            case (ln', Some(d)) => d.inst == m.inst && d.inst !in ln.logs && ln'.logs == ln.logs[d.inst := d.val]
  {
  }

  lemma {:induction false} RunIsOrderly(quorum: nat, ms: seq<Msg>)
    requires forall m :: m in ms ==> m.P2B?
    ensures Orderly(Learned(quorum, ms))
  {
    if ms != [] {
      RunIsOrderly(quorum, ms[..|ms| - 1]);
      StepStaysOrderly(quorum, Learned(quorum, ms[..|ms| - 1]), ms[|ms| - 1]);
    }
  }

  /** Votes of one round of one instance all carry one value. */
  ghost predicate OneValue(net: set<Msg>)
  {
    forall i: nat, r: nat, a: nat, b: nat, v: Value, w: Value ::
      P2B(i, r, a, v) in net && P2B(i, r, b, w) in net ==> v == w
  }

  /** Everything counted for instance i was voted, by distinct acceptors, in one round, for one value. */
  ghost predicate Tallied(n: nat, net: set<Msg>, logs: map<nat, Value>, i: nat, st: LearnerState)
  {
    && st.val.Some?
    && st.nids != {}
    && (forall a :: a in st.nids ==> P2B(i, st.crnd, a, st.val.value) in net)
    && if st.finished then |st.nids| >= Leader.Quorum(n) && i in logs && logs[i] == st.val.value else i !in logs
  }

  ghost predicate Sound(n: nat, net: set<Msg>, ln: Learner)
  {
    && (forall i :: i in ln.states ==> Tallied(n, net, ln.logs, i, ln.states[i]))
    && (forall i :: i in ln.logs ==> i in ln.states)
  }

  /** A vote that counts carries the value counted so far. */
  lemma CountedForOneValue(n: nat, net: set<Msg>, ln: Learner, m: Msg)
    requires OneValue(net) && Sound(n, net, ln) && m in net && m.P2B? && Counts(ln, m)
    ensures m.inst !in ln.logs
    ensures var st := Current(ln, m.inst, m.rnd);
      && (st.val.Some? ==> st.val.value == m.val)
      && forall a :: a in st.nids ==> P2B(m.inst, m.rnd, a, m.val) in net
  {
    var st := Current(ln, m.inst, m.rnd);
    if st.nids != {} {
      var a :| a in st.nids;
      assert Tallied(n, net, ln.logs, m.inst, st);
      assert P2B(m.inst, m.rnd, a, st.val.value) in net;
    }
  }

  /** One vote keeps the learner sound; a decision is for an instance not decided before, and changes no other entry. */
  lemma StepStaysSound(n: nat, net: set<Msg>, ln: Learner, m: Msg)
    requires OneValue(net) && Sound(n, net, ln) && m in net && m.P2B?
    ensures Sound(n, net, AfterVote(Leader.Quorum(n), ln, m).0)
    ensures match AfterVote(Leader.Quorum(n), ln, m)
            case (ln', None) => ln'.logs == ln.logs
            case (ln', Some(d)) => d.inst == m.inst && d.inst !in ln.logs && ln'.logs == ln.logs[d.inst := d.val]
  {
    if Counts(ln, m) {
      CountedForOneValue(n, net, ln, m);
      hide Counts, Current;
      var ln' := AfterVote(Leader.Quorum(n), ln, m).0;
      assert Tallied(n, net, ln'.logs, m.inst, ln'.states[m.inst]);
      forall i | i in ln'.states && i != m.inst ensures Tallied(n, net, ln'.logs, i, ln'.states[i]) {
        assert Tallied(n, net, ln.logs, i, ln.states[i]);
      }
    }
  }

  lemma {:induction false} RunIsSound(n: nat, net: set<Msg>, ms: seq<Msg>)
    requires OneValue(net) && forall m :: m in ms ==> m in net && m.P2B?
    ensures Sound(n, net, Learned(Leader.Quorum(n), ms))
  {
    if ms != [] {
      RunIsSound(n, net, ms[..|ms| - 1]);
      StepStaysSound(n, net, Learned(Leader.Quorum(n), ms[..|ms| - 1]), ms[|ms| - 1]);
    }
  }

  /** Entries of the log are never rewritten. */
  lemma {:induction false} LogsGrow(quorum: nat, ms: seq<Msg>, p: nat, i: nat)
    requires p <= |ms| && forall m :: m in ms ==> m.P2B?
    requires i in Learned(quorum, ms[..p]).logs
    ensures i in Learned(quorum, ms).logs
    ensures Learned(quorum, ms).logs[i] == Learned(quorum, ms[..p]).logs[i]
    decreases |ms|
  {
    if p < |ms| {
      var rest := ms[..|ms| - 1];
      assert rest[..p] == ms[..p];
      LogsGrow(quorum, rest, p, i);
      RunIsOrderly(quorum, rest);
      StepStaysOrderly(quorum, Learned(quorum, rest), ms[|ms| - 1]);
    } else {
      assert ms[..p] == ms;
    }
  }

  /** Every logged value was voted by a majority of distinct acceptors in one single round. */
  lemma LoggedIsChosen(n: nat, net: set<Msg>, ln: Learner, i: nat)
    requires Sound(n, net, ln) && i in ln.logs
    requires forall j: nat, r: nat, a: nat, v: Value :: P2B(j, r, a, v) in net ==> a < n
    ensures exists r: nat :: Chosen(n, net, i, r, ln.logs[i])
  {
    var st := ln.states[i];
    assert Tallied(n, net, ln.logs, i, st);
    assert st.nids <= Voters(n, net, i, st.crnd, ln.logs[i]);
    SubsetSize(st.nids, Voters(n, net, i, st.crnd, ln.logs[i]));
    assert Chosen(n, net, i, st.crnd, ln.logs[i]);
  }

  // ----- the objects of the program

  datatype ProposerState = ProposerState(crnd: nat, leader: Leader.State)

  // The 1B replies of an instance: only those of the round its first reply had are counted.

  /** The round of the first 1B packet of instance i. */
  ghost predicate FirstRound(ms: seq<Msg>, i: nat, r: nat)
  {
    exists q: nat :: q < |ms| && ms[q].P1B? && ms[q].inst == i && ms[q].rnd == r
                     && forall q' :: 0 <= q' < q ==> !(ms[q'].P1B? && ms[q'].inst == i)
  }

  /** The 1B replies of instance i for round r, in order. */
  function Replies(ms: seq<Msg>, i: nat, r: nat): seq<Leader.Reply>
  {
    if ms == [] then []
    else
      var m := ms[|ms| - 1];
      Replies(ms[..|ms| - 1], i, r) + if m.P1B? && m.inst == i && m.rnd == r then [Leader.Reply(m.acc, m.vrnd, m.val)] else []
  }

  lemma RepliesMore(ms: seq<Msg>, m: Msg, i: nat, r: nat)
    ensures Replies(ms + [m], i, r) ==
      Replies(ms, i, r) + if m.P1B? && m.inst == i && m.rnd == r then [Leader.Reply(m.acc, m.vrnd, m.val)] else []
  {
    assert (ms + [m])[..|ms|] == ms;
  }

  lemma {:induction false} NoReplies(ms: seq<Msg>, i: nat, r: nat)
    requires forall m :: m in ms ==> !(m.P1B? && m.inst == i)
    ensures Replies(ms, i, r) == []
  {
    if ms != [] { NoReplies(ms[..|ms| - 1], i, r); }
  }

  lemma FirstRoundMore(ms: seq<Msg>, m: Msg, i: nat, r: nat)
    ensures FirstRound(ms, i, r) ==> FirstRound(ms + [m], i, r)
    ensures (forall x :: x in ms ==> !(x.P1B? && x.inst == i)) && m.P1B? && m.inst == i && m.rnd == r ==> FirstRound(ms + [m], i, r)
  {
    var all := ms + [m];
    assert forall q :: 0 <= q < |ms| ==> all[q] == ms[q] && ms[q] in ms;
    assert all[|ms|] == m;
  }

  /** The proposer state of instance i is the one that its replies of its first round lead to. */
  ghost predicate Follows(quorum: nat, blank: Value, ms: seq<Msg>, states: map<nat, ProposerState>, i: nat)
  {
    if i in states then
      && FirstRound(ms, i, states[i].crnd)
      && states[i].leader == Leader.Gathered(quorum, false, blank, Replies(ms, i, states[i].crnd))
    else
      forall m :: m in ms ==> !(m.P1B? && m.inst == i)
  }

  function Heard(quorum: nat, st: ProposerState, m: Msg): ProposerState
    requires m.P1B?
  {
    if st.crnd == m.rnd then
      ProposerState(st.crnd, Leader.Collect(quorum, false, st.leader, Leader.Reply(m.acc, m.vrnd, m.val)).0)
    else st
  }

  /** One more reply, of this instance or another. */
  lemma FollowsMore(quorum: nat, blank: Value, ms: seq<Msg>, states: map<nat, ProposerState>, states': map<nat, ProposerState>, m: Msg, i: nat)
    requires m.P1B? && Follows(quorum, blank, ms, states, i)
    requires i != m.inst ==> (i in states <==> i in states') && (i in states ==> states'[i] == states[i])
    requires i == m.inst ==> i in states'
    requires i == m.inst ==> states'[i] == Heard(quorum, if i in states then states[i] else ProposerState(m.rnd, Leader.Fresh(blank)), m)
    ensures Follows(quorum, blank, ms + [m], states', i)
  {
    hide Leader.Collect;
    if i in states {
      FirstRoundMore(ms, m, i, states[i].crnd);
      RepliesMore(ms, m, i, states[i].crnd);
      GatheredMore(quorum, blank, Replies(ms, i, states[i].crnd), Leader.Reply(m.acc, m.vrnd, m.val));
      hide Leader.Gathered, FirstRound, Replies;
      assert Replies(ms, i, states[i].crnd) + [] == Replies(ms, i, states[i].crnd);
    } else if i == m.inst {
      FirstRoundMore(ms, m, i, m.rnd);
      RepliesMore(ms, m, i, m.rnd);
      NoReplies(ms, i, m.rnd);
      GatheredMore(quorum, blank, [], Leader.Reply(m.acc, m.vrnd, m.val));
      hide FirstRound, Replies;
      assert [] + [Leader.Reply(m.acc, m.vrnd, m.val)] == [Leader.Reply(m.acc, m.vrnd, m.val)];
    }
  }

  lemma GatheredMore(quorum: nat, blank: Value, ms: seq<Leader.Reply>, m: Leader.Reply)
    ensures Leader.Gathered(quorum, false, blank, ms + [m])
         == Leader.Collect(quorum, false, Leader.Gathered(quorum, false, blank, ms), m).0
    ensures Leader.Gathered(quorum, false, blank, []) == Leader.Fresh(blank)
  {
    assert (ms + [m])[..|ms|] == ms;
  }

  /** Collecting answers exactly at the reply that completes the quorum, with the value of the fold. */
  lemma AnswersAtFinish(quorum: nat, blank: Value, ms: seq<Leader.Reply>, m: Leader.Reply)
    requires quorum > 0
    ensures var (after, done) := Leader.Collect(quorum, false, Leader.Gathered(quorum, false, blank, ms), m);
      && (done <==> Leader.Finishes(quorum, false, blank, ms + [m], |ms|))
      && (done ==> after.hval == Leader.Fold(false, blank, ms + [m]).hval)
  {
    var all := ms + [m];
    assert all[..|ms|] == ms && all[..|ms| + 1] == all;
    Leader.CollectProposesAtFinish(quorum, false, blank, all, |ms|);
    GatheredMore(quorum, blank, ms, m);
    if Leader.Finishes(quorum, false, blank, all, |ms|) {
      Leader.CountsOne(false, blank, all, |ms|);
      var k := Leader.CollectIsFold(quorum, false, blank, all);
      hide Leader.Fold, Leader.Gathered, Leader.Finishes, Leader.Collect;
      Leader.FinishesAtMostOnce(quorum, false, blank, all, |ms|, k - 1);
      assert all[..k] == all;
    }
  }

  class PaxosLearner {
    const majority: nat
    const blank: Value
    var states: map<nat, LearnerState>
    var logs: map<nat, Value>
    var proposerState: map<nat, ProposerState>
    ghost var votes: seq<Msg>     // the 2B packets handled
    ghost var replies: seq<Msg>   // the 1B packets handled

    ghost predicate Valid()
      reads this
    {
      && (forall m :: m in votes ==> m.P2B?)
      && Learner(states, logs) == Learned(majority, votes)
      && forall i: nat :: Follows(majority, blank, replies, proposerState, i)
    }

    constructor (numAcceptors: nat, blank: Value)
      ensures Valid() && votes == replies == []
      ensures majority == Leader.Quorum(numAcceptors) && this.blank == blank
      ensures Learner(states, logs) == EMPTY && proposerState == map[]
    {
      majority := (numAcceptors + 1) / 2;
      this.blank := blank;
      states, logs, proposerState := map[], map[], map[];
      votes, replies := [], [];
    }

    /** A 2B vote, with the fresh state that is meant where the program as written raises. */
    method HandleP2b(m: Msg) returns (res: Option<Decision>, raises: bool)
      requires Valid() && m.P2B?
      modifies this`states, this`logs, this`votes
      ensures Valid() && votes == old(votes) + [m]
      ensures raises <==> Raises(old(Learner(states, logs)), m)
      ensures (Learner(states, logs), res) == AfterVote(majority, old(Learner(states, logs)), m)
    {
      hide Learned, Follows;
      LearnedMore(majority, votes, m);
      votes := votes + [m];
      res, raises := None, false;
      var state := if m.inst in states then states[m.inst] else FreshState(m.rnd);
      if !state.finished {
        if state.crnd < m.rnd {
          raises := true;
          state := FreshState(m.rnd);
        }
        if state.crnd == m.rnd {
          if m.acc !in state.nids {
            state := state.(nids := state.nids + {m.acc});
            if state.val == None {
              state := state.(val := Some(m.val));
            }
            if |state.nids| >= majority {
              state := state.(finished := true);
              logs := logs[m.inst := state.val.value];
              res := Some(Decision(m.inst, state.val.value));
            }
            states := states[m.inst := state];
          }
        }
      }
    }

    /**
     A 1B reply. It yields a 2A if and only if it is for the round of the instance's first
     reply and completes the majority among the replies for that round; the value is that
     of the fold that never raises the bar.
     */
    method HandleP1b(m: Msg) returns (res: Option<Msg>)
      requires Valid() && m.P1B?
      modifies this`proposerState, this`replies
      ensures Valid() && replies == old(replies) + [m]
      ensures exists r: nat :: FirstRound(replies, m.inst, r) && (majority > 0 ==>
        var ms := Replies(replies, m.inst, r);
        res == if m.rnd == r && Completes(majority, blank, ms) then Some(P2A(m.inst, r, Leader.Fold(false, blank, ms).hval)) else None)
      ensures proposerState - {m.inst} == old(proposerState) - {m.inst}
    {
      hide Learned, Follows, Replies, FirstRound, Completes, Leader.Fold;
      ghost var states0, replies0 := proposerState, replies;
      res := None;
      var state := if m.inst in proposerState then proposerState[m.inst] else ProposerState(m.rnd, Leader.Fresh(blank));
      ghost var before := state;
      if !state.leader.finished {
        if state.crnd == m.rnd {
          if m.acc !in state.leader.nids {
            var ld := state.leader.(nids := state.leader.nids + {m.acc});
            if ld.hvrnd <= m.vrnd {
              ld := ld.(hval := m.val);
            }
            if |ld.nids| >= majority {
              ld := ld.(finished := true);
              res := Some(P2A(m.inst, state.crnd, ld.hval));
            }
            proposerState := proposerState[m.inst := state.(leader := ld)];
          }
        }
      }
      replies := replies + [m];
      AnswerFollows(majority, blank, replies0, states0, before, m);
      assert m.inst in proposerState && proposerState[m.inst] == Heard(majority, before, m);
      hide Leader.Collect, Heard;
      forall i: nat ensures Follows(majority, blank, replies, proposerState, i) {
        FollowsMore(majority, blank, replies0, states0, proposerState, m, i);
      }
    }
  }

  ghost predicate Completes(quorum: nat, blank: Value, ms: seq<Leader.Reply>)
  {
    ms != [] && Leader.Finishes(quorum, false, blank, ms, |ms| - 1)
  }

  lemma CompletesAtLast(quorum: nat, blank: Value, ms: seq<Leader.Reply>, m: Leader.Reply)
    ensures Completes(quorum, blank, ms + [m]) <==> Leader.Finishes(quorum, false, blank, ms + [m], |ms|)
  {
  }

  /** What collecting the reply m answers, in terms of the packets. */
  lemma AnswerFollows(quorum: nat, blank: Value, ms: seq<Msg>, states: map<nat, ProposerState>, before: ProposerState, m: Msg)
    requires m.P1B? && Follows(quorum, blank, ms, states, m.inst)
    requires before == if m.inst in states then states[m.inst] else ProposerState(m.rnd, Leader.Fresh(blank))
    ensures var r, rs := before.crnd, Replies(ms + [m], m.inst, before.crnd);
      var (after, done) := Leader.Collect(quorum, false, before.leader, Leader.Reply(m.acc, m.vrnd, m.val));
      && FirstRound(ms + [m], m.inst, r)
      && (quorum > 0 && m.rnd == r ==> (done <==> Completes(quorum, blank, rs)) && (done ==> after.hval == Leader.Fold(false, blank, rs).hval))
  {
    hide Leader.Collect, Leader.Gathered, Leader.Fold, Leader.Finishes, Completes, FirstRound, Replies;
    var i, r, reply := m.inst, before.crnd, Leader.Reply(m.acc, m.vrnd, m.val);
    FirstRoundMore(ms, m, i, r);
    RepliesMore(ms, m, i, r);
    if i !in states {
      NoReplies(ms, i, r);
      GatheredMore(quorum, blank, [], reply);
    }
    if quorum > 0 {
      AnswersAtFinish(quorum, blank, Replies(ms, i, r), reply);
      CompletesAtLast(quorum, blank, Replies(ms, i, r), reply);
    }
  }
}
