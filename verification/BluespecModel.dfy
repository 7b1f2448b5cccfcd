/**
 The hardware module as a function of its calls, and what its two counts are worth. All
 four handlers share one ballot register, but only one of them clears a count when the
 ballot rises.
 */
module BluespecModel {
  import opened FiniteSets
  import opened Messages
  import Acceptor
  import Leader
  import Tally

  /** The bitmaps have 16 bits; an acceptor with a higher number has none. */
  const WIDTH: nat := 16

  datatype Call =
    | OneA(bal: nat)
    | OneB(bal: nat, vbal: nat, val: Value, acpt: nat)
    | TwoA(bal: nat, val: Value)
    | TwoB(bal: nat, val: Value, acpt: nat)

  datatype Outcome = Idle | Accept | ValueError | Finish

  /** The registers; heard and voted are the sets behind count1b and count2b. */
  datatype Registers = Registers(ballot: nat, vballot: Option<nat>, value: Option<Value>,
                                 heard: set<nat>, voted: set<nat>, hballot: nat, hval: Value)

  /** Two registers come up with unknown contents. */
  function Start(vballot: Option<nat>, hval: Value): Registers
  {
    Registers(0, vballot, None, {}, {}, 0, hval)
  }

  /** What the leader registers stand for. */
  function LeaderOf(m: Registers): Leader.State
  {
    Leader.State(m.heard, m.hballot, m.hval, false)
  }

  /** Counting acceptor a: without a bit it leaves no mark. */
  function Counted(ids: set<nat>, a: nat): set<nat>
  {
    if a < WIDTH then ids + {a} else ids
  }

  ghost function Answer(m: Registers, call: Call): (Registers, Outcome)
  {
    match call
    case OneA(b) => (if b >= m.ballot then m.(ballot := b) else m, Idle)
    case OneB(b, vb, v, a) =>
      if b == m.ballot && !(a < WIDTH && a in m.heard) then
        var heard := Counted(m.heard, a);
        (m.(heard := heard, hballot := if vb >= m.hballot then vb else m.hballot, hval := if vb >= m.hballot then v else m.hval),
         if Tally.TwoVoters(WIDTH, heard) then Finish else Idle)
      else (m, Idle)
    case TwoA(b, v) =>
      if b >= m.ballot then (m.(ballot := b, vballot := Some(b), value := Some(v)), Accept) else (m, Idle)
    case TwoB(b, v, a) =>
      if b == m.ballot && !(a < WIDTH && a in m.voted) then
        var voted := Counted(m.voted, a);
        (m.(voted := voted, value := if m.value.None? then Some(v) else m.value),
         if Tally.TwoVoters(WIDTH, voted) then Finish else Idle)
      else if b > m.ballot then (m.(ballot := b, value := Some(v), voted := Counted({}, a)), Idle)
      else (m, Idle)
  }

  ghost function Run(start: Registers, calls: seq<Call>): Registers
  {
    if calls == [] then start else Answer(Run(start, calls[..|calls| - 1]), calls[|calls| - 1]).0
  }

  lemma NoCalls(start: Registers)
    ensures Run(start, []) == start
  {
  }

  lemma OneMore(start: Registers, calls: seq<Call>, call: Call)
    ensures Run(start, calls + [call]) == Answer(Run(start, calls), call).0
  {
    assert (calls + [call])[..|calls|] == calls;
  }

  lemma {:induction false} BallotGrows(start: Registers, calls: seq<Call>, p: nat)
    requires p <= |calls|
    ensures Run(start, calls[..p]).ballot <= Run(start, calls).ballot
    ensures p < |calls| && calls[p].TwoB? ==> calls[p].bal <= Run(start, calls).ballot
    decreases |calls|
  {
    if p < |calls| {
      var rest := calls[..|calls| - 1];
      assert rest[..p] == calls[..p];
      BallotGrows(start, rest, p);
    } else {
      assert calls[..p] == calls;
    }
  }

  // ----- which acceptors have answered at the current ballot

  /** A 1B reply of acceptor a was taken at the ballot that is current now. */
  ghost predicate Replied(start: Registers, calls: seq<Call>, a: nat)
  {
    exists p :: 0 <= p < |calls| && calls[p].OneB? && calls[p].acpt == a
                && calls[p].bal == Run(start, calls).ballot == Run(start, calls[..p]).ballot
  }

  /** A 2B vote of acceptor a for the ballot that is current now has arrived. */
  ghost predicate Cast(start: Registers, calls: seq<Call>, a: nat)
  {
    exists p :: 0 <= p < |calls| && calls[p].TwoB? && calls[p].acpt == a && calls[p].bal == Run(start, calls).ballot
  }

  /** One more call: who has replied at the current ballot. */
  lemma RepliedMore(start: Registers, calls: seq<Call>, call: Call, a: nat)
    ensures var m, m' := Run(start, calls), Run(start, calls + [call]);
      Replied(start, calls + [call], a) <==>
        || (call.OneB? && call.bal == m.ballot && call.acpt == a)
        || (m'.ballot == m.ballot && Replied(start, calls, a))
  {
    var all := calls + [call];
    OneMore(start, calls, call);
    assert all[..|calls|] == calls;
    assert forall p :: 0 <= p < |calls| ==> all[p] == calls[p] && all[..p] == calls[..p];
    hide Run;
    if Replied(start, all, a) {
      var p :| 0 <= p < |all| && all[p].OneB? && all[p].acpt == a
               && all[p].bal == Run(start, all).ballot == Run(start, all[..p]).ballot;
      if p < |calls| { BallotGrows(start, calls, p); }
    }
    if call.OneB? && call.bal == Run(start, calls).ballot && call.acpt == a {
      assert all[|calls|] == call;
    } else if Run(start, all).ballot == Run(start, calls).ballot && Replied(start, calls, a) {
      var p :| 0 <= p < |calls| && calls[p].OneB? && calls[p].acpt == a
               && calls[p].bal == Run(start, calls).ballot == Run(start, calls[..p]).ballot;
      assert all[p] == calls[p] && all[..p] == calls[..p];
    }
  }

  /** One more call: who has voted for the current ballot. */
  lemma CastMore(start: Registers, calls: seq<Call>, call: Call, a: nat)
    ensures var m, m' := Run(start, calls), Run(start, calls + [call]);
      Cast(start, calls + [call], a) <==>
        || (call.TwoB? && call.bal == m'.ballot && call.acpt == a)
        || (m'.ballot == m.ballot && Cast(start, calls, a))
  {
    var all := calls + [call];
    OneMore(start, calls, call);
    assert forall p :: 0 <= p < |calls| ==> all[p] == calls[p];
    hide Run;
    if Cast(start, all, a) {
      var p :| 0 <= p < |all| && all[p].TwoB? && all[p].acpt == a && all[p].bal == Run(start, all).ballot;
      if p < |calls| { BallotGrows(start, calls, p); }
    }
    if call.TwoB? && call.bal == Run(start, all).ballot && call.acpt == a {
      assert all[|calls|] == call;
    } else if Run(start, all).ballot == Run(start, calls).ballot && Cast(start, calls, a) {
      var p :| 0 <= p < |calls| && calls[p].TwoB? && calls[p].acpt == a && calls[p].bal == Run(start, calls).ballot;
      assert all[p] == calls[p];
    }
  }

  /** count1b is exact: it marks precisely the acceptors with a bit whose reply was taken at the current ballot. */
  ghost predicate Exact1(start: Registers, calls: seq<Call>)
  {
    forall a: nat :: a in Run(start, calls).heard <==> a < WIDTH && Replied(start, calls, a)
  }

  /** count2b is exact: it marks precisely the acceptors with a bit whose vote for the current ballot arrived. */
  ghost predicate Exact2(start: Registers, calls: seq<Call>)
  {
    forall a: nat :: a in Run(start, calls).voted <==> a < WIDTH && Cast(start, calls, a)
  }

  /** The call raises the ballot and leaves count1b as it is. */
  predicate Stales1(m: Registers, call: Call)
  {
    !call.OneB? && call.bal > m.ballot && m.heard != {}
  }

  /** The call raises the ballot and leaves count2b as it is. */
  predicate Stales2(m: Registers, call: Call)
  {
    (call.OneA? || call.TwoA?) && call.bal > m.ballot && m.voted != {}
  }

  /** A call keeps count1b exact if and only if it is not a 1A, 2A or 2B that raises the ballot over a count that is not empty. */
  lemma KeepsExact1(start: Registers, calls: seq<Call>, call: Call)
    requires Exact1(start, calls)
    ensures Exact1(start, calls + [call]) <==> !Stales1(Run(start, calls), call)
  {
    OneMore(start, calls, call);
    hide Run, Replied, Tally.TwoVoters;
    var m, m' := Run(start, calls), Run(start, calls + [call]);
    forall a: nat | a < WIDTH ensures Replied(start, calls + [call], a) <==>
        (call.OneB? && call.bal == m.ballot && call.acpt == a) || (m'.ballot == m.ballot && a in m.heard)
    {
      RepliedMore(start, calls, call, a);
    }
    if Stales1(m, call) {
      var a :| a in m.heard;
      assert a in m'.heard && !Replied(start, calls + [call], a);
    }
  }

  /** A call keeps count2b exact if and only if it is not a 1A or 2A that raises the ballot over a count that is not empty. */
  lemma KeepsExact2(start: Registers, calls: seq<Call>, call: Call)
    requires Exact2(start, calls)
    ensures Exact2(start, calls + [call]) <==> !Stales2(Run(start, calls), call)
  {
    OneMore(start, calls, call);
    hide Run, Cast, Tally.TwoVoters;
    var m, m' := Run(start, calls), Run(start, calls + [call]);
    forall a: nat | a < WIDTH ensures Cast(start, calls + [call], a) <==>
        (call.TwoB? && call.bal == m'.ballot && call.acpt == a) || (m'.ballot == m.ballot && a in m.voted)
    {
      CastMore(start, calls, call, a);
    }
    if Stales2(m, call) {
      var a :| a in m.voted;
      assert a in m'.voted && !Cast(start, calls + [call], a);
    }
  }

  /** Nobody with a bit who answered at the current ballot is ever missing from a count, stale or not. */
  lemma {:induction false} AnsweredIsCounted(vballot: Option<nat>, hval: Value, calls: seq<Call>, a: nat)
    ensures a < WIDTH && Replied(Start(vballot, hval), calls, a) ==> a in Run(Start(vballot, hval), calls).heard
    ensures a < WIDTH && Cast(Start(vballot, hval), calls, a) ==> a in Run(Start(vballot, hval), calls).voted
  {
    if calls != [] {
      var start, rest, call := Start(vballot, hval), calls[..|calls| - 1], calls[|calls| - 1];
      assert calls == rest + [call];
      AnsweredIsCounted(vballot, hval, rest, a);
      RepliedMore(start, rest, call, a);
      CastMore(start, rest, call, a);
      OneMore(start, rest, call);
      hide Run, Replied, Cast, Tally.TwoVoters;
    }
  }

  lemma {:induction false} CountsFit(vballot: Option<nat>, hval: Value, calls: seq<Call>)
    ensures Run(Start(vballot, hval), calls).heard <= Below(WIDTH)
    ensures Run(Start(vballot, hval), calls).voted <= Below(WIDTH)
  {
    hide Tally.TwoVoters;
    if calls != [] {
      CountsFit(vballot, hval, calls[..|calls| - 1]);
    }
  }

  ghost function Repliers(start: Registers, calls: seq<Call>): set<nat>
  {
    var counted := Run(start, calls).heard;
    set a | a in counted && Replied(start, calls, a)
  }

  ghost function Casters(start: Registers, calls: seq<Call>): set<nat>
  {
    var counted := Run(start, calls).voted;
    set a | a in counted && Cast(start, calls, a)
  }

  lemma PairIsTwo(ids: set<nat>)
    requires ids <= Below(WIDTH) && Tally.TwoVoters(WIDTH, ids)
    ensures |ids| == 2
  {
    hide Below;
    assert ids * Below(WIDTH) == ids;
  }

  /** One more answer completes a pair of those counted; it completes a pair of part of them only if that is all of them. */
  lemma PairOfPart(part: set<nat>, ids: set<nat>, a: nat)
    requires part <= ids && |Counted(ids, a)| == 2 && !(a < WIDTH && a in ids)
    ensures |Counted(part, a)| == 2 <==> part == ids
  {
    if a < WIDTH {
      AddOne(ids, a);
      AddOne(part, a);
    }
    if |part| == |ids| {
      SubsetOfEqualSize(part, ids);
    }
  }

  /** FINISH is for the current ballot and leaves a pair counted. */
  lemma FinishIsPair(m: Registers, call: Call)
    requires Answer(m, call).1 == Finish
    ensures var m' := Answer(m, call).0;
      && call.bal == m.ballot == m'.ballot
      && (call.OneB? ==> Tally.TwoVoters(WIDTH, m'.heard) && m'.heard == Counted(m.heard, call.acpt))
      && (call.TwoB? ==> Tally.TwoVoters(WIDTH, m'.voted) && m'.voted == Counted(m.voted, call.acpt))
  {
    hide Tally.TwoVoters;
  }

  lemma FinishCountsTwo(m: Registers, call: Call)
    requires Answer(m, call).1 == Finish
    requires m.heard <= Below(WIDTH) && m.voted <= Below(WIDTH)
    ensures call.OneB? ==> |Counted(m.heard, call.acpt)| == 2 && !(call.acpt < WIDTH && call.acpt in m.heard)
    ensures call.TwoB? ==> |Counted(m.voted, call.acpt)| == 2 && !(call.acpt < WIDTH && call.acpt in m.voted)
  {
    FinishIsPair(m, call);
    hide Tally.TwoVoters;
    if call.OneB? {
      PairIsTwo(Counted(m.heard, call.acpt));
    } else if call.TwoB? {
      PairIsTwo(Counted(m.voted, call.acpt));
    }
  }

  lemma RepliersMore(start: Registers, calls: seq<Call>, call: Call)
    requires call.OneB? && Answer(Run(start, calls), call).1 == Finish
    requires forall a :: a in Run(start, calls).heard ==> a < WIDTH
    ensures Repliers(start, calls + [call]) == Counted(Repliers(start, calls), call.acpt)
  {
    hide Run, Answer, Replied, Tally.TwoVoters;
    FinishIsPair(Run(start, calls), call);
    OneMore(start, calls, call);
    var before, after := Repliers(start, calls), Repliers(start, calls + [call]);
    forall a: nat ensures a in after <==> a in Counted(before, call.acpt) {
      RepliedMore(start, calls, call, a);
    }
  }

  lemma SubsetIsAll(part: set<nat>, ids: set<nat>)
    requires forall a :: a in part ==> a in ids
    ensures part == ids <==> forall a :: a in ids ==> a in part
  {
  }

  lemma Exact1IfAll(start: Registers, calls: seq<Call>)
    requires forall a: nat :: a in Run(start, calls).heard ==> a < WIDTH
    requires forall a: nat :: a < WIDTH && Replied(start, calls, a) ==> a in Run(start, calls).heard
    ensures Exact1(start, calls) <==> Repliers(start, calls) == Run(start, calls).heard
  {
    hide Run, Replied;
    SubsetIsAll(Repliers(start, calls), Run(start, calls).heard);
  }

  lemma Exact1IsAll(vballot: Option<nat>, hval: Value, calls: seq<Call>)
    ensures var start := Start(vballot, hval); Exact1(start, calls) <==> Repliers(start, calls) == Run(start, calls).heard
  {
    hide Run, Replied, Repliers, Exact1;
    var start := Start(vballot, hval);
    CountsFit(vballot, hval, calls);
    forall a: nat | a < WIDTH && Replied(start, calls, a) ensures a in Run(start, calls).heard {
      AnsweredIsCounted(vballot, hval, calls, a);
    }
    Exact1IfAll(start, calls);
  }

  /** What FINISH on a 1B means: two acceptors replied at the current ballot if and only if the count was exact before. */
  lemma Finish1Means(vballot: Option<nat>, hval: Value, calls: seq<Call>, call: Call)
    requires call.OneB? && Answer(Run(Start(vballot, hval), calls), call).1 == Finish
    ensures var start := Start(vballot, hval);
      |Repliers(start, calls + [call])| == 2 <==> Exact1(start, calls)
  {
    hide Run, Answer, Counted, Replied, Exact1, Tally.TwoVoters, Below;
    var start := Start(vballot, hval);
    CountsFit(vballot, hval, calls);
    RepliersMore(start, calls, call);
    FinishCountsTwo(Run(start, calls), call);
    PairOfPart(Repliers(start, calls), Run(start, calls).heard, call.acpt);
    Exact1IsAll(vballot, hval, calls);
  }

  lemma CastersMore(start: Registers, calls: seq<Call>, call: Call)
    requires call.TwoB? && Answer(Run(start, calls), call).1 == Finish
    requires forall a :: a in Run(start, calls).voted ==> a < WIDTH
    ensures Casters(start, calls + [call]) == Counted(Casters(start, calls), call.acpt)
  {
    hide Run, Answer, Cast, Tally.TwoVoters;
    FinishIsPair(Run(start, calls), call);
    OneMore(start, calls, call);
    var before, after := Casters(start, calls), Casters(start, calls + [call]);
    forall a: nat ensures a in after <==> a in Counted(before, call.acpt) {
      CastMore(start, calls, call, a);
    }
  }

  lemma Exact2IfAll(start: Registers, calls: seq<Call>)
    requires forall a: nat :: a in Run(start, calls).voted ==> a < WIDTH
    requires forall a: nat :: a < WIDTH && Cast(start, calls, a) ==> a in Run(start, calls).voted
    ensures Exact2(start, calls) <==> Casters(start, calls) == Run(start, calls).voted
  {
    hide Run, Cast;
    SubsetIsAll(Casters(start, calls), Run(start, calls).voted);
  }

  lemma Exact2IsAll(vballot: Option<nat>, hval: Value, calls: seq<Call>)
    ensures var start := Start(vballot, hval); Exact2(start, calls) <==> Casters(start, calls) == Run(start, calls).voted
  {
    hide Run, Cast, Casters, Exact2;
    var start := Start(vballot, hval);
    CountsFit(vballot, hval, calls);
    forall a: nat | a < WIDTH && Cast(start, calls, a) ensures a in Run(start, calls).voted {
      AnsweredIsCounted(vballot, hval, calls, a);
    }
    Exact2IfAll(start, calls);
  }

  /** What FINISH on a 2B means: two acceptors voted for the current ballot if and only if the count was exact before. */
  lemma Finish2Means(vballot: Option<nat>, hval: Value, calls: seq<Call>, call: Call)
    requires call.TwoB? && Answer(Run(Start(vballot, hval), calls), call).1 == Finish
    ensures var start := Start(vballot, hval);
      |Casters(start, calls + [call])| == 2 <==> Exact2(start, calls)
  {
    hide Run, Answer, Counted, Cast, Exact2, Tally.TwoVoters, Below;
    var start := Start(vballot, hval);
    CountsFit(vballot, hval, calls);
    CastersMore(start, calls, call);
    FinishCountsTwo(Run(start, calls), call);
    PairOfPart(Casters(start, calls), Run(start, calls).voted, call.acpt);
    Exact2IsAll(vballot, hval, calls);
  }

  /**
   In an exact state a 2B for the current ballot FINISHes exactly when two of the acceptors
   0, 1 and 2 and nobody else with a bit have voted, and the vote is a new one or leaves no mark.
   */
  lemma FinishWhenExact(start: Registers, calls: seq<Call>, call: Call)
    requires call.TwoB? && Exact2(start, calls)
    ensures Answer(Run(start, calls), call).1 == Finish <==>
      && call.bal == Run(start, calls).ballot
      && Tally.TwoVoters(WIDTH, Casters(start, calls + [call]))
      && (call.acpt >= WIDTH || !Cast(start, calls, call.acpt))
  {
    KeepsExact2(start, calls, call);
    OneMore(start, calls, call);
    hide Run, Cast, Tally.TwoVoters;
    var m, m' := Run(start, calls), Run(start, calls + [call]);
    assert Casters(start, calls + [call]) == m'.voted;
  }

  /** The same for a 1B at the current ballot and the replies taken at it. */
  lemma FinishWhenExact1(start: Registers, calls: seq<Call>, call: Call)
    requires call.OneB? && Exact1(start, calls)
    ensures Answer(Run(start, calls), call).1 == Finish <==>
      && call.bal == Run(start, calls).ballot
      && Tally.TwoVoters(WIDTH, Repliers(start, calls + [call]))
      && (call.acpt >= WIDTH || !Replied(start, calls, call.acpt))
  {
    KeepsExact1(start, calls, call);
    OneMore(start, calls, call);
    hide Run, Replied, Tally.TwoVoters;
    var m, m' := Run(start, calls), Run(start, calls + [call]);
    assert Repliers(start, calls + [call]) == m'.heard;
  }

  /** A vote without a bit makes a FINISH come again. */
  lemma FinishAgain(vballot: Option<nat>, hval: Value, b: nat, v: Value, a: nat)
    requires a >= WIDTH
    ensures var start, calls := Start(vballot, hval), [TwoA(b, v), TwoB(b, v, 0), TwoB(b, v, 1)];
      Answer(Run(start, calls), TwoB(b, v, a)).1 == Finish
  {
    hide Run, Tally.TwoVoters;
    var start, first, second := Start(vballot, hval), [TwoA(b, v)], [TwoA(b, v), TwoB(b, v, 0)];
    assert [] + first == first && first + [TwoB(b, v, 0)] == second && second + [TwoB(b, v, 1)] == [TwoA(b, v), TwoB(b, v, 0), TwoB(b, v, 1)];
    NoCalls(start);
    OneMore(start, [], TwoA(b, v));
    OneMore(start, first, TwoB(b, v, 0));
    OneMore(start, second, TwoB(b, v, 1));
    TwoIsPair();
    assert Run(start, second).voted == {0} && Run(start, second).ballot == b;
    SecondAnswer(Run(start, second), b, v);
  }

  lemma TwoIsPair()
    ensures Tally.TwoVoters(WIDTH, {0, 1})
  {
    Tally.AllBelowThree(WIDTH, {0, 1});
  }

  /** Acceptor 1 answers after acceptor 0 has been counted. */
  lemma SecondAnswer(m: Registers, b: nat, w: Value)
    requires m.ballot == b
    ensures m.voted == {0} ==> Answer(m, TwoB(b, w, 1)).1 == Finish && Answer(m, TwoB(b, w, 1)).0.voted == {0, 1}
    ensures m.heard == {0} ==> Answer(m, OneB(b, 0, w, 1)).1 == Finish && Answer(m, OneB(b, 0, w, 1)).0.heard == {0, 1}
  {
    TwoIsPair();
    hide Tally.TwoVoters;
    assert {0} + {1} == {0, 1};
  }

  /** A run with a stale FINISH on a 2B: one acceptor votes, a 1A or 2A raises the ballot, and another one votes. */
  lemma StaleFinish2(vballot: Option<nat>, hval: Value, b: nat, b': nat, raise: Call, v: Value, w: Value)
    requires 0 < b < b' && (raise == OneA(b') || raise == TwoA(b', v))
    ensures var start, calls, last := Start(vballot, hval), [TwoB(b, v, 0), raise], TwoB(b', w, 1);
      && Answer(Run(start, calls), last).1 == Finish
      && Casters(start, calls + [last]) == {1}
  {
    hide Tally.TwoVoters;
    var start, calls, last := Start(vballot, hval), [TwoB(b, v, 0), raise], TwoB(b', w, 1);
    OneVoteThenRaise(start, b, b', raise, v);
    OneMore(start, calls, last);
    CastMore(start, calls, last, 0);
    CastMore(start, calls, last, 1);
    hide Run, Cast;
    SecondAnswer(Run(start, calls), b', w);
  }

  lemma OneVoteThenRaise(start: Registers, b: nat, b': nat, raise: Call, v: Value)
    requires start.ballot == 0 < b < b' && start.voted == {} && (raise == OneA(b') || raise == TwoA(b', v))
    ensures var calls := [TwoB(b, v, 0), raise];
      Run(start, calls).voted == {0} && Run(start, calls).ballot == b' && !Cast(start, calls, 0)
  {
    hide Run, Cast, Tally.TwoVoters;
    var first := [TwoB(b, v, 0)];
    assert [] + first == first && first + [raise] == [TwoB(b, v, 0), raise];
    NoCalls(start);
    OneMore(start, [], TwoB(b, v, 0));
    OneMore(start, first, raise);
    CastMore(start, first, raise, 0);
  }

  /** The same on a 1B: one acceptor replies, a 1A, 2A or 2B raises the ballot, and another one replies. */
  lemma StaleFinish1(vballot: Option<nat>, hval: Value, b: nat, raise: Call, v: Value, w: Value)
    requires !raise.OneB? && raise.bal > b
    ensures var start, calls, last := Start(vballot, hval), [OneA(b), OneB(b, 0, v, 0), raise], OneB(raise.bal, 0, w, 1);
      && Answer(Run(start, calls), last).1 == Finish
      && Repliers(start, calls + [last]) == {1}
  {
    hide Tally.TwoVoters;
    var start, calls, last := Start(vballot, hval), [OneA(b), OneB(b, 0, v, 0), raise], OneB(raise.bal, 0, w, 1);
    OneReplyThenRaise(start, b, raise, v);
    OneMore(start, calls, last);
    RepliedMore(start, calls, last, 0);
    RepliedMore(start, calls, last, 1);
    hide Run, Replied;
    SecondAnswer(Run(start, calls), raise.bal, w);
  }

  lemma OneReplyThenRaise(start: Registers, b: nat, raise: Call, v: Value)
    requires start.ballot == 0 && start.heard == {} && !raise.OneB? && raise.bal > b
    ensures var calls := [OneA(b), OneB(b, 0, v, 0), raise];
      Run(start, calls).heard == {0} && Run(start, calls).ballot == raise.bal && !Replied(start, calls, 0)
  {
    hide Run, Replied, Tally.TwoVoters;
    var first, second := [OneA(b)], [OneA(b), OneB(b, 0, v, 0)];
    assert [] + first == first && first + [OneB(b, 0, v, 0)] == second && second + [raise] == [OneA(b), OneB(b, 0, v, 0), raise];
    NoCalls(start);
    OneMore(start, [], OneA(b));
    OneMore(start, first, OneB(b, 0, v, 0));
    OneMore(start, second, raise);
    RepliedMore(start, second, raise, 0);
  }

  // ----- the leader registers as a fold

  /** The replies that were taken, each at the ballot of its time. */
  ghost function Taken(start: Registers, calls: seq<Call>): seq<Leader.Reply>
  {
    if calls == [] then []
    else
      var rest, call := calls[..|calls| - 1], calls[|calls| - 1];
      Taken(start, rest) +
        if call.OneB? && call.bal == Run(start, rest).ballot then [Leader.Reply(call.acpt, call.vbal, call.val)] else []
  }

  /** A 1B at the current ballot is counted by the highest-ballot rule; no other call touches the leader registers. */
  lemma CountsByRule(m: Registers, call: Call)
    requires call.OneB? ==> call.acpt < WIDTH
    ensures LeaderOf(Answer(m, call).0) ==
      if call.OneB? && call.bal == m.ballot then Leader.Count(true, LeaderOf(m), Leader.Reply(call.acpt, call.vbal, call.val))
      else LeaderOf(m)
  {
    hide Tally.TwoVoters;
  }

  lemma TakenMore(start: Registers, calls: seq<Call>, call: Call)
    ensures Taken(start, calls + [call]) == Taken(start, calls) +
      if call.OneB? && call.bal == Run(start, calls).ballot then [Leader.Reply(call.acpt, call.vbal, call.val)] else []
  {
    assert (calls + [call])[..|calls|] == calls;
  }

  /**
   Across all changes of ballot the leader registers are the highest-ballot fold over every reply
   ever taken, from acceptors with a bit.
   */
  lemma {:induction false} LeaderIsFold(vballot: Option<nat>, hval: Value, calls: seq<Call>)
    requires forall call :: call in calls && call.OneB? ==> call.acpt < WIDTH
    ensures LeaderOf(Run(Start(vballot, hval), calls)) == Leader.Fold(true, hval, Taken(Start(vballot, hval), calls))
  {
    if calls != [] {
      var start, rest, call := Start(vballot, hval), calls[..|calls| - 1], calls[|calls| - 1];
      assert calls == rest + [call];
      LeaderIsFold(vballot, hval, rest);
      hide Run, Taken, Answer, LeaderOf, Leader.Fold, Leader.Count;
      OneMore(start, rest, call);
      TakenMore(start, rest, call);
      CountsByRule(Run(start, rest), call);
      if call.OneB? && call.bal == Run(start, rest).ballot {
        Leader.FoldMore(true, hval, Taken(start, rest), Leader.Reply(call.acpt, call.vbal, call.val));
      } else {
        assert Taken(start, calls) == Taken(start, rest);
      }
    } else {
      Leader.NoReplies(true, hval);
    }
  }

  /** Without a bit an acceptor's second reply is taken too, and its value with it, where the fold keeps the first. */
  lemma NoBitCountsTwice(vballot: Option<nat>, hval: Value, a: nat, v: Value, w: Value)
    requires a >= WIDTH && v != w
    ensures var start, calls := Start(vballot, hval), [OneB(0, 0, v, a), OneB(0, 0, w, a)];
      Run(start, calls).hval == w && Leader.Fold(true, hval, Taken(start, calls)).hval == v
  {
    var start, first := Start(vballot, hval), [OneB(0, 0, v, a)];
    assert [] + first == first && first + [OneB(0, 0, w, a)] == [OneB(0, 0, v, a), OneB(0, 0, w, a)];
    OneMore(start, [], OneB(0, 0, v, a));
    OneMore(start, first, OneB(0, 0, w, a));
    assert first[..0] == [] && [OneB(0, 0, v, a), OneB(0, 0, w, a)][..1] == first;
    hide Tally.TwoVoters;
    var one, two := Leader.Reply(a, 0, v), Leader.Reply(a, 0, w);
    assert Taken(start, first) == [one];
    assert Taken(start, [OneB(0, 0, v, a), OneB(0, 0, w, a)]) == [one] + [two];
    Leader.FoldMore(true, hval, [], one);
    Leader.FoldMore(true, hval, [one], two);
    assert [] + [one] == [one];
  }

  // ----- the acceptor registers

  /** The registers as those of an acceptor that never voted below its first ballot. */
  function AcceptorOf(m: Registers, blank: Value): Acceptor.Reg
  {
    Acceptor.Reg(m.ballot, if m.vballot.Some? then m.vballot.value else 0, if m.value.Some? then m.value.value else blank)
  }

  /** The packet that an acceptor would be sent. */
  function Packet(call: Call): Msg
    requires call.OneA? || call.TwoA?
  {
    match call
    case OneA(b) => P1A(0, b)
    case TwoA(b, v) => P2A(0, b, v)
  }

  /** 1A and 2A calls act as on the switch acceptor, and accept exactly when it answers; 1B calls leave its registers alone. */
  lemma ActsAsAcceptor(m: Registers, call: Call, id: nat, blank: Value)
    ensures call.OneA? || call.TwoA? ==>
      var (regs, reply) := Acceptor.Step(id, blank, map[0 := AcceptorOf(m, blank)], Packet(call));
      && AcceptorOf(Answer(m, call).0, blank) == Acceptor.At(regs, 0, blank)
      && (call.TwoA? ==> (Answer(m, call).1 == Accept <==> reply.Some?))
    ensures call.OneB? ==> AcceptorOf(Answer(m, call).0, blank) == AcceptorOf(m, blank)
  {
  }

  /**
   A 2B call leaves the acceptor's registers alone exactly when it is old, repeated, or finds a
   value already there; else it raises the ballot and overwrites the value, but records no vote.
   */
  lemma VoteDisturbsAcceptor(m: Registers, call: Call)
    requires call.TwoB?
    ensures var m' := Answer(m, call).0;
      (m'.ballot == m.ballot && m'.vballot == m.vballot && m'.value == m.value) <==>
        (call.bal < m.ballot || (call.bal == m.ballot && ((call.acpt < WIDTH && call.acpt in m.voted) || m.value.Some?)))
    ensures var m' := Answer(m, call).0;
      && m'.vballot == m.vballot
      && m'.ballot == (if call.bal > m.ballot then call.bal else m.ballot)
      && (m'.value == m.value || (m'.value == Some(call.val) && (call.bal > m.ballot || m.value.None?)))
      && (call.bal > m.ballot ==> m'.value == Some(call.val))
  {
  }

  /** The ballot is the highest one that a 1A, 2A or 2B has named. */
  lemma {:induction false} BallotIsHighest(start: Registers, calls: seq<Call>)
    ensures var b := Run(start, calls).ballot;
      && start.ballot <= b
      && (forall p :: 0 <= p < |calls| && !calls[p].OneB? ==> calls[p].bal <= b)
      && (b == start.ballot || exists p :: 0 <= p < |calls| && !calls[p].OneB? && calls[p].bal == b)
  {
    hide Tally.TwoVoters;
    if calls != [] {
      var k := |calls| - 1;
      var rest := calls[..k];
      BallotIsHighest(start, rest);
      var b, b' := Run(start, rest).ballot, Run(start, calls).ballot;
      assert b' == if !calls[k].OneB? && calls[k].bal > b then calls[k].bal else b;
      hide Run;
      assert forall p :: 0 <= p < k ==> rest[p] == calls[p];
      if b' == b && b != start.ballot {
        var p :| 0 <= p < k && !rest[p].OneB? && rest[p].bal == b;
        assert !calls[p].OneB? && calls[p].bal == b';
      } else if b' != b {
        assert !calls[k].OneB? && calls[k].bal == b';
      }
    }
  }

  /**
   What a call answers besides FINISH: a 2A is accepted exactly when no 1A, 2A or 2B before
   it named a higher ballot, and nothing else is; a 1A is never answered.
   */
  lemma AcceptedIffNotOlder(vballot: Option<nat>, hval: Value, calls: seq<Call>, call: Call)
    ensures var out := Answer(Run(Start(vballot, hval), calls), call).1;
      && (out == Accept <==>
           call.TwoA? && forall p :: 0 <= p < |calls| && !calls[p].OneB? ==> calls[p].bal <= call.bal)
      && out != ValueError
      && (out == Finish ==> call.OneB? || call.TwoB?)
  {
    hide Run, Tally.TwoVoters;
    BallotIsHighest(Start(vballot, hval), calls);
  }

  /** Where it does not, the value register need no longer hold what was accepted at vballot. */
  lemma ValueWithoutVote(vballot: Option<nat>, hval: Value, b: nat, b': nat, v: Value, w: Value)
    requires b < b' && v != w
    ensures var m := Run(Start(vballot, hval), [TwoA(b, v), TwoB(b', w, 0)]);
      m.vballot == Some(b) && m.value == Some(w)
  {
    hide Run;
    var start := Start(vballot, hval);
    NoCalls(start);
    assert [] + [TwoA(b, v)] == [TwoA(b, v)] && [TwoA(b, v)] + [TwoB(b', w, 0)] == [TwoA(b, v), TwoB(b', w, 0)];
    OneMore(start, [], TwoA(b, v));
    OneMore(start, [TwoA(b, v)], TwoB(b', w, 0));
  }
}
