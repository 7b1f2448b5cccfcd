/**
 The learner against its packets: which of them are counted, and exactly when an
 instance is logged, said of the stream of votes alone.
 */
module LearnerStream {
  import opened Messages
  import opened PyLearner

  predicate Votes(ms: seq<Msg>)
  {
    forall m :: m in ms ==> m.P2B?
  }

  /** r is the highest round of instance i among the packets. */
  predicate Top(ms: seq<Msg>, i: nat, r: nat)
    requires Votes(ms)
  {
    && (exists m :: m in ms && m.inst == i && m.rnd == r)
    && (forall m :: m in ms && m.inst == i ==> m.rnd <= r)
  }

  /** The acceptors with a packet of round r of instance i. */
  ghost function Voters(ms: seq<Msg>, i: nat, r: nat): set<nat>
    requires Votes(ms)
  {
    set m | m in ms && m.inst == i && m.rnd == r :: m.acc
  }

  /** v is the value of the first packet of round r of instance i. */
  ghost predicate First(ms: seq<Msg>, i: nat, r: nat, v: Value)
    requires Votes(ms)
  {
    exists q: nat :: q < |ms| && ms[q].inst == i && ms[q].rnd == r && ms[q].val == v
                     && forall q' :: 0 <= q' < q ==> !(ms[q'].inst == i && ms[q'].rnd == r)
  }

  /** A quorum of distinct acceptors has voted in the round that is the highest so far. */
  ghost predicate Decides(quorum: nat, ms: seq<Msg>, i: nat)
    requires Votes(ms)
  {
    exists r: nat :: Top(ms, i, r) && |Voters(ms, i, r)| >= quorum
  }

  /** This was so at some point of the stream. */
  ghost predicate Settled(quorum: nat, ms: seq<Msg>, i: nat)
    requires Votes(ms)
  {
    exists p: nat :: p <= |ms| && Decides(quorum, ms[..p], i)
  }

  // ----- one more packet

  lemma TopMore(ms: seq<Msg>, m: Msg, i: nat, r: nat)
    requires Votes(ms) && m.P2B?
    ensures Votes(ms + [m])
    ensures m.inst != i ==> (Top(ms + [m], i, r) <==> Top(ms, i, r))
    ensures m.inst == i && r != m.rnd ==> (Top(ms + [m], i, r) <==> Top(ms, i, r) && m.rnd <= r)
    ensures m.inst == i && r == m.rnd ==> (Top(ms + [m], i, r) <==> forall x :: x in ms && x.inst == i ==> x.rnd <= r)
  {
    var all := ms + [m];
    assert forall x :: x in all <==> x in ms || x == m;
    if m.inst == i && r == m.rnd { assert m in all; }
    if x :| x in ms && x.inst == i && x.rnd == r { assert x in all; }
  }

  lemma VotersMore(ms: seq<Msg>, m: Msg, i: nat, r: nat)
    requires Votes(ms) && m.P2B?
    ensures Votes(ms + [m])
    ensures Voters(ms + [m], i, r) == Voters(ms, i, r) + if m.inst == i && m.rnd == r then {m.acc} else {}
  {
    var all := ms + [m];
    assert forall x :: x in all <==> x in ms || x == m;
    forall a: nat
      ensures a in Voters(all, i, r) <==> a in Voters(ms, i, r) || (m.inst == i && m.rnd == r && a == m.acc)
    {
      if x :| x in ms && x.inst == i && x.rnd == r && x.acc == a { assert x in all; }
    }
  }

  lemma FirstMore(ms: seq<Msg>, m: Msg, i: nat, r: nat, v: Value)
    requires Votes(ms) && m.P2B?
    ensures Votes(ms + [m])
    ensures First(ms, i, r, v) ==> First(ms + [m], i, r, v)
    ensures m.inst == i && m.rnd == r && m.val == v && (forall x :: x in ms ==> !(x.inst == i && x.rnd == r)) ==> First(ms + [m], i, r, v)
  {
    var all := ms + [m];
    assert forall q :: 0 <= q < |ms| ==> all[q] == ms[q] && ms[q] in ms;
    assert all[|ms|] == m;
  }

  lemma SettledMore(quorum: nat, ms: seq<Msg>, m: Msg, i: nat)
    requires Votes(ms) && m.P2B?
    ensures Votes(ms + [m])
    ensures Settled(quorum, ms + [m], i) <==> Settled(quorum, ms, i) || Decides(quorum, ms + [m], i)
  {
    hide Decides;
    var all := ms + [m];
    assert forall p: nat :: p <= |ms| ==> all[..p] == ms[..p];
    assert all[..|all|] == all;
    if p: nat :| p <= |all| && Decides(quorum, all[..p], i) {
      assert p <= |ms| ==> Decides(quorum, ms[..p], i);
    }
    if p: nat :| p <= |ms| && Decides(quorum, ms[..p], i) {
      assert Decides(quorum, all[..p], i);
    }
  }

  lemma OneTop(ms: seq<Msg>, i: nat, r: nat, r': nat)
    requires Votes(ms) && Top(ms, i, r) && Top(ms, i, r')
    ensures r == r'
  {
  }

  lemma DecidesAt(quorum: nat, ms: seq<Msg>, i: nat, r: nat)
    requires Votes(ms) && Top(ms, i, r)
    ensures Decides(quorum, ms, i) <==> |Voters(ms, i, r)| >= quorum
  {
    if r': nat :| Top(ms, i, r') && |Voters(ms, i, r')| >= quorum {
      OneTop(ms, i, r, r');
    }
  }

  // ----- what is counted

  /** The state st of instance i counts precisely the acceptors of the highest round, under the value that came first. */
  ghost predicate Tally(ms: seq<Msg>, i: nat, st: LearnerState)
    requires Votes(ms)
  {
    && Top(ms, i, st.crnd) && st.nids == Voters(ms, i, st.crnd)
    && st.val.Some? && First(ms, i, st.crnd, st.val.value)
  }

  /** The learner ln is exact about instance i of the stream. */
  ghost predicate Exact(quorum: nat, ms: seq<Msg>, i: nat, ln: Learner)
    requires Votes(ms)
  {
    && (i in ln.logs <==> Settled(quorum, ms, i))
    && (i in ln.logs <==> i in ln.states && ln.states[i].finished)
    && (i !in ln.states ==> forall m :: m in ms ==> m.inst != i)
    && (i in ln.states && !ln.states[i].finished ==> Tally(ms, i, ln.states[i]))
  }

  /** A packet of another instance. */
  lemma OtherPacket(quorum: nat, ms: seq<Msg>, m: Msg, i: nat, ln: Learner)
    requires quorum > 0 && Votes(ms) && m.P2B? && m.inst != i && Exact(quorum, ms, i, ln)
    ensures Votes(ms + [m]) && Exact(quorum, ms + [m], i, AfterVote(quorum, ln, m).0)
  {
    SettledMore(quorum, ms, m, i);
    if i in ln.states && !ln.states[i].finished {
      var st := ln.states[i];
      TopMore(ms, m, i, st.crnd);
      VotersMore(ms, m, i, st.crnd);
      FirstMore(ms, m, i, st.crnd, st.val.value);
      DecidesAt(quorum, ms, i, st.crnd);
      DecidesAt(quorum, ms + [m], i, st.crnd);
      LastPrefix(quorum, ms, i);
      hide Settled, Decides, Top, Voters, First, Counts;
    } else if i !in ln.states {
      NoneOf(quorum, ms + [m], i);
    }
  }

  lemma LastPrefix(quorum: nat, ms: seq<Msg>, i: nat)
    requires Votes(ms)
    ensures Decides(quorum, ms, i) ==> Settled(quorum, ms, i)
  {
    assert ms[..|ms|] == ms;
  }

  lemma NoneOf(quorum: nat, ms: seq<Msg>, i: nat)
    requires Votes(ms) && forall m :: m in ms ==> m.inst != i
    ensures !Settled(quorum, ms, i)
  {
    assert forall p: nat :: p <= |ms| ==> forall m :: m in ms[..p] ==> m in ms;
  }

  /** A packet of the instance itself, while it is open: counted or not, the state afterwards tallies. */
  lemma OwnPacket(quorum: nat, ms: seq<Msg>, m: Msg, ln: Learner)
    requires quorum > 0 && Votes(ms) && m.P2B? && Exact(quorum, ms, m.inst, ln) && m.inst !in ln.logs
    ensures var i, ln' := m.inst, AfterVote(quorum, ln, m).0;
      && Votes(ms + [m]) && i in ln'.states && Tally(ms + [m], i, ln'.states[i])
      && (i in ln'.logs <==> ln'.states[i].finished)
      && (ln'.states[i].finished ==> |ln'.states[i].nids| >= quorum && ln'.logs[i] == ln'.states[i].val.value)
      && (!ln'.states[i].finished ==> ln' == ln || |ln'.states[i].nids| < quorum)
  {
    var i := m.inst;
    TopMore(ms, m, i, m.rnd);
    VotersMore(ms, m, i, m.rnd);
    FirstMore(ms, m, i, m.rnd, m.val);
    if i in ln.states {
      var st := ln.states[i];
      TopMore(ms, m, i, st.crnd);
      VotersMore(ms, m, i, st.crnd);
      FirstMore(ms, m, i, st.crnd, st.val.value);
      NothingAbove(ms, i, st.crnd, m.rnd);
      hide Settled, First, Voters;
    } else {
      NothingYet(ms, i, m.rnd);
      hide Settled, First, Voters;
    }
  }

  lemma NothingAbove(ms: seq<Msg>, i: nat, r: nat, r': nat)
    requires Votes(ms) && Top(ms, i, r)
    ensures r < r' ==> Voters(ms, i, r') == {} && forall x :: x in ms ==> !(x.inst == i && x.rnd == r')
  {
  }

  lemma NothingYet(ms: seq<Msg>, i: nat, r: nat)
    requires Votes(ms) && forall m :: m in ms ==> m.inst != i
    ensures Voters(ms, i, r) == {}
  {
  }

  lemma {:induction false} RunIsExact(quorum: nat, ms: seq<Msg>, i: nat)
    requires quorum > 0 && Votes(ms)
    ensures Exact(quorum, ms, i, Learned(quorum, ms))
  {
    if ms == [] {
      NoneOf(quorum, ms, i);
    } else {
      var m, rest := ms[|ms| - 1], ms[..|ms| - 1];
      assert ms == rest + [m];
      RunIsExact(quorum, rest, i);
      var ln := Learned(quorum, rest);
      hide Learned;
      assert Learned(quorum, ms) == AfterVote(quorum, ln, m).0 by { LastVote(quorum, ms); }
      SettledMore(quorum, rest, m, i);
      if m.inst != i {
        OtherPacket(quorum, rest, m, i, ln);
      } else if i in ln.logs {
        Frozen(quorum, ln, m);
        hide Settled, Decides, Tally, Counts;
      } else {
        OpenStep(quorum, rest, m, ln);
      }
    }
  }

  lemma OpenStep(quorum: nat, ms: seq<Msg>, m: Msg, ln: Learner)
    requires quorum > 0 && Votes(ms) && m.P2B? && Exact(quorum, ms, m.inst, ln) && m.inst !in ln.logs
    ensures Votes(ms + [m]) && Exact(quorum, ms + [m], m.inst, AfterVote(quorum, ln, m).0)
  {
    var i := m.inst;
    OwnPacket(quorum, ms, m, ln);
    SettledMore(quorum, ms, m, i);
    DecidesAt(quorum, ms + [m], i, AfterVote(quorum, ln, m).0.states[i].crnd);
    if i in ln.states { OpenIsShort(quorum, ms, i, ln); }
    hide Settled, Decides, Top, Voters, First, Counts, AfterVote;
  }

  lemma LastVote(quorum: nat, ms: seq<Msg>)
    requires Votes(ms) && ms != []
    ensures Learned(quorum, ms) == AfterVote(quorum, Learned(quorum, ms[..|ms| - 1]), ms[|ms| - 1]).0
  {
  }

  lemma Frozen(quorum: nat, ln: Learner, m: Msg)
    requires m.P2B? && m.inst in ln.states && ln.states[m.inst].finished
    ensures AfterVote(quorum, ln, m).0 == ln
  {
  }

  /** An open instance has less than a quorum. */
  lemma OpenIsShort(quorum: nat, ms: seq<Msg>, i: nat, ln: Learner)
    requires Votes(ms) && Exact(quorum, ms, i, ln) && i in ln.states && !ln.states[i].finished
    ensures |ln.states[i].nids| < quorum
  {
    DecidesAt(quorum, ms, i, ln.states[i].crnd);
    LastPrefix(quorum, ms, i);
  }

  // ----- the laws

  /** Of an open instance precisely the acceptors with a packet of its highest round are counted. */
  lemma OpenCountsHighest(quorum: nat, ms: seq<Msg>, i: nat)
    requires quorum > 0 && Votes(ms) && i !in Learned(quorum, ms).logs
    ensures i in Learned(quorum, ms).states <==> exists m :: m in ms && m.inst == i
    ensures i in Learned(quorum, ms).states ==>
      var st := Learned(quorum, ms).states[i];
      && !st.finished && Top(ms, i, st.crnd)
      && (forall a: nat :: a in st.nids <==> exists m :: m in ms && m.inst == i && m.rnd == st.crnd && m.acc == a)
  {
    RunIsExact(quorum, ms, i);
    hide Learned, Settled, First;
  }

  /**
   An instance is logged if and only if at some point of the stream a quorum of distinct
   acceptors had voted in one round with no packet of a newer round before.
   */
  lemma LoggedIffSettled(quorum: nat, ms: seq<Msg>, i: nat)
    requires quorum > 0 && Votes(ms)
    ensures i in Learned(quorum, ms).logs <==> exists p: nat, r: nat :: p <= |ms| && Top(ms[..p], i, r) && |Voters(ms[..p], i, r)| >= quorum
  {
    RunIsExact(quorum, ms, i);
    hide Learned, Exact, Top, Voters;
    if Settled(quorum, ms, i) {
      var p: nat :| p <= |ms| && Decides(quorum, ms[..p], i);
      var r: nat :| Top(ms[..p], i, r) && |Voters(ms[..p], i, r)| >= quorum;
    }
    if p: nat, r: nat :| p <= |ms| && Top(ms[..p], i, r) && |Voters(ms[..p], i, r)| >= quorum {
      assert Decides(quorum, ms[..p], i);
    }
  }

  /** The packets that were enough: the first deciding prefix, and the value of its round's first packet. */
  ghost predicate Earned(quorum: nat, ms: seq<Msg>, i: nat, p: nat, v: Value)
    requires Votes(ms)
  {
    && p <= |ms| && Decides(quorum, ms[..p], i)
    && (forall q: nat :: q < p ==> !Decides(quorum, ms[..q], i))
    && exists r: nat :: Top(ms[..p], i, r) && First(ms[..p], i, r, v)
  }

  lemma EarnedStays(quorum: nat, ms: seq<Msg>, m: Msg, i: nat, p: nat, v: Value)
    requires Votes(ms) && m.P2B? && Earned(quorum, ms, i, p, v)
    ensures Votes(ms + [m]) && Earned(quorum, ms + [m], i, p, v)
  {
    hide Decides, Top, First;
    assert forall q: nat :: q <= |ms| ==> (ms + [m])[..q] == ms[..q];
  }

  lemma EarnedNow(quorum: nat, ms: seq<Msg>, m: Msg, i: nat, r: nat, v: Value)
    requires Votes(ms) && m.P2B? && !Settled(quorum, ms, i)
    requires Votes(ms + [m]) && Top(ms + [m], i, r) && |Voters(ms + [m], i, r)| >= quorum && First(ms + [m], i, r, v)
    ensures Earned(quorum, ms + [m], i, |ms| + 1, v)
  {
    DecidesAt(quorum, ms + [m], i, r);
    hide Decides, Top, First, Voters;
    var all := ms + [m];
    assert all[..|ms| + 1] == all;
    assert forall q: nat :: q <= |ms| ==> all[..q] == ms[..q];
  }

  /** What is logged is the value of the first packet of the round that decided. */
  lemma {:induction false} LoggedIsEarned(quorum: nat, ms: seq<Msg>, i: nat) returns (p: nat)
    requires quorum > 0 && Votes(ms) && i in Learned(quorum, ms).logs
    ensures Earned(quorum, ms, i, p, Learned(quorum, ms).logs[i])
  {
    var m, rest := ms[|ms| - 1], ms[..|ms| - 1];
    assert ms == rest + [m];
    var ln := Learned(quorum, rest);
    LastVote(quorum, ms);
    RunIsExact(quorum, rest, i);
    if i in ln.logs {
      p := LoggedIsEarned(quorum, rest, i);
      KeptEntry(quorum, ln, m, i);
      hide Learned, Earned, Exact, AfterVote;
      EarnedStays(quorum, rest, m, i, p, ln.logs[i]);
    } else {
      OnlyOwn(quorum, ln, m, i);
      OwnPacket(quorum, rest, m, ln);
      hide Learned, Earned, Settled, Top, Voters, First, AfterVote;
      var st := AfterVote(quorum, ln, m).0.states[i];
      EarnedNow(quorum, rest, m, i, st.crnd, st.val.value);
      p := |rest| + 1;
    }
  }

  lemma KeptEntry(quorum: nat, ln: Learner, m: Msg, i: nat)
    requires m.P2B? && i in ln.logs && i in ln.states && ln.states[i].finished
    ensures i in AfterVote(quorum, ln, m).0.logs && AfterVote(quorum, ln, m).0.logs[i] == ln.logs[i]
  {
  }

  lemma OnlyOwn(quorum: nat, ln: Learner, m: Msg, i: nat)
    requires m.P2B? && i !in ln.logs && i in AfterVote(quorum, ln, m).0.logs
    ensures m.inst == i
  {
  }

  /** A vote reports a decision if and only if it logs its instance, and then reports what it logged. */
  lemma ReportsWhatItLogs(quorum: nat, ms: seq<Msg>, m: Msg)
    requires quorum > 0 && Votes(ms) && m.P2B?
    ensures var ln := Learned(quorum, ms);
      var (ln', res) := AfterVote(quorum, ln, m);
      res == if m.inst !in ln.logs && m.inst in ln'.logs then Some(Decision(m.inst, ln'.logs[m.inst])) else None
  {
    RunIsExact(quorum, ms, m.inst);
    hide Learned;
  }

  /**
   When the program as written raises: a packet of a newer round than any before, for an
   instance that has had packets but no quorum yet.
   */
  lemma RaisesWhen(quorum: nat, ms: seq<Msg>, m: Msg)
    requires quorum > 0 && Votes(ms) && m.P2B?
    ensures Raises(Learned(quorum, ms), m) <==>
      && (exists x :: x in ms && x.inst == m.inst)
      && (forall x :: x in ms && x.inst == m.inst ==> x.rnd < m.rnd)
      && !Settled(quorum, ms, m.inst)
  {
    RunIsExact(quorum, ms, m.inst);
    hide Learned, Settled, First, Voters;
  }
}
