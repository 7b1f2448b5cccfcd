/**
 The recovery leader: it counts 1B replies, one per acceptor, and picks a value.
 */
module Leader {
  import opened FiniteSets
  import opened Messages

  /** The majority of learner.py, with Python 2's integer division. */
  function Quorum(n: nat): nat
  {
    (n + 1) / 2
  }

  datatype State = State(nids: set<nat>, hvrnd: nat, hval: Value, finished: bool)

  datatype Reply = Reply(acc: nat, vrnd: nat, val: Value)

  function Fresh(blank: Value): State
  {
    State({}, 0, blank, false)
  }

  /**
   Counting one reply. A reply at least as high as the highest so far replaces the
   value; raises tells whether it also raises the bar, as the hardware leader does
   and the Python leader does not.
   */
  function Count(raises: bool, ld: State, m: Reply): State
  {
    if m.acc in ld.nids then ld
    else ld.(nids := ld.nids + {m.acc},
             hvrnd := if m.vrnd >= ld.hvrnd && raises then m.vrnd else ld.hvrnd,
             hval := if m.vrnd >= ld.hvrnd then m.val else ld.hval)
  }

  /** Collecting until a quorum has replied; the flag says that this reply completed it. */
  function Collect(quorum: nat, raises: bool, ld: State, m: Reply): (State, bool)
  {
    if ld.finished || m.acc in ld.nids then (ld, false)
    else
      var ld' := Count(raises, ld, m);
      if |ld'.nids| >= quorum then (ld'.(finished := true), true) else (ld', false)
  }

  function Fold(raises: bool, blank: Value, ms: seq<Reply>): State
  {
    if ms == [] then Fresh(blank) else Count(raises, Fold(raises, blank, ms[..|ms| - 1]), ms[|ms| - 1])
  }

  /** The p-th reply is its acceptor's first. */
  predicate First(ms: seq<Reply>, p: nat)
    requires p < |ms|
  {
    forall q :: 0 <= q < p ==> ms[q].acc != ms[p].acc
  }

  lemma {:induction false} FoldCounts(raises: bool, blank: Value, ms: seq<Reply>)
    ensures forall a :: a in Fold(raises, blank, ms).nids <==> exists p :: 0 <= p < |ms| && ms[p].acc == a
    ensures !Fold(raises, blank, ms).finished
  {
    if ms != [] {
      var rest := ms[..|ms| - 1];
      FoldCounts(raises, blank, rest);
      assert ms == rest + [ms[|ms| - 1]];
      assert forall p :: 0 <= p < |rest| ==> rest[p] == ms[p];
      assert ms[|ms| - 1].acc in Fold(raises, blank, ms).nids;
      forall a | a in Fold(raises, blank, ms).nids && a != ms[|ms| - 1].acc
        ensures exists p :: 0 <= p < |ms| && ms[p].acc == a
      {
        var p :| 0 <= p < |rest| && rest[p].acc == a;
        assert ms[p].acc == a;
      }
    }
  }

  /** best is the last first reply that reaches the bar, and no first reply is above it. */
  ghost predicate Highest(ms: seq<Reply>, ld: State, best: nat)
  {
    && best < |ms| && First(ms, best)
    && ms[best].vrnd == ld.hvrnd && ms[best].val == ld.hval
    && forall p :: 0 <= p < |ms| && First(ms, p) ==> ms[p].vrnd <= ld.hvrnd && (p > best ==> ms[p].vrnd < ld.hvrnd)
  }

  /**
   The highest-ballot rule as a property of the whole reply sequence: the bar is the
   maximum over first replies, the value belongs to the last first reply that
   reaches it, and repeated replies of an acceptor count for nothing.
   */
  lemma {:induction false} FoldIsHighest(blank: Value, ms: seq<Reply>) returns (best: nat)
    requires ms != []
    ensures Highest(ms, Fold(true, blank, ms), best)
  {
    var k := |ms| - 1;
    SameFirsts(ms, k);
    NewIffFirst(true, blank, ms, k);
    LastStep(true, blank, ms);
    NoReplies(true, blank);
    hide Fold, Highest;
    if k == 0 {
      best := 0;
      FirstIsHighest(blank, ms);
      assert ms[..k] == [];
    } else {
      best := FoldIsHighest(blank, ms[..k]);
      HighestMore(ms, Fold(true, blank, ms[..k]), best);
      if First(ms, k) && ms[k].vrnd >= Fold(true, blank, ms[..k]).hvrnd {
        best := k;
      }
    }
  }

  lemma FirstIsHighest(blank: Value, ms: seq<Reply>)
    requires |ms| == 1
    ensures Highest(ms, Count(true, Fresh(blank), ms[0]), 0)
  {
  }

  lemma HighestMore(ms: seq<Reply>, ld: State, best: nat)
    requires |ms| > 1 && Highest(ms[..|ms| - 1], ld, best)
    requires First(ms, |ms| - 1) <==> ms[|ms| - 1].acc !in ld.nids
    requires forall p :: 0 <= p < |ms| - 1 ==> (First(ms, p) <==> First(ms[..|ms| - 1], p))
    ensures var k := |ms| - 1;
      Highest(ms, Count(true, ld, ms[k]), if First(ms, k) && ms[k].vrnd >= ld.hvrnd then k else best)
  {
    hide First;
    assert forall p :: 0 <= p < |ms| - 1 ==> ms[..|ms| - 1][p] == ms[p];
  }

  lemma FoldMore(raises: bool, blank: Value, ms: seq<Reply>, m: Reply)
    ensures Fold(raises, blank, ms + [m]) == Count(raises, Fold(raises, blank, ms), m)
  {
    assert (ms + [m])[..|ms|] == ms;
  }

  lemma NoReplies(raises: bool, blank: Value)
    ensures Fold(raises, blank, []) == Fresh(blank)
  {
  }

  lemma LastStep(raises: bool, blank: Value, ms: seq<Reply>)
    requires ms != []
    ensures Fold(raises, blank, ms) == Count(raises, Fold(raises, blank, ms[..|ms| - 1]), ms[|ms| - 1])
  {
  }

  lemma SameFirsts(ms: seq<Reply>, k: nat)
    requires k <= |ms|
    ensures forall p :: 0 <= p < k ==> (First(ms, p) <==> First(ms[..k], p))
  {
    assert forall p :: 0 <= p < k ==> ms[..k][p] == ms[p];
  }

  lemma NewIffFirst(raises: bool, blank: Value, ms: seq<Reply>, p: nat)
    requires p < |ms|
    ensures First(ms, p) <==> ms[p].acc !in Fold(raises, blank, ms[..p]).nids
  {
    FoldCounts(raises, blank, ms[..p]);
    assert forall q :: 0 <= q < p ==> ms[..p][q] == ms[q];
    if ms[p].acc in Fold(raises, blank, ms[..p]).nids {
      var q :| 0 <= q < p && ms[..p][q].acc == ms[p].acc;
      assert ms[q].acc == ms[p].acc;
    } else {
      forall q | 0 <= q < p ensures ms[q].acc != ms[p].acc {
        assert ms[..p][q].acc in Fold(raises, blank, ms[..p]).nids;
      }
    }
  }

  /** The p-th reply is the one at which a quorum is complete. */
  predicate Finishes(quorum: nat, raises: bool, blank: Value, ms: seq<Reply>, p: nat)
    requires p < |ms|
  {
    && First(ms, p)
    && |Fold(raises, blank, ms[..p]).nids| + 1 == quorum
  }

  lemma {:induction false} NidsGrow(raises: bool, blank: Value, ms: seq<Reply>, p: nat, q: nat)
    requires p <= q <= |ms|
    ensures Fold(raises, blank, ms[..p]).nids <= Fold(raises, blank, ms[..q]).nids
    ensures |Fold(raises, blank, ms[..p]).nids| <= |Fold(raises, blank, ms[..q]).nids|
    decreases q
  {
    hide Fold;
    if p < q {
      NidsGrow(raises, blank, ms, p, q - 1);
      assert ms[..q][..q - 1] == ms[..q - 1];
      LastStep(raises, blank, ms[..q]);
    }
    SubsetSize(Fold(raises, blank, ms[..p]).nids, Fold(raises, blank, ms[..q]).nids);
  }

  /** The quorum is completed at most once. */
  lemma FinishesAtMostOnce(quorum: nat, raises: bool, blank: Value, ms: seq<Reply>, p: nat, q: nat)
    requires p < |ms| && q < |ms|
    requires Finishes(quorum, raises, blank, ms, p) && Finishes(quorum, raises, blank, ms, q)
    ensures p == q
  {
    CountsOne(raises, blank, ms, p);
    CountsOne(raises, blank, ms, q);
    if p < q { NidsGrow(raises, blank, ms, p + 1, q); }
    if q < p { NidsGrow(raises, blank, ms, q + 1, p); }
  }

  /** It is completed exactly when enough acceptors have replied. */
  lemma {:induction false} FinishesIffQuorum(quorum: nat, raises: bool, blank: Value, ms: seq<Reply>)
    requires quorum > 0
    ensures (exists p :: 0 <= p < |ms| && Finishes(quorum, raises, blank, ms, p))
       <==> |Fold(raises, blank, ms).nids| >= quorum
  {
    if ms != [] {
      var k := |ms| - 1;
      var rest := ms[..k];
      FinishesIffQuorum(quorum, raises, blank, rest);
      CountsOne(raises, blank, ms, k);
      assert ms[..k + 1] == ms;
      FinishesAt(quorum, raises, blank, ms, k);
      forall p | 0 <= p < k ensures Finishes(quorum, raises, blank, rest, p) <==> Finishes(quorum, raises, blank, ms, p) {
        FinishesInPrefix(quorum, raises, blank, ms, k, p);
      }
      hide Fold, Finishes, First;
      if |Fold(raises, blank, rest).nids| >= quorum {
        var p :| 0 <= p < k && Finishes(quorum, raises, blank, rest, p);
        assert Finishes(quorum, raises, blank, ms, p);
      } else {
        assert forall p :: 0 <= p < k ==> !Finishes(quorum, raises, blank, ms, p);
      }
    }
  }

  lemma FinishesInPrefix(quorum: nat, raises: bool, blank: Value, ms: seq<Reply>, k: nat, p: nat)
    requires p < k <= |ms|
    ensures Finishes(quorum, raises, blank, ms[..k], p) <==> Finishes(quorum, raises, blank, ms, p)
  {
    SameFirsts(ms, k);
    assert ms[..k][..p] == ms[..p];
  }

  lemma FinishesAt(quorum: nat, raises: bool, blank: Value, ms: seq<Reply>, p: nat)
    requires p < |ms|
    ensures Finishes(quorum, raises, blank, ms, p) <==> First(ms, p) && |Fold(raises, blank, ms[..p]).nids| + 1 == quorum
  {
  }

  lemma CountsOne(raises: bool, blank: Value, ms: seq<Reply>, p: nat)
    requires p < |ms|
    ensures var before, after := Fold(raises, blank, ms[..p]).nids, Fold(raises, blank, ms[..p + 1]).nids;
      |after| == if First(ms, p) then |before| + 1 else |before|
  {
    assert ms[..p + 1][..p] == ms[..p];
    NewIffFirst(raises, blank, ms, p);
  }

  /** What a leader holds after collecting ms. */
  function Gathered(quorum: nat, raises: bool, blank: Value, ms: seq<Reply>): State
  {
    if ms == [] then Fresh(blank) else Collect(quorum, raises, Gathered(quorum, raises, blank, ms[..|ms| - 1]), ms[|ms| - 1]).0
  }

  lemma NothingGathered(quorum: nat, raises: bool, blank: Value)
    ensures Gathered(quorum, raises, blank, []) == Fold(raises, blank, [])
    ensures |Fold(raises, blank, []).nids| == 0
  {
  }

  /** Collecting a reply sequence is the fold of it, up to the reply that completes the quorum. */
  lemma {:induction false} CollectIsFold(quorum: nat, raises: bool, blank: Value, ms: seq<Reply>) returns (k: nat)
    requires quorum > 0
    ensures k <= |ms|
    ensures |Fold(raises, blank, ms).nids| < quorum ==>
      k == |ms| && Gathered(quorum, raises, blank, ms) == Fold(raises, blank, ms)
    ensures |Fold(raises, blank, ms).nids| >= quorum ==>
      && k > 0 && Finishes(quorum, raises, blank, ms, k - 1)
      && Gathered(quorum, raises, blank, ms) == Fold(raises, blank, ms[..k]).(finished := true)
  {
    hide Fold, Finishes, Gathered;
    k := |ms|;
    if ms == [] {
      NothingGathered(quorum, raises, blank);
    } else {
      var n, rest := |ms| - 1, ms[..|ms| - 1];
      var k0 := CollectIsFold(quorum, raises, blank, rest);
      GatheredMore(quorum, raises, blank, ms);
      if |Fold(raises, blank, rest).nids| >= quorum {
        k := k0;
        NidsGrow(raises, blank, ms, n, |ms|);
        assert ms[..|ms|] == ms;
        FinishesInPrefix(quorum, raises, blank, ms, n, k - 1);
        assert rest[..k] == ms[..k];
      } else {
        StillGathering(quorum, raises, blank, ms);
        assert ms[..|ms|] == ms;
      }
    }
  }

  lemma StillGathering(quorum: nat, raises: bool, blank: Value, ms: seq<Reply>)
    requires ms != [] && |Fold(raises, blank, ms[..|ms| - 1]).nids| < quorum
    requires Gathered(quorum, raises, blank, ms[..|ms| - 1]) == Fold(raises, blank, ms[..|ms| - 1])
    ensures |Fold(raises, blank, ms).nids| < quorum ==>
      Gathered(quorum, raises, blank, ms) == Fold(raises, blank, ms)
    ensures |Fold(raises, blank, ms).nids| >= quorum ==>
      && Finishes(quorum, raises, blank, ms, |ms| - 1)
      && Gathered(quorum, raises, blank, ms) == Fold(raises, blank, ms).(finished := true)
  {
    FoldCounts(raises, blank, ms[..|ms| - 1]);
    LastStep(raises, blank, ms);
    GatheredMore(quorum, raises, blank, ms);
    NewIffFirst(raises, blank, ms, |ms| - 1);
    FinishesAt(quorum, raises, blank, ms, |ms| - 1);
    hide Fold, Finishes, First, Gathered;
    var before, a := Fold(raises, blank, ms[..|ms| - 1]), ms[|ms| - 1].acc;
    if a !in before.nids { AddOne(before.nids, a); }
  }

  lemma GatheredMore(quorum: nat, raises: bool, blank: Value, ms: seq<Reply>)
    requires ms != []
    ensures Gathered(quorum, raises, blank, ms) == Collect(quorum, raises, Gathered(quorum, raises, blank, ms[..|ms| - 1]), ms[|ms| - 1]).0
  {
  }

  /** The leader proposes at the reply that completes the quorum, and at no other. */
  lemma CollectProposesAtFinish(quorum: nat, raises: bool, blank: Value, ms: seq<Reply>, p: nat)
    requires quorum > 0 && p < |ms|
    ensures Collect(quorum, raises, Gathered(quorum, raises, blank, ms[..p]), ms[p]).1 <==> Finishes(quorum, raises, blank, ms, p)
  {
    var k := CollectIsFold(quorum, raises, blank, ms[..p]);
    FoldCounts(raises, blank, ms[..p]);
    NewIffFirst(raises, blank, ms, p);
    FinishesAt(quorum, raises, blank, ms, p);
    hide Fold, Finishes, First, Gathered;
  }

  /**
   The Python leader never raises its bar. It picks the value the highest-ballot rule
   picks exactly when the reply it counts last reports a round at least as high as
   those before, or happens to repeat the rule's value.
   */
  lemma WithoutRaising(blank: Value, ms: seq<Reply>, m: Reply)
    requires forall p :: 0 <= p < |ms| ==> ms[p].acc != m.acc
    ensures Fold(false, blank, ms + [m]).hval == m.val
    ensures Fold(false, blank, ms + [m]).hval == Fold(true, blank, ms + [m]).hval
       <==> m.vrnd >= Fold(true, blank, ms).hvrnd || m.val == Fold(true, blank, ms).hval
  {
    assert (ms + [m])[..|ms|] == ms;
    FoldCounts(true, blank, ms);
    FoldCounts(false, blank, ms);
    BarStaysLow(blank, ms);
  }

  lemma {:induction false} BarStaysLow(blank: Value, ms: seq<Reply>)
    ensures Fold(false, blank, ms).hvrnd == 0
  {
    if ms != [] { BarStaysLow(blank, ms[..|ms| - 1]); }
  }

  ghost predicate IsQuorum(n: nat, a: set<nat>)
  {
    a <= Below(n) && |a| >= Quorum(n)
  }

  /** Two quorums always share an acceptor exactly when the number of acceptors is odd. */
  lemma QuorumsMeet(n: nat)
    ensures (forall a: set<nat>, b: set<nat> :: IsQuorum(n, a) && IsQuorum(n, b) ==> a * b != {}) <==> n % 2 == 1
  {
    if n % 2 == 1 {
      forall a: set<nat>, b: set<nat> | IsQuorum(n, a) && IsQuorum(n, b) ensures a * b != {} {
        Pigeonhole(a, b, n);
      }
    } else {
      var a, b := EvenSplit(n);
    }
  }

  lemma EvenSplit(n: nat) returns (a: set<nat>, b: set<nat>)
    requires n % 2 == 0
    ensures IsQuorum(n, a) && IsQuorum(n, b) && a * b == {}
  {
    BelowSize(n);
    BelowSize(n / 2);
    a, b := Below(n / 2), Below(n) - Below(n / 2);
    assert Below(n) == a + b;
  }
}
