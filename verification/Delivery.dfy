/**
 In-order delivery: decided instances are handed to the application by number, each
 once, and never past a gap.
 */
module Delivery {
  import opened Messages
  import opened PyLearner
  import Leader

  datatype Replica = Replica(learner: PyLearner.Learner, min: nat, max: nat, delivered: seq<Value>)

  const START: Replica := Replica(EMPTY, 1, 1, [])

  /** Where delivery from min stops: at the first gap, or just past max. */
  function Advance(logs: map<nat, Value>, min: nat, max: nat): (stop: nat)
    ensures min <= stop
    decreases max + 1 - min
  {
    if min !in logs then min
    else if min < max then Advance(logs, min + 1, max)
    else min + 1
  }

  /** The logged values of the instances from lo up to but not including hi. */
  function Entries(logs: map<nat, Value>, lo: nat, hi: nat): seq<Value>
  {
    if hi <= lo then []
    else Entries(logs, lo, hi - 1) + [if hi - 1 in logs then logs[hi - 1] else []]
  }

  /** What a 2B packet does to a replica. */
  function AfterPacket(quorum: nat, rp: Replica, m: Msg): Replica
    requires m.P2B?
  {
    match AfterVote(quorum, rp.learner, m)
    case (ln, None) => rp.(learner := ln)
    case (ln, Some(d)) =>
      var max := if rp.max < d.inst then d.inst else rp.max;
      if d.inst < rp.min then
        Replica(ln, rp.min, max, rp.delivered)
      else
        var min := Advance(ln.logs, rp.min, max);
        Replica(ln, min, max, rp.delivered + Entries(ln.logs, rp.min, min))
  }

  function After(quorum: nat, ms: seq<Msg>): Replica
    requires forall m :: m in ms ==> m.P2B?
  {
    if ms == [] then START else AfterPacket(quorum, After(quorum, ms[..|ms| - 1]), ms[|ms| - 1])
  }

  /** min is the least positive instance without a decision, and exactly the entries below it have been delivered. */
  ghost predicate InOrder(rp: Replica)
  {
    && 1 <= rp.min <= rp.max + 1
    && (forall j :: 1 <= j < rp.min ==> j in rp.learner.logs)
    && rp.min !in rp.learner.logs
    && (forall j :: j in rp.learner.logs ==> j <= rp.max)
    && (rp.max in rp.learner.logs || (rp.max == 1 && forall j :: j in rp.learner.logs ==> j == 0))
    && rp.delivered == Entries(rp.learner.logs, 1, rp.min)
  }

  lemma {:induction false} AdvanceStopsAtGap(logs: map<nat, Value>, min: nat, max: nat)
    requires min <= max + 1 && forall j :: j in logs ==> j <= max
    ensures min <= Advance(logs, min, max) <= max + 1
    ensures forall j :: min <= j < Advance(logs, min, max) ==> j in logs
    ensures Advance(logs, min, max) !in logs
    decreases max + 1 - min
  {
    if min in logs && min < max { AdvanceStopsAtGap(logs, min + 1, max); }
  }

  lemma {:induction false} EntriesAgree(logs: map<nat, Value>, logs': map<nat, Value>, lo: nat, hi: nat)
    requires forall j :: lo <= j < hi ==> j in logs && j in logs' && logs[j] == logs'[j]
    ensures Entries(logs, lo, hi) == Entries(logs', lo, hi)
  {
    if lo < hi { EntriesAgree(logs, logs', lo, hi - 1); }
  }

  lemma LastEntry(logs: map<nat, Value>, lo: nat, hi: nat)
    requires lo < hi
    ensures Entries(logs, lo, hi) == Entries(logs, lo, hi - 1) + [if hi - 1 in logs then logs[hi - 1] else []]
    ensures Entries(logs, lo, lo) == []
  {
  }

  lemma {:induction false} EntriesJoin(logs: map<nat, Value>, lo: nat, mid: nat, hi: nat)
    requires lo <= mid <= hi
    ensures Entries(logs, lo, mid) + Entries(logs, mid, hi) == Entries(logs, lo, hi)
    decreases hi
  {
    if mid < hi {
      EntriesJoin(logs, lo, mid, hi - 1);
      LastEntry(logs, lo, hi);
      LastEntry(logs, mid, hi);
      hide Entries;
    } else {
      assert Entries(logs, mid, hi) == [];
    }
  }

  lemma {:induction false} EntriesAt(logs: map<nat, Value>, lo: nat, hi: nat, j: nat)
    requires lo <= j < hi && j in logs
    ensures |Entries(logs, lo, hi)| == hi - lo && Entries(logs, lo, hi)[j - lo] == logs[j]
  {
    EntriesLength(logs, lo, hi - 1);
    if j < hi - 1 { EntriesAt(logs, lo, hi - 1, j); }
  }

  lemma {:induction false} EntriesLength(logs: map<nat, Value>, lo: nat, hi: nat)
    ensures |Entries(logs, lo, hi)| == if lo <= hi then hi - lo else 0
  {
    if lo < hi { EntriesLength(logs, lo, hi - 1); }
  }

  /** A fresh decision is below min exactly when it is for instance 0, the only one the delivery index skips. */
  lemma FreshDecisionPosition(rp: Replica, d: Decision)
    requires InOrder(rp) && d.inst !in rp.learner.logs
    ensures d.inst < rp.min <==> d.inst == 0
  {
  }

  /** The only packets whose decision is not delivered or retried are for instance 0. */
  lemma OnlyInstanceZeroIsSkipped(quorum: nat, rp: Replica, m: Msg)
    requires Orderly(rp.learner) && m.P2B? && InOrder(rp)
    ensures match AfterVote(quorum, rp.learner, m).1
            case None => true
            case Some(d) => d.inst < rp.min <==> m.inst == 0
  {
    StepStaysOrderly(quorum, rp.learner, m);
  }

  /** Delivery up to the next gap keeps the order, once the decision of instance i is logged. */
  lemma DeliveryKeepsOrder(rp: Replica, ln: PyLearner.Learner, i: nat, max: nat)
    requires InOrder(rp) && rp.min <= i && i in ln.logs && max == if rp.max < i then i else rp.max
    requires forall j :: j in ln.logs <==> j in rp.learner.logs || j == i
    requires forall j :: j in rp.learner.logs ==> ln.logs[j] == rp.learner.logs[j]
    ensures var min := Advance(ln.logs, rp.min, max);
      InOrder(Replica(ln, min, max, rp.delivered + Entries(ln.logs, rp.min, min)))
  {
    EntriesAgree(rp.learner.logs, ln.logs, 1, rp.min);
    AdvanceStopsAtGap(ln.logs, rp.min, max);
    EntriesJoin(ln.logs, 1, rp.min, Advance(ln.logs, rp.min, max));
    hide Advance, Entries;
  }

  /** Every packet keeps delivery in order. */
  lemma StepKeepsOrder(quorum: nat, rp: Replica, m: Msg)
    requires Orderly(rp.learner) && m.P2B? && InOrder(rp)
    ensures Orderly(AfterPacket(quorum, rp, m).learner) && InOrder(AfterPacket(quorum, rp, m))
    ensures rp.delivered <= AfterPacket(quorum, rp, m).delivered
  {
    StepStaysOrderly(quorum, rp.learner, m);
    hide Orderly, AfterVote, Advance, Entries;
    match AfterVote(quorum, rp.learner, m)
    case (ln, None) =>
      EntriesAgree(rp.learner.logs, ln.logs, 1, rp.min);
    case (ln, Some(d)) =>
      FreshDecisionPosition(rp, d);
      if d.inst >= rp.min {
        DeliveryKeepsOrder(rp, ln, d.inst, if rp.max < d.inst then d.inst else rp.max);
      } else {
        EntriesAgree(rp.learner.logs, ln.logs, 1, rp.min);
      }
  }

  /** A whole run keeps delivery in order, whatever the packets are, in whatever order and however often they repeat. */
  lemma {:induction false} RunKeepsOrder(quorum: nat, ms: seq<Msg>)
    requires forall m :: m in ms ==> m.P2B?
    ensures Orderly(After(quorum, ms).learner) && InOrder(After(quorum, ms))
  {
    if ms != [] {
      RunKeepsOrder(quorum, ms[..|ms| - 1]);
      StepKeepsOrder(quorum, After(quorum, ms[..|ms| - 1]), ms[|ms| - 1]);
    }
  }

  lemma OrderedBounds(rp: Replica)
    requires InOrder(rp)
    ensures 1 <= rp.min <= rp.max + 1
  {
  }

  // ----- what is retried, said of the log

  /** g is the least positive instance that is not logged. */
  predicate LeastMissing(logs: map<nat, Value>, g: nat)
  {
    1 <= g && g !in logs && forall j :: 1 <= j < g ==> j in logs
  }

  /** Some positive instance that is not logged lies below a logged one. */
  ghost predicate HasGap(logs: map<nat, Value>)
  {
    exists g: nat, j: nat :: 1 <= g < j && g !in logs && j in logs
  }

  /**
   What a packet of instance inst adds to the instances retried, with min the index before
   it: the least missing instance, when the packet decided an instance not below the index
   and left a gap, and else nothing.
   */
  ghost predicate Retries(logs: map<nat, Value>, logs': map<nat, Value>, min: nat, inst: nat, sent: seq<nat>)
  {
    if inst !in logs && inst in logs' && inst >= min && HasGap(logs') then |sent| == 1 && LeastMissing(logs', sent[0])
    else sent == []
  }

  /** Delivery stops at the least missing instance, and below the highest one if and only if there is a gap. */
  lemma StopsBelowMaxIffGap(quorum: nat, rp: Replica, m: Msg)
    requires Orderly(rp.learner) && m.P2B? && InOrder(rp)
    ensures var (ln, res) := AfterVote(quorum, rp.learner, m); var rp' := AfterPacket(quorum, rp, m);
      && (res.Some? <==> m.inst !in rp.learner.logs && m.inst in ln.logs)
      && (res.Some? ==> res.value.inst == m.inst)
      && (res.Some? && m.inst >= rp.min ==> LeastMissing(ln.logs, rp'.min) && (HasGap(ln.logs) <==> rp'.min <= rp'.max))
  {
    StepKeepsOrder(quorum, rp, m);
    StepStaysOrderly(quorum, rp.learner, m);
    hide Orderly, Entries, Advance;
    var (ln, res) := AfterVote(quorum, rp.learner, m);
    if res.Some? && m.inst >= rp.min {
      var rp' := AfterPacket(quorum, rp, m);
      assert m.inst in ln.logs && m.inst >= 1 && rp'.max in ln.logs;
      if rp'.min <= rp'.max {
        assert 1 <= rp'.min < rp'.max && rp'.min !in ln.logs && rp'.max in ln.logs;
      }
    }
  }

  /** The j-th delivered value is the logged value of instance j. */
  lemma DeliveredAt(rp: Replica, j: nat)
    requires InOrder(rp) && 1 <= j <= |rp.delivered|
    ensures j in rp.learner.logs && rp.delivered[j - 1] == rp.learner.logs[j]
  {
    EntriesLength(rp.learner.logs, 1, rp.min);
    EntriesAt(rp.learner.logs, 1, rp.min, j);
  }

  lemma OrderedPrefix(rp: Replica, rp': Replica)
    requires InOrder(rp) && InOrder(rp') && rp.min <= rp'.min
    requires forall i :: i in rp.learner.logs && i in rp'.learner.logs ==> rp.learner.logs[i] == rp'.learner.logs[i]
    ensures rp.delivered <= rp'.delivered
  {
    EntriesAgree(rp.learner.logs, rp'.learner.logs, 1, rp.min);
    EntriesJoin(rp'.learner.logs, 1, rp.min, rp'.min);
  }

  /** Replicas whose logs do not contradict each other have delivered prefixes of one sequence. */
  lemma PrefixComparable(rp: Replica, rp': Replica)
    requires InOrder(rp) && InOrder(rp')
    requires forall i :: i in rp.learner.logs && i in rp'.learner.logs ==> rp.learner.logs[i] == rp'.learner.logs[i]
    ensures rp.delivered <= rp'.delivered || rp'.delivered <= rp.delivered
  {
    hide InOrder;
    if rp.min <= rp'.min {
      OrderedPrefix(rp, rp');
    } else {
      OrderedPrefix(rp', rp);
    }
  }

  lemma {:induction false} AdvanceBound(logs: map<nat, Value>, min: nat, max: nat)
    ensures min <= max ==> Advance(logs, min, max) <= max + 1
    decreases max + 1 - min
  {
    if min < max { AdvanceBound(logs, min + 1, max); }
  }

  lemma OneMore(quorum: nat, ms: seq<Msg>, m: Msg)
    requires m.P2B? && forall m' :: m' in ms ==> m'.P2B?
    ensures After(quorum, ms + [m]) == AfterPacket(quorum, After(quorum, ms), m)
  {
    assert (ms + [m])[..|ms|] == ms;
  }

  // ----- the replica as it is written

  /**
   The packet ends the replica: the learner raises on it, or it decides an instance below
   the delivery index, where the program attaches a callback to nothing.
   */
  predicate Ends(quorum: nat, rp: Replica, m: Msg)
    requires m.P2B?
  {
    Raises(rp.learner, m) || var d := AfterVote(quorum, rp.learner, m).1; d.Some? && d.value.inst < rp.min
  }

  /** The replica as written, with nothing left once a packet has ended it. */
  function Written(quorum: nat, ms: seq<Msg>): Option<Replica>
    requires forall m :: m in ms ==> m.P2B?
  {
    if ms == [] then Some(START)
    else
      match Written(quorum, ms[..|ms| - 1])
      case None => None
      case Some(rp) => if Ends(quorum, rp, ms[|ms| - 1]) then None else Some(AfterPacket(quorum, rp, ms[|ms| - 1]))
  }

  ghost predicate NoneEnds(quorum: nat, ms: seq<Msg>)
    requires forall m :: m in ms ==> m.P2B?
  {
    forall p :: 0 <= p < |ms| ==> !Ends(quorum, After(quorum, ms[..p]), ms[p])
  }

  lemma NoneEndsMore(quorum: nat, ms: seq<Msg>)
    requires ms != [] && forall m :: m in ms ==> m.P2B?
    ensures var k := |ms| - 1;
      NoneEnds(quorum, ms) <==> NoneEnds(quorum, ms[..k]) && !Ends(quorum, After(quorum, ms[..k]), ms[k])
  {
    hide After, Ends;
    var k := |ms| - 1;
    forall p | 0 <= p < k
      ensures Ends(quorum, After(quorum, ms[..k][..p]), ms[..k][p]) <==> Ends(quorum, After(quorum, ms[..p]), ms[p])
    {
      assert ms[..k][p] == ms[p] && ms[..k][..p] == ms[..p];
    }
    if !NoneEnds(quorum, ms[..k]) {
      var p :| 0 <= p < k && Ends(quorum, After(quorum, ms[..k][..p]), ms[..k][p]);
      assert Ends(quorum, After(quorum, ms[..p]), ms[p]);
    }
  }

  lemma NoPackets(quorum: nat)
    ensures NoneEnds(quorum, [])
  {
  }

  /** The replica as written and the one meant agree on a stream if and only if no packet of it ends it. */
  lemma {:induction false} WrittenIsMeant(quorum: nat, ms: seq<Msg>)
    requires forall m :: m in ms ==> m.P2B?
    ensures Written(quorum, ms) == if NoneEnds(quorum, ms) then Some(After(quorum, ms)) else None
  {
    hide NoneEnds, Ends, AfterPacket;
    if ms != [] {
      NoneEndsMore(quorum, ms);
      WrittenIsMeant(quorum, ms[..|ms| - 1]);
    } else {
      NoPackets(quorum);
    }
  }

  lemma {:induction false} LearnerOf(quorum: nat, ms: seq<Msg>)
    requires forall m :: m in ms ==> m.P2B?
    ensures After(quorum, ms).learner == PyLearner.Learned(quorum, ms)
  {
    if ms != [] { LearnerOf(quorum, ms[..|ms| - 1]); }
  }

  /** A stream on which the learner as written raises ends the replica as written. */
  lemma WrittenCoversRaises(quorum: nat, ms: seq<Msg>)
    requires forall m :: m in ms ==> m.P2B?
    ensures Written(quorum, ms).Some? ==> AsWritten(quorum, ms).Some?
  {
    WrittenIsMeant(quorum, ms);
    AsWrittenIsMeant(quorum, ms);
    hide After, PyLearner.Learned, Written, AsWritten, Raises, AfterVote;
    forall p | 0 <= p < |ms| ensures After(quorum, ms[..p]).learner == PyLearner.Learned(quorum, ms[..p]) {
      LearnerOf(quorum, ms[..p]);
    }
    if !NoneRaises(quorum, ms) {
      var p :| 0 <= p < |ms| && Raises(PyLearner.Learned(quorum, ms[..p]), ms[p]);
      assert Ends(quorum, After(quorum, ms[..p]), ms[p]);
    }
  }

  // ----- the object of the program

  class Learner {
    const learner: PaxosLearner
    var minUncommitedIndex: nat
    var maxInstance: nat
    var delivered: seq<Value>   // the commands passed to the deliver callback
    var retried: seq<nat>       // the instances a 1A was sent for
    ghost var history: seq<Msg> // the 2B packets handled

    ghost function Abstract(): Replica
      reads this, learner
    {
      Replica(PyLearner.Learner(learner.states, learner.logs), minUncommitedIndex, maxInstance, delivered)
    }

    /** The object is the replica that its packets lead to. */
    ghost predicate Valid()
      reads this, learner
    {
      && learner.Valid() && history == learner.votes
      && Abstract() == After(learner.majority, history)
    }

    constructor (numAcceptors: nat, blank: Value)
      ensures Valid() && history == [] && learner.majority == Leader.Quorum(numAcceptors) && retried == []
      ensures fresh(learner)
    {
      learner := new PaxosLearner(numAcceptors, blank);
      minUncommitedIndex, maxInstance := 1, 1;
      delivered, retried, history := [], [], [];
    }

    /** handled is false where the program returns nothing at all: for an instance below the index. */
    method DeliverInstance(inst: nat) returns (handled: bool)
      requires inst <= maxInstance && minUncommitedIndex <= maxInstance + 1
      modifies this`minUncommitedIndex, this`delivered, this`retried
      ensures handled <==> inst >= old(minUncommitedIndex)
      ensures minUncommitedIndex == if handled then Advance(learner.logs, old(minUncommitedIndex), maxInstance) else old(minUncommitedIndex)
      ensures delivered == old(delivered) + Entries(learner.logs, old(minUncommitedIndex), minUncommitedIndex)
      ensures retried == old(retried) + if handled && minUncommitedIndex <= maxInstance then [minUncommitedIndex] else []
      decreases maxInstance + 1 - minUncommitedIndex, if inst > minUncommitedIndex then inst - minUncommitedIndex else 0
    {
      EntriesLength(learner.logs, minUncommitedIndex, minUncommitedIndex);
      if inst == minUncommitedIndex {
        handled := true;
        if inst !in learner.logs {
          retried := retried + [inst];
          return;
        }
        ghost var min0 := minUncommitedIndex;
        delivered := delivered + [learner.logs[inst]];
        minUncommitedIndex := minUncommitedIndex + 1;
        assert delivered == old(delivered) + Entries(learner.logs, min0, min0 + 1);
        if inst < maxInstance {
          var _ := DeliverInstance(inst + 1);
          EntriesJoin(learner.logs, min0, min0 + 1, minUncommitedIndex);
        }
      } else if inst > minUncommitedIndex {
        handled := DeliverInstance(inst - 1);
      } else {
        handled := false;
      }
    }

    /**
     A 2B packet. ok is false where attaching a callback to nothing raises, and unnamed
     is true where the learner's class name is not in scope.
     */
    method HandlePkt(m: Msg) returns (ok: bool, unnamed: bool)
      requires Valid() && m.P2B?
      modifies this, learner
      ensures Valid() && history == old(history) + [m]
      ensures unnamed <==> Raises(old(Abstract().learner), m)
      ensures unnamed || !ok <==> Ends(learner.majority, old(Abstract()), m)
      ensures var decision := AfterVote(learner.majority, old(Abstract().learner), m).1;
        ok <==> (decision.Some? ==> decision.value.inst >= old(minUncommitedIndex))
      ensures old(retried) <= retried
      ensures Retries(old(learner.logs), learner.logs, old(minUncommitedIndex), m.inst, retried[|old(retried)|..])
    {
      hide After, AfterVote, InOrder, Orderly, HasGap, LeastMissing;
      ok := true;
      OneMore(learner.majority, history, m);
      RunKeepsOrder(learner.majority, history);
      StopsBelowMaxIffGap(learner.majority, Abstract(), m);
      OrderedBounds(Abstract());
      history := history + [m];
      var res, raised := learner.HandleP2b(m);
      unnamed := raised;
      if res.Some? {
        var inst := res.value.inst;
        if maxInstance < inst {
          maxInstance := inst;
        }
        AdvanceBound(learner.logs, minUncommitedIndex, maxInstance);
        ok := DeliverInstance(inst);
      }
    }
  }
}
