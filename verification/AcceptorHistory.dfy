/**
 What a whole message history does to one acceptor, whatever the messages are.
 */
module AcceptorHistory {
  import opened Messages
  import opened Acceptor

  /** The reply to the p-th message. */
  function Reply(id: nat, blank: Value, ms: seq<Msg>, p: nat): Option<Msg>
    requires p < |ms|
  {
    Step(id, blank, After(id, blank, ms[..p]), ms[p]).1
  }

  /** The p-th message made the acceptor vote for v in round r of instance i. */
  predicate Votes(id: nat, blank: Value, ms: seq<Msg>, p: nat, i: nat, r: nat, v: Value)
    requires p < |ms|
  {
    Reply(id, blank, ms, p) == Some(P2B(i, r, id, v))
  }

  lemma AfterPrefix(id: nat, blank: Value, ms: seq<Msg>, p: nat)
    requires p < |ms|
    ensures After(id, blank, ms[..p + 1]) == Step(id, blank, After(id, blank, ms[..p]), ms[p]).0
  {
    assert ms[..p + 1][..p] == ms[..p];
  }

  /** The registers of instance i after the first p messages. */
  function Before(id: nat, blank: Value, ms: seq<Msg>, p: nat, i: nat): Reg
    requires p <= |ms|
  {
    At(After(id, blank, ms[..p]), i, blank)
  }

  /** One message: registers only move up, and a vote or promise of instance i shows in its registers. */
  lemma OneMessage(id: nat, blank: Value, ms: seq<Msg>, p: nat, i: nat)
    requires p < |ms| && Before(id, blank, ms, p, i).vrnd <= Before(id, blank, ms, p, i).rnd
    ensures var b, a, reply := Before(id, blank, ms, p, i), Before(id, blank, ms, p + 1, i), Reply(id, blank, ms, p);
      && b.rnd <= a.rnd && b.vrnd <= a.vrnd <= a.rnd
      && (reply.Some? && reply.value.P2B? && reply.value.inst == i ==>
            a == Reg(reply.value.rnd, reply.value.rnd, reply.value.val) && reply.value.acc == id)
      && (reply.Some? && reply.value.P1B? && reply.value.inst == i ==>
            a.rnd == reply.value.rnd && b.vrnd == reply.value.vrnd && b.val == reply.value.val)
      && (!(reply.Some? && reply.value.P2B? && reply.value.inst == i) ==> b.vrnd == a.vrnd && b.val == a.val)
  {
    AfterPrefix(id, blank, ms, p);
  }

  /** Rounds never go down, and a vote is never in a round above the promised one. */
  lemma {:induction false} RoundsGrow(id: nat, blank: Value, ms: seq<Msg>, p: nat, q: nat, i: nat)
    requires p <= q <= |ms|
    ensures Before(id, blank, ms, p, i).rnd <= Before(id, blank, ms, q, i).rnd
    ensures Before(id, blank, ms, p, i).vrnd <= Before(id, blank, ms, q, i).vrnd <= Before(id, blank, ms, q, i).rnd
    decreases q
  {
    if q > 0 {
      RoundsGrow(id, blank, ms, if p < q then p else q - 1, q - 1, i);
      hide Before, Reply;
      OneMessage(id, blank, ms, q - 1, i);
    }
  }

  /** The value registers hold the last vote, or the initial values where there was none. */
  lemma {:induction false} LastVote(id: nat, blank: Value, ms: seq<Msg>, p: nat, i: nat) returns (q: Option<nat>)
    requires p <= |ms|
    ensures var reg := Before(id, blank, ms, p, i);
      match q
      case None =>
        && reg.vrnd == 0 && reg.val == blank
        && forall t: nat, r: nat, v: Value :: t < p ==> !Votes(id, blank, ms, t, i, r, v)
      case Some(t0) =>
        && t0 < p
        && Votes(id, blank, ms, t0, i, reg.vrnd, reg.val)
        && forall t: nat, r: nat, v: Value :: t0 < t < p ==> !Votes(id, blank, ms, t, i, r, v)
  {
    if p == 0 {
      q := None;
    } else {
      q := LastVote(id, blank, ms, p - 1, i);
      RoundsGrow(id, blank, ms, p - 1, p - 1, i);
      hide Before, Reply;
      OneMessage(id, blank, ms, p - 1, i);
      var reply := Reply(id, blank, ms, p - 1);
      if reply.Some? && reply.value.P2B? && reply.value.inst == i {
        q := Some(p - 1);
      }
    }
  }

  /**
   What a promise is worth. After a 1B for round r that reports (k, v), the acceptor
   never votes below r; before it, it never voted above k; and (k, v) is its last
   vote unless it had none, in which case the report is the initial one.
   */
  lemma Promise(id: nat, blank: Value, ms: seq<Msg>, p: nat, i: nat, r: nat, k: nat, v: Value)
    requires p < |ms| && Reply(id, blank, ms, p) == Some(P1B(i, r, id, k, v))
    ensures k <= r
    ensures forall q: nat, r': nat, w: Value :: q < |ms| && Votes(id, blank, ms, q, i, r', w) ==>
      if q < p then r' <= k else r <= r'
    ensures if forall q: nat, r': nat, w: Value :: q < p ==> !Votes(id, blank, ms, q, i, r', w)
            then k == 0 && v == blank
            else exists q: nat :: q < p && Votes(id, blank, ms, q, i, k, v)
  {
    RoundsGrow(id, blank, ms, p, p, i);
    var last := LastVote(id, blank, ms, p, i);
    hide Before, Reply;
    OneMessage(id, blank, ms, p, i);
    forall q: nat, r': nat, w: Value | q < |ms| && Votes(id, blank, ms, q, i, r', w)
      ensures if q < p then r' <= k else r <= r'
    {
      RoundsGrow(id, blank, ms, q, q, i);
      OneMessage(id, blank, ms, q, i);
      if q < p {
        RoundsGrow(id, blank, ms, q + 1, p, i);
      } else if q > p {
        RoundsGrow(id, blank, ms, p + 1, q, i);
        RoundsGrow(id, blank, ms, q, q + 1, i);
      }
    }
    RoundsGrow(id, blank, ms, p, p + 1, i);
  }

  // ----- which messages are answered

  /** The packets of instance i that an acceptor reacts to. */
  predicate Asks(m: Msg, i: nat)
  {
    (m.P1A? || m.P2A?) && m.inst == i
  }

  /** The round register holds the highest round that a 1A or 2A of the instance has named. */
  lemma {:induction false} RoundIsHighest(id: nat, blank: Value, ms: seq<Msg>, p: nat, i: nat)
    requires p <= |ms|
    ensures forall q :: 0 <= q < p && Asks(ms[q], i) ==> ms[q].rnd <= Before(id, blank, ms, p, i).rnd
    ensures Before(id, blank, ms, p, i).rnd == 0 ||
      exists q :: 0 <= q < p && Asks(ms[q], i) && ms[q].rnd == Before(id, blank, ms, p, i).rnd
  {
    if p > 0 {
      RoundIsHighest(id, blank, ms, p - 1, i);
      AfterPrefix(id, blank, ms, p - 1);
      hide After;
      var before, after := Before(id, blank, ms, p - 1, i).rnd, Before(id, blank, ms, p, i).rnd;
      assert after == if Asks(ms[p - 1], i) && ms[p - 1].rnd > before then ms[p - 1].rnd else before;
    }
  }

  /**
   A 1A or 2A is answered exactly when none of its instance before it named a higher round, and nothing
   else ever is. A 2A is answered by the vote it asks for, a 1A by what the registers hold.
   */
  lemma AnswersExactly(id: nat, blank: Value, ms: seq<Msg>, p: nat)
    requires p < |ms|
    ensures var m, reply := ms[p], Reply(id, blank, ms, p);
      && (reply.Some? <==> Asks(m, m.inst) && forall q :: 0 <= q < p && Asks(ms[q], m.inst) ==> ms[q].rnd <= m.rnd)
      && (reply.Some? && m.P1A? ==>
           var reg := Before(id, blank, ms, p, m.inst); reply.value == P1B(m.inst, m.rnd, id, reg.vrnd, reg.val))
      && (reply.Some? && m.P2A? ==> reply.value == P2B(m.inst, m.rnd, id, m.val))
  {
    RoundIsHighest(id, blank, ms, p, ms[p].inst);
    hide After;
  }
}
