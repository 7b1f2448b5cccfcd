/**
 Nothing is invented: whatever the deployment, every value in the protocol was
 submitted by a client or is the initial register value.
 */
module Validity {
  import opened Messages
  import opened Protocol
  import opened ProtocolInvariant
  import Leader

  ghost predicate Known(c: Config, s: State, v: Value)
  {
    v in s.clients || v == c.blank
  }

  ghost predicate Genuine(c: Config, s: State)
  {
    && (forall m :: m in s.net && !m.P1A? ==> Known(c, s, m.val))
    && (forall a: nat, i: nat :: a < |s.acceptors| ==> Known(c, s, RegAt(c, s, a, i).val))
    && (forall key :: key in s.leaders ==> Known(c, s, s.leaders[key].hval))
  }

  /** Registers that do not change stay genuine. */
  lemma RegistersKept(c: Config, s: State, s': State)
    requires Genuine(c, s) && s'.acceptors == s.acceptors && s.clients <= s'.clients
    ensures forall a: nat, i: nat :: a < |s'.acceptors| ==> Known(c, s', RegAt(c, s', a, i).val)
  {
    forall a: nat, i: nat | a < |s'.acceptors| ensures Known(c, s', RegAt(c, s', a, i).val) {
      assert Known(c, s, RegAt(c, s, a, i).val);
    }
  }

  lemma DeliverStaysGenuine(c: Config, s: State, a: nat, m: Msg)
    requires Genuine(c, s)
    ensures Genuine(c, DeliverStep(c, s, a, m))
  {
    var s' := DeliverStep(c, s, a, m);
    if a < |s.acceptors| && m in s.net {
      assert Known(c, s, RegAt(c, s, a, m.inst).val);
      forall b: nat, i: nat | b < |s'.acceptors| ensures Known(c, s', RegAt(c, s', b, i).val) {
        assert Known(c, s, RegAt(c, s, b, i).val);
      }
    }
  }

  lemma LeaderKnows(c: Config, s: State, key: (nat, nat, nat))
    requires Genuine(c, s)
    ensures Known(c, s, LeaderAt(c, s, key).hval)
  {
    var from := InheritedFrom(c, s, key.0, key.1, key.2);
  }

  lemma CollectedValue(quorum: nat, raises: bool, ld: Leader.State, m: Leader.Reply)
    ensures var after := Leader.Collect(quorum, raises, ld, m).0; after.hval == ld.hval || after.hval == m.val
  {
  }

  lemma GatherStaysGenuine(c: Config, s: State, i: nat, r: nat, l: nat, m: Msg, w: Option<Value>)
    requires Genuine(c, s)
    ensures Genuine(c, GatherStep(c, s, i, r, l, m, w))
  {
    hide LeaderAt, Leads, Leader.Collect;
    LeaderKnows(c, s, (i, r, l));
    if m.P1B? {
      CollectedValue(Leader.Quorum(c.n), c.raises, LeaderAt(c, s, (i, r, l)), Leader.Reply(m.acc, m.vrnd, m.val));
    }
    RegistersKept(c, s, GatherStep(c, s, i, r, l, m, w));
  }

  lemma StepStaysGenuine(c: Config, s: State, e: Event)
    requires Genuine(c, s)
    ensures Genuine(c, Protocol.Step(c, s, e))
  {
    var s' := Protocol.Step(c, s, e);
    match e
    case Deliver(a, m) => DeliverStaysGenuine(c, s, a, m);
    case Gather(i, r, l, m, w) => GatherStaysGenuine(c, s, i, r, l, m, w);
    case _ => RegistersKept(c, s, s');
  }

  lemma {:induction false} RunIsGenuine(c: Config, es: seq<Event>)
    ensures Genuine(c, Run(c, es))
  {
    if es != [] {
      RunIsGenuine(c, es[..|es| - 1]);
      StepStaysGenuine(c, Run(c, es[..|es| - 1]), es[|es| - 1]);
    }
  }

  /** A chosen value was submitted by a client, or is the initial value that a recovering leader may propose. */
  lemma ChosenIsGenuine(c: Config, es: seq<Event>, i: nat, r: nat, v: Value)
    requires c.n > 0 && Chosen(c.n, Run(c, es).net, i, r, v)
    ensures v in Run(c, es).clients || v == c.blank
  {
    RunIsGenuine(c, es);
    var voters := Voters(c.n, Run(c, es).net, i, r, v);
    assert voters != {};
    var a :| a in voters;
    assert P2B(i, r, a, v) in Run(c, es).net;
  }
}
