/**
 The whole protocol as a step system. The network is the set of all packets ever
 sent: loss, duplication and reordering need no steps of their own.
 */
module Protocol {
  import opened FiniteSets
  import opened Messages
  import opened Acceptor
  import Coordinator
  import Leader

  /**
   A deployment: how many acceptors, the round the coordinator writes, how many
   leader processes may recover, whether each round belongs to one of them, whether a
   leader raises its bar, whether it clears its registers when it moves to a higher
   round, how many requests the coordinator accepts, and the initial register value.
   */
  datatype Config = Config(n: nat, coordRound: nat, leaders: nat, exclusive: bool, raises: bool, clears: bool,
                           requests: nat, blank: Value)

  datatype State = State(
    sent: nat,
    clients: set<Value>,
    acceptors: seq<Registers>,
    leaders: map<(nat, nat, nat), Leader.State>,
    net: set<Msg>)

  datatype Event =
    | Submit(val: Value)
    | Prepare(inst: nat, rnd: nat)
    | Deliver(acc: nat, m: Msg)
    | Gather(inst: nat, rnd: nat, leader: nat, m: Msg, waiting: Option<Value>)

  function Init(c: Config): State
  {
    State(0, {}, seq(c.n, _ => map[]), map[], {})
  }

  /** The registers leader l last used for instance i below round r. */
  function Inherited(c: Config, s: State, i: nat, r: nat, l: nat): Leader.State
  {
    if r == 0 then Leader.Fresh(c.blank)
    else if (i, r - 1, l) in s.leaders then s.leaders[(i, r - 1, l)]
    else Inherited(c, s, i, r - 1, l)
  }

  /** The registers in which a reply for this instance, round and leader is counted. */
  function LeaderAt(c: Config, s: State, key: (nat, nat, nat)): Leader.State
  {
    if key in s.leaders then s.leaders[key]
    else if c.clears then Leader.Fresh(c.blank)
    else Inherited(c, s, key.0, key.1, key.2)
  }

  /** The leader process a round belongs to. */
  function Owner(c: Config, r: nat): nat
  {
    if c.leaders == 0 then 0 else r % c.leaders
  }

  /** Leader l has not moved beyond round r of instance i. */
  predicate NotBeyond(s: State, i: nat, r: nat, l: nat)
  {
    forall key :: key in s.leaders && key.0 == i && key.2 == l ==> key.1 <= r
  }

  /** Leader l may count replies for round r; with registers that are carried along it has moved on from lower rounds. */
  predicate Leads(c: Config, s: State, i: nat, r: nat, l: nat)
  {
    && l < c.leaders && r > c.coordRound
    && (c.exclusive ==> l == Owner(c, r))
    && (c.clears || NotBeyond(s, i, r, l))
  }

  /** The value a leader proposes: only one with no vote reported may take a waiting client value. */
  function Pick(s: State, ld: Leader.State, waiting: Option<Value>): Value
  {
    if ld.hvrnd == 0 && waiting.Some? && waiting.value in s.clients then waiting.value else ld.hval
  }

  function SubmitStep(c: Config, s: State, v: Value): State
  {
    if s.sent < c.requests then
      s.(sent := s.sent + 1,
         clients := s.clients + {v},
         net := s.net + {P2A(Coordinator.Assigned(s.sent + 1), c.coordRound, v)})
    else s
  }

  function DeliverStep(c: Config, s: State, a: nat, m: Msg): State
  {
    if a < |s.acceptors| && m in s.net then
      var (regs, reply) := Acceptor.Step(a, c.blank, s.acceptors[a], m);
      s.(acceptors := s.acceptors[a := regs],
         net := if reply.Some? then s.net + {reply.value} else s.net)
    else s
  }

  function GatherStep(c: Config, s: State, i: nat, r: nat, l: nat, m: Msg, waiting: Option<Value>): State
  {
    if Leads(c, s, i, r, l) && m in s.net && m.P1B? && m.inst == i && m.rnd == r then
      var key := (i, r, l);
      var (ld, done) := Leader.Collect(Leader.Quorum(c.n), c.raises, LeaderAt(c, s, key), Leader.Reply(m.acc, m.vrnd, m.val));
      s.(leaders := s.leaders[key := ld],
         net := if done then s.net + {P2A(i, r, Pick(s, ld, waiting))} else s.net)
    else s
  }

  /** One step; an event that cannot happen changes nothing. */
  function Step(c: Config, s: State, e: Event): State
  {
    match e
    case Submit(v) => SubmitStep(c, s, v)
    case Prepare(i, r) => if r > c.coordRound then s.(net := s.net + {P1A(i, r)}) else s
    case Deliver(a, m) => DeliverStep(c, s, a, m)
    case Gather(i, r, l, m, w) => GatherStep(c, s, i, r, l, m, w)
  }

  function Run(c: Config, es: seq<Event>): State
  {
    if es == [] then Init(c) else Step(c, Run(c, es[..|es| - 1]), es[|es| - 1])
  }

  // ----- agreement

  ghost function Voters(n: nat, net: set<Msg>, i: nat, r: nat, v: Value): set<nat>
  {
    set a: nat | a in Below(n) && P2B(i, r, a, v) in net
  }

  /** A majority voted for v in one and the same round r. */
  ghost predicate Chosen(n: nat, net: set<Msg>, i: nat, r: nat, v: Value)
  {
    |Voters(n, net, i, r, v)| >= Leader.Quorum(n)
  }

  /** No instance has two different chosen values. */
  ghost predicate Agrees(c: Config, s: State)
  {
    forall i: nat, r: nat, v: Value, r': nat, v': Value ::
      Chosen(c.n, s.net, i, r, v) && Chosen(c.n, s.net, i, r', v') ==> v == v'
  }

  ghost predicate AlwaysAgrees(c: Config)
  {
    forall es: seq<Event> :: Agrees(c, Run(c, es))
  }

  /** The deployments that are safe. */
  predicate Sound(c: Config)
  {
    && c.n > 0
    && c.requests <= Coordinator.INSTANCES
    && (c.leaders == 0 || (c.n % 2 == 1 && c.coordRound >= 1 && c.raises && (c.leaders == 1 || (c.exclusive && c.clears))))
  }
}
