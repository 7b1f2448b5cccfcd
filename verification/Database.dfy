/**
 The replicated state machine: a key/value dictionary driven by commands.
 */
module Database {
  import opened Messages

  datatype Command = Put(key: string, value: string) | Get(key: string) | Other

  type Store = map<string, string>

  /** The new store and the answer passed to the callback; other actions get no answer. */
  function Effect(db: Store, cmd: Command): (Store, Option<string>)
  {
    match cmd
    case Put(k, v) => (db[k := v], Some("Success\n"))
    case Get(k) => (db, Some((if k in db then db[k] else "None") + "\n"))
    case Other => (db, None)
  }

  /** The store after a command sequence. */
  function Replay(cmds: seq<Command>): Store
  {
    if cmds == [] then map[] else Effect(Replay(cmds[..|cmds| - 1]), cmds[|cmds| - 1]).0
  }

  lemma LastStep(cmds: seq<Command>)
    requires cmds != []
    ensures var cmd, before := cmds[|cmds| - 1], Replay(cmds[..|cmds| - 1]);
      Replay(cmds) == if cmd.Put? then before[cmd.key := cmd.value] else before
  {
  }

  lemma OneMore(cmds: seq<Command>, cmd: Command)
    ensures Replay(cmds + [cmd]) == Effect(Replay(cmds), cmd).0
  {
    assert (cmds + [cmd])[..|cmds|] == cmds;
  }

  predicate IsPut(cmd: Command, k: string)
  {
    cmd.Put? && cmd.key == k
  }

  /** The p-th command is the last put to k. */
  predicate LastPut(cmds: seq<Command>, k: string, p: nat)
  {
    p < |cmds| && IsPut(cmds[p], k) && forall q :: p < q < |cmds| ==> !IsPut(cmds[q], k)
  }

  lemma LastPutBefore(cmds: seq<Command>, k: string, p: nat)
    requires cmds != [] && LastPut(cmds, k, p)
    ensures if IsPut(cmds[|cmds| - 1], k) then p == |cmds| - 1 else LastPut(cmds[..|cmds| - 1], k, p)
  {
  }

  /** What the store means: a key is present exactly when some put names it, and holds the value of the last one. */
  lemma {:induction false} ReplayHoldsLastPut(cmds: seq<Command>, k: string)
    ensures k in Replay(cmds) <==> exists p: nat :: LastPut(cmds, k, p)
    ensures forall p: nat :: LastPut(cmds, k, p) ==> k in Replay(cmds) && Replay(cmds)[k] == cmds[p].value
  {
    if cmds != [] {
      var n := |cmds| - 1;
      ReplayHoldsLastPut(cmds[..n], k);
      LastStep(cmds);
      hide Replay;
      forall p: nat | LastPut(cmds, k, p) ensures k in Replay(cmds) && Replay(cmds)[k] == cmds[p].value {
        LastPutBefore(cmds, k, p);
      }
      if IsPut(cmds[n], k) {
        assert LastPut(cmds, k, n);
      } else if p: nat :| LastPut(cmds[..n], k, p) {
        assert LastPut(cmds, k, p);
      }
    }
  }

  class SimpleDatabase {
    var db: Store
    ghost var history: seq<Command>

    ghost predicate Valid()
      reads this
    {
      db == Replay(history)
    }

    constructor ()
      ensures Valid() && history == []
    {
      db, history := map[], [];
    }

    method Execute(cmd: Command) returns (answer: Option<string>)
      requires Valid()
      modifies this
      ensures Valid() && history == old(history) + [cmd]
      ensures cmd.Put? ==> answer == Some("Success\n")
      // a get answers the value of the last put to its key among the commands before it
      ensures cmd.Get? ==> forall p: nat :: LastPut(old(history), cmd.key, p) ==> answer == Some(old(history)[p].value + "\n")
      ensures cmd.Get? && (forall p: nat :: !LastPut(old(history), cmd.key, p)) ==> answer == Some("None\n")
      ensures cmd.Other? ==> answer == None
    {
      hide Replay;
      OneMore(history, cmd);
      if cmd.Get? { ReplayHoldsLastPut(history, cmd.key); }
      answer := None;
      match cmd {
        case Put(k, v) =>
          db := db[k := v];
          answer := Some("Success\n");
        case Get(k) =>
          var v := if k in db then db[k] else "None";
          assert "None" + "\n" == "None\n";
          answer := Some(v + "\n");
        case Other =>
      }
      history := history + [cmd];
    }
  }
}
