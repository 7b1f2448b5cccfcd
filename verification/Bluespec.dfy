/**
 The hardware module: one instance's registers, acting as leader, acceptor and learner.
 */
module Bluespec {
  import opened Messages
  import opened BluespecModel
  import opened Tally

  class Paxos {
    var ballot: nat
    var vballot: Option<nat>
    var value: Option<Value>
    var count1b: bv16
    var count2b: bv16
    var hballot: nat
    var hval: Value
    ghost const start: Registers
    ghost var history: seq<Call>

    /** The registers are those the calls so far lead to, the bitmaps marking the counted acceptors. */
    ghost predicate Valid()
      reads this
    {
      var m := BluespecModel.Run(start, history);
      && m.ballot == ballot && m.vballot == vballot && m.value == value && m.hballot == hballot && m.hval == hval
      && Marks(WIDTH, count1b, m.heard)
      && Marks(WIDTH, count2b, m.voted)
    }

    constructor (vballot: Option<nat>, hval: Value)
      ensures Valid() && history == [] && start == Start(vballot, hval)
    {
      ballot, this.vballot, value := 0, vballot, None;
      count1b, count2b, hballot, this.hval := 0, 0, 0, hval;
      start, history := Start(vballot, hval), [];
      new;
      MarksNothing(WIDTH);
    }

    /** The bitmap test and update of both counts. */
    lemma CountOne(bits: bv16, ids: set<nat>, acpt: nat)
      requires Marks(WIDTH, bits, ids)
      ensures Unset(WIDTH, bits, acpt) <==> !(acpt < WIDTH && acpt in ids)
      ensures Marks(WIDTH, Set(WIDTH, bits, acpt), Counted(ids, acpt))
      ensures TwoOfThree(Set(WIDTH, bits, acpt)) <==> TwoVoters(WIDTH, Counted(ids, acpt))
      ensures Marks(WIDTH, Bit(WIDTH, acpt), Counted({}, acpt))
    {
      MarksUnion(WIDTH, bits, ids, acpt);
      SameMarks(Set(WIDTH, bits, acpt), ids + {acpt}, Counted(ids, acpt));
      SameMarks(Bit(WIDTH, acpt), {acpt}, Counted({}, acpt));
      hide Marks, Unset, Set, Bit, TwoOfThree, TwoVoters;
      TwoOfThreeMeans(WIDTH, Set(WIDTH, bits, acpt), Counted(ids, acpt));
    }

    /** Acceptors without a bit make no difference to the marks. */
    lemma SameMarks(bits: bv16, ids: set<nat>, ids': set<nat>)
      requires Marks(WIDTH, bits, ids) && forall a: nat :: a < WIDTH ==> (a in ids <==> a in ids')
      ensures Marks(WIDTH, bits, ids')
    {
      hide Off;
    }

    method Handle1A(bal: nat) returns (ret: Outcome)
      requires Valid()
      modifies this`ballot, this`history
      ensures Valid() && history == old(history) + [OneA(bal)]
      ensures ret == Answer(BluespecModel.Run(start, old(history)), OneA(bal)).1
    {
      hide BluespecModel.Run, Marks, TwoVoters;
      OneMore(start, history, OneA(bal));
      ret := Idle;
      if bal >= ballot {
        ballot := bal;
      }
      history := history + [OneA(bal)];
    }

    /** One 1B reply is counted by the highest-ballot rule. */
    method Handle1B(bal: nat, vbal: nat, val: Value, acpt: nat) returns (ret: Outcome)
      requires Valid()
      modifies this`count1b, this`hballot, this`hval, this`history
      ensures Valid() && history == old(history) + [OneB(bal, vbal, val, acpt)]
      ensures ret == Answer(BluespecModel.Run(start, old(history)), OneB(bal, vbal, val, acpt)).1
    {
      hide BluespecModel.Run, Marks, Bit, Set, Unset, TwoOfThree, TwoVoters, Counted;
      OneMore(start, history, OneB(bal, vbal, val, acpt));
      CountOne(count1b, BluespecModel.Run(start, history).heard, acpt);
      ret := Idle;
      if bal == ballot {
        if Unset(WIDTH, count1b, acpt) {
          var curCount := Set(WIDTH, count1b, acpt);
          count1b := curCount;
          if vbal >= hballot {
            hballot := vbal;
            hval := val;
          }
          ret := if TwoOfThree(curCount) then Finish else Idle;
        }
      }
      history := history + [OneB(bal, vbal, val, acpt)];
    }

    method Handle2A(bal: nat, val: Value) returns (ret: Outcome)
      requires Valid()
      modifies this`ballot, this`vballot, this`value, this`history
      ensures Valid() && history == old(history) + [TwoA(bal, val)]
      ensures ret == Answer(BluespecModel.Run(start, old(history)), TwoA(bal, val)).1
    {
      hide BluespecModel.Run, Marks, TwoVoters;
      OneMore(start, history, TwoA(bal, val));
      ret := Idle;
      if bal >= ballot {
        ballot := bal;
        vballot := Some(bal);
        value := Some(val);
        ret := Accept;
      }
      history := history + [TwoA(bal, val)];
    }

    /** One 2B vote is counted. A vote for another value never surfaces: the error is overwritten. */
    method Handle2B(bal: nat, val: Value, acpt: nat) returns (ret: Outcome)
      requires Valid()
      modifies this`ballot, this`value, this`count2b, this`history
      ensures Valid() && history == old(history) + [TwoB(bal, val, acpt)]
      ensures ret == Answer(BluespecModel.Run(start, old(history)), TwoB(bal, val, acpt)).1
      ensures ret != ValueError
    {
      hide BluespecModel.Run, Marks, Bit, Set, Unset, TwoOfThree, TwoVoters, Counted;
      OneMore(start, history, TwoB(bal, val, acpt));
      CountOne(count2b, BluespecModel.Run(start, history).voted, acpt);
      ret := Idle;
      if bal == ballot {
        if Unset(WIDTH, count2b, acpt) {
          var curCount := Set(WIDTH, count2b, acpt);
          count2b := curCount;
          match value {
            case None => value := Some(val);
            case Some(v) => if v != val { ret := ValueError; }
          }
          ret := if TwoOfThree(curCount) then Finish else Idle;
        }
      } else if bal > ballot {
        ballot := bal;
        value := Some(val);
        count2b := Bit(WIDTH, acpt);
      }
      history := history + [TwoB(bal, val, acpt)];
    }
  }
}
