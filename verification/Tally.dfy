/**
 Counting votes for the newest round seen, and the bitmaps that hold the count.
 */
module Tally {
  import opened FiniteSets

  datatype Vote = Vote(rnd: nat, acc: nat)

  datatype State = State(rnd: nat, voters: set<nat>)

  /** A newer round starts over; an older one is ignored. */
  function Step(st: State, v: Vote): State
  {
    if v.rnd > st.rnd then State(v.rnd, {v.acc})
    else if v.rnd == st.rnd then State(st.rnd, st.voters + {v.acc})
    else st
  }

  function Run(vs: seq<Vote>): State
  {
    if vs == [] then State(0, {}) else Step(Run(vs[..|vs| - 1]), vs[|vs| - 1])
  }

  /**
   Across all changes of round the tally is exact: the stored round is the highest
   seen, and the voters are precisely the acceptors whose vote for it was processed.
   */
  lemma {:induction false} RunIsExact(vs: seq<Vote>)
    ensures forall p :: 0 <= p < |vs| ==> vs[p].rnd <= Run(vs).rnd
    ensures Run(vs).rnd == 0 || exists p :: 0 <= p < |vs| && vs[p].rnd == Run(vs).rnd
    ensures forall a :: a in Run(vs).voters <==> exists p :: 0 <= p < |vs| && vs[p] == Vote(Run(vs).rnd, a)
  {
    if vs != [] {
      var k := |vs| - 1;
      var rest := vs[..k];
      RunIsExact(rest);
      assert forall p :: 0 <= p < k ==> rest[p] == vs[p];
      var before, after := Run(rest), Run(vs);
      assert after == Step(before, vs[k]);
      hide Run;
      forall a | a in after.voters ensures exists p :: 0 <= p < |vs| && vs[p] == Vote(after.rnd, a) {
        if vs[k] == Vote(after.rnd, a) {
        } else {
          var p :| 0 <= p < k && rest[p] == Vote(before.rnd, a);
          assert vs[p] == Vote(after.rnd, a);
        }
      }
      forall a | exists p :: 0 <= p < |vs| && vs[p] == Vote(after.rnd, a) ensures a in after.voters {
        var p :| 0 <= p < |vs| && vs[p] == Vote(after.rnd, a);
        if p < k { assert rest[p] == Vote(after.rnd, a); }
      }
      if after.rnd != 0 && after.rnd != vs[k].rnd {
        var p :| 0 <= p < k && rest[p].rnd == before.rnd;
        assert vs[p].rnd == after.rnd;
      }
    }
  }

  // ----- bitmaps

  /** Bit a of a 16-bit word. */
  function Mask(a: nat): bv16
  {
    if a == 0 then 0x0001 else if a == 1 then 0x0002 else if a == 2 then 0x0004 else if a == 3 then 0x0008
    else if a == 4 then 0x0010 else if a == 5 then 0x0020 else if a == 6 then 0x0040 else if a == 7 then 0x0080
    else if a == 8 then 0x0100 else if a == 9 then 0x0200 else if a == 10 then 0x0400 else if a == 11 then 0x0800
    else if a == 12 then 0x1000 else if a == 13 then 0x2000 else if a == 14 then 0x4000 else if a == 15 then 0x8000
    else 0
  }

  /** 1 << acceptor in a field of the given width: no bit at all for acceptors the field is too narrow for. */
  function Bit(width: nat, a: nat): bv16
  {
    if a < width then Mask(a) else 0
  }

  predicate Unset(width: nat, b: bv16, a: nat)
  {
    Bit(width, a) & b == 0
  }

  function Set(width: nat, b: bv16, a: nat): bv16
  {
    Bit(width, a) | b
  }

  /** No bit is set in both words. */
  predicate Disjoint(x: bv16, b: bv16)
  {
    x & b == 0
  }

  predicate Off(b: bv16, c: nat)
  {
    Disjoint(Mask(c), b)
  }

  /** The bits set in b are those of the acceptors in s, as far as the field has them. */
  ghost predicate Marks(width: nat, b: bv16, s: set<nat>)
  {
    forall a: nat :: a < 16 ==> (Off(b, a) <==> !(a < width && a in s))
  }

  /** The test written out in both learners. */
  predicate TwoOfThree(b: bv16)
  {
    b == 6 || b == 5 || b == 3
  }

  lemma Distributes(x: bv16, b: bv16, y: bv16)
    ensures Disjoint(y, x | b) <==> Disjoint(y, x) && Disjoint(y, b)
  {
    assert y & (x | b) == (y & x) | (y & b);
  }

  lemma OffOr(x: bv16, b: bv16, c: nat)
    ensures Off(x | b, c) <==> Off(x, c) && Off(b, c)
  {
    hide Mask, Disjoint;
    Distributes(x, b, Mask(c));
  }

  lemma OffIs(b: bv16, c: nat, y: bv16)
    requires y == Mask(c)
    ensures Off(b, c) <==> y & b == 0
  {
  }

  lemma OffMask(a: nat, c: nat)
    requires c < 16
    ensures Off(Mask(a), c) <==> a != c
    ensures Off(0, c)
  {
  }

  /** Bit c after setting acceptor a's. */
  lemma SetOneBit(width: nat, b: bv16, a: nat, c: nat)
    requires c < 16
    ensures Off(Set(width, b, a), c) <==> !(a < width && a == c) && Off(b, c)
    ensures Off(Bit(width, a), c) <==> !(a < width && a == c)
  {
    OffMask(a, c);
    OffOr(Bit(width, a), b, c);
    hide Mask, Off;
  }

  lemma TestOneBit(width: nat, b: bv16, a: nat)
    requires width <= 16
    ensures Unset(width, b, a) <==> a >= width || Off(b, a)
  {
    hide Mask, Off;
    OffZero(b);
    OffIs(b, a, Mask(a));
  }

  lemma OffZero(b: bv16)
    ensures 0 & b == 0
  {
  }

  /** The bitmap operations are the set operations. */
  lemma MarksUnion(width: nat, b: bv16, s: set<nat>, a: nat)
    requires width <= 16 && Marks(width, b, s)
    ensures Marks(width, Set(width, b, a), s + {a})
    ensures Marks(width, Bit(width, a), {a})
    ensures Unset(width, b, a) <==> a >= width || a !in s
  {
    hide Off, Bit, Set, Unset;
    forall c: nat | c < 16
      ensures Off(Set(width, b, a), c) <==> !(c < width && c in s + {a})
      ensures Off(Bit(width, a), c) <==> !(c < width && c in {a})
    {
      SetOneBit(width, b, a, c);
    }
    TestOneBit(width, b, a);
  }

  lemma MarksNothing(width: nat)
    ensures Marks(width, 0, {})
  {
  }

  lemma LowBits(b: bv16)
    ensures TwoOfThree(b) <==>
      && b & 0xfff8 == 0
      && (if Off(b, 0) then 0 else 1) + (if Off(b, 1) then 0 else 1) + (if Off(b, 2) then 0 else 1) == 2
  {
  }

  lemma HighBit(b: bv16, a: nat)
    requires 3 <= a < 16 && b & 0xfff8 == 0
    ensures Off(b, a)
  {
  }

  lemma HighBits(b: bv16)
    ensures b & 0xfff8 == 0 <==> forall a: nat :: 3 <= a < 16 ==> Off(b, a)
  {
    if b & 0xfff8 == 0 {
      forall a: nat | 3 <= a < 16 ensures Off(b, a) { HighBit(b, a); }
    } else {
      SomeHighBit(b);
    }
  }

  lemma SomeHighBit(b: bv16)
    requires b & 0xfff8 != 0
    ensures exists a: nat :: 3 <= a < 16 && !Off(b, a)
  {
    assert !Off(b, 3) || !Off(b, 4) || !Off(b, 5) || !Off(b, 6) || !Off(b, 7) || !Off(b, 8) || !Off(b, 9)
           || !Off(b, 10) || !Off(b, 11) || !Off(b, 12) || !Off(b, 13) || !Off(b, 14) || !Off(b, 15);
  }

  /** Two of the acceptors 0, 1 and 2, and no other that the field has a bit for. */
  ghost predicate TwoVoters(width: nat, s: set<nat>)
  {
    |s * Below(width)| == 2 && s * Below(width) <= Below(3)
  }

  lemma AllBelowThree(width: nat, s: set<nat>)
    requires width >= 3 && s <= Below(3)
    ensures TwoVoters(width, s) <==> |s| == 2
  {
    assert s * Below(width) == s;
  }

  /** The listed bit patterns are exactly two out of the acceptors 0, 1 and 2 and no other that the field has a bit for. */
  lemma TwoOfThreeMeans(width: nat, b: bv16, s: set<nat>)
    requires 3 <= width <= 16 && Marks(width, b, s)
    ensures TwoOfThree(b) <==> TwoVoters(width, s)
  {
    LowBits(b);
    HighBits(b);
    hide Off, TwoOfThree;
    var t := s * Below(width);
    assert forall a: nat :: a < 16 ==> (Off(b, a) <==> a !in t);
    HighMeans(b, t);
    if t <= Below(3) {
      SizeOfThree(t);
    }
  }

  lemma HighMeans(b: bv16, t: set<nat>)
    requires t <= Below(16) && forall a: nat :: a < 16 ==> (Off(b, a) <==> a !in t)
    ensures (forall a: nat :: 3 <= a < 16 ==> Off(b, a)) <==> t <= Below(3)
  {
    hide Off;
    IsBelow(t, 3);
    IsBelow(t, 16);
    hide Below;
    if forall a :: a in t ==> a < 3 {
      forall a: nat | 3 <= a < 16 ensures Off(b, a) {
        assert a !in t;
      }
    } else {
      var a :| a in t && 3 <= a;
      assert !Off(b, a);
    }
  }

  /**
   Numbering: the patterns recognise every pair of a set of three acceptors if and
   only if these are numbered 0, 1 and 2.
   */
  lemma PairsRecognised(ids: set<nat>)
    requires |ids| == 3
    ensures (forall s: set<nat> :: s <= ids && |s| == 2 ==> TwoVoters(8, s)) <==> ids == {0, 1, 2}
  {
    assert Below(3) == {0, 1, 2};
    if forall s: set<nat> :: s <= ids && |s| == 2 ==> TwoVoters(8, s) {
      forall a | a in ids ensures a in Below(3) {
        var s := PairWith(ids, a);
        assert TwoVoters(8, s);
        SubsetOfEqualSize(s * Below(8), s);
      }
      SubsetOfEqualSize(ids, {0, 1, 2});
    }
    if ids == {0, 1, 2} {
      forall s: set<nat> | s <= ids && |s| == 2 ensures TwoVoters(8, s) {
        AllBelowThree(8, s);
      }
    }
  }

  lemma PairWith(ids: set<nat>, a: nat) returns (s: set<nat>)
    requires |ids| == 3 && a in ids
    ensures s <= ids && a in s && |s| == 2
  {
    var rest := ids - {a};
    assert |rest| == 2;
    var b :| b in rest;
    s := {a, b};
  }

  /** With acceptors numbered 1, 2 and 3 only the first two are recognised as a pair. */
  lemma ShippedNumbers()
    ensures TwoVoters(8, {1, 2}) && !TwoVoters(8, {1, 3}) && !TwoVoters(8, {2, 3}) && !TwoVoters(8, {1, 2, 3})
  {
    assert {1, 2} * Below(8) == {1, 2};
    assert 3 in {1, 3} * Below(8) && 3 in {2, 3} * Below(8) && 3 in {1, 2, 3} * Below(8);
  }

  lemma SizeOfThree(s: set<nat>)
    requires s <= Below(3)
    ensures |s| == (if 0 in s then 1 else 0) + (if 1 in s then 1 else 0) + (if 2 in s then 1 else 0)
  {
    var s1 := s - {2};
    var s0 := s1 - {1};
    RemoveOne(s, 2);
    RemoveOne(s1, 1);
    RemoveOne(s0, 0);
    assert s0 - {0} == {};
  }

  lemma RemoveOne(s: set<nat>, x: nat)
    ensures |s| == |s - {x}| + if x in s then 1 else 0
  {
    if x in s {
      assert s == (s - {x}) + {x};
    } else {
      assert s == s - {x};
    }
  }
}
