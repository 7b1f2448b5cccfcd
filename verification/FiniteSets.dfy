/** The numbers below a bound, and sizes of finite sets of numbers. */
module FiniteSets {

  ghost function Span(lo: nat, hi: nat): (s: set<nat>)
    ensures forall x: nat :: x in s <==> lo <= x < hi
  {
    if hi <= lo then {} else Span(lo, hi - 1) + {hi - 1}
  }

  ghost function Below(n: nat): (s: set<nat>)
    ensures forall x: nat :: x in s <==> x < n
  {
    Span(0, n)
  }

  lemma SpanMore(lo: nat, hi: nat)
    requires lo < hi
    ensures Span(lo, hi) == Span(lo, hi - 1) + {hi - 1}
    ensures lo == hi - 1 ==> Span(lo, hi - 1) == {}
  {
  }

  lemma IsBelow(s: set<nat>, n: nat)
    ensures s <= Below(n) <==> forall x :: x in s ==> x < n
  {
    if forall x :: x in s ==> x < n {
      forall x | x in s ensures x in Below(n) {
      }
    }
  }

  lemma AddOne(s: set<nat>, x: nat)
    requires x !in s
    ensures |s + {x}| == |s| + 1
  {
  }

  lemma {:induction false} SpanSize(lo: nat, hi: nat)
    ensures |Span(lo, hi)| == if lo <= hi then hi - lo else 0
  {
    if lo < hi {
      var rest := Span(lo, hi - 1);
      SpanSize(lo, hi - 1);
      assert Span(lo, hi) == rest + {hi - 1};
      AddOne(rest, hi - 1);
    } else {
      assert Span(lo, hi) == {};
    }
  }

  lemma BelowSize(n: nat)
    ensures |Below(n)| == n
  {
    SpanSize(0, n);
  }

  lemma SubsetSize(a: set<nat>, b: set<nat>)
    requires a <= b
    ensures |a| <= |b|
  {
    assert b == a + (b - a);
  }

  lemma {:induction false} SubsetOfSize(a: set<nat>, k: nat) returns (b: set<nat>)
    requires k <= |a|
    ensures b <= a && |b| == k
  {
    if k == |a| {
      b := a;
    } else {
      var x :| x in a;
      b := SubsetOfSize(a - {x}, k);
    }
  }

  lemma SubsetOfEqualSize(a: set<nat>, b: set<nat>)
    requires a <= b && |a| == |b|
    ensures a == b
  {
    assert |b - a| == |b| - |a|;
    assert b - a == {};
    assert forall x :: x in b ==> x in a || x in b - a;
  }

  /** Two sets of numbers below n that are together larger than n share an element. */
  lemma Pigeonhole(a: set<nat>, b: set<nat>, n: nat)
    requires a <= Below(n) && b <= Below(n) && |a| + |b| > n
    ensures a * b != {}
  {
    BelowSize(n);
    assert |a + b| == |a| + |b| - |a * b|;
    SubsetSize(a + b, Below(n));
  }
}
