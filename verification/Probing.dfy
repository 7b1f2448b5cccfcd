/**
 The arithmetic behind khash's probe sequence: powers of two, triangular
 numbers, and the cycle that the offsets 0, 1, 3, 6, ... run through modulo a
 power of two.
 */
module Probing {
  import opened FiniteSets

  function Exp2(k: nat): (r: nat)
    ensures r >= 1
  {
    if k == 0 then 1 else 2 * Exp2(k - 1)
  }

  /** n is one of the powers of two that a 32-bit bucket count can hold. */
  ghost predicate IsPow2(n: nat)
  {
    exists k: nat :: k < 32 && Exp2(k) == n
  }

  function Tri(s: nat): nat
  {
    if s == 0 then 0 else Tri(s - 1) + s
  }

  /** The bucket inspected after s steps by a search whose hash value is h. */
  function Probe(h: nat, s: nat, n: nat): nat
    requires n > 0
  {
    (h + Tri(s)) % n
  }

  lemma {:induction false} TriClosedForm(s: nat)
    ensures 2 * Tri(s) == s * (s + 1)
  {
    if s > 0 {
      TriClosedForm(s - 1);
      assert s * (s + 1) == (s - 1) * s + 2 * s;
    }
  }

  /** Whether n divides a; n is never 0 here. */
  predicate Divides(n: nat, a: nat)
    requires n > 0
  {
    a % n == 0
  }

  lemma ProductBound(n: int, x: int)
    requires n >= 0
    ensures x >= 1 ==> n * x >= n
    ensures x <= -1 ==> n * x <= -n
  {
    if x >= 1 {
      assert n * x == n + n * (x - 1);
      assert n * (x - 1) >= 0;
    } else if x <= -1 {
      assert n * x == -n + n * (x + 1);
      assert n * (x + 1) <= 0;
    }
  }

  lemma RemainderIsUnique(a: nat, n: nat, q: int, r: nat)
    requires r < n && a == n * q + r
    ensures a % n == r
  {
    var q' := a / n;
    assert a == n * q' + a % n;
    assert n * (q - q') == n * q - n * q';
    ProductBound(n, q - q');
  }

  lemma AddMultiple(a: nat, q: nat, n: nat)
    requires n > 0
    ensures (a + n * q) % n == a % n
  {
    assert a + n * q == n * (a / n + q) + a % n by {
      assert a == n * (a / n) + a % n;
      assert n * (a / n + q) == n * (a / n) + n * q;
    }
    assert a + n * q >= 0;
    RemainderIsUnique(a + n * q, n, a / n + q, a % n);
  }

  lemma Multiple(n: nat, q: nat)
    requires n > 0
    ensures Divides(n, n * q)
  {
    AddMultiple(0, q, n);
  }

  /** Two numbers share a remainder exactly when n divides their difference. */
  lemma SameRemainder(a: nat, b: nat, n: nat)
    requires n > 0 && a <= b
    ensures a % n == b % n <==> Divides(n, b - a)
  {
    var q := (b - a) / n;
    var r := (b - a) % n;
    assert b == (a + r) + n * q;
    AddMultiple(a + r, q, n);
    assert b % n == (a + r) % n;
    if a % n == (a + r) % n {
      var c, d := a / n, (a + r) / n;
      assert r == n * d - n * c;
      assert n * d - n * c == n * (d - c);
      ProductBound(n, d - c);
      assert r == 0;
    }
  }

  lemma ShiftRemainder(a: nat, b: nat, n: nat)
    requires n > 0
    ensures (a % n + b) % n == (a + b) % n
  {
    var q := a / n;
    assert a + b == (a % n + b) + n * q;
    AddMultiple(a % n + b, q, n);
  }

  /** The loop body's incremental index update follows the closed formula. */
  lemma ProbeStep(h: nat, s: nat, n: nat)
    requires n > 0
    ensures (Probe(h, s, n) + (s + 1)) % n == Probe(h, s + 1, n)
  {
    var a := h + Tri(s);
    assert Tri(s + 1) == Tri(s) + (s + 1);
    ShiftRemainder(a, s + 1, n);
  }

  lemma Commute(x: nat, y: nat)
    ensures x * y == y * x
  {
  }

  lemma Associate(x: nat, y: nat, z: nat)
    ensures (x * y) * z == x * (y * z)
  {
  }

  lemma Distribute(x: nat, y: nat)
    ensures (2 * x + 1) * y == 2 * (x * y) + y
  {
  }

  lemma OddTimes(a: nat, b: nat)
    requires a % 2 == 1
    ensures (a * b) % 2 == b % 2
  {
    Distribute(a / 2, b);
    assert a == 2 * (a / 2) + 1;
  }

  lemma HalveFactor(a: nat, b: nat, x: nat)
    requires b % 2 == 0 && a * b == 2 * x
    ensures a * (b / 2) == x
  {
    var h := b / 2;
    assert b == h + h;
    assert a * (h + h) == a * h + a * h;
  }

  /** A power of two that divides a product with an odd factor divides the other factor. */
  lemma {:induction false} OddFactor(m: nat, a: nat, b: nat, p: nat)
    requires a % 2 == 1 && p == a * b && Divides(Exp2(m), p)
    ensures Divides(Exp2(m), b)
  {
    if m > 0 {
      var e, q := Exp2(m - 1), p / Exp2(m);
      var half := e * q;
      assert p == 2 * half by {
        assert p == (2 * e) * q;
        Associate(2, e, q);
      }
      Multiple(e, q);
      OddTimes(a, b);
      HalveFactor(a, b, half);
      OddFactor(m - 1, a, b / 2, half);
      HalveDivides(e, b / 2);
    }
  }

  /** If n divides one factor of a product, it divides the product. */
  lemma DividesProduct(n: nat, a: nat, b: nat, p: nat)
    requires n > 0 && p == a * b && Divides(n, a)
    ensures Divides(n, p)
  {
    var q := a / n;
    assert p == n * (q * b) by { assert a == n * q; Associate(n, q, b); }
    Multiple(n, q * b);
  }

  lemma HalveDivides(n: nat, a: nat)
    requires n > 0
    ensures Divides(2 * n, 2 * a) <==> Divides(n, a)
  {
    if Divides(2 * n, 2 * a) {
      var q := 2 * a / (2 * n);
      assert 2 * a == (2 * n) * q;
      assert a == n * q;
      Multiple(n, q);
    }
    if Divides(n, a) {
      var q := a / n;
      assert 2 * a == (2 * n) * q by { assert a == n * q; }
      Multiple(2 * n, q);
    }
  }

  /** The distance of two triangular numbers as a product. */
  lemma TriDifference(s: nat, t: nat)
    requires s <= t
    ensures Tri(s) <= Tri(t) && 2 * (Tri(t) - Tri(s)) == (t - s) * (t + s + 1)
  {
    TriClosedForm(s);
    TriClosedForm(t);
    TriMonotone(s, t);
    assert (t - s) * (t + s + 1) == t * (t + 1) - s * (s + 1);
  }

  /** Of two factors with an odd sum, a power of two divides the product p only by dividing one of them. */
  lemma DividesOneFactor(m: nat, d: nat, e: nat, p: nat)
    requires (d + e) % 2 == 1 && p == d * e && p == e * d
    ensures Divides(Exp2(m), p) <==> Divides(Exp2(m), d) || Divides(Exp2(m), e)
  {
    if Divides(Exp2(m), p) { DividesEither(m, d, e, p); }
    if Divides(Exp2(m), d) { DividesProduct(Exp2(m), d, e, p); }
    if Divides(Exp2(m), e) { DividesProduct(Exp2(m), e, d, p); }
  }

  lemma DividesEither(m: nat, d: nat, e: nat, p: nat)
    requires (d + e) % 2 == 1 && p == d * e && p == e * d && Divides(Exp2(m), p)
    ensures Divides(Exp2(m), d) || Divides(Exp2(m), e)
  {
    if d % 2 == 1 { OddFactor(m, d, e, p); } else { OddFactor(m, e, d, p); }
  }

  /**
   The whole shape of the probe cycle: two steps land on the same bucket exactly
   when twice the bucket count divides their distance or their sum plus one.
   */
  lemma ProbeCollision(h: nat, s: nat, t: nat, k: nat)
    requires s <= t
    ensures Probe(h, s, Exp2(k)) == Probe(h, t, Exp2(k))
       <==> Divides(2 * Exp2(k), t - s) || Divides(2 * Exp2(k), t + s + 1)
  {
    var n := Exp2(k);
    assert Exp2(k + 1) == 2 * n;
    TriDifference(s, t);
    SameRemainder(h + Tri(s), h + Tri(t), n);
    HalveDivides(n, Tri(t) - Tri(s));
    var p := 2 * (Tri(t) - Tri(s));
    Commute(t - s, t + s + 1);
    DividesOneFactor(k + 1, t - s, t + s + 1, p);
  }

  lemma {:induction false} TriMonotone(s: nat, t: nat)
    requires s <= t
    ensures Tri(s) <= Tri(t)
  {
    if s < t { TriMonotone(s, t - 1); }
  }

  /** The first n steps visit pairwise different buckets. */
  lemma ProbeInjective(h: nat, s: nat, t: nat, n: nat)
    requires IsPow2(n) && s < t < n
    ensures Probe(h, s, n) != Probe(h, t, n)
  {
    var k: nat :| k < 32 && Exp2(k) == n;
    ProbeCollision(h, s, t, k);
    NoMultipleBelow(2 * n, t - s);
    NoMultipleBelow(2 * n, t + s + 1);
  }

  lemma NoMultipleBelow(n: nat, a: nat)
    requires 0 < a < n
    ensures !Divides(n, a)
  {
  }

  /** The first return to the starting bucket is at step 2n - 1, not at step n. */
  lemma ProbeFirstReturn(h: nat, s: nat, n: nat)
    requires IsPow2(n) && 0 < s < 2 * n
    ensures Probe(h, s, n) == Probe(h, 0, n) <==> s == 2 * n - 1
  {
    var k: nat :| k < 32 && Exp2(k) == n;
    ProbeCollision(h, 0, s, k);
    NoMultipleBelow(2 * n, s);
    if s == 2 * n - 1 {
      Multiple(2 * n, 1);
    } else {
      NoMultipleBelow(2 * n, s + 1);
    }
  }

  /** The buckets visited by the first m steps. */
  ghost function Visited(h: nat, m: nat, n: nat): set<nat>
    requires n > 0
  {
    if m == 0 then {} else Visited(h, m - 1, n) + {Probe(h, m - 1, n)}
  }

  lemma {:induction false} StepOf(h: nat, m: nat, n: nat, x: nat) returns (s: nat)
    requires n > 0 && x in Visited(h, m, n)
    ensures s < m && Probe(h, s, n) == x
  {
    if x == Probe(h, m - 1, n) {
      s := m - 1;
    } else {
      s := StepOf(h, m - 1, n, x);
    }
  }

  lemma NewBucket(h: nat, m: nat, n: nat)
    requires IsPow2(n) && 0 < m <= n && Visited(h, m - 1, n) <= Below(n)
    ensures |Visited(h, m, n)| == |Visited(h, m - 1, n)| + 1 && Visited(h, m, n) <= Below(n)
  {
    var x := Probe(h, m - 1, n);
    assert x in Below(n);
    if x in Visited(h, m - 1, n) {
      var s := StepOf(h, m - 1, n, x);
      ProbeInjective(h, s, m - 1, n);
    }
    AddOne(Visited(h, m - 1, n), x);
  }

  lemma {:induction false} VisitedSize(h: nat, m: nat, n: nat)
    requires IsPow2(n) && m <= n
    ensures |Visited(h, m, n)| == m && Visited(h, m, n) <= Below(n)
  {
    if m > 0 {
      VisitedSize(h, m - 1, n);
      hide Visited, Probe;
      NewBucket(h, m, n);
    }
  }

  /** The first n steps visit every bucket. */
  lemma ProbeCovers(h: nat, x: nat, n: nat)
    requires IsPow2(n) && x < n
    ensures exists s: nat :: s < n && Probe(h, s, n) == x
  {
    VisitedSize(h, n, n);
    BelowSize(n);
    SubsetOfEqualSize(Visited(h, n, n), Below(n));
    assert x in Below(n);
    var s := StepOf(h, n, n, x);
  }
}
