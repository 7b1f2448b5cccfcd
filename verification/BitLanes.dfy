/**
 Facts about sixteen two-bit lanes inside a 32-bit word, on bit-vectors alone.
 */
module BitLanes {

  lemma SetOne(w: bv32, a: bv32, b: bv32)
    requires a < 16 && b < 16
    ensures ((w | (1 << (2 * a))) >> (2 * b)) & 3
         == if a == b then ((w >> (2 * b)) & 3) | 1 else (w >> (2 * b)) & 3
  {
  }

  /** Clearing is reasoned about as set-then-flip: complements of shifted masks are costly for the solver. */
  lemma AndNot(w: bv32, m: bv32)
    ensures w & !m == (w | m) ^ m
  {
  }

  lemma FlipTwo(w: bv32, a: bv32, b: bv32)
    requires a < 16 && b < 16
    ensures (((w | (2 << (2 * a))) ^ (2 << (2 * a))) >> (2 * b)) & 3
         == if a == b then ((w >> (2 * b)) & 3) & 1 else (w >> (2 * b)) & 3
  {
  }

  lemma FlipThree(w: bv32, a: bv32, b: bv32)
    requires a < 16 && b < 16
    ensures (((w | (3 << (2 * a))) ^ (3 << (2 * a))) >> (2 * b)) & 3
         == if a == b then 0 else (w >> (2 * b)) & 3
  {
  }

  lemma ClearTwo(w: bv32, a: bv32, b: bv32)
    requires a < 16 && b < 16
    ensures ((w & !(2 << (2 * a))) >> (2 * b)) & 3
         == if a == b then ((w >> (2 * b)) & 3) & 1 else (w >> (2 * b)) & 3
  {
    AndNot(w, 2 << (2 * a));
    FlipTwo(w, a, b);
    if a == b {} else {}
  }

  lemma ClearThree(w: bv32, a: bv32, b: bv32)
    requires a < 16 && b < 16
    ensures ((w & !(3 << (2 * a))) >> (2 * b)) & 3 == if a == b then 0 else (w >> (2 * b)) & 3
  {
    AndNot(w, 3 << (2 * a));
    FlipThree(w, a, b);
    if a == b {} else {}
  }

  lemma FillBits(a: bv32)
    requires a < 16
    ensures ((0xaaaa_aaaa as bv32) >> (2 * a)) & 3 == 2
  {
  }
}
