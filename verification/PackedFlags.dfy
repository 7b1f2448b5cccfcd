/**
 khash keeps two status bits per bucket, sixteen buckets to a 32-bit word. This
 module models the words and the macros that read and write them, and shows that
 they behave as a plain sequence of bucket states.
 */
module PackedFlags {
  import BitLanes

  datatype Flag = Empty | Deleted | Live

  /** The two-bit code of a bucket state: bit 1 says "empty", bit 0 says "deleted". */
  function Code(f: Flag): bv32
  {
    match f
    case Empty => 2
    case Deleted => 1
    case Live => 0
  }

  /** The lane of bucket i inside its word: the two bits sit at twice this offset. */
  function Lane(i: nat): bv32
  {
    match i % 16
    case 0 => 0 case 1 => 1 case 2 => 2 case 3 => 3
    case 4 => 4 case 5 => 5 case 6 => 6 case 7 => 7
    case 8 => 8 case 9 => 9 case 10 => 10 case 11 => 11
    case 12 => 12 case 13 => 13 case 14 => 14 case _ => 15
  }

  function Bits(word: bv32, i: nat): bv32
  {
    (word >> (2 * Lane(i))) & 3
  }

  predicate IsEmpty(word: bv32, i: nat)
  {
    (word >> (2 * Lane(i))) & 2 != 0
  }

  predicate IsDel(word: bv32, i: nat)
  {
    (word >> (2 * Lane(i))) & 1 != 0
  }

  predicate IsEither(word: bv32, i: nat)
  {
    (word >> (2 * Lane(i))) & 3 != 0
  }

  function SetIsDelTrue(word: bv32, i: nat): bv32
  {
    word | (1 << (2 * Lane(i)))
  }

  function SetIsEmptyFalse(word: bv32, i: nat): bv32
  {
    word & !(2 << (2 * Lane(i)))
  }

  function SetIsBothFalse(word: bv32, i: nat): bv32
  {
    word & !(3 << (2 * Lane(i)))
  }

  /** Every byte of a freshly filled flag array is 0xaa. */
  const FILL: bv32 := 0xaaaa_aaaa

  /** The number of words allocated for m buckets. */
  function FSize(m: nat): nat
  {
    if m < 16 then 1 else m / 16
  }

  /** The words encode the states f, bucket by bucket. */
  ghost predicate Packs(words: seq<bv32>, f: seq<Flag>)
  {
    forall i: nat :: i < |f| ==> i / 16 < |words| && Bits(words[i / 16], i) == Code(f[i])
  }

  lemma Codes(x: bv32)
    ensures x & 2 == (x & 3) & 2 && x & 1 == (x & 3) & 1
  {
  }

  /** The test macros read the packed state of their bucket. */
  lemma ReadFlag(words: seq<bv32>, f: seq<Flag>, i: nat)
    requires Packs(words, f) && i < |f|
    ensures i / 16 < |words|
    ensures IsEmpty(words[i / 16], i) <==> f[i] == Empty
    ensures IsDel(words[i / 16], i) <==> f[i] == Deleted
    ensures IsEither(words[i / 16], i) <==> f[i] != Live
  {
    Codes(words[i / 16] >> (2 * Lane(i)));
  }

  /** The allocated words cover all buckets exactly for the sizes khash uses. */
  lemma FSizeCovers(m: nat)
    ensures (forall i: nat :: i < m ==> i / 16 < FSize(m)) <==> m <= 16 || m % 16 == 0
  {
    if m > 16 && m % 16 != 0 {
      var i := m - 1;
      assert i < m && !(i / 16 < FSize(m));
    }
  }

  lemma LanesAreDistinct(i: nat, j: nat)
    ensures Lane(i) < 16 && Lane(j) < 16
    ensures Lane(i) == Lane(j) <==> i % 16 == j % 16
  {
  }

  // Each setter rewrites its own bucket's bits and leaves every other bucket of the word alone.

  lemma DelTrueIsLocal(word: bv32, i: nat, j: nat)
    ensures Bits(SetIsDelTrue(word, i), j) == if i % 16 == j % 16 then Bits(word, j) | 1 else Bits(word, j)
  {
    LanesAreDistinct(i, j);
    BitLanes.SetOne(word, Lane(i), Lane(j));
  }

  lemma EmptyFalseIsLocal(word: bv32, i: nat, j: nat)
    ensures Bits(SetIsEmptyFalse(word, i), j) == if i % 16 == j % 16 then Bits(word, j) & 1 else Bits(word, j)
  {
    LanesAreDistinct(i, j);
    BitLanes.ClearTwo(word, Lane(i), Lane(j));
  }

  lemma BothFalseIsLocal(word: bv32, i: nat, j: nat)
    ensures Bits(SetIsBothFalse(word, i), j) == if i % 16 == j % 16 then 0 else Bits(word, j)
  {
    LanesAreDistinct(i, j);
    BitLanes.ClearThree(word, Lane(i), Lane(j));
  }

  /** Marking a live or deleted bucket deleted is an update of one sequence element. */
  lemma MarkDeleted(words: seq<bv32>, f: seq<Flag>, i: nat)
    requires Packs(words, f) && i < |f| && f[i] != Empty
    ensures Packs(words[i / 16 := SetIsDelTrue(words[i / 16], i)], f[i := Deleted])
  {
    forall j: nat | j < |f| && j / 16 == i / 16 { DelTrueIsLocal(words[i / 16], i, j); }
  }

  /** Clearing the "empty" bit of an empty bucket makes it live. */
  lemma MarkOccupied(words: seq<bv32>, f: seq<Flag>, i: nat)
    requires Packs(words, f) && i < |f| && f[i] == Empty
    ensures Packs(words[i / 16 := SetIsEmptyFalse(words[i / 16], i)], f[i := Live])
  {
    forall j: nat | j < |f| && j / 16 == i / 16 { EmptyFalseIsLocal(words[i / 16], i, j); }
  }

  /** Clearing both bits makes any bucket live. */
  lemma MarkLive(words: seq<bv32>, f: seq<Flag>, i: nat)
    requires Packs(words, f) && i < |f|
    ensures Packs(words[i / 16 := SetIsBothFalse(words[i / 16], i)], f[i := Live])
  {
    forall j: nat | j < |f| && j / 16 == i / 16 { BothFalseIsLocal(words[i / 16], i, j); }
  }

  function AllEmpty(n: nat): (f: seq<Flag>)
    ensures |f| == n && forall i :: 0 <= i < n ==> f[i] == Empty
  {
    seq(n, _ => Empty)
  }

  /** The 0xaa fill makes every bucket empty. */
  lemma FilledIsAllEmpty(words: seq<bv32>, n: nat)
    requires n <= 16 || n % 16 == 0
    requires |words| == FSize(n) && forall w :: 0 <= w < |words| ==> words[w] == FILL
    ensures Packs(words, AllEmpty(n))
  {
    FSizeCovers(n);
    forall i: nat | i < n ensures Bits(FILL, i) == Code(Empty) {
      LanesAreDistinct(i, i);
      BitLanes.FillBits(Lane(i));
    }
  }

  /** Words of zeros are a table of live buckets. */
  lemma ZeroIsLive(words: seq<bv32>, f: seq<Flag>)
    requires forall w :: 0 <= w < |words| ==> words[w] == 0
    requires forall i: nat :: i < |f| ==> i / 16 < |words| && f[i] == Live
    ensures Packs(words, f)
  {
    forall i: nat | i < |f| ensures Bits(words[i / 16], i) == Code(f[i]) {
      ZeroLane(i);
    }
  }

  lemma ZeroLane(i: nat)
    ensures Bits(0, i) == 0
  {
  }
}
