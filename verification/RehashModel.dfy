/**
 The invariant of khash's in-place rehash: while elements are moved, one key array
 serves the old table and the new one at once, and an element may be in hand.
 */
module RehashModel {
  import opened PackedFlags
  import opened KhashModel

  /** Bucket i holds an element, either not yet moved or already moved. */
  ghost predicate Here(of: seq<Flag>, nf: seq<Flag>, i: nat)
  {
    || (i < |of| && of[i] == Live)
    || (i < |nf| && nf[i] == Live)
  }

  /**
   of are the old states, nf the new ones. No bucket belongs to both tables, every
   key outside the hand is in exactly the bucket that at names, and moved keys can
   be found in the new table.
   */
  ghost predicate Moving<K>(of: seq<Flag>, nf: seq<Flag>, ks: seq<K>, at: map<K, nat>, hash: K -> nat)
  {
    && |of| <= |ks|
    && 0 < |nf| <= |ks|
    && (forall i: nat :: i < |nf| ==> nf[i] != Deleted)
    && (forall i: nat :: i < |of| && i < |nf| && of[i] == Live ==> nf[i] == Empty)
    && (forall k :: k in at ==> at[k] < |ks| && Here(of, nf, at[k]) && ks[at[k]] == k)
    && (forall i: nat :: i < |ks| && Here(of, nf, i) ==> ks[i] in at && at[ks[i]] == i)
    && Placed(nf, ks, hash)
  }

  /** Before the first move: the old table as it is, the new one empty. */
  lemma StartMoving<K>(f: seq<Flag>, ks: seq<K>, at: map<K, nat>, hash: K -> nat, n: nat)
    requires |f| <= |ks| && 0 < n <= |ks| && Indexed(f, ks, at)
    ensures Moving(f, AllEmpty(n), ks, at, hash)
  {
  }

  /** Taking an unmoved element into the hand. */
  lemma TakeKeepsMoving<K>(of: seq<Flag>, nf: seq<Flag>, ks: seq<K>, at: map<K, nat>, hash: K -> nat, j: nat)
    requires Moving(of, nf, ks, at, hash) && j < |of| && of[j] == Live
    ensures j < |ks| && ks[j] in at && at[ks[j]] == j
    ensures Moving(of[j := Deleted], nf, ks, at - {ks[j]}, hash)
    ensures LiveBuckets(of[j := Deleted]) == LiveBuckets(of) - {j}
  {
    assert Here(of, nf, j);
    var of', at' := of[j := Deleted], at - {ks[j]};
    forall k | k in at' ensures Here(of', nf, at'[k]) {
      assert Here(of, nf, at[k]);
    }
    forall i: nat | i < |ks| && Here(of', nf, i) ensures ks[i] in at' && at'[ks[i]] == i {
      assert Here(of, nf, i);
    }
  }

  /** Putting the element in hand into a free bucket of the new table that no unmoved element occupies. */
  lemma PlaceKeepsMoving<K>(of: seq<Flag>, nf: seq<Flag>, ks: seq<K>, at: map<K, nat>, hash: K -> nat, key: K, i: nat)
    requires Moving(of, nf, ks, at, hash) && key !in at
    requires i < |nf| && nf[i] == Empty && OnPath(nf, hash(key), i)
    requires i < |of| ==> of[i] != Live
    ensures Moving(of, nf[i := Live], ks[i := key], at[key := i], hash)
  {
    var nf', ks', at' := nf[i := Live], ks[i := key], at[key := i];
    forall k | k in at' ensures Here(of, nf', at'[k]) && ks'[at'[k]] == k {
      if k != key { assert Here(of, nf, at[k]); }
    }
    forall b: nat | b < |ks'| && Here(of, nf', b) ensures ks'[b] in at' && at'[ks'[b]] == b {
      if b != i { assert Here(of, nf, b); }
    }
    forall b: nat | b < |nf'| && nf'[b] == Live ensures OnPath(nf', hash(ks'[b]), b) {
      PathsGrow(nf, nf', hash(ks'[b]), b);
    }
  }

  /** The whole rehash state, with the two flag arrays and the element count. */
  ghost predicate Rehashing<K>(of: seq<Flag>, nf: seq<Flag>, words: seq<bv32>, newWords: seq<bv32>,
                               ks: seq<K>, at: map<K, nat>, size: nat, hash: K -> nat)
  {
    && IsTableSize(|nf|)
    && size < UpperBound(|nf|)
    && Packs(words, of)
    && Packs(newWords, nf)
    && Moving(of, nf, ks, at, hash)
  }

  lemma StartRehash<K>(f: seq<Flag>, at: map<K, nat>, words: seq<bv32>, ks: seq<K>,
                       n: nat, size: nat, occupied: nat, bound: nat, hash: K -> nat, newWords: seq<bv32>, m: nat)
    requires IsTable(f, at, words, ks, n, size, occupied, bound, hash)
    requires IsTableSize(m) && m <= |ks| && size < UpperBound(m)
    requires |newWords| == FSize(m) && forall w :: 0 <= w < |newWords| ==> newWords[w] == FILL
    ensures Rehashing(f, AllEmpty(m), words, newWords, ks, at, size, hash)
  {
    TableSizeWords(m);
    FilledIsAllEmpty(newWords, m);
    StartMoving(f, ks, at, hash, m);
  }

  /** The outer loop picks up bucket j. */
  lemma TakeStep<K, V>(of: seq<Flag>, nf: seq<Flag>, words: seq<bv32>, words': seq<bv32>, newWords: seq<bv32>,
                       ks: seq<K>, vs: seq<V>, at: map<K, nat>, size: nat, hash: K -> nat, j: nat)
    requires Rehashing(of, nf, words, newWords, ks, at, size, hash)
    requires j < |of| <= |vs| && of[j] == Live && Packs(words', of[j := Deleted])
    ensures j < |ks| && ks[j] in at
    ensures Rehashing(of[j := Deleted], nf, words', newWords, ks, at - {ks[j]}, size, hash)
    ensures |at - {ks[j]}| == |at| - 1
    ensures Bindings(at - {ks[j]}, vs)[ks[j] := vs[j]] == Bindings(at, vs)
  {
    hide Packs, Moving, LiveBuckets;
    TakeKeepsMoving(of, nf, ks, at, hash, j);
    assert at.Keys == (at - {ks[j]}).Keys + {ks[j]};
  }

  /** The element in hand goes to a bucket that holds no unmoved element. */
  lemma DropStep<K, V>(of: seq<Flag>, nf: seq<Flag>, words: seq<bv32>, newWords: seq<bv32>, newWords': seq<bv32>,
                       ks: seq<K>, vs: seq<V>, at: map<K, nat>, size: nat, hash: K -> nat, key: K, val: V, i: nat)
    requires Rehashing(of, nf, words, newWords, ks, at, size, hash) && key !in at
    requires i < |nf| <= |vs| && nf[i] == Empty && OnPath(nf, hash(key), i) && (i < |of| ==> of[i] != Live)
    requires Packs(newWords', nf[i := Live])
    ensures i < |ks|
    ensures Rehashing(of, nf[i := Live], words, newWords', ks[i := key], at[key := i], size, hash)
    ensures |at[key := i]| == |at| + 1
    ensures Bindings(at[key := i], vs[i := val]) == Bindings(at, vs)[key := val]
  {
    PlaceKeepsMoving(of, nf, ks, at, hash, key, i);
    assert at[key := i].Keys == at.Keys + {key};
    forall k | k in at ensures at[k] != i {
      assert Here(of, nf, at[k]);
    }
    BindNew(at, vs, key, i, val);
  }

  /** The element in hand changes places with the unmoved element in its bucket. */
  lemma KickStep<K, V>(of: seq<Flag>, nf: seq<Flag>, words: seq<bv32>, words': seq<bv32>, newWords: seq<bv32>,
                       newWords': seq<bv32>, ks: seq<K>, vs: seq<V>, at: map<K, nat>, size: nat, hash: K -> nat,
                       key: K, val: V, i: nat)
    requires Rehashing(of, nf, words, newWords, ks, at, size, hash) && key !in at
    requires i < |nf| <= |vs| && nf[i] == Empty && OnPath(nf, hash(key), i)
    requires i < |of| <= |vs| && of[i] == Live
    requires Packs(words', of[i := Deleted]) && Packs(newWords', nf[i := Live])
    ensures i < |ks| && ks[i] in at
    ensures var at' := (at - {ks[i]})[key := i];
      && Rehashing(of[i := Deleted], nf[i := Live], words', newWords', ks[i := key], at', size, hash)
      && ks[i] !in at'
      && |at'| == |at|
      && Bindings(at', vs[i := val])[ks[i] := vs[i]] == Bindings(at, vs)[key := val]
    ensures |LiveBuckets(of[i := Deleted])| < |LiveBuckets(of)|
  {
    hide Packs, Moving, Bindings, OnPath;
    TakeStep(of, nf, words, words', newWords, ks, vs, at, size, hash, i);
    TakeKeepsMoving(of, nf, ks, at, hash, i);
    DropStep(of[i := Deleted], nf, words', newWords, newWords', ks, vs, at - {ks[i]}, size, hash, key, val, i);
  }

  /** The new table never fills up: its occupied buckets hold distinct keys. */
  lemma NewTableHasRoom<K>(of: seq<Flag>, nf: seq<Flag>, ks: seq<K>, at: map<K, nat>, hash: K -> nat)
    requires Moving(of, nf, ks, at, hash)
    ensures |Occupied(nf)| <= |at|
  {
    forall i | i in Occupied(nf) ensures i < |ks| && ks[i] in at && at[ks[i]] == i {
      assert Here(of, nf, i);
    }
    InjectionSize(Occupied(nf), at.Keys, (i: nat) requires i < |ks| => ks[i]);
  }

  /** After the last move every key sits in the new table. */
  lemma EndMoving<K>(of: seq<Flag>, nf: seq<Flag>, ks: seq<K>, at: map<K, nat>, hash: K -> nat)
    requires Moving(of, nf, ks, at, hash)
    requires forall i: nat :: i < |of| ==> of[i] != Live
    ensures Indexed(nf, ks, at)
    ensures Occupied(nf) == LiveBuckets(nf)
    ensures |Occupied(nf)| == |at|
  {
    forall i: nat | i < |nf| && nf[i] == Live ensures ks[i] in at && at[ks[i]] == i {
      assert Here(of, nf, i);
    }
    IndexSize(nf, ks, at);
  }

  lemma EndRehash<K>(of: seq<Flag>, nf: seq<Flag>, words: seq<bv32>, newWords: seq<bv32>,
                     ks: seq<K>, at: map<K, nat>, size: nat, hash: K -> nat)
    requires Rehashing(of, nf, words, newWords, ks, at, size, hash) && size == |at|
    requires |newWords| == FSize(|nf|) && forall i: nat :: i < |of| ==> of[i] != Live
    requires |nf| <= |ks|
    ensures IsTable(nf, at, newWords, ks, |nf|, size, size, UpperBound(|nf|), hash)
    ensures forall k :: k in at ==> at[k] < |nf|
    ensures forall i: nat :: i < |nf| ==> nf[i] != Deleted
  {
    EndMoving(of, nf, ks, at, hash);
    RehashedTable(nf, at, newWords, ks, |nf|, size, hash);
  }
}
