/**
 The khash map: an open-addressing table over three parallel arrays that is rehashed
 in place, refined to a finite map.
 */
module Khash {
  import opened Probing
  import opened PackedFlags
  import opened RoundUp
  import opened KhashModel
  import opened RehashModel

  class Table<K(==,0), V(0)> {
    const hash: K -> nat
    const grants: nat -> bool   // whether the allocation of a given number succeeds
    var nBuckets: nat
    var size: nat
    var nOccupied: nat
    var upperBound: nat
    var flags: array<bv32>
    var keys: array<K>
    var vals: array<V>
    var asked: nat              // how many allocations have been asked for

    ghost var f: seq<Flag>      // the states packed in flags
    ghost var at: map<K, nat>   // the bucket of each key

    /** The arrays are different objects and hold the table that f and at describe. */
    ghost predicate Valid()
      reads this, flags, keys
    {
      && keys as object != vals && keys as object != flags && vals as object != flags
      && |f| == nBuckets <= keys.Length && nBuckets <= vals.Length
      && IsTable(f, at, flags[..], keys[..], nBuckets, size, nOccupied, upperBound, hash)
    }

    /** The finite map the table stands for. */
    ghost function Contents(): map<K, V>
      reads this, vals
    {
      Bindings(at, vals[..])
    }

    /** The iterator x points at a live bucket that holds the binding of key. */
    ghost predicate PointsAt(x: nat, key: K)
      reads this, flags, keys, vals
    {
      && x < |f| && x < nBuckets && x < keys.Length && x < vals.Length
      && f[x] == Live
      && keys[x] == key
      && key in Contents() && Contents()[key] == vals[x]
    }

    lemma BucketFacts(x: nat)
      requires Valid() && x < nBuckets
      ensures Packs(flags[..], f)
      ensures f[x] == Live ==> size > 0 && PointsAt(x, keys[x]) && keys[x] in at && at[keys[x]] == x
      ensures forall k :: k in at ==> at[k] < nBuckets && keys[at[k]] == k
    {
    }

    // The flag tests on bucket i.

    predicate EmptyAt(i: nat)
      requires Valid() && i < nBuckets
      reads this, flags, keys
      ensures EmptyAt(i) <==> f[i] == Empty
    {
      BucketFacts(i);
      ReadFlag(flags[..], f, i);
      IsEmpty(flags[i / 16], i)
    }

    predicate DelAt(i: nat)
      requires Valid() && i < nBuckets
      reads this, flags, keys
      ensures DelAt(i) <==> f[i] == Deleted
    {
      BucketFacts(i);
      ReadFlag(flags[..], f, i);
      IsDel(flags[i / 16], i)
    }

    predicate EitherAt(i: nat)
      requires Valid() && i < nBuckets
      reads this, flags, keys
      ensures EitherAt(i) <==> f[i] != Live
    {
      BucketFacts(i);
      ReadFlag(flags[..], f, i);
      IsEither(flags[i / 16], i)
    }

    constructor (hash: K -> nat, grants: nat -> bool)
      ensures Valid() && Contents() == map[] && nBuckets == 0
      ensures this.hash == hash && this.grants == grants && asked == 0
      ensures fresh(flags) && fresh(keys) && fresh(vals)
    {
      this.hash, this.grants, asked := hash, grants, 0;
      nBuckets, size, nOccupied, upperBound := 0, 0, 0, 0;
      flags, keys, vals := new bv32[0], new K[0], new V[0];
      f, at := [], map[];
      new;
      hide IsTable, Bindings;
      NoBindings(at, vals[..]);
      EmptyTable(keys[..], hash);
      assert flags[..] == [];
    }

    method Clear()
      requires Valid()
      modifies this`size, this`nOccupied, this`f, this`at, flags
      ensures Valid() && Contents() == map[]
      // no bucket is left occupied, not even by a tombstone
      ensures size == nOccupied == 0
      ensures |f| == nBuckets && forall i: nat :: i < nBuckets ==> f[i] == Empty
    {
      hide IsTable;
      if nBuckets != 0 {
        ghost var words := flags[..];
        Fill(flags);
        ClearedTable(f, at, words, flags[..], keys[..], nBuckets, size, nOccupied, upperBound, hash);
        size, nOccupied := 0, 0;
        f, at := AllEmpty(nBuckets), map[];
      } else {
        NoBuckets();
      }
    }

    static lemma NoBindings(at: map<K, nat>, vs: seq<V>)
      requires at == map[]
      ensures Bindings(at, vs) == map[]
    {
    }

    lemma NoBuckets()
      requires Valid() && nBuckets == 0
      ensures at == map[] && Contents() == map[] && size == nOccupied == 0 && f == []
    {
    }

    /** memset(flags, 0xaa, ...) */
    static method Fill(words: array<bv32>)
      modifies words
      ensures forall w :: 0 <= w < words.Length ==> words[w] == FILL
    {
      for w := 0 to words.Length
        invariant forall u :: 0 <= u < w ==> words[u] == FILL
      {
        words[w] := FILL;
      }
    }

    // The flag macros as statements on the word array.

    static method SetDel(words: array<bv32>, i: nat, ghost f: seq<Flag>)
      requires Packs(words[..], f) && i < |f| && f[i] != Empty
      modifies words
      ensures Packs(words[..], f[i := Deleted])
    {
      hide Packs, SetIsDelTrue;
      ReadFlag(words[..], f, i);
      MarkDeleted(words[..], f, i);
      words[i / 16] := SetIsDelTrue(words[i / 16], i);
      assert words[..] == old(words[..])[i / 16 := SetIsDelTrue(old(words[i / 16]), i)];
    }

    static method SetOccupied(words: array<bv32>, i: nat, ghost f: seq<Flag>)
      requires Packs(words[..], f) && i < |f| && f[i] == Empty
      modifies words
      ensures Packs(words[..], f[i := Live])
    {
      hide Packs, SetIsEmptyFalse;
      ReadFlag(words[..], f, i);
      MarkOccupied(words[..], f, i);
      words[i / 16] := SetIsEmptyFalse(words[i / 16], i);
      assert words[..] == old(words[..])[i / 16 := SetIsEmptyFalse(old(words[i / 16]), i)];
    }

    static method SetLive(words: array<bv32>, i: nat, ghost f: seq<Flag>)
      requires Packs(words[..], f) && i < |f|
      modifies words
      ensures Packs(words[..], f[i := Live])
    {
      hide Packs, SetIsBothFalse;
      ReadFlag(words[..], f, i);
      MarkLive(words[..], f, i);
      words[i / 16] := SetIsBothFalse(words[i / 16], i);
      assert words[..] == old(words[..])[i / 16 := SetIsBothFalse(old(words[i / 16]), i)];
    }

    /** A search that has passed as many buckets as there are, or stands at an empty one, has shown key absent. */
    lemma Miss(key: K, s: nat)
      requires Valid() && nBuckets > 0 && Passed(f, keys[..], hash(key), key, s)
      requires s >= nBuckets || f[Probe(hash(key), s, nBuckets)] == Empty
      ensures key !in at && key !in Contents()
      ensures s >= nBuckets ==> forall i: nat :: i < nBuckets ==> f[i] != Empty
    {
      if s >= nBuckets {
        AbsentAfterCycle(f, keys[..], at, hash(key), key, s);
      } else {
        AbsentAtEmpty(f, keys[..], hash, at, key, s);
      }
    }

    lemma Sized()
      requires Valid() && nBuckets > 0
      ensures IsPow2(nBuckets)
    {
    }

    /** One turn of the probe loop: where it goes, what it has passed, and when it is back at the start. */
    lemma Turn(key: K, step: nat)
      requires Valid() && nBuckets > 0 && step < 2 * nBuckets - 1
      requires Passed(f, keys[..], hash(key), key, step)
      requires f[Probe(hash(key), step, nBuckets)] != Empty
      requires f[Probe(hash(key), step, nBuckets)] == Live ==> keys[Probe(hash(key), step, nBuckets)] != key
      ensures Next(Probe(hash(key), step, nBuckets), step + 1, nBuckets) == Probe(hash(key), step + 1, nBuckets) < nBuckets
      ensures Passed(f, keys[..], hash(key), key, step + 1)
      ensures Probe(hash(key), step + 1, nBuckets) == hash(key) % nBuckets <==> step + 1 == 2 * nBuckets - 1
    {
      hide IsTable, Probe, Passed, IsPow2;
      ProbeInRange(hash(key), step, nBuckets);
      NothingPassed(f, keys[..], hash(key), key);
      assert keys[..][Probe(hash(key), step, nBuckets)] == keys[Probe(hash(key), step, nBuckets)];
      PassOne(f, keys[..], hash(key), key, step);
      Sized();
      NextIsProbe(hash(key), step, nBuckets);
      ProbeFirstReturn(hash(key), step + 1, nBuckets);
    }

    method Get(key: K) returns (x: nat)
      requires Valid()
      ensures key in Contents() ==> PointsAt(x, key)
      ensures key !in Contents() ==> x == nBuckets
    {
      hide IsTable, Passed, Probe, Next, EmptyAt, DelAt, EitherAt;
      if nBuckets == 0 {
        NoBuckets();
        return 0;
      }
      var step: nat, i: nat := 0, hash(key) % nBuckets;
      var last := i;
      NothingPassed(f, keys[..], hash(key), key);
      while !EmptyAt(i) && (DelAt(i) || keys[i] != key)
        invariant step < 2 * nBuckets - 1 && i < nBuckets
        invariant i == Probe(hash(key), step, nBuckets)
        invariant Passed(f, keys[..], hash(key), key, step)
        decreases 2 * nBuckets - step
      {
        Turn(key, step);
        step := step + 1;
        i := Next(i, step, nBuckets);
        assert i == Probe(hash(key), step, nBuckets);
        if i == last {
          Miss(key, step);
          return nBuckets;
        }
      }
      if EitherAt(i) {
        Miss(key, step);
        x := nBuckets;
      } else {
        BucketFacts(i);
        x := i;
      }
    }

    /** The tombstone met at this step is on the path of key. */
    lemma SiteMet(key: K, step: nat)
      requires Valid() && nBuckets > 0 && Passed(f, keys[..], hash(key), key, step)
      ensures OnPath(f, hash(key), Probe(hash(key), step, nBuckets))
    {
      MetIsOnPath(f, keys[..], hash(key), key, step);
    }

    /** The bucket that put settles on: the key's own, else the last tombstone met, else the empty bucket reached. */
    ghost predicate Settled(key: K, x: nat)
      reads this
    {
      && x < nBuckets == |f|
      && (key in at ==> at[key] == x && f[x] == Live)
      && (key !in at && f[x] == Live ==> forall i: nat :: i < nBuckets ==> f[i] == Live)
      && (key !in at && f[x] != Live ==> LastTombstone(f, hash(key), x) || FirstEmpty(f, hash(key), x))
    }

    /** The search stands at the key's own bucket. */
    lemma SettlesAtKey(key: K, x: nat)
      requires Valid() && x < nBuckets && f[x] == Live && keys[x] == key
      ensures Settled(key, x)
    {
      BucketFacts(x);
    }

    /** The search stands at an empty bucket. */
    lemma SettlesAtEmpty(key: K, site: nat, met: nat, step: nat)
      requires Valid() && nBuckets > 0 && Passed(f, keys[..], hash(key), key, step)
      requires SiteSoFar(f, hash(key), site, met, step) && f[Probe(hash(key), step, nBuckets)] == Empty
      ensures Settled(key, if site != nBuckets then site else Probe(hash(key), step, nBuckets))
    {
      hide IsTable, IsPow2, Passed, Probe, SiteSoFar, LastTombstone, FirstEmpty, OnPath;
      Sized();
      ProbeInRange(hash(key), step, nBuckets);
      SiteMet(key, step);
      Miss(key, step);
      SiteAtEnd(f, hash(key), site, met, step);
    }

    /** The search is back at its start: there is a tombstone, or all buckets are live. */
    lemma SettlesAtStart(key: K, site: nat, met: nat, step: nat, i: nat)
      requires Valid() && nBuckets > 0 && Passed(f, keys[..], hash(key), key, step) && step == 2 * nBuckets - 1
      requires SiteSoFar(f, hash(key), site, met, step) && i < nBuckets
      ensures site == nBuckets ==> f[i] == Live
      ensures Settled(key, if site != nBuckets then site else i)
    {
      hide IsTable, IsPow2, Passed, Probe, SiteSoFar, LastTombstone, FirstEmpty, OnPath;
      Sized();
      SiteMet(key, step);
      Miss(key, step);
      SiteAtEnd(f, hash(key), site, met, step);
    }

    method FindSite(key: K) returns (x: nat)
      requires Valid() && nBuckets > 0
      ensures Settled(key, x)
    {
      hide IsTable, IsPow2, Contents, Settled, Passed, Probe, Next, SiteSoFar, OnPath, EmptyAt, DelAt;
      var step: nat, i: nat := 0, hash(key) % nBuckets;
      var site: nat, last := nBuckets, i;
      ghost var met: nat := 0;
      x := nBuckets;
      NothingPassed(f, keys[..], hash(key), key);
      NoSiteYet(f, hash(key));
      if EmptyAt(i) {
        SettlesAtEmpty(key, site, met, step);
        x := i;
      } else {
        while !EmptyAt(i) && (DelAt(i) || keys[i] != key)
          invariant x == nBuckets
          invariant step < 2 * nBuckets - 1 && i < nBuckets
          invariant i == Probe(hash(key), step, nBuckets)
          invariant Passed(f, keys[..], hash(key), key, step)
          invariant SiteSoFar(f, hash(key), site, met, step)
          decreases 2 * nBuckets - step
        {
          SiteMet(key, step);
          SiteGrows(f, hash(key), site, met, step);
          if DelAt(i) {
            site, met := i, step;
          }
          Turn(key, step);
          step := step + 1;
          i := Next(i, step, nBuckets);
          assert i == Probe(hash(key), step, nBuckets);
          if i == last {
            SettlesAtStart(key, site, met, step, i);
            x := site;
            break;
          }
        }
        if x == nBuckets {
          if EmptyAt(i) {
            SettlesAtEmpty(key, site, met, step);
          } else if i != last || step < 2 * nBuckets - 1 {
            SettlesAtKey(key, i);
          }
          if EmptyAt(i) && site != nBuckets {
            x := site;
          } else {
            x := i;
          }
        }
      }
    }

    /** Below the largest size some bucket is always empty, so no search ever comes back to its start. */
    lemma SearchMeetsEmpty(key: K)
      requires Valid() && 0 < nBuckets
      ensures nOccupied < nBuckets <==> exists s: nat :: s < nBuckets && f[Probe(hash(key), s, nBuckets)] == Empty
      ensures nBuckets < MAX_BUCKETS ==> nOccupied <= upperBound < nBuckets
    {
      Counters();
      Sized();
      EmptyIffRoom(f, hash(key));
    }

    /** The outcome of the next allocation. */
    method Allocates() returns (ok: bool)
      modifies this`asked
      ensures ok == grants(old(asked)) && asked == old(asked) + 1
    {
      ok := grants(asked);
      asked := asked + 1;
    }

    static method Realloc<T(0)>(a: array<T>, n: nat) returns (b: array<T>)
      ensures fresh(b) && b.Length == n
      ensures forall i :: 0 <= i < n && i < a.Length ==> b[i] == a[i]
    {
      b := new T[n];
      var m := if n < a.Length then n else a.Length;
      for i := 0 to m
        invariant forall j :: 0 <= j < i ==> b[j] == a[j]
      {
        b[i] := a[i];
      }
    }

    /** The state of the rehash: of and nf are packed in the two flag arrays, and the keys are under way. */
    ghost predicate UnderWay(newFlags: array<bv32>, of: seq<Flag>, nf: seq<Flag>, a: map<K, nat>)
      reads this, flags, keys, newFlags
    {
      && keys as object != vals && keys as object != flags && vals as object != flags
      && newFlags as object != vals && newFlags as object != keys && newFlags != flags
      && |of| == nBuckets <= keys.Length && nBuckets <= vals.Length
      && 0 < |nf| <= keys.Length && |nf| <= vals.Length
      && Rehashing(of, nf, flags[..], newFlags[..], keys[..], a, size, hash)
    }

    lemma UnderWayFacts(newFlags: array<bv32>, of: seq<Flag>, nf: seq<Flag>, a: map<K, nat>)
      requires UnderWay(newFlags, of, nf, a)
      ensures Packs(flags[..], of) && Packs(newFlags[..], nf)
      ensures Rehashing(of, nf, flags[..], newFlags[..], keys[..], a, size, hash)
      ensures |of| == nBuckets && 0 < |nf| <= keys.Length && |nf| <= vals.Length
      ensures keys as object != vals && newFlags as object != keys && newFlags as object != vals
    {
    }

    predicate OldEither(newFlags: array<bv32>, i: nat, ghost of: seq<Flag>, ghost nf: seq<Flag>, ghost a: map<K, nat>)
      requires UnderWay(newFlags, of, nf, a) && i < nBuckets
      reads this, flags, keys, newFlags
      ensures OldEither(newFlags, i, of, nf, a) <==> of[i] != Live
    {
      ReadFlag(flags[..], of, i);
      IsEither(flags[i / 16], i)
    }

    predicate NewEmpty(newFlags: array<bv32>, i: nat, ghost of: seq<Flag>, ghost nf: seq<Flag>, ghost a: map<K, nat>)
      requires UnderWay(newFlags, of, nf, a) && i < |nf|
      reads this, flags, keys, newFlags
      ensures NewEmpty(newFlags, i, of, nf, a) <==> nf[i] == Empty
    {
      ReadFlag(newFlags[..], nf, i);
      IsEmpty(newFlags[i / 16], i)
    }

    lemma FreeBucketAhead(newFlags: array<bv32>, key: K, of: seq<Flag>, nf: seq<Flag>, a: map<K, nat>) returns (s: nat)
      requires UnderWay(newFlags, of, nf, a) && |a| < size
      ensures s < |nf| && nf[Probe(hash(key), s, |nf|)] == Empty && IsPow2(|nf|)
    {
      NewTableHasRoom(of, nf, keys[..], a, hash);
      UpperBoundIsBelow(|nf|);
      s := SomeEmptyBucket(nf, hash(key));
    }

    /** The probe for a free bucket of the new table; nothing but the table's load bounds this loop. */
    method FindFree(newFlags: array<bv32>, key: K, n: nat, ghost of: seq<Flag>, ghost nf: seq<Flag>, ghost a: map<K, nat>)
      returns (i: nat)
      requires UnderWay(newFlags, of, nf, a) && n == |nf| && |a| < size
      ensures i < n && nf[i] == Empty && OnPath(nf, hash(key), i)
    {
      hide Rehashing, Next, Probe, NewEmpty;
      ghost var goal := FreeBucketAhead(newFlags, key, of, nf, a);
      var step: nat := 0;
      i := hash(key) % n;
      ProbeStart(hash(key), n);
      while !NewEmpty(newFlags, i, of, nf, a)
        invariant step <= goal && i < n
        invariant i == Probe(hash(key), step, n)
        invariant Unbroken(nf, hash(key), step)
        decreases goal - step
      {
        NextIsProbe(hash(key), step, n);
        ProbeInRange(hash(key), step + 1, n);
        step := step + 1;
        i := Next(i, step, n);
      }
      assert Reached(nf, hash(key), step, i);
    }

    /**
     The kick-out loop: place the element in hand; if its bucket still holds an
     unmoved element, take that one into the hand instead and go on.
     */
    method KickOut(newFlags: array<bv32>, n: nat, key0: K, val0: V,
                   ghost of0: seq<Flag>, ghost nf0: seq<Flag>, ghost a0: map<K, nat>)
      returns (ghost of: seq<Flag>, ghost nf: seq<Flag>, ghost a: map<K, nat>)
      requires UnderWay(newFlags, of0, nf0, a0) && n == |nf0|
      requires key0 !in a0 && |a0| < size
      modifies flags, newFlags, keys, vals
      ensures UnderWay(newFlags, of, nf, a) && n == |nf| && |a| == |a0| + 1
      ensures Bindings(a, vals[..]) == Bindings(a0, old(vals[..]))[key0 := val0]
      ensures forall i: nat :: i < nBuckets && of[i] == Live ==> of0[i] == Live
    {
      hide Rehashing, Bindings, LiveBuckets, OldEither, OnPath;
      of, nf, a := of0, nf0, a0;
      var key, val := key0, val0;
      while true
        invariant UnderWay(newFlags, of, nf, a) && n == |nf| && |a| == |a0|
        invariant key !in a
        invariant Bindings(a, vals[..])[key := val] == Bindings(a0, old(vals[..]))[key0 := val0]
        invariant forall i: nat :: i < nBuckets && of[i] == Live ==> of0[i] == Live
        decreases |LiveBuckets(of)|
      {
        var i := FindFree(newFlags, key, n, of, nf, a);
        if i < nBuckets && !OldEither(newFlags, i, of, nf, a) {
          key, val, of, nf, a := Swap(newFlags, i, key, val, of, nf, a);
        } else {
          nf, a := Drop(newFlags, i, key, val, of, nf, a);
          break;
        }
      }
    }

    /** Mark bucket i taken in the new table, exchange its unmoved element with the one in hand, and mark it moved. */
    method Swap(newFlags: array<bv32>, i: nat, key: K, val: V, ghost of: seq<Flag>, ghost nf: seq<Flag>, ghost a: map<K, nat>)
      returns (key': K, val': V, ghost of': seq<Flag>, ghost nf': seq<Flag>, ghost a': map<K, nat>)
      requires UnderWay(newFlags, of, nf, a) && key !in a
      requires i < |nf| && nf[i] == Empty && OnPath(nf, hash(key), i) && i < nBuckets && of[i] == Live
      modifies flags, newFlags, keys, vals
      ensures UnderWay(newFlags, of', nf', a') && |nf'| == |nf| && |a'| == |a| && key' !in a'
      ensures of' == of[i := Deleted]
      ensures |LiveBuckets(of')| < |LiveBuckets(of)|
      ensures Bindings(a', vals[..])[key' := val'] == Bindings(a, old(vals[..]))[key := val]
    {
      hide Rehashing, Bindings, LiveBuckets, OnPath, Packs;
      ghost var words, newWords, ks, vs := flags[..], newFlags[..], keys[..], vals[..];
      UnderWayFacts(newFlags, of, nf, a);
      key', val' := keys[i], vals[i];
      keys[i], vals[i] := key, val;
      assert keys[..] == ks[i := key] && vals[..] == vs[i := val];
      SetOccupied(newFlags, i, nf);
      SetDel(flags, i, of);
      KickStep(of, nf, words, flags[..], newWords, newFlags[..], ks, vs, a, size, hash, key, val, i);
      of', nf', a' := of[i := Deleted], nf[i := Live], (a - {ks[i]})[key := i];
    }

    /** Write the element in hand into bucket i of the new table. */
    method Drop(newFlags: array<bv32>, i: nat, key: K, val: V, ghost of: seq<Flag>, ghost nf: seq<Flag>, ghost a: map<K, nat>)
      returns (ghost nf': seq<Flag>, ghost a': map<K, nat>)
      requires UnderWay(newFlags, of, nf, a) && key !in a
      requires i < |nf| && nf[i] == Empty && OnPath(nf, hash(key), i) && (i < nBuckets ==> of[i] != Live)
      modifies newFlags, keys, vals
      ensures UnderWay(newFlags, of, nf', a') && |nf'| == |nf| && |a'| == |a| + 1
      ensures Bindings(a', vals[..]) == Bindings(a, old(vals[..]))[key := val]
    {
      hide Rehashing, Bindings, OnPath, Packs;
      ghost var words, newWords, ks, vs := flags[..], newFlags[..], keys[..], vals[..];
      UnderWayFacts(newFlags, of, nf, a);
      keys[i], vals[i] := key, val;
      assert keys[..] == ks[i := key] && vals[..] == vs[i := val];
      SetOccupied(newFlags, i, nf);
      assert flags[..] == words;
      DropStep(of, nf, words, newWords, newFlags[..], ks, vs, a, size, hash, key, val, i);
      nf', a' := nf[i := Live], a[key := i];
    }

    /** The outer loop of the rehash: every bucket that still holds an unmoved element is emptied. */
    method MoveAll(newFlags: array<bv32>, n: nat) returns (ghost of: seq<Flag>, ghost nf: seq<Flag>, ghost a: map<K, nat>)
      requires UnderWay(newFlags, f, AllEmpty(n), at) && size == |at|
      modifies flags, newFlags, keys, vals
      ensures UnderWay(newFlags, of, nf, a) && |nf| == n && |a| == size
      ensures Bindings(a, vals[..]) == old(Contents())
      ensures forall i: nat :: i < nBuckets ==> of[i] != Live
    {
      hide Rehashing, Bindings, OldEither, Packs;
      of, nf, a := f, AllEmpty(n), at;
      var j: nat := 0;
      while j != nBuckets
        invariant j <= nBuckets
        invariant UnderWay(newFlags, of, nf, a) && |nf| == n && |a| == size
        invariant Bindings(a, vals[..]) == old(Contents())
        invariant forall i: nat :: i < j ==> of[i] != Live
      {
        if !OldEither(newFlags, j, of, nf, a) {
          var key, val := keys[j], vals[j];
          ghost var words := flags[..];
          UnderWayFacts(newFlags, of, nf, a);
          SetDel(flags, j, of);
          TakeStep(of, nf, words, flags[..], newFlags[..], keys[..], vals[..], a, size, hash, j);
          of, nf, a := KickOut(newFlags, n, key, val, of[j := Deleted], nf, a - {key});
        }
        j := j + 1;
      }
    }

    method ReallocKeys(n: nat)
      requires Valid() && n >= nBuckets
      modifies this`keys
      ensures Valid() && fresh(keys) && keys.Length == n
    {
      hide IsTable;
      ghost var ks := keys[..];
      keys := Realloc(keys, n);
      assert ks[..nBuckets] == keys[..][..nBuckets];
      MovedTable(f, at, flags[..], ks, keys[..], nBuckets, size, nOccupied, upperBound, hash);
    }

    method ReallocVals(n: nat)
      requires Valid() && n >= nBuckets
      modifies this`vals
      ensures Valid() && fresh(vals) && vals.Length == n && Contents() == old(Contents())
    {
      hide IsTable, Bindings;
      ghost var vs := vals[..];
      AllInRange();
      vals := Realloc(vals, n);
      assert vs[..nBuckets] == vals[..][..nBuckets];
      SameBindings(at, vs, vals[..], nBuckets);
    }

    /** The larger arrays that an expanding table needs; the keys stay enlarged when the values cannot be. */
    method Grow(n: nat) returns (ok: bool)
      requires Valid() && n >= nBuckets
      modifies this`keys, this`vals, this`asked
      ensures Valid() && Contents() == old(Contents())
      ensures ok <==> grants(old(asked)) && grants(old(asked) + 1)
      ensures ok ==> keys.Length == vals.Length == n
      ensures asked == old(asked) + if grants(old(asked)) then 2 else 1
      ensures keys == old(keys) || fresh(keys)
      ensures vals == old(vals) || fresh(vals)
    {
      hide IsTable, Bindings;
      ok := Allocates();
      if ok {
        ReallocKeys(n);
        ok := Allocates();
        if ok { ReallocVals(n); }
      }
    }

    lemma AllInRange()
      requires Valid()
      ensures forall k :: k in at ==> at[k] < nBuckets
      ensures size == |at| && Contents().Keys == at.Keys
    {
    }

    lemma ContentsSize()
      requires Valid()
      ensures |Contents()| == size
    {
      AllInRange();
      hide IsTable, Bindings;
      assert |Contents()| == |Contents().Keys| && |at| == |at.Keys|;
    }

    /**
     When the table shrinks, cut both arrays to the new size. The result of realloc is
     stored unseen: a null pointer, for which an array without elements stands here.
     */
    method Trim(n: nat) returns (ghost kept: bool)
      requires n <= keys.Length && n <= vals.Length
      modifies this`keys, this`vals, this`asked
      ensures kept <==> nBuckets <= n || (grants(old(asked)) && grants(old(asked) + 1))
      ensures kept ==> n <= keys.Length && n <= vals.Length && keys[..n] == old(keys[..n]) && vals[..n] == old(vals[..n])
      ensures nBuckets > n ==>
        && asked == old(asked) + 2
        && fresh(keys) && fresh(vals) && (kept ==> keys as object != vals)
        && keys.Length == (if grants(old(asked)) then n else 0)
        && vals.Length == if grants(old(asked) + 1) then n else 0
      ensures nBuckets <= n ==> keys == old(keys) && vals == old(vals) && asked == old(asked)
    {
      kept := true;
      if nBuckets > n {
        var ok := Allocates();
        if ok { keys := Realloc(keys, n); } else { keys := new K[0]; }
        kept := ok;
        ok := Allocates();
        if ok { vals := Realloc(vals, n); } else { vals := new V[0]; }
        kept := kept && ok;
      }
    }

    lemma Begins(newFlags: array<bv32>, n: nat)
      requires Valid() && IsTableSize(n) && n >= 4 && size < UpperBound(n)
      requires n <= keys.Length && n <= vals.Length
      requires newFlags as object != vals && newFlags as object != keys && newFlags != flags
      requires newFlags.Length == FSize(n) && forall w :: 0 <= w < newFlags.Length ==> newFlags[w] == FILL
      ensures UnderWay(newFlags, f, AllEmpty(n), at)
    {
      hide IsTable, Rehashing, UpperBound, IsTableSize, FSize;
      StartRehash(f, at, flags[..], keys[..], nBuckets, size, nOccupied, upperBound, hash, newFlags[..], n);
    }

    /** The closing part: trim the arrays when shrinking and install the new flags and counters. */
    method Install(newFlags: array<bv32>, n: nat, ghost of: seq<Flag>, ghost nf: seq<Flag>, ghost a: map<K, nat>)
      returns (ghost kept: bool)
      requires UnderWay(newFlags, of, nf, a) && |nf| == n && |a| == size && newFlags.Length == FSize(n)
      requires forall i: nat :: i < nBuckets ==> of[i] != Live
      modifies this
      ensures size == old(size) && nBuckets == n && nOccupied == size && upperBound == UpperBound(n)
      ensures kept ==> Valid() && Contents() == Bindings(a, old(vals[..])) && forall i: nat :: i < nBuckets ==> f[i] != Deleted
      ensures kept <==> old(nBuckets) <= n || (grants(old(asked)) && grants(old(asked) + 1))
      ensures !kept ==> Broken()
      ensures asked == old(asked) + if old(nBuckets) > n then 2 else 0
      ensures flags == newFlags
      ensures keys == old(keys) || fresh(keys)
      ensures vals == old(vals) || fresh(vals)
    {
      hide IsTable, Bindings, Rehashing, UnderWay, UpperBound, IsTableSize, FSize;
      ghost var ks, vs := keys[..], vals[..];
      UnderWayFacts(newFlags, of, nf, a);
      EndRehash(of, nf, flags[..], newFlags[..], ks, a, size, hash);
      kept := Trim(n);
      flags := newFlags;
      nBuckets, nOccupied, upperBound := n, size, UpperBound(n);
      f, at := nf, a;
      if kept {
        assert keys[..][..n] == keys[..n] && ks[..n] == old(keys[..n]);
        MovedTable(nf, a, newFlags[..], ks, keys[..], n, size, size, UpperBound(n), hash);
        assert vals[..][..n] == vals[..n] && vs[..n] == old(vals[..n]);
        SameBindings(a, vs, vals[..], n);
      }
    }

    /** Move everything to the new flags and install them. */
    method Rehash(newFlags: array<bv32>, n: nat) returns (ghost kept: bool)
      requires Valid() && IsTableSize(n) && n >= 4 && size < UpperBound(n)
      requires n <= keys.Length && n <= vals.Length
      requires newFlags as object != vals && newFlags as object != keys && newFlags != flags
      requires newFlags.Length == FSize(n) && forall w :: 0 <= w < newFlags.Length ==> newFlags[w] == FILL
      modifies this, flags, keys, vals, newFlags
      ensures size == old(size) && nBuckets == n && nOccupied == size && upperBound == UpperBound(n)
      ensures kept ==> Valid() && Contents() == old(Contents()) && forall i: nat :: i < nBuckets ==> f[i] != Deleted
      ensures kept <==> old(nBuckets) <= n || (grants(old(asked)) && grants(old(asked) + 1))
      ensures !kept ==> Broken()
      ensures asked == old(asked) + if old(nBuckets) > n then 2 else 0
      ensures flags == newFlags
      ensures keys == old(keys) || fresh(keys)
      ensures vals == old(vals) || fresh(vals)
    {
      hide IsTable, Bindings, UnderWay, UpperBound, IsTableSize, FSize;
      AllInRange();
      Begins(newFlags, n);
      ghost var of, nf, a := MoveAll(newFlags, n);
      kept := Install(newFlags, n, of, nf, a);
    }

    /** A table in use whose keys or values are gone. */
    ghost predicate Broken()
      reads this
    {
      nBuckets > 0 && (keys.Length == 0 || vals.Length == 0)
    }

    lemma BrokenIsInvalid()
      ensures Broken() ==> !Valid()
    {
    }

    /** kept is false when an array was lost in shrinking, which the result 0 does not tell. */
    method Resize(request: nat) returns (r: int, ghost kept: bool)
      requires Valid() && request < WORD
      modifies this, flags, keys, vals
      ensures size == old(size)
      ensures kept ==> Valid() && Contents() == old(Contents())
      // it fails exactly when the new flags, or in growing one of the arrays, are refused
      ensures r == -1 <==> (
        && size < UpperBound(Target(request))
        && (!grants(old(asked))
            || (old(nBuckets) < Target(request) && !(grants(old(asked) + 1) && grants(old(asked) + 2)))))
      // the one outcome that breaks the table: an array is refused in shrinking
      ensures !kept <==> (
        && r == 0 && old(nBuckets) > Target(request) && size < UpperBound(Target(request))
        && !(grants(old(asked) + 1) && grants(old(asked) + 2)))
      ensures !kept ==> Broken() && !Valid()
      // it asks for nothing, for the new flags, or for both arrays too, and stops at a refusal that it notices
      ensures size >= UpperBound(Target(request)) ==> asked == old(asked)
      ensures r == 0 && size < UpperBound(Target(request)) ==>
        asked == old(asked) + if old(nBuckets) == Target(request) then 1 else 3
      ensures r == -1 ==> old(asked) < asked <= old(asked) + 3 && !grants(asked - 1)
      ensures r == -1 ==> forall k :: old(asked) <= k < asked - 1 ==> grants(k)
      ensures r == 0 || r == -1
      ensures r == 0 && size < UpperBound(Target(request)) ==>
        nBuckets == Target(request) && nOccupied == size && upperBound == UpperBound(nBuckets)
      ensures kept && r == 0 && size < UpperBound(Target(request)) ==> forall i: nat :: i < nBuckets ==> f[i] != Deleted
      ensures r == -1 || size >= UpperBound(Target(request)) ==>
        f == old(f) && at == old(at) && nBuckets == old(nBuckets) && nOccupied == old(nOccupied) && upperBound == old(upperBound)
      ensures flags == old(flags) || fresh(flags)
      ensures keys == old(keys) || fresh(keys)
      ensures vals == old(vals) || fresh(vals)
    {
      hide IsTable, Bindings, KRoundUp32, UpperBound, FSize, IsTableSize;
      var n := KRoundUp32(request);
      if n < 4 { n := 4; }
      TargetIsTableSize(request);
      if size >= UpperBound(n) {
        return 0, true;
      }
      var ok := Allocates();
      if !ok { return -1, true; }
      var newFlags := new bv32[FSize(n)];
      Fill(newFlags);
      if nBuckets < n {
        ok := Grow(n);
        if !ok { return -1, true; }
      }
      kept := Rehash(newFlags, n);
      BrokenIsInvalid();
      r := 0;
    }

    lemma Counters()
      requires Valid()
      ensures size == |at| && size <= nOccupied <= nBuckets <= MAX_BUCKETS
      ensures size == nBuckets <==> forall i: nat :: i < nBuckets ==> f[i] == Live
      ensures nBuckets == 0 ==> nOccupied == upperBound == 0
      ensures nBuckets > 0 ==> IsTableSize(nBuckets) && upperBound == UpperBound(nBuckets) < nBuckets
      ensures nOccupied <= upperBound || nBuckets == MAX_BUCKETS
    {
      FullTable(f, at, flags[..], keys[..], nBuckets, size, nOccupied, upperBound, hash);
      if nBuckets > 0 { UpperBoundIsBelow(nBuckets); }
    }

    /** The opening of put: rehash when no fresh bucket may be used up. */
    method MakeRoom() returns (r: int)
      requires Valid()
      modifies this, flags, keys, vals
      ensures Valid() && Contents() == old(Contents()) && size == old(size)
      ensures r == 0 || r == -1
      ensures r == 0 ==> nBuckets > 0 && (nOccupied < upperBound || nBuckets == MAX_BUCKETS)
      // it fails exactly when the table is full and an allocation for the rehash is refused
      ensures r == -1 <==> (
        && old(nOccupied) >= old(upperBound) && (old(nBuckets) < MAX_BUCKETS || old(nBuckets) > 2 * old(size))
        && (!grants(old(asked))
            || (old(nBuckets) <= 2 * old(size) && !(grants(old(asked) + 1) && grants(old(asked) + 2)))))
      ensures r == -1 ==> old(asked) < asked <= old(asked) + 3 && !grants(asked - 1)
      ensures old(nOccupied) < old(upperBound) ==> asked == old(asked)
      ensures asked >= old(asked)
      // a full table below the largest size is rehashed: in place when fewer than half are live, else to twice the size
      ensures r == 0 && old(nOccupied) >= old(upperBound) && old(nBuckets) < MAX_BUCKETS ==>
        && nBuckets == (if old(nBuckets) == 0 then 4 else if old(nBuckets) > 2 * size then old(nBuckets) else 2 * old(nBuckets))
        && forall i: nat :: i < nBuckets ==> f[i] != Deleted
      ensures r == -1 || old(nOccupied) < old(upperBound) ==>
        f == old(f) && at == old(at) && nBuckets == old(nBuckets) && nOccupied == old(nOccupied) && upperBound == old(upperBound)
      ensures flags == old(flags) || fresh(flags)
      ensures keys == old(keys) || fresh(keys)
      ensures vals == old(vals) || fresh(vals)
    {
      hide IsTable, Bindings, Target, UpperBound, IsTableSize;
      Counters();
      r := 0;
      ghost var kept := true;
      if nOccupied >= upperBound {
        if nBuckets == 0 {
          FirstRequest();
        } else {
          PutRequest(nBuckets, size, nOccupied, upperBound);
        }
        if nBuckets > (2 * size) % WORD {
          r, kept := Resize(nBuckets - 1);
        } else {
          r, kept := Resize(nBuckets + 1);
        }
      }
    }

    /** Write an absent key into bucket x, which is unused (empty) or a tombstone. */
    method Insert(key: K, x: nat, unused: bool)
      requires Valid() && x < nBuckets && key !in at && OnPath(f, hash(key), x)
      requires f[x] == if unused then Empty else Deleted
      requires nOccupied < upperBound || nBuckets == MAX_BUCKETS
      modifies this`size, this`nOccupied, this`f, this`at, flags, keys
      ensures Valid() && f == old(f)[x := Live] && at == old(at)[key := x]
      ensures PointsAt(x, key)
      ensures Contents() == old(Contents())[key := vals[x]]
    {
      hide IsTable, Bindings, Packs, OnPath;
      ghost var words, ks, f0, at0, size0, occupied0 := flags[..], keys[..], f, at, size, nOccupied;
      BucketFacts(x);
      size := size + 1;
      if unused {
        nOccupied := nOccupied + 1;
      }
      f, at := f[x := Live], at[key := x];
      keys[x] := key;
      assert keys[..] == ks[x := key];
      SetLive(flags, x, f0);
      InsertedTable(f0, at0, words, flags[..], ks, nBuckets, size0, occupied0, upperBound, hash, key, x);
      BindInPlace(at0, vals[..], key, x);
    }

    /** The part of put after the rehash: find the bucket, and fill it unless the key is there. */
    method PutInRoom(key: K) returns (x: nat, ret: int)
      requires Valid() && nBuckets > 0 && (nOccupied < upperBound || nBuckets == MAX_BUCKETS)
      modifies this`size, this`nOccupied, this`f, this`at, flags, keys
      ensures Valid() && 0 <= ret <= 2
      ensures key in old(Contents()) || old(size) < MAX_BUCKETS ==>
        && PointsAt(x, key)
        && (ret == 0 <==> key in old(Contents()))
        && Contents() == if key in old(Contents()) then old(Contents()) else old(Contents())[key := vals[x]]
      ensures key !in old(Contents()) && old(size) == MAX_BUCKETS ==>
        ret == 0 && x < keys.Length && PointsAt(x, keys[x]) && keys[x] != key && Contents() == old(Contents())
      ensures ret > 0 ==>
        && x < |old(f)| && f == old(f)[x := Live]
        && if ret == 1 then FirstEmpty(old(f), hash(key), x) else LastTombstone(old(f), hash(key), x)
    {
      hide IsTable, Bindings, EmptyAt, DelAt, UpperBound, IsTableSize, OnPath, AllLive, Ends, Probe;
      x := FindSite(key);
      Counters();
      AllInRange();
      if EmptyAt(x) {
        Insert(key, x, true);
        ret := 1;
      } else if DelAt(x) {
        Insert(key, x, false);
        ret := 2;
      } else {
        BucketFacts(x);
        ret := 0;
      }
    }

    method Put(key: K) returns (x: nat, ret: int)
      requires Valid()
      modifies this, flags, keys, vals
      ensures Valid()
      ensures ret == -1 ==> x == nBuckets == old(nBuckets) && Contents() == old(Contents())
      ensures ret == -1 || ret == 0 || ret == 1 || ret == 2
      // it refuses exactly when the table is full and an allocation for the rehash is refused, so never in a table with room
      ensures ret == -1 <==> (
        && old(nOccupied) >= old(upperBound) && (old(nBuckets) < MAX_BUCKETS || old(nBuckets) > 2 * old(size))
        && (!grants(old(asked))
            || (old(nBuckets) <= 2 * old(size) && !(grants(old(asked) + 1) && grants(old(asked) + 2)))))
      ensures ret == -1 ==> old(asked) < asked <= old(asked) + 3 && !grants(asked - 1)
      ensures old(nOccupied) < old(upperBound) ==> asked == old(asked)
      ensures asked >= old(asked)
      // the intended behaviour, met unless the key is absent from a largest table full of live keys
      ensures ret >= 0 && (key in old(Contents()) || old(size) < MAX_BUCKETS) ==>
        && PointsAt(x, key)
        && (ret == 0 <==> key in old(Contents()))
        && Contents() == if key in old(Contents()) then old(Contents()) else old(Contents())[key := vals[x]]
      // what happens there: a foreign bucket is reported as the key's own
      ensures ret >= 0 && key !in old(Contents()) && old(size) == MAX_BUCKETS ==>
        ret == 0 && x < keys.Length && PointsAt(x, keys[x]) && keys[x] != key && Contents() == old(Contents())
      // without a rehash, one bucket changes state, and ret tells which state it had
      ensures ret > 0 && old(nOccupied) < old(upperBound) ==>
        && x < |old(f)|
        && f == old(f)[x := Live]
        && nBuckets == old(nBuckets)
        && if ret == 1 then FirstEmpty(old(f), hash(key), x) else LastTombstone(old(f), hash(key), x)
      // after a rehash there is no tombstone to reuse
      ensures ret >= 0 && old(nOccupied) >= old(upperBound) && old(nBuckets) < MAX_BUCKETS ==>
        && ret != 2
        && nBuckets == if old(nBuckets) == 0 then 4 else if old(nBuckets) > 2 * old(size) then old(nBuckets) else 2 * old(nBuckets)
      ensures flags == old(flags) || fresh(flags)
      ensures keys == old(keys) || fresh(keys)
      ensures vals == old(vals) || fresh(vals)
    {
      hide IsTable, Bindings, UpperBound, IsTableSize, LastTombstone, FirstEmpty;
      var r := MakeRoom();
      if r < 0 {
        return nBuckets, -1;
      }
      Counters();
      ghost var f1 := f;
      x, ret := PutInRoom(key);
      NotBoth(f1, hash(key), x);
    }

    method Del(x: nat)
      requires Valid() && x <= nBuckets
      modifies this`size, this`f, this`at, flags
      ensures Valid()
      ensures x < nBuckets && old(f[x]) == Live ==> Contents() == old(Contents()) - {keys[x]}
      ensures x == nBuckets || old(f[x]) != Live ==> Contents() == old(Contents())
      ensures f == if x < nBuckets && old(f[x]) == Live then old(f)[x := Deleted] else old(f)
    {
      hide IsTable, Bindings, EitherAt, Packs;
      if x != nBuckets {
        BucketFacts(x);
        if !EitherAt(x) {
          ghost var words, ks, f', at' := flags[..], keys[..], f[x := Deleted], at - {keys[x]};
          ghost var f0, at0, vs := f, at, vals[..];
          Unbind(at, vs, keys[x]);
          size := size - 1;
          f, at := f', at';
          SetDel(flags, x, f0);
          assert keys[..] == ks && vals[..] == vs;
          DeletedTable(f0, at0, words, flags[..], ks, nBuckets, size + 1, nOccupied, upperBound, hash, x);
        }
      }
    }

    /** kh_value(h, x) = v */
    method SetValue(x: nat, v: V)
      requires Valid() && x < nBuckets && f[x] == Live
      modifies vals
      ensures Valid() && Contents() == old(Contents())[keys[x] := v]
    {
      hide IsTable, Bindings;
      BucketFacts(x);
      Rebind(at, vals[..], keys[x], v);
      vals[x] := v;
      assert vals[..] == old(vals[..])[x := v];
    }
  }
}
