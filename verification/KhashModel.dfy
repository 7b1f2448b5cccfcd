/**
 What a khash table means: which key sits in which bucket, which buckets a search
 may reach, and what each table operation does to that, stated on plain sequences.
 */
module KhashModel {
  import opened FiniteSets
  import opened Probing
  import opened PackedFlags
  import opened RoundUp

  /** The largest table: kroundup32 yields 0 above it. */
  const MAX_BUCKETS: nat := 0x8000_0000

  /** (khint_t)(n * 0.77 + 0.5); the two agree on powers of two. */
  function UpperBound(n: nat): (bound: nat)
    ensures 77 * n - 50 < 100 * bound <= 77 * n + 50
  {
    (77 * n + 50) / 100
  }

  /** The bucket count a resize request asks for. */
  function Target(request: nat): nat
    requires request < WORD
  {
    if KRoundUp32(request) < 4 then 4 else KRoundUp32(request)
  }

  /** One step of the probe loop, with the 32-bit wrap-around of the addition. */
  function Next(i: nat, step: nat, n: nat): nat
    requires n > 0
  {
    ((i + step) % WORD) % n
  }

  ghost predicate IsTableSize(n: nat)
  {
    IsPow2(n) && n >= 4
  }

  /** The scalar fields of a table fit together; below the largest size there is always room for one more element. */
  ghost predicate Shape(n: nat, words: nat, occupied: nat, bound: nat)
  {
    if n == 0 then bound == 0 else
      && IsTableSize(n)
      && words == FSize(n)
      && bound == UpperBound(n)
      && (occupied <= bound || n == MAX_BUCKETS)
  }

  // ----- arithmetic of sizes

  lemma {:induction false} Exp2Splits(k: nat, m: nat)
    requires k <= m
    ensures Exp2(m) == Exp2(k) * Exp2(m - k)
  {
    if k < m {
      Exp2Splits(k, m - 1);
      Associate(2, Exp2(k), Exp2(m - 1 - k));
      Commute(2, Exp2(k));
      Associate(Exp2(k), 2, Exp2(m - 1 - k));
    }
  }

  lemma ProbeStart(h: nat, n: nat)
    requires n > 0
    ensures Probe(h, 0, n) == h % n < n
  {
  }

  lemma ProbeInRange(h: nat, s: nat, n: nat)
    requires n > 0
    ensures Probe(h, s, n) < n
  {
  }

  lemma NestedRemainder(a: nat, n: nat, c: nat, w: nat)
    requires w == n * c && w > 0 && n > 0
    ensures (a % w) % n == a % n
  {
    var q := a / w;
    Associate(n, c, q);
    assert a == a % w + n * (c * q);
    AddMultiple(a % w, c * q, n);
  }

  /** The wrap-around never changes the bucket, because n divides 2^32. */
  lemma NextIsProbe(h: nat, s: nat, n: nat)
    requires IsPow2(n)
    ensures Next(Probe(h, s, n), s + 1, n) == Probe(h, s + 1, n)
  {
    var k: nat :| k < 32 && Exp2(k) == n;
    Exp2Word();
    Exp2Splits(k, 32);
    NestedRemainder(Probe(h, s, n) + (s + 1), n, Exp2(32 - k), WORD);
    ProbeStep(h, s, n);
  }

  lemma {:induction false} PowersBetween(i: nat, j: nat)
    requires i < j
    ensures 2 * Exp2(i) <= Exp2(j)
  {
    if i + 1 < j { PowersBetween(i, j - 1); }
  }

  /** A power of two in [n - 1, 2n - 2) is n; one in [n + 1, 2n + 2) is 2n. */
  lemma NeighbouringPowers(p: nat, n: nat)
    requires IsPow2(p) && IsTableSize(n)
    ensures n - 1 <= p < 2 * n - 2 ==> p == n
    ensures n + 1 <= p < 2 * n + 2 ==> p == 2 * n
  {
    var a: nat :| a < 32 && Exp2(a) == p;
    var b: nat :| b < 32 && Exp2(b) == n;
    if a < b {
      PowersBetween(a, b);
    } else if a == b + 1 {
      assert p == 2 * n;
    } else if a > b + 1 {
      PowersBetween(b + 1, a);
      assert Exp2(b + 1) == 2 * n;
    }
  }

  lemma SizesAreBounded(n: nat)
    requires IsPow2(n)
    ensures n <= MAX_BUCKETS
    ensures n < MAX_BUCKETS ==> 2 * n <= MAX_BUCKETS
  {
    var k: nat :| k < 32 && Exp2(k) == n;
    Exp2Monotone(k, 31);
    Exp2Word();
    if k < 31 { PowersBetween(k, 31); }
  }

  lemma FourIsSize()
    ensures IsPow2(4)
  {
    assert Exp2(2) == 4;
  }

  lemma SmallPowers(p: nat)
    requires IsPow2(p)
    ensures p != 3 && p != 5 && p != 6 && p != 7
  {
    var k: nat :| k < 32 && Exp2(k) == p;
    assert Exp2(2) == 4 && Exp2(3) == 8;
    if k > 3 { PowersBetween(3, k); }
  }

  /** A resize request always leads to a legal table size. */
  lemma TargetIsTableSize(request: nat)
    requires request < WORD
    ensures IsTableSize(Target(request)) && Target(request) >= 4
    ensures request <= 4 || request > MAX_BUCKETS ==> Target(request) == 4
    ensures 4 < request <= MAX_BUCKETS ==> request <= Target(request) < 2 * request
  {
    hide KRoundUp32, IsPow2;
    RoundsUp(request);
    FourIsSize();
    var k := KRoundUp32(request);
    if 0 < request <= 4 {
      SmallPowers(k);
    }
  }

  lemma TableSizeWords(n: nat)
    requires IsTableSize(n)
    ensures n <= 16 || n % 16 == 0
  {
    var k: nat :| k < 32 && Exp2(k) == n;
    assert Exp2(4) == 16;
    if k > 4 {
      Exp2Splits(4, k);
      AddMultiple(0, Exp2(k - 4), 16);
    } else {
      Exp2Monotone(k, 4);
    }
  }

  /** Which requests put makes, and where they lead: same size to drop tombstones, else double. */
  lemma PutTargets(n: nat)
    requires IsTableSize(n)
    ensures n + 1 < WORD
    ensures Target(n - 1) == n
    ensures Target(n + 1) == if n == MAX_BUCKETS then 4 else 2 * n
  {
    SizesAreBounded(n);
    RoundsUp(n - 1);
    RoundsUp(n + 1);
    NeighbouringPowers(KRoundUp32(n - 1), n);
    if n < MAX_BUCKETS {
      NeighbouringPowers(KRoundUp32(n + 1), n);
    }
  }

  // ----- buckets and paths

  /** The buckets that are not empty. */
  ghost function Occupied(f: seq<Flag>): set<nat>
  {
    set i: nat | i < |f| && f[i] != Empty
  }

  ghost function LiveBuckets(f: seq<Flag>): set<nat>
  {
    set i: nat | i < |f| && f[i] == Live
  }

  /** A search from hash value h meets no empty bucket in its first s steps. */
  ghost predicate Unbroken(f: seq<Flag>, h: nat, s: nat)
    requires |f| > 0
  {
    forall t: nat :: t < s ==> f[Probe(h, t, |f|)] != Empty
  }

  /** A search from hash value h arrives at bucket x after s steps without meeting an empty bucket before. */
  ghost predicate Reached(f: seq<Flag>, h: nat, s: nat, x: nat)
    requires |f| > 0
  {
    && s < |f|
    && Probe(h, s, |f|) == x
    && Unbroken(f, h, s)
  }

  ghost predicate OnPath(f: seq<Flag>, h: nat, x: nat)
    requires |f| > 0
  {
    exists s: nat :: Reached(f, h, s, x)
  }

  /** Every live key can be found by a search for it. */
  ghost predicate Placed<K>(f: seq<Flag>, ks: seq<K>, hash: K -> nat)
    requires |f| <= |ks|
  {
    forall i: nat :: i < |f| && f[i] == Live ==> OnPath(f, hash(ks[i]), i)
  }

  /** The index at names the one live bucket of every key in the table. */
  ghost predicate Indexed<K>(f: seq<Flag>, ks: seq<K>, at: map<K, nat>)
    requires |f| <= |ks|
  {
    && (forall k :: k in at ==> at[k] < |f| && f[at[k]] == Live && ks[at[k]] == k)
    && (forall i: nat :: i < |f| && f[i] == Live ==> ks[i] in at && at[ks[i]] == i)
  }

  /** The finite map that the index and the value array stand for. */
  ghost function Bindings<K, V>(at: map<K, nat>, vs: seq<V>): map<K, V>
  {
    map k | k in at && at[k] < |vs| :: vs[at[k]]
  }

  // How the map follows the table. Each requires that at be injective at the bucket touched.

  lemma BindNew<K, V>(at: map<K, nat>, vs: seq<V>, key: K, x: nat, v: V)
    requires key !in at && x < |vs| && forall k :: k in at ==> at[k] != x
    ensures Bindings(at[key := x], vs[x := v]) == Bindings(at, vs)[key := v]
  {
  }

  lemma BindInPlace<K, V>(at: map<K, nat>, vs: seq<V>, key: K, x: nat)
    requires key !in at && x < |vs|
    ensures Bindings(at[key := x], vs) == Bindings(at, vs)[key := vs[x]]
  {
  }

  lemma Unbind<K, V>(at: map<K, nat>, vs: seq<V>, key: K)
    ensures Bindings(at - {key}, vs) == Bindings(at, vs) - {key}
  {
  }

  lemma Rebind<K, V>(at: map<K, nat>, vs: seq<V>, key: K, v: V)
    requires key in at && at[key] < |vs| && forall k :: k in at && k != key ==> at[k] != at[key]
    ensures Bindings(at, vs[at[key] := v]) == Bindings(at, vs)[key := v]
  {
  }

  /** The first s buckets on the path of key are neither empty nor its own. */
  ghost predicate Passed<K>(f: seq<Flag>, ks: seq<K>, h: nat, key: K, s: nat)
    requires 0 < |f| <= |ks|
  {
    forall t: nat :: t < s ==>
      var i := Probe(h, t, |f|);
      f[i] != Empty && !(f[i] == Live && ks[i] == key)
  }

  lemma NothingPassed<K>(f: seq<Flag>, ks: seq<K>, h: nat, key: K)
    requires 0 < |f| <= |ks|
    ensures Passed(f, ks, h, key, 0) && Probe(h, 0, |f|) == h % |f|
  {
  }

  lemma PassOne<K>(f: seq<Flag>, ks: seq<K>, h: nat, key: K, s: nat)
    requires 0 < |f| <= |ks| && Passed(f, ks, h, key, s)
    requires f[Probe(h, s, |f|)] != Empty
    requires f[Probe(h, s, |f|)] == Live ==> ks[Probe(h, s, |f|)] != key
    ensures Passed(f, ks, h, key, s + 1)
  {
  }

  lemma {:induction false} InjectionSize<A, B>(a: set<A>, b: set<B>, g: A --> B)
    requires forall x :: x in a ==> g.requires(x) && g(x) in b
    requires forall x, y :: x in a && y in a && g(x) == g(y) ==> x == y
    ensures |a| <= |b|
    decreases a
  {
    if a != {} {
      var x :| x in a;
      InjectionSize(a - {x}, b - {g(x)}, g);
    }
  }

  /** The table's size is the number of its live buckets. */
  lemma IndexSize<K>(f: seq<Flag>, ks: seq<K>, at: map<K, nat>)
    requires |f| <= |ks| && Indexed(f, ks, at)
    ensures |at| == |LiveBuckets(f)|
  {
    InjectionSize(at.Keys, LiveBuckets(f), k requires k in at => at[k]);
    InjectionSize(LiveBuckets(f), at.Keys, (i: nat) requires i < |ks| => ks[i]);
  }

  lemma OccupiedBounds(f: seq<Flag>)
    ensures |LiveBuckets(f)| <= |Occupied(f)| <= |f|
  {
    SubsetSize(LiveBuckets(f), Occupied(f));
    BelowSize(|f|);
    SubsetSize(Occupied(f), Below(|f|));
  }

  /** A table that is not completely occupied has an empty bucket, and every search would come to one. */
  lemma SomeEmptyBucket(f: seq<Flag>, h: nat) returns (s: nat)
    requires IsPow2(|f|) && |Occupied(f)| < |f|
    ensures s < |f| && f[Probe(h, s, |f|)] == Empty
  {
    BelowSize(|f|);
    var empties := Below(|f|) - Occupied(f);
    assert Below(|f|) == Occupied(f) + empties;
    var x :| x in empties;
    ProbeCovers(h, x, |f|);
    s :| s < |f| && Probe(h, s, |f|) == x;
  }

  /** Every search would come to an empty bucket within n steps exactly when not all buckets are occupied. */
  lemma EmptyIffRoom(f: seq<Flag>, h: nat)
    requires IsPow2(|f|)
    ensures |Occupied(f)| < |f| <==> exists s: nat :: s < |f| && f[Probe(h, s, |f|)] == Empty
  {
    if |Occupied(f)| < |f| {
      var s := SomeEmptyBucket(f, h);
    } else {
      OccupiedBounds(f);
      BelowSize(|f|);
      SubsetOfEqualSize(Occupied(f), Below(|f|));
      forall s: nat | s < |f| ensures f[Probe(h, s, |f|)] != Empty {
        assert Probe(h, s, |f|) in Below(|f|);
      }
    }
  }

  // ----- searching

  /** A search that comes to an empty bucket has shown the key absent. */
  lemma AbsentAtEmpty<K>(f: seq<Flag>, ks: seq<K>, hash: K -> nat, at: map<K, nat>, key: K, s: nat)
    requires 0 < |f| <= |ks| && Indexed(f, ks, at) && Placed(f, ks, hash)
    requires Passed(f, ks, hash(key), key, s) && f[Probe(hash(key), s, |f|)] == Empty
    ensures key !in at
  {
  }

  /** A search that has passed every bucket has shown the key absent, and the table free of empty buckets. */
  lemma AbsentAfterCycle<K>(f: seq<Flag>, ks: seq<K>, at: map<K, nat>, h: nat, key: K, s: nat)
    requires |f| <= |ks| && IsPow2(|f|) && Indexed(f, ks, at)
    requires Passed(f, ks, h, key, s) && s >= |f|
    ensures key !in at
    ensures forall i: nat :: i < |f| ==> f[i] != Empty
  {
    forall i: nat | i < |f| ensures f[i] != Empty && !(f[i] == Live && ks[i] == key) {
      ProbeCovers(h, i, |f|);
      var t: nat :| t < |f| && Probe(h, t, |f|) == i;
    }
  }

  /** A bucket met on an unbroken path is on the path in the sense of `Reached`, even after more than n steps. */
  lemma MetIsOnPath<K>(f: seq<Flag>, ks: seq<K>, h: nat, key: K, s: nat)
    requires |f| <= |ks| && IsPow2(|f|) && Passed(f, ks, h, key, s)
    ensures OnPath(f, h, Probe(h, s, |f|))
  {
    var x := Probe(h, s, |f|);
    if s < |f| {
      assert Reached(f, h, s, x);
    } else {
      ProbeCovers(h, x, |f|);
      var t: nat :| t < |f| && Probe(h, t, |f|) == x;
      assert Reached(f, h, t, x);
    }
  }

  // ----- where an insertion goes

  /** The buckets at steps lo up to but not including hi are live. */
  ghost predicate AllLive(f: seq<Flag>, h: nat, lo: nat, hi: nat)
    requires |f| > 0
  {
    forall t: nat :: lo <= t < hi ==> f[Probe(h, t, |f|)] == Live
  }

  lemma AllLiveAfterCycle(f: seq<Flag>, h: nat, s: nat)
    requires IsPow2(|f|) && AllLive(f, h, 0, s) && s >= |f|
    ensures forall i: nat :: i < |f| ==> f[i] == Live
  {
    forall i: nat | i < |f| ensures f[i] == Live {
      ProbeCovers(h, i, |f|);
      var t: nat :| t < |f| && Probe(h, t, |f|) == i;
    }
  }

  /** A search along this path ends at step s: at an empty bucket, or back at its start. */
  ghost predicate Ends(f: seq<Flag>, h: nat, s: nat)
    requires |f| > 0
  {
    s == 2 * |f| - 1 || f[Probe(h, s, |f|)] == Empty
  }

  /** x is the last tombstone that the search meets. */
  ghost predicate LastTombstone(f: seq<Flag>, h: nat, x: nat)
  {
    && x < |f| && f[x] == Deleted && OnPath(f, h, x)
    && exists t: nat, s: nat :: t < s && Probe(h, t, |f|) == x && AllLive(f, h, t + 1, s) && Ends(f, h, s)
  }

  /** x is the empty bucket at which the search ends, with no tombstone before it. */
  ghost predicate FirstEmpty(f: seq<Flag>, h: nat, x: nat)
  {
    && x < |f| && f[x] == Empty && OnPath(f, h, x)
    && exists s: nat :: Probe(h, s, |f|) == x && AllLive(f, h, 0, s)
  }

  lemma NotBoth(f: seq<Flag>, h: nat, x: nat)
    ensures LastTombstone(f, h, x) ==> x < |f| && f[x] == Deleted
    ensures FirstEmpty(f, h, x) ==> x < |f| && f[x] == Empty
  {
  }

  /** What a search knows at step s: site is the last tombstone met, at step met, or |f| when there was none. */
  ghost predicate SiteSoFar(f: seq<Flag>, h: nat, site: nat, met: nat, s: nat)
    requires |f| > 0
  {
    if site == |f| then AllLive(f, h, 0, s)
    else
      && site < |f| && f[site] == Deleted && OnPath(f, h, site)
      && met < s && Probe(h, met, |f|) == site && AllLive(f, h, met + 1, s)
  }

  lemma NoSiteYet(f: seq<Flag>, h: nat)
    requires |f| > 0
    ensures SiteSoFar(f, h, |f|, 0, 0)
  {
  }

  lemma SiteGrows(f: seq<Flag>, h: nat, site: nat, met: nat, s: nat)
    requires |f| > 0 && SiteSoFar(f, h, site, met, s) && OnPath(f, h, Probe(h, s, |f|))
    ensures f[Probe(h, s, |f|)] == Deleted ==> SiteSoFar(f, h, Probe(h, s, |f|), s, s + 1)
    ensures f[Probe(h, s, |f|)] == Live ==> SiteSoFar(f, h, site, met, s + 1)
  {
  }

  lemma SiteAtEnd(f: seq<Flag>, h: nat, site: nat, met: nat, s: nat)
    requires IsPow2(|f|) && SiteSoFar(f, h, site, met, s) && Ends(f, h, s)
    requires OnPath(f, h, Probe(h, s, |f|))
    ensures site != |f| ==> site < |f| && f[site] == Deleted && LastTombstone(f, h, site)
    ensures site == |f| && f[Probe(h, s, |f|)] == Empty ==> FirstEmpty(f, h, Probe(h, s, |f|))
    ensures site == |f| && s == 2 * |f| - 1 ==> forall i: nat :: i < |f| ==> f[i] == Live
  {
    hide OnPath;
    if site == |f| && s == 2 * |f| - 1 {
      AllLiveAfterCycle(f, h, s);
    }
  }

  // ----- changing one bucket

  /** Occupying more buckets breaks no path. */
  lemma PathsGrow(f: seq<Flag>, f': seq<Flag>, h: nat, x: nat)
    requires 0 < |f| == |f'| && OnPath(f, h, x)
    requires forall i: nat :: i < |f| && f[i] != Empty ==> f'[i] != Empty
    ensures OnPath(f', h, x)
  {
    var s :| Reached(f, h, s, x);
    assert Reached(f', h, s, x);
  }

  /** Inserting a new key into a bucket on its path, whether empty or a tombstone, shadows no other key. */
  lemma InsertKeepsTable<K>(f: seq<Flag>, ks: seq<K>, hash: K -> nat, at: map<K, nat>, key: K, x: nat)
    requires 0 < |f| <= |ks| && Indexed(f, ks, at) && Placed(f, ks, hash)
    requires key !in at && x < |f| && f[x] != Live && OnPath(f, hash(key), x)
    ensures Indexed(f[x := Live], ks[x := key], at[key := x])
    ensures Placed(f[x := Live], ks[x := key], hash)
    ensures Occupied(f[x := Live]) == Occupied(f) + {x}
  {
    var f', ks' := f[x := Live], ks[x := key];
    forall i: nat | i < |f'| && f'[i] == Live ensures OnPath(f', hash(ks'[i]), i) {
      PathsGrow(f, f', hash(ks'[i]), i);
    }
  }

  lemma OccupyOne(f: seq<Flag>, x: nat)
    requires x < |f|
    ensures |Occupied(f) + {x}| == if f[x] == Empty then |Occupied(f)| + 1 else |Occupied(f)|
  {
    if f[x] != Empty {
      assert Occupied(f) + {x} == Occupied(f);
    }
  }

  /** Turning a live bucket into a tombstone removes its key and breaks no other lookup. */
  lemma DeleteKeepsTable<K>(f: seq<Flag>, ks: seq<K>, hash: K -> nat, at: map<K, nat>, x: nat)
    requires 0 < |f| <= |ks| && Indexed(f, ks, at) && Placed(f, ks, hash)
    requires x < |f| && f[x] == Live
    ensures Indexed(f[x := Deleted], ks, at - {ks[x]})
    ensures Placed(f[x := Deleted], ks, hash)
    ensures Occupied(f[x := Deleted]) == Occupied(f)
  {
    var f' := f[x := Deleted];
    forall i: nat | i < |f'| && f'[i] == Live ensures OnPath(f', hash(ks[i]), i) {
      PathsGrow(f, f', hash(ks[i]), i);
    }
  }

  // ----- whole tables

  /** All fields of a table agree: words and ks are its arrays, the rest its counters and ghost description. */
  ghost predicate IsTable<K>(f: seq<Flag>, at: map<K, nat>, words: seq<bv32>, ks: seq<K>,
                             n: nat, size: nat, occupied: nat, bound: nat, hash: K -> nat)
  {
    && |f| == n <= |ks|
    && Packs(words, f)
    && Indexed(f, ks, at)
    && Placed(f, ks, hash)
    && size == |at|
    && occupied == |Occupied(f)|
    && Shape(n, |words|, occupied, bound)
  }

  lemma EmptyTable<K>(ks: seq<K>, hash: K -> nat)
    ensures IsTable([], map[], [], ks, 0, 0, 0, 0, hash)
  {
    assert Occupied([]) == {};
  }

  lemma ClearedTable<K>(f: seq<Flag>, at: map<K, nat>, words: seq<bv32>, words': seq<bv32>, ks: seq<K>,
                        n: nat, size: nat, occupied: nat, bound: nat, hash: K -> nat)
    requires IsTable(f, at, words, ks, n, size, occupied, bound, hash) && n > 0
    requires |words'| == |words| && forall w :: 0 <= w < |words'| ==> words'[w] == FILL
    ensures IsTable(AllEmpty(n), map[], words', ks, n, 0, 0, bound, hash)
  {
    TableSizeWords(n);
    FilledIsAllEmpty(words', n);
    assert Occupied(AllEmpty(n)) == {};
  }

  lemma DeletedTable<K>(f: seq<Flag>, at: map<K, nat>, words: seq<bv32>, words': seq<bv32>, ks: seq<K>,
                        n: nat, size: nat, occupied: nat, bound: nat, hash: K -> nat, x: nat)
    requires IsTable(f, at, words, ks, n, size, occupied, bound, hash) && x < n && f[x] == Live
    requires |words'| == |words| && Packs(words', f[x := Deleted])
    ensures size > 0
    ensures IsTable(f[x := Deleted], at - {ks[x]}, words', ks, n, size - 1, occupied, bound, hash)
  {
    hide Packs, Placed, OnPath;
    DeleteKeepsTable(f, ks, hash, at, x);
    assert |at - {ks[x]}| == |at| - 1 by {
      assert at.Keys == (at - {ks[x]}).Keys + {ks[x]};
    }
  }

  lemma InsertedTable<K>(f: seq<Flag>, at: map<K, nat>, words: seq<bv32>, words': seq<bv32>, ks: seq<K>,
                         n: nat, size: nat, occupied: nat, bound: nat, hash: K -> nat, key: K, x: nat)
    requires IsTable(f, at, words, ks, n, size, occupied, bound, hash) && x < n && f[x] != Live
    requires |words'| == |words| && Packs(words', f[x := Live])
    requires key !in at && OnPath(f, hash(key), x)
    requires f[x] == Empty ==> occupied < bound || n == MAX_BUCKETS
    ensures IsTable(f[x := Live], at[key := x], words', ks[x := key], n, size + 1,
                    if f[x] == Empty then occupied + 1 else occupied, bound, hash)
  {
    hide Packs, Indexed, Placed, OnPath, Occupied;
    InsertKeepsTable(f, ks, hash, at, key, x);
    OccupyOne(f, x);
    assert at[key := x].Keys == at.Keys + {key};
  }

  lemma RehashedTable<K>(f: seq<Flag>, at: map<K, nat>, words: seq<bv32>, ks: seq<K>, n: nat, size: nat, hash: K -> nat)
    requires |f| == n <= |ks| && IsTableSize(n) && |words| == FSize(n) && size == |at| < UpperBound(n)
    requires Packs(words, f) && Indexed(f, ks, at) && Placed(f, ks, hash) && |Occupied(f)| == size
    ensures IsTable(f, at, words, ks, n, size, size, UpperBound(n), hash)
  {
  }

  lemma UpperBoundIsBelow(n: nat)
    requires n >= 4
    ensures UpperBound(n) < n
    ensures UpperBound(n) < UpperBound(2 * n)
    ensures forall size: nat :: 2 * size < n ==> size < UpperBound(n)
  {
  }

  /** Only the first n elements of the key array matter. */
  lemma SamePrefix<K>(f: seq<Flag>, ks: seq<K>, ks': seq<K>, at: map<K, nat>, hash: K -> nat)
    requires |f| <= |ks| && |f| <= |ks'| && ks[..|f|] == ks'[..|f|]
    requires Indexed(f, ks, at) && Placed(f, ks, hash)
    ensures Indexed(f, ks', at) && Placed(f, ks', hash)
  {
    assert forall i: nat :: i < |f| ==> ks[i] == ks[..|f|][i] == ks'[i];
  }

  lemma MovedTable<K>(f: seq<Flag>, at: map<K, nat>, words: seq<bv32>, ks: seq<K>, ks': seq<K>,
                      n: nat, size: nat, occupied: nat, bound: nat, hash: K -> nat)
    requires IsTable(f, at, words, ks, n, size, occupied, bound, hash)
    requires n <= |ks| && n <= |ks'| && ks[..n] == ks'[..n]
    ensures IsTable(f, at, words, ks', n, size, occupied, bound, hash)
  {
    SamePrefix(f, ks, ks', at, hash);
  }

  lemma SameBindings<K, V>(at: map<K, nat>, vs: seq<V>, vs': seq<V>, n: nat)
    requires n <= |vs| && n <= |vs'| && vs[..n] == vs'[..n]
    requires forall k :: k in at ==> at[k] < n
    ensures Bindings(at, vs) == Bindings(at, vs')
  {
    assert forall i: nat :: i < n ==> vs[i] == vs[..n][i] == vs'[i];
  }

  /** The two requests put makes leave room afterwards, except that the largest table cannot grow. */
  lemma PutRequest(n: nat, size: nat, occupied: nat, bound: nat)
    requires IsTableSize(n) && bound == UpperBound(n) && size <= occupied <= n
    requires occupied >= bound && (occupied <= bound || n == MAX_BUCKETS)
    ensures 0 < n < WORD - 1
    ensures (2 * size) % WORD == if size == MAX_BUCKETS then 0 else 2 * size
    ensures 2 * size < n ==> size < UpperBound(n)
    ensures n > (2 * size) % WORD ==> Target(n - 1) == n && (size < UpperBound(n) || n == MAX_BUCKETS)
    ensures n <= (2 * size) % WORD && n < MAX_BUCKETS ==> Target(n + 1) == 2 * n && size < UpperBound(2 * n)
    ensures n <= (2 * size) % WORD && n == MAX_BUCKETS ==> Target(n + 1) == 4 && size >= UpperBound(4)
  {
    hide IsPow2, KRoundUp32, Target;
    SizesAreBounded(n);
    PutTargets(n);
    UpperBoundIsBelow(n);
  }

  lemma FirstRequest()
    ensures Target(1) == 4 && UpperBound(4) == 3
  {
    RoundsOne();
  }

  /** All buckets are live exactly when there are as many live ones. */
  lemma AllLiveSize(f: seq<Flag>)
    ensures |LiveBuckets(f)| == |f| <==> forall i: nat :: i < |f| ==> f[i] == Live
  {
    BelowSize(|f|);
    if |LiveBuckets(f)| == |f| {
      SubsetOfEqualSize(LiveBuckets(f), Below(|f|));
      forall i: nat | i < |f| ensures f[i] == Live {
        assert i in Below(|f|);
      }
    }
    if forall i: nat :: i < |f| ==> f[i] == Live {
      assert LiveBuckets(f) == Below(|f|);
    }
  }

  /** A table is full of live keys exactly when its size says so. */
  lemma FullTable<K>(f: seq<Flag>, at: map<K, nat>, words: seq<bv32>, ks: seq<K>,
                     n: nat, size: nat, occupied: nat, bound: nat, hash: K -> nat)
    requires IsTable(f, at, words, ks, n, size, occupied, bound, hash)
    ensures size <= occupied <= n
    ensures size == n <==> forall i: nat :: i < n ==> f[i] == Live
    ensures n > 0 ==> n <= MAX_BUCKETS
  {
    hide Packs, Indexed, Placed, Occupied, LiveBuckets, UpperBound;
    OccupiedBounds(f);
    IndexSize(f, ks, at);
    AllLiveSize(f);
    if n > 0 { SizesAreBounded(n); }
  }

  /** Every bucket holds its own number. */
  ghost predicate IsIdentity(f: seq<Flag>, at: map<nat, nat>, ks: seq<nat>)
  {
    && |f| == |ks|
    && (forall i: nat :: i < |f| ==> f[i] == Live && ks[i] == i)
    && at.Keys == Below(|f|)
    && (forall k: nat :: k in at ==> at[k] == k)
  }

  lemma IdentityIsIndexed(f: seq<Flag>, at: map<nat, nat>, ks: seq<nat>)
    requires IsIdentity(f, at, ks)
    ensures Indexed(f, ks, at) && |f| !in at
  {
  }

  lemma IdentityCounts(f: seq<Flag>, at: map<nat, nat>, ks: seq<nat>)
    requires IsIdentity(f, at, ks)
    ensures |at| == |Occupied(f)| == |f|
  {
    BelowSize(|f|);
    assert Occupied(f) == Below(|f|);
  }

  lemma IdentityIsPlaced(f: seq<Flag>, ks: seq<nat>, hash: nat -> nat)
    requires |f| == |ks| && forall i: nat :: i < |f| ==> f[i] == Live && ks[i] == i && hash(i) == i
    ensures Placed(f, ks, hash)
  {
    forall i: nat | i < |f| && f[i] == Live ensures OnPath(f, hash(ks[i]), i) {
      NothingPassed(f, ks, i, i);
      assert Reached(f, i, 0, i);
    }
  }

  lemma Identity(n: nat) returns (f: seq<Flag>, at: map<nat, nat>, ks: seq<nat>)
    ensures IsIdentity(f, at, ks) && |f| == n
  {
    f, ks, at := seq(n, _ => Live), seq(n, i => i), map k: nat | k in Below(n) :: k;
    assert at.Keys == Below(n);
  }

  /** The state in which put fails does exist: a largest table that is full of live keys. */
  lemma LargestTableFull(hash: nat -> nat) returns (f: seq<Flag>, at: map<nat, nat>, words: seq<bv32>, ks: seq<nat>)
    requires forall k :: hash(k) == k
    ensures IsTable(f, at, words, ks, MAX_BUCKETS, MAX_BUCKETS, MAX_BUCKETS, UpperBound(MAX_BUCKETS), hash)
    ensures forall i: nat :: i < MAX_BUCKETS ==> f[i] == Live
    ensures MAX_BUCKETS !in at
  {
    LargestSize();
    TableSizeWords(MAX_BUCKETS);
    FSizeCovers(MAX_BUCKETS);
    f, at, ks := Identity(MAX_BUCKETS);
    IdentityIsIndexed(f, at, ks);
    IdentityCounts(f, at, ks);
    IdentityIsPlaced(f, ks, hash);
    hide Indexed, Placed, Occupied, IsPow2, FSize, UpperBound, Packs;
    words := seq(FSize(MAX_BUCKETS), _ => 0);
    ZeroIsLive(words, f);
  }

  lemma LargestSize()
    ensures IsTableSize(MAX_BUCKETS)
  {
    Exp2Word();
  }
}
