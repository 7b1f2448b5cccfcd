/**
 Any sequence of khash operations, seen from outside: the table is the finite map that
 the operations which took effect lead to.
 */
module KhashRun {
  import opened KhashModel
  import opened RoundUp
  import opened Khash

  /** Put is kh_put followed by an assignment through the returned iterator, Del is kh_del of what kh_get returns. */
  datatype Op<K, V> = Put(key: K, val: V) | Get(key: K) | Del(key: K) | Clear | Resize(request: nat)

  /** Misplaced names the key whose value a put overwrote instead; after Lost there is no table any more. */
  datatype Outcome<K, V> = Done | Found(val: V) | Missing | Refused | Misplaced(key: K) | Lost

  /** One of the allocations from number lo up to but not including number hi is refused. */
  ghost predicate Refuses(grants: nat -> bool, lo: nat, hi: nat)
  {
    exists n: nat :: lo <= n < hi && !grants(n)
  }

  /** Which outcomes an operation may have on the map m. Only a refused allocation can make a difference. */
  predicate Legal<K(==), V(==)>(m: map<K, V>, op: Op<K, V>, out: Outcome<K, V>, refused: bool)
  {
    match op
    case Put(k, _) =>
      || (refused && out == Refused)
      || (if k in m || |m| < MAX_BUCKETS then out == Done else out.Misplaced? && out.key != k && out.key in m)
    case Get(k) => out == if k in m then Found(m[k]) else Missing
    case Del(_) => out == Done
    case Clear => out == Done
    case Resize(_) => out == Done || (refused && (out == Refused || out == Lost))
  }

  function Effect<K, V>(m: map<K, V>, op: Op<K, V>, out: Outcome<K, V>): map<K, V>
  {
    match op
    case Put(k, v) => if out.Done? then m[k := v] else if out.Misplaced? then m[out.key := v] else m
    case Del(k) => m - {k}
    case Clear => map[]
    case _ => m
  }

  /** The map after the operations that have an outcome. */
  function Replay<K, V>(m: map<K, V>, ops: seq<Op<K, V>>, outs: seq<Outcome<K, V>>): map<K, V>
    requires |outs| <= |ops|
    decreases |outs|
  {
    if outs == [] then m
    else
      var n := |outs| - 1;
      Effect(Replay(m, ops, outs[..n]), ops[n], outs[n])
  }

  lemma OneMore<K, V>(m: map<K, V>, ops: seq<Op<K, V>>, outs: seq<Outcome<K, V>>, out: Outcome<K, V>)
    requires |outs| < |ops|
    ensures Replay(m, ops, outs + [out]) == Effect(Replay(m, ops, outs), ops[|outs|], out)
  {
    assert (outs + [out])[..|outs|] == outs;
  }

  /**
   Every outcome is one the operation may have on the map it found, where asks says how many
   allocations had been asked for before each operation, and at the end.
   */
  ghost predicate Explains<K, V>(m: map<K, V>, ops: seq<Op<K, V>>, outs: seq<Outcome<K, V>>,
                                 grants: nat -> bool, asks: seq<nat>)
    requires |outs| <= |ops|
  {
    && |asks| == |outs| + 1
    && forall i :: 0 <= i < |outs| ==>
        asks[i] <= asks[i + 1] && Legal(Replay(m, ops, outs[..i]), ops[i], outs[i], Refuses(grants, asks[i], asks[i + 1]))
  }

  lemma ExplainsMore<K, V>(m: map<K, V>, ops: seq<Op<K, V>>, outs: seq<Outcome<K, V>>, out: Outcome<K, V>,
                           grants: nat -> bool, asks: seq<nat>, n: nat)
    requires |outs| < |ops| && Explains(m, ops, outs, grants, asks) && asks[|outs|] <= n
    requires Legal(Replay(m, ops, outs), ops[|outs|], out, Refuses(grants, asks[|outs|], n))
    ensures Explains(m, ops, outs + [out], grants, asks + [n])
  {
    hide Legal, Replay, Refuses;
    var all := outs + [out];
    forall i | 0 <= i < |all| ensures all[..i] == if i < |outs| then outs[..i] else outs {
    }
  }

  predicate InWord<K, V>(op: Op<K, V>)
  {
    op.Resize? ==> op.request < WORD
  }

  // ----- what the map of a sequence means

  /** The operation decided the fate of key k. */
  predicate Writes<K(==), V>(op: Op<K, V>, out: Outcome<K, V>, k: K)
  {
    match op
    case Put(key, _) => (out.Done? && key == k) || (out.Misplaced? && out.key == k)
    case Del(key) => key == k
    case Clear => true
    case _ => false
  }

  /** The p-th operation is the last one that decided the fate of k. */
  predicate LastWrite<K(==), V>(ops: seq<Op<K, V>>, outs: seq<Outcome<K, V>>, k: K, p: nat)
    requires |outs| <= |ops|
  {
    p < |outs| && Writes(ops[p], outs[p], k) && forall q :: p < q < |outs| ==> !Writes(ops[q], outs[q], k)
  }

  lemma WriteSticks<K, V>(m: map<K, V>, op: Op<K, V>, out: Outcome<K, V>, k: K)
    ensures var m' := Effect(m, op, out);
      if Writes(op, out, k) then (k in m' <==> op.Put?) && (op.Put? ==> m'[k] == op.val)
      else (k in m' <==> k in m) && (k in m ==> m'[k] == m[k])
  {
  }

  /** A key is there exactly when the last operation that decided its fate was a put, and holds the value of that put. */
  lemma {:induction false} ReplayIsLastWrite<K, V>(m: map<K, V>, ops: seq<Op<K, V>>, outs: seq<Outcome<K, V>>, k: K)
    requires |outs| <= |ops|
    ensures forall p: nat :: LastWrite(ops, outs, k, p) ==>
      (k in Replay(m, ops, outs) <==> ops[p].Put?) && (ops[p].Put? ==> Replay(m, ops, outs)[k] == ops[p].val)
    ensures (forall p: nat :: !LastWrite(ops, outs, k, p)) ==>
      (k in Replay(m, ops, outs) <==> k in m) && (k in m ==> Replay(m, ops, outs)[k] == m[k])
    decreases |outs|
  {
    if outs != [] {
      var n, rest := |outs| - 1, outs[..|outs| - 1];
      ReplayIsLastWrite(m, ops, rest, k);
      WriteSticks(Replay(m, ops, rest), ops[n], outs[n], k);
      assert Replay(m, ops, outs) == Effect(Replay(m, ops, rest), ops[n], outs[n]);
      hide Replay, Effect, Writes;
      if Writes(ops[n], outs[n], k) {
        assert LastWrite(ops, outs, k, n);
        assert forall p: nat :: LastWrite(ops, outs, k, p) ==> p == n;
      } else {
        assert forall p: nat :: LastWrite(ops, outs, k, p) <==> LastWrite(ops, rest, k, p);
      }
    }
  }

  lemma GrowsByOne<K, V>(m: map<K, V>, op: Op<K, V>, out: Outcome<K, V>)
    requires exists refused :: Legal(m, op, out, refused)
    ensures |Effect(m, op, out)| <= |m| + 1
  {
    match op
    case Put(k, v) =>
      if out.Done? {
        assert m[k := v].Keys == m.Keys + {k};
      } else if out.Misplaced? {
        assert m[out.key := v].Keys == m.Keys;
      }
    case Del(k) =>
      assert (m - {k}).Keys == m.Keys - {k};
    case _ =>
  }

  lemma ExplainsLess<K, V>(m: map<K, V>, ops: seq<Op<K, V>>, outs: seq<Outcome<K, V>>, grants: nat -> bool, asks: seq<nat>, n: nat)
    requires |outs| <= |ops| && Explains(m, ops, outs, grants, asks) && n <= |outs|
    ensures Explains(m, ops, outs[..n], grants, asks[..n + 1])
    ensures n < |outs| ==> Legal(Replay(m, ops, outs[..n]), ops[n], outs[n], Refuses(grants, asks[n], asks[n + 1]))
  {
    hide Legal, Replay, Refuses;
    assert forall i :: 0 <= i < n ==> outs[..n][..i] == outs[..i];
  }

  lemma {:induction false} ReplaySize<K, V>(m: map<K, V>, ops: seq<Op<K, V>>, outs: seq<Outcome<K, V>>,
                                            grants: nat -> bool, asks: seq<nat>)
    requires |outs| <= |ops| && Explains(m, ops, outs, grants, asks)
    ensures |Replay(m, ops, outs)| <= |m| + |outs|
    decreases |outs|
  {
    if outs != [] {
      var n := |outs| - 1;
      ExplainsLess(m, ops, outs, grants, asks, n);
      ReplaySize(m, ops, outs[..n], grants, asks[..n + 1]);
      GrowsByOne(Replay(m, ops, outs[..n]), ops[n], outs[n]);
    }
  }

  /** No put is misplaced in a sequence too short to fill the largest table. */
  lemma NoneMisplaced<K, V>(m: map<K, V>, ops: seq<Op<K, V>>, outs: seq<Outcome<K, V>>,
                            grants: nat -> bool, asks: seq<nat>, i: nat)
    requires |outs| <= |ops| && Explains(m, ops, outs, grants, asks) && i < |outs| && |m| + |ops| <= MAX_BUCKETS
    ensures !outs[i].Misplaced?
  {
    ExplainsLess(m, ops, outs, grants, asks, i);
    ReplaySize(m, ops, outs[..i], grants, asks[..i + 1]);
  }

  /** A get answers the value of the last put to its key that nothing undid. */
  lemma GetAnswersLastWrite<K, V>(m: map<K, V>, ops: seq<Op<K, V>>, outs: seq<Outcome<K, V>>,
                                  grants: nat -> bool, asks: seq<nat>, i: nat, p: nat)
    requires |outs| <= |ops| && Explains(m, ops, outs, grants, asks) && i < |outs| && ops[i].Get?
    requires LastWrite(ops, outs[..i], ops[i].key, p)
    ensures outs[i] == if ops[p].Put? then Found(ops[p].val) else Missing
  {
    ReplayIsLastWrite(m, ops, outs[..i], ops[i].key);
    ExplainsLess(m, ops, outs, grants, asks, i);
  }

  // ----- when every allocation is granted

  /** The operation is a put to k, a delete of k or a clear. */
  predicate Names<K(==), V>(op: Op<K, V>, k: K)
  {
    match op
    case Put(key, _) => key == k
    case Del(key) => key == k
    case Clear => true
    case _ => false
  }

  /** The p-th operation is the last one before the i-th that names k. */
  predicate LastNaming<K(==), V>(ops: seq<Op<K, V>>, i: nat, k: K, p: nat)
    requires i <= |ops|
  {
    p < i && Names(ops[p], k) && forall q :: p < q < i ==> !Names(ops[q], k)
  }

  lemma NoneRefused<K, V>(m: map<K, V>, ops: seq<Op<K, V>>, outs: seq<Outcome<K, V>>, grants: nat -> bool, asks: seq<nat>)
    requires |outs| <= |ops| && Explains(m, ops, outs, grants, asks)
    requires |m| + |ops| <= MAX_BUCKETS && forall n :: grants(n)
    ensures forall i :: 0 <= i < |outs| && !ops[i].Get? ==> outs[i] == Done
  {
    forall i | 0 <= i < |outs| && !ops[i].Get? ensures outs[i] == Done {
      ExplainsLess(m, ops, outs, grants, asks, i);
      NoneMisplaced(m, ops, outs, grants, asks, i);
    }
  }

  /**
   A table whose allocations are granted, and that is not filled to the largest size, behaves as a map:
   a get finds what the last operation that names its key left, and everything else succeeds.
   */
  lemma GrantedIsMap<K, V>(m: map<K, V>, ops: seq<Op<K, V>>, outs: seq<Outcome<K, V>>,
                           grants: nat -> bool, asks: seq<nat>, i: nat)
    requires |outs| <= |ops| && Explains(m, ops, outs, grants, asks) && i < |outs|
    requires |m| + |ops| <= MAX_BUCKETS && forall n :: grants(n)
    ensures !ops[i].Get? ==> outs[i] == Done
    ensures ops[i].Get? ==> forall p: nat :: LastNaming(ops, i, ops[i].key, p) ==>
      outs[i] == if ops[p].Put? then Found(ops[p].val) else Missing
    ensures ops[i].Get? && (forall p: nat :: !LastNaming(ops, i, ops[i].key, p)) ==>
      outs[i] == if ops[i].key in m then Found(m[ops[i].key]) else Missing
  {
    NoneRefused(m, ops, outs, grants, asks);
    if ops[i].Get? {
      var k := ops[i].key;
      assert forall p: nat :: p < i ==> (Writes(ops[p], outs[p], k) <==> Names(ops[p], k));
      assert forall p: nat :: LastWrite(ops, outs[..i], k, p) <==> LastNaming(ops, i, k, p);
      ReplayIsLastWrite(m, ops, outs[..i], k);
      ExplainsLess(m, ops, outs, grants, asks, i);
    }
  }

  // ----- the operations on a table

  method DoPut<K(==, 0), V(==, 0)>(t: Table<K, V>, k: K, v: V) returns (out: Outcome<K, V>)
    requires t.Valid()
    modifies t, t.flags, t.keys, t.vals
    ensures t.Valid() && t.asked >= old(t.asked)
    ensures Legal(old(t.Contents()), Op.Put(k, v), out, Refuses(t.grants, old(t.asked), t.asked))
    ensures t.Contents() == Effect(old(t.Contents()), Op.Put(k, v), out)
    ensures out != Lost
    ensures t.flags == old(t.flags) || fresh(t.flags)
    ensures t.keys == old(t.keys) || fresh(t.keys)
    ensures t.vals == old(t.vals) || fresh(t.vals)
  {
    hide IsTable, Bindings, UpperBound, FirstEmpty, LastTombstone;
    ghost var m := t.Contents();
    t.ContentsSize();
    t.Counters();
    var x, ret := t.Put(k);
    if ret < 0 {
      return Refused;
    }
    out := if t.keys[x] == k then Done else Misplaced(t.keys[x]);
    t.SetValue(x, v);
  }

  method DoGet<K(==, 0), V(==, 0)>(t: Table<K, V>, k: K) returns (out: Outcome<K, V>)
    requires t.Valid()
    ensures Legal(t.Contents(), Op.Get(k), out, false) && out != Lost
  {
    hide IsTable, Bindings;
    var x := t.Get(k);
    if x == t.nBuckets {
      out := Missing;
    } else {
      out := Found(t.vals[x]);
    }
  }

  method DoDel<K(==, 0), V(==, 0)>(t: Table<K, V>, k: K)
    requires t.Valid()
    modifies t, t.flags
    ensures t.Valid() && t.Contents() == old(t.Contents()) - {k}
    ensures t.flags == old(t.flags) && t.keys == old(t.keys) && t.vals == old(t.vals) && t.asked == old(t.asked)
  {
    hide IsTable, Bindings;
    var x := t.Get(k);
    if x != t.nBuckets { t.BucketFacts(x); }
    t.Del(x);
  }

  method DoResize<K(==, 0), V(==, 0)>(t: Table<K, V>, request: nat) returns (out: Outcome<K, V>)
    requires t.Valid() && request < WORD
    modifies t, t.flags, t.keys, t.vals
    ensures t.asked >= old(t.asked)
    ensures Legal(old(t.Contents()), Op.Resize(request), out, Refuses(t.grants, old(t.asked), t.asked))
    ensures out != Lost ==> t.Valid() && t.Contents() == old(t.Contents())
    ensures out == Lost ==> !t.Valid()
    ensures t.flags == old(t.flags) || fresh(t.flags)
    ensures t.keys == old(t.keys) || fresh(t.keys)
    ensures t.vals == old(t.vals) || fresh(t.vals)
  {
    hide IsTable, Bindings, UpperBound, Target;
    var r;
    ghost var kept;
    r, kept := t.Resize(request);
    if r < 0 {
      out := Refused;
    } else if t.nBuckets > 0 && (t.keys.Length == 0 || t.vals.Length == 0) {
      out := Lost;
    } else {
      out := Done;
    }
  }

  method Apply<K(==, 0), V(==, 0)>(t: Table<K, V>, op: Op<K, V>) returns (out: Outcome<K, V>)
    requires t.Valid() && InWord(op)
    modifies t, t.flags, t.keys, t.vals
    ensures t.asked >= old(t.asked)
    ensures Legal(old(t.Contents()), op, out, Refuses(t.grants, old(t.asked), t.asked))
    ensures out != Lost ==> t.Valid() && t.Contents() == Effect(old(t.Contents()), op, out)
    ensures out == Lost ==> !t.Valid()
    ensures t.flags == old(t.flags) || fresh(t.flags)
    ensures t.keys == old(t.keys) || fresh(t.keys)
    ensures t.vals == old(t.vals) || fresh(t.vals)
  {
    hide IsTable, Bindings;
    match op {
      case Put(k, v) =>
        out := DoPut(t, k, v);
      case Get(k) =>
        out := DoGet(t, k);
      case Del(k) =>
        DoDel(t, k);
        out := Done;
      case Clear =>
        t.Clear();
        out := Done;
      case Resize(request) =>
        out := DoResize(t, request);
    }
  }

  /**
   Any operations in a row, until a table is lost. Each outcome is one the operation may have on
   the map that the operations before it lead to, and the table is the map they all lead to.
   */
  method Perform<K(==, 0), V(==, 0)>(t: Table<K, V>, ops: seq<Op<K, V>>)
    returns (outs: seq<Outcome<K, V>>, ghost asks: seq<nat>)
    requires t.Valid() && forall op :: op in ops ==> InWord(op)
    modifies t, t.flags, t.keys, t.vals
    ensures |outs| <= |ops| && Explains(old(t.Contents()), ops, outs, t.grants, asks)
    ensures asks[0] == old(t.asked) && asks[|outs|] == t.asked
    ensures Lost !in outs ==> |outs| == |ops| && t.Valid() && t.Contents() == Replay(old(t.Contents()), ops, outs)
    ensures Lost in outs ==> outs[|outs| - 1] == Lost && !t.Valid()
  {
    hide Legal, Effect, Replay, Refuses, IsTable, Bindings;
    ghost var m := t.Contents();
    outs, asks := [], [t.asked];
    NothingYet(m, ops, t.grants, asks);
    while |outs| < |ops|
      invariant |outs| <= |ops| && Explains(m, ops, outs, t.grants, asks)
      invariant asks[0] == old(t.asked) && asks[|outs|] == t.asked
      invariant Lost !in outs && t.Valid() && t.Contents() == Replay(m, ops, outs)
      invariant t.flags == old(t.flags) || fresh(t.flags)
      invariant t.keys == old(t.keys) || fresh(t.keys)
      invariant t.vals == old(t.vals) || fresh(t.vals)
    {
      assert ops[|outs|] in ops;
      var out := Apply(t, ops[|outs|]);
      ExplainsMore(m, ops, outs, out, t.grants, asks, t.asked);
      OneMore(m, ops, outs, out);
      outs, asks := outs + [out], asks + [t.asked];
      if out == Lost {
        return;
      }
    }
  }

  lemma NothingYet<K, V>(m: map<K, V>, ops: seq<Op<K, V>>, grants: nat -> bool, asks: seq<nat>)
    requires |asks| == 1
    ensures Replay(m, ops, []) == m && Explains(m, ops, [], grants, asks)
  {
  }
}
