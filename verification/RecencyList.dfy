// The abstract meaning of an LRU cache: a list of entries, most recently used
// first, and the theorems about whole runs of such a list.
module RecencyList {
  import opened Wrappers
  import opened Sequences

  datatype Entry<K, V> = Entry(key: K, value: V)

  datatype Op<K, V> = Set(key: K, value: V) | Get(key: K) | Delete(key: K) | Clear

  const DEFAULT_CAPACITY: nat := 10

  // The capacity a cache really has: the constructor replaces non-positive ones.
  function Effective(capacity: int): (c: nat)
    ensures c >= 1
  {
    if capacity <= 0 then DEFAULT_CAPACITY else capacity
  }

  ghost predicate Has<K, V>(s: seq<Entry<K, V>>, k: K) {
    exists e :: e in s && e.key == k
  }

  ghost predicate Unique<K, V>(s: seq<Entry<K, V>>) {
    forall i, j :: 0 <= i < j < |s| ==> s[i].key != s[j].key
  }

  ghost function Lookup<K, V>(s: seq<Entry<K, V>>, k: K): (r: Option<V>)
    ensures r.Some? <==> Has(s, k)
    ensures r.Some? ==> Entry(k, r.value) in s
  {
    if s == [] then None
    else if s[0].key == k then Some(s[0].value)
    else Lookup(s[1..], k)
  }

  ghost function Without<K, V>(s: seq<Entry<K, V>>, k: K): (r: seq<Entry<K, V>>)
  {
    if s == [] then []
    else if s[0].key == k then Without(s[1..], k)
    else [s[0]] + Without(s[1..], k)
  }

  ghost function Trim<T>(capacity: nat, s: seq<T>): seq<T> {
    if |s| > capacity then Init(s) else s
  }

  // One cache operation on the recency list.
  ghost function Step<K, V>(capacity: nat, s: seq<Entry<K, V>>, op: Op<K, V>): seq<Entry<K, V>> {
    match op
    case Set(k, v) => Trim(capacity, [Entry(k, v)] + Without(s, k))
    case Get(k) => if Has(s, k) then [Entry(k, Lookup(s, k).value)] + Without(s, k) else s
    case Delete(k) => Without(s, k)
    case Clear => []
  }

  // A run from an empty cache.
  ghost function Run<K, V>(capacity: nat, ops: seq<Op<K, V>>): seq<Entry<K, V>> {
    if ops == [] then [] else Step(capacity, Run(capacity, Init(ops)), Last(ops))
  }

  lemma RunExtends<K, V>(capacity: nat, ops: seq<Op<K, V>>, op: Op<K, V>)
    ensures Run(capacity, ops + [op]) == Step(capacity, Run(capacity, ops), op)
  {
    assert Init(ops + [op]) == ops;
  }

  // ---------- Subsequences ----------

  // a can be had from b by dropping elements.
  ghost predicate Sub<T>(a: seq<T>, b: seq<T>) {
    a == [] || (b != [] && if a[0] == b[0] then Sub(a[1..], b[1..]) else Sub(a, b[1..]))
  }

  lemma {:induction false} SubWeaken<T>(a: seq<T>, e: T, b: seq<T>)
    requires Sub(a, b)
    ensures Sub(a, [e] + b)
    decreases |b|, 1
  {
    assert ([e] + b)[1..] == b;
    if a != [] && a[0] == e {
      SubTail(a, b);
    }
  }

  lemma {:induction false} SubTail<T>(a: seq<T>, b: seq<T>)
    requires a != [] && Sub(a, b)
    ensures Sub(a[1..], b)
    decreases |b|, 0
  {
    assert b == [b[0]] + b[1..];
    if a[0] != b[0] {
      SubTail(a, b[1..]);
    }
    SubWeaken(a[1..], b[0], b[1..]);
  }

  lemma {:induction false} SubCons<T>(e: T, a: seq<T>, b: seq<T>)
    requires Sub(a, b)
    ensures Sub([e] + a, [e] + b)
  {
    assert ([e] + a)[1..] == a && ([e] + b)[1..] == b;
  }

  // Dropping the last element on both sides, or on the left only.
  lemma {:induction false} SubInit<T>(a: seq<T>, b: seq<T>)
    requires a != [] && Sub(a, b)
    ensures Sub(Init(a), Init(b)) && Sub(Init(a), b)
  {
    assert b == [b[0]] + b[1..];
    if a[0] == b[0] {
      if |a| > 1 {
        SubInit(a[1..], b[1..]);
        assert Init(a) == [a[0]] + Init(a[1..]);
        assert Init(b) == [b[0]] + Init(b[1..]);
        SubCons(a[0], Init(a[1..]), Init(b[1..]));
        SubCons(a[0], Init(a[1..]), b[1..]);
      }
    } else {
      SubInit(a, b[1..]);
      assert Init(b) == [b[0]] + Init(b[1..]);
      SubWeaken(Init(a), b[0], Init(b[1..]));
      SubWeaken(Init(a), b[0], b[1..]);
    }
  }

  lemma {:induction false} SubWithout<K, V>(a: seq<Entry<K, V>>, b: seq<Entry<K, V>>, k: K)
    requires Sub(a, b)
    ensures Sub(Without(a, k), Without(b, k))
    decreases |b|
  {
    if a != [] {
      if a[0] == b[0] {
        SubWithout(a[1..], b[1..], k);
        if a[0].key != k { SubCons(a[0], Without(a[1..], k), Without(b[1..], k)); }
      } else {
        SubWithout(a, b[1..], k);
        if b[0].key != k { SubWeaken(Without(a, k), b[0], Without(b[1..], k)); }
      }
    }
  }

  lemma {:induction false} SubMembers<T>(a: seq<T>, b: seq<T>)
    requires Sub(a, b)
    ensures |a| <= |b|
    ensures forall e :: e in a ==> e in b
    decreases |b|
  {
    if a != [] {
      if a[0] == b[0] {
        SubMembers(a[1..], b[1..]);
        assert a == [a[0]] + a[1..];
      } else {
        SubMembers(a, b[1..]);
      }
    }
  }

  // ---------- Shape of one step ----------

  lemma {:induction false} WithoutMembers<K, V>(s: seq<Entry<K, V>>, k: K)
    ensures forall e :: e in Without(s, k) ==> e in s && e.key != k
    ensures forall e :: e in s && e.key != k ==> e in Without(s, k)
  {
    if s != [] {
      WithoutMembers(s[1..], k);
      assert s == [s[0]] + s[1..];
    }
  }

  lemma UniqueTail<K, V>(s: seq<Entry<K, V>>)
    requires s != [] && Unique(s)
    ensures Unique(s[1..]) && forall e :: e in s[1..] ==> e.key != s[0].key
  {
  }

  lemma UniqueCons<K, V>(e: Entry<K, V>, s: seq<Entry<K, V>>)
    requires Unique(s) && !Has(s, e.key)
    ensures Unique([e] + s)
  {
    var r := [e] + s;
    forall i, j | 0 <= i < j < |r| ensures r[i].key != r[j].key {
      assert r[j] == s[j - 1] && s[j - 1] in s;
      if i > 0 { assert r[i] == s[i - 1]; }
    }
  }

  lemma {:induction false} WithoutFresh<K, V>(s: seq<Entry<K, V>>, k: K)
    requires !Has(s, k)
    ensures Without(s, k) == s
  {
    if s != [] {
      assert s[0] in s;
      WithoutFresh(s[1..], k);
    }
  }

  lemma StepMissing<K, V>(capacity: nat, s: seq<Entry<K, V>>, k: K)
    requires !Has(s, k)
    ensures Lookup(s, k) == None
    ensures Step(capacity, s, Op.Get(k)) == s && Step(capacity, s, Op.Delete(k)) == s
  {
    WithoutFresh(s, k);
  }

  lemma {:induction false} WithoutSize<K, V>(s: seq<Entry<K, V>>, k: K)
    requires Unique(s)
    ensures Unique(Without(s, k))
    ensures |Without(s, k)| == if Has(s, k) then |s| - 1 else |s|
    ensures !Has(s, k) ==> Without(s, k) == s
    ensures !Has(Without(s, k), k)
  {
    WithoutMembers(s, k);
    if !Has(s, k) {
      WithoutFresh(s, k);
    } else {
      UniqueTail(s);
      if s[0].key == k {
        WithoutFresh(s[1..], k);
      } else {
        WithoutSize(s[1..], k);
        WithoutMembers(s[1..], k);
        UniqueCons(s[0], Without(s[1..], k));
      }
    }
  }

  // Cutting the only entry for a key out of the list.
  lemma {:induction false} WithoutAt<K, V>(s: seq<Entry<K, V>>, p: nat)
    requires Unique(s) && p < |s|
    ensures Without(s, s[p].key) == Cut(s, p)
  {
    UniqueTail(s);
    if p == 0 {
      WithoutFresh(s[1..], s[0].key);
    } else {
      WithoutAt(s[1..], p - 1);
      assert s[1..][p - 1] == s[p] && s[p] in s[1..];
      assert s[..p] == [s[0]] + s[1..][..p - 1];
      assert s[p + 1..] == s[1..][p..];
    }
  }

  ghost function Keys<K, V>(s: seq<Entry<K, V>>): set<K> {
    set e | e in s :: e.key
  }

  lemma {:induction false} KeysSize<K, V>(s: seq<Entry<K, V>>)
    requires Unique(s)
    ensures |Keys(s)| == |s|
  {
    if s != [] {
      UniqueTail(s);
      KeysSize(s[1..]);
      assert s == [s[0]] + s[1..];
      assert Keys(s) == {s[0].key} + Keys(s[1..]);
      assert s[0].key !in Keys(s[1..]);
    }
  }

  lemma SameSize<T>(a: set<T>, b: set<T>)
    requires a <= b && |a| == |b|
    ensures a == b
  {
    assert b == a + (b - a);
    assert |b| == |a| + |b - a|;
  }

  lemma {:induction false} StepShape<K, V>(capacity: nat, s: seq<Entry<K, V>>, op: Op<K, V>)
    requires capacity >= 1 && Unique(s) && |s| <= capacity
    ensures Unique(Step(capacity, s, op)) && |Step(capacity, s, op)| <= capacity
  {
    if !op.Clear? { WithoutSize(s, op.key); }
  }

  lemma {:induction false} RunShape<K, V>(capacity: nat, ops: seq<Op<K, V>>)
    requires capacity >= 1
    ensures Unique(Run(capacity, ops)) && |Run(capacity, ops)| <= capacity
  {
    if ops != [] {
      RunShape(capacity, Init(ops));
      StepShape(capacity, Run(capacity, Init(ops)), Last(ops));
    }
  }

  lemma {:induction false} LookupMember<K, V>(s: seq<Entry<K, V>>, e: Entry<K, V>)
    requires Unique(s) && e in s
    ensures Lookup(s, e.key) == Some(e.value)
  {
    if s[0] != e {
      var i :| 0 <= i < |s| && s[i] == e;
      assert s[1..][i - 1] == e;
      LookupMember(s[1..], e);
    }
  }

  // ---------- Inclusion across capacities ----------

  ghost predicate Included<K, V>(cs: nat, cl: nat, small: seq<Entry<K, V>>, large: seq<Entry<K, V>>) {
    && Sub(small, large)
    && Unique(small) && Unique(large)
    && |small| <= cs && |large| <= cl
    // Without this the large cache could evict an entry that the small one keeps.
    && |large| - |small| <= cl - cs
  }

  lemma {:induction false} StepInclusion<K, V>(
    cs: nat, cl: nat, small: seq<Entry<K, V>>, large: seq<Entry<K, V>>, op: Op<K, V>)
    requires 1 <= cs <= cl && Included(cs, cl, small, large)
    ensures Included(cs, cl, Step(cs, small, op), Step(cl, large, op))
  {
    StepShape(cs, small, op);
    StepShape(cl, large, op);
    if !op.Clear? {
      var k := op.key;
      WithoutSize(small, k);
      WithoutSize(large, k);
      SubMembers(small, large);
      SubWithout(small, large, k);
      var a, b := Without(small, k), Without(large, k);
      assert Has(small, k) ==> Has(large, k);
      match op
      case Set(_, v) =>
        var e := Entry(k, v);
        SubCons(e, a, b);
        SubInit([e] + a, [e] + b);
      case Get(_) =>
        if Has(small, k) {
          var e := Entry(k, Lookup(small, k).value);
          LookupMember(large, e);
          SubCons(e, a, b);
        } else if Has(large, k) {
          SubWeaken(small, Entry(k, Lookup(large, k).value), b);
        }
      case Delete(_) =>
    }
  }

  // For the same run, the list of a smaller cache is a subsequence of the list
  // of a larger one, so the larger one hits wherever the smaller one does.
  lemma {:induction false} Inclusion<K, V>(cs: nat, cl: nat, ops: seq<Op<K, V>>)
    requires 1 <= cs <= cl
    ensures Included(cs, cl, Run(cs, ops), Run(cl, ops))
    ensures forall k :: Lookup(Run(cs, ops), k).Some? ==> Lookup(Run(cl, ops), k) == Lookup(Run(cs, ops), k)
  {
    if ops != [] {
      Inclusion(cs, cl, Init(ops));
      StepInclusion(cs, cl, Run(cs, Init(ops)), Run(cl, Init(ops)), Last(ops));
    }
    var small, large := Run(cs, ops), Run(cl, ops);
    SubMembers(small, large);
    forall k | Lookup(small, k).Some?
      ensures Lookup(large, k) == Lookup(small, k)
    {
      LookupMember(large, Entry(k, Lookup(small, k).value));
    }
  }

  // ---------- The cache never returns a stale value ----------

  // What a map without a bound would hold after the same run.
  ghost function Plain<K, V>(ops: seq<Op<K, V>>): map<K, V> {
    if ops == [] then map[] else
      var m := Plain(Init(ops));
      match Last(ops)
      case Set(k, v) => m[k := v]
      case Get(_) => m
      case Delete(k) => m - {k}
      case Clear => map[]
  }

  ghost predicate Agrees<K, V>(s: seq<Entry<K, V>>, m: map<K, V>) {
    && (forall e :: e in s ==> e.key in m && m[e.key] == e.value)
    && (forall k :: k in m ==> Entry(k, m[k]) in s)
  }

  // A cache with room for every operation is exactly the plain map.
  lemma {:induction false} RoomyIsPlain<K, V>(capacity: nat, ops: seq<Op<K, V>>)
    requires capacity >= 1 && |ops| <= capacity
    ensures Agrees(Run(capacity, ops), Plain(ops)) && |Run(capacity, ops)| <= |ops|
  {
    if ops != [] {
      RoomyIsPlain(capacity, Init(ops));
      RunShape(capacity, Init(ops));
      var s, op := Run(capacity, Init(ops)), Last(ops);
      if !op.Clear? {
        WithoutSize(s, op.key);
        WithoutMembers(s, op.key);
        if op.Get? && Has(s, op.key) {
          var e := Entry(op.key, Lookup(s, op.key).value);
          forall x | x in s ensures x == e || x in Without(s, op.key) {
            if x.key == op.key { LookupMember(s, x); }
          }
        }
      }
    }
  }

  // Whatever the capacity, a hit returns the value last set and not deleted since.
  lemma {:induction false} NeverStale<K, V>(capacity: nat, ops: seq<Op<K, V>>, k: K)
    requires capacity >= 1 && Has(Run(capacity, ops), k)
    ensures k in Plain(ops) && Lookup(Run(capacity, ops), k) == Some(Plain(ops)[k])
  {
    var roomy := if |ops| > capacity then |ops| else capacity;
    Inclusion(capacity, roomy, ops);
    RoomyIsPlain(roomy, ops);
  }

  // ---------- Inclusion needs the capacities to be ordered ----------

  ghost function Fill(n: nat): (ops: seq<Op<nat, nat>>)
    ensures |ops| == n
  {
    if n == 0 then [] else Fill(n - 1) + [Set(n, n)]
  }

  lemma {:induction false} FillSize(capacity: nat, n: nat)
    requires capacity >= 1
    ensures |Run(capacity, Fill(n))| == if n < capacity then n else capacity
    ensures forall e :: e in Run(capacity, Fill(n)) ==> e.key <= n
  {
    if n > 0 {
      FillSize(capacity, n - 1);
      RunShape(capacity, Fill(n - 1));
      assert Init(Fill(n)) == Fill(n - 1);
      var s := Run(capacity, Fill(n - 1));
      assert !Has(s, n);
      WithoutSize(s, n);
      WithoutMembers(s, n);
      assert Run(capacity, Fill(n)) == Trim(capacity, [Entry(n, n)] + s);
    }
  }

  // A cache made for a given capacity holds that many entries, one made for none
  // holds ten, and neither holds more.
  lemma HoldsAsGiven(given: int, n: nat)
    ensures |Run(Effective(given), Fill(n))| ==
      if given >= 1 then (if n < given then n else given) else (if n < 10 then n else 10)
  {
    FillSize(Effective(given), n);
  }

  // In terms of the capacities as given to the constructor, inclusion over all
  // runs holds exactly when the effective capacities are ordered. A capacity of
  // 0 therefore gives a larger cache than a capacity of 5.
  lemma {:induction false} InclusionExactly(small: int, large: int)
    ensures (forall ops: seq<Op<nat, nat>> :: Sub(Run(Effective(small), ops), Run(Effective(large), ops)))
            <==> Effective(small) <= Effective(large)
    ensures !(Effective(0) <= Effective(5))
  {
    var cs, cl := Effective(small), Effective(large);
    if cs <= cl {
      forall ops: seq<Op<nat, nat>> ensures Sub(Run(cs, ops), Run(cl, ops)) {
        Inclusion(cs, cl, ops);
      }
    } else {
      FillSize(cs, cs);
      FillSize(cl, cs);
      if Sub(Run(cs, Fill(cs)), Run(cl, Fill(cs))) {
        SubMembers(Run(cs, Fill(cs)), Run(cl, Fill(cs)));
      }
    }
  }

  // ---------- What "least recently used" guarantees ----------

  // The keys other than k that an operation may move ahead of k.
  ghost function Touched<K, V>(ops: seq<Op<K, V>>, k: K): set<K> {
    if ops == [] then {} else
      var op := Last(ops);
      Touched(Init(ops), k) + (if (op.Set? || op.Get?) && op.key != k then {op.key} else {})
  }

  ghost function Continue<K, V>(capacity: nat, s: seq<Entry<K, V>>, ops: seq<Op<K, V>>): seq<Entry<K, V>> {
    if ops == [] then s else Step(capacity, Continue(capacity, s, Init(ops)), Last(ops))
  }

  // k stands in s and everything ahead of it has been touched.
  ghost predicate Recent<K, V>(s: seq<Entry<K, V>>, k: K, touched: set<K>) {
    s != [] && (s[0].key == k || (s[0].key in touched && Recent(s[1..], k, touched)))
  }

  lemma {:induction false} RecentHas<K, V>(s: seq<Entry<K, V>>, k: K, touched: set<K>)
    requires Recent(s, k, touched)
    ensures Has(s, k)
  {
    if s[0].key != k {
      RecentHas(s[1..], k, touched);
    } else {
      assert s[0] in s;
    }
  }

  lemma {:induction false} RecentWiden<K, V>(s: seq<Entry<K, V>>, k: K, narrow: set<K>, wide: set<K>)
    requires Recent(s, k, narrow)
    requires forall e :: e in s && e.key in narrow ==> e.key in wide
    ensures Recent(s, k, wide)
  {
    if s[0].key != k { RecentWiden(s[1..], k, narrow, wide); }
  }

  lemma {:induction false} RecentWithout<K, V>(s: seq<Entry<K, V>>, k: K, x: K, touched: set<K>)
    requires x != k && Recent(s, k, touched)
    ensures Recent(Without(s, x), k, touched)
  {
    if s[0].key != k { RecentWithout(s[1..], k, x, touched); }
  }

  // Eviction cannot reach k while fewer keys were touched than the cache holds.
  lemma {:induction false} RecentInit<K, V>(s: seq<Entry<K, V>>, k: K, touched: set<K>)
    requires Unique(s) && Recent(s, k, touched) && |touched| < |s| - 1
    ensures Recent(Init(s), k, touched)
  {
    if s[0].key != k {
      var t, fewer := s[1..], touched - {s[0].key};
      UniqueTail(s);
      RecentWiden(t, k, touched, fewer);
      RecentInit(t, k, fewer);
      RecentWiden(Init(t), k, fewer, touched);
      assert Init(s)[1..] == Init(t);
    }
  }

  // A key that has just been used survives any run that does not remove it and
  // touches fewer distinct other keys than the capacity.
  lemma {:induction false} Retention<K, V>(capacity: nat, s: seq<Entry<K, V>>, k: K, ops: seq<Op<K, V>>)
    requires capacity >= 1 && Unique(s) && |s| <= capacity
    requires s != [] && s[0].key == k
    requires forall i :: 0 <= i < |ops| ==> ops[i] != Delete(k) && ops[i] != Clear
    requires |Touched(ops, k)| < capacity
    ensures Has(Continue(capacity, s, ops), k)
    ensures Unique(Continue(capacity, s, ops)) && |Continue(capacity, s, ops)| <= capacity
    ensures Recent(Continue(capacity, s, ops), k, Touched(ops, k))
  {
    if ops == [] {
      assert s[0] in s;
    } else {
      var before, op := Init(ops), Last(ops);
      SubsetSize(Touched(before, k), Touched(ops, k));
      Retention(capacity, s, k, before);
      var c := Continue(capacity, s, before);
      StepShape(capacity, c, op);
      StepRecent(capacity, c, k, op, Touched(before, k), Touched(ops, k));
      RecentHas(Continue(capacity, s, ops), k, Touched(ops, k));
    }
  }

  lemma {:induction false} SubsetSize<T>(a: set<T>, b: set<T>)
    requires a <= b
    ensures |a| <= |b|
  {
    assert b == a + (b - a);
    assert |b| == |a| + |b - a|;
  }

  lemma {:induction false} StepRecent<K, V>(
    capacity: nat, c: seq<Entry<K, V>>, k: K, op: Op<K, V>, before: set<K>, after: set<K>)
    requires capacity >= 1 && Unique(c) && |c| <= capacity && Recent(c, k, before)
    requires op != Delete(k) && op != Clear
    requires after == before + (if (op.Set? || op.Get?) && op.key != k then {op.key} else {})
    requires |after| < capacity
    ensures Recent(Step(capacity, c, op), k, after)
  {
    var x := op.key;
    WithoutSize(c, x);
    RecentHas(c, k, before);
    RecentWiden(c, k, before, after);
    if x != k {
      RecentWithout(c, k, x, after);
      if op.Set? {
        var r := [Entry(x, op.value)] + Without(c, x);
        UniqueCons(Entry(x, op.value), Without(c, x));
        assert r[1..] == Without(c, x);
        if |r| > capacity { RecentInit(r, k, after); }
      } else if op.Get? && Has(c, x) {
        assert Step(capacity, c, op)[1..] == Without(c, x);
      }
    }
  }
}
