// What the two cache levels hold, as values, and what the manager's operations
// do to them, backend failures included.
module CacheLevels {
  import opened Wrappers

  type Key = string
  type Value = seq<int>
  type Store = map<Key, Value>

  // A disabled level is None.
  datatype Levels = Levels(l1: Option<Store>, l2: Option<Store>)

  // Which backend calls of one operation fail.
  datatype Faults = Faults(l1: bool, l2: bool, fill: bool)

  const HEALTHY := Faults(false, false, false)

  function Find(level: Option<Store>, key: Key): Option<Value> {
    if level.Some? && key in level.value then Some(level.value[key]) else None
  }

  function Put(level: Option<Store>, key: Key, value: Value, fails: bool): Option<Store> {
    if level.None? || fails then level else Some(level.value[key := value])
  }

  function Drop(level: Option<Store>, key: Key, fails: bool): Option<Store> {
    if level.None? || fails then level else Some(level.value - {key})
  }

  function Empty(level: Option<Store>, fails: bool): Option<Store> {
    if level.None? || fails then level else Some(map[])
  }

  function ReadFrom(level: Option<Store>, key: Key, fails: bool): Option<Value> {
    if fails then None else Find(level, key)
  }

  // Manager.Get: L1, then L2 with a copy into L1.
  function Get(s: Levels, key: Key, f: Faults): (Option<Value>, Levels) {
    if ReadFrom(s.l1, key, f.l1).Some? then (ReadFrom(s.l1, key, f.l1), s)
    else if ReadFrom(s.l2, key, f.l2).Some?
    then (ReadFrom(s.l2, key, f.l2), Levels(Put(s.l1, key, Find(s.l2, key).value, f.fill), s.l2))
    else (None, s)
  }

  function Set(s: Levels, key: Key, value: Value, f: Faults): Levels {
    Levels(Put(s.l1, key, value, f.l1), Put(s.l2, key, value, f.l2))
  }

  function Delete(s: Levels, key: Key, f: Faults): Levels {
    Levels(Drop(s.l1, key, f.l1), Drop(s.l2, key, f.l2))
  }

  function Clear(s: Levels, f: Faults): Levels {
    Levels(Empty(s.l1, f.l1), Empty(s.l2, f.l2))
  }

  // A failing L1 lookup counts as present, a failing L2 lookup as absent.
  predicate Exists(s: Levels, key: Key, f: Faults) {
    || (s.l1.Some? && (f.l1 || key in s.l1.value))
    || (s.l2.Some? && !f.l2 && key in s.l2.value)
  }

  // L1 may drop an entry at any moment.
  function Evict(s: Levels, key: Key): Levels {
    Levels(Drop(s.l1, key, false), s.l2)
  }

  // ---------- One map ----------

  ghost predicate Coherent(s: Levels) {
    s.l1.Some? && s.l2.Some? ==>
      forall k :: k in s.l1.value ==> k in s.l2.value && s.l2.value[k] == s.l1.value[k]
  }

  // The map the manager stands for.
  function View(s: Levels): Store {
    if s.l2.Some? then s.l2.value else if s.l1.Some? then s.l1.value else map[]
  }

  datatype Op = OpGet(key: Key) | OpSet(key: Key, value: Value) | OpDelete(key: Key)
              | OpExists(key: Key) | OpClear | OpEvict(key: Key)

  datatype Answer = Nothing | Got(value: Option<Value>) | Present(there: bool)

  function Apply(s: Levels, op: Op): (Answer, Levels) {
    match op
    case OpGet(k) => (Got(Get(s, k, HEALTHY).0), Get(s, k, HEALTHY).1)
    case OpSet(k, v) => (Nothing, Set(s, k, v, HEALTHY))
    case OpDelete(k) => (Nothing, Delete(s, k, HEALTHY))
    case OpExists(k) => (Present(Exists(s, k, HEALTHY)), s)
    case OpClear => (Nothing, Clear(s, HEALTHY))
    case OpEvict(k) => (Nothing, Evict(s, k))
  }

  // The same operations on a single map. Eviction is seen only when the map is
  // L1's own; with no level at all nothing can be kept.
  datatype Mode = Shared | LocalOnly | Off

  function ModeOf(s: Levels): Mode {
    if s.l2.Some? then Shared else if s.l1.Some? then LocalOnly else Off
  }

  function ApplySpec(mode: Mode, m: Store, op: Op): (Answer, Store) {
    match op
    case OpGet(k) => (Got(Find(Some(m), k)), m)
    case OpSet(k, v) => (Nothing, if mode.Off? then m else m[k := v])
    case OpDelete(k) => (Nothing, m - {k})
    case OpExists(k) => (Present(k in m), m)
    case OpClear => (Nothing, map[])
    case OpEvict(k) => (Nothing, if mode.LocalOnly? then m - {k} else m)
  }

  function Answers(s: Levels, ops: seq<Op>): seq<Answer>
    decreases |ops|
  {
    if ops == [] then [] else
      var (a, t) := Apply(s, ops[0]);
      [a] + Answers(t, ops[1..])
  }

  function AnswersSpec(mode: Mode, m: Store, ops: seq<Op>): seq<Answer>
    decreases |ops|
  {
    if ops == [] then [] else
      var (a, n) := ApplySpec(mode, m, ops[0]);
      [a] + AnswersSpec(mode, n, ops[1..])
  }

  lemma ApplyRefines(s: Levels, op: Op)
    requires Coherent(s)
    ensures var (a, t) := Apply(s, op);
            && Coherent(t) && ModeOf(t) == ModeOf(s)
            && (a, View(t)) == ApplySpec(ModeOf(s), View(s), op)
  {
  }

  // Healthy backends, with L1 evicting whenever it likes: every answer is that
  // of a single map, whichever levels are enabled.
  lemma {:induction false} RunRefines(s: Levels, ops: seq<Op>)
    requires Coherent(s)
    ensures Answers(s, ops) == AnswersSpec(ModeOf(s), View(s), ops)
    decreases |ops|
  {
    if ops != [] {
      ApplyRefines(s, ops[0]);
      RunRefines(Apply(s, ops[0]).1, ops[1..]);
    }
  }

  // ---------- What backend failures do ----------

  // The levels t are still one map, and it is m.
  ghost predicate Is(t: Levels, m: Store) {
    Coherent(t) && View(t) == m
  }

  // A level is none the worse for a failed write when it has the value already.
  predicate Holds(level: Option<Store>, key: Key, value: Value, fails: bool) {
    level.Some? && fails ==> Find(level, key) == Some(value)
  }

  // After a write, failing or not, the levels are the map with the value in it if
  // and only if L2 took the value or had it, and so did L1, which with an L2
  // behind it may also be without the key. Set reports success in every case.
  lemma SetExactly(s: Levels, key: Key, value: Value, f: Faults)
    requires Coherent(s) && !ModeOf(s).Off?
    ensures Is(Set(s, key, value, f), View(s)[key := value]) <==>
      && Holds(s.l2, key, value, f.l2)
      && (Holds(s.l1, key, value, f.l1) || (s.l2.Some? && key !in s.l1.value))
    // Otherwise the next read returns something else or what L2 does not hold.
    ensures !Is(Set(s, key, value, f), View(s)[key := value]) ==>
      var t := Set(s, key, value, f);
      Get(t, key, HEALTHY).0 != Some(value) || Find(t.l2, key) != Some(value)
  {
    var t := Set(s, key, value, f);
    if Is(t, View(s)[key := value]) { assert Find(Some(View(t)), key) == Some(value); }
    if Holds(s.l2, key, value, f.l2) && (Holds(s.l1, key, value, f.l1) || (s.l2.Some? && key !in s.l1.value)) {
      assert View(t) == View(s)[key := value];
    }
  }

  // After a delete they are the map without the key if and only if no level that
  // held it failed; otherwise the next read returns it all the same.
  lemma DeleteExactly(s: Levels, key: Key, f: Faults)
    requires Coherent(s)
    ensures Is(Delete(s, key, f), View(s) - {key}) <==>
      (Find(s.l1, key).Some? ==> !f.l1) && (Find(s.l2, key).Some? ==> !f.l2)
    ensures !Is(Delete(s, key, f), View(s) - {key}) ==>
      Get(Delete(s, key, f), key, HEALTHY).0 == Find(Some(View(s)), key) != None
  {
    var t := Delete(s, key, f);
    if (Find(s.l1, key).Some? ==> !f.l1) && (Find(s.l2, key).Some? ==> !f.l2) {
      assert View(t) == View(s) - {key};
    }
  }

  // After a clear they are the empty map if and only if every level with something
  // in it was cleared; otherwise some key is read as before.
  lemma ClearExactly(s: Levels, f: Faults)
    requires Coherent(s)
    ensures Is(Clear(s, f), map[]) <==>
      (s.l1.Some? && f.l1 ==> s.l1.value == map[]) && (s.l2.Some? && f.l2 ==> s.l2.value == map[])
    ensures !Is(Clear(s, f), map[]) ==>
      exists k :: k in View(s) && Get(Clear(s, f), k, HEALTHY).0 == Some(View(s)[k])
  {
    var t := Clear(s, f);
    if s.l1.Some? && f.l1 && s.l1.value != map[] {
      var k :| k in s.l1.value;
      assert k in t.l1.value && k in View(s);
      assert Get(t, k, HEALTHY).0 == Some(View(s)[k]);
    } else if s.l2.Some? && f.l2 && s.l2.value != map[] {
      var k :| k in s.l2.value;
      assert k in t.l2.value && k in View(s);
      assert Get(t, k, HEALTHY).0 == Some(View(s)[k]);
    } else {
      assert View(t) == map[];
    }
  }

  // A presence check is wrong exactly when L1 fails on a key that is not there,
  // or answers that it has not the key that L2 then fails on.
  lemma ExistsExactly(s: Levels, key: Key, f: Faults)
    requires Coherent(s)
    ensures (Exists(s, key, f) <==> key in View(s)) <==>
      if s.l1.Some? && f.l1 then key in View(s)
      else !(Find(s.l1, key).None? && Find(s.l2, key).Some? && f.l2)
  {
  }

  // On coherent levels a read, failing or not, never returns a wrong value: it
  // returns the map's value or a miss, and a miss of a key that is there exactly
  // when every level that holds it fails.
  lemma GetExactly(s: Levels, key: Key, f: Faults)
    requires Coherent(s)
    ensures var (r, t) := Get(s, key, f);
            && Coherent(t) && View(t) == View(s)
            && (r.Some? ==> r == Find(Some(View(s)), key))
            && (r.None? <==> (Find(s.l1, key).Some? ==> f.l1) && (Find(s.l2, key).Some? ==> f.l2))
  {
  }
}
