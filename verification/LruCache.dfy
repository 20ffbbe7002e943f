// The cache itself: a doubly linked list threaded through the items, and a map
// from keys to items.
module LruCaches {
  import opened Wrappers
  import opened RecencyList
  import opened Sequences

  class Item<K, V> {
    const key: K
    var value: V
    var prev: Item?<K, V>
    var next: Item?<K, V>

    constructor (key: K, value: V)
      ensures this.key == key && this.value == value && prev == null && next == null
    {
      this.key := key;
      this.value := value;
      prev, next := null, null;
    }
  }

  // The neighbours of position i in a list of items.
  ghost function Before<K, V>(s: seq<Item<K, V>>, i: nat): Item?<K, V>
    requires i < |s|
  {
    if i == 0 then null else s[i - 1]
  }

  ghost function After<K, V>(s: seq<Item<K, V>>, i: nat): Item?<K, V>
    requires i < |s|
  {
    if i == |s| - 1 then null else s[i + 1]
  }

  // The entries es describe the items ns, position by position.
  ghost predicate Matches<K, V>(ns: seq<Item<K, V>>, es: seq<Entry<K, V>>)
    reads ns`value
  {
    |ns| == |es| && forall i :: 0 <= i < |ns| ==> es[i] == Entry(ns[i].key, ns[i].value)
  }

  // The map holds exactly the items of the list, each under its own key: every
  // item is found under its key, and there are no further keys.
  ghost predicate Indexed<K, V>(cache: map<K, Item<K, V>>, ns: seq<Item<K, V>>) {
    && (forall i :: 0 <= i < |ns| ==> ns[i].key in cache && cache[ns[i].key] == ns[i])
    && |cache| == |ns|
  }

  lemma IndexedMoved<K, V>(cache: map<K, Item<K, V>>, ns: seq<Item<K, V>>, p: nat)
    requires Indexed(cache, ns) && p < |ns|
    ensures Indexed(cache, [ns[p]] + Cut(ns, p))
  {
  }

  lemma IndexedCut<K, V>(cache: map<K, Item<K, V>>, ns: seq<Item<K, V>>, p: nat)
    requires Indexed(cache, ns) && p < |ns|
    requires forall i :: 0 <= i < |ns| && i != p ==> ns[i] != ns[p]
    ensures Indexed(cache - {ns[p].key}, Cut(ns, p))
  {
    var smaller := cache - {ns[p].key};
    assert smaller.Keys == cache.Keys - {ns[p].key};
    assert |smaller| == |smaller.Keys| && |cache| == |cache.Keys|;
    forall i | 0 <= i < |ns| - 1 ensures Cut(ns, p)[i].key != ns[p].key {
      assert Cut(ns, p)[i] == ns[if i < p then i else i + 1];
    }
  }

  lemma IndexedAdded<K, V>(cache: map<K, Item<K, V>>, ns: seq<Item<K, V>>, item: Item<K, V>)
    requires Indexed(cache, ns) && item.key !in cache
    ensures Indexed(cache[item.key := item], [item] + ns) && item !in ns
  {
    assert cache[item.key := item].Keys == cache.Keys + {item.key};
    assert |cache| == |cache.Keys|;
  }

  lemma MatchesMoved<K, V>(ns: seq<Item<K, V>>, es: seq<Entry<K, V>>, p: nat)
    requires Matches(ns, es) && p < |ns|
    ensures Matches(Cut(ns, p), Cut(es, p))
    ensures Matches([ns[p]] + Cut(ns, p), [es[p]] + Cut(es, p))
  {
    forall i | 0 <= i < |ns| - 1 ensures Cut(es, p)[i] == Entry(Cut(ns, p)[i].key, Cut(ns, p)[i].value) {
      var j := if i < p then i else i + 1;
      assert Cut(ns, p)[i] == ns[j] && Cut(es, p)[i] == es[j];
    }
  }

  class LruCache<K(==), V> {
    const capacity: int
    var cache: map<K, Item<K, V>>
    var head: Item?<K, V>
    var tail: Item?<K, V>

    // The operations so far.
    ghost var history: seq<Op<K, V>>

    // Every item this cache has ever made.
    ghost var repr: set<Item<K, V>>

    // The items in list order, head first.
    ghost var nodes: seq<Item<K, V>>

    // The abstract value: the entries in recency order.
    ghost var contents: seq<Entry<K, V>>

    // The prev/next chain from head to tail is exactly nodes, without repetition.
    ghost predicate Linked()
      reads this`head, this`tail, this`nodes, this`repr, nodes`prev, nodes`next
    {
      && (forall i, j :: 0 <= i < j < |nodes| ==> nodes[i] != nodes[j])
      && (if nodes == [] then head == null && tail == null
          else head == nodes[0] && tail == nodes[|nodes| - 1])
      && (forall i :: 0 <= i < |nodes| ==> LinkedAt(i))
      && (forall i :: 0 <= i < |nodes| ==> nodes[i] in repr)
    }

    ghost predicate LinkedAt(i: nat)
      requires i < |nodes|
      reads this`nodes, nodes`prev, nodes`next
    {
      nodes[i].prev == Before(nodes, i) && nodes[i].next == After(nodes, i)
    }

    // List, map and abstract value agree; only the bound on the length is left out.
    ghost predicate Consistent()
      reads this, nodes
    {
      Linked() && Indexed(cache, nodes) && Matches(nodes, contents)
    }

    ghost predicate Bounded()
      reads this, nodes
    {
      Consistent() && capacity >= 1 && |nodes| <= capacity
    }

    ghost predicate Valid()
      reads this, nodes
    {
      Bounded() && contents == Run(capacity, history)
    }

    constructor (capacity: int)
      ensures Valid() && this.capacity == (if capacity <= 0 then 10 else capacity)
      ensures contents == [] && history == [] && fresh(repr)
    {
      this.capacity := if capacity <= 0 then DEFAULT_CAPACITY else capacity;
      cache := map[];
      head, tail := null, null;
      nodes := [];
      contents, history := [], [];
      repr := {};
    }

    method AddToHead(item: Item<K, V>)
      requires Linked() && item in repr && item !in nodes && item.prev == null && item.next == null
      modifies this`head, this`tail, this`nodes, repr`prev, item`next
      ensures nodes == [item] + old(nodes) && Linked()
    {
      nodes := [item] + nodes;
      if head == null {
        head := item;
        tail := item;
        return;
      }
      assert old(LinkedAt(0));
      item.next := head;
      head.prev := item;
      head := item;
      forall i | 0 <= i < |nodes| ensures LinkedAt(i) {
        if i > 0 { assert old(LinkedAt(i - 1)); }
      }
    }

    method RemoveItem(item: Item<K, V>, ghost p: nat)
      requires Linked() && p < |nodes| && nodes[p] == item
      modifies this`head, this`tail, this`nodes, repr`prev, repr`next
      ensures nodes == Cut(old(nodes), p) && Linked()
      ensures item !in nodes
      ensures item.prev == null && item.next == null
    {
      assert LinkedAt(p);
      assert p > 0 ==> LinkedAt(p - 1);
      assert p + 1 < |nodes| ==> LinkedAt(p + 1);
      if item.prev != null {
        item.prev.next := item.next;
      }
      if item.next != null {
        item.next.prev := item.prev;
      }
      if item == head {
        head := item.next;
      }
      if item == tail {
        tail := item.prev;
      }
      item.prev := null;
      item.next := null;
      nodes := Cut(nodes, p);
      forall i | 0 <= i < |nodes| ensures LinkedAt(i) {
        var j := if i < p then i else i + 1;
        assert nodes[i] == old(nodes)[j] && old(LinkedAt(j));
      }
    }

    method MoveToHead(item: Item<K, V>, ghost p: nat)
      requires Linked() && p < |nodes| && nodes[p] == item
      modifies this`head, this`tail, this`nodes, repr`prev, repr`next
      ensures Linked() && nodes == [item] + Cut(old(nodes), p)
    {
      if item == head {
        assert p == 0;
        assert nodes == [item] + Cut(nodes, p);
      } else {
        RemoveItem(item, p);
        AddToHead(item);
      }
    }

    // MoveToHead together with the abstract value.
    method Promote(item: Item<K, V>, ghost p: nat)
      requires Consistent() && p < |nodes| && nodes[p] == item
      modifies this`head, this`tail, this`nodes, this`contents, repr`prev, repr`next
      ensures Consistent() && |nodes| == old(|nodes|) && repr == old(repr)
      ensures contents == [old(contents)[p]] + Cut(old(contents), p)
    {
      ghost var ns, es := nodes, contents;
      MoveToHead(item, p);
      contents := [es[p]] + Cut(es, p);
      assert Matches(ns, es);
      MatchesMoved(ns, es, p);
      IndexedMoved(cache, ns, p);
    }

    // Puts a new item in the map, in front of the list and of the abstract value.
    method Insert(item: Item<K, V>)
      requires Consistent() && item.key !in cache && item.prev == null && item.next == null
      modifies this`cache, this`head, this`tail, this`nodes, this`contents, this`repr, repr`prev, item`prev, item`next
      ensures Consistent() && |nodes| == old(|nodes|) + 1 && repr == old(repr) + {item}
      ensures contents == [Entry(item.key, item.value)] + old(contents)
    {
      IndexedAdded(cache, nodes, item);
      repr := repr + {item};
      cache := cache[item.key := item];
      contents := [Entry(item.key, item.value)] + contents;
      AddToHead(item);
    }

    // Takes the item at p out of the list, the map and the abstract value.
    method Detach(item: Item<K, V>, ghost p: nat)
      requires Consistent() && p < |nodes| && nodes[p] == item
      modifies this`cache, this`head, this`tail, this`nodes, this`contents, repr`prev, repr`next
      ensures Consistent() && |nodes| == old(|nodes|) - 1 && repr == old(repr)
      ensures contents == Cut(old(contents), p)
    {
      ghost var es := contents;
      IndexedCut(cache, nodes, p);
      cache := cache - {item.key};
      contents := Cut(es, p);
      MatchesMoved(nodes, es, p);
      RemoveItem(item, p);
    }

    method RemoveTail()
      requires Consistent()
      modifies this`cache, this`head, this`tail, this`nodes, this`contents, repr`prev, repr`next
      ensures Consistent() && repr == old(repr)
      ensures old(nodes) == [] ==> nodes == []
      ensures old(nodes) != [] ==> |nodes| == old(|nodes|) - 1 && contents == Init(old(contents))
    {
      if tail != null {
        Detach(tail, |nodes| - 1);
      }
    }

    lemma ContentsUnique()
      requires Consistent()
      ensures Unique(contents) && |cache| == |nodes|
      ensures cache.Keys == Keys(contents)
    {
      assert forall i, j :: 0 <= i < j < |nodes| ==> nodes[i].key != nodes[j].key;
      KeysSize(contents);
      forall k | k in Keys(contents) ensures k in cache.Keys {
        var i :| 0 <= i < |contents| && contents[i].key == k;
        assert nodes[i].key in cache;
      }
      SameSize(Keys(contents), cache.Keys);
    }

    // What each operation does to the recency list, when the key is in the map
    // (at position p of the list) and when it is not.
    lemma Hit(key: K, value: V) returns (p: nat)
      requires Bounded() && key in cache
      ensures p < |nodes| && nodes[p] == cache[key] && nodes[p].key == key
      ensures Lookup(contents, key) == Some(nodes[p].value)
      ensures Step(capacity, contents, Op.Set(key, value)) == [Entry(key, value)] + Cut(contents, p)
      ensures Step(capacity, contents, Op.Get(key)) == [Entry(key, nodes[p].value)] + Cut(contents, p)
      ensures Step(capacity, contents, Op.Delete(key)) == Cut(contents, p)
    {
      ContentsUnique();
      assert key in Keys(contents);
      p :| 0 <= p < |contents| && contents[p].key == key;
      assert contents[p] in contents;
      LookupMember(contents, contents[p]);
      WithoutAt(contents, p);
    }

    lemma NotHeld(key: K)
      requires Bounded() && key !in cache
      ensures !Has(contents, key)
    {
      ContentsUnique();
      forall e | e in contents ensures e.key != key {
        assert e.key in Keys(contents);
      }
    }

    lemma Miss(key: K)
      requires Bounded() && key !in cache
      ensures Lookup(contents, key) == None
      ensures Step(capacity, contents, Op.Get(key)) == contents
      ensures Step(capacity, contents, Op.Delete(key)) == contents
    {
      NotHeld(key);
      StepMissing(capacity, contents, key);
    }

    lemma MissSet(key: K, value: V)
      requires Bounded() && key !in cache
      ensures Step(capacity, contents, Op.Set(key, value)) == Trim(capacity, [Entry(key, value)] + contents)
    {
      NotHeld(key);
      WithoutFresh(contents, key);
    }

    // The second half of Set, for a key that is not cached.
    method SetNew(key: K, value: V)
      requires Bounded() && key !in cache
      modifies this`cache, this`head, this`tail, this`nodes, this`contents, this`repr, repr`prev, repr`next
      ensures Bounded() && forall n :: n in repr ==> n in old(repr) || fresh(n)
      ensures contents == Step(capacity, old(contents), Op.Set(key, value))
    {
      MissSet(key, value);
      var item := new Item(key, value);
      Insert(item);
      ContentsUnique();
      assert forall n :: n in repr ==> n in old(repr) || n == item;
      if |cache| > capacity {
        RemoveTail();
      }
    }

    // The first half of Set, for a key that is.
    method SetExisting(key: K, value: V)
      requires Bounded() && key in cache
      modifies this`head, this`tail, this`nodes, this`contents, repr
      ensures Bounded()
      ensures contents == Step(capacity, old(contents), Op.Set(key, value))
    {
      ghost var p := Hit(key, value);
      assert Cut(contents[p := Entry(key, value)], p) == Cut(contents, p);
      var item := cache[key];
      item.value := value;
      contents := contents[p := Entry(key, value)];
      Promote(item, p);
    }

    method Set(key: K, value: V)
      requires Valid()
      modifies this, repr
      ensures Valid() && forall n :: n in repr ==> n in old(repr) || fresh(n)
      ensures contents == Step(capacity, old(contents), Op.Set(key, value))
      ensures history == old(history) + [Op.Set(key, value)]
    {
      ghost var log := history + [Op.Set(key, value)];
      RunExtends(capacity, history, Op.Set(key, value));
      if key in cache {
        SetExisting(key, value);
      } else {
        SetNew(key, value);
      }
      history := log;
    }

    method Get(key: K) returns (r: Option<V>)
      requires Valid()
      modifies this, repr
      ensures Valid() && repr == old(repr)
      ensures r == Lookup(old(contents), key)
      ensures r.Some? ==> key in Plain(old(history)) && r.value == Plain(old(history))[key]
      ensures contents == Step(capacity, old(contents), Op.Get(key))
      ensures history == old(history) + [Op.Get(key)]
    {
      if key !in cache {
        Miss(key);
        r := None;
      } else {
        var item := cache[key];
        ghost var p := Hit(key, item.value);
        NeverStale(capacity, history, key);
        Promote(item, p);
        r := Some(item.value);
      }
      RunExtends(capacity, history, Op.Get(key));
      history := history + [Op.Get(key)];
    }

    // Delete, for a key that is cached.
    method DeleteExisting(key: K)
      requires Bounded() && key in cache
      modifies this`cache, this`head, this`tail, this`nodes, this`contents, repr`prev, repr`next
      ensures Bounded() && repr == old(repr)
      ensures contents == Step(capacity, old(contents), Op.Delete(key))
    {
      ghost var p := Hit(key, cache[key].value);
      Detach(cache[key], p);
    }

    method Delete(key: K)
      requires Valid()
      modifies this, repr
      ensures Valid() && repr == old(repr)
      ensures contents == Step(capacity, old(contents), Op.Delete(key))
      ensures history == old(history) + [Op.Delete(key)]
    {
      RunExtends(capacity, history, Op.Delete(key));
      ghost var log := history + [Op.Delete(key)];
      if key in cache {
        DeleteExisting(key);
      } else {
        Miss(key);
      }
      history := log;
    }

    method Len() returns (n: nat)
      requires Valid()
      ensures n == |contents| <= capacity
    {
      ContentsUnique();
      n := |cache|;
    }

    method Clear()
      requires Valid()
      modifies this
      ensures Valid() && repr == old(repr)
      ensures contents == Step(capacity, old(contents), Op.Clear)
      ensures history == old(history) + [Op.Clear]
    {
      RunExtends(capacity, history, Op.Clear);
      history := history + [Op.Clear];
      cache := map[];
      head := null;
      tail := null;
      nodes := [];
      contents := [];
    }
  }
}
