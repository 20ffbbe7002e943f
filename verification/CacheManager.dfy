// The cache manager over its two levels, which it updates in place.
module CacheManager {
  import opened Wrappers
  import opened CacheLevels

  datatype CacheError = Disabled | Miss | Backend

  // One level. The two kinds differ in what Exists says when the lookup fails.
  class Level {
    const enabled: bool
    const local: bool
    var store: Store

    constructor (enabled: bool, local: bool)
      ensures this.enabled == enabled && this.local == local && store == map[]
    {
      this.enabled, this.local := enabled, local;
      store := map[];
    }

    // The level's contents, None when it is disabled.
    function Contents(): Option<Store>
      reads this
    {
      if enabled then Some(store) else None
    }

    method Get(key: Key, fails: bool) returns (r: Result<Value, CacheError>)
      ensures r.Ok? <==> ReadFrom(Contents(), key, fails).Some?
      ensures r.Ok? ==> Some(r.value) == Find(Contents(), key)
      ensures r.Err? ==> r.error == if !enabled then Disabled else if fails then Backend else Miss
    {
      if !enabled {
        return Err(Disabled);
      } else if fails {
        return Err(Backend);
      } else if key !in store {
        return Err(Miss);
      }
      return Ok(store[key]);
    }

    method Set(key: Key, value: Value, fails: bool) returns (r: Result<(), CacheError>)
      modifies this
      ensures r.Ok? <==> enabled && !fails
      ensures r.Err? ==> r.error == if !enabled then Disabled else Backend
      ensures Contents() == CacheLevels.Put(old(Contents()), key, value, fails)
    {
      if !enabled {
        return Err(Disabled);
      } else if fails {
        return Err(Backend);
      }
      store := store[key := value];
      return Ok(());
    }

    // The local backend reports a key that is not there, Redis does not.
    method Delete(key: Key, fails: bool) returns (r: Result<(), CacheError>)
      modifies this
      ensures r.Ok? <==> enabled && !fails && (local ==> key in old(store))
      ensures r.Err? ==> r.error == if !enabled then Disabled else Backend
      ensures Contents() == CacheLevels.Drop(old(Contents()), key, fails)
    {
      if !enabled {
        return Err(Disabled);
      } else if fails {
        return Err(Backend);
      } else if local && key !in store {
        assert store - {key} == store;
        return Err(Backend);
      }
      store := store - {key};
      return Ok(());
    }

    method Exists(key: Key, fails: bool) returns (r: bool)
      ensures !fails ==> (r <==> Find(Contents(), key).Some?)
      ensures fails ==> (r <==> enabled && local)
    {
      r := enabled && if fails then local else key in store;
    }

    method Clear(fails: bool) returns (r: Result<(), CacheError>)
      modifies this
      ensures r.Ok? <==> enabled && !fails
      ensures r.Err? ==> r.error == if !enabled then Disabled else Backend
      ensures Contents() == CacheLevels.Empty(old(Contents()), fails)
    {
      if !enabled {
        return Err(Disabled);
      } else if fails {
        return Err(Backend);
      }
      store := map[];
      return Ok(());
    }
  }

  class Manager {
    const l1: Level
    const l2: Level

    ghost predicate Valid() {
      l1 != l2 && l1.local && !l2.local
    }

    function State(): Levels
      reads l1, l2
    {
      Levels(l1.Contents(), l2.Contents())
    }

    constructor (l1Enabled: bool, l2Enabled: bool)
      ensures Valid() && fresh(l1) && fresh(l2)
      ensures State() == Levels(if l1Enabled then Some(map[]) else None, if l2Enabled then Some(map[]) else None)
    {
      l1 := new Level(l1Enabled, true);
      l2 := new Level(l2Enabled, false);
    }

    // None stands for ErrCacheMiss, the only error Get returns.
    method Get(key: Key, f: Faults) returns (r: Option<Value>)
      requires Valid()
      modifies l1
      ensures (r, State()) == CacheLevels.Get(old(State()), key, f)
    {
      var first := l1.Get(key, f.l1);
      if first.Ok? {
        return Some(first.value);
      }
      var second := l2.Get(key, f.l2);
      if second.Ok? {
        var filled := l1.Set(key, second.value, f.fill);
        return Some(second.value);
      }
      return None;
    }

    method Set(key: Key, value: Value, f: Faults)
      requires Valid()
      modifies l1, l2
      ensures State() == CacheLevels.Set(old(State()), key, value, f)
    {
      var first := l1.Set(key, value, f.l1);
      var second := l2.Set(key, value, f.l2);
    }

    method Delete(key: Key, f: Faults)
      requires Valid()
      modifies l1, l2
      ensures State() == CacheLevels.Delete(old(State()), key, f)
    {
      var first := l1.Delete(key, f.l1);
      var second := l2.Delete(key, f.l2);
    }

    method Exists(key: Key, f: Faults) returns (r: bool)
      requires Valid()
      ensures r == CacheLevels.Exists(State(), key, f)
    {
      r := l1.Exists(key, f.l1);
      if !r {
        r := l2.Exists(key, f.l2);
      }
    }

    method Clear(f: Faults)
      requires Valid()
      modifies l1, l2
      ensures State() == CacheLevels.Clear(old(State()), f)
    {
      var first := l1.Clear(f.l1);
      var second := l2.Clear(f.l2);
    }
  }
}
