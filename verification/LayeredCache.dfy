/** `L2RedisCache` and `ThreeLayerCache` as objects, proved against the value-level
    read-through cache. */
module LayeredCache {
  import opened Common
  import L1Spec
  import opened L1Cache
  import opened Layered

  class L2RedisCache {
    const defaultTtl: real
    /** Whether a Redis client exists. */
    var connected: bool
    /** What the Redis server holds. */
    var store: Redis

    constructor (defaultTtl: real, store: Redis)
      ensures this.defaultTtl == defaultTtl && this.store == store && !connected
    {
      this.defaultTtl, this.store, this.connected := defaultTtl, store, false;
    }

    method Get(key: string, tenant: Option<string>, now: real) returns (value: L1Spec.Value)
      modifies this`store
      ensures if connected then (store, value) == L2Get(old(store), L1Spec.MakeKey(key, tenant), now)
              else store == old(store) && value == L1Spec.Null
    {
      if !connected {
        return L1Spec.Null;
      }
      var fullKey := RedisKey(L1Spec.MakeKey(key, tenant));
      if !Live(store, fullKey, now) || store[fullKey].Hash? {
        return L1Spec.Null;
      }
      value := store[fullKey].value;
      match HSet(store, fullKey + ":meta", now) {
        case None => value := L1Spec.Null;
        case Some(updated) => store := updated;
      }
    }

    method Set(key: string, value: L1Spec.Value, ttl: Option<real>, tenant: Option<string>, now: real)
      modifies this`store
      ensures store == if connected then L2Set(old(store), L1Spec.MakeKey(key, tenant), value, ttl, defaultTtl, now) else old(store)
    {
      if !connected {
        return;
      }
      var fullKey := RedisKey(L1Spec.MakeKey(key, tenant));
      var seconds := Trunc(L1Spec.EffectiveTtl(ttl, defaultTtl));
      if seconds <= 0 {
        return;
      }
      var expiry := now + seconds as real;
      store := store[fullKey := Str(value, expiry)];
      match HSet(store, fullKey + ":meta", now) {
        case None =>
        case Some(updated) => store := updated[fullKey + ":meta" := Hash(Some(expiry))];
      }
    }

    method Delete(key: string, tenant: Option<string>, now: real) returns (deleted: bool)
      modifies this`store
      ensures if connected then (store, deleted) == L2Delete(old(store), L1Spec.MakeKey(key, tenant), now)
              else store == old(store) && !deleted
    {
      if !connected {
        return false;
      }
      var fullKey := RedisKey(L1Spec.MakeKey(key, tenant));
      deleted := Live(store, fullKey, now) || Live(store, fullKey + ":meta", now);
      store := store - {fullKey, fullKey + ":meta"};
    }
  }

  class ThreeLayerCache {
    const l1: L1MemoryCache
    const l2: L2RedisCache
    var initialized: bool

    ghost function State(): Cache
      reads this, l1, l2
    {
      Cache(l1.State, l2.store, l2.defaultTtl, initialized)
    }

    ghost predicate Valid()
      reads this, l1, l1.cache.Values, l2
    {
      l1.Valid() && (initialized ==> l2.connected)
    }

    constructor (l1Size: int, l1Ttl: real, l2Ttl: real)
      ensures Valid() && fresh(l1) && fresh(l2) && l1.cache.Values == {}
      ensures State() == New(l1Size, l1Ttl, l2Ttl, false)
    {
      l1 := new L1MemoryCache(l1Size, l1Ttl);
      l2 := new L2RedisCache(l2Ttl, map[]);
      initialized := false;
    }

    /** The client exists from here on; the cache uses it only if the ping answered. */
    method Initialize(pingOk: bool)
      requires Valid()
      modifies this, l2`connected
      ensures Valid() && State() == old(State()).(initialized := old(initialized) || pingOk)
    {
      l2.connected := true;
      if pingOk {
        initialized := true;
      }
    }

    method Get(key: string, tenant: Option<string>, now: real) returns (value: L1Spec.Value)
      requires Valid()
      modifies l1, l1.cache.Values, l2`store
      ensures Valid() && fresh(l1.cache.Values - old(l1.cache.Values))
      ensures (State(), value) == CacheGet(old(State()), key, tenant, now)
    {
      value := l1.Get(key, tenant, now);
      if value != L1Spec.Null {
        return;
      }
      if initialized {
        value := l2.Get(key, tenant, now);
        if value != L1Spec.Null {
          l1.Set(key, value, None, tenant, now);
          return;
        }
      }
    }

    method Set(key: string, value: L1Spec.Value, ttl: Option<real>, tenant: Option<string>, on: Levels, now: real)
      requires Valid()
      modifies l1, l2`store
      ensures Valid() && fresh(l1.cache.Values - old(l1.cache.Values))
      ensures State() == CacheSet(old(State()), key, value, ttl, tenant, on, now)
    {
      if on.l1 {
        l1.Set(key, value, ttl, tenant, now);
      }
      if on.l2 && initialized {
        l2.Set(key, value, ttl, tenant, now);
      }
    }

    method Delete(key: string, tenant: Option<string>, on: Levels, now: real) returns (deleted: bool)
      requires Valid()
      modifies l1, l2`store
      ensures Valid() && l1.cache.Values <= old(l1.cache.Values)
      ensures (State(), deleted) == CacheDelete(old(State()), key, tenant, on, now)
    {
      deleted := false;
      if on.l1 {
        deleted := l1.Delete(key, tenant);
      }
      var found := DeleteFromRedis(key, tenant, on, now);
      deleted := deleted || found;
    }

    method DeleteFromRedis(key: string, tenant: Option<string>, on: Levels, now: real) returns (found: bool)
      requires Valid()
      modifies l2`store
      ensures Valid()
      ensures (l2.store, found) == if on.l2 && initialized then L2Delete(old(l2.store), L1Spec.MakeKey(key, tenant), now)
                                   else (old(l2.store), false)
    {
      found := false;
      if on.l2 && initialized {
        found := l2.Delete(key, tenant, now);
      }
    }

    /** Deletes `keys[i]` from the in-memory layer, the first `i` being gone. */
    method DropFromMemory(keys: seq<string>, i: nat, ghost s: L1Spec.L1) returns (deleted: bool)
      requires i < |keys| && Distinct(keys) && keys[i] in s.cache
      requires Valid() && l1.State == L1Spec.Discard(s, Elems(keys[..i]))
      modifies l1
      ensures Valid() && l1.State == L1Spec.Discard(s, Elems(keys[..i + 1]))
      ensures deleted
    {
      deleted := l1.DeleteNext(keys, i, s);
    }

    /** Clears the in-memory layer by entry field; the Redis branch only logs its failure. */
    method ClearTenant(tenant: string) returns (cleared: nat)
      requires Valid()
      modifies l1
      ensures Valid() && l1.cache.Values <= old(l1.cache.Values)
      ensures (State(), cleared) == CacheClear(old(State()), tenant)
    {
      var others := set k | k in l1.cache && l1.cache[k].tenant != Some(tenant);
      var keys := Filter(l1.order, others);
      TenantFieldList(l1.State, tenant, others);
      cleared := l1.DeleteAll(keys);
    }
  }

  lemma TenantFieldList(s: L1Spec.L1, tenant: string, others: set<string>)
    requires L1Spec.InStep(s)
    requires others == set k | k in s.cache && s.cache[k].tenant != Some(tenant)
    ensures var keys := Filter(s.order, others);
      && Distinct(keys) && (forall k :: k in keys ==> k in s.cache)
      && Elems(keys) == L1Spec.TenantFieldKeys(s, tenant)
      && |keys| == |L1Spec.TenantFieldKeys(s, tenant)|
  {
    FilterMembers(s.order, others);
    DistinctCardinality(Filter(s.order, others));
  }
}
