/** `L1MemoryCache` as an object: a map of mutable entry objects beside an access
    order, updated in place and proved against the value-level specification. */
module L1Cache {
  import opened Common
  import opened L1Spec

  class CacheEntry {
    const key: string
    const value: Value
    const createdAt: real
    var lastAccessed: real
    var accessCount: nat
    const ttl: Option<real>
    const tenant: Option<string>

    constructor (key: string, value: Value, now: real, ttl: Option<real>, tenant: Option<string>)
      ensures Snapshot() == Entry(key, value, now, now, 1, ttl, tenant)
    {
      this.key, this.value, this.createdAt, this.lastAccessed := key, value, now, now;
      this.accessCount, this.ttl, this.tenant := 1, ttl, tenant;
    }

    function Snapshot(): Entry
      reads this
    {
      Entry(key, value, createdAt, lastAccessed, accessCount, ttl, tenant)
    }

    predicate IsExpired(now: real) {
      ttl.Some? && now - createdAt > ttl.value
    }

    method RecordAccess(now: real)
      modifies this
      ensures Snapshot() == old(Snapshot()).Touched(now)
    {
      lastAccessed := now;
      accessCount := accessCount + 1;
    }
  }

  class L1MemoryCache {
    const maxSize: int
    const defaultTtl: real
    var cache: map<string, CacheEntry>
    var order: seq<string>
    /** The value the object stands for. */
    ghost var State: L1

    /** The fields hold exactly `State`. Entry objects are not shared between keys,
        since each carries its own key. */
    ghost predicate Linked()
      reads this, cache.Values
    {
      && State.maxSize == maxSize && State.defaultTtl == defaultTtl
      && State.order == order
      && State.cache.Keys == cache.Keys
      && (forall k :: k in cache ==> cache[k].key == k && cache[k].Snapshot() == State.cache[k])
    }

    ghost predicate Valid()
      reads this, cache.Values
    {
      Linked() && Inv(State)
    }

    constructor (maxSize: int, defaultTtl: real)
      ensures Valid() && cache.Values == {}
      ensures State == Empty(maxSize, defaultTtl)
    {
      this.maxSize, this.defaultTtl := maxSize, defaultTtl;
      cache, order := map[], [];
      State := Empty(maxSize, defaultTtl);
    }

    method RemoveEntry(fullKey: string) returns (removed: bool)
      requires Linked() && InStep(State)
      modifies this
      ensures Linked() && cache == old(cache) - {fullKey}
      ensures State == Discard(old(State), {fullKey})
      ensures removed == (fullKey in old(State.cache))
    {
      removed := fullKey in cache;
      if removed {
        cache := cache - {fullKey};
        order := Filter(order, {fullKey});
      } else {
        DiscardAbsent(State, {fullKey});
      }
      State := Discard(State, {fullKey});
    }

    method Get(key: string, tenant: Option<string>, now: real) returns (value: Value)
      requires Valid()
      modifies this, cache.Values
      ensures Valid() && cache.Values <= old(cache.Values)
      ensures (State, value) == L1Spec.Get(old(State), MakeKey(key, tenant), now)
    {
      var fullKey := MakeKey(key, tenant);
      GetKeepsInv(State, fullKey, now);
      if fullKey !in cache {
        return Null;
      }
      var entry := cache[fullKey];
      if entry.IsExpired(now) {
        var _ := RemoveEntry(fullKey);
        return Null;
      }
      Touch(fullKey, now);
      return entry.value;
    }

    method Touch(fullKey: string, now: real)
      requires Linked() && Hit(State, fullKey, now)
      modifies this, cache[fullKey]
      ensures Linked() && cache == old(cache)
      ensures State == L1Spec.Get(old(State), fullKey, now).0
    {
      cache[fullKey].RecordAccess(now);
      order := Filter(order, {fullKey}) + [fullKey];
      State := L1Spec.Get(State, fullKey, now).0;
    }

    method Set(key: string, value: Value, ttl: Option<real>, tenant: Option<string>, now: real)
      requires Valid()
      modifies this
      ensures Valid() && fresh(cache.Values - old(cache.Values))
      ensures State == L1Spec.Set(old(State), MakeKey(key, tenant), value, ttl, tenant, now)
    {
      var fullKey := MakeKey(key, tenant);
      SetKeepsInv(State, fullKey, value, ttl, tenant, now);
      StoreInStep(State, fullKey, NewEntry(State, fullKey, value, ttl, tenant, now));
      StoreEntry(fullKey, value, ttl, tenant, now);
      assert |cache| == |cache.Keys| && |State.cache| == |State.cache.Keys|;
      if |cache| > maxSize {
        EvictLru();
      }
    }

    method StoreEntry(fullKey: string, value: Value, ttl: Option<real>, tenant: Option<string>, now: real)
      requires Linked()
      modifies this
      ensures Linked() && fresh(cache.Values - old(cache.Values))
      ensures State == Store(old(State), fullKey, NewEntry(old(State), fullKey, value, ttl, tenant, now))
    {
      var entry := new CacheEntry(fullKey, value, now, Some(EffectiveTtl(ttl, defaultTtl)), tenant);
      cache := cache[fullKey := entry];
      order := if fullKey in order then order else order + [fullKey];
      State := Store(State, fullKey, entry.Snapshot());
    }

    method EvictLru()
      requires Linked() && InStep(State)
      modifies this
      ensures Linked() && cache.Values <= old(cache.Values)
      ensures State == L1Spec.EvictLru(old(State))
    {
      if order != [] {
        var oldest := order[0];
        var _ := RemoveEntry(oldest);
      }
    }

    method Delete(key: string, tenant: Option<string>) returns (removed: bool)
      requires Valid()
      modifies this
      ensures Valid() && cache == old(cache) - {MakeKey(key, tenant)}
      ensures cache.Values <= old(cache.Values)
      ensures State == Discard(old(State), {MakeKey(key, tenant)})
      ensures removed == (MakeKey(key, tenant) in old(State.cache))
    {
      DiscardKeepsInv(State, {MakeKey(key, tenant)});
      removed := RemoveEntry(MakeKey(key, tenant));
    }

    /** Deletes full key `keys[i]`, the first `i` being gone already. */
    method DeleteNext(keys: seq<string>, i: nat, ghost s: L1) returns (removed: bool)
      requires i < |keys| && Distinct(keys)
      requires Valid() && State == Discard(s, Elems(keys[..i]))
      modifies this
      ensures Valid() && cache == old(cache) - {keys[i]}
      ensures State == Discard(s, Elems(keys[..i + 1]))
      ensures removed == (keys[i] in s.cache)
    {
      DiscardTwice(s, Elems(keys[..i]), {keys[i]});
      ElemsStep(keys, i);
      removed := Delete(keys[i], None);
    }

    /** Deletes a list of full keys one at a time and counts those that were present. */
    method DeleteAll(keys: seq<string>) returns (count: nat)
      requires Valid() && Distinct(keys)
      requires forall k :: k in keys ==> k in State.cache
      modifies this
      ensures Valid() && cache.Values <= old(cache.Values)
      ensures State == Discard(old(State), Elems(keys))
      ensures count == |keys|
    {
      count := 0;
      ghost var s := State;
      DiscardPrefixes(s, keys);
      for i := 0 to |keys|
        invariant Valid() && cache.Values <= old(cache.Values)
        invariant State == Discard(s, Elems(keys[..i]))
        invariant count == i
      {
        assert keys[i] in s.cache;
        var removed := DeleteNext(keys, i, s);
        if removed {
          count := count + 1;
        }
      }
    }

    method ClearTenant(tenant: string) returns (count: nat)
      requires Valid()
      modifies this
      ensures Valid() && cache.Values <= old(cache.Values)
      ensures State == Discard(old(State), TenantPrefixKeys(old(State), tenant))
      ensures count == |TenantPrefixKeys(old(State), tenant)|
    {
      var keys := Filter(order, set k | k in cache && !(tenant + ":" <= k));
      FilterMembers(order, set k | k in cache && !(tenant + ":" <= k));
      DistinctCardinality(keys);
      assert Elems(keys) == TenantPrefixKeys(State, tenant);
      count := DeleteAll(keys);
    }
  }

  lemma ElemsStep(keys: seq<string>, i: nat)
    requires i < |keys| && Distinct(keys)
    ensures Elems(keys[..i + 1]) == Elems(keys[..i]) + {keys[i]}
    ensures keys[i] !in Elems(keys[..i])
  {
    assert keys[..i + 1] == keys[..i] + [keys[i]];
  }

  lemma DiscardPrefixes(s: L1, keys: seq<string>)
    ensures Discard(s, Elems(keys[..0])) == s
    ensures Discard(s, Elems(keys[..|keys|])) == Discard(s, Elems(keys))
  {
    assert Elems(keys[..0]) == {};
    FilterNothing(s.order, {});
    assert s.cache - {} == s.cache;
    assert keys[..|keys|] == keys;
  }
}
