/** The in-memory cache layer as a value: what each operation of `L1MemoryCache`
    makes of the entry map and the access order. Keys here are full keys
    (already tenant-qualified). */
module L1Spec {
  import opened Common

  /** `Null` is Python's `None` (JSON `null`): a stored `Null` reads like a miss. */
  datatype Value = Null | Data(text: string)

  datatype Entry = Entry(
    key: string,
    value: Value,
    createdAt: real,
    lastAccessed: real,
    accessCount: nat,
    ttl: Option<real>,
    tenant: Option<string>)
  {
    predicate Expired(now: real) {
      ttl.Some? && now - createdAt > ttl.value
    }

    function Touched(now: real): Entry {
      this.(lastAccessed := now, accessCount := accessCount + 1)
    }
  }

  datatype L1 = L1(maxSize: int, defaultTtl: real, cache: map<string, Entry>, order: seq<string>)

  /** The two structures hold the same keys, each once, and respect the capacity. */
  ghost predicate InStep(s: L1) {
    && Distinct(s.order)
    && (forall k :: k in s.order <==> k in s.cache)
    && (forall k :: k in s.cache ==> s.cache[k].key == k)
  }

  ghost predicate Inv(s: L1) {
    InStep(s) && |s.cache| <= Max(s.maxSize, 0)
  }

  function Empty(maxSize: int, defaultTtl: real): L1 {
    L1(maxSize, defaultTtl, map[], [])
  }

  /** `ttl or default`: absent and zero both select the default. */
  function EffectiveTtl(ttl: Option<real>, default: real): real {
    if ttl.None? || ttl.value == 0.0 then default else ttl.value
  }

  function MakeKey(key: string, tenant: Option<string>): string {
    if tenant.Some? && tenant.value != "" then tenant.value + ":" + key else key
  }

  /** Drops a set of keys; every removal of a key is an instance. */
  function Discard(s: L1, keys: set<string>): L1 {
    s.(cache := s.cache - keys, order := Filter(s.order, keys))
  }

  predicate Hit(s: L1, k: string, now: real) {
    k in s.cache && !s.cache[k].Expired(now)
  }

  function Get(s: L1, k: string, now: real): (L1, Value) {
    if k !in s.cache then (s, Null)
    else if s.cache[k].Expired(now) then (Discard(s, {k}), Null)
    else
      (s.(cache := s.cache[k := s.cache[k].Touched(now)], order := Filter(s.order, {k}) + [k]),
       s.cache[k].value)
  }

  function NewEntry(s: L1, k: string, value: Value, ttl: Option<real>, tenant: Option<string>, now: real): Entry {
    Entry(k, value, now, now, 1, Some(EffectiveTtl(ttl, s.defaultTtl)), tenant)
  }

  /** The write itself: an overwrite keeps its place in the order. */
  function Store(s: L1, k: string, e: Entry): L1 {
    s.(cache := s.cache[k := e], order := if k in s.order then s.order else s.order + [k])
  }

  function EvictLru(s: L1): L1 {
    if s.order == [] then s else Discard(s, {s.order[0]})
  }

  function Set(s: L1, k: string, value: Value, ttl: Option<real>, tenant: Option<string>, now: real): L1 {
    var stored := Store(s, k, NewEntry(s, k, value, ttl, tenant, now));
    if |stored.cache| > s.maxSize then EvictLru(stored) else stored
  }

  function TenantPrefixKeys(s: L1, tenant: string): set<string> {
    set k | k in s.cache && tenant + ":" <= k
  }

  function TenantFieldKeys(s: L1, tenant: string): set<string> {
    set k | k in s.cache && s.cache[k].tenant == Some(tenant)
  }

  function ExpiredKeys(s: L1, now: real): set<string> {
    set k | k in s.cache && s.cache[k].Expired(now)
  }

  // ----- what every operation keeps -----

  lemma DiscardKeepsInv(s: L1, keys: set<string>)
    requires Inv(s)
    ensures Inv(Discard(s, keys))
  {
    FilterMembers(s.order, keys);
    var s' := Discard(s, keys);
    assert Elems(s'.order) == s'.cache.Keys;
    SubsetCardinality(s'.cache.Keys, s.cache.Keys);
  }

  lemma GetKeepsInv(s: L1, k: string, now: real)
    requires Inv(s)
    ensures Inv(Get(s, k, now).0)
  {
    DiscardKeepsInv(s, {k});
    if Hit(s, k, now) {
      TouchKeepsInv(s, k, s.cache[k].Touched(now));
    }
  }

  lemma TouchKeepsInv(s: L1, k: string, e: Entry)
    requires Inv(s) && k in s.cache && e.key == k
    ensures Inv(s.(cache := s.cache[k := e], order := Filter(s.order, {k}) + [k]))
  {
    MoveKeepsKeys(s.order, k);
    assert s.cache[k := e].Keys == s.cache.Keys;
    assert |s.cache[k := e]| == |s.cache[k := e].Keys| && |s.cache| == |s.cache.Keys|;
  }

  /** Moving a present key to the back changes no membership. */
  lemma MoveKeepsKeys(order: seq<string>, k: string)
    requires Distinct(order) && k in order
    ensures var moved := Filter(order, {k}) + [k];
      Distinct(moved) && forall x :: x in moved <==> x in order
  {
    FilterMembers(order, {k});
  }

  lemma OrderSize(s: L1)
    requires InStep(s)
    ensures |s.order| == |s.cache| == |s.cache.Keys|
  {
    assert Elems(s.order) == s.cache.Keys;
    DistinctCardinality(s.order);
  }

  /** Storing keeps the structures in step and grows the cache by at most one. */
  lemma StoreInStep(s: L1, k: string, e: Entry)
    requires Inv(s) && e.key == k
    ensures InStep(Store(s, k, e))
    ensures |Store(s, k, e).cache| == |s.cache| + (if k in s.cache then 0 else 1)
    ensures |Store(s, k, e).order| == |Store(s, k, e).cache|
  {
    var s' := Store(s, k, e);
    assert s'.cache.Keys == s.cache.Keys + {k};
    OrderSize(s);
    OrderSize(s');
  }

  lemma EvictLruInStep(s: L1)
    requires InStep(s) && s.cache.Keys != {}
    ensures s.order != [] && InStep(EvictLru(s)) && |EvictLru(s).cache| == |s.cache| - 1
  {
    var k :| k in s.cache.Keys;
    assert k in Elems(s.order);
    var head := s.order[0];
    assert head in Elems(s.order);
    FilterMembers(s.order, {head});
    var s' := EvictLru(s);
    assert Elems(s'.order) == s'.cache.Keys;
    assert s.cache.Keys == s'.cache.Keys + {head};
    assert |s.cache.Keys| == |s'.cache.Keys| + 1;
  }

  lemma SetKeepsInv(s: L1, k: string, value: Value, ttl: Option<real>, tenant: Option<string>, now: real)
    requires Inv(s)
    ensures Inv(Set(s, k, value, ttl, tenant, now))
  {
    var e := NewEntry(s, k, value, ttl, tenant, now);
    StoreInStep(s, k, e);
    assert k in Store(s, k, e).cache.Keys;
    EvictLruInStep(Store(s, k, e));
    if k in s.cache {
      assert s.cache.Keys != {};
      assert |s.cache.Keys| == |s.cache|;
    }
  }

  /** An overwrite never evicts. */
  lemma OverwriteInPlace(s: L1, k: string, value: Value, ttl: Option<real>, tenant: Option<string>, now: real)
    requires Inv(s) && k in s.cache
    ensures var s' := Set(s, k, value, ttl, tenant, now);
      s'.order == s.order && s'.cache == s.cache[k := NewEntry(s, k, value, ttl, tenant, now)]
  {
    StoreInStep(s, k, NewEntry(s, k, value, ttl, tenant, now));
    assert k in Elems(s.order);
    SubsetCardinality({k}, s.cache.Keys);
  }

  /** A written value is answered for exactly its lifetime: the given one, or the default
      when none or zero is given. */
  lemma AnsweredForLifetime(s: L1, k: string, value: Value, ttl: Option<real>, tenant: Option<string>, now: real, later: real)
    requires Inv(s) && s.maxSize >= 1
    ensures var lifetime := if ttl == None || ttl == Some(0.0) then s.defaultTtl else ttl.value;
      Get(Set(s, k, value, ttl, tenant, now), k, later).1 == if later - now <= lifetime then value else Null
  {
    if k in s.cache {
      OverwriteInPlace(s, k, value, ttl, tenant, now);
    } else {
      NewKeySurvives(s, k, value, ttl, tenant, now);
    }
  }

  /** With room for one entry, a new key is not the one its own insertion evicts. */
  lemma NewKeySurvives(s: L1, k: string, v: Value, ttl: Option<real>, tenant: Option<string>, now: real)
    requires Inv(s) && s.maxSize >= 1 && k !in s.cache
    ensures k in Set(s, k, v, ttl, tenant, now).cache
    ensures Set(s, k, v, ttl, tenant, now).cache[k] == NewEntry(s, k, v, ttl, tenant, now)
  {
    var stored := Store(s, k, NewEntry(s, k, v, ttl, tenant, now));
    StoreInStep(s, k, NewEntry(s, k, v, ttl, tenant, now));
    if |stored.cache| > s.maxSize {
      assert |stored.order| > 1;
      assert stored.order == s.order + [k];
      assert stored.order[0] != k;
    }
  }

  /** A write brings in nothing but its own entry. */
  lemma SetEntries(s: L1, k: string, value: Value, ttl: Option<real>, tenant: Option<string>, now: real, x: string)
    requires x in Set(s, k, value, ttl, tenant, now).cache
    ensures var e := Set(s, k, value, ttl, tenant, now).cache[x];
      if x == k then e == NewEntry(s, k, value, ttl, tenant, now) else x in s.cache && s.cache[x] == e
  {
  }

  lemma DiscardAbsent(s: L1, keys: set<string>)
    requires InStep(s) && keys !! s.cache.Keys
    ensures Discard(s, keys) == s
  {
    forall x | x in s.order ensures x !in keys {
      assert x in Elems(s.order);
    }
    FilterNothing(s.order, keys);
    assert s.cache - keys == s.cache;
  }

  lemma DiscardTwice(s: L1, a: set<string>, b: set<string>)
    ensures Discard(Discard(s, a), b) == Discard(s, a + b)
  {
    FilterTwice(s.order, a, b);
    assert s.cache - a - b == s.cache - (a + b);
  }

  lemma DiscardNone(s: L1)
    ensures Discard(s, {}) == s
  {
    FilterNothing(s.order, {});
    assert s.cache - {} == s.cache;
  }
}
