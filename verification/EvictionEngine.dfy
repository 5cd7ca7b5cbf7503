/** `CacheEvictionEngine` as an object over the layered cache and the semantic
    engine, its loops proved against the value-level steps. */
module EvictionEngine {
  import opened Common
  import L1Cache
  import L1Spec
  import Layered
  import LayeredCache
  import SemanticIndex
  import SemanticEngine
  import Ranking
  import opened EvictionSpec
  import opened Tally

  datatype Level = L1Memory | L2Redis | L3Database

  /** The Redis branch of the LRU eviction fails on a missing attribute. */
  datatype Outcome = Done | Raised

  class CacheEvictionEngine {
    const cache: LayeredCache.ThreeLayerCache
    const semantic: SemanticEngine.SemanticEvictionEngine
    var metrics: Metrics

    ghost function State(): Engine
      reads this, cache, cache.l1, cache.l2, semantic
    {
      Engine(cache.State(), semantic.State, metrics)
    }

    ghost predicate Valid()
      reads cache, cache.l1, cache.l1.cache.Values, cache.l2, semantic, semantic.semanticIndex.Values
    {
      cache.Valid() && semantic.Valid()
    }

    constructor (cache: LayeredCache.ThreeLayerCache, threshold: real)
      requires cache.Valid()
      ensures Valid() && this.cache == cache && fresh(semantic)
      ensures State() == Engine(cache.State(), map[], NO_METRICS)
    {
      this.cache := cache;
      semantic := new SemanticEngine.SemanticEvictionEngine(threshold);
      metrics := NO_METRICS;
    }

    /** Adds a batch's metrics to the totals, reason by reason. */
    method UpdateMetrics(more: Metrics)
      requires Valid()
      modifies this`metrics
      ensures Valid()
      ensures State() == old(State()).(metrics := EvictionSpec.UpdateMetrics(old(metrics), more))
    {
      var updated := Combine(metrics, more);
      metrics := updated;
    }

    static method Combine(m: Metrics, more: Metrics) returns (combined: Metrics)
      ensures combined == EvictionSpec.UpdateMetrics(m, more)
    {
      var reasons := m.reasons;
      var todo := more.reasons.Keys;
      ghost var all := todo;
      MergeNone(reasons, more.reasons, all);
      while todo != {}
        invariant todo <= all == more.reasons.Keys
        invariant reasons == Merge(m.reasons, more.reasons, all - todo)
      {
        var reason :| reason in todo;
        TakeOne(all, todo, reason);
        MergeStep(m.reasons, more.reasons, all - todo, reason);
        reasons := Bump(reasons, reason, more.reasons[reason]);
        todo := todo - {reason};
      }
      TookAll(all, todo);
      combined := Metrics(m.evictedCount + more.evictedCount, reasons, more.lastEviction);
    }

    method DropCached(keys: seq<string>, i: nat, ghost l1: L1Spec.L1) returns (deleted: bool)
      requires i < |keys| && Distinct(keys) && keys[i] in l1.cache
      requires Valid() && cache.l1.State == L1Spec.Discard(l1, Elems(keys[..i]))
      modifies cache.l1
      ensures Valid() && cache.l1.State == L1Spec.Discard(l1, Elems(keys[..i + 1])) && deleted
    {
      deleted := cache.DropFromMemory(keys, i, l1);
    }

    /** Deletes present keys one at a time, forgets them and counts them. */
    method DropAll(keys: seq<string>) returns (evicted: nat)
      requires Valid()
      requires Distinct(keys) && forall k :: k in keys ==> k in cache.l1.State.cache
      modifies cache.l1, semantic, semantic.semanticIndex.Values
      ensures Valid() && State() == DropKeys(old(State()), keys)
      ensures evicted == |keys|
    {
      evicted := 0;
      ghost var e := State();
      DropNone(e, keys);
      for i := 0 to |keys|
        invariant Valid() && semantic.semanticIndex.Values <= old(semantic.semanticIndex.Values)
        invariant Dropped(e, keys, i)
        invariant evicted == i
      {
        var deleted := DropOne(e, keys, i);
        if deleted {
          evicted := evicted + 1;
        }
      }
      DroppedAll(e, keys);
    }

    /** What is left of `e` when its first `i` keys have been dropped. */
    ghost predicate Dropped(e: Engine, keys: seq<string>, i: nat)
      requires i <= |keys|
      reads this, cache, cache.l1, cache.l2, semantic
    {
      State() == DropKeys(e, keys[..i])
    }

    method DropOne(ghost e: Engine, keys: seq<string>, i: nat) returns (deleted: bool)
      requires Valid() && i < |keys| && Distinct(keys) && keys[i] in e.cache.l1.cache
      requires Dropped(e, keys, i)
      modifies cache.l1, semantic, semantic.semanticIndex.Values
      ensures Valid() && semantic.semanticIndex.Values <= old(semantic.semanticIndex.Values)
      ensures Dropped(e, keys, i + 1) && deleted
    {
      DropNext(e.index, keys, i);
      deleted := DropCached(keys, i, e.cache.l1);
      if deleted {
        Forget(keys[i]);
      }
    }

    method EvictLru(level: Level, maxEvict: int, now: real) returns (outcome: Outcome)
      requires Valid()
      modifies this`metrics, cache.l1, semantic, semantic.semanticIndex.Values
      ensures Valid()
      ensures outcome == if level == L2Redis then Raised else Done
      ensures State() ==
        match level
        case L1Memory => EvictLruBatch(old(State()), maxEvict, now)
        case L2Redis => old(State())
        case L3Database => RecordNothing(old(State()), now)
    {
      var batch := Metrics(0, map[], None);
      if level == L1Memory {
        if |cache.l1.cache| as real > cache.l1.maxSize as real * 0.9 {
          SameSize(cache.l1);
          OrderedKeysPresent(cache.l1.State, maxEvict);
          var keys := Prefix(cache.l1.order, maxEvict);
          var evicted := DropAll(keys);
          batch := Metrics(evicted, Single("lru_l1", evicted), None);
        } else {
          SameSize(cache.l1);
        }
      } else if level == L2Redis {
        return Raised;
      }
      UpdateMetrics(batch.(lastEviction := Some(now)));
      return Done;
    }

    method EvictByTtl(level: Level, now: real) returns (batch: Metrics, ghost expired: seq<string>)
      requires Valid()
      modifies this`metrics, cache.l1, semantic, semantic.semanticIndex.Values
      ensures Valid()
      ensures level == L1Memory ==>
        && ListsExpired(old(cache.l1.State), expired, now)
        && State() == PurgeExpired(old(State()), expired, now)
        && batch == Metrics(|expired|, Single("ttl_l1", |expired|), Some(now))
      ensures level != L1Memory ==> State() == RecordNothing(old(State()), now)
    {
      expired := [];
      batch := Metrics(0, map[], Some(now));
      if level == L1Memory {
        var live := set k | k in cache.l1.cache && !cache.l1.cache[k].IsExpired(now);
        var keys := Filter(cache.l1.order, live);
        ExpiredList(cache.l1.State, live, now);
        expired := keys;
        var evicted := DropAll(keys);
        batch := Metrics(evicted, Single("ttl_l1", |keys|), Some(now));
      }
      UpdateMetrics(batch);
    }

    /** Purges, then records the purge's counts once more. */
    method CleanupExpired(now: real) returns (ghost expired: seq<string>)
      requires Valid()
      modifies this`metrics, cache.l1, semantic, semantic.semanticIndex.Values
      ensures Valid()
      ensures ListsExpired(old(cache.l1.State), expired, now)
      ensures State() == Cleanup(old(State()), expired, now)
    {
      var batch;
      batch, expired := EvictByTtl(L1Memory, now);
      UpdateMetrics(batch);
    }

    method SemanticEviction(maxEvict: int, now: real) returns (keys: seq<string>)
      requires Valid()
      modifies this`metrics, cache.l1, cache.l2`store, semantic, semantic.semanticIndex.Values
      ensures Valid()
      ensures Ranking.Ranked(keys, old(semantic.State), maxEvict, now)
      ensures State() == EvictionSpec.SemanticEviction(old(State()), keys, now)
    {
      keys := semantic.GetEvictionCandidates(maxEvict, now);
      var evicted := DeleteAll(keys, now);
      UpdateMetrics(Metrics(evicted, Single("semantic", evicted), Some(now)));
    }

    /** Deletes candidates from all levels one at a time and counts those found. */
    method DeleteAll(keys: seq<string>, now: real) returns (evicted: nat)
      requires Valid()
      modifies cache.l1, cache.l2`store, semantic, semantic.semanticIndex.Values
      ensures Valid()
      ensures State() == DeleteEach(old(State()), keys, now).0
      ensures evicted == DeleteEach(old(State()), keys, now).1
    {
      evicted := 0;
      ghost var e := State();
      for i := 0 to |keys|
        invariant Valid() && semantic.semanticIndex.Values <= old(semantic.semanticIndex.Values)
        invariant Deleted(e, keys, i, now, evicted)
      {
        evicted := DeleteCandidate(e, keys, i, evicted, now);
      }
      assert keys[..|keys|] == keys;
    }

    ghost predicate Deleted(e: Engine, keys: seq<string>, i: nat, now: real, evicted: nat)
      requires i <= |keys|
      reads this, cache, cache.l1, cache.l2, semantic
    {
      DeleteEach(e, keys[..i], now).0 == State() && DeleteEach(e, keys[..i], now).1 == evicted
    }

    method DeleteCandidate(ghost e: Engine, keys: seq<string>, i: nat, evicted: nat, now: real) returns (count: nat)
      requires Valid() && i < |keys|
      requires Deleted(e, keys, i, now, evicted)
      modifies cache.l1, cache.l2`store, semantic, semantic.semanticIndex.Values
      ensures Valid() && semantic.semanticIndex.Values <= old(semantic.semanticIndex.Values)
      ensures Deleted(e, keys, i + 1, now, count)
    {
      DeleteNext(e, keys, i, now, State());
      var deleted := DeleteKey(keys[i], now);
      count := if deleted then evicted + 1 else evicted;
    }

    method DeleteKey(key: string, now: real) returns (deleted: bool)
      requires Valid()
      modifies cache.l1, cache.l2`store, semantic, semantic.semanticIndex.Values
      ensures Valid() && semantic.semanticIndex.Values <= old(semantic.semanticIndex.Values)
      ensures State() == DeleteOne(old(State()), key, now).0
      ensures deleted == DeleteOne(old(State()), key, now).1
    {
      deleted := DeleteCached(key, now);
      if deleted {
        Forget(key);
      }
    }

    method DeleteCached(key: string, now: real) returns (deleted: bool)
      requires Valid()
      modifies cache.l1, cache.l2`store
      ensures Valid()
      ensures (cache.State(), deleted) == Layered.CacheDelete(old(cache.State()), key, None, Layered.Levels(true, true), now)
    {
      deleted := cache.Delete(key, None, Layered.Levels(true, true), now);
    }

    method Forget(key: string)
      requires Valid()
      modifies semantic, semantic.semanticIndex.Values
      ensures Valid() && semantic.semanticIndex.Values <= old(semantic.semanticIndex.Values)
      ensures State() == old(State()).(index := SemanticIndex.Remove(old(State()).index, key))
    {
      semantic.RemoveEntry(key);
      assert cache.State() == old(cache.State());
    }
  }

  lemma DeleteNext(e: Engine, keys: seq<string>, i: nat, now: real, before: Engine)
    requires i < |keys| && DeleteEach(e, keys[..i], now).0 == before
    ensures DeleteEach(e, keys[..i + 1], now).0 == DeleteOne(before, keys[i], now).0
    ensures DeleteEach(e, keys[..i + 1], now).1 ==
      DeleteEach(e, keys[..i], now).1 + (if DeleteOne(before, keys[i], now).1 then 1 else 0)
  {
    assert keys[..i + 1][..i] == keys[..i];
  }

  // ----- facts about values, one per loop -----

  lemma MergeNone(m: Counters, more: Counters, all: set<string>)
    ensures Merge(m, more, all - all) == m
  {
  }

  lemma DropNone(e: Engine, keys: seq<string>)
    ensures DropKeys(e, keys[..0]) == e
  {
    assert Elems(keys[..0]) == {};
    L1Spec.DiscardNone(e.cache.l1);
  }

  lemma DroppedAll(e: Engine, keys: seq<string>)
    ensures DropKeys(e, keys[..|keys|]) == DropKeys(e, keys)
  {
    assert keys[..|keys|] == keys;
  }

  lemma DropNext(ix: SemanticIndex.Index, keys: seq<string>, i: nat)
    requires i < |keys|
    ensures RemoveEach(ix, keys[..i + 1]) == SemanticIndex.Remove(RemoveEach(ix, keys[..i]), keys[i])
  {
    assert keys[..i + 1][..i] == keys[..i];
  }

  lemma SameSize(l1: L1Cache.L1MemoryCache)
    requires l1.Linked()
    ensures |l1.cache| == |l1.State.cache|
  {
    assert |l1.cache| == |l1.cache.Keys| && |l1.State.cache| == |l1.State.cache.Keys|;
  }

  lemma OrderedKeysPresent(s: L1Spec.L1, n: int)
    requires L1Spec.InStep(s)
    ensures Distinct(Prefix(s.order, n)) && forall k :: k in Prefix(s.order, n) ==> k in s.cache
  {
  }

  lemma ExpiredList(s: L1Spec.L1, live: set<string>, now: real)
    requires L1Spec.InStep(s)
    requires live == set k | k in s.cache && !s.cache[k].Expired(now)
    ensures ListsExpired(s, Filter(s.order, live), now)
    ensures forall k :: k in Filter(s.order, live) ==> k in s.cache
  {
    FilterMembers(s.order, live);
  }
}
