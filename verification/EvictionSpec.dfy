/** The eviction engine as a value: batch LRU eviction, TTL purge and the metrics
    that record them. */
module EvictionSpec {
  import opened Common
  import opened L1Spec
  import Layered
  import SemanticIndex
  import opened Tally

  datatype Metrics = Metrics(evictedCount: nat, reasons: Counters, lastEviction: Option<real>)

  datatype Engine = Engine(cache: Layered.Cache, index: SemanticIndex.Index, metrics: Metrics)

  const NO_METRICS := Metrics(0, map[], None)

  /** The counters of `more` that are among `done`, added to `m`. */
  function Merge(m: Counters, more: Counters, done: set<string>): Counters {
    map k | k in m.Keys + more.Keys * done :: Count(m, k) + (if k in done then Count(more, k) else 0)
  }

  function UpdateMetrics(m: Metrics, more: Metrics): Metrics {
    Metrics(m.evictedCount + more.evictedCount, Merge(m.reasons, more.reasons, more.reasons.Keys), more.lastEviction)
  }

  function RemoveEach(ix: SemanticIndex.Index, keys: seq<string>): SemanticIndex.Index {
    if keys == [] then ix
    else SemanticIndex.Remove(RemoveEach(ix, keys[..|keys| - 1]), keys[|keys| - 1])
  }

  predicate AboveThreshold(s: L1) {
    |s.cache| as real > s.maxSize as real * 0.9
  }

  function Record(e: Engine, reason: string, count: nat, now: real): Engine {
    e.(metrics := UpdateMetrics(e.metrics, Metrics(count, Single(reason, count), Some(now))))
  }

  function RecordNothing(e: Engine, now: real): Engine {
    e.(metrics := UpdateMetrics(e.metrics, Metrics(0, map[], Some(now))))
  }

  /** Drops the given keys from the in-memory layer and the semantic index. */
  function DropKeys(e: Engine, keys: seq<string>): Engine {
    e.(cache := e.cache.(l1 := Discard(e.cache.l1, Elems(keys))), index := RemoveEach(e.index, keys))
  }

  function EvictLruBatch(e: Engine, maxEvict: int, now: real): Engine {
    if !AboveThreshold(e.cache.l1) then RecordNothing(e, now)
    else
      var keys := Prefix(e.cache.l1.order, maxEvict);
      Record(DropKeys(e, keys), "lru_l1", |keys|, now)
  }

  /** `keys` lists the expired keys once each, in any order. */
  ghost predicate ListsExpired(s: L1, keys: seq<string>, now: real) {
    Distinct(keys) && Elems(keys) == ExpiredKeys(s, now)
  }

  function PurgeExpired(e: Engine, keys: seq<string>, now: real): Engine {
    Record(DropKeys(e, keys), "ttl_l1", |keys|, now)
  }

  /** The cleanup records the purge's own counts a second time. */
  function Cleanup(e: Engine, keys: seq<string>, now: real): Engine {
    Record(PurgeExpired(e, keys, now), "ttl_l1", |keys|, now)
  }

  /** Deletes one candidate from both layers, and from the index if it was found. */
  function DeleteOne(e: Engine, key: string, now: real): (Engine, bool) {
    var (e', found) := DeleteCachedOnly(e, key, now);
    (if found then e'.(index := SemanticIndex.Remove(e'.index, key)) else e', found)
  }

  function DeleteCachedOnly(e: Engine, key: string, now: real): (Engine, bool) {
    var (cache, found) := Layered.CacheDelete(e.cache, key, None, Layered.Levels(true, true), now);
    (e.(cache := cache), found)
  }

  /** Deletes candidates in turn; only those found somewhere count. */
  function DeleteEach(e: Engine, keys: seq<string>, now: real): (Engine, nat) {
    if keys == [] then (e, 0)
    else
      var (before, n) := DeleteEach(e, keys[..|keys| - 1], now);
      var (after, found) := DeleteOne(before, keys[|keys| - 1], now);
      (after, if found then n + 1 else n)
  }

  function SemanticEviction(e: Engine, keys: seq<string>, now: real): Engine {
    var (e', n) := DeleteEach(e, keys, now);
    Record(e', "semantic", n, now)
  }

  // ----- metrics conservation -----

  ghost predicate Conserved(m: Metrics) {
    m.evictedCount == Total(m.reasons)
  }

  /** The counters of `more` that are among `done`. */
  function Restrict(more: Counters, done: set<string>): Counters {
    map k | k in more && k in done :: more[k]
  }

  lemma MergeStep(m: Counters, more: Counters, rest: set<string>, k: string)
    requires k in more && k !in rest
    ensures Merge(m, more, rest + {k}) == Bump(Merge(m, more, rest), k, more[k])
    ensures Restrict(more, rest + {k}) == Bump(Restrict(more, rest), k, more[k])
  {
  }

  lemma {:induction false} TotalMerge(m: Counters, more: Counters, done: set<string>)
    requires done <= more.Keys
    ensures Total(Merge(m, more, done)) == Total(m) + Total(Restrict(more, done))
    decreases done
  {
    if done == {} {
      assert Merge(m, more, done) == m;
      assert Restrict(more, done) == map[];
    } else {
      var k :| k in done;
      var rest := done - {k};
      assert done == rest + {k};
      TotalMerge(m, more, rest);
      MergeStep(m, more, rest, k);
      TotalBump(Merge(m, more, rest), k, more[k]);
      TotalBump(Restrict(more, rest), k, more[k]);
    }
  }

  lemma UpdateConserves(m: Metrics, more: Metrics)
    requires Conserved(m) && Conserved(more)
    ensures Conserved(UpdateMetrics(m, more))
  {
    TotalMerge(m.reasons, more.reasons, more.reasons.Keys);
    assert Restrict(more.reasons, more.reasons.Keys) == more.reasons;
  }

  lemma RecordConserves(e: Engine, reason: string, count: nat, now: real)
    requires Conserved(e.metrics)
    ensures Conserved(Record(e, reason, count, now).metrics)
    ensures Record(e, reason, count, now).metrics.evictedCount == e.metrics.evictedCount + count
  {
    TotalBump(map[], reason, count);
    UpdateConserves(e.metrics, Metrics(count, Single(reason, count), Some(now)));
  }

  datatype Op =
    | OpLru(maxEvict: int, now: real)
    | OpPurge(keys: seq<string>, now: real)
    | OpCleanup(keys: seq<string>, now: real)
    | OpSemantic(keys: seq<string>, now: real)
    | OpCache(cache: Layered.Cache)  // any cache traffic in between
    | OpIndex(index: SemanticIndex.Index)

  function Step(e: Engine, op: Op): Engine {
    match op
    case OpLru(n, now) => EvictLruBatch(e, n, now)
    case OpPurge(keys, now) => PurgeExpired(e, keys, now)
    case OpCleanup(keys, now) => Cleanup(e, keys, now)
    case OpSemantic(keys, now) => SemanticEviction(e, keys, now)
    case OpCache(cache) => e.(cache := cache)
    case OpIndex(index) => e.(index := index)
  }

  function Run(e: Engine, ops: seq<Op>): Engine {
    if ops == [] then e else Step(Run(e, ops[..|ops| - 1]), ops[|ops| - 1])
  }

  /** The lists are those the code draws up, and traffic in between keeps the cache in order. */
  ghost predicate Possible(e: Engine, op: Op) {
    match op
    case OpPurge(keys, now) => ListsExpired(e.cache.l1, keys, now)
    case OpCleanup(keys, now) => ListsExpired(e.cache.l1, keys, now)
    case OpCache(cache) => Inv(cache.l1)
    case _ => true
  }

  ghost predicate Runs(e: Engine, ops: seq<Op>) {
    ops == [] || (Runs(e, ops[..|ops| - 1]) && Possible(Run(e, ops[..|ops| - 1]), ops[|ops| - 1]))
  }

  /** How many entries a step takes out of the in-memory layer. */
  function Leaving(e: Engine, op: Op): int {
    |e.cache.l1.cache| - |Step(e, op).cache.l1.cache|
  }

  /** How many evictions one step adds to the total. */
  function Counted(e: Engine, op: Op): int {
    match op
    case OpLru(_, _) => Leaving(e, op)
    case OpPurge(_, _) => Leaving(e, op)
    case OpCleanup(_, _) => 2 * Leaving(e, op)
    case OpSemantic(keys, now) => DeleteEach(e, keys, now).1  // found in either layer
    case OpCache(_) => 0
    case OpIndex(_) => 0
  }

  function CountedRun(e: Engine, ops: seq<Op>): int {
    if ops == [] then 0
    else CountedRun(e, ops[..|ops| - 1]) + Counted(Run(e, ops[..|ops| - 1]), ops[|ops| - 1])
  }

  lemma {:induction false} DeleteEachKeepsMetrics(e: Engine, keys: seq<string>, now: real)
    ensures DeleteEach(e, keys, now).0.metrics == e.metrics
  {
    if keys != [] {
      DeleteEachKeepsMetrics(e, keys[..|keys| - 1], now);
    }
  }

  /** Dropping present keys, each listed once, takes as many entries. */
  lemma DropSize(e: Engine, keys: seq<string>)
    requires Inv(e.cache.l1) && Distinct(keys) && forall k :: k in keys ==> k in e.cache.l1.cache
    ensures |DropKeys(e, keys).cache.l1.cache| == |e.cache.l1.cache| - |keys|
    ensures Inv(DropKeys(e, keys).cache.l1)
  {
    var s := e.cache.l1;
    DiscardKeepsInv(s, Elems(keys));
    DistinctCardinality(keys);
    assert (s.cache - Elems(keys)).Keys == s.cache.Keys - Elems(keys);
    assert s.cache.Keys == (s.cache.Keys - Elems(keys)) + Elems(keys);
    assert |s.cache| == |s.cache.Keys| && |s.cache - Elems(keys)| == |(s.cache - Elems(keys)).Keys|;
  }

  lemma ExpiredPresent(s: L1, keys: seq<string>, now: real)
    requires ListsExpired(s, keys, now)
    ensures forall k :: k in keys ==> k in s.cache
  {
    forall k | k in keys ensures k in s.cache {
      assert k in Elems(keys);
    }
  }

  lemma LruConserves(e: Engine, maxEvict: int, now: real)
    requires Conserved(e.metrics) && Inv(e.cache.l1)
    ensures var e' := EvictLruBatch(e, maxEvict, now);
      && Conserved(e'.metrics) && Inv(e'.cache.l1)
      && e'.metrics.evictedCount == e.metrics.evictedCount + |e.cache.l1.cache| - |e'.cache.l1.cache|
  {
    if AboveThreshold(e.cache.l1) {
      var keys := Prefix(e.cache.l1.order, maxEvict);
      DropSize(e, keys);
      RecordConserves(DropKeys(e, keys), "lru_l1", |keys|, now);
    } else {
      assert Total(map[]) == 0;
      UpdateConserves(e.metrics, Metrics(0, map[], Some(now)));
    }
  }

  lemma PurgeConserves(e: Engine, keys: seq<string>, now: real)
    requires Conserved(e.metrics) && Inv(e.cache.l1) && ListsExpired(e.cache.l1, keys, now)
    ensures var e' := PurgeExpired(e, keys, now);
      && Conserved(e'.metrics) && Inv(e'.cache.l1)
      && |e.cache.l1.cache| - |e'.cache.l1.cache| == |keys|
      && e'.metrics.evictedCount == e.metrics.evictedCount + |keys|
  {
    ExpiredPresent(e.cache.l1, keys, now);
    DropSize(e, keys);
    RecordConserves(DropKeys(e, keys), "ttl_l1", |keys|, now);
  }

  lemma StepConserves(e: Engine, op: Op)
    requires Conserved(e.metrics) && Inv(e.cache.l1) && Possible(e, op)
    ensures Conserved(Step(e, op).metrics) && Inv(Step(e, op).cache.l1)
    ensures Step(e, op).metrics.evictedCount == e.metrics.evictedCount + Counted(e, op)
  {
    match op {
      case OpLru(n, now) => LruConserves(e, n, now);
      case OpPurge(keys, now) => PurgeConserves(e, keys, now);
      case OpCleanup(keys, now) =>
        PurgeConserves(e, keys, now);
        RecordConserves(PurgeExpired(e, keys, now), "ttl_l1", |keys|, now);
      case OpSemantic(keys, now) =>
        DeleteEachKeepsMetrics(e, keys, now);
        DeleteEachRemoves(e, keys, now);
        DiscardKeepsInv(e.cache.l1, Elems(keys));
        var (e', n) := DeleteEach(e, keys, now);
        RecordConserves(e', "semantic", n, now);
      case OpCache(_) =>
      case OpIndex(_) =>
    }
  }

  /** In every run the total equals the sum over reasons, and is what the steps took out:
      for batches and purges the entries that left the cache, with each cleanup's counted
      twice, for semantic evictions the candidates found in some layer. */
  lemma {:induction false} RunConserves(e: Engine, ops: seq<Op>)
    requires Conserved(e.metrics) && Inv(e.cache.l1) && Runs(e, ops)
    ensures Conserved(Run(e, ops).metrics) && Inv(Run(e, ops).cache.l1)
    ensures Run(e, ops).metrics.evictedCount == e.metrics.evictedCount + CountedRun(e, ops)
  {
    if ops != [] {
      RunConserves(e, ops[..|ops| - 1]);
      StepConserves(Run(e, ops[..|ops| - 1]), ops[|ops| - 1]);
    }
  }

  /** An engine with fresh metrics counts from zero. */
  lemma FreshRunCounts(cache: Layered.Cache, index: SemanticIndex.Index, ops: seq<Op>)
    requires Inv(cache.l1) && Runs(Engine(cache, index, NO_METRICS), ops)
    ensures Run(Engine(cache, index, NO_METRICS), ops).metrics.evictedCount == CountedRun(Engine(cache, index, NO_METRICS), ops)
  {
    assert Total(map[]) == 0;
    RunConserves(Engine(cache, index, NO_METRICS), ops);
  }

  /** What a step adds under one reason: batches under `lru_l1`, purges and cleanups under
      `ttl_l1`, semantic evictions under `semantic`. */
  function CountedAs(e: Engine, op: Op, reason: string): int {
    match op
    case OpLru(_, _) => if reason == "lru_l1" then Counted(e, op) else 0
    case OpPurge(_, _) => if reason == "ttl_l1" then Counted(e, op) else 0
    case OpCleanup(_, _) => if reason == "ttl_l1" then Counted(e, op) else 0
    case OpSemantic(_, _) => if reason == "semantic" then Counted(e, op) else 0
    case _ => 0
  }

  function CountedRunAs(e: Engine, ops: seq<Op>, reason: string): int {
    if ops == [] then 0
    else CountedRunAs(e, ops[..|ops| - 1], reason) + CountedAs(Run(e, ops[..|ops| - 1]), ops[|ops| - 1], reason)
  }

  lemma RecordAddsAs(e: Engine, reason: string, count: nat, now: real, r: string)
    ensures Count(Record(e, reason, count, now).metrics.reasons, r) ==
      Count(e.metrics.reasons, r) + (if r == reason then count else 0)
  {
  }

  lemma StepCountsAs(e: Engine, op: Op, r: string)
    requires Inv(e.cache.l1) && Possible(e, op)
    ensures Count(Step(e, op).metrics.reasons, r) == Count(e.metrics.reasons, r) + CountedAs(e, op, r)
  {
    match op {
      case OpLru(n, now) =>
        if AboveThreshold(e.cache.l1) {
          var keys := Prefix(e.cache.l1.order, n);
          DropSize(e, keys);
          RecordAddsAs(DropKeys(e, keys), "lru_l1", |keys|, now, r);
        }
      case OpPurge(keys, now) => PurgeCountsAs(e, keys, now, r);
      case OpCleanup(keys, now) =>
        PurgeCountsAs(e, keys, now, r);
        RecordAddsAs(PurgeExpired(e, keys, now), "ttl_l1", |keys|, now, r);
      case OpSemantic(keys, now) =>
        DeleteEachKeepsMetrics(e, keys, now);
        RecordAddsAs(DeleteEach(e, keys, now).0, "semantic", DeleteEach(e, keys, now).1, now, r);
      case OpCache(_) =>
      case OpIndex(_) =>
    }
  }

  lemma PurgeCountsAs(e: Engine, keys: seq<string>, now: real, r: string)
    requires Inv(e.cache.l1) && ListsExpired(e.cache.l1, keys, now)
    ensures var e' := PurgeExpired(e, keys, now);
      && Count(e'.metrics.reasons, r) == Count(e.metrics.reasons, r) + (if r == "ttl_l1" then |keys| else 0)
      && |e.cache.l1.cache| - |e'.cache.l1.cache| == |keys|
  {
    ExpiredPresent(e.cache.l1, keys, now);
    DropSize(e, keys);
    RecordAddsAs(DropKeys(e, keys), "ttl_l1", |keys|, now, r);
  }

  /** In every run each reason's counter is what the steps of its kind took out. */
  lemma {:induction false} RunCountsByReason(e: Engine, ops: seq<Op>, reason: string)
    requires Conserved(e.metrics) && Inv(e.cache.l1) && Runs(e, ops)
    ensures Count(Run(e, ops).metrics.reasons, reason) == Count(e.metrics.reasons, reason) + CountedRunAs(e, ops, reason)
  {
    if ops != [] {
      RunConserves(e, ops[..|ops| - 1]);
      RunCountsByReason(e, ops[..|ops| - 1], reason);
      StepCountsAs(Run(e, ops[..|ops| - 1]), ops[|ops| - 1], reason);
    }
  }

  // ----- batch eviction is repeated single eviction -----

  function EvictTimes(s: L1, n: nat): L1
    decreases n
  {
    if n == 0 then s else EvictTimes(EvictLru(s), n - 1)
  }

  lemma EvictTail(s: L1)
    requires InStep(s) && s.order != []
    ensures EvictLru(s).order == s.order[1..]
  {
    FilterNothing(s.order[1..], {s.order[0]});
  }

  lemma HeadElems(order: seq<string>, n: nat)
    requires 1 <= n <= |order|
    ensures Elems(order[..n]) == {order[0]} + Elems(order[1..][..n - 1])
  {
    assert order[..n] == [order[0]] + order[1..][..n - 1];
  }

  lemma {:induction false} BatchIsRepeated(s: L1, n: nat)
    requires InStep(s) && n <= |s.order|
    ensures Discard(s, Elems(s.order[..n])) == EvictTimes(s, n)
    decreases n
  {
    if n == 0 {
      assert Elems(s.order[..0]) == {};
      DiscardNone(s);
    } else {
      OneEvictionInStep(s);
      FirstOfBatch(s, n);
      BatchIsRepeated(EvictLru(s), n - 1);
    }
  }

  lemma FirstOfBatch(s: L1, n: nat)
    requires InStep(s) && 1 <= n <= |s.order|
    ensures |EvictLru(s).order| == |s.order| - 1
    ensures Discard(s, Elems(s.order[..n])) == Discard(EvictLru(s), Elems(EvictLru(s).order[..n - 1]))
  {
    EvictTail(s);
    HeadElems(s.order, n);
    DiscardTwice(s, {s.order[0]}, Elems(s.order[1..][..n - 1]));
  }

  lemma OneEvictionInStep(s: L1)
    requires InStep(s) && s.order != []
    ensures InStep(EvictLru(s))
  {
    assert s.order[0] in s.cache.Keys;
    EvictLruInStep(s);
  }

  lemma {:induction false} EvictPastEmpty(s: L1, n: nat)
    requires s.order == []
    ensures EvictTimes(s, n) == s
  {
    if n > 0 {
      EvictPastEmpty(s, n - 1);
    }
  }

  lemma {:induction false} EvictSplit(s: L1, a: nat, b: nat)
    ensures EvictTimes(s, a + b) == EvictTimes(EvictTimes(s, a), b)
    decreases a
  {
    if a > 0 {
      EvictSplit(EvictLru(s), a - 1, b);
    }
  }

  lemma EvictEverything(s: L1, extra: nat)
    requires InStep(s)
    ensures EvictTimes(s, |s.order| + extra) == EvictTimes(s, |s.order|)
  {
    EvictSplit(s, |s.order|, extra);
    BatchIsRepeated(s, |s.order|);
    assert s.order[..|s.order|] == s.order;
    FilterAll(s.order, Elems(s.order));
    EvictPastEmpty(EvictTimes(s, |s.order|), extra);
  }

  /** A batch acts exactly on a cache more than nine tenths full; else it leaves both layers and
      the index alone and records no eviction. */
  lemma BatchActsWhenNearlyFull(e: Engine, maxEvict: int, now: real)
    requires InStep(e.cache.l1)
    ensures var e' := EvictLruBatch(e, maxEvict, now);
      && e'.cache.l2 == e.cache.l2
      && if 10 * |e.cache.l1.cache| > 9 * e.cache.l1.maxSize
         then e'.cache.l1.order == e.cache.l1.order[PrefixLength(|e.cache.l1.order|, maxEvict)..]
         else e'.cache == e.cache && e'.index == e.index && e'.metrics.evictedCount == e.metrics.evictedCount
  {
    var s := e.cache.l1;
    FirstDropped(s.order, PrefixLength(|s.order|, maxEvict));
  }

  lemma {:induction false} FirstDropped(order: seq<string>, n: nat)
    requires Distinct(order) && n <= |order|
    ensures Filter(order, Elems(order[..n])) == order[n..]
    decreases n
  {
    if n == 0 {
      assert Elems(order[..0]) == {};
      FilterNothing(order, {});
    } else {
      var rest := order[1..];
      HeadElems(order, n);
      FirstDropped(rest, n - 1);
      assert order[0] !in rest;
      FilterIgnores(rest, Elems(rest[..n - 1]), order[0]);
      assert order[..n][0] == order[0];
      assert order[0] in Elems(order[..n]);
      assert rest[n - 1..] == order[n..];
    }
  }

  lemma {:induction false} FilterIgnores(s: seq<string>, drop: set<string>, x: string)
    requires x !in s
    ensures Filter(s, {x} + drop) == Filter(s, drop)
  {
    if s != [] {
      FilterIgnores(s[1..], drop, x);
    }
  }

  /** Above the threshold, a batch eviction of the in-memory layer is `maxEvict`
      single evictions; for a negative `maxEvict`, as many as leave that many keys. */
  lemma LruBatchIsRepeated(e: Engine, maxEvict: int, now: real)
    requires InStep(e.cache.l1) && AboveThreshold(e.cache.l1)
    ensures EvictLruBatch(e, maxEvict, now).cache.l1 ==
      EvictTimes(e.cache.l1, if maxEvict >= 0 then maxEvict else Max(0, |e.cache.l1.order| + maxEvict))
  {
    var s := e.cache.l1;
    BatchIsRepeated(s, PrefixLength(|s.order|, maxEvict));
    if maxEvict > |s.order| {
      EvictEverything(s, maxEvict - |s.order|);
    }
  }

  // ----- what a batch removes -----

  lemma ElemsSnoc(keys: seq<string>)
    requires keys != []
    ensures Elems(keys) == Elems(keys[..|keys| - 1]) + {keys[|keys| - 1]}
  {
    Unsnoc(keys);
  }

  /** Forgetting a list of keys removes exactly those from the index. */
  lemma {:induction false} RemoveEachDrops(ix: SemanticIndex.Index, keys: seq<string>)
    ensures RemoveEach(ix, keys).Keys == ix.Keys - Elems(keys)
  {
    if keys != [] {
      RemoveEachDrops(ix, keys[..|keys| - 1]);
      ElemsSnoc(keys);
    }
  }

  /** A purge leaves exactly the entries that have not expired, in their order, and
      forgets the others. */
  lemma PurgeIsExact(e: Engine, keys: seq<string>, now: real)
    requires ListsExpired(e.cache.l1, keys, now)
    ensures var e' := PurgeExpired(e, keys, now);
      && e'.cache.l1.cache == (map k | k in e.cache.l1.cache && !e.cache.l1.cache[k].Expired(now) :: e.cache.l1.cache[k])
      && e'.cache.l1.order == Filter(e.cache.l1.order, ExpiredKeys(e.cache.l1, now))
      && e'.index.Keys == e.index.Keys - ExpiredKeys(e.cache.l1, now)
      && e'.cache.l2 == e.cache.l2
  {
    RemoveEachDrops(e.index, keys);
  }

  /** A semantic eviction leaves none of its candidates in either layer, and takes
      nothing else from the in-memory layer. */
  lemma {:induction false} DeleteEachRemoves(e: Engine, keys: seq<string>, now: real)
    ensures var e' := DeleteEach(e, keys, now).0;
      && e'.cache.l1 == Discard(e.cache.l1, Elems(keys))
      && e'.cache.initialized == e.cache.initialized
      && (e.cache.initialized ==> forall k :: k in keys ==> Layered.RedisKey(k) !in e'.cache.l2)
  {
    if keys == [] {
      assert Elems(keys) == {};
      DiscardNone(e.cache.l1);
    } else {
      var last := |keys| - 1;
      DeleteEachRemoves(e, keys[..last], now);
      var before := DeleteEach(e, keys[..last], now).0;
      DeleteOneRemoves(before, keys[last], now);
      ElemsSnoc(keys);
      DiscardTwice(e.cache.l1, Elems(keys[..last]), {keys[last]});
      forall k | k in keys && e.cache.initialized ensures Layered.RedisKey(k) !in DeleteEach(e, keys, now).0.cache.l2 {
        assert k in Elems(keys);
      }
    }
  }

  lemma DeleteOneRemoves(e: Engine, key: string, now: real)
    ensures var e' := DeleteOne(e, key, now).0;
      && e'.cache.l1 == Discard(e.cache.l1, {key})
      && e'.cache.initialized == e.cache.initialized
      && (e.cache.initialized ==> Layered.RedisKey(key) !in e'.cache.l2)
      && e'.cache.l2.Keys <= e.cache.l2.Keys
  {
  }

  // ----- what a semantic eviction counts -----

  /** The candidates that a `get` would have answered just before. */
  function Answered(e: Engine, keys: seq<string>, now: real): set<string> {
    set k | k in keys && Layered.CacheGet(e.cache, k, None, now).1 != Null
  }

  /** An earlier candidate whose metadata key is a later one's value key in Redis. */
  predicate MetaClash(keys: seq<string>) {
    exists i, j :: 0 <= i < j < |keys| && keys[j] == keys[i] + ":meta"
  }

  /** Where a key is, for a lookup as for a deletion. */
  predicate Holds(c: Layered.Cache, key: string, now: real) {
    key in c.l1.cache || (c.initialized && Layered.Live(c.l2, Layered.RedisKey(key), now))
  }

  lemma AnsweredIsHeld(c: Layered.Cache, key: string, now: real)
    requires Layered.CacheGet(c, key, None, now).1 != Null
    ensures Holds(c, key, now)
  {
  }

  /** Deleting one candidate leaves the others where they are, unless their value key is
      its metadata key. */
  lemma DeleteOneSpares(e: Engine, key: string, now: real, other: string)
    requires other != key && other != key + ":meta"
    ensures Holds(DeleteOne(e, key, now).0.cache, other, now) == Holds(e.cache, other, now)
  {
    Layered.RedisKeysDistinct(other, key);
    Layered.RedisKeysDistinct(other, key + ":meta");
    assert Layered.MetaKey(key) == Layered.RedisKey(key + ":meta") by {
      Associative("cache:", key, ":meta");
    }
  }

  lemma {:induction false} DeleteEachSpares(e: Engine, keys: seq<string>, now: real, other: string)
    requires forall i :: 0 <= i < |keys| ==> other != keys[i] && other != keys[i] + ":meta"
    ensures Holds(DeleteEach(e, keys, now).0.cache, other, now) == Holds(e.cache, other, now)
  {
    if keys != [] {
      DeleteEachSpares(e, keys[..|keys| - 1], now, other);
      DeleteOneSpares(DeleteEach(e, keys[..|keys| - 1], now).0, keys[|keys| - 1], now, other);
    }
  }

  lemma NoClashInPrefix(keys: seq<string>)
    requires keys != [] && Distinct(keys) && !MetaClash(keys)
    ensures Distinct(keys[..|keys| - 1]) && !MetaClash(keys[..|keys| - 1])
    ensures forall i :: 0 <= i < |keys| - 1 ==> keys[|keys| - 1] != keys[i] && keys[|keys| - 1] != keys[i] + ":meta"
  {
  }

  /** Without such a clash every candidate that a `get` would have answered is counted, and
      leaves the index. */
  lemma {:induction false} AnsweredAreCounted(e: Engine, keys: seq<string>, now: real)
    requires Distinct(keys) && !MetaClash(keys)
    ensures |Answered(e, keys, now)| <= DeleteEach(e, keys, now).1
    ensures Answered(e, keys, now) !! DeleteEach(e, keys, now).0.index.Keys
  {
    if keys == [] {
      assert Answered(e, keys, now) == {};
    } else {
      var prefix, last := keys[..|keys| - 1], keys[|keys| - 1];
      NoClashInPrefix(keys);
      AnsweredAreCounted(e, prefix, now);
      DeleteEachSpares(e, prefix, now, last);
      var all, before := Answered(e, keys, now), Answered(e, prefix, now);
      if Layered.CacheGet(e.cache, last, None, now).1 != Null {
        AnsweredIsHeld(e.cache, last, now);
        assert DeleteOne(DeleteEach(e, prefix, now).0, last, now).1;
        assert all <= before + {last};
        SubsetCardinality(all, before + {last});
      } else {
        assert all <= before;
        SubsetCardinality(all, before);
      }
    }
  }

  /** In memory, or live in Redis as value or metadata. */
  predicate IsSomewhere(c: Layered.Cache, k: string, now: real) {
    || k in c.l1.cache
    || (c.initialized && (Layered.Live(c.l2, Layered.RedisKey(k), now) || Layered.Live(c.l2, Layered.MetaKey(k), now)))
  }

  /** The candidates that are somewhere. */
  function Somewhere(e: Engine, keys: seq<string>, now: real): set<string> {
    set k | k in keys && IsSomewhere(e.cache, k, now)
  }

  /** No candidate's metadata key is another's value key. */
  predicate Unrelated(keys: seq<string>) {
    forall i, j :: 0 <= i < |keys| && 0 <= j < |keys| ==> keys[j] != keys[i] + ":meta"
  }

  lemma DeleteOneSparesAll(e: Engine, key: string, now: real, k: string)
    requires k != key && k != key + ":meta" && key != k + ":meta"
    ensures IsSomewhere(DeleteOne(e, key, now).0.cache, k, now) == IsSomewhere(e.cache, k, now)
  {
    Layered.RedisKeysDistinct(k, key);
    Layered.RedisKeysDistinct(k, key + ":meta");
    Layered.RedisKeysDistinct(k + ":meta", key);
    Layered.RedisKeysDistinct(k + ":meta", key + ":meta");
    Associative("cache:", key, ":meta");
    Associative("cache:", k, ":meta");
    assert (k + ":meta")[..|k|] == k && (key + ":meta")[..|key|] == key;
    assert |k| != |key| ==> |k + ":meta"| != |key + ":meta"|;
  }

  lemma {:induction false} DeleteEachSparesAll(e: Engine, keys: seq<string>, now: real, k: string)
    requires forall i :: 0 <= i < |keys| ==> k != keys[i] && k != keys[i] + ":meta" && keys[i] != k + ":meta"
    ensures IsSomewhere(DeleteEach(e, keys, now).0.cache, k, now) == IsSomewhere(e.cache, k, now)
  {
    if keys != [] {
      DeleteEachSparesAll(e, keys[..|keys| - 1], now, k);
      DeleteOneSparesAll(DeleteEach(e, keys[..|keys| - 1], now).0, keys[|keys| - 1], now, k);
    }
  }

  /** Then a semantic eviction counts, and takes from the index, exactly the candidates that
      are somewhere. */
  lemma {:induction false} CountsWhatIsSomewhere(e: Engine, keys: seq<string>, now: real)
    requires Distinct(keys) && Unrelated(keys)
    ensures DeleteEach(e, keys, now).1 == |Somewhere(e, keys, now)|
    ensures DeleteEach(e, keys, now).0.index.Keys == e.index.Keys - Somewhere(e, keys, now)
  {
    if keys == [] {
      assert Somewhere(e, keys, now) == {};
    } else {
      var prefix, last := keys[..|keys| - 1], keys[|keys| - 1];
      CountsWhatIsSomewhere(e, prefix, now);
      DeleteEachSparesAll(e, prefix, now, last);
      DeleteOneFinds(DeleteEach(e, prefix, now).0, last, now);
      SomewhereLast(e, keys, now);
    }
  }

  lemma SomewhereLast(e: Engine, keys: seq<string>, now: real)
    requires keys != [] && Distinct(keys)
    ensures var before, last := Somewhere(e, keys[..|keys| - 1], now), keys[|keys| - 1];
      && last !in before
      && Somewhere(e, keys, now) == before + (if IsSomewhere(e.cache, last, now) then {last} else {})
  {
    Unsnoc(keys);
  }

  lemma DeleteOneFinds(e: Engine, key: string, now: real)
    ensures var (e', found) := DeleteOne(e, key, now);
      && found == IsSomewhere(e.cache, key, now)
      && e'.index.Keys == e.index.Keys - (if found then {key} else {})
  {
  }

  lemma {:induction false} DeleteEachConcat(e: Engine, a: seq<string>, b: seq<string>, now: real)
    ensures var (mid, n) := DeleteEach(e, a, now);
      var (end, m) := DeleteEach(mid, b, now);
      DeleteEach(e, a + b, now) == (end, n + m)
  {
    if b == [] {
      assert a + b == a;
    } else {
      DeleteEachConcat(e, a, b[..|b| - 1], now);
      assert (a + b)[..|a + b| - 1] == a + b[..|b| - 1];
    }
  }

  predicate Nowhere(c: Layered.Cache, key: string) {
    key !in c.l1.cache && Layered.RedisKey(key) !in c.l2 && Layered.MetaKey(key) !in c.l2
  }

  lemma {:induction false} NowhereDeletesNothing(e: Engine, keys: seq<string>, now: real)
    requires InStep(e.cache.l1) && forall i :: 0 <= i < |keys| ==> Nowhere(e.cache, keys[i])
    ensures DeleteEach(e, keys, now) == (e, 0)
  {
    if keys != [] {
      var key := keys[|keys| - 1];
      NowhereDeletesNothing(e, keys[..|keys| - 1], now);
      DiscardAbsent(e.cache.l1, {key});
      assert e.cache.l2 - {Layered.RedisKey(key), Layered.MetaKey(key)} == e.cache.l2;
    }
  }

  /** One key in memory and another, live, in Redis only. */
  function Apart(first: string, second: string, now: real): Layered.Cache {
    var entry := Entry(first, Data("a"), now, now, 1, Some(1.0), None);
    Layered.Cache(L1(1, 1.0, map[first := entry], [first]), map[Layered.RedisKey(second) := Layered.Str(Data("b"), now + 1.0)], 1.0, true)
  }

  lemma ApartElsewhere(first: string, second: string, now: real, key: string)
    requires second == first + ":meta" && key != first && key != second
    ensures Nowhere(Apart(first, second, now), key)
  {
    Associative("cache:", key, ":meta");
    Layered.RedisKeysDistinct(key, second);
    Layered.RedisKeysDistinct(key + ":meta", second);
    assert (first + ":meta")[..|first|] == first && (key + ":meta")[..|key|] == key;
    assert key + ":meta" == first + ":meta" ==> |key| == |first|;
  }

  lemma ApartAnswers(first: string, second: string, now: real)
    requires second == first + ":meta"
    ensures Layered.RedisKey(second) == Layered.MetaKey(first)
    ensures Layered.CacheGet(Apart(first, second, now), first, None, now).1 != Null
    ensures Layered.CacheGet(Apart(first, second, now), second, None, now).1 != Null
  {
    Associative("cache:", first, ":meta");
    Layered.RedisKeysDistinct(second, second);
    assert second[|first|] == ':';
  }

  /** With a clash, both candidates can be answered and only the first be counted. */
  lemma ClashUndercounts(index: SemanticIndex.Index, keys: seq<string>, i: nat, j: nat, now: real)
    requires Distinct(keys) && i < j < |keys| && keys[j] == keys[i] + ":meta"
    ensures var e := Engine(Apart(keys[i], keys[j], now), index, NO_METRICS);
      {keys[i], keys[j]} <= Answered(e, keys, now) && DeleteEach(e, keys, now).1 == 1
  {
    var e := Engine(Apart(keys[i], keys[j], now), index, NO_METRICS);
    ApartAnswers(keys[i], keys[j], now);
    ClashCountsOne(e, keys, i, j, now);
  }

  lemma ClashCountsOne(e: Engine, keys: seq<string>, i: nat, j: nat, now: real)
    requires Distinct(keys) && i < j < |keys| && keys[j] == keys[i] + ":meta" && e.cache == Apart(keys[i], keys[j], now)
    ensures DeleteEach(e, keys, now).1 == 1
  {
    forall n | 0 <= n < i ensures Nowhere(e.cache, keys[..i][n]) {
      ApartElsewhere(keys[i], keys[j], now, keys[n]);
    }
    OnlyTheFirstCounts(e, keys[..i], keys[i], keys[j], keys[i + 1..], now);
    Around(keys, i);
  }

  lemma Around(keys: seq<string>, i: nat)
    requires i < |keys|
    ensures keys[..i] + ([keys[i]] + keys[i + 1..]) == keys
  {
  }

  lemma OnlyTheFirstCounts(e: Engine, before: seq<string>, first: string, second: string, after: seq<string>, now: real)
    requires e.cache == Apart(first, second, now) && second == first + ":meta"
    requires forall n :: 0 <= n < |before| ==> Nowhere(e.cache, before[n])
    ensures DeleteEach(e, before + ([first] + after), now).1 == 1
  {
    var mid := FirstTakesBoth(e, first, second, now);
    NowhereDeletesNothing(e, before, now);
    NowhereDeletesNothing(mid, after, now);
    DeleteEachConcat(e, before, [first] + after, now);
    DeleteEachConcat(e, [first], after, now);
  }

  /** Deleting the first takes the value of the second along as its metadata. */
  lemma FirstTakesBoth(e: Engine, first: string, second: string, now: real) returns (mid: Engine)
    requires e.cache == Apart(first, second, now) && second == first + ":meta"
    ensures DeleteEach(e, [first], now) == (mid, 1)
    ensures InStep(mid.cache.l1) && forall k :: Nowhere(mid.cache, k)
  {
    mid := DeleteOne(e, first, now).0;
    ApartAnswers(first, second, now);
    assert [first][..0] == [];
    assert [first][1..] == [];
    assert Filter([first], {first}) == [];
    assert mid.cache.l1.cache == map[] && mid.cache.l1.order == [] && mid.cache.l2 == map[];
  }

  /** Over every state of the engine. */
  ghost predicate CountsAnswered(keys: seq<string>) {
    forall e, now :: |Answered(e, keys, now)| <= DeleteEach(e, keys, now).1
  }

  /** A semantic eviction counts every candidate that a `get` would have answered, in every
      state, if and only if no candidate is an earlier one with `:meta` appended. */
  lemma CountsAnsweredExactly(keys: seq<string>)
    requires Distinct(keys)
    ensures CountsAnswered(keys) <==> !MetaClash(keys)
  {
    if MetaClash(keys) {
      var i, j :| 0 <= i < j < |keys| && keys[j] == keys[i] + ":meta";
      var e := Engine(Apart(keys[i], keys[j], 0.0), map[], NO_METRICS);
      ClashUndercounts(map[], keys, i, j, 0.0);
      SubsetCardinality({keys[i], keys[j]}, Answered(e, keys, 0.0));
      assert |Answered(e, keys, 0.0)| > DeleteEach(e, keys, 0.0).1;
    } else {
      forall e, now ensures |Answered(e, keys, now)| <= DeleteEach(e, keys, now).1 {
        AnsweredAreCounted(e, keys, now);
      }
    }
  }

  // ----- a purge is invisible until the next insertion -----

  datatype Lookup = LookupGet(key: string, now: real) | LookupDrop(keys: set<string>)

  function Act(s: L1, op: Lookup): (L1, Value) {
    match op
    case LookupGet(k, now) => Get(s, k, now)
    case LookupDrop(keys) => (Discard(s, keys), Null)
  }

  /** What a sequence of lookups and deletions answers. */
  function Answers(s: L1, ops: seq<Lookup>): seq<Value>
    decreases |ops|
  {
    if ops == [] then [] else [Act(s, ops[0]).1] + Answers(Act(s, ops[0]).0, ops[1..])
  }

  /** Every key of `gone` that is still present expired by `since`. */
  ghost predicate AllExpired(s: L1, gone: set<string>, since: real) {
    forall k :: k in gone && k in s.cache ==> s.cache[k].Expired(since)
  }

  lemma DiscardCommutes(s: L1, a: set<string>, b: set<string>)
    ensures Discard(Discard(s, a), b) == Discard(Discard(s, b), a)
  {
    DiscardTwice(s, a, b);
    DiscardTwice(s, b, a);
    assert a + b == b + a;
  }

  lemma HitWithout(s: L1, gone: set<string>, k: string, now: real)
    requires Hit(s, k, now) && k !in gone
    ensures Get(Discard(s, gone), k, now) == (Discard(Get(s, k, now).0, gone), s.cache[k].value)
  {
    FilterConcat(Filter(s.order, {k}), [k], gone);
    FilterTwice(s.order, {k}, gone);
    FilterTwice(s.order, gone, {k});
    assert {k} + gone == gone + {k};
    assert Filter([k], gone) == [k];
    var e := s.cache[k].Touched(now);
    assert s.cache[k := e] - gone == (s.cache - gone)[k := e];
  }

  lemma GetWithout(s: L1, gone: set<string>, k: string, now: real, since: real)
    requires AllExpired(s, gone, since) && since <= now
    ensures Get(Discard(s, gone), k, now).1 == Get(s, k, now).1
    ensures Get(Discard(s, gone), k, now).0 == Discard(Get(s, k, now).0, gone)
    ensures AllExpired(Get(s, k, now).0, gone, since)
  {
    if Hit(s, k, now) {
      assert k !in gone;
      HitWithout(s, gone, k, now);
    } else if k in s.cache {
      DiscardCommutes(s, {k}, gone);
      if k in gone {
        DiscardTwice(s, gone, {k});
        assert gone + {k} == gone;
      }
    }
  }

  lemma {:induction false} AnswersWithout(s: L1, gone: set<string>, since: real, ops: seq<Lookup>)
    requires AllExpired(s, gone, since)
    requires forall i :: 0 <= i < |ops| && ops[i].LookupGet? ==> since <= ops[i].now
    ensures Answers(Discard(s, gone), ops) == Answers(s, ops)
    decreases |ops|
  {
    if ops != [] {
      match ops[0] {
        case LookupGet(k, now) => GetWithout(s, gone, k, now, since);
        case LookupDrop(keys) => DiscardCommutes(s, gone, keys);
      }
      AnswersWithout(Act(s, ops[0]).0, gone, since, ops[1..]);
    }
  }

  /** Purging at `now` changes the answer of no later lookup, whatever lookups and
      deletions follow. */
  lemma PurgeIsInvisible(e: Engine, keys: seq<string>, now: real, ops: seq<Lookup>)
    requires ListsExpired(e.cache.l1, keys, now)
    requires forall i :: 0 <= i < |ops| && ops[i].LookupGet? ==> now <= ops[i].now
    ensures Answers(PurgeExpired(e, keys, now).cache.l1, ops) == Answers(e.cache.l1, ops)
  {
    AnswersWithout(e.cache.l1, Elems(keys), now, ops);
  }
}
