/** The Redis layer, the read-through cache over both layers, and what a `get`
    may return in a sequential run. */
module Layered {
  import opened Common
  import opened L1Spec
  import TenantKeys

  // ----- the Redis layer -----

  /** A Redis key holds a string that expires, or a hash that may. */
  datatype Slot = Str(value: Value, expiry: real) | Hash(hashExpiry: Option<real>)

  type Redis = map<string, Slot>

  function ExpiryOf(slot: Slot): Option<real> {
    match slot
    case Str(_, e) => Some(e)
    case Hash(e) => e
  }

  /** A key is gone from the instant of its expiry. */
  predicate Live(st: Redis, k: string, now: real) {
    k in st && (ExpiryOf(st[k]).Some? ==> now < ExpiryOf(st[k]).value)
  }

  function RedisKey(fullKey: string): string {
    "cache:" + fullKey
  }

  function MetaKey(fullKey: string): string {
    RedisKey(fullKey) + ":meta"
  }

  /** `hset` fails on a live string (`None`); otherwise it keeps a live hash's expiry. */
  function HSet(st: Redis, k: string, now: real): Option<Redis> {
    if !Live(st, k, now) then Some(st[k := Hash(None)])
    else if st[k].Hash? then Some(st)
    else None
  }

  /** A wrong-type error on the value or on its metadata reads as a miss. */
  function L2Get(st: Redis, fk: string, now: real): (Redis, Value) {
    var k := RedisKey(fk);
    if !Live(st, k, now) || st[k].Hash? then (st, Null)
    else match HSet(st, MetaKey(fk), now)
      case None => (st, Null)
      case Some(st') => (st', st[k].value)
  }

  function Seconds(ttl: Option<real>, default: real): int {
    Trunc(EffectiveTtl(ttl, default))
  }

  /** Redis rejects a non-positive lifetime, and the error is swallowed. */
  function L2Set(st: Redis, fk: string, v: Value, ttl: Option<real>, default: real, now: real): Redis {
    var secs := Seconds(ttl, default);
    if secs <= 0 then st
    else
      var st1 := st[RedisKey(fk) := Str(v, now + secs as real)];
      match HSet(st1, MetaKey(fk), now)
      case None => st1
      case Some(st2) => st2[MetaKey(fk) := Hash(Some(now + secs as real))]
  }

  function L2Delete(st: Redis, fk: string, now: real): (Redis, bool) {
    (st - {RedisKey(fk), MetaKey(fk)}, Live(st, RedisKey(fk), now) || Live(st, MetaKey(fk), now))
  }

  // ----- both layers -----

  datatype Levels = Levels(l1: bool, l2: bool)

  datatype Cache = Cache(l1: L1, l2: Redis, l2Default: real, initialized: bool)

  function New(l1Size: int, l1Ttl: real, l2Ttl: real, initialized: bool): Cache {
    Cache(Empty(l1Size, l1Ttl), map[], l2Ttl, initialized)
  }

  /** Reads through to Redis and promotes what it finds there with the default lifetime. */
  function CacheGet(c: Cache, key: string, tenant: Option<string>, now: real): (Cache, Value) {
    var fk := MakeKey(key, tenant);
    var (l1, v) := Get(c.l1, fk, now);
    if v != Null then (c.(l1 := l1), v)
    else if !c.initialized then (c.(l1 := l1), Null)
    else
      var (l2, w) := L2Get(c.l2, fk, now);
      if w == Null then (c.(l1 := l1, l2 := l2), Null)
      else (c.(l1 := Set(l1, fk, w, None, tenant, now), l2 := l2), w)
  }

  function CacheSet(c: Cache, key: string, v: Value, ttl: Option<real>, tenant: Option<string>, on: Levels, now: real): Cache {
    var fk := MakeKey(key, tenant);
    c.(l1 := if on.l1 then Set(c.l1, fk, v, ttl, tenant, now) else c.l1,
       l2 := if on.l2 && c.initialized then L2Set(c.l2, fk, v, ttl, c.l2Default, now) else c.l2)
  }

  function CacheDelete(c: Cache, key: string, tenant: Option<string>, on: Levels, now: real): (Cache, bool) {
    var fk := MakeKey(key, tenant);
    var (l2, found) := if on.l2 && c.initialized then L2Delete(c.l2, fk, now) else (c.l2, false);
    (c.(l1 := if on.l1 then Discard(c.l1, {fk}) else c.l1, l2 := l2), (on.l1 && fk in c.l1.cache) || found)
  }

  /** Only the in-memory layer is cleared: the Redis branch fails and is logged. */
  function CacheClear(c: Cache, tenant: string): (Cache, nat) {
    var keys := TenantFieldKeys(c.l1, tenant);
    (c.(l1 := Discard(c.l1, keys)), |keys|)
  }

  // ----- runs -----

  datatype Op =
    | OpGet(key: string, tenant: Option<string>, now: real)
    | OpSet(key: string, tenant: Option<string>, value: Value, ttl: Option<real>, on: Levels, now: real)
    | OpDelete(key: string, tenant: Option<string>, on: Levels, now: real)
    | OpClear(tenantId: string)
    | OpEvict(keys: set<string>)  // any eviction from the in-memory layer

  function Step(c: Cache, op: Op): (Cache, Value) {
    match op
    case OpGet(key, tenant, now) => CacheGet(c, key, tenant, now)
    case OpSet(key, tenant, v, ttl, on, now) => (CacheSet(c, key, v, ttl, tenant, on, now), Null)
    case OpDelete(key, tenant, on, now) => (CacheDelete(c, key, tenant, on, now).0, Null)
    case OpClear(t) => (CacheClear(c, t).0, Null)
    case OpEvict(keys) => (c.(l1 := Discard(c.l1, keys)), Null)
  }

  function Run(c: Cache, ops: seq<Op>): Cache {
    if ops == [] then c
    else Step(Run(c, ops[..|ops| - 1]), ops[|ops| - 1]).0
  }

  /** What a plain map would hold for `fk` after `ops`. */
  function Latest(ops: seq<Op>, fk: string): Option<Value> {
    if ops == [] then None
    else
      var op := ops[|ops| - 1];
      if op.OpSet? && MakeKey(op.key, op.tenant) == fk then Some(op.value)
      else if op.OpDelete? && MakeKey(op.key, op.tenant) == fk then None
      else Latest(ops[..|ops| - 1], fk)
  }

  /** A write that reaches both layers: default levels and a lifetime Redis accepts. */
  predicate ReachesAllLayers(op: Op, l2Default: real) {
    match op
    case OpSet(_, _, _, ttl, on, _) => on.l1 && on.l2 && Seconds(ttl, l2Default) >= 1
    case OpDelete(_, _, on, _) => on.l1 && on.l2
    case _ => true
  }

  predicate AllReach(ops: seq<Op>, l2Default: real) {
    forall i :: 0 <= i < |ops| ==> ReachesAllLayers(ops[i], l2Default)
  }

  /** Both layers hold nothing but the latest value of each key. */
  ghost predicate Agrees(c: Cache, ops: seq<Op>) {
    && (forall fk :: fk in c.l1.cache ==> Latest(ops, fk) == Some(c.l1.cache[fk].value))
    && (c.initialized ==> forall fk :: RedisKey(fk) in c.l2 && c.l2[RedisKey(fk)].Str? ==>
          Latest(ops, fk) == Some(c.l2[RedisKey(fk)].value))
  }

  lemma RedisKeysDistinct(a: string, b: string)
    ensures RedisKey(a) == RedisKey(b) ==> a == b
    ensures MetaKey(a) != RedisKey(a)
  {
    assert RedisKey(a)[|"cache:"|..] == a && RedisKey(b)[|"cache:"|..] == b;
    assert |MetaKey(a)| > |RedisKey(a)|;
  }

  /** The string values of a Redis state, by cache key: all that a `get` can return. */
  ghost predicate StringsWithin(st: Redis, st': Redis, except: string) {
    forall fk :: fk != except && RedisKey(fk) in st' && st'[RedisKey(fk)].Str? ==>
      RedisKey(fk) in st && st[RedisKey(fk)] == st'[RedisKey(fk)]
  }

  /** Metadata writes never create or change a string. */
  lemma L2GetStrings(st: Redis, fk: string, now: real)
    ensures forall k :: k in L2Get(st, fk, now).0 && L2Get(st, fk, now).0[k].Str? ==>
      k in st && st[k] == L2Get(st, fk, now).0[k]
  {
  }

  lemma L2SetStrings(st: Redis, fk: string, v: Value, ttl: Option<real>, default: real, now: real)
    requires Seconds(ttl, default) >= 1
    ensures var st' := L2Set(st, fk, v, ttl, default, now);
      && StringsWithin(st, st', fk)
      && RedisKey(fk) in st' && st'[RedisKey(fk)] == Str(v, now + Seconds(ttl, default) as real)
  {
    RedisKeysDistinct(fk, fk);
    forall other | other != fk ensures RedisKey(other) != RedisKey(fk) {
      RedisKeysDistinct(other, fk);
    }
  }

  lemma {:induction false} RunAgrees(c: Cache, ops: seq<Op>)
    requires c.l1.cache == map[] && c.l2 == map[]
    requires AllReach(ops, c.l2Default)
    ensures Agrees(Run(c, ops), ops)
    ensures Run(c, ops).l2Default == c.l2Default && Run(c, ops).initialized == c.initialized
  {
    if ops != [] {
      var n := |ops| - 1;
      RunAgrees(c, ops[..n]);
      assert ReachesAllLayers(ops[n], c.l2Default);
      StepAgrees(Run(c, ops[..n]), ops[..n], ops[n]);
      assert ops[..n] + [ops[n]] == ops;
    }
  }

  lemma LatestStep(ops: seq<Op>, op: Op, fk: string)
    ensures Latest(ops + [op], fk) ==
      if op.OpSet? && MakeKey(op.key, op.tenant) == fk then Some(op.value)
      else if op.OpDelete? && MakeKey(op.key, op.tenant) == fk then None
      else Latest(ops, fk)
  {
    assert (ops + [op])[..|ops|] == ops;
  }

  /** `later` extends `ops` by one operation that neither sets nor deletes. */
  ghost predicate SameLatest(ops: seq<Op>, later: seq<Op>) {
    forall fk :: Latest(later, fk) == Latest(ops, fk)
  }

  lemma GetAgrees(c: Cache, ops: seq<Op>, later: seq<Op>, key: string, tenant: Option<string>, now: real)
    requires Agrees(c, ops) && SameLatest(ops, later)
    ensures Agrees(CacheGet(c, key, tenant, now).0, later)
  {
    var fk := MakeKey(key, tenant);
    var (l1, v) := Get(c.l1, fk, now);
    L1GetValues(c.l1, fk, now);
    if v == Null && c.initialized {
      L2GetStrings(c.l2, fk, now);
      var (l2, w) := L2Get(c.l2, fk, now);
      if w != Null {
        L1SetValues(l1, fk, w, None, tenant, now);
      }
    }
  }

  /** A lookup brings no new key or value into the in-memory layer. */
  lemma L1GetValues(s: L1, k: string, now: real)
    ensures forall x :: x in Get(s, k, now).0.cache ==> x in s.cache && s.cache[x].value == Get(s, k, now).0.cache[x].value
    ensures Get(s, k, now).1 != Null ==> k in s.cache && s.cache[k].value == Get(s, k, now).1
  {
  }

  /** A write brings in nothing but its own key and value. */
  lemma L1SetValues(s: L1, k: string, v: Value, ttl: Option<real>, tenant: Option<string>, now: real)
    ensures var s' := Set(s, k, v, ttl, tenant, now);
      forall x :: x in s'.cache ==> if x == k then s'.cache[x].value == v else x in s.cache && s.cache[x] == s'.cache[x]
  {
  }

  lemma SetAgrees(c: Cache, ops: seq<Op>, op: Op)
    requires Agrees(c, ops) && ReachesAllLayers(op, c.l2Default) && op.OpSet?
    ensures Agrees(CacheSet(c, op.key, op.value, op.ttl, op.tenant, op.on, op.now), ops + [op])
  {
    var fk := MakeKey(op.key, op.tenant);
    L2SetStrings(c.l2, fk, op.value, op.ttl, c.l2Default, op.now);
    forall k ensures Latest(ops + [op], k) == if k == fk then Some(op.value) else Latest(ops, k) {
      LatestStep(ops, op, k);
    }
  }

  lemma DeleteAgrees(c: Cache, ops: seq<Op>, op: Op)
    requires Agrees(c, ops) && ReachesAllLayers(op, c.l2Default) && op.OpDelete?
    ensures Agrees(CacheDelete(c, op.key, op.tenant, op.on, op.now).0, ops + [op])
  {
    var fk := MakeKey(op.key, op.tenant);
    forall k ensures Latest(ops + [op], k) == if k == fk then None else Latest(ops, k) {
      LatestStep(ops, op, k);
    }
  }

  lemma StepAgrees(c: Cache, ops: seq<Op>, op: Op)
    requires Agrees(c, ops) && ReachesAllLayers(op, c.l2Default)
    ensures Agrees(Step(c, op).0, ops + [op])
  {
    if op.OpSet? {
      SetAgrees(c, ops, op);
    } else if op.OpDelete? {
      DeleteAgrees(c, ops, op);
    } else {
      forall k ensures Latest(ops + [op], k) == Latest(ops, k) {
        LatestStep(ops, op, k);
      }
      if op.OpGet? {
        GetAgrees(c, ops, ops + [op], op.key, op.tenant, op.now);
      }
    }
  }

  /** A `get` returns the latest value of its key or misses: never an older value,
      never another key's. */
  lemma GetIsLatestOrMiss(c: Cache, ops: seq<Op>, key: string, tenant: Option<string>, now: real)
    requires c.l1.cache == map[] && c.l2 == map[]
    requires AllReach(ops, c.l2Default)
    ensures var v := CacheGet(Run(c, ops), key, tenant, now).1;
      v == Null || Latest(ops, MakeKey(key, tenant)) == Some(v)
  {
    RunAgrees(c, ops);
  }

  // ----- tenants -----

  predicate OpScoped(op: Op) {
    match op
    case OpGet(key, tenant, _) => TenantKeys.WellScoped(key, tenant)
    case OpSet(key, tenant, _, _, _, _) => TenantKeys.WellScoped(key, tenant)
    case OpDelete(key, tenant, _, _) => TenantKeys.WellScoped(key, tenant)
    case _ => true
  }

  predicate SetsExactly(op: Op, key: string, tenant: Option<string>, v: Value) {
    op.OpSet? && op.key == key && op.tenant == tenant && op.value == v
  }

  /** Some operation set this value under this full key. */
  ghost predicate WasSet(ops: seq<Op>, fk: string, v: Value) {
    exists i :: 0 <= i < |ops| && Sets(ops[i], fk, v)
  }

  predicate Sets(op: Op, fk: string, v: Value) {
    op.OpSet? && MakeKey(op.key, op.tenant) == fk && op.value == v
  }

  /** Both layers hold only values that were set under the very key they are stored at. */
  ghost predicate FromSets(c: Cache, ops: seq<Op>) {
    && (forall fk :: fk in c.l1.cache ==> WasSet(ops, fk, c.l1.cache[fk].value))
    && (forall fk :: RedisKey(fk) in c.l2 && c.l2[RedisKey(fk)].Str? ==> WasSet(ops, fk, c.l2[RedisKey(fk)].value))
  }

  lemma FromSetsLater(c: Cache, ops: seq<Op>, op: Op)
    requires FromSets(c, ops)
    ensures FromSets(c, ops + [op])
  {
    forall fk, v | WasSet(ops, fk, v) ensures WasSet(ops + [op], fk, v) {
      var i :| 0 <= i < |ops| && Sets(ops[i], fk, v);
      assert (ops + [op])[i] == ops[i];
    }
  }

  lemma SetFromSets(c: Cache, ops: seq<Op>, op: Op)
    requires FromSets(c, ops) && op.OpSet?
    ensures FromSets(CacheSet(c, op.key, op.value, op.ttl, op.tenant, op.on, op.now), ops + [op])
  {
    var fk := MakeKey(op.key, op.tenant);
    FromSetsLater(c, ops, op);
    assert Sets((ops + [op])[|ops|], fk, op.value);
    L1SetValues(c.l1, fk, op.value, op.ttl, op.tenant, op.now);
    if Seconds(op.ttl, c.l2Default) >= 1 {
      L2SetStrings(c.l2, fk, op.value, op.ttl, c.l2Default, op.now);
    }
  }

  lemma GetFromSets(c: Cache, ops: seq<Op>, key: string, tenant: Option<string>, now: real)
    requires FromSets(c, ops)
    ensures FromSets(CacheGet(c, key, tenant, now).0, ops)
    ensures var v := CacheGet(c, key, tenant, now).1; v == Null || WasSet(ops, MakeKey(key, tenant), v)
  {
    var fk := MakeKey(key, tenant);
    var (l1, v) := Get(c.l1, fk, now);
    L1GetValues(c.l1, fk, now);
    if v == Null && c.initialized {
      L2GetStrings(c.l2, fk, now);
      var w := L2Get(c.l2, fk, now).1;
      L1SetValues(l1, fk, w, None, tenant, now);
    }
  }

  lemma {:induction false} RunFromSets(c: Cache, ops: seq<Op>)
    requires c.l1.cache == map[] && c.l2 == map[]
    ensures FromSets(Run(c, ops), ops)
  {
    if ops != [] {
      var n := |ops| - 1;
      var before, op := Run(c, ops[..n]), ops[n];
      RunFromSets(c, ops[..n]);
      FromSetsLater(before, ops[..n], op);
      assert ops[..n] + [op] == ops;
      match op {
        case OpGet(key, tenant, now) => GetFromSets(before, ops, key, tenant, now);
        case OpSet(_, _, _, _, _, _) => SetFromSets(before, ops[..n], op);
        case OpDelete(_, _, _, _) =>
        case OpClear(_) =>
        case OpEvict(_) =>
      }
    }
  }

  /** No tenant reads another's value, whatever levels and lifetimes the writes have:
      what a `get` returns was set by an earlier operation with the very same key and
      the very same tenant. */
  lemma GetStaysInTenant(c: Cache, ops: seq<Op>, key: string, tenant: Option<string>, now: real)
    requires c.l1.cache == map[] && c.l2 == map[]
    requires TenantKeys.WellScoped(key, tenant) && forall i :: 0 <= i < |ops| ==> OpScoped(ops[i])
    ensures var v := CacheGet(Run(c, ops), key, tenant, now).1;
      v == Null || exists i :: 0 <= i < |ops| && SetsExactly(ops[i], key, tenant, v)
  {
    var v := CacheGet(Run(c, ops), key, tenant, now).1;
    RunFromSets(c, ops);
    GetFromSets(Run(c, ops), ops, key, tenant, now);
    if v != Null {
      var i :| 0 <= i < |ops| && Sets(ops[i], MakeKey(key, tenant), v);
      assert OpScoped(ops[i]);
      TenantKeys.MakeKeyInjective(ops[i].key, ops[i].tenant, key, tenant);
    }
  }

  /** In every run of well-scoped operations each entry in memory sits under the key of
      its own tenant. */
  lemma {:induction false} RunScoped(c: Cache, ops: seq<Op>)
    requires c.l1.cache == map[] && forall i :: 0 <= i < |ops| ==> OpScoped(ops[i])
    ensures TenantKeys.Scoped(Run(c, ops).l1)
  {
    if ops != [] {
      var n := |ops| - 1;
      RunScoped(c, ops[..n]);
      assert OpScoped(ops[n]);
      StepScoped(Run(c, ops[..n]), ops[n]);
    }
  }

  lemma StepScoped(c: Cache, op: Op)
    requires TenantKeys.Scoped(c.l1) && OpScoped(op)
    ensures TenantKeys.Scoped(Step(c, op).0.l1)
  {
    match op {
      case OpGet(key, tenant, now) =>
        var fk := MakeKey(key, tenant);
        TenantKeys.GetKeepsScoped(c.l1, fk, now);
        TenantKeys.SetKeepsScoped(Get(c.l1, fk, now).0, key, L2Get(c.l2, fk, now).1, None, tenant, now);
      case OpSet(key, tenant, v, ttl, _, now) => TenantKeys.SetKeepsScoped(c.l1, key, v, ttl, tenant, now);
      case OpDelete(key, tenant, _, _) => TenantKeys.DiscardKeepsScoped(c.l1, {MakeKey(key, tenant)});
      case OpClear(t) => TenantKeys.DiscardKeepsScoped(c.l1, TenantFieldKeys(c.l1, t));
      case OpEvict(keys) => TenantKeys.DiscardKeepsScoped(c.l1, keys);
    }
  }

  /** After every such run, clearing by key prefix and clearing by entry field remove the
      same entries, return the same count and leave the others in the same order, and
      every lookup outside the tenant answers as before. */
  lemma ClearsAgreeInEveryRun(c: Cache, ops: seq<Op>, tenant: string, key: string, other: Option<string>, now: real)
    requires c.l1.cache == map[] && forall i :: 0 <= i < |ops| ==> OpScoped(ops[i])
    requires tenant != "" && TenantKeys.ColonFree(tenant) && TenantKeys.WellScoped(key, other) && other != Some(tenant)
    ensures var s := Run(c, ops).l1;
      && Discard(s, TenantPrefixKeys(s, tenant)) == Discard(s, TenantFieldKeys(s, tenant))
      && |TenantPrefixKeys(s, tenant)| == CacheClear(Run(c, ops), tenant).1
      && Get(CacheClear(Run(c, ops), tenant).0.l1, MakeKey(key, other), now).1 == Get(s, MakeKey(key, other), now).1
  {
    RunScoped(c, ops);
    TenantKeys.ClearsAgree(Run(c, ops).l1, tenant);
    TenantKeys.ClearKeepsOthers(Run(c, ops).l1, tenant, key, other, now);
  }

  /** After every such run and a clear, the tenant's own lookups see exactly what Redis
      still holds. */
  lemma ClearLeavesRedis(c: Cache, ops: seq<Op>, tenant: string, key: string, now: real)
    requires c.l1.cache == map[] && forall i :: 0 <= i < |ops| ==> OpScoped(ops[i])
    requires tenant != "" && TenantKeys.ColonFree(tenant)
    ensures var end := Run(c, ops);
      CacheGet(CacheClear(end, tenant).0, key, Some(tenant), now).1 ==
        if end.initialized then L2Get(end.l2, MakeKey(key, Some(tenant)), now).1 else Null
  {
    var s, fk := Run(c, ops).l1, MakeKey(key, Some(tenant));
    RunScoped(c, ops);
    TenantKeys.QualifiedAt(tenant, key);
    TenantKeys.ClearsAgree(s, tenant);
    assert fk in s.cache ==> fk in TenantPrefixKeys(s, tenant);
  }

  // ----- exactly which writes keep every later read fresh -----

  function Time(op: Op): Option<real> {
    match op
    case OpGet(_, _, now) => Some(now)
    case OpSet(_, _, _, _, _, now) => Some(now)
    case OpDelete(_, _, _, now) => Some(now)
    case _ => None
  }

  predicate Clocked(ops: seq<Op>) {
    forall i, j :: 0 <= i < j < |ops| && Time(ops[i]).Some? && Time(ops[j]).Some? ==>
      Time(ops[i]).value <= Time(ops[j]).value
  }

  predicate StaleRead(c: Cache, ops: seq<Op>, key: string, tenant: Option<string>, now: real) {
    var v := CacheGet(Run(c, ops), key, tenant, now).1;
    v != Null && Latest(ops, MakeKey(key, tenant)) != Some(v)
  }

  function OlderValue(op: Op): Value {
    if op.OpSet? && op.value == Data("old") then Data("older") else Data("old")
  }

  /** The state after one write of `v` to both layers of a fresh cache. */
  lemma FirstWrite(size: int, l1Ttl: real, l2Ttl: real, key: string, tenant: Option<string>, v: Value, ttl: real, now: real)
    requires size >= 1 && ttl >= 10.0
    ensures var fk := MakeKey(key, tenant);
      var op := OpSet(key, tenant, v, Some(ttl), Levels(true, true), now);
      var c := Run(New(size, l1Ttl, l2Ttl, true), [op]);
      && c.l1 == L1(size, l1Ttl, map[fk := Entry(fk, v, now, now, 1, Some(ttl), tenant)], [fk])
      && RedisKey(fk) in c.l2 && MetaKey(fk) in c.l2 && c.initialized && c.l2Default == l2Ttl
      && c.l2[RedisKey(fk)] == Str(v, now + Trunc(ttl) as real)
      && c.l2[MetaKey(fk)] == Hash(Some(now + Trunc(ttl) as real))
      && ttl - 1.0 < Trunc(ttl) as real
  {
    var fk := MakeKey(key, tenant);
    var op := OpSet(key, tenant, v, Some(ttl), Levels(true, true), now);
    var c0 := New(size, l1Ttl, l2Ttl, true);
    assert [op][..0] == [];
    var stored := Store(c0.l1, fk, NewEntry(c0.l1, fk, v, Some(ttl), tenant, now));
    assert stored.cache.Keys == {fk};
    assert |stored.cache| == |stored.cache.Keys| == 1;
    RedisKeysDistinct(fk, fk);
    assert Run(c0, [op]) == CacheSet(c0, key, v, Some(ttl), tenant, Levels(true, true), now);
  }

  /** A write that misses a layer lets some later `get` return an outdated value. */
  lemma MissedLayerGoesStale(op: Op, size: int, l1Ttl: real, l2Ttl: real) returns (first: Op, now: real)
    requires size >= 1 && (op.OpSet? || op.OpDelete?)
    requires !ReachesAllLayers(op, l2Ttl)
    ensures AllReach([first], l2Ttl)
    ensures Clocked([first] + [op, OpGet(op.key, op.tenant, now)])
    ensures StaleRead(New(size, l1Ttl, l2Ttl, true), [first] + [op], op.key, op.tenant, now)
  {
    var fk := MakeKey(op.key, op.tenant);
    var lasts := if op.OpSet? then MaxReal(EffectiveTtl(op.ttl, l1Ttl), 0.0) else 0.0;
    var v := OlderValue(op);
    first := OpSet(op.key, op.tenant, v, Some(lasts + 10.0), Levels(true, true), op.now);
    now := op.now + lasts + 1.0;
    var c0 := New(size, l1Ttl, l2Ttl, true);
    FirstWrite(size, l1Ttl, l2Ttl, op.key, op.tenant, v, lasts + 10.0, op.now);
    OlderValueSurvives(Run(c0, [first]), op, v, lasts, now);
    LastStep(c0, [first], op);
    LatestStep([first], op, fk);
  }

  lemma LastStep(c: Cache, ops: seq<Op>, op: Op)
    ensures Run(c, ops + [op]) == Step(Run(c, ops), op).0
  {
    assert (ops + [op])[..|ops|] == ops;
  }

  /** One layer still answers with the value that `op` failed to replace there. */
  lemma OlderValueSurvives(c: Cache, op: Op, v: Value, lasts: real, now: real)
    requires (op.OpSet? || op.OpDelete?) && !ReachesAllLayers(op, c.l2Default)
    requires c.l1.maxSize >= 1 && c.initialized && v != Null && lasts >= 0.0
    requires now == op.now + lasts + 1.0 && (op.OpSet? ==> lasts >= EffectiveTtl(op.ttl, c.l1.defaultTtl))
    requires var fk := MakeKey(op.key, op.tenant);
      && c.l1.cache == map[fk := Entry(fk, v, op.now, op.now, 1, Some(lasts + 10.0), op.tenant)] && c.l1.order == [fk]
      && RedisKey(fk) in c.l2 && c.l2[RedisKey(fk)].Str? && c.l2[RedisKey(fk)].value == v
      && Live(c.l2, RedisKey(fk), now)
      && MetaKey(fk) in c.l2 && c.l2[MetaKey(fk)].Hash?
    ensures CacheGet(Step(c, op).0, op.key, op.tenant, now).1 == v
  {
    var fk := MakeKey(op.key, op.tenant);
    var c' := Step(c, op).0;
    if op.on.l1 {
      L1LosesKey(c.l1, op, lasts, now);
      assert c'.l2 == c.l2;
      assert L2Get(c'.l2, fk, now).1 == v;
    } else {
      assert c'.l1 == c.l1;
    }
  }

  /** By `now`, what `op` left in the in-memory layer is gone or has expired. */
  lemma L1LosesKey(s: L1, op: Op, lasts: real, now: real)
    requires (op.OpSet? || op.OpDelete?) && op.on.l1 && s.maxSize >= 1
    requires var fk := MakeKey(op.key, op.tenant);
      s.cache.Keys == {fk} && s.order == [fk]
    requires now == op.now + lasts + 1.0 && (op.OpSet? ==> lasts >= EffectiveTtl(op.ttl, s.defaultTtl))
    ensures var fk := MakeKey(op.key, op.tenant);
      var s' := if op.OpSet? then Set(s, fk, op.value, op.ttl, op.tenant, op.now) else Discard(s, {fk});
      Get(s', fk, now).1 == Null
  {
    var fk := MakeKey(op.key, op.tenant);
    if op.OpSet? {
      var stored := Store(s, fk, NewEntry(s, fk, op.value, op.ttl, op.tenant, op.now));
      assert stored.cache.Keys == {fk};
      assert |stored.cache| == |stored.cache.Keys| == 1;
    }
  }

  /** No clocked run of layer-reaching writes ending in `op` makes a later read of its key stale. */
  ghost predicate FreshAfter(op: Op, size: int, l1Ttl: real, l2Ttl: real)
    requires op.OpSet? || op.OpDelete?
  {
    forall before, now :: AllReach(before, l2Ttl) && Clocked(before + [op, OpGet(op.key, op.tenant, now)]) ==>
      !StaleRead(New(size, l1Ttl, l2Ttl, true), before + [op], op.key, op.tenant, now)
  }

  /** A write keeps later reads fresh if and only if it reaches both layers. */
  lemma FreshExactlyWhenAllLayersReached(op: Op, size: int, l1Ttl: real, l2Ttl: real)
    requires size >= 1 && (op.OpSet? || op.OpDelete?)
    ensures FreshAfter(op, size, l1Ttl, l2Ttl) <==> ReachesAllLayers(op, l2Ttl)
  {
    if ReachesAllLayers(op, l2Ttl) {
      forall before, now | AllReach(before, l2Ttl)
        ensures !StaleRead(New(size, l1Ttl, l2Ttl, true), before + [op], op.key, op.tenant, now)
      {
        GetIsLatestOrMiss(New(size, l1Ttl, l2Ttl, true), before + [op], op.key, op.tenant, now);
      }
    } else {
      var first, now := MissedLayerGoesStale(op, size, l1Ttl, l2Ttl);
    }
  }

  // ----- what single calls promise -----

  /** What Redis answers: the live string at the key, unless a live string at its metadata key
      makes the bookkeeping fail; and no read disturbs what later reads answer. */
  lemma RedisReadExactly(st: Redis, fk: string, now: real, other: string, later: real)
    requires now <= later
    ensures L2Get(st, fk, now).1 ==
      if Live(st, RedisKey(fk), now) && st[RedisKey(fk)].Str? && !(Live(st, MetaKey(fk), now) && st[MetaKey(fk)].Str?)
      then st[RedisKey(fk)].value else Null
    ensures L2Get(st, fk, now).0 == st || L2Get(st, fk, now).0 == st[MetaKey(fk) := Hash(None)]
    ensures L2Get(L2Get(st, fk, now).0, other, later).1 == L2Get(st, other, later).1
  {
    RedisKeysDistinct(other, fk);
  }

  /** A write of at least a second is readable from Redis until exactly its whole seconds have
      passed, unless its metadata key holds someone's live string; a shorter one changes
      nothing. Without a lifetime, or with zero, the default counts. */
  lemma RedisKeepsForLifetime(st: Redis, fk: string, v: Value, ttl: Option<real>, default: real, now: real, later: real)
    requires now <= later
    requires Live(st, MetaKey(fk), now) ==> st[MetaKey(fk)].Hash?
    ensures var lifetime, st' := if ttl == None || ttl == Some(0.0) then default else ttl.value, L2Set(st, fk, v, ttl, default, now);
      if lifetime >= 1.0 then L2Get(st', fk, later).1 == if later < now + lifetime.Floor as real then v else Null
      else st' == st
  {
    RedisKeysDistinct(fk, fk);
  }

  /** A `get` after a `set` returns the value for as long as the in-memory lifetime runs. */
  lemma GetAfterSet(c: Cache, key: string, v: Value, ttl: Option<real>, tenant: Option<string>, on: Levels, now: real, later: real)
    requires Inv(c.l1) && c.l1.maxSize >= 1 && on.l1 && v != Null
    requires later - now <= EffectiveTtl(ttl, c.l1.defaultTtl)
    ensures CacheGet(CacheSet(c, key, v, ttl, tenant, on, now), key, tenant, later).1 == v
  {
    var fk := MakeKey(key, tenant);
    if fk in c.l1.cache {
      OverwriteInPlace(c.l1, fk, v, ttl, tenant, now);
    } else {
      NewKeySurvives(c.l1, fk, v, ttl, tenant, now);
    }
  }

  /** A `get` after a delete at both levels misses, at any time. */
  lemma GetAfterDelete(c: Cache, key: string, tenant: Option<string>, now: real, later: real)
    ensures CacheGet(CacheDelete(c, key, tenant, Levels(true, true), now).0, key, tenant, later).1 == Null
  {
  }

  /** What the answer of a delete means: it is true exactly when an entry left memory or a
      live Redis key went. */
  lemma DeleteAnswersExactly(c: Cache, key: string, tenant: Option<string>, on: Levels, now: real)
    ensures var (c', found) := CacheDelete(c, key, tenant, on, now);
      found <==> c'.l1.cache.Keys != c.l1.cache.Keys || exists k :: Live(c.l2, k, now) && !Live(c'.l2, k, now)
  {
    var fk, c' := MakeKey(key, tenant), CacheDelete(c, key, tenant, on, now).0;
    assert on.l1 && fk in c.l1.cache ==> fk in c.l1.cache.Keys && fk !in c'.l1.cache.Keys;
    assert !(on.l1 && fk in c.l1.cache) ==> c'.l1.cache.Keys == c.l1.cache.Keys;
    if on.l2 && c.initialized {
      assert !Live(c'.l2, RedisKey(fk), now) && !Live(c'.l2, MetaKey(fk), now);
    }
  }

  /** A delete at both levels finds whatever a `get` would have answered, wherever it was. */
  lemma DeleteFindsWhatGetAnswers(c: Cache, key: string, tenant: Option<string>, now: real)
    requires CacheGet(c, key, tenant, now).1 != Null
    ensures CacheDelete(c, key, tenant, Levels(true, true), now).1
  {
  }

  /** A delete from memory finds the value just written there, also without Redis. */
  lemma DeleteFindsWhatWasSet(c: Cache, key: string, v: Value, ttl: Option<real>, tenant: Option<string>,
                              on: Levels, from: Levels, now: real, later: real)
    requires Inv(c.l1) && c.l1.maxSize >= 1 && on.l1 && from.l1
    ensures CacheDelete(CacheSet(c, key, v, ttl, tenant, on, now), key, tenant, from, later).1
  {
    var fk := MakeKey(key, tenant);
    if fk in c.l1.cache {
      OverwriteInPlace(c.l1, fk, v, ttl, tenant, now);
    } else {
      NewKeySurvives(c.l1, fk, v, ttl, tenant, now);
    }
  }

  /** A delete that follows a delete from the same layers finds nothing. */
  lemma SecondDeleteFindsNothing(c: Cache, key: string, tenant: Option<string>, on: Levels, now: real, later: real)
    ensures !CacheDelete(CacheDelete(c, key, tenant, on, now).0, key, tenant, on, later).1
  {
  }

  /** A hit in Redis is promoted: it answers from memory afterwards for the default
      lifetime, even when Redis has lost it. */
  lemma PromotionSticks(c: Cache, key: string, tenant: Option<string>, now: real, later: real, empty: Redis)
    requires Inv(c.l1) && c.l1.maxSize >= 1 && c.initialized
    requires Get(c.l1, MakeKey(key, tenant), now).1 == Null && CacheGet(c, key, tenant, now).1 != Null
    requires later - now <= c.l1.defaultTtl
    ensures var (c', v) := CacheGet(c, key, tenant, now);
      CacheGet(c'.(l2 := empty), key, tenant, later).1 == v
  {
    var fk := MakeKey(key, tenant);
    var (l1, _) := Get(c.l1, fk, now);
    GetKeepsInv(c.l1, fk, now);
    var w := L2Get(c.l2, fk, now).1;
    if fk in l1.cache {
      OverwriteInPlace(l1, fk, w, None, tenant, now);
    } else {
      NewKeySurvives(l1, fk, w, None, tenant, now);
    }
  }
}
