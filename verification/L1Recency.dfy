/** A recency list, least recently used first, and the proof that the entry map
    and access order of the in-memory layer implement it in every run. */
module L1Recency {
  import opened Common
  import opened L1Spec

  datatype Cell = Cell(key: string, entry: Entry)

  // ----- the abstract structure -----

  function Find(r: seq<Cell>, k: string): Option<Entry> {
    if r == [] then None
    else if r[0].key == k then Some(r[0].entry)
    else Find(r[1..], k)
  }

  function Drop(r: seq<Cell>, keys: set<string>): seq<Cell> {
    if r == [] then []
    else if r[0].key in keys then Drop(r[1..], keys)
    else [r[0]] + Drop(r[1..], keys)
  }

  function Replace(r: seq<Cell>, k: string, e: Entry): seq<Cell> {
    if r == [] then []
    else if r[0].key == k then [Cell(k, e)] + r[1..]
    else [r[0]] + Replace(r[1..], k, e)
  }

  function GetCell(r: seq<Cell>, k: string, now: real): (seq<Cell>, Value) {
    match Find(r, k)
    case None => (r, Null)
    case Some(e) =>
      if e.Expired(now) then (Drop(r, {k}), Null)
      else (Drop(r, {k}) + [Cell(k, e.Touched(now))], e.value)
  }

  /** Overwrite in place, or append and drop the oldest cell when over capacity. */
  function SetCell(r: seq<Cell>, k: string, e: Entry, capacity: int): seq<Cell> {
    if Find(r, k).Some? then Replace(r, k, e)
    else if |r| + 1 > capacity then (r + [Cell(k, e)])[1..]
    else r + [Cell(k, e)]
  }

  datatype Op =
    | OpGet(key: string, now: real)
    | OpSet(key: string, value: Value, ttl: Option<real>, tenant: Option<string>, now: real)
    | OpDiscard(keys: set<string>)

  function StepCells(r: seq<Cell>, op: Op, capacity: int, defaultTtl: real): (seq<Cell>, Value) {
    match op
    case OpGet(k, now) => GetCell(r, k, now)
    case OpSet(k, v, ttl, tenant, now) =>
      (SetCell(r, k, Entry(k, v, now, now, 1, Some(EffectiveTtl(ttl, defaultTtl)), tenant), capacity), Null)
    case OpDiscard(keys) => (Drop(r, keys), Null)
  }

  function RunCells(ops: seq<Op>, capacity: int, defaultTtl: real): (seq<Cell>, seq<Value>) {
    if ops == [] then ([], [])
    else
      var (r, out) := RunCells(ops[..|ops| - 1], capacity, defaultTtl);
      var (r', v) := StepCells(r, ops[|ops| - 1], capacity, defaultTtl);
      (r', out + [v])
  }

  // ----- the implementation's runs -----

  function Step(s: L1, op: Op): (L1, Value) {
    match op
    case OpGet(k, now) => Get(s, k, now)
    case OpSet(k, v, ttl, tenant, now) => (Set(s, k, v, ttl, tenant, now), Null)
    case OpDiscard(keys) => (Discard(s, keys), Null)
  }

  function Run(ops: seq<Op>, capacity: int, defaultTtl: real): (L1, seq<Value>) {
    if ops == [] then (Empty(capacity, defaultTtl), [])
    else
      var (s, out) := Run(ops[..|ops| - 1], capacity, defaultTtl);
      var (s', v) := Step(s, ops[|ops| - 1]);
      (s', out + [v])
  }

  // ----- abstraction -----

  function Cells(order: seq<string>, cache: map<string, Entry>): seq<Cell>
    requires forall k :: k in order ==> k in cache
  {
    if order == [] then []
    else [Cell(order[0], cache[order[0]])] + Cells(order[1..], cache)
  }

  lemma {:induction false} CellsFrame(order: seq<string>, c: map<string, Entry>, d: map<string, Entry>)
    requires forall k :: k in order ==> k in c && k in d && c[k] == d[k]
    ensures Cells(order, c) == Cells(order, d)
  {
    if order != [] {
      CellsFrame(order[1..], c, d);
    }
  }

  lemma {:induction false} CellsAppend(order: seq<string>, k: string, c: map<string, Entry>)
    requires k in c && forall x :: x in order ==> x in c
    ensures Cells(order + [k], c) == Cells(order, c) + [Cell(k, c[k])]
  {
    if order == [] {
      assert [] + [k] == [k];
    } else {
      assert (order + [k])[1..] == order[1..] + [k];
      CellsAppend(order[1..], k, c);
    }
  }

  lemma {:induction false} CellsDrop(order: seq<string>, c: map<string, Entry>, keys: set<string>)
    requires forall k :: k in order ==> k in c
    ensures forall k :: k in Filter(order, keys) ==> k in c
    ensures Cells(Filter(order, keys), c) == Drop(Cells(order, c), keys)
  {
    FilterMembers(order, keys);
    if order != [] {
      CellsDrop(order[1..], c, keys);
      FilterMembers(order[1..], keys);
      if order[0] !in keys {
        assert Filter(order, keys)[1..] == Filter(order[1..], keys);
      }
    }
  }

  lemma {:induction false} CellsFind(order: seq<string>, c: map<string, Entry>, k: string)
    requires forall x :: x in order ==> x in c
    ensures Find(Cells(order, c), k) == if k in order then Some(c[k]) else None
    ensures |Cells(order, c)| == |order|
  {
    if order != [] {
      CellsFind(order[1..], c, k);
    }
  }

  lemma {:induction false} CellsReplace(order: seq<string>, c: map<string, Entry>, k: string, e: Entry)
    requires Distinct(order) && forall x :: x in order ==> x in c
    requires k in order
    ensures Cells(order, c[k := e]) == Replace(Cells(order, c), k, e)
  {
    if order[0] == k {
      CellsFrame(order[1..], c, c[k := e]);
    } else {
      CellsReplace(order[1..], c, k, e);
    }
  }

  ghost predicate Abstracts(s: L1, r: seq<Cell>) {
    && Inv(s)
    && (forall k :: k in s.order ==> k in s.cache)
    && r == Cells(s.order, s.cache)
  }

  lemma DiscardRefines(s: L1, r: seq<Cell>, keys: set<string>)
    requires Abstracts(s, r)
    ensures Abstracts(Discard(s, keys), Drop(r, keys))
  {
    DiscardKeepsInv(s, keys);
    FilterMembers(s.order, keys);
    CellsDrop(s.order, s.cache, keys);
    CellsFrame(Filter(s.order, keys), s.cache, s.cache - keys);
  }

  lemma GetRefines(s: L1, r: seq<Cell>, k: string, now: real)
    requires Abstracts(s, r)
    ensures Abstracts(Get(s, k, now).0, GetCell(r, k, now).0)
    ensures Get(s, k, now).1 == GetCell(r, k, now).1
  {
    CellsFind(s.order, s.cache, k);
    assert k in s.order <==> k in Elems(s.order);
    GetKeepsInv(s, k, now);
    if k in s.cache {
      DiscardRefines(s, r, {k});
      if Hit(s, k, now) {
        var e := s.cache[k].Touched(now);
        var rest := Filter(s.order, {k});
        FilterMembers(s.order, {k});
        CellsDrop(s.order, s.cache, {k});
        CellsFrame(rest, s.cache, s.cache[k := e]);
        CellsAppend(rest, k, s.cache[k := e]);
      }
    }
  }

  /** Filtering out the head of a duplicate-free sequence leaves its tail. */
  lemma HeadDropped(order: seq<string>)
    requires order != [] && Distinct(order)
    ensures Filter(order, {order[0]}) == order[1..]
    ensures order[0] !in order[1..]
  {
    FilterNothing(order[1..], {order[0]});
  }

  lemma InsertRefines(s: L1, k: string, e: Entry)
    requires Inv(s) && e.key == k && k !in s.cache
    requires forall x :: x in s.order ==> x in s.cache
    ensures k !in s.order
    ensures var stored := Store(s, k, e);
      && (forall x :: x in stored.order ==> x in stored.cache)
      && Cells(stored.order, stored.cache) == Cells(s.order, s.cache) + [Cell(k, e)]
  {
    assert k in s.order <==> k in Elems(s.order);
    var stored := Store(s, k, e);
    CellsFrame(s.order, s.cache, stored.cache);
    CellsAppend(s.order, k, stored.cache);
  }

  lemma EvictRefines(s: L1)
    requires InStep(s) && s.order != []
    requires forall x :: x in s.order ==> x in s.cache
    ensures forall x :: x in EvictLru(s).order ==> x in EvictLru(s).cache
    ensures Cells(EvictLru(s).order, EvictLru(s).cache) == Cells(s.order, s.cache)[1..]
  {
    HeadDropped(s.order);
    CellsFrame(s.order[1..], s.cache, s.cache - {s.order[0]});
  }

  lemma InOrder(s: L1)
    requires InStep(s)
    ensures forall k :: k in s.order <==> k in s.cache
  {
    forall k ensures k in s.order <==> k in s.cache {
      assert k in s.order <==> k in Elems(s.order);
    }
  }

  lemma SetRefines(s: L1, r: seq<Cell>, k: string, v: Value, ttl: Option<real>, tenant: Option<string>, now: real)
    requires Abstracts(s, r)
    ensures Abstracts(Set(s, k, v, ttl, tenant, now), SetCell(r, k, NewEntry(s, k, v, ttl, tenant, now), s.maxSize))
  {
    var e := NewEntry(s, k, v, ttl, tenant, now);
    CellsFind(s.order, s.cache, k);
    InOrder(s);
    SetKeepsInv(s, k, v, ttl, tenant, now);
    if k in s.cache {
      OverwriteInPlace(s, k, v, ttl, tenant, now);
      CellsReplace(s.order, s.cache, k, e);
    } else {
      NewKeyRefines(s, r, k, v, ttl, tenant, now);
    }
  }

  lemma NewKeyRefines(s: L1, r: seq<Cell>, k: string, v: Value, ttl: Option<real>, tenant: Option<string>, now: real)
    requires Abstracts(s, r) && k !in s.cache
    requires Inv(Set(s, k, v, ttl, tenant, now))
    ensures Abstracts(Set(s, k, v, ttl, tenant, now), SetCell(r, k, NewEntry(s, k, v, ttl, tenant, now), s.maxSize))
  {
    var e := NewEntry(s, k, v, ttl, tenant, now);
    StoreInStep(s, k, e);
    InsertRefines(s, k, e);
    CellsFind(s.order, s.cache, k);
    InOrder(Set(s, k, v, ttl, tenant, now));
    if |Store(s, k, e).cache| > s.maxSize {
      InOrder(Store(s, k, e));
      EvictRefines(Store(s, k, e));
    }
  }

  /** In every run, the implementation's state is the recency list's state and
      every operation answers alike; in particular the invariant always holds. */
  lemma {:induction false} RunRefines(ops: seq<Op>, capacity: int, defaultTtl: real)
    ensures Abstracts(Run(ops, capacity, defaultTtl).0, RunCells(ops, capacity, defaultTtl).0)
    ensures Run(ops, capacity, defaultTtl).1 == RunCells(ops, capacity, defaultTtl).1
    ensures Run(ops, capacity, defaultTtl).0.maxSize == capacity
    ensures Run(ops, capacity, defaultTtl).0.defaultTtl == defaultTtl
  {
    if ops != [] {
      var before := ops[..|ops| - 1];
      RunRefines(before, capacity, defaultTtl);
      var s := Run(before, capacity, defaultTtl).0;
      var r := RunCells(before, capacity, defaultTtl).0;
      match ops[|ops| - 1] {
        case OpGet(k, now) => GetRefines(s, r, k, now);
        case OpSet(k, v, ttl, tenant, now) => SetRefines(s, r, k, v, ttl, tenant, now);
        case OpDiscard(keys) => DiscardRefines(s, r, keys);
      }
    }
  }
}
