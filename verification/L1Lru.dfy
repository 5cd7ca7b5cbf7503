/** Why the in-memory layer is a least-recently-used cache: over every run, a
    capacity eviction removes a key only after enough other keys were used. */
module L1Lru {
  import opened Common
  import opened L1Spec
  import opened L1Recency

  /** The key an operation uses in state `s`: a hit or the insertion of a new key.
      Overwriting a present key is not a use. */
  function Used(s: L1, op: Op): Option<string> {
    match op
    case OpGet(k, now) => if Hit(s, k, now) then Some(k) else None
    case OpSet(k, _, _, _, _) => if k in s.cache then None else Some(k)
    case OpDiscard(_) => None
  }

  function UsedAt(ops: seq<Op>, capacity: int, ttl: real, i: nat): Option<string>
    requires i < |ops|
  {
    Used(Run(ops[..i], capacity, ttl).0, ops[i])
  }

  /** The last step that used `k`, or -1. */
  function LastUse(ops: seq<Op>, capacity: int, ttl: real, k: string): int {
    if ops == [] then -1
    else if UsedAt(ops, capacity, ttl, |ops| - 1) == Some(k) then |ops| - 1
    else LastUse(ops[..|ops| - 1], capacity, ttl, k)
  }

  lemma {:induction false} LastUseIsLast(ops: seq<Op>, capacity: int, ttl: real, k: string)
    ensures var i := LastUse(ops, capacity, ttl, k);
      && -1 <= i < |ops|
      && (i >= 0 ==> UsedAt(ops, capacity, ttl, i) == Some(k))
      && (forall j :: 0 <= j < |ops| && i < j ==> UsedAt(ops, capacity, ttl, j) != Some(k))
  {
    if ops != [] {
      var before := ops[..|ops| - 1];
      LastUseIsLast(before, capacity, ttl, k);
      forall j | 0 <= j < |before|
        ensures UsedAt(before, capacity, ttl, j) == UsedAt(ops, capacity, ttl, j)
      {
        assert before[..j] == ops[..j];
      }
    }
  }

  /** The keys used after step `i`. */
  ghost function UsedSince(ops: seq<Op>, capacity: int, ttl: real, i: int): set<string> {
    set j | 0 <= j < |ops| && i < j && UsedAt(ops, capacity, ttl, j).Some? :: UsedAt(ops, capacity, ttl, j).value
  }

  /** The access order lists keys by last use. */
  ghost predicate OrderedByUse(ops: seq<Op>, capacity: int, ttl: real, order: seq<string>) {
    && (forall i :: 0 <= i < |order| ==> LastUse(ops, capacity, ttl, order[i]) >= 0)
    && (forall i, j :: 0 <= i < j < |order| ==>
          LastUse(ops, capacity, ttl, order[i]) < LastUse(ops, capacity, ttl, order[j]))
  }

  lemma FilterOrdered(ops: seq<Op>, capacity: int, ttl: real, order: seq<string>, drop: set<string>)
    requires OrderedByUse(ops, capacity, ttl, order)
    ensures OrderedByUse(ops, capacity, ttl, Filter(order, drop))
  {
    var rank := k => LastUse(ops, capacity, ttl, k);
    assert Increasing(order, rank);
    FilterIncreasing(order, drop, rank);
    FilterMembers(order, drop);
    var kept := Filter(order, drop);
    forall i | 0 <= i < |kept| ensures LastUse(ops, capacity, ttl, kept[i]) >= 0 {
      assert kept[i] in order;
    }
    forall i, j | 0 <= i < j < |kept|
      ensures LastUse(ops, capacity, ttl, kept[i]) < LastUse(ops, capacity, ttl, kept[j])
    {
      assert rank(kept[i]) < rank(kept[j]);
    }
  }

  /** Appending the key the last step used keeps the order sorted by last use. */
  lemma AppendUsed(ops: seq<Op>, capacity: int, ttl: real, order: seq<string>, k: string)
    requires ops != [] && k !in order
    requires UsedAt(ops, capacity, ttl, |ops| - 1) == Some(k)
    requires OrderedByUse(ops[..|ops| - 1], capacity, ttl, order)
    ensures OrderedByUse(ops, capacity, ttl, order + [k])
  {
    var before := ops[..|ops| - 1];
    forall i | 0 <= i < |order|
      ensures 0 <= LastUse(ops, capacity, ttl, order[i]) == LastUse(before, capacity, ttl, order[i]) < |ops| - 1
    {
      LastUseIsLast(before, capacity, ttl, order[i]);
    }
  }

  lemma KeepOrder(ops: seq<Op>, capacity: int, ttl: real, order: seq<string>)
    requires ops != []
    requires UsedAt(ops, capacity, ttl, |ops| - 1).None?
    requires OrderedByUse(ops[..|ops| - 1], capacity, ttl, order)
    ensures OrderedByUse(ops, capacity, ttl, order)
  {
    assert forall i | 0 <= i < |order| ::
      LastUse(ops, capacity, ttl, order[i]) == LastUse(ops[..|ops| - 1], capacity, ttl, order[i]);
  }

  /** In every run the access order is sorted by last use. */
  lemma {:induction false} OrderIsByUse(ops: seq<Op>, capacity: int, ttl: real)
    ensures OrderedByUse(ops, capacity, ttl, Run(ops, capacity, ttl).0.order)
  {
    if ops != [] {
      var n := |ops| - 1;
      var before := ops[..n];
      OrderIsByUse(before, capacity, ttl);
      RunRefines(before, capacity, ttl);
      var s := Run(before, capacity, ttl).0;
      InOrder(s);
      match ops[n] {
        case OpGet(k, now) =>
          FilterOrdered(before, capacity, ttl, s.order, {k});
          FilterMembers(s.order, {k});
          if Hit(s, k, now) {
            AppendUsed(ops, capacity, ttl, Filter(s.order, {k}), k);
          } else {
            KeepOrder(ops, capacity, ttl, if k in s.cache then Filter(s.order, {k}) else s.order);
          }
        case OpSet(k, v, t, tenant, now) =>
          var stored := Store(s, k, NewEntry(s, k, v, t, tenant, now));
          if k in s.cache {
            KeepOrder(ops, capacity, ttl, s.order);
          } else {
            AppendUsed(ops, capacity, ttl, s.order, k);
          }
          FilterOrdered(ops, capacity, ttl, stored.order, {stored.order[0]});
        case OpDiscard(keys) =>
          FilterOrdered(before, capacity, ttl, s.order, keys);
          KeepOrder(ops, capacity, ttl, Filter(s.order, keys));
      }
    }
  }

  /** A key lost to a `set` is gone because at least `capacity` distinct other
      keys were used since its own last use. */
  lemma EvictedAfterEnoughOthers(ops: seq<Op>, capacity: int, ttl: real, k: string)
    requires capacity >= 1
    requires ops != [] && ops[|ops| - 1].OpSet?
    requires k in Run(ops[..|ops| - 1], capacity, ttl).0.cache || k == ops[|ops| - 1].key
    requires k !in Run(ops, capacity, ttl).0.cache
    ensures k != ops[|ops| - 1].key
    ensures var last := LastUse(ops[..|ops| - 1], capacity, ttl, k);
      && last >= 0
      && k !in UsedSince(ops, capacity, ttl, last)
      && |UsedSince(ops, capacity, ttl, last)| >= capacity
  {
    var n := |ops| - 1;
    var s := Run(ops[..n], capacity, ttl).0;
    Victim(ops, capacity, ttl, k);
    RunRefines(ops[..n], capacity, ttl);
    OrderIsByUse(ops[..n], capacity, ttl);
    InOrder(s);
    AppendUsed(ops, capacity, ttl, s.order, ops[n].key);
    LaterKeysUsed(ops, capacity, ttl, s.order + [ops[n].key]);
  }

  /** A key lost to a `set` was the head of a full cache. */
  lemma Victim(ops: seq<Op>, capacity: int, ttl: real, k: string)
    requires capacity >= 1
    requires ops != [] && ops[|ops| - 1].OpSet?
    requires k in Run(ops[..|ops| - 1], capacity, ttl).0.cache || k == ops[|ops| - 1].key
    requires k !in Run(ops, capacity, ttl).0.cache
    ensures var s := Run(ops[..|ops| - 1], capacity, ttl).0;
      && ops[|ops| - 1].key !in s.cache
      && |s.order| == capacity
      && k == s.order[0] != ops[|ops| - 1].key
      && Distinct(s.order + [ops[|ops| - 1].key])
  {
    var n := |ops| - 1;
    RunRefines(ops[..n], capacity, ttl);
    var s := Run(ops[..n], capacity, ttl).0;
    var op := ops[n];
    var e := NewEntry(s, op.key, op.value, op.ttl, op.tenant, op.now);
    InOrder(s);
    StoreInStep(s, op.key, e);
    DistinctCardinality(s.order);
    assert |s.cache| == |s.cache.Keys|;
  }

  /** Every key behind the head of a use-sorted order was used after the head. */
  lemma LaterKeysUsed(ops: seq<Op>, capacity: int, ttl: real, order: seq<string>)
    requires order != [] && Distinct(order) && OrderedByUse(ops, capacity, ttl, order)
    ensures var since := UsedSince(ops, capacity, ttl, LastUse(ops, capacity, ttl, order[0]));
      order[0] !in since && |since| >= |order| - 1
  {
    var last := LastUse(ops, capacity, ttl, order[0]);
    var since := UsedSince(ops, capacity, ttl, last);
    LastUseIsLast(ops, capacity, ttl, order[0]);
    var rest := order[1..];
    forall x | x in Elems(rest) ensures x in since {
      var i :| 0 <= i < |rest| && rest[i] == x;
      assert order[i + 1] == x;
      var j := LastUse(ops, capacity, ttl, x);
      LastUseIsLast(ops, capacity, ttl, x);
      assert last < j && UsedAt(ops, capacity, ttl, j) == Some(x);
    }
    DistinctCardinality(rest);
    SubsetCardinality(Elems(rest), since);
  }

  // ----- every entry is the product of its history -----

  /** The entry that the operations so far leave at `k`, read off their history: the
      last write of `k`, touched once for every hit since. */
  function Expected(ops: seq<Op>, capacity: int, ttl: real, k: string): Option<Entry> {
    if ops == [] then None
    else
      var before := ops[..|ops| - 1];
      match ops[|ops| - 1]
      case OpSet(key, v, t, tenant, now) =>
        if key == k then Some(Entry(k, v, now, now, 1, Some(EffectiveTtl(t, ttl)), tenant))
        else Expected(before, capacity, ttl, k)
      case OpGet(key, now) =>
        var e := Expected(before, capacity, ttl, k);
        if key == k && e.Some? && UsedAt(ops, capacity, ttl, |ops| - 1) == Some(k)
        then Some(e.value.(lastAccessed := now, accessCount := e.value.accessCount + 1))
        else e
      case OpDiscard(_) => Expected(before, capacity, ttl, k)
  }

  /** An entry after a step is the one just written, or was there and was touched
      exactly if the step was a hit on it. */
  lemma StepEntries(s: L1, op: Op, k: string)
    requires k in Step(s, op).0.cache
    ensures var e := Step(s, op).0.cache[k];
      if op.OpSet? && op.key == k then e == NewEntry(s, k, op.value, op.ttl, op.tenant, op.now)
      else
        && k in s.cache
        && e == if op.OpGet? && Used(s, op) == Some(k) then s.cache[k].Touched(op.now) else s.cache[k]
  {
  }

  /** In every run each entry still present is exactly what its history says: value,
      lifetime, tenant and creation from its last write, access time and count from
      the hits since. */
  lemma {:induction false} EntriesMatchHistory(ops: seq<Op>, capacity: int, ttl: real)
    ensures var s := Run(ops, capacity, ttl).0;
      forall k :: k in s.cache ==> Expected(ops, capacity, ttl, k) == Some(s.cache[k])
  {
    if ops != [] {
      var before := ops[..|ops| - 1];
      EntriesMatchHistory(before, capacity, ttl);
      RunRefines(before, capacity, ttl);
      var s, s' := Run(before, capacity, ttl).0, Run(ops, capacity, ttl).0;
      forall k | k in s'.cache ensures Expected(ops, capacity, ttl, k) == Some(s'.cache[k]) {
        StepEntries(s, ops[|ops| - 1], k);
      }
    }
  }
}
