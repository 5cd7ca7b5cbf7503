/** `SemanticEvictionEngine` as an object: entry objects whose link sets are
    changed in loops, proved against the value-level index. */
module SemanticEngine {
  import opened Common
  import opened SemanticIndex
  import opened Ranking

  class SemanticCacheEntry {
    const key: string
    const hash: string
    const tenant: Option<string>
    const createdAt: real
    var accessPattern: seq<real>
    var relatedKeys: set<string>
    var lastAccessed: real
    var accessCount: nat

    constructor (key: string, hash: string, tenant: Option<string>, now: real)
      ensures this.key == key && Snapshot() == NewNode(hash, tenant, now)
    {
      this.key, this.hash, this.tenant, this.createdAt := key, hash, tenant, now;
      accessPattern, relatedKeys, lastAccessed, accessCount := [now], {}, now, 1;
    }

    function Snapshot(): Node
      reads this
    {
      Node(hash, relatedKeys, createdAt, lastAccessed, accessCount, accessPattern, tenant)
    }

    method Record(now: real)
      modifies this
      ensures Snapshot() == RecordAccess(old(Snapshot()), now)
    {
      lastAccessed := now;
      accessCount := accessCount + 1;
      accessPattern := accessPattern + [now];
      if |accessPattern| > 100 {
        accessPattern := accessPattern[|accessPattern| - 100..];
      }
    }

    method Relate(other: string)
      modifies this
      ensures Snapshot() == old(Snapshot()).(related := old(relatedKeys) + {other})
    {
      relatedKeys := relatedKeys + {other};
    }
  }

  class SemanticEvictionEngine {
    const similarityThreshold: real
    var semanticIndex: map<string, SemanticCacheEntry>
    /** The value the object stands for. */
    ghost var State: Index

    ghost predicate Linked()
      reads this, semanticIndex.Values
    {
      && State.Keys == semanticIndex.Keys
      && forall k :: k in semanticIndex ==> semanticIndex[k].key == k && semanticIndex[k].Snapshot() == State[k]
    }

    ghost predicate Valid()
      reads this, semanticIndex.Values
    {
      Linked() && Complete(State, similarityThreshold) && Irreflexive(State)
    }

    constructor (threshold: real)
      ensures Valid() && semanticIndex.Values == {} && State == map[] && similarityThreshold == threshold
    {
      similarityThreshold, semanticIndex, State := threshold, map[], map[];
    }

    method AddEntry(key: string, hash: string, tenant: Option<string>, now: real)
      requires Valid()
      modifies this, semanticIndex.Values
      ensures Valid() && fresh(semanticIndex.Values - old(semanticIndex.Values))
      ensures State == Add(old(State), key, hash, tenant, similarityThreshold, now)
    {
      AddKeepsComplete(State, key, hash, tenant, similarityThreshold, now);
      var entry := new SemanticCacheEntry(key, hash, tenant, now);
      semanticIndex := semanticIndex[key := entry];
      State := State[key := NewNode(hash, tenant, now)];
      LinkSimilar(key);
    }

    /** Compares the entry at `key` with every other one and links both ways. */
    method LinkSimilar(key: string)
      requires Linked() && key in semanticIndex
      modifies this`State, semanticIndex.Values
      ensures Linked() && semanticIndex == old(semanticIndex)
      ensures State == Link(old(State), key, similarityThreshold, old(State).Keys)
    {
      var todo := semanticIndex.Keys;
      ghost var ix := State;
      ghost var all := todo;
      LinkNone(ix, key, similarityThreshold, all);
      while todo != {}
        invariant todo <= all == semanticIndex.Keys
        invariant Linked() && State == Link(ix, key, similarityThreshold, all - todo)
      {
        var otherKey :| otherKey in todo;
        TakeOne(all, todo, otherKey);
        LinkNext(ix, key, similarityThreshold, all - todo, otherKey);
        LinkOther(key, otherKey);
        todo := todo - {otherKey};
      }
      TookAll(all, todo);
    }

    /** One comparison: when the hashes are similar, each entry lists the other. */
    method LinkOther(key: string, otherKey: string)
      requires Linked() && key in semanticIndex && otherKey in semanticIndex
      modifies this`State, semanticIndex[key], semanticIndex[otherKey]
      ensures Linked() && semanticIndex == old(semanticIndex)
      ensures State == LinkOne(old(State), key, similarityThreshold, otherKey)
    {
      var entry, other := semanticIndex[key], semanticIndex[otherKey];
      if otherKey != key {
        var similarity := Similarity(entry.hash, other.hash);
        if similarity > similarityThreshold {
          entry.Relate(otherKey);
          other.Relate(key);
        }
      }
      State := LinkOne(State, key, similarityThreshold, otherKey);
    }

    method UpdateAccess(key: string, now: real)
      requires Valid()
      modifies this`State, semanticIndex.Values
      ensures Valid() && semanticIndex == old(semanticIndex)
      ensures State == Access(old(State), key, now)
    {
      AccessKeepsComplete(State, key, similarityThreshold, now);
      if key in semanticIndex {
        RecordAt(key, now);
      }
    }

    method RecordAt(key: string, now: real)
      requires Linked() && key in semanticIndex
      modifies this`State, semanticIndex[key]
      ensures Linked() && semanticIndex == old(semanticIndex)
      ensures State == Access(old(State), key, now)
    {
      semanticIndex[key].Record(now);
      State := Access(State, key, now);
    }

    method RemoveEntry(key: string)
      requires Valid()
      modifies this, semanticIndex.Values
      ensures Valid() && semanticIndex == old(semanticIndex) - {key}
      ensures semanticIndex.Values <= old(semanticIndex.Values)
      ensures State == Remove(old(State), key)
    {
      RemoveKeepsComplete(State, key, similarityThreshold);
      if key in semanticIndex {
        UnlinkRelated(key);
        semanticIndex := semanticIndex - {key};
        State := State - {key};
      }
    }

    /** Discards `key` from the link set of every entry it is related to. */
    method UnlinkRelated(key: string)
      requires Linked() && key in semanticIndex && key !in State[key].related
      modifies this`State, semanticIndex.Values
      ensures Linked() && semanticIndex == old(semanticIndex)
      ensures State == Unlink(old(State), key, old(State)[key].related)
    {
      var todo := semanticIndex[key].relatedKeys;
      ghost var related := todo;
      ghost var ix := State;
      UnlinkNone(ix, key, related);
      while todo != {}
        invariant todo <= related
        invariant Linked() && State == Unlink(ix, key, related - todo)
      {
        var relatedKey :| relatedKey in todo;
        TakeOne(related, todo, relatedKey);
        UnlinkNext(ix, key, related - todo, relatedKey);
        UnlinkOther(key, relatedKey);
        todo := todo - {relatedKey};
      }
      TookAll(related, todo);
    }

    method UnlinkOther(key: string, relatedKey: string)
      requires Linked()
      modifies this`State, semanticIndex.Values
      ensures Linked() && semanticIndex == old(semanticIndex)
      ensures State == Unlink(old(State), key, {relatedKey})
    {
      if relatedKey in semanticIndex {
        var other := semanticIndex[relatedKey];
        other.relatedKeys := other.relatedKeys - {key};
      }
      State := Unlink(State, key, {relatedKey});
    }

    method GetEvictionCandidates(maxEvict: int, now: real) returns (keys: seq<string>)
      requires Valid()
      ensures Ranked(keys, State, maxEvict, now)
    {
      var candidates: seq<Candidate> := [];
      var todo := semanticIndex.Keys;
      ghost var all := todo;
      while todo != {}
        invariant todo <= all == semanticIndex.Keys
        invariant Lists(candidates, State, all - todo, now)
      {
        var key :| key in todo;
        TakeOne(all, todo, key);
        ListNext(candidates, State, all - todo, now, key);
        candidates := candidates + [Candidate(key, Score(semanticIndex[key].Snapshot(), now))];
        todo := todo - {key};
      }
      TookAll(all, todo);
      PrefixIsRanked(candidates, State, maxEvict, now);
      keys := KeysOf(Prefix(SortDescending(candidates), maxEvict));
    }
  }

  // ----- one iteration of each loop, on values -----

  function LinkOne(ix: Index, key: string, threshold: real, other: string): Index
    requires key in ix && other in ix
  {
    if other != key && Similar(ix[key].hash, ix[other].hash, threshold)
    then ix[key := ix[key].(related := ix[key].related + {other})][other := ix[other].(related := ix[other].related + {key})]
    else ix
  }

  lemma LinkNone(ix: Index, key: string, threshold: real, all: set<string>)
    requires key in ix
    ensures Link(ix, key, threshold, all - all) == ix
  {
    assert ix[key].related + SimilarAmong(ix, key, threshold, all - all) == ix[key].related;
  }

  lemma AccessKeepsComplete(ix: Index, key: string, threshold: real, now: real)
    requires Complete(ix, threshold) && Irreflexive(ix)
    ensures Complete(Access(ix, key, now), threshold) && Irreflexive(Access(ix, key, now))
  {
  }

  lemma LinkNext(ix: Index, key: string, threshold: real, done: set<string>, other: string)
    requires key in ix && other in ix && other !in done
    ensures Link(ix, key, threshold, done + {other}) == LinkOne(Link(ix, key, threshold, done), key, threshold, other)
  {
    var a := Link(ix, key, threshold, done + {other});
    var b := LinkOne(Link(ix, key, threshold, done), key, threshold, other);
    forall k | k in ix ensures a[k] == b[k] {
      if k == key {
        assert SimilarAmong(ix, key, threshold, done + {other}) ==
          SimilarAmong(ix, key, threshold, done) + SimilarAmong(ix, key, threshold, {other});
        assert a[k].related == b[k].related;
      }
    }
  }

  lemma UnlinkNone(ix: Index, key: string, all: set<string>)
    ensures Unlink(ix, key, all - all) == ix
  {
  }

  lemma UnlinkNext(ix: Index, key: string, done: set<string>, other: string)
    requires other !in done
    ensures Unlink(ix, key, done + {other}) == Unlink(Unlink(ix, key, done), key, {other})
  {
  }

  lemma ListNext(cs: seq<Candidate>, ix: Index, done: set<string>, now: real, key: string)
    requires Lists(cs, ix, done, now) && key in ix && key !in done
    ensures Lists(cs + [Candidate(key, Score(ix[key], now))], ix, done + {key}, now)
  {
    var c := Candidate(key, Score(ix[key], now));
    forall k | k in done + {key} ensures exists d :: d in cs + [c] && d.key == k {
      if k == key {
        assert c in cs + [c];
      } else {
        var d :| d in cs && d.key == k;
        assert d in cs + [c];
      }
    }
  }
}
