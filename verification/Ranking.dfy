/** Ranking of the semantic index for eviction: score, stable descending sort, prefix. */
module Ranking {
  import opened Common
  import opened SemanticIndex
  import opened Sorting

  datatype Candidate = Candidate(key: string, score: real)

  /** Hours of age, plus hours idle, plus rarity of access, plus a tenth per related key. */
  function Score(n: Node, now: real): real {
    (now - n.createdAt) / 3600.0 + 1.0 / Max(n.accessCount, 1) as real
    + (now - n.lastAccessed) / 3600.0 + |n.related| as real / 10.0
  }

  /** Older, longer idle, more rarely accessed and more related entries score higher. */
  lemma ScoreIsMonotone(n: Node, m: Node, now: real)
    requires n.createdAt <= m.createdAt && n.lastAccessed <= m.lastAccessed
    requires 1 <= n.accessCount <= m.accessCount && |n.related| >= |m.related|
    ensures Score(n, now) >= Score(m, now)
    ensures Score(n, now) == Score(m, now) ==>
      && n.createdAt == m.createdAt && n.lastAccessed == m.lastAccessed
      && n.accessCount == m.accessCount && |n.related| == |m.related|
  {
    RarerIsHigher(n.accessCount as real, m.accessCount as real);
  }

  lemma RarerIsHigher(a: real, b: real)
    requires 1.0 <= a <= b
    ensures 1.0 / a >= 1.0 / b && (1.0 / a == 1.0 / b ==> a == b)
  {
    assert 1.0 / a * a == 1.0 && 1.0 / b * b == 1.0;
  }

  /** What two entries differ by does not depend on the time: an hour of age weighs as much as
      an hour idle and as ten related keys, and the number of accesses by its inverse. */
  lemma ScoreDifference(n: Node, m: Node, now: real)
    ensures Score(n, now) - Score(m, now) ==
      (m.createdAt - n.createdAt + m.lastAccessed - n.lastAccessed) / 3600.0
      + (|n.related| as real - |m.related| as real) * 0.1
      + ((if n.accessCount == 0 then 1.0 else 1.0 / n.accessCount as real)
         - (if m.accessCount == 0 then 1.0 else 1.0 / m.accessCount as real))
  {
  }

  /** A fresh entry scores one; one never accessed counts as accessed once. */
  lemma FreshScore(n: Node, now: real)
    requires n.createdAt == n.lastAccessed == now && n.related == {} && n.accessCount <= 1
    ensures Score(n, now) == 1.0
  {
  }

  lemma OrderIsTimeless(n: Node, m: Node, now: real, later: real)
    ensures Score(n, now) >= Score(m, now) <==> Score(n, later) >= Score(m, later)
  {
    ScoreDifference(n, m, now);
    ScoreDifference(n, m, later);
  }

  const HIGHER_FIRST := (a: Candidate, b: Candidate) => a.score >= b.score

  /** Highest score first; equal scores keep their order. */
  function SortDescending(cs: seq<Candidate>): seq<Candidate> {
    Sort(cs, HIGHER_FIRST)
  }

  /** The listing a ranking starts from: each key once, with its own score. */
  ghost predicate Lists(cs: seq<Candidate>, ix: Index, keys: set<string>, now: real) {
    && (forall c :: c in cs ==> c.key in keys && c.key in ix && c.score == Score(ix[c.key], now))
    && (forall k :: k in keys ==> exists c :: c in cs && c.key == k)
    && (forall i, j :: 0 <= i < j < |cs| ==> cs[i].key != cs[j].key)
  }

  /** What a ranking promises: as many distinct present keys as asked for, best
      first, and nothing left out that scores above something returned. */
  ghost predicate Ranked(keys: seq<string>, ix: Index, maxEvict: int, now: real) {
    && |keys| == PrefixLength(|ix|, maxEvict)
    && Distinct(keys)
    && (forall i :: 0 <= i < |keys| ==> keys[i] in ix)
    && (forall i, j :: 0 <= i < j < |keys| ==> Score(ix[keys[i]], now) >= Score(ix[keys[j]], now))
    && (forall i, k :: 0 <= i < |keys| && k in ix && k !in keys ==> Score(ix[keys[i]], now) >= Score(ix[k], now))
  }

  function KeysOf(cs: seq<Candidate>): (keys: seq<string>)
    ensures |keys| == |cs| && forall i :: 0 <= i < |cs| ==> keys[i] == cs[i].key
  {
    seq(|cs|, i requires 0 <= i < |cs| => cs[i].key)
  }

  lemma SortedLists(cs: seq<Candidate>, ix: Index, keys: set<string>, now: real)
    requires Lists(cs, ix, keys, now)
    ensures Lists(SortDescending(cs), ix, keys, now)
  {
    var sorted := SortDescending(cs);
    SortFacts(cs, HIGHER_FIRST);
    SortDistinct(cs, HIGHER_FIRST);
    forall i, j | 0 <= i < j < |sorted| ensures sorted[i].key != sorted[j].key {
      assert sorted[i] in cs && sorted[j] in cs;
    }
  }

  lemma CutScores(sorted: seq<Candidate>, ix: Index, n: nat, now: real, k: string)
    requires SortedBy(sorted, HIGHER_FIRST) && Lists(sorted, ix, ix.Keys, now) && n <= |sorted|
    requires k in ix && k !in KeysOf(sorted[..n])
    ensures forall i :: 0 <= i < n ==> sorted[i].score >= Score(ix[k], now)
  {
    assert forall i :: 0 <= i < n ==> KeysOf(sorted[..n])[i] == sorted[i].key;
    var c :| c in sorted && c.key == k;
    var j :| 0 <= j < |sorted| && sorted[j] == c;
    assert c.score == Score(ix[k], now);
  }

  lemma CutIsRanked(sorted: seq<Candidate>, ix: Index, maxEvict: int, now: real)
    requires SortedBy(sorted, HIGHER_FIRST) && Lists(sorted, ix, ix.Keys, now) && |sorted| == |ix|
    ensures Ranked(KeysOf(Prefix(sorted, maxEvict)), ix, maxEvict, now)
  {
    var n := PrefixLength(|sorted|, maxEvict);
    var keys := KeysOf(sorted[..n]);
    forall i | 0 <= i < n
      ensures keys[i] in ix && Score(ix[keys[i]], now) == sorted[i].score
    {
      assert sorted[i] in sorted;
    }
    forall i, k | 0 <= i < |keys| && k in ix && k !in keys
      ensures Score(ix[keys[i]], now) >= Score(ix[k], now)
    {
      CutScores(sorted, ix, n, now, k);
    }
  }

  /** Cutting the sorted listing after `maxEvict` is a ranking of the whole index. */
  lemma PrefixIsRanked(cs: seq<Candidate>, ix: Index, maxEvict: int, now: real)
    requires Lists(cs, ix, ix.Keys, now)
    ensures Ranked(KeysOf(Prefix(SortDescending(cs), maxEvict)), ix, maxEvict, now)
  {
    SortFacts(cs, HIGHER_FIRST);
    SortedLists(cs, ix, ix.Keys, now);
    ListSize(SortDescending(cs), ix, now);
    CutIsRanked(SortDescending(cs), ix, maxEvict, now);
  }

  lemma ListSize(cs: seq<Candidate>, ix: Index, now: real)
    requires Lists(cs, ix, ix.Keys, now)
    ensures |cs| == |ix|
  {
    var keys := KeysOf(cs);
    forall k ensures k in Elems(keys) <==> k in ix.Keys {
      if k in ix.Keys {
        var c :| c in cs && c.key == k;
        var i :| 0 <= i < |cs| && cs[i] == c;
        assert keys[i] == k;
      }
    }
    assert Elems(keys) == ix.Keys;
    DistinctCardinality(keys);
  }

  /** A ranking stays one as time passes, until the index changes. */
  lemma RankingIsTimeless(keys: seq<string>, ix: Index, maxEvict: int, now: real, later: real)
    ensures Ranked(keys, ix, maxEvict, now) <==> Ranked(keys, ix, maxEvict, later)
  {
    forall a, b | a in ix && b in ix ensures Score(ix[a], now) >= Score(ix[b], now) <==> Score(ix[a], later) >= Score(ix[b], later) {
      OrderIsTimeless(ix[a], ix[b], now, later);
    }
  }
}
