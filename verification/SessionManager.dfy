/** `SessionManager` as an object over the Redis store, its cleanup loops proved
    against the value-level session store. */
module SessionManager {
  import opened Common
  import opened Sessions
  import opened Sorting

  datatype Item = Item(sid: string, lastAccessed: int)

  const OLDER_FIRST := (a: Item, b: Item) => a.lastAccessed <= b.lastAccessed

  datatype Created = Created(sid: string) | Raised

  class Manager {
    var redis: Store

    constructor (redis: Store)
      ensures this.redis == redis
    {
      this.redis := redis;
    }

    method CreateSession(user: string, sid: string, hours: int, now: int) returns (result: Created, ghost victims: set<string>)
      requires WellFormed(redis) && redis.clock < now && NewId(redis, sid)
      modifies this
      ensures Enabled(old(redis), OpCreate(user, sid, hours, victims, now))
      ensures redis == Step(old(redis), OpCreate(user, sid, hours, victims, now)) && WellFormed(redis)
      ensures Inv(old(redis)) && (hours > 0 ==> OutlastsKept(old(redis), OpCreate(user, sid, hours, victims, now))) ==> Inv(redis)
      ensures result == if hours > 0 then Created(sid) else Raised
    {
      ghost var s := redis;
      redis := redis.(clock := now);
      victims := {};
      if hours > 0 {
        InsertWellFormed(redis, user, sid, hours, now);
        redis := Sessions.Insert(redis, user, sid, hours, now);
        victims := CleanupUserSessions(user, now);
      }
      StepCreates(s, OpCreate(user, sid, hours, victims, now));
      StepKeepsIfSafe(s, OpCreate(user, sid, hours, victims, now));
      result := if hours > 0 then Created(sid) else Raised;
    }

    /** Keeps the five most recently accessed of the user's sessions. */
    method CleanupUserSessions(user: string, now: int) returns (ghost victims: set<string>)
      requires WellFormed(redis)
      modifies this
      ensures Victims(old(redis), user, victims, now)
      ensures redis == DeleteAll(old(redis), victims)
    {
      victims := {};
      var sessionIds := Ids(redis, user, now);
      if |sessionIds| <= MAX_SESSIONS {
        DeleteNothing(redis);
        return;
      }
      var sessions := CollectFound(sessionIds, now);
      var sorted := Sort(sessions, OLDER_FIRST);
      var toDelete := Prefix(sorted, -MAX_SESSIONS);
      victims := OldestAreVictims(redis, sessionIds, sessions, now);
      DeleteEach(toDelete, now);
    }

    method CollectFound(ids: set<string>, now: int) returns (items: seq<Item>)
      ensures ListsFound(redis, ids, items, now)
    {
      items := [];
      var todo := ids;
      while todo != {}
        invariant todo <= ids
        invariant ListsFound(redis, ids - todo, items, now)
      {
        var sid :| sid in todo;
        TakeOne(ids, todo, sid);
        FoundNext(redis, ids - todo, items, now, sid);
        var info := GetSession(redis, sid, now);
        if info.Found? {
          items := items + [Item(sid, info.session.lastAccessed)];
        }
        todo := todo - {sid};
      }
      TookAll(ids, todo);
    }

    method DeleteEach(items: seq<Item>, now: int)
      requires WellFormed(redis)
      requires forall i, j :: 0 <= i < j < |items| ==> items[i].sid != items[j].sid
      requires forall i :: 0 <= i < |items| ==> GetSession(redis, items[i].sid, now).Found?
      modifies this
      ensures redis == DeleteAll(old(redis), Sids(items))
    {
      ghost var s := redis;
      DeleteNothing(s);
      assert Sids(items[..0]) == {};
      for i := 0 to |items|
        invariant redis == DeleteAll(s, Sids(items[..i]))
      {
        DeleteNext(s, items, i, now);
        redis := DeleteSession(redis, items[i].sid, now);
      }
      assert items[..|items|] == items;
    }

    method UpdateSessionAccess(sid: string, now: int) returns (found: bool)
      requires WellFormed(redis) && redis.clock < now
      modifies this
      ensures redis == Step(old(redis), OpTouch(sid, now)) && WellFormed(redis)
      ensures Inv(old(redis)) ==> Inv(redis)
      ensures found == Live(old(redis), sid, now)
    {
      StepKeepsIfSafe(redis, OpTouch(sid, now));
      redis := redis.(clock := now);
      var info := GetSession(redis, sid, now);
      found := info.Found?;
      if found {
        redis := Rewrite(redis, sid, info.session.(lastAccessed := now), now);
      }
    }

    method Delete(sid: string, now: int) returns (deleted: bool)
      requires WellFormed(redis) && redis.clock < now
      modifies this
      ensures redis == Step(old(redis), OpDelete(sid, now)) && WellFormed(redis)
      ensures Inv(old(redis)) ==> Inv(redis)
      ensures deleted == Live(old(redis), sid, now) && !Live(redis, sid, now)
    {
      StepKeepsIfSafe(redis, OpDelete(sid, now));
      deleted := Live(redis, sid, now);
      redis := DeleteSession(redis.(clock := now), sid, now);
    }
  }

  // ----- the loops, on values -----

  lemma StepKeepsIfSafe(s: Store, op: Op)
    requires WellFormed(s) && Enabled(s, op)
    ensures WellFormed(Step(s, op))
    ensures Inv(s) && (op.OpCreate? && op.hours > 0 ==> OutlastsKept(s, op)) ==> Inv(Step(s, op))
  {
    StepWellFormed(s, op);
    if Inv(s) && (op.OpCreate? && op.hours > 0 ==> OutlastsKept(s, op)) {
      StepKeeps(s, op);
    }
  }

  function Sids(items: seq<Item>): set<string> {
    set item | item in items :: item.sid
  }

  /** Each found session among `ids` once, with its access time. */
  ghost predicate ListsFound(s: Store, ids: set<string>, items: seq<Item>, now: int) {
    && (forall item :: item in items ==> item.sid in ids && GetSession(s, item.sid, now).Found?
                                         && item.lastAccessed == s.sessions[item.sid].lastAccessed)
    && (forall sid :: sid in ids && GetSession(s, sid, now).Found? ==> sid in Sids(items))
    && (forall i, j :: 0 <= i < j < |items| ==> items[i].sid != items[j].sid)
  }

  lemma FoundNext(s: Store, ids: set<string>, items: seq<Item>, now: int, sid: string)
    requires ListsFound(s, ids, items, now) && sid !in ids
    ensures if GetSession(s, sid, now).Found?
            then ListsFound(s, ids + {sid}, items + [Item(sid, s.sessions[sid].lastAccessed)], now)
            else ListsFound(s, ids + {sid}, items, now)
  {
    var item := Item(sid, if sid in s.sessions then s.sessions[sid].lastAccessed else 0);
    assert Sids(items + [item]) == Sids(items) + {sid} by {
      assert forall x :: x in items + [item] <==> x in items || x == item;
    }
  }

  lemma SidsSize(items: seq<Item>)
    requires forall i, j :: 0 <= i < j < |items| ==> items[i].sid != items[j].sid
    ensures |Sids(items)| == |items|
  {
    if items != [] {
      var last := |items| - 1;
      SidsSize(items[..last]);
      assert items == items[..last] + [items[last]];
      assert Sids(items) == Sids(items[..last]) + {items[last].sid};
      assert items[last].sid !in Sids(items[..last]);
    }
  }

  /** All but the last five of the sorted sessions are what the cap evicts. */
  lemma OldestAreVictims(s: Store, ids: set<string>, items: seq<Item>, now: int) returns (victims: set<string>)
    requires ListsFound(s, ids, items, now)
    ensures var sorted := Sort(items, OLDER_FIRST);
      var toDelete := Prefix(sorted, -MAX_SESSIONS);
      && victims == Sids(toDelete)
      && (forall i, j :: 0 <= i < j < |toDelete| ==> toDelete[i].sid != toDelete[j].sid)
      && (forall i :: 0 <= i < |toDelete| ==> GetSession(s, toDelete[i].sid, now).Found?)
      && OldestBeyondCap(s, FoundAmong(s, ids, now), victims)
  {
    var sorted := Sort(items, OLDER_FIRST);
    SortFacts(items, OLDER_FIRST);
    SortDistinct(items, OLDER_FIRST);
    var live := FoundAmong(s, ids, now);
    SortedFound(s, ids, items, now);
    SidsSize(sorted);
    assert Sids(sorted) == live;
    var n := PrefixLength(|sorted|, -MAX_SESSIONS);
    victims := Sids(sorted[..n]);
    SidsSize(sorted[..n]);
    forall v, k | v in victims && k in live - victims
      ensures s.sessions[v].lastAccessed <= s.sessions[k].lastAccessed
    {
      OlderThanKept(s, sorted, n, v, k);
    }
  }

  lemma SortedFound(s: Store, ids: set<string>, items: seq<Item>, now: int)
    requires ListsFound(s, ids, items, now)
    ensures ListsFound(s, ids, Sort(items, OLDER_FIRST), now)
    ensures Sids(Sort(items, OLDER_FIRST)) == Sids(items)
  {
    var sorted := Sort(items, OLDER_FIRST);
    SortFacts(items, OLDER_FIRST);
    SortDistinct(items, OLDER_FIRST);
    forall i, j | 0 <= i < j < |sorted| ensures sorted[i].sid != sorted[j].sid {
      assert sorted[i] in items && sorted[j] in items;
    }
  }

  lemma OlderThanKept(s: Store, sorted: seq<Item>, n: nat, v: string, k: string)
    requires SortedBy(sorted, OLDER_FIRST) && n <= |sorted|
    requires forall item :: item in sorted ==> item.sid in s.sessions && item.lastAccessed == s.sessions[item.sid].lastAccessed
    requires v in Sids(sorted[..n]) && k in Sids(sorted) && k !in Sids(sorted[..n])
    ensures s.sessions[v].lastAccessed <= s.sessions[k].lastAccessed
  {
    var a :| a in sorted[..n] && a.sid == v;
    var b :| b in sorted && b.sid == k;
    var i :| 0 <= i < n && sorted[..n][i] == a;
    var j :| 0 <= j < |sorted| && sorted[j] == b;
    assert forall x :: 0 <= x < n ==> sorted[..n][x] in sorted[..n] && sorted[..n][x] == sorted[x];
    assert n <= j;
    assert OLDER_FIRST(sorted[i], sorted[j]);
  }

  lemma DeleteNext(s: Store, items: seq<Item>, i: nat, now: int)
    requires WellFormed(s) && i < |items|
    requires forall a, b :: 0 <= a < b < |items| ==> items[a].sid != items[b].sid
    requires GetSession(s, items[i].sid, now).Found?
    ensures DeleteSession(DeleteAll(s, Sids(items[..i])), items[i].sid, now) == DeleteAll(s, Sids(items[..i + 1]))
  {
    var gone := Sids(items[..i]);
    var sid := items[i].sid;
    assert items[..i + 1] == items[..i] + [items[i]];
    assert Sids(items[..i + 1]) == gone + {sid};
    assert sid !in gone;
    var rest := DeleteAll(s, gone);
    RestWellFormed(s, gone);
    DeleteSessionIsDeleteAll(rest, sid, now);
    DeleteAllTwice(s, gone, {sid});
  }

  lemma DeleteAllTwice(s: Store, a: set<string>, b: set<string>)
    requires a !! b
    ensures DeleteAll(DeleteAll(s, a), b) == DeleteAll(s, a + b)
  {
    var x, y := DeleteAll(DeleteAll(s, a), b), DeleteAll(s, a + b);
    assert x.sessions == y.sessions;
    forall u | u in s.index ensures x.index[u] == y.index[u] {
      assert x.index[u].ids == y.index[u].ids;
    }
    assert x.index == y.index;
  }
}
