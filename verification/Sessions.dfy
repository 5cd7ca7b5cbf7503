/** The session store in Redis as a value: session keys with an expiry, a set of
    session ids per user with its own expiry, and the cap on sessions per user.
    Times are whole seconds. */
module Sessions {
  import opened Common

  datatype Session = Session(user: string, lastAccessed: int, expiresAt: int, active: bool, keyExpiry: int)

  datatype Index = Index(ids: set<string>, expiry: int)

  datatype Store = Store(sessions: map<string, Session>, index: map<string, Index>, clock: int)

  const MAX_SESSIONS := 5
  const SECONDS_PER_HOUR := 3600

  predicate Live(s: Store, sid: string, now: int) {
    sid in s.sessions && now < s.sessions[sid].keyExpiry
  }

  /** The user's live sessions; the id sets play no part. */
  function LiveOf(s: Store, user: string, now: int): set<string> {
    LiveAmong(s.sessions, user, now)
  }

  function LiveAmong(sessions: map<string, Session>, user: string, now: int): set<string> {
    set sid | sid in sessions && now < sessions[sid].keyExpiry && sessions[sid].user == user
  }

  /** The members of the user's id set, empty once that key has expired. */
  function Ids(s: Store, user: string, now: int): set<string> {
    if user in s.index && now < s.index[user].expiry then s.index[user].ids else {}
  }

  /** A lookup of a live key whose payload has expired deletes the session, which
      looks it up again, without end. */
  datatype Lookup = Missing | Found(session: Session) | Recurses

  function GetSession(s: Store, sid: string, now: int): Lookup {
    if !Live(s, sid, now) then Missing
    else if now > s.sessions[sid].expiresAt then Recurses
    else Found(s.sessions[sid])
  }

  function Unindex(s: Store, user: string, sid: string): Store {
    if user in s.index then s.(index := s.index[user := s.index[user].(ids := s.index[user].ids - {sid})]) else s
  }

  function DeleteSession(s: Store, sid: string, now: int): Store {
    var s' := if GetSession(s, sid, now).Found? then Unindex(s, s.sessions[sid].user, sid) else s;
    s'.(sessions := s'.sessions - {sid})
  }

  /** Stores a changed payload under the key's remaining time to live. */
  function Rewrite(s: Store, sid: string, payload: Session, now: int): Store
    requires sid in s.sessions
  {
    var ttl := s.sessions[sid].keyExpiry - now;
    if ttl > 0 then s.(sessions := s.sessions[sid := payload.(keyExpiry := now + ttl)]) else s
  }

  function Touch(s: Store, sid: string, now: int): Store {
    match GetSession(s, sid, now)
    case Found(info) => Rewrite(s, sid, info.(lastAccessed := now), now)
    case _ => s
  }

  function Invalidate(s: Store, sid: string, now: int): Store {
    match GetSession(s, sid, now)
    case Found(info) => Rewrite(s, sid, info.(active := false), now)
    case _ => s
  }

  // ----- creation -----

  /** The new session stored and indexed; the id set takes the new lifetime. */
  function Insert(s: Store, user: string, sid: string, hours: int, now: int): Store {
    var expiry := now + hours * SECONDS_PER_HOUR;
    s.(sessions := s.sessions[sid := Session(user, now, expiry, true, expiry)],
       index := s.index[user := Index(Ids(s, user, now) + {sid}, expiry)])
  }

  /** Among `live`, all but the five most recently accessed; ties are broken freely. */
  ghost predicate OldestBeyondCap(s: Store, live: set<string>, victims: set<string>) {
    && victims <= live <= s.sessions.Keys
    && |victims| == Max(0, |live| - MAX_SESSIONS)
    && (forall v, k :: v in victims && k in live - victims ==> s.sessions[v].lastAccessed <= s.sessions[k].lastAccessed)
  }

  /** What the cleanup may delete: nothing unless the id set holds more than five. */
  ghost predicate Victims(s: Store, user: string, victims: set<string>, now: int) {
    var ids := Ids(s, user, now);
    if |ids| <= MAX_SESSIONS then victims == {}
    else OldestBeyondCap(s, FoundAmong(s, ids, now), victims)
  }

  /** The ids whose session can still be looked up. */
  ghost function FoundAmong(s: Store, ids: set<string>, now: int): set<string> {
    set sid | sid in ids && GetSession(s, sid, now).Found?
  }

  /** Deleting a set of found sessions, whatever the order. */
  function DeleteAll(s: Store, victims: set<string>): Store {
    s.(sessions := s.sessions - victims,
       index := map u | u in s.index ::
         s.index[u].(ids := s.index[u].ids - (set v | v in victims && v in s.sessions && s.sessions[v].user == u)))
  }

  datatype Op =
    | OpCreate(user: string, sid: string, hours: int, victims: set<string>, now: int)
    | OpTouch(sid: string, now: int)
    | OpInvalidate(sid: string, now: int)
    | OpDelete(sid: string, now: int)
    | OpDeleteUser(user: string, now: int)

  function DeleteUser(s: Store, user: string, now: int): Store {
    var s' := DeleteAll(s, set sid | sid in Ids(s, user, now) && Live(s, sid, now));
    s'.(index := s'.index - {user})
  }

  function Step(s: Store, op: Op): Store {
    Apply(s.(clock := op.now), op)
  }

  /** What the operation does once the clock shows its time. */
  function Apply(s: Store, op: Op): Store {
    match op
    case OpCreate(user, sid, hours, victims, now) =>
      if hours <= 0 then s  // Redis rejects the lifetime and the call raises
      else DeleteAll(Insert(s, user, sid, hours, now), victims)
    case OpTouch(sid, now) => Touch(s, sid, now)
    case OpInvalidate(sid, now) => Invalidate(s, sid, now)
    case OpDelete(sid, now) => DeleteSession(s, sid, now)
    case OpDeleteUser(user, now) => DeleteUser(s, user, now)
  }

  /** The clock strictly advances, ids are new, and the cleanup picks what the code picks. */
  ghost predicate Enabled(s: Store, op: Op) {
    && s.clock < op.now
    && (op.OpCreate? && op.hours > 0 ==>
          && NewId(s, op.sid)
          && Victims(Insert(s.(clock := op.now), op.user, op.sid, op.hours, op.now), op.user, op.victims, op.now))
  }

  // ----- the invariant -----

  /** Each live session is in its user's id set for as long as it lives. */
  ghost predicate Indexed(s: Store, now: int) {
    forall sid :: Live(s, sid, now) ==> IndexedAt(s, sid)
  }

  predicate IndexedAt(s: Store, sid: string) {
    && sid in s.sessions && s.sessions[sid].user in s.index
    && sid in s.index[s.sessions[sid].user].ids
    && s.sessions[sid].keyExpiry <= s.index[s.sessions[sid].user].expiry
  }

  ghost predicate Capped(s: Store, now: int) {
    forall user :: |LiveOf(s, user, now)| <= MAX_SESSIONS
  }

  /** A key may outlive its payload by the second in which the payload is still accepted. */
  ghost predicate WellFormed(s: Store) {
    && (forall sid :: sid in s.sessions ==>
          s.sessions[sid].expiresAt <= s.sessions[sid].keyExpiry <= s.sessions[sid].expiresAt + 1)
    && (forall sid :: sid in s.sessions ==> s.sessions[sid].lastAccessed <= s.clock)
    && (forall u, sid :: u in s.index && sid in s.index[u].ids && sid in s.sessions ==> s.sessions[sid].user == u)
  }

  ghost predicate Inv(s: Store) {
    WellFormed(s) && Indexed(s, s.clock) && Capped(s, s.clock)
  }

  function Initial(clock: int): Store {
    Store(map[], map[], clock)
  }

  /** No lookup, now or later, falls into the endless recursion with deletion. */
  ghost predicate NeverRecurses(s: Store) {
    forall sid, later :: s.clock <= later ==> !GetSession(s, sid, later).Recurses?
  }

  /** What the store promises: live sessions can be found by user, users are within the
      cap, and lookups return. */
  ghost predicate Good(s: Store) {
    Indexed(s, s.clock) && Capped(s, s.clock) && NeverRecurses(s)
  }

  lemma InvIsGood(s: Store)
    requires Inv(s)
    ensures Good(s)
  {
    forall sid, later | s.clock <= later ensures !GetSession(s, sid, later).Recurses? {
    }
  }

  lemma LiveShrinks(s: Store, user: string, now: int, later: int)
    requires now <= later
    ensures LiveOf(s, user, later) <= LiveOf(s, user, now)
    ensures |LiveOf(s, user, later)| <= |LiveOf(s, user, now)|
  {
    SubsetCardinality(LiveOf(s, user, later), LiveOf(s, user, now));
  }

  /** Time alone breaks nothing. */
  lemma TimePasses(s: Store, now: int)
    requires Inv(s) && s.clock <= now
    ensures Inv(s.(clock := now))
  {
    var s' := s.(clock := now);
    forall user ensures |LiveOf(s', user, now)| <= MAX_SESSIONS {
      LiveShrinks(s, user, s.clock, now);
    }
    forall sid | Live(s', sid, now) ensures IndexedAt(s', sid) {
      assert Live(s, sid, s.clock);
    }
  }

  /** Rewriting a found session's payload changes neither its user nor its expiry. */
  lemma RewriteKeeps(s: Store, sid: string, payload: Session, now: int)
    requires Inv(s) && now == s.clock && GetSession(s, sid, now).Found?
    requires payload.user == s.sessions[sid].user && payload.expiresAt == s.sessions[sid].expiresAt && payload.lastAccessed <= now
    ensures Inv(Rewrite(s, sid, payload, now))
    ensures Rewrite(s, sid, payload, now).sessions[sid].keyExpiry == s.sessions[sid].keyExpiry
  {
    var s' := Rewrite(s, sid, payload, now);
    forall user ensures LiveOf(s', user, now) == LiveOf(s, user, now) {
    }
    forall x | Live(s', x, now) ensures IndexedAt(s', x) {
      assert Live(s, x, now);
    }
  }

  /** Deleting sessions, and their ids, keeps the rest indexed. */
  lemma DeleteAllKeeps(s: Store, victims: set<string>, now: int)
    requires WellFormed(s) && Indexed(s, now)
    ensures WellFormed(DeleteAll(s, victims)) && Indexed(DeleteAll(s, victims), now)
  {
    var s' := DeleteAll(s, victims);
    forall sid | Live(s', sid, now) ensures IndexedAt(s', sid) {
      assert Live(s, sid, now);
      StaysInIndex(s, victims, s.sessions[sid].user, sid);
    }
  }

  lemma DeleteAllLeaves(s: Store, victims: set<string>, user: string, now: int)
    ensures LiveOf(DeleteAll(s, victims), user, now) == LiveOf(s, user, now) - victims
    ensures |LiveOf(DeleteAll(s, victims), user, now)| <= |LiveOf(s, user, now)|
  {
    var s' := DeleteAll(s, victims);
    forall sid ensures sid in LiveOf(s', user, now) <==> sid in LiveOf(s, user, now) - victims {
    }
    SubsetCardinality(LiveOf(s', user, now), LiveOf(s, user, now));
  }

  lemma DeleteSessionIsDeleteAll(s: Store, sid: string, now: int)
    requires WellFormed(s) && GetSession(s, sid, now).Found?
    ensures DeleteSession(s, sid, now) == DeleteAll(s, {sid})
  {
    var a, b := DeleteSession(s, sid, now), DeleteAll(s, {sid});
    assert a.index.Keys == b.index.Keys;
    forall u | u in s.index ensures a.index[u] == b.index[u] {
      if u == s.sessions[sid].user {
        assert s.index[u].ids - {sid} == b.index[u].ids;
      } else {
        assert sid !in s.index[u].ids;
        assert s.index[u].ids == b.index[u].ids;
      }
    }
  }

  lemma DeleteKeeps(s: Store, sid: string, now: int)
    requires Inv(s) && now == s.clock
    ensures Inv(DeleteSession(s, sid, now))
  {
    if GetSession(s, sid, now).Found? {
      DeleteSessionIsDeleteAll(s, sid, now);
      DeleteAllKeeps(s, {sid}, now);
      forall user ensures |LiveOf(DeleteAll(s, {sid}), user, now)| <= MAX_SESSIONS {
        DeleteAllLeaves(s, {sid}, user, now);
      }
    } else {
      var s' := DeleteSession(s, sid, now);
      forall user ensures LiveOf(s', user, now) == LiveOf(s, user, now) {
      }
      forall x | Live(s', x, now) ensures IndexedAt(s', x) {
        assert Live(s, x, now);
      }
    }
  }

  /** Dropping the id set of a user without live sessions loses nothing. */
  lemma DropIndexKeeps(s: Store, user: string, now: int)
    requires WellFormed(s) && Indexed(s, now) && LiveOf(s, user, now) == {}
    ensures var s' := s.(index := s.index - {user});
      WellFormed(s') && Indexed(s', now) && forall u :: LiveOf(s', u, now) == LiveOf(s, u, now)
  {
    var s' := s.(index := s.index - {user});
    forall sid | sid in s'.sessions && Live(s', sid, now) ensures s'.sessions[sid].user != user && Live(s, sid, now) {
      assert sid !in LiveOf(s, user, now);
    }
    forall u, sid ensures sid in LiveOf(s', u, now) <==> sid in LiveOf(s, u, now) {
    }
  }

  lemma DeleteUserKeeps(s: Store, user: string, now: int)
    requires Inv(s) && now == s.clock
    ensures Inv(DeleteUser(s, user, now))
    ensures LiveOf(DeleteUser(s, user, now), user, now) == {}
  {
    var gone := set sid | sid in Ids(s, user, now) && Live(s, sid, now);
    var rest := DeleteAll(s, gone);
    DeleteAllKeeps(s, gone, now);
    DeleteAllLeaves(s, gone, user, now);
    FoundAreLive(s, user, now);
    assert LiveOf(rest, user, now) == {};
    DropIndexKeeps(rest, user, now);
    forall u ensures |LiveOf(rest, u, now)| <= MAX_SESSIONS {
      DeleteAllLeaves(s, gone, u, now);
    }
  }

  // ----- creation -----

  ghost predicate NewId(s: Store, sid: string) {
    sid !in s.sessions && forall u :: u in s.index ==> sid !in s.index[u].ids
  }

  lemma InsertLive(s: Store, user: string, sid: string, hours: int, now: int, u: string)
    requires sid !in s.sessions && hours > 0
    ensures LiveOf(Insert(s, user, sid, hours, now), u, now) ==
      if u == user then LiveOf(s, u, now) + {sid} else LiveOf(s, u, now)
  {
    var s' := Insert(s, user, sid, hours, now);
    forall x ensures x in LiveOf(s', u, now) <==> x in LiveOf(s, u, now) || (x == sid && u == user) {
    }
  }

  lemma InsertWellFormed(s: Store, user: string, sid: string, hours: int, now: int)
    requires WellFormed(s) && NewId(s, sid) && s.clock == now
    ensures WellFormed(Insert(s, user, sid, hours, now))
  {
  }

  /** The found sessions among the user's ids are the user's live sessions. */
  lemma FoundAreLive(s: Store, user: string, now: int)
    requires WellFormed(s) && Indexed(s, now)
    ensures FoundAmong(s, Ids(s, user, now), now) == LiveOf(s, user, now)
    ensures LiveOf(s, user, now) <= Ids(s, user, now)
  {
    var found, live := FoundAmong(s, Ids(s, user, now), now), LiveOf(s, user, now);
    forall x ensures x in live <==> x in found {
      if x in live {
        LiveIsFound(s, user, x, now);
      }
      if x in found {
        FoundIsLive(s, user, x, now);
      }
    }
  }

  lemma LiveIsFound(s: Store, user: string, x: string, now: int)
    requires WellFormed(s) && Indexed(s, now) && x in LiveOf(s, user, now)
    ensures x in Ids(s, user, now) && GetSession(s, x, now).Found?
  {
    assert Live(s, x, now);
  }

  lemma FoundIsLive(s: Store, user: string, x: string, now: int)
    requires WellFormed(s) && x in Ids(s, user, now) && GetSession(s, x, now).Found?
    ensures x in LiveOf(s, user, now)
  {
    assert user in s.index && x in s.index[user].ids;
    assert s.sessions[x].user == user;
  }

  lemma StepCreates(s: Store, op: Op)
    requires op.OpCreate?
    ensures Step(s, op) ==
      if op.hours <= 0 then s.(clock := op.now)
      else DeleteAll(Insert(s.(clock := op.now), op.user, op.sid, op.hours, op.now), op.victims)
  {
  }

  /** The cleanup after an insertion chooses among the user's live sessions and the new one. */
  lemma VictimsFrom(s: Store, op: Op, live: set<string>)
    requires Inv(s) && Enabled(s, op) && op.OpCreate? && op.hours > 0 && live == LiveOf(s, op.user, op.now)
    ensures op.sid !in live && |live| <= MAX_SESSIONS
    ensures |live| < MAX_SESSIONS ==> op.victims == {}
    ensures |live| == MAX_SESSIONS ==>
      OldestBeyondCap(Insert(s.(clock := op.now), op.user, op.sid, op.hours, op.now), live + {op.sid}, op.victims)
    ensures var s1 := Insert(s.(clock := op.now), op.user, op.sid, op.hours, op.now);
      forall x :: x in live ==>
        x in s1.sessions && s1.sessions[x] == s.sessions[x] && s.sessions[x].lastAccessed < s1.sessions[op.sid].lastAccessed
  {
    var s0 := s.(clock := op.now);
    var s1 := Insert(s0, op.user, op.sid, op.hours, op.now);
    LiveCapped(s, op.user, op.now);
    TimePasses(s, op.now);
    FoundAfterInsert(s0, op.user, op.sid, op.hours, op.now);
    if |Ids(s1, op.user, op.now)| > MAX_SESSIONS {
      FewHaveNoVictims(s1, live, op.sid, op.victims);
    }
  }

  lemma LiveCapped(s: Store, user: string, now: int)
    requires Capped(s, s.clock) && s.clock <= now
    ensures |LiveOf(s, user, now)| <= MAX_SESSIONS
  {
    LiveShrinks(s, user, s.clock, now);
    assert |LiveOf(s, user, s.clock)| <= MAX_SESSIONS;
  }

  lemma FewHaveNoVictims(s: Store, live: set<string>, sid: string, victims: set<string>)
    requires OldestBeyondCap(s, live + {sid}, victims) && sid !in live
    ensures |live| < MAX_SESSIONS ==> victims == {}
  {
    assert |live + {sid}| == |live| + 1;
  }

  lemma FoundAfterInsert(s: Store, user: string, sid: string, hours: int, now: int)
    requires WellFormed(s) && Indexed(s, now) && s.clock == now && hours > 0 && NewId(s, sid)
    ensures var s1 := Insert(s, user, sid, hours, now);
      && FoundAmong(s1, Ids(s1, user, now), now) == LiveOf(s, user, now) + {sid}
      && sid !in LiveOf(s, user, now)
      && |LiveOf(s, user, now)| + 1 <= |Ids(s1, user, now)|
  {
    var s1, live := Insert(s, user, sid, hours, now), LiveOf(s, user, now);
    FoundAreLive(s, user, now);
    IdsAfterInsert(s, user, sid, hours, now);
    FoundGrows(s, s1, Ids(s, user, now), sid, now);
    SubsetCardinality(live + {sid}, Ids(s, user, now) + {sid});
  }

  lemma FoundGrows(s: Store, s1: Store, ids: set<string>, sid: string, now: int)
    requires GetSession(s1, sid, now).Found? && forall x :: x != sid ==> GetSession(s1, x, now) == GetSession(s, x, now)
    ensures FoundAmong(s1, ids + {sid}, now) == FoundAmong(s, ids, now) + {sid}
  {
  }

  lemma IdsAfterInsert(s: Store, user: string, sid: string, hours: int, now: int)
    requires hours > 0 && NewId(s, sid)
    ensures var s1 := Insert(s, user, sid, hours, now);
      && Ids(s1, user, now) == Ids(s, user, now) + {sid}
      && GetSession(s1, sid, now).Found?
      && (forall x :: x != sid ==> GetSession(s1, x, now) == GetSession(s, x, now))
  {
  }

  lemma OldestSpareNewest(s: Store, live: set<string>, victims: set<string>, newest: string)
    requires OldestBeyondCap(s, live, victims) && victims != {}
    requires newest in live && forall x :: x in live && x != newest ==> s.sessions[x].lastAccessed < s.sessions[newest].lastAccessed
    ensures newest !in victims
  {
    assert |victims| > 0;
    assert |live - victims| == MAX_SESSIONS by {
      assert live == (live - victims) + victims;
    }
    var kept :| kept in live - victims;
  }

  /** After a creation the user has the live sessions there were and the new one, less
      the victims: min(5, n + 1) of them. Other users keep theirs. */
  lemma CreateCapped(s: Store, op: Op)
    requires Inv(s) && Enabled(s, op) && op.OpCreate? && op.hours > 0
    ensures var live, s' := LiveOf(s, op.user, op.now), Step(s, op);
      && LiveOf(s', op.user, op.now) == live + {op.sid} - op.victims && op.sid !in live && op.sid !in op.victims
      && |LiveOf(s', op.user, op.now)| == Min(MAX_SESSIONS, |live| + 1)
      && Capped(s', op.now)
  {
    VictimsSpareNew(s, op, LiveOf(s, op.user, op.now));
    forall u ensures LiveOf(Step(s, op), u, op.now) ==
      (if u == op.user then LiveOf(s, u, op.now) + {op.sid} else LiveOf(s, u, op.now)) - op.victims
    {
      CreateLive(s, op, u);
    }
    KeptCount(LiveOf(s, op.user, op.now), op.sid, op.victims);
    forall u | u != op.user ensures |LiveOf(Step(s, op), u, op.now)| <= MAX_SESSIONS {
      LiveCapped(s, u, op.now);
      SubsetCardinality(LiveOf(s, u, op.now) - op.victims, LiveOf(s, u, op.now));
    }
  }

  lemma CreateLive(s: Store, op: Op, u: string)
    requires op.OpCreate? && op.hours > 0 && op.sid !in s.sessions
    ensures LiveOf(Step(s, op), u, op.now) ==
      (if u == op.user then LiveOf(s, u, op.now) + {op.sid} else LiveOf(s, u, op.now)) - op.victims
  {
    var s0 := s.(clock := op.now);
    StepCreates(s, op);
    InsertLive(s0, op.user, op.sid, op.hours, op.now, u);
    DeleteAllLeaves(Insert(s0, op.user, op.sid, op.hours, op.now), op.victims, u, op.now);
  }

  lemma VictimsSpareNew(s: Store, op: Op, live: set<string>)
    requires Inv(s) && Enabled(s, op) && op.OpCreate? && op.hours > 0 && live == LiveOf(s, op.user, op.now)
    ensures op.sid !in live && op.sid !in op.victims && |live| <= MAX_SESSIONS
    ensures if |live| < MAX_SESSIONS then op.victims == {} else op.victims <= live + {op.sid} && |op.victims| == 1
  {
    VictimsFrom(s, op, live);
    if |live| == MAX_SESSIONS {
      assert |live + {op.sid}| == |live| + 1;
      OldestSpareNewest(Insert(s.(clock := op.now), op.user, op.sid, op.hours, op.now), live + {op.sid}, op.victims, op.sid);
    }
  }

  lemma KeptCount(live: set<string>, sid: string, victims: set<string>)
    requires sid !in live && |live| <= MAX_SESSIONS
    requires if |live| < MAX_SESSIONS then victims == {} else victims <= live + {sid} && |victims| == 1
    ensures |live + {sid} - victims| == Min(MAX_SESSIONS, |live| + 1)
  {
    assert |live + {sid}| == |live| + 1;
    assert live + {sid} == (live + {sid} - victims) + (victims * (live + {sid}));
    assert |live| == MAX_SESSIONS ==> victims * (live + {sid}) == victims;
  }

  /** At every later instant the user's live sessions are still in the id set. */
  ghost predicate StaysIndexed(s: Store, user: string, now: int) {
    forall sid, later :: now <= later && sid in LiveOf(s, user, later) ==> sid in Ids(s, user, later)
  }

  /** The new session outlasts the user's others that its cleanup keeps. */
  predicate OutlastsKept(s: Store, op: Op)
    requires op.OpCreate?
  {
    forall sid :: sid in LiveOf(s, op.user, op.now) && sid !in op.victims ==>
      s.sessions[sid].keyExpiry <= op.now + op.hours * SECONDS_PER_HOUR
  }

  /** A creation leaves live sessions indexed for the rest of their lives exactly when the
      new one outlasts the others kept. */
  lemma CreateIndexedExactly(s: Store, op: Op)
    requires Inv(s) && Enabled(s, op) && op.OpCreate? && op.hours > 0
    ensures Indexed(Step(s, op), op.now) <==> OutlastsKept(s, op)
  {
    var s0 := s.(clock := op.now);
    StepCreates(s, op);
    CreateCapped(s, op);
    TimePasses(s, op.now);
    if OutlastsKept(s, op) {
      AllKeptIndexed(s0, op);
    } else {
      var longer :| longer in LiveOf(s, op.user, op.now) && longer !in op.victims &&
        s.sessions[longer].keyExpiry > op.now + op.hours * SECONDS_PER_HOUR;
      LongerIsLost(s0, op, longer);
    }
  }

  lemma AllKeptIndexed(s: Store, op: Op)
    requires op.OpCreate? && op.hours > 0 && Indexed(s, op.now) && OutlastsKept(s, op)
    requires op.sid !in op.victims && op.sid !in s.sessions
    ensures Indexed(DeleteAll(Insert(s, op.user, op.sid, op.hours, op.now), op.victims), op.now)
  {
    var s1 := Insert(s, op.user, op.sid, op.hours, op.now);
    var s' := DeleteAll(s1, op.victims);
    forall sid | Live(s', sid, op.now) ensures IndexedAt(s', sid) {
      if sid != op.sid {
        assert Live(s, sid, op.now);
        assert s.sessions[sid].user == op.user ==> sid in LiveOf(s, op.user, op.now);
        InsertKeepsIndexed(s, op.user, op.sid, op.hours, op.now, sid);
      }
      StaysInIndex(s1, op.victims, s1.sessions[sid].user, sid);
    }
  }

  lemma InsertKeepsIndexed(s: Store, user: string, added: string, hours: int, now: int, sid: string)
    requires Live(s, sid, now) && IndexedAt(s, sid) && sid != added
    requires s.sessions[sid].user == user ==> s.sessions[sid].keyExpiry <= now + hours * SECONDS_PER_HOUR
    ensures IndexedAt(Insert(s, user, added, hours, now), sid)
  {
  }

  lemma StaysInIndex(s: Store, victims: set<string>, user: string, sid: string)
    requires user in s.index && sid in s.index[user].ids && sid !in victims
    ensures var s' := DeleteAll(s, victims);
      user in s'.index && sid in s'.index[user].ids && s'.index[user].expiry == s.index[user].expiry
  {
  }

  lemma LongerIsLost(s: Store, op: Op, longer: string)
    requires op.OpCreate? && longer in LiveOf(s, op.user, op.now) && longer != op.sid && longer !in op.victims
    requires s.sessions[longer].keyExpiry > op.now + op.hours * SECONDS_PER_HOUR
    ensures !Indexed(DeleteAll(Insert(s, op.user, op.sid, op.hours, op.now), op.victims), op.now)
  {
    var s' := DeleteAll(Insert(s, op.user, op.sid, op.hours, op.now), op.victims);
    assert longer in s'.sessions && Live(s', longer, op.now);
  }

  /** Indexed means: findable at every later instant. */
  lemma IndexedIsFindable(s: Store, now: int)
    requires Indexed(s, now)
    ensures forall user :: StaysIndexed(s, user, now)
  {
    forall user, sid, later | now <= later && sid in LiveOf(s, user, later) ensures sid in Ids(s, user, later) {
      assert Live(s, sid, now);
    }
  }

  lemma RestWellFormed(s: Store, gone: set<string>)
    requires WellFormed(s)
    ensures WellFormed(DeleteAll(s, gone))
  {
  }

  lemma StepDeletesUser(s: Store, user: string, now: int)
    ensures Step(s, OpDeleteUser(user, now)) == DeleteUser(s.(clock := now), user, now)
  {
  }

  /** Well-formedness alone survives every operation, whatever the lifetimes. */
  lemma StepWellFormed(s: Store, op: Op)
    requires WellFormed(s) && Enabled(s, op)
    ensures WellFormed(Step(s, op))
  {
    var s0 := s.(clock := op.now);
    assert WellFormed(s0);
    match op {
      case OpCreate(user, sid, hours, victims, now) =>
        StepCreates(s, op);
        if hours > 0 {
          InsertWellFormed(s0, user, sid, hours, now);
          RestWellFormed(Insert(s0, user, sid, hours, now), victims);
        }
      case OpDelete(sid, now) =>
        if GetSession(s0, sid, now).Found? {
          DeleteSessionIsDeleteAll(s0, sid, now);
          RestWellFormed(s0, {sid});
        }
      case OpDeleteUser(user, now) =>
        StepDeletesUser(s, user, now);
        RestWellFormed(s0, set sid | sid in Ids(s0, user, now) && Live(s0, sid, now));
      case OpTouch(_, _) =>
      case OpInvalidate(_, _) =>
    }
  }

  /** A creation keeps the store's promises if and only if the new session outlasts the
      others kept. */
  lemma CreateKeepsExactly(s: Store, op: Op)
    requires Inv(s) && Enabled(s, op) && op.OpCreate? && op.hours > 0
    ensures Good(Step(s, op)) <==> OutlastsKept(s, op)
    ensures OutlastsKept(s, op) ==> Inv(Step(s, op))
  {
    StepClock(s, op);
    CreateCapped(s, op);
    CreateIndexedExactly(s, op);
    StepWellFormed(s, op);
    if OutlastsKept(s, op) {
      InvIsGood(Step(s, op));
    }
  }

  lemma StepClock(s: Store, op: Op)
    ensures Step(s, op).clock == op.now
  {
  }

  /** Creations apart, every operation keeps the invariant. */
  lemma OtherStepsKeep(s: Store, op: Op)
    requires Inv(s) && s.clock == op.now && !op.OpCreate?
    ensures Inv(Apply(s, op))
  {
    match op {
      case OpTouch(sid, now) =>
        if GetSession(s, sid, now).Found? {
          RewriteKeeps(s, sid, s.sessions[sid].(lastAccessed := now), now);
        }
      case OpInvalidate(sid, now) =>
        if GetSession(s, sid, now).Found? {
          RewriteKeeps(s, sid, s.sessions[sid].(active := false), now);
        }
      case OpDelete(sid, now) => DeleteKeeps(s, sid, now);
      case OpDeleteUser(user, now) => DeleteUserKeeps(s, user, now);
    }
  }

  lemma StepKeeps(s: Store, op: Op)
    requires Inv(s) && Enabled(s, op) && (op.OpCreate? && op.hours > 0 ==> OutlastsKept(s, op))
    ensures Inv(Step(s, op))
  {
    TimePasses(s, op.now);
    if op.OpCreate? {
      if op.hours > 0 {
        CreateKeepsExactly(s, op);
      } else {
        StepCreates(s, op);
      }
    } else {
      OtherStepsKeep(s.(clock := op.now), op);
    }
  }

  // ----- what single operations promise -----

  /** A creation keeps the new session, and whatever it evicts was accessed no later
      than anything of the user's it keeps. */
  lemma EvictsLeastRecent(s: Store, op: Op)
    requires Inv(s) && Enabled(s, op) && op.OpCreate? && op.hours > 0
    ensures op.sid in LiveOf(Step(s, op), op.user, op.now)
    ensures var before, after := LiveOf(s, op.user, op.now), LiveOf(Step(s, op), op.user, op.now);
      forall v, k :: v in before - after && k in after * before ==> s.sessions[v].lastAccessed <= s.sessions[k].lastAccessed
  {
    CreateCapped(s, op);
    VictimsFrom(s, op, LiveOf(s, op.user, op.now));
  }

  /** The cap is five: a user with up to four live sessions loses none to a new one, a user
      with five exactly one. */
  lemma FiveMayStay(s: Store, op: Op)
    requires Inv(s) && Enabled(s, op) && op.OpCreate? && op.hours > 0
    ensures var before, after := LiveOf(s, op.user, op.now), LiveOf(Step(s, op), op.user, op.now);
      && |before| <= 5
      && (|before| <= 4 ==> after == before + {op.sid})
      && (|before| == 5 ==> exists v :: v in before && after == before - {v} + {op.sid})
  {
    CreateLive(s, op, op.user);
    VictimsSpareNew(s, op, LiveOf(s, op.user, op.now));
    if op.victims != {} {
      OneLess(LiveOf(s, op.user, op.now), op.sid, op.victims);
    }
  }

  lemma OneLess(live: set<string>, sid: string, victims: set<string>)
    requires sid !in live && sid !in victims && victims <= live + {sid} && |victims| == 1
    ensures exists v :: v in live && live + {sid} - victims == live - {v} + {sid}
  {
    var v :| v in victims;
    SubsetCardinality({v}, victims);
    assert victims == {v};
    assert live + {sid} - victims == live - {v} + {sid};
  }

  /** A new session is active, was accessed now, and its user's other sessions keep theirs. */
  lemma CreatedIs(s: Store, op: Op)
    requires Inv(s) && Enabled(s, op) && op.OpCreate? && op.hours > 0
    ensures GetSession(Step(s, op), op.sid, op.now)
         == Found(Session(op.user, op.now, op.now + 3600 * op.hours, true, op.now + 3600 * op.hours))
    ensures forall x :: x in Step(s, op).sessions && x != op.sid ==> x in s.sessions && Step(s, op).sessions[x] == s.sessions[x]
  {
    VictimsSpareNew(s, op, LiveOf(s, op.user, op.now));
    StepCreates(s, op);
    InsertedIs(s.(clock := op.now), op.user, op.sid, op.hours, op.now, op.victims);
  }

  lemma InsertedIs(s: Store, user: string, sid: string, hours: int, now: int, victims: set<string>)
    requires hours > 0 && sid !in victims
    ensures var s' := DeleteAll(Insert(s, user, sid, hours, now), victims);
      && GetSession(s', sid, now) == Found(Session(user, now, now + 3600 * hours, true, now + 3600 * hours))
      && forall x :: x in s'.sessions && x != sid ==> x in s.sessions && s'.sessions[x] == s.sessions[x]
  {
  }

  /** A creation evicts no more than the cap demands. */
  lemma EvictsOnlyBeyondCap(s: Store, op: Op)
    requires Inv(s) && Enabled(s, op) && op.OpCreate? && op.hours > 0
    ensures |LiveOf(Step(s, op), op.user, op.now)| == Min(MAX_SESSIONS, |LiveOf(s, op.user, op.now)| + 1)
  {
    CreateCapped(s, op);
  }

  /** Touching or invalidating a session never moves its expiry: it dies at the same
      instant as before. A touch of a live session records the access. */
  lemma TouchKeepsExpiry(s: Store, op: Op, sid: string, later: int)
    requires WellFormed(s) && (op.OpTouch? || op.OpInvalidate?)
    ensures op.OpTouch? && Live(s, op.sid, op.now) ==> Step(s, op).sessions[op.sid].lastAccessed == op.now
    ensures op.OpInvalidate? && Live(s, op.sid, op.now) ==> !Step(s, op).sessions[op.sid].active
    ensures Live(Step(s, op), sid, later) == Live(s, sid, later)
    ensures sid in s.sessions ==> sid in Step(s, op).sessions && Step(s, op).sessions[sid].keyExpiry == s.sessions[sid].keyExpiry
  {
  }

  /** After deleting a user's sessions none of them is live. */
  lemma DeleteUserLeavesNone(s: Store, user: string, now: int)
    requires Inv(s) && s.clock < now
    ensures LiveOf(Step(s, OpDeleteUser(user, now)), user, now) == {}
  {
    TimePasses(s, now);
    DeleteUserKeeps(s.(clock := now), user, now);
    StepDeletesUser(s, user, now);
  }

  lemma DeleteNothing(s: Store)
    ensures DeleteAll(s, {}) == s
  {
    assert s.sessions - {} == s.sessions;
    forall u | u in s.index ensures DeleteAll(s, {}).index[u] == s.index[u] {
      assert DeleteAll(s, {}).index[u].ids == s.index[u].ids;
    }
    assert DeleteAll(s, {}).index == s.index;
  }
}
