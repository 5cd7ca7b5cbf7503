/** Whole runs of the session store, one operation after another: exactly which
    lifetimes keep every live session findable and every user within the cap. */
module SessionRuns {
  import opened Common
  import opened Sessions

  /** The state after `ops`, one whole operation after another, each enabled in turn. */
  ghost function Run(s: Store, ops: seq<Op>): Option<Store>
    decreases |ops|
  {
    if ops == [] then Some(s)
    else if Enabled(s, ops[0]) then Run(Step(s, ops[0]), ops[1..])
    else None
  }

  // ----- which sessions stay can be told before a creation -----

  ghost predicate DistinctAccess(s: Store) {
    forall a, b :: a in s.sessions && b in s.sessions && a != b ==> s.sessions[a].lastAccessed != s.sessions[b].lastAccessed
  }

  /** An operation only drops sessions or gives one of them the present as access time. */
  lemma StepAccess(s: Store, op: Op, sid: string)
    requires WellFormed(s) && Enabled(s, op) && sid in Step(s, op).sessions
    ensures var access := Step(s, op).sessions[sid].lastAccessed;
      || (sid in s.sessions && access == s.sessions[sid].lastAccessed)
      || (access == op.now && (op.OpCreate? || op.OpTouch?) && sid == op.sid)
  {
    if op.OpCreate? {
      StepCreates(s, op);
    }
  }

  lemma StepKeepsDistinct(s: Store, op: Op)
    requires WellFormed(s) && DistinctAccess(s) && Enabled(s, op)
    ensures DistinctAccess(Step(s, op))
  {
    var s' := Step(s, op);
    forall a, b | a in s'.sessions && b in s'.sessions && a != b
      ensures s'.sessions[a].lastAccessed != s'.sessions[b].lastAccessed
    {
      StepAccess(s, op, a);
      StepAccess(s, op, b);
    }
  }

  /** Read off the store before the call: all of the user's live sessions except, when
      there are five already, the one accessed longest ago. */
  function Staying(s: Store, user: string, now: int): set<string> {
    set sid | sid in LiveOf(s, user, now) && (|LiveOf(s, user, now)| < MAX_SESSIONS || HasOlder(s, user, now, sid))
  }

  predicate HasOlder(s: Store, user: string, now: int, sid: string)
    requires sid in s.sessions
  {
    exists older :: older in LiveOf(s, user, now) && s.sessions[older].lastAccessed < s.sessions[sid].lastAccessed
  }

  /** The new session outlasts those that stay. */
  predicate OutlastsStaying(s: Store, op: Op) {
    op.OpCreate? && op.hours > 0 ==>
      forall sid :: sid in Staying(s, op.user, op.now) ==> s.sessions[sid].keyExpiry <= op.now + op.hours * SECONDS_PER_HOUR
  }

  /** What stays can be told before the call: it is what the cleanup keeps. */
  lemma StayingAreKept(s: Store, op: Op)
    requires Inv(s) && DistinctAccess(s) && Enabled(s, op) && op.OpCreate? && op.hours > 0
    ensures Staying(s, op.user, op.now) == LiveOf(s, op.user, op.now) - op.victims
  {
    var live := LiveOf(s, op.user, op.now);
    VictimsFrom(s, op, live);
    if |live| == MAX_SESSIONS {
      OneVictim(s, Insert(s.(clock := op.now), op.user, op.sid, op.hours, op.now), live, op.sid, op.victims);
    }
  }

  /** Of five sessions and a new one the single victim is the one accessed longest ago. */
  lemma OneVictim(s: Store, s1: Store, live: set<string>, sid: string, victims: set<string>)
    requires live <= s.sessions.Keys && |live| == MAX_SESSIONS && sid !in live && DistinctAccess(s)
    requires OldestBeyondCap(s1, live + {sid}, victims)
    requires forall x :: x in live ==> x in s1.sessions && s1.sessions[x] == s.sessions[x] && s.sessions[x].lastAccessed < s1.sessions[sid].lastAccessed
    ensures forall x :: x in live ==>
      (x !in victims <==> exists older :: older in live && s.sessions[older].lastAccessed < s.sessions[x].lastAccessed)
  {
    assert |live + {sid}| == MAX_SESSIONS + 1 && |victims| == 1;
    var v :| v in victims;
    assert victims == {v} by {
      SubsetCardinality({v}, victims);
    }
    var k :| k in live;
    assert k != v ==> k in live + {sid} - victims;
    assert v in live;
    forall x | x in live ensures x !in victims <==> exists older :: older in live && s.sessions[older].lastAccessed < s.sessions[x].lastAccessed {
      if x != v {
        assert x in live + {sid} - victims;
        assert s.sessions[v].lastAccessed < s.sessions[x].lastAccessed;
      } else {
        forall older | older in live ensures s.sessions[older].lastAccessed >= s.sessions[v].lastAccessed {
          assert older == v || older in live + {sid} - victims;
        }
      }
    }
  }

  /** A step keeps the store's promises if and only if the session it creates, if any,
      outlasts those that stay. */
  lemma StepKeepsExactly(s: Store, op: Op)
    requires Inv(s) && DistinctAccess(s) && Enabled(s, op)
    ensures Good(Step(s, op)) <==> OutlastsStaying(s, op)
    ensures OutlastsStaying(s, op) ==> Inv(Step(s, op))
  {
    if op.OpCreate? && op.hours > 0 {
      StayingAreKept(s, op);
      CreateKeepsExactly(s, op);
    } else {
      StepKeeps(s, op);
      InvIsGood(Step(s, op));
    }
  }

  // ----- runs -----

  /** Every session created outlasts those of its user's that stay. */
  ghost predicate AllOutlast(s: Store, ops: seq<Op>)
    requires Run(s, ops).Some?
    decreases |ops|
  {
    ops == [] || (OutlastsStaying(s, ops[0]) && AllOutlast(Step(s, ops[0]), ops[1..]))
  }

  /** The store keeps its promises after every operation. */
  ghost predicate AlwaysGood(s: Store, ops: seq<Op>)
    requires Run(s, ops).Some?
    decreases |ops|
  {
    ops == [] || (Good(Step(s, ops[0])) && AlwaysGood(Step(s, ops[0]), ops[1..]))
  }

  lemma {:induction false} GoodIffOutlasting(s: Store, ops: seq<Op>)
    requires Inv(s) && DistinctAccess(s) && Run(s, ops).Some?
    ensures AlwaysGood(s, ops) <==> AllOutlast(s, ops)
    ensures AllOutlast(s, ops) ==> Inv(Run(s, ops).value)
    decreases |ops|
  {
    if ops != [] {
      StepKeepsExactly(s, ops[0]);
      StepKeepsDistinct(s, ops[0]);
      if OutlastsStaying(s, ops[0]) {
        GoodIffOutlasting(Step(s, ops[0]), ops[1..]);
      }
    }
  }

  /** In every sequential run, all along: live sessions stay findable by user, no user has
      more than five and every lookup returns, if and only if each session created
      outlasts its user's live sessions but, of five, the one accessed longest ago. */
  lemma GoodExactlyWhenOutlasting(clock: int, ops: seq<Op>)
    requires Run(Initial(clock), ops).Some?
    ensures AlwaysGood(Initial(clock), ops) <==> AllOutlast(Initial(clock), ops)
  {
    GoodIffOutlasting(Initial(clock), ops);
  }

  /** Every session's expiry lies within one lifetime of the clock. */
  ghost predicate Within(s: Store, hours: int) {
    forall sid :: sid in s.sessions ==> s.sessions[sid].keyExpiry <= s.clock + hours * SECONDS_PER_HOUR
  }

  /** Every creation asks for the same lifetime. */
  predicate Uniform(ops: seq<Op>, hours: int) {
    forall i :: 0 <= i < |ops| && ops[i].OpCreate? ==> ops[i].hours == hours
  }

  lemma UniformTail(ops: seq<Op>, hours: int)
    requires ops != [] && Uniform(ops, hours)
    ensures (ops[0].OpCreate? ==> ops[0].hours == hours) && Uniform(ops[1..], hours)
  {
  }

  lemma UniformStepKeeps(s: Store, op: Op, hours: int)
    requires Inv(s) && Within(s, hours) && Enabled(s, op) && (op.OpCreate? ==> op.hours == hours)
    ensures Inv(Step(s, op)) && Within(Step(s, op), hours)
  {
    StepKeeps(s, op);
    if op.OpCreate? {
      StepCreates(s, op);
    }
  }

  /** With one lifetime for all sessions, nothing more is assumed of a sequential run:
      it ends with every live session indexed and no user over the cap. */
  lemma {:induction false} UniformRunKeeps(s: Store, ops: seq<Op>, hours: int)
    requires Inv(s) && Within(s, hours) && Run(s, ops).Some? && Uniform(ops, hours)
    ensures Inv(Run(s, ops).value) && Within(Run(s, ops).value, hours)
    decreases |ops|
  {
    if ops != [] {
      UniformTail(ops, hours);
      UniformStepKeeps(s, ops[0], hours);
      UniformRunKeeps(Step(s, ops[0]), ops[1..], hours);
    }
  }

  /** A 24-hour session and then a 1-hour one: after an hour the long session is live
      and its user's id set is gone. */
  lemma ShortSessionHidesLong(user: string, long: string, short: string)
    requires long != short
    ensures var ops := [OpCreate(user, long, 24, {}, 1), OpCreate(user, short, 1, {}, 2)];
      var end := Run(Initial(0), ops);
      end.Some? && LiveOf(end.value, user, 3602) == {long} && Ids(end.value, user, 3602) == {}
  {
    var a, b := OpCreate(user, long, 24, {}, 1), OpCreate(user, short, 1, {}, 2);
    var s0 := Initial(0);
    StepCreates(s0, a);
    var i1 := Insert(s0.(clock := 1), user, long, 24, 1);
    DeleteNothing(i1);
    assert Ids(i1, user, 1) == {long};
    StepCreates(i1, b);
    var i2 := Insert(i1.(clock := 2), user, short, 1, 2);
    DeleteNothing(i2);
    assert Ids(i2, user, 2) == {long, short};
    assert [a, b][1..] == [b] && [b][1..] == [];
    assert Run(i2, []) == Some(i2);
    assert Run(i1, [b]) == Some(i2);
  }

  // ----- how long a session lasts -----

  /** Deletes this session, or one that may be it. */
  predicate Spares(op: Op, user: string, sid: string) {
    match op
    case OpCreate(u, x, _, _, _) => u != user && x != sid
    case OpDelete(x, _) => x != sid
    case OpDeleteUser(u, _) => u != user
    case _ => true
  }

  /** If it is there, it ends then. */
  predicate EndsAt(s: Store, sid: string, user: string, end: int) {
    sid in s.sessions ==> s.sessions[sid].user == user && s.sessions[sid].keyExpiry == s.sessions[sid].expiresAt == end
  }

  lemma StepEndsAt(s: Store, op: Op, sid: string, user: string, end: int)
    requires EndsAt(s, sid, user, end) && Enabled(s, op) && (op.OpCreate? ==> op.sid != sid)
    ensures EndsAt(Step(s, op), sid, user, end)
  {
    if op.OpCreate? {
      StepCreates(s, op);
    }
  }

  lemma StepSpares(s: Store, op: Op, sid: string, user: string)
    requires WellFormed(s) && Enabled(s, op) && sid in s.sessions && s.sessions[sid].user == user && Spares(op, user, sid)
    ensures sid in Step(s, op).sessions
  {
    var s0 := s.(clock := op.now);
    match op {
      case OpCreate(u, x, hours, victims, now) =>
        StepCreates(s, op);
        if hours > 0 {
          CreationSpares(s0, u, x, hours, victims, now, sid);
        }
      case OpDeleteUser(u, now) =>
        StepDeletesUser(s, u, now);
        UserDeletionSpares(s0, u, now, sid);
      case _ => RewritesSpare(s, op, sid);
    }
  }

  lemma CreationSpares(s: Store, user: string, added: string, hours: int, victims: set<string>, now: int, sid: string)
    requires WellFormed(s) && s.clock == now && NewId(s, added) && Victims(Insert(s, user, added, hours, now), user, victims, now)
    requires sid in s.sessions && s.sessions[sid].user != user && sid != added
    ensures sid in DeleteAll(Insert(s, user, added, hours, now), victims).sessions
  {
    InsertWellFormed(s, user, added, hours, now);
    VictimsAreOwn(Insert(s, user, added, hours, now), user, victims, now);
  }

  lemma UserDeletionSpares(s: Store, user: string, now: int, sid: string)
    requires WellFormed(s) && sid in s.sessions && s.sessions[sid].user != user
    ensures sid in DeleteUser(s, user, now).sessions
  {
  }

  lemma RewritesSpare(s: Store, op: Op, sid: string)
    requires op.OpTouch? || op.OpInvalidate? || (op.OpDelete? && op.sid != sid)
    requires sid in s.sessions
    ensures sid in Step(s, op).sessions
  {
  }

  lemma VictimsAreOwn(s: Store, user: string, victims: set<string>, now: int)
    requires WellFormed(s) && Victims(s, user, victims, now)
    ensures forall v :: v in victims ==> v in s.sessions && s.sessions[v].user == user
  {
    forall v | v in victims ensures v in s.sessions && s.sessions[v].user == user {
      FoundIsLive(s, user, v, now);
    }
  }

  /** Whatever follows, a session created for `hours` hours is found until exactly then while it
      is stored; and it is stored as long as no operation deletes it or creates or deletes
      sessions of its user. */
  lemma {:induction false} LastsItsHours(s: Store, ops: seq<Op>, sid: string, user: string, end: int, later: int)
    requires WellFormed(s) && EndsAt(s, sid, user, end) && Run(s, ops).Some? && Run(s, ops).value.clock <= later
    requires forall i :: 0 <= i < |ops| && ops[i].OpCreate? ==> ops[i].sid != sid
    ensures sid in Run(s, ops).value.sessions ==> (GetSession(Run(s, ops).value, sid, later).Found? <==> later < end)
    ensures sid in s.sessions && (forall i :: 0 <= i < |ops| ==> Spares(ops[i], user, sid)) ==> sid in Run(s, ops).value.sessions
    decreases |ops|
  {
    if ops != [] {
      assert ops[0].OpCreate? ==> ops[0].sid != sid;
      StepWellFormed(s, ops[0]);
      StepEndsAt(s, ops[0], sid, user, end);
      if sid in s.sessions && Spares(ops[0], user, sid) {
        StepSpares(s, ops[0], sid, user);
      }
      assert forall i :: 0 <= i < |ops[1..]| ==> ops[1..][i] == ops[i + 1];
      LastsItsHours(Step(s, ops[0]), ops[1..], sid, user, end, later);
    }
  }

  /** In every run after a creation, with no other session of that id: 3600 seconds an hour. */
  lemma CreatedLasts(s: Store, op: Op, ops: seq<Op>, later: int)
    requires Inv(s) && Enabled(s, op) && op.OpCreate? && op.hours > 0
    requires Run(Step(s, op), ops).Some? && Run(Step(s, op), ops).value.clock <= later
    requires forall i :: 0 <= i < |ops| && ops[i].OpCreate? ==> ops[i].sid != op.sid
    ensures var end := Run(Step(s, op), ops).value;
      && (op.sid in end.sessions ==> (GetSession(end, op.sid, later).Found? <==> later < op.now + 3600 * op.hours))
      && ((forall i :: 0 <= i < |ops| ==> Spares(ops[i], op.user, op.sid)) ==> op.sid in end.sessions)
  {
    StepWellFormed(s, op);
    CreatedIs(s, op);
    LastsItsHours(Step(s, op), ops, op.sid, op.user, op.now + 3600 * op.hours, later);
  }

  // ----- five sessions at once -----

  /** Some run takes the one store to the other. */
  ghost predicate Leads(s: Store, end: Store) {
    exists ops :: Run(s, ops) == Some(end)
  }

  lemma LeadsByStep(s: Store, op: Op)
    requires Enabled(s, op)
    ensures Leads(s, Step(s, op))
  {
    assert [op][1..] == [];
    assert Run(Step(s, op), []) == Some(Step(s, op));
    assert Run(s, [op]) == Some(Step(s, op));
  }

  lemma {:induction false} RunConcat(s: Store, a: seq<Op>, b: seq<Op>, mid: Store)
    requires Run(s, a) == Some(mid)
    ensures Run(s, a + b) == Run(mid, b)
    decreases |a|
  {
    if a == [] {
      assert a + b == b;
    } else {
      assert (a + b)[1..] == a[1..] + b;
      RunConcat(Step(s, a[0]), a[1..], b, mid);
    }
  }

  lemma LeadsOn(s: Store, mid: Store, end: Store)
    requires Leads(s, mid) && Leads(mid, end)
    ensures Leads(s, end)
  {
    var a :| Run(s, a) == Some(mid);
    var b :| Run(mid, b) == Some(end);
    RunConcat(s, a, b, mid);
  }

  /** These sessions and no others are stored and indexed, all past `until`. */
  ghost predicate Holding(s: Store, user: string, ids: set<string>, until: int) {
    && s.sessions.Keys == ids && s.clock <= until
    && (forall x :: x in ids ==> s.sessions[x].user == user && s.sessions[x].keyExpiry > until && s.sessions[x].expiresAt > until)
    && (if ids == {} then s.index == map[] else s.index.Keys == {user} && s.index[user].ids == ids && s.index[user].expiry > until)
  }

  lemma HoldingOneMore(s: Store, user: string, ids: set<string>, sid: string, hours: int, until: int) returns (next: Store)
    requires Holding(s, user, ids, until) && sid !in ids && |ids| <= 4 && hours > 0
    requires s.clock < until <= s.clock + 3600
    ensures Leads(s, next) && next.clock == s.clock + 1 && Holding(next, user, ids + {sid}, until)
  {
    var op := OpCreate(user, sid, hours, {}, s.clock + 1);
    next := Insert(s.(clock := s.clock + 1), user, sid, hours, s.clock + 1);
    assert Ids(next, user, s.clock + 1) == ids + {sid};
    StepCreates(s, op);
    DeleteNothing(next);
    LeadsByStep(s, op);
  }

  lemma {:induction false} HoldingMore(s: Store, user: string, held: set<string>, ids: seq<string>, hours: int, until: int)
    returns (end: Store)
    requires Holding(s, user, held, until) && Distinct(ids) && Elems(ids) !! held && |held| + |ids| <= 5 && hours > 0
    requires s.clock + |ids| <= until <= s.clock + 3600
    ensures Leads(s, end) && Holding(end, user, held + Elems(ids), until)
    decreases |ids|
  {
    if ids == [] {
      assert held + Elems(ids) == held;
      assert Run(s, []) == Some(s);
      end := s;
    } else {
      FirstApart(held, ids);
      var next := HoldingOneMore(s, user, held, ids[0], hours, until);
      end := HoldingMore(next, user, held + {ids[0]}, ids[1..], hours, until);
      LeadsOn(s, next, end);
    }
  }

  lemma FirstApart(held: set<string>, ids: seq<string>)
    requires ids != [] && Distinct(ids) && Elems(ids) !! held
    ensures ids[0] !in held && Distinct(ids[1..]) && Elems(ids[1..]) !! held + {ids[0]}
    ensures held + {ids[0]} + Elems(ids[1..]) == held + Elems(ids) && |held + {ids[0]}| == |held| + 1
  {
    assert ids[0] in Elems(ids);
    assert Elems(ids) == {ids[0]} + Elems(ids[1..]);
  }

  /** Five sessions of one user can be live together. */
  lemma FiveLiveTogether(user: string, ids: seq<string>, hours: int) returns (end: Store)
    requires Distinct(ids) && |ids| == 5 && hours > 0
    ensures Leads(Initial(0), end) && end.clock <= 6 && LiveOf(end, user, 6) == Elems(ids) && |Elems(ids)| == 5
  {
    end := HoldingMore(Initial(0), user, {}, ids, hours, 6);
    assert {} + Elems(ids) == Elems(ids);
    DistinctCardinality(ids);
    assert LiveOf(end, user, 6) == Elems(ids);
  }
}
