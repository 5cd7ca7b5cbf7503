/** Touching a session as the three Redis commands it is, interleaved with whole other
    operations: which interleavings keep the session store's invariant. */
module SessionRace {
  import opened Common
  import opened Sessions

  /** A call that changes a session's payload. */
  datatype Touch =
    | Got(sid: string, payload: Session)                      // after its GET
    | Timed(sid: string, payload: Session, ttl: int, at: int) // after its TTL

  datatype State = State(store: Store, touches: map<nat, Touch>)

  datatype Action =
    | Whole(op: Op)
    | Get(p: nat, sid: string, invalidate: bool)
    | Ttl(p: nat)
    | Write(p: nat)   // SETEX with the time to live read before

  datatype RaceStep = At(now: int, action: Action)

  /** Session ids are never drawn twice, and creations come one at a time on the clock. */
  ghost predicate Possible(s: State, step: RaceStep) {
    && s.store.clock <= step.now
    && match step.action
       case Whole(op) =>
         && op.now == step.now
         && (op.OpCreate? ==>
               && Enabled(s.store, op)
               && forall p :: p in s.touches ==> s.touches[p].sid != op.sid)
       case Get(p, _, _) => p !in s.touches
       case Ttl(p) => p in s.touches && s.touches[p].Got?
       case Write(p) => p in s.touches && s.touches[p].Timed?
  }

  function Next(s: State, step: RaceStep): State
    requires step.action.Ttl? || step.action.Write? ==> step.action.p in s.touches
    requires step.action.Write? ==> s.touches[step.action.p].Timed?
  {
    var now := step.now;
    var store := s.store.(clock := now);
    match step.action
    case Whole(op) => s.(store := Step(s.store, op))
    case Get(p, sid, invalidate) =>
      (match GetSession(store, sid, now)
       case Found(info) =>
         State(store, s.touches[p := Got(sid, if invalidate then info.(active := false) else info.(lastAccessed := now))])
       case _ => s.(store := store))
    case Ttl(p) =>
      var t := s.touches[p];
      var ttl := if Live(store, t.sid, now) then store.sessions[t.sid].keyExpiry - now else -2;
      State(store, if ttl > 0 then s.touches[p := Timed(t.sid, t.payload, ttl, now)] else s.touches - {p})
    case Write(p) =>
      var t := s.touches[p];
      State(store.(sessions := store.sessions[t.sid := t.payload.(keyExpiry := now + t.ttl)]), s.touches - {p})
  }

  /** What a write must find: it renews the key by no more than the payload lasts, give or
      take a second; the session is in its user's id set, which lasts as long; and there is
      room for it if it had died in between. */
  predicate Guarded(s: Store, t: Touch, now: int)
    requires t.Timed?
  {
    && now + t.ttl <= t.payload.expiresAt + 1
    && t.payload.user in s.index && t.sid in s.index[t.payload.user].ids
    && now + t.ttl <= s.index[t.payload.user].expiry
    && (Live(s, t.sid, now) || |LiveOf(s, t.payload.user, now)| < MAX_SESSIONS)
  }

  /** The condition on a step: a write is guarded, and a new session outlasts the others of
      its user's that are kept. */
  predicate Safe(s: State, step: RaceStep)
    requires step.action.Write? ==> step.action.p in s.touches && s.touches[step.action.p].Timed?
  {
    match step.action
    case Write(p) => Guarded(s.store, s.touches[p], step.now)
    case Whole(op) => op.OpCreate? && op.hours > 0 ==> OutlastsKept(s.store, op)
    case _ => true
  }

  // ----- the invariant -----

  /** What a pending call knows is true of its session and of the id sets, and the time to
      live it read covers the payload. */
  predicate TouchOk(s: Store, t: Touch) {
    && t.payload.lastAccessed <= s.clock
    && (t.sid in s.sessions ==>
          s.sessions[t.sid].user == t.payload.user && s.sessions[t.sid].expiresAt == t.payload.expiresAt)
    && (forall u :: u in s.index && t.sid in s.index[u].ids ==> u == t.payload.user)
    && (t.Timed? ==> t.at <= s.clock && t.ttl > 0 && t.at + t.ttl >= t.payload.expiresAt)
  }

  /** Pending calls for one session agree on whose it is and when it ends. */
  predicate TouchesAgree(touches: map<nat, Touch>) {
    forall p, q :: p in touches && q in touches && touches[p].sid == touches[q].sid ==>
      touches[p].payload.user == touches[q].payload.user && touches[p].payload.expiresAt == touches[q].payload.expiresAt
  }

  ghost predicate RaceInv(s: State) {
    Inv(s.store) && TouchesAgree(s.touches) && forall p :: p in s.touches ==> TouchOk(s.store, s.touches[p])
  }

  /** Whole operations keep what pending calls know. */
  lemma DeleteAllTouchOk(s: Store, victims: set<string>, t: Touch)
    requires TouchOk(s, t)
    ensures TouchOk(DeleteAll(s, victims), t)
  {
  }

  lemma InsertTouchOk(s: Store, user: string, sid: string, hours: int, now: int, t: Touch)
    requires TouchOk(s, t) && t.sid != sid
    ensures TouchOk(Insert(s, user, sid, hours, now), t)
  {
  }

  lemma DeleteTouchOk(s: Store, sid: string, now: int, t: Touch)
    requires TouchOk(s, t)
    ensures TouchOk(DeleteSession(s, sid, now), t)
  {
  }

  lemma ApplyTouchOk(s: Store, op: Op, t: Touch)
    requires s.clock == op.now && TouchOk(s, t) && (op.OpCreate? && op.hours > 0 ==> op.sid != t.sid)
    ensures TouchOk(Apply(s, op), t)
  {
    match op {
      case OpCreate(user, sid, hours, victims, now) =>
        if hours > 0 {
          InsertTouchOk(s, user, sid, hours, now, t);
          DeleteAllTouchOk(Insert(s, user, sid, hours, now), victims, t);
        }
      case OpTouch(_, _) =>
      case OpInvalidate(_, _) =>
      case OpDelete(sid, now) => DeleteTouchOk(s, sid, now, t);
      case OpDeleteUser(user, now) =>
        DeleteAllTouchOk(s, (set sid | sid in Ids(s, user, now) && Live(s, sid, now)), t);
    }
  }

  lemma WaitKeeps(s: State, now: int)
    requires RaceInv(s) && s.store.clock <= now
    ensures RaceInv(s.(store := s.store.(clock := now)))
  {
    TimePasses(s.store, now);
  }

  lemma WholeTouchesOk(s: State, op: Op)
    requires RaceInv(s) && s.store.clock <= op.now
    requires op.OpCreate? ==> forall p :: p in s.touches ==> s.touches[p].sid != op.sid
    ensures forall p :: p in s.touches ==> TouchOk(Step(s.store, op), s.touches[p])
  {
    WaitKeeps(s, op.now);
    var s0 := s.store.(clock := op.now);
    forall p | p in s.touches ensures TouchOk(Step(s.store, op), s.touches[p]) {
      assert TouchOk(s0, s.touches[p]);
      ApplyTouchOk(s0, op, s.touches[p]);
    }
  }

  /** A whole operation keeps the store's promises exactly when it is safe. */
  lemma WholeKeepsExactly(s: State, step: RaceStep)
    requires RaceInv(s) && Possible(s, step) && step.action.Whole?
    ensures Good(Next(s, step).store) <==> Safe(s, step)
    ensures Safe(s, step) ==> RaceInv(Next(s, step))
  {
    var op := step.action.op;
    WholeTouchesOk(s, op);
    if op.OpCreate? && op.hours > 0 {
      CreateKeepsExactly(s.store, op);
    } else {
      TimePasses(s.store, op.now);
      if op.OpCreate? {
        StepCreates(s.store, op);
      } else {
        OtherStepsKeep(s.store.(clock := op.now), op);
      }
      InvIsGood(Step(s.store, op));
    }
  }

  lemma GetKeeps(s: State, step: RaceStep)
    requires RaceInv(s) && Possible(s, step) && step.action.Get?
    ensures RaceInv(Next(s, step))
  {
    WaitKeeps(s, step.now);
    var store := s.store.(clock := step.now);
    if GetSession(store, step.action.sid, step.now).Found? {
      GotOk(store, step.action.sid, step.now);
      forall p | p in s.touches ensures TouchOk(store, s.touches[p]) {
      }
    }
  }

  lemma GotOk(s: Store, sid: string, now: int)
    requires WellFormed(s) && s.clock == now && GetSession(s, sid, now).Found?
    ensures TouchOk(s, Got(sid, s.sessions[sid].(active := false)))
    ensures TouchOk(s, Got(sid, s.sessions[sid].(lastAccessed := now)))
  {
  }

  lemma TtlKeeps(s: State, step: RaceStep)
    requires RaceInv(s) && Possible(s, step) && step.action.Ttl?
    ensures RaceInv(Next(s, step))
  {
    WaitKeeps(s, step.now);
    TimedOk(s.store.(clock := step.now), s.touches[step.action.p], step.now);
  }

  lemma TimedOk(s: Store, t: Touch, now: int)
    requires WellFormed(s) && s.clock == now && TouchOk(s, t)
    ensures Live(s, t.sid, now) ==> TouchOk(s, Timed(t.sid, t.payload, s.sessions[t.sid].keyExpiry - now, now))
  {
  }

  // ----- exactly which writes keep the store's promises -----

  /** The store after a write. */
  function Written(s: Store, t: Touch, now: int): Store
    requires t.Timed?
  {
    s.(clock := now, sessions := s.sessions[t.sid := t.payload.(keyExpiry := now + t.ttl)])
  }

  lemma WrittenLive(s: Store, t: Touch, now: int, u: string)
    requires TouchOk(s, t) && t.Timed?
    ensures LiveOf(Written(s, t, now), u, now) ==
      if u == t.payload.user then LiveOf(s, u, now) + {t.sid} else LiveOf(s, u, now)
  {
    forall x ensures x in LiveOf(Written(s, t, now), u, now) <==>
      x in LiveOf(s, u, now) || (u == t.payload.user && x == t.sid)
    {
    }
  }

  lemma GuardedWrite(s: Store, t: Touch, now: int)
    requires Inv(s) && TouchOk(s, t) && t.Timed? && s.clock <= now && Guarded(s, t, now)
    ensures Inv(Written(s, t, now))
  {
    var s' := Written(s, t, now);
    TimePasses(s, now);
    forall sid | Live(s', sid, now) ensures IndexedAt(s', sid) {
      if sid != t.sid {
        assert Live(s.(clock := now), sid, now);
      }
    }
    forall u ensures |LiveOf(s', u, now)| <= MAX_SESSIONS {
      WrittenLive(s, t, now, u);
      assert |LiveOf(s.(clock := now), u, now)| <= MAX_SESSIONS;
      if Live(s, t.sid, now) {
        assert u == t.payload.user ==> LiveOf(s, u, now) + {t.sid} == LiveOf(s, u, now);
      }
    }
  }

  lemma UnguardedWrite(s: Store, t: Touch, now: int)
    requires Inv(s) && TouchOk(s, t) && t.Timed? && s.clock <= now && !Guarded(s, t, now)
    ensures !Good(Written(s, t, now))
  {
    var s', user := Written(s, t, now), t.payload.user;
    assert Live(s', t.sid, now);
    if now + t.ttl > t.payload.expiresAt + 1 {
      assert GetSession(s', t.sid, Max(now, t.payload.expiresAt + 1)).Recurses?;
    } else if IndexedAt(s', t.sid) {
      WrittenLive(s, t, now, user);
      assert t.sid !in LiveOf(s, user, now) && |LiveOf(s, user, now)| >= MAX_SESSIONS;
      assert |LiveOf(s', user, now)| > MAX_SESSIONS;
    }
  }

  /** A write keeps live sessions findable, users within the cap and lookups finite if and
      only if it is guarded. */
  lemma WriteKeepsExactly(s: State, step: RaceStep)
    requires RaceInv(s) && Possible(s, step) && step.action.Write?
    ensures Good(Next(s, step).store) <==> Guarded(s.store, s.touches[step.action.p], step.now)
    ensures Guarded(s.store, s.touches[step.action.p], step.now) ==> RaceInv(Next(s, step))
  {
    var t := s.touches[step.action.p];
    assert Next(s, step).store == Written(s.store, t, step.now);
    if Guarded(s.store, t, step.now) {
      GuardedWrite(s.store, t, step.now);
      InvIsGood(Written(s.store, t, step.now));
      WrittenTouchesOk(s, step);
    } else {
      UnguardedWrite(s.store, t, step.now);
    }
  }

  lemma WrittenTouchesOk(s: State, step: RaceStep)
    requires RaceInv(s) && Possible(s, step) && step.action.Write?
    ensures TouchesAgree(Next(s, step).touches)
    ensures forall p :: p in Next(s, step).touches ==> TouchOk(Next(s, step).store, Next(s, step).touches[p])
  {
    WaitKeeps(s, step.now);
  }

  // ----- runs -----

  ghost predicate Runs(s: State, steps: seq<RaceStep>)
    decreases |steps|
  {
    steps == [] || (Possible(s, steps[0]) && Runs(Next(s, steps[0]), steps[1..]))
  }

  ghost predicate AllSafe(s: State, steps: seq<RaceStep>)
    requires Runs(s, steps)
    decreases |steps|
  {
    steps == [] || (Safe(s, steps[0]) && AllSafe(Next(s, steps[0]), steps[1..]))
  }

  /** The store keeps its promises after every step. */
  ghost predicate AlwaysGood(s: State, steps: seq<RaceStep>)
    requires Runs(s, steps)
    decreases |steps|
  {
    steps == [] || (Good(Next(s, steps[0]).store) && AlwaysGood(Next(s, steps[0]), steps[1..]))
  }

  lemma StepKeepsExactly(s: State, step: RaceStep)
    requires RaceInv(s) && Possible(s, step)
    ensures Good(Next(s, step).store) <==> Safe(s, step)
    ensures Safe(s, step) ==> RaceInv(Next(s, step))
  {
    match step.action {
      case Whole(_) => WholeKeepsExactly(s, step);
      case Get(_, _, _) =>
        GetKeeps(s, step);
        InvIsGood(Next(s, step).store);
      case Ttl(_) =>
        TtlKeeps(s, step);
        InvIsGood(Next(s, step).store);
      case Write(_) => WriteKeepsExactly(s, step);
    }
  }

  lemma {:induction false} GoodIffSafe(s: State, steps: seq<RaceStep>)
    requires RaceInv(s) && Runs(s, steps)
    ensures AlwaysGood(s, steps) <==> AllSafe(s, steps)
    decreases |steps|
  {
    if steps != [] {
      StepKeepsExactly(s, steps[0]);
      if Safe(s, steps[0]) {
        GoodIffSafe(Next(s, steps[0]), steps[1..]);
      }
    }
  }

  /** However touches interleave with each other and with whole operations: all along the
      run live sessions stay findable by user, users are within the cap and lookups return,
      if and only if every touch's write is guarded and every new session outlasts those of
      its user's that are kept. */
  lemma GoodExactlyWhenSafe(clock: int, steps: seq<RaceStep>)
    requires Runs(State(Initial(clock), map[]), steps)
    ensures AlwaysGood(State(Initial(clock), map[]), steps) <==> AllSafe(State(Initial(clock), map[]), steps)
  {
    GoodIffSafe(State(Initial(clock), map[]), steps);
  }

  // ----- two ways to miss the guard -----

  /** A session deleted since its `TTL`, and so out of its id set, comes back to life there. */
  lemma DeletedComesBack(s: State, step: RaceStep)
    requires RaceInv(s) && Possible(s, step) && step.action.Write?
    requires var t := s.touches[step.action.p];
      t.at == step.now && t.payload.user in s.store.index && t.sid !in s.store.index[t.payload.user].ids
    ensures var t, s' := s.touches[step.action.p], Next(s, step).store;
      Live(s', t.sid, step.now) && t.sid !in Ids(s', t.payload.user, step.now) && !Guarded(s.store, t, step.now)
  {
  }

  /** A write two seconds or more after its `TTL` outlives its payload: from the payload's
      end on, a lookup falls into the endless recursion with deletion. */
  lemma LateWriteRecurses(s: State, step: RaceStep)
    requires RaceInv(s) && Possible(s, step) && step.action.Write?
    requires s.touches[step.action.p].at + 2 <= step.now
    ensures var t := s.touches[step.action.p];
      GetSession(Next(s, step).store, t.sid, Max(step.now, t.payload.expiresAt + 1)).Recurses?
  {
  }

  // ----- a touch with nothing between its commands is the whole operation -----

  /** The rest of the call's commands, at once. */
  function Finish(s: State, p: nat, now: int): State
    decreases if p !in s.touches then 0 else if s.touches[p].Got? then 2 else 1
  {
    if p !in s.touches then s
    else if s.touches[p].Got? then Finish(Next(s, At(now, Ttl(p))), p, now)
    else Next(s, At(now, Write(p)))
  }

  lemma TouchAlone(s: State, p: nat, sid: string, invalidate: bool, now: int)
    requires s.store.clock <= now && p !in s.touches
    ensures Finish(Next(s, At(now, Get(p, sid, invalidate))), p, now)
         == State(Step(s.store, if invalidate then OpInvalidate(sid, now) else OpTouch(sid, now)), s.touches)
  {
    var s1 := Next(s, At(now, Get(p, sid, invalidate)));
    if p in s1.touches {
      var s2 := Next(s1, At(now, Ttl(p)));
      assert s1.touches - {p} == s.touches;
      assert p in s2.touches && s2.touches - {p} == s.touches;
    }
  }
}
