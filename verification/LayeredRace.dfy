/** The two-layer cache under interleaving: every access to a layer is its own
    step, at most `delta` passes between reading Redis and promoting the value,
    and the bound on how old a returned value can be. */
module LayeredRace {
  import opened Common
  import opened L1Spec
  import opened Layered

  /** A `set` call: when it began, which is when it wrote memory if it did, and when it
      wrote Redis. */
  datatype Write = Write(fk: string, value: Value, ttl: Option<real>, begun: real, inMemory: bool, l2At: Option<real>)

  datatype Config = Config(l1Ttl: real, l2Ttl: real, delta: real)

  datatype Pending =
    | SetWaits(index: nat)                                        // has not written L2 yet
    | GetMissed(fk: string, tenant: Option<string>)               // missed L1, has not read L2
    | GetRead(fk: string, tenant: Option<string>, value: Value, readAt: real)  // read L2, has not promoted

  datatype Answer = Answer(fk: string, value: Value, at: real)

  datatype State = State(
    l1: L1, l2: Redis, clock: real, log: seq<Write>, pending: map<nat, Pending>, answers: seq<Answer>)

  datatype Action =
    | SetBegins(key: string, tenant: Option<string>, value: Value, ttl: Option<real>, on: Levels, p: nat)  // writes L1 if asked to
    | SetL2(p: nat)
    | GetL1(key: string, tenant: Option<string>, p: nat)
    | GetL2(p: nat)
    | Promote(p: nat)
    | DropL1(keys: set<string>)   // delete, clear or eviction in the in-memory layer
    | DeleteL2(fk: string)

  datatype Step = At(now: real, action: Action)

  predicate Enabled(c: Config, s: State, step: Step) {
    && s.clock <= step.now
    && match step.action
       case SetBegins(_, _, _, _, _, p) => p !in s.pending
       case SetL2(p) => p in s.pending && s.pending[p].SetWaits? && s.pending[p].index < |s.log|
       case GetL1(_, _, p) => p !in s.pending
       case GetL2(p) => p in s.pending && s.pending[p].GetMissed?
       case Promote(p) => p in s.pending && s.pending[p].GetRead? && step.now <= s.pending[p].readAt + c.delta
       case DropL1(_) => true
       case DeleteL2(_) => true
  }

  function Next(c: Config, s: State, step: Step): State
    requires Enabled(c, s, step)
  {
    var now := step.now;
    var s := s.(clock := now);
    match step.action
    case SetBegins(key, tenant, v, ttl, on, p) =>
      var fk := MakeKey(key, tenant);
      s.(l1 := if on.l1 then Set(s.l1, fk, v, ttl, tenant, now) else s.l1,
         log := s.log + [Write(fk, v, ttl, now, on.l1, None)],
         pending := if on.l2 then s.pending[p := SetWaits(|s.log|)] else s.pending)
    case SetL2(p) =>
      var i := s.pending[p].index;
      var w := s.log[i];
      s.(l2 := L2Set(s.l2, w.fk, w.value, w.ttl, c.l2Ttl, now),
         log := s.log[i := w.(l2At := Some(now))],
         pending := s.pending - {p})
    case GetL1(key, tenant, p) =>
      var fk := MakeKey(key, tenant);
      var (l1, v) := Get(s.l1, fk, now);
      if v != Null then s.(l1 := l1, answers := s.answers + [Answer(fk, v, now)])
      else s.(l1 := l1, pending := s.pending[p := GetMissed(fk, tenant)])
    case GetL2(p) =>
      var fk, tenant := s.pending[p].fk, s.pending[p].tenant;
      var (l2, v) := L2Get(s.l2, fk, now);
      if v == Null then s.(l2 := l2, pending := s.pending - {p})
      else s.(l2 := l2, pending := s.pending[p := GetRead(fk, tenant, v, now)])
    case Promote(p) =>
      var r := s.pending[p];
      s.(l1 := Set(s.l1, r.fk, r.value, None, r.tenant, now),
         pending := s.pending - {p},
         answers := s.answers + [Answer(r.fk, r.value, now)])
    case DropL1(keys) => s.(l1 := Discard(s.l1, keys))
    case DeleteL2(fk) => s.(l2 := L2Delete(s.l2, fk, now).0)
  }

  function Initial(size: int, c: Config, clock: real): State {
    State(Empty(size, c.l1Ttl), map[], clock, [], map[], [])
  }

  /** The state after `steps`, when each is enabled in turn. */
  function Run(c: Config, s: State, steps: seq<Step>): Option<State>
    decreases |steps|
  {
    if steps == [] then Some(s)
    else if Enabled(c, s, steps[0]) then Run(c, Next(c, s, steps[0]), steps[1..])
    else None
  }

  // ----- how long a write may be seen -----

  function L1Until(c: Config, w: Write): real {
    w.begun + EffectiveTtl(w.ttl, c.l1Ttl)
  }

  function L2Until(c: Config, w: Write): real
    requires w.l2At.Some?
  {
    w.l2At.value + Seconds(w.ttl, c.l2Ttl) as real
  }

  /** At this instant a `get` may still return the write's value. */
  predicate Covers(c: Config, w: Write, until: real) {
    || (w.inMemory && until <= L1Until(c, w))
    || (w.l2At.Some? && until <= L2Until(c, w) + c.delta + c.l1Ttl)
  }

  ghost predicate Backed(c: Config, log: seq<Write>, fk: string, v: Value, until: real) {
    exists i :: 0 <= i < |log| && log[i].fk == fk && log[i].value == v && Covers(c, log[i], until)
  }

  ghost predicate BackedByL2(c: Config, log: seq<Write>, fk: string, v: Value, until: real) {
    exists i :: 0 <= i < |log| && log[i].fk == fk && log[i].value == v && log[i].l2At.Some? && until <= L2Until(c, log[i])
  }

  ghost predicate L1Backed(c: Config, log: seq<Write>, l1: L1) {
    forall k :: k in l1.cache ==>
      && l1.cache[k].ttl.Some?
      && Backed(c, log, k, l1.cache[k].value, l1.cache[k].createdAt + l1.cache[k].ttl.value)
  }

  ghost predicate L2Backed(c: Config, log: seq<Write>, l2: Redis) {
    forall fk :: RedisKey(fk) in l2 && l2[RedisKey(fk)].Str? ==>
      BackedByL2(c, log, fk, l2[RedisKey(fk)].value, l2[RedisKey(fk)].expiry)
  }

  ghost predicate PendingBacked(c: Config, log: seq<Write>, pending: map<nat, Pending>) {
    forall p :: p in pending ==>
      match pending[p]
      case SetWaits(i) => i < |log| && log[i].l2At.None?
      case GetMissed(_, _) => true
      case GetRead(fk, _, v, readAt) => BackedByL2(c, log, fk, v, readAt)
  }

  /** No two pending calls finish the same write. */
  ghost predicate OwnWrites(pending: map<nat, Pending>) {
    forall p, q :: p in pending && q in pending && pending[p].SetWaits? && pending[p] == pending[q] ==> p == q
  }

  ghost predicate Inv(c: Config, s: State) {
    && s.l1.defaultTtl == c.l1Ttl
    && L1Backed(c, s.log, s.l1)
    && L2Backed(c, s.log, s.l2)
    && PendingBacked(c, s.log, s.pending)
    && OwnWrites(s.pending)
    && AnswersBacked(c, s.log, s.answers)
    && InTimeOrder(s.log, s.clock)
  }

  ghost predicate AnswersBacked(c: Config, log: seq<Write>, answers: seq<Answer>) {
    forall i :: 0 <= i < |answers| ==> BackedBefore(c, log, answers[i])
  }

  /** A write made before the answer accounts for it. */
  ghost predicate BackedBefore(c: Config, log: seq<Write>, a: Answer) {
    exists i :: 0 <= i < |log| && log[i].fk == a.fk && log[i].value == a.value && Accounts(c, log[i], a.at)
  }

  /** The write had been made and reaches to this instant, by the layer it was in by then. */
  predicate Accounts(c: Config, w: Write, at: real) {
    && w.begun <= at
    && (|| (w.inMemory && at <= L1Until(c, w))
        || (w.l2At.Some? && w.l2At.value <= at <= L2Until(c, w) + c.delta + c.l1Ttl))
  }

  /** A write reaches Redis after it began. */
  ghost predicate InTimeOrder(log: seq<Write>, clock: real) {
    forall i :: 0 <= i < |log| ==>
      log[i].begun <= clock && (log[i].l2At.Some? ==> log[i].begun <= log[i].l2At.value <= clock)
  }

  /** The log only gains writes and L2 write times. */
  ghost predicate Grows(log: seq<Write>, log': seq<Write>) {
    && |log| <= |log'|
    && (forall i :: 0 <= i < |log| ==> log'[i] == log[i] || (log[i].l2At.None? && log'[i] == log[i].(l2At := log'[i].l2At)))
  }

  lemma BackedGrows(c: Config, log: seq<Write>, log': seq<Write>)
    requires Grows(log, log')
    ensures forall fk, v, until :: Backed(c, log, fk, v, until) ==> Backed(c, log', fk, v, until)
    ensures forall fk, v, until :: BackedByL2(c, log, fk, v, until) ==> BackedByL2(c, log', fk, v, until)
    ensures forall a :: BackedBefore(c, log, a) ==> BackedBefore(c, log', a)
  {
    forall a | BackedBefore(c, log, a) ensures BackedBefore(c, log', a) {
      var i :| 0 <= i < |log| && log[i].fk == a.fk && log[i].value == a.value && Accounts(c, log[i], a.at);
      assert log'[i].fk == a.fk && log'[i].value == a.value && Accounts(c, log'[i], a.at);
    }
    forall fk, v, until | Backed(c, log, fk, v, until) ensures Backed(c, log', fk, v, until) {
      var i :| 0 <= i < |log| && log[i].fk == fk && log[i].value == v && Covers(c, log[i], until);
      assert log'[i].fk == fk && log'[i].value == v && Covers(c, log'[i], until);
    }
    forall fk, v, until | BackedByL2(c, log, fk, v, until) ensures BackedByL2(c, log', fk, v, until) {
      var i :| 0 <= i < |log| && log[i].fk == fk && log[i].value == v && log[i].l2At.Some? && until <= L2Until(c, log[i]);
      assert log'[i] == log[i];
    }
  }

  lemma AllGrow(c: Config, s: State, log': seq<Write>)
    requires Inv(c, s) && Grows(s.log, log')
    ensures L1Backed(c, log', s.l1) && L2Backed(c, log', s.l2) && AnswersBacked(c, log', s.answers)
  {
    BackedGrows(c, s.log, log');
  }

  lemma BackedSooner(c: Config, log: seq<Write>, fk: string, v: Value, until: real, sooner: real)
    requires Backed(c, log, fk, v, until) && sooner <= until
    ensures Backed(c, log, fk, v, sooner)
  {
    var i :| 0 <= i < |log| && log[i].fk == fk && log[i].value == v && Covers(c, log[i], until);
    assert log[i].fk == fk;
  }

  /** What is backed until now is backed by a write of the past. */
  lemma BackedNow(c: Config, log: seq<Write>, clock: real, a: Answer)
    requires Backed(c, log, a.fk, a.value, a.at) && InTimeOrder(log, clock) && clock <= a.at
    ensures BackedBefore(c, log, a)
  {
    var i :| 0 <= i < |log| && log[i].fk == a.fk && log[i].value == a.value && Covers(c, log[i], a.at);
    assert Accounts(c, log[i], a.at);
  }

  lemma L1SetBacked(c: Config, log: seq<Write>, s: L1, k: string, v: Value, ttl: Option<real>, tenant: Option<string>, now: real)
    requires L1Backed(c, log, s) && Backed(c, log, k, v, now + EffectiveTtl(ttl, s.defaultTtl))
    ensures L1Backed(c, log, Set(s, k, v, ttl, tenant, now))
    ensures Set(s, k, v, ttl, tenant, now).defaultTtl == s.defaultTtl
  {
    var s' := Set(s, k, v, ttl, tenant, now);
    forall x | x in s'.cache
      ensures s'.cache[x].ttl.Some? && Backed(c, log, x, s'.cache[x].value, s'.cache[x].createdAt + s'.cache[x].ttl.value)
    {
      SetEntries(s, k, v, ttl, tenant, now, x);
    }
  }

  lemma L1GetBacked(c: Config, log: seq<Write>, s: L1, k: string, now: real)
    requires L1Backed(c, log, s)
    ensures L1Backed(c, log, Get(s, k, now).0) && Get(s, k, now).0.defaultTtl == s.defaultTtl
    ensures Get(s, k, now).1 != Null ==> Backed(c, log, k, Get(s, k, now).1, now)
  {
    var (s', v) := Get(s, k, now);
    if v != Null {
      var e := s.cache[k];
      BackedSooner(c, log, k, v, e.createdAt + e.ttl.value, now);
    }
  }

  lemma SetBeginKeeps(c: Config, s: State, step: Step)
    requires Inv(c, s) && Enabled(c, s, step) && step.action.SetBegins?
    ensures Inv(c, Next(c, s, step))
  {
    var a := step.action;
    var fk := MakeKey(a.key, a.tenant);
    var log' := s.log + [Write(fk, a.value, a.ttl, step.now, a.on.l1, None)];
    AllGrow(c, s, log');
    BackedGrows(c, s.log, log');
    assert log'[|s.log|].fk == fk;
    if a.on.l1 {
      assert Covers(c, log'[|s.log|], step.now + EffectiveTtl(a.ttl, c.l1Ttl));
      L1SetBacked(c, log', s.l1, fk, a.value, a.ttl, a.tenant, step.now);
    }
  }

  lemma SetL2Keeps(c: Config, s: State, step: Step)
    requires Inv(c, s) && Enabled(c, s, step) && step.action.SetL2?
    ensures Inv(c, Next(c, s, step))
  {
    var s' := Next(c, s, step);
    var i := s.pending[step.action.p].index;
    var w := s.log[i];
    AllGrow(c, s, s'.log);
    BackedGrows(c, s.log, s'.log);
    if Seconds(w.ttl, c.l2Ttl) >= 1 {
      L2SetStrings(s.l2, w.fk, w.value, w.ttl, c.l2Ttl, step.now);
      assert s'.log[i].fk == w.fk;
      assert BackedByL2(c, s'.log, w.fk, w.value, step.now + Seconds(w.ttl, c.l2Ttl) as real);
    }
  }

  lemma GetL1Keeps(c: Config, s: State, step: Step)
    requires Inv(c, s) && Enabled(c, s, step) && step.action.GetL1?
    ensures Inv(c, Next(c, s, step))
  {
    var fk := MakeKey(step.action.key, step.action.tenant);
    L1GetBacked(c, s.log, s.l1, fk, step.now);
    var v := Get(s.l1, fk, step.now).1;
    if v != Null {
      BackedNow(c, s.log, s.clock, Answer(fk, v, step.now));
    }
  }

  lemma GetL2Keeps(c: Config, s: State, step: Step)
    requires Inv(c, s) && Enabled(c, s, step) && step.action.GetL2?
    ensures Inv(c, Next(c, s, step))
  {
    var fk := s.pending[step.action.p].fk;
    L2GetStrings(s.l2, fk, step.now);
    var (l2, v) := L2Get(s.l2, fk, step.now);
    if v != Null {
      var i :| 0 <= i < |s.log| && s.log[i].fk == fk && s.log[i].value == v && s.log[i].l2At.Some? &&
        s.l2[RedisKey(fk)].expiry <= L2Until(c, s.log[i]);
      assert BackedByL2(c, s.log, fk, v, step.now);
    }
  }

  lemma PromoteKeeps(c: Config, s: State, step: Step)
    requires Inv(c, s) && Enabled(c, s, step) && step.action.Promote?
    requires c.l1Ttl >= 0.0
    ensures Inv(c, Next(c, s, step))
  {
    var r := s.pending[step.action.p];
    PromotionBacked(c, s.log, r, step.now);
    L1SetBacked(c, s.log, s.l1, r.fk, r.value, None, r.tenant, step.now);
    BackedSooner(c, s.log, r.fk, r.value, step.now + c.l1Ttl, step.now);
    BackedNow(c, s.log, s.clock, Answer(r.fk, r.value, step.now));
  }

  lemma PromotionBacked(c: Config, log: seq<Write>, r: Pending, now: real)
    requires r.GetRead? && BackedByL2(c, log, r.fk, r.value, r.readAt) && now <= r.readAt + c.delta
    ensures Backed(c, log, r.fk, r.value, now + c.l1Ttl)
  {
    var i :| 0 <= i < |log| && log[i].fk == r.fk && log[i].value == r.value && log[i].l2At.Some? &&
      r.readAt <= L2Until(c, log[i]);
    assert Covers(c, log[i], now + c.l1Ttl);
  }

  lemma StepKeeps(c: Config, s: State, step: Step)
    requires Inv(c, s) && Enabled(c, s, step) && c.l1Ttl >= 0.0
    ensures Inv(c, Next(c, s, step))
  {
    match step.action {
      case SetBegins(_, _, _, _, _, _) => SetBeginKeeps(c, s, step);
      case SetL2(_) => SetL2Keeps(c, s, step);
      case GetL1(_, _, _) => GetL1Keeps(c, s, step);
      case GetL2(_) => GetL2Keeps(c, s, step);
      case Promote(_) => PromoteKeeps(c, s, step);
      case DropL1(_) =>
      case DeleteL2(_) =>
    }
  }

  lemma {:induction false} RunKeeps(c: Config, s: State, steps: seq<Step>)
    requires c.l1Ttl >= 0.0 && Inv(c, s)
    requires Run(c, s, steps).Some?
    ensures Inv(c, Run(c, s, steps).value)
    decreases |steps|
  {
    if steps != [] {
      StepKeeps(c, s, steps[0]);
      RunKeeps(c, Next(c, s, steps[0]), steps[1..]);
    }
  }

  /** The promise for one answer: its write had begun, and either wrote memory no longer ago
      than its in-memory lifetime, or Redis no longer ago than its Redis lifetime plus
      `delta` plus the default in-memory lifetime. */
  ghost predicate BoundedAnswer(c: Config, w: Write, a: Answer) {
    && w.fk == a.fk && w.value == a.value && w.begun <= a.at
    && (|| (w.inMemory && a.at - w.begun <= EffectiveTtl(w.ttl, c.l1Ttl))
        || (w.l2At.Some? && 0.0 <= a.at - w.l2At.value <= Seconds(w.ttl, c.l2Ttl) as real + c.delta + c.l1Ttl))
  }

  ghost predicate AllBounded(c: Config, s: State) {
    forall n :: 0 <= n < |s.answers| ==> Explained(c, s.log, s.answers[n])
  }

  ghost predicate Explained(c: Config, log: seq<Write>, a: Answer) {
    exists i :: 0 <= i < |log| && BoundedAnswer(c, log[i], a)
  }

  lemma BackedIsBounded(c: Config, s: State)
    requires AnswersBacked(c, s.log, s.answers) && InTimeOrder(s.log, s.clock)
    ensures AllBounded(c, s)
  {
    forall n | 0 <= n < |s.answers|
      ensures Explained(c, s.log, s.answers[n])
    {
      var a := s.answers[n];
      assert BackedBefore(c, s.log, a);
      var i :| 0 <= i < |s.log| && s.log[i].fk == a.fk && s.log[i].value == a.value && Accounts(c, s.log[i], a.at);
      assert BoundedAnswer(c, s.log[i], a);
    }
  }

  /** Whatever the interleaving, an answer is the value of an earlier write of that very
      key, at most its in-memory lifetime after it wrote memory, or at most its Redis
      lifetime plus `delta` plus the default in-memory lifetime after it wrote Redis. */
  lemma AnswersAreBounded(c: Config, size: int, clock: real, steps: seq<Step>)
    requires c.l1Ttl >= 0.0
    requires Run(c, Initial(size, c, clock), steps).Some?
    ensures AllBounded(c, Run(c, Initial(size, c, clock), steps).value)
  {
    RunKeeps(c, Initial(size, c, clock), steps);
    BackedIsBounded(c, Run(c, Initial(size, c, clock), steps).value);
  }

  // ----- when a deleted key can be answered again -----

  /** Neither layer has a value to answer for the key. */
  ghost predicate Absent(s: State, fk: string) {
    && (fk in s.l1.cache ==> s.l1.cache[fk].value == Null)
    && (RedisKey(fk) in s.l2 && s.l2[RedisKey(fk)].Str? ==> s.l2[RedisKey(fk)].value == Null)
  }

  /** The pending call can still bring a value of the key into a layer: it read one from
      Redis no longer than `delta` ago, or it has yet to make a write Redis accepts. */
  predicate Holds(c: Config, s: State, fk: string, p: nat) {
    p in s.pending &&
    match s.pending[p]
    case GetRead(k, _, _, readAt) => k == fk && s.clock <= readAt + c.delta
    case SetWaits(i) => i < |s.log| && s.log[i].fk == fk && s.log[i].value != Null && Seconds(s.log[i].ttl, c.l2Ttl) >= 1
    case GetMissed(_, _) => false
  }

  /** No new `set` of the key begins. */
  predicate Quiet(fk: string, steps: seq<Step>) {
    forall i :: 0 <= i < |steps| ==> steps[i].action.SetBegins? ==> MakeKey(steps[i].action.key, steps[i].action.tenant) != fk
  }

  /** How many answers the key has got. */
  function AnswersFor(answers: seq<Answer>, fk: string): nat {
    if answers == [] then 0
    else AnswersFor(answers[..|answers| - 1], fk) + (if answers[|answers| - 1].fk == fk then 1 else 0)
  }

  lemma AnswersSnoc(answers: seq<Answer>, a: Answer, fk: string)
    ensures AnswersFor(answers + [a], fk) == AnswersFor(answers, fk) + (if a.fk == fk then 1 else 0)
  {
    assert (answers + [a])[..|answers|] == answers;
  }

  /** Nothing is left of the key: no value, and no call that could bring one back. */
  ghost predicate Forgotten(c: Config, s: State, fk: string) {
    Absent(s, fk) && forall p :: !Holds(c, s, fk, p)
  }

  lemma SetBeginForgets(c: Config, s: State, step: Step, fk: string)
    requires Forgotten(c, s, fk) && Enabled(c, s, step) && step.action.SetBegins?
    requires MakeKey(step.action.key, step.action.tenant) != fk
    ensures Forgotten(c, Next(c, s, step), fk)
  {
    var a := step.action;
    var s' := Next(c, s, step);
    L1SetValues(s.l1, MakeKey(a.key, a.tenant), a.value, a.ttl, a.tenant, step.now);
    forall p ensures !Holds(c, s', fk, p) {
      assert !Holds(c, s, fk, p);
    }
  }

  lemma SetL2Forgets(c: Config, s: State, step: Step, fk: string)
    requires Forgotten(c, s, fk) && Enabled(c, s, step) && step.action.SetL2?
    ensures Forgotten(c, Next(c, s, step), fk)
  {
    var s' := Next(c, s, step);
    var w := s.log[s.pending[step.action.p].index];
    assert !Holds(c, s, fk, step.action.p);
    if Seconds(w.ttl, c.l2Ttl) >= 1 {
      L2SetStrings(s.l2, w.fk, w.value, w.ttl, c.l2Ttl, step.now);
    }
    forall p ensures !Holds(c, s', fk, p) {
      assert !Holds(c, s, fk, p);
    }
  }

  lemma GetForgets(c: Config, s: State, step: Step, fk: string)
    requires Forgotten(c, s, fk) && Enabled(c, s, step) && (step.action.GetL1? || step.action.GetL2?)
    ensures Forgotten(c, Next(c, s, step), fk)
    ensures AnswersFor(Next(c, s, step).answers, fk) == AnswersFor(s.answers, fk)
  {
    var s' := Next(c, s, step);
    if step.action.GetL1? {
      var k := MakeKey(step.action.key, step.action.tenant);
      L1GetValues(s.l1, k, step.now);
      AnswersSnoc(s.answers, Answer(k, Get(s.l1, k, step.now).1, step.now), fk);
    } else {
      L2GetStrings(s.l2, s.pending[step.action.p].fk, step.now);
    }
    forall p ensures !Holds(c, s', fk, p) {
      assert !Holds(c, s, fk, p);
    }
  }

  lemma PromoteForgets(c: Config, s: State, step: Step, fk: string)
    requires Forgotten(c, s, fk) && Enabled(c, s, step) && step.action.Promote?
    ensures Forgotten(c, Next(c, s, step), fk)
    ensures AnswersFor(Next(c, s, step).answers, fk) == AnswersFor(s.answers, fk)
  {
    var s' := Next(c, s, step);
    var r := s.pending[step.action.p];
    assert !Holds(c, s, fk, step.action.p);
    L1SetValues(s.l1, r.fk, r.value, None, r.tenant, step.now);
    AnswersSnoc(s.answers, Answer(r.fk, r.value, step.now), fk);
    forall p ensures !Holds(c, s', fk, p) {
      assert !Holds(c, s, fk, p);
    }
  }

  lemma DropForgets(c: Config, s: State, step: Step, fk: string)
    requires Forgotten(c, s, fk) && Enabled(c, s, step) && (step.action.DropL1? || step.action.DeleteL2?)
    ensures Forgotten(c, Next(c, s, step), fk)
  {
    var s' := Next(c, s, step);
    forall p ensures !Holds(c, s', fk, p) {
      assert !Holds(c, s, fk, p);
    }
  }

  lemma StepForgets(c: Config, s: State, step: Step, fk: string)
    requires Forgotten(c, s, fk) && Enabled(c, s, step) && Quiet(fk, [step])
    ensures Forgotten(c, Next(c, s, step), fk)
    ensures AnswersFor(Next(c, s, step).answers, fk) == AnswersFor(s.answers, fk)
  {
    assert [step][0] == step;
    match step.action {
      case SetBegins(_, _, _, _, _, _) => SetBeginForgets(c, s, step, fk);
      case SetL2(_) => SetL2Forgets(c, s, step, fk);
      case GetL1(_, _, _) => GetForgets(c, s, step, fk);
      case GetL2(_) => GetForgets(c, s, step, fk);
      case Promote(_) => PromoteForgets(c, s, step, fk);
      case DropL1(_) => DropForgets(c, s, step, fk);
      case DeleteL2(_) => DropForgets(c, s, step, fk);
    }
  }

  /** A forgotten key is never answered again until it is set again. */
  lemma {:induction false} RunForgets(c: Config, s: State, steps: seq<Step>, fk: string)
    requires Forgotten(c, s, fk) && Quiet(fk, steps) && Run(c, s, steps).Some?
    ensures AnswersFor(Run(c, s, steps).value.answers, fk) == AnswersFor(s.answers, fk)
    decreases |steps|
  {
    if steps != [] {
      assert Quiet(fk, [steps[0]]) && Quiet(fk, steps[1..]);
      StepForgets(c, s, steps[0], fk);
      RunForgets(c, Next(c, s, steps[0]), steps[1..], fk);
    }
  }

  /** Some run from `s` without a new `set` of the key answers it. */
  ghost predicate Answerable(c: Config, s: State, fk: string) {
    exists steps :: AnswersAgain(c, s, fk, steps)
  }

  ghost predicate AnswersAgain(c: Config, s: State, fk: string, steps: seq<Step>) {
    && Quiet(fk, steps) && Run(c, s, steps).Some?
    && AnswersFor(Run(c, s, steps).value.answers, fk) > AnswersFor(s.answers, fk)
  }

  /** One step in front of a run that answers. */
  lemma AnswersLater(c: Config, s: State, fk: string, step: Step, rest: seq<Step>)
    requires Enabled(c, s, step) && !step.action.SetBegins? && AnswersAgain(c, Next(c, s, step), fk, rest)
    requires AnswersFor(Next(c, s, step).answers, fk) == AnswersFor(s.answers, fk)
    ensures AnswersAgain(c, s, fk, [step] + rest)
  {
    assert ([step] + rest)[1..] == rest;
    forall i | 0 <= i < |[step] + rest| && ([step] + rest)[i].action.SetBegins?
      ensures MakeKey(([step] + rest)[i].action.key, ([step] + rest)[i].action.tenant) != fk
    {
      assert i > 0 && ([step] + rest)[i] == rest[i - 1];
    }
  }

  lemma PromotionAnswers(c: Config, s: State, fk: string, p: nat)
    requires p in s.pending && s.pending[p].GetRead? && Holds(c, s, fk, p)
    ensures AnswersAgain(c, s, fk, [At(s.clock, Promote(p))])
  {
    var step := At(s.clock, Promote(p));
    AnswersSnoc(s.answers, Answer(fk, s.pending[p].value, s.clock), fk);
    assert [step][1..] == [];
    assert Run(c, Next(c, s, step), []) == Some(Next(c, s, step));
  }

  /** A value in Redis, with none in memory, is read and promoted by the next `get`. */
  lemma RedisAnswers(c: Config, s: State, fk: string, p: nat)
    requires c.delta >= 0.0 && p !in s.pending && (fk in s.l1.cache ==> s.l1.cache[fk].value == Null)
    requires L2Get(s.l2, fk, s.clock).1 != Null
    ensures Answerable(c, s, fk)
  {
    var get, read := At(s.clock, GetL1(fk, None, p)), At(s.clock, GetL2(p));
    var s1 := Next(c, s, get);
    assert s1.pending[p] == GetMissed(fk, None);
    var s2 := Next(c, s1, read);
    PromotionAnswers(c, s2, fk, p);
    AnswersLater(c, s1, fk, read, [At(s.clock, Promote(p))]);
    AnswersLater(c, s, fk, get, [read] + [At(s.clock, Promote(p))]);
  }

  lemma WriteReadable(l2: Redis, w: Write, default: real, now: real)
    requires Seconds(w.ttl, default) >= 1 && w.value != Null && MetaKey(w.fk) !in l2
    ensures L2Get(L2Set(l2, w.fk, w.value, w.ttl, default, now), w.fk, now).1 == w.value
  {
    RedisKeysDistinct(w.fk, w.fk);
  }

  /** A waiting write reaches Redis and is read back; a string in the way of its metadata
      is deleted first. */
  lemma WaitingWriteAnswers(c: Config, s: State, fk: string, p: nat)
    requires c.delta >= 0.0 && Absent(s, fk)
    requires p in s.pending && s.pending[p].SetWaits? && Holds(c, s, fk, p)
    ensures Answerable(c, s, fk)
  {
    var clear, write := At(s.clock, DeleteL2(fk + ":meta")), At(s.clock, SetL2(p));
    var s1 := Next(c, s, clear);
    assert RedisKey(fk + ":meta") == MetaKey(fk);
    var w := s.log[s.pending[p].index];
    WriteReadable(s1.l2, w, c.l2Ttl, s.clock);
    var s2 := Next(c, s1, write);
    RedisAnswers(c, s2, fk, p);
    var rest :| AnswersAgain(c, s2, fk, rest);
    AnswersLater(c, s1, fk, write, rest);
    AnswersLater(c, s, fk, clear, [write] + rest);
  }

  /** Once neither layer has the key, as after a delete, it can be answered without being
      set again if and only if some pending call still holds it: a read-through that read
      Redis at most `delta` ago, or an overlapping `set` that Redis will accept. */
  lemma AnswerableExactlyWhenHeld(c: Config, s: State, fk: string)
    requires c.delta >= 0.0 && Absent(s, fk)
    ensures Answerable(c, s, fk) <==> exists p :: Holds(c, s, fk, p)
  {
    if p :| Holds(c, s, fk, p) {
      if s.pending[p].GetRead? {
        PromotionAnswers(c, s, fk, p);
      } else {
        WaitingWriteAnswers(c, s, fk, p);
      }
    } else {
      forall steps ensures !AnswersAgain(c, s, fk, steps) {
        if Quiet(fk, steps) && Run(c, s, steps).Some? {
          RunForgets(c, s, steps, fk);
        }
      }
    }
  }

  /** The two steps of a delete, with none between them, leave the key in neither layer. */
  lemma DeleteLeavesAbsent(c: Config, s: State, fk: string, keys: set<string>, now: real, later: real)
    requires fk in keys && s.clock <= now <= later
    ensures var s1 := Next(c, s, At(now, DropL1(keys)));
      Absent(Next(c, s1, At(later, DeleteL2(fk))), fk)
  {
  }

  // ----- a deleted value can come back -----

  /** A `get` that read Redis before a delete promotes after it. */
  function Resurrection(v: Value): seq<Step> {
    [At(0.0, SetBegins("k", None, v, None, Levels(true, true), 0)), At(0.0, SetL2(0)), At(0.0, DropL1({"k"})),
     At(0.0, GetL1("k", None, 1)), At(0.0, GetL2(1)),
     At(0.0, DropL1({"k"})), At(0.0, DeleteL2("k")),
     At(0.0, Promote(1))]
  }

  const RACE_CONFIG := Config(3600.0, 7200.0, 1.0)

  function WrittenL1(v: Value): State {
    State(L1(1000, 3600.0, map["k" := Entry("k", v, 0.0, 0.0, 1, Some(3600.0), None)], ["k"]),
          map[], 0.0, [Write("k", v, None, 0.0, true, None)], map[0 := SetWaits(0)], [])
  }

  function WrittenBoth(v: Value): State {
    WrittenL1(v).(
      l2 := map[RedisKey("k") := Str(v, 7200.0), MetaKey("k") := Hash(Some(7200.0))],
      log := [Write("k", v, None, 0.0, true, Some(0.0))], pending := map[])
  }

  /** The in-memory entry is gone and a reader holds the value it read from Redis. */
  function ReaderHolds(v: Value): State {
    WrittenBoth(v).(l1 := Empty(1000, 3600.0), pending := map[1 := GetRead("k", None, v, 0.0)])
  }

  ghost predicate Goes(s: State, step: Step, s': State) {
    Enabled(RACE_CONFIG, s, step) && Next(RACE_CONFIG, s, step) == s'
  }

  lemma WritesGo(v: Value)
    ensures Goes(Initial(1000, RACE_CONFIG, 0.0), Resurrection(v)[0], WrittenL1(v))
    ensures Goes(WrittenL1(v), Resurrection(v)[1], WrittenBoth(v))
  {
    var s0 := Initial(1000, RACE_CONFIG, 0.0);
    var stored := Store(s0.l1, "k", NewEntry(s0.l1, "k", v, None, None, 0.0));
    assert stored == WrittenL1(v).l1;
    assert |stored.cache.Keys| == |{"k"}| == 1 by { assert stored.cache.Keys == {"k"}; }
    assert |stored.cache| == |stored.cache.Keys|;
    RedisKeysDistinct("k", "k");
    assert L2Set(map[], "k", v, None, 7200.0, 0.0) == WrittenBoth(v).l2;
  }

  lemma ReadGoes(v: Value)
    requires v != Null
    ensures var miss := WrittenBoth(v).(l1 := Empty(1000, 3600.0));
      && Goes(WrittenBoth(v), Resurrection(v)[2], miss)
      && Goes(miss, Resurrection(v)[3], miss.(pending := map[1 := GetMissed("k", None)]))
      && Goes(miss.(pending := map[1 := GetMissed("k", None)]), Resurrection(v)[4], ReaderHolds(v))
  {
    assert WrittenBoth(v).l1.cache - {"k"} == map[];
    assert Discard(WrittenBoth(v).l1, {"k"}) == Empty(1000, 3600.0);
    RedisKeysDistinct("k", "k");
  }

  lemma DeleteGoes(v: Value)
    ensures Goes(ReaderHolds(v), Resurrection(v)[5], ReaderHolds(v))
    ensures Goes(ReaderHolds(v), Resurrection(v)[6], ReaderHolds(v).(l2 := map[]))
  {
    assert Discard(Empty(1000, 3600.0), {"k"}) == Empty(1000, 3600.0);
    assert ReaderHolds(v).l2 - {RedisKey("k"), MetaKey("k")} == map[];
  }

  lemma PromotionGoes(v: Value)
    ensures Goes(ReaderHolds(v).(l2 := map[]), Resurrection(v)[7],
                 ReaderHolds(v).(l1 := WrittenL1(v).l1, l2 := map[], pending := map[], answers := [Answer("k", v, 0.0)]))
  {
    var l1 := Empty(1000, 3600.0);
    var stored := Store(l1, "k", NewEntry(l1, "k", v, None, None, 0.0));
    assert stored == WrittenL1(v).l1;
    assert |stored.cache.Keys| == |{"k"}| == 1 by { assert stored.cache.Keys == {"k"}; }
    assert |stored.cache| == |stored.cache.Keys|;
    assert ReaderHolds(v).pending - {1} == map[];
  }

  lemma RunFirst(s: State, step: Step, rest: seq<Step>, s': State)
    requires Goes(s, step, s')
    ensures Run(RACE_CONFIG, s, [step] + rest) == Run(RACE_CONFIG, s', rest)
  {
    assert ([step] + rest)[1..] == rest;
  }

  /** So under interleaving a completed delete does not stop later reads: after
      it the value is answered again, and is back in the in-memory layer. */
  lemma DeleteCanBeUndone(v: Value)
    requires v != Null
    ensures var end := Run(RACE_CONFIG, Initial(1000, RACE_CONFIG, 0.0), Resurrection(v));
      end.Some? && Hit(end.value.l1, "k", 0.0) && end.value.answers == [Answer("k", v, 0.0)]
  {
    WritesGo(v);
    ReadGoes(v);
    DeleteGoes(v);
    PromotionGoes(v);
    var a := Resurrection(v);
    var miss := WrittenBoth(v).(l1 := Empty(1000, 3600.0));
    var gone := ReaderHolds(v).(l2 := map[]);
    RunFirst(gone, a[7], [], gone.(l1 := WrittenL1(v).l1, pending := map[], answers := [Answer("k", v, 0.0)]));
    RunFirst(ReaderHolds(v), a[6], [a[7]], gone);
    RunFirst(ReaderHolds(v), a[5], [a[6], a[7]], ReaderHolds(v));
    RunFirst(miss.(pending := map[1 := GetMissed("k", None)]), a[4], [a[5], a[6], a[7]], ReaderHolds(v));
    RunFirst(miss, a[3], [a[4], a[5], a[6], a[7]], miss.(pending := map[1 := GetMissed("k", None)]));
    RunFirst(WrittenBoth(v), a[2], [a[3], a[4], a[5], a[6], a[7]], miss);
    RunFirst(WrittenL1(v), a[1], [a[2], a[3], a[4], a[5], a[6], a[7]], WrittenBoth(v));
    RunFirst(Initial(1000, RACE_CONFIG, 0.0), a[0], [a[1], a[2], a[3], a[4], a[5], a[6], a[7]], WrittenL1(v));
  }

  // ----- a call with none between is the whole operation -----

  /** The rest of the call's steps, at once. */
  function Finish(c: Config, s: State, p: nat, now: real): State
    requires s.clock <= now && c.delta >= 0.0
    requires p in s.pending && s.pending[p].SetWaits? ==> s.pending[p].index < |s.log|
    requires p in s.pending && s.pending[p].GetRead? ==> s.pending[p].readAt == now
    decreases if p !in s.pending then 0 else if s.pending[p].GetMissed? then 2 else 1
  {
    if p !in s.pending then s
    else
      match s.pending[p]
      case SetWaits(_) => Next(c, s, At(now, SetL2(p)))
      case GetMissed(_, _) => Finish(c, Next(c, s, At(now, GetL2(p))), p, now)
      case GetRead(_, _, _, _) => Next(c, s, At(now, Promote(p)))
  }

  function Whole(c: Config, s: State): Cache {
    Cache(s.l1, s.l2, c.l2Ttl, true)
  }

  /** A `get` whose steps follow each other answers, and leaves both layers, as the sequential
      read-through does. */
  lemma GetAlone(c: Config, s: State, key: string, tenant: Option<string>, p: nat, now: real)
    requires s.clock <= now && c.delta >= 0.0 && p !in s.pending
    ensures var s' := Finish(c, Next(c, s, At(now, GetL1(key, tenant, p))), p, now);
      var (end, v) := CacheGet(Whole(c, s), key, tenant, now);
      && Whole(c, s') == end && s'.pending == s.pending && s'.log == s.log
      && s'.answers == s.answers + (if v == Null then [] else [Answer(MakeKey(key, tenant), v, now)])
  {
    var s1 := Next(c, s, At(now, GetL1(key, tenant, p)));
    assert s.answers + [] == s.answers;
    if p in s1.pending {
      ReadAlone(c, s1, s.pending, p, MakeKey(key, tenant), tenant, now);
    }
  }

  /** The part after a miss in memory. */
  lemma ReadAlone(c: Config, s: State, others: map<nat, Pending>, p: nat, fk: string, tenant: Option<string>, now: real)
    requires s.clock == now && c.delta >= 0.0 && p !in others && s.pending == others[p := GetMissed(fk, tenant)]
    ensures var s', (l2, v) := Finish(c, s, p, now), L2Get(s.l2, fk, now);
      && s'.l2 == l2 && s'.pending == others && s'.log == s.log && s'.clock == now
      && s'.l1 == (if v == Null then s.l1 else Set(s.l1, fk, v, None, tenant, now))
      && s'.answers == s.answers + (if v == Null then [] else [Answer(fk, v, now)])
  {
    var s1 := Next(c, s, At(now, GetL2(p)));
    assert s.answers + [] == s.answers;
    assert s.pending - {p} == others;
    if p in s1.pending {
      assert s1.pending - {p} == others;
    }
  }

  /** So does a `set`, to the layers it is for, */
  lemma SetAlone(c: Config, s: State, key: string, tenant: Option<string>, v: Value, ttl: Option<real>, on: Levels, p: nat, now: real)
    requires s.clock <= now && c.delta >= 0.0 && p !in s.pending
    ensures var s' := Finish(c, Next(c, s, At(now, SetBegins(key, tenant, v, ttl, on, p))), p, now);
      && Whole(c, s') == CacheSet(Whole(c, s), key, v, ttl, tenant, on, now)
      && s'.pending == s.pending && s'.answers == s.answers
      && s'.log == s.log + [Write(MakeKey(key, tenant), v, ttl, now, on.l1, if on.l2 then Some(now) else None)]
  {
    var s1 := Next(c, s, At(now, SetBegins(key, tenant, v, ttl, on, p)));
    if on.l2 {
      assert s1.pending - {p} == s.pending;
    }
  }

  /** and a delete. */
  lemma DeleteAlone(c: Config, s: State, key: string, tenant: Option<string>, now: real)
    requires s.clock <= now
    ensures var fk := MakeKey(key, tenant);
      var s' := Next(c, Next(c, s, At(now, DropL1({fk}))), At(now, DeleteL2(fk)));
      && Whole(c, s') == CacheDelete(Whole(c, s), key, tenant, Levels(true, true), now).0
      && s'.pending == s.pending && s'.answers == s.answers && s'.log == s.log
  {
  }
}
