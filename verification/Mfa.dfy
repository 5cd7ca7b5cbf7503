/** Multi-factor challenges and backup codes: how often a challenge compares codes,
    until when it accepts one, and where the backup codes go. */
module Mfa {
  import opened Common

  datatype Method = Totp | BackupCode | OtherMethod

  datatype Challenge = Challenge(
    user: string, how: Method, secret: Option<string>, expiresAt: real,
    attempts: nat, maxAttempts: nat, verified: bool, keyExpiry: real)

  datatype Config = Config(totpSecret: Option<string>, backupCodes: seq<string>, enabled: bool)

  /** What happened, in order. */
  datatype Event =
    | Compared(id: string, user: string, how: Method, code: string, at: real, accepted: bool)
    | NewCodes(owner: string, codes: seq<string>)

  datatype State = State(
    challenges: map<string, Challenge>, configs: map<string, Config>,
    born: map<string, real>, log: seq<Event>)

  const CHALLENGE_SECONDS := 300.0

  datatype Op =
    | OpSetup(user: string, secret: string)          // a confirmed TOTP setup
    | OpGenerate(user: string, codes: seq<string>)
    | OpDisable(user: string)
    | OpCreate(user: string, how: Method, id: string, now: real)
    | OpVerify(id: string, code: string, totpOk: bool, now: real)

  predicate Live(s: State, id: string, now: real) {
    id in s.challenges && now < s.challenges[id].keyExpiry
  }

  /** Python's `list.remove`. */
  function RemoveFirst(codes: seq<string>, code: string): seq<string> {
    if codes == [] then []
    else if codes[0] == code then codes[1..]
    else [codes[0]] + RemoveFirst(codes[1..], code)
  }

  predicate Matches(s: State, c: Challenge, code: string, totpOk: bool) {
    match c.how
    case Totp => c.secret.Some? && c.secret.value != "" && totpOk
    case BackupCode => c.user in s.configs && code in s.configs[c.user].backupCodes
    case OtherMethod => false
  }

  function SpendCode(configs: map<string, Config>, user: string, code: string): map<string, Config>
    requires user in configs
  {
    configs[user := configs[user].(backupCodes := RemoveFirst(configs[user].backupCodes, code))]
  }

  /** Every save renews the Redis key, never the challenge's own deadline. */
  function Verify(s: State, id: string, code: string, totpOk: bool, now: real): (State, bool) {
    if !Live(s, id, now) then (s, false)
    else
      var c := s.challenges[id];
      if now > c.expiresAt || c.attempts >= c.maxAttempts then (s.(challenges := s.challenges - {id}), false)
      else
        var valid := Matches(s, c, code, totpOk);
        (s.(challenges := s.challenges[id := c.(attempts := c.attempts + 1, verified := c.verified || valid,
                                                keyExpiry := now + CHALLENGE_SECONDS)],
            configs := if valid && c.how == BackupCode then SpendCode(s.configs, c.user, code) else s.configs,
            log := s.log + [Compared(id, c.user, c.how, code, now, valid)]),
         valid)
  }

  function SetConfig(s: State, user: string, config: Config): State {
    s.(configs := s.configs[user := config], log := s.log + [NewCodes(user, config.backupCodes)])
  }

  function CanCreate(s: State, user: string): bool {
    user in s.configs && s.configs[user].enabled
  }

  function Create(s: State, user: string, how: Method, id: string, now: real, maxAttempts: nat): State
    requires CanCreate(s, user)
  {
    s.(challenges := s.challenges[id := Challenge(
         user, how, if how == Totp then s.configs[user].totpSecret else None,
         now + CHALLENGE_SECONDS, 0, maxAttempts, false, now + CHALLENGE_SECONDS)],
       born := s.born[id := now])
  }

  function Step(s: State, op: Op, maxAttempts: nat): State {
    match op
    case OpSetup(user, secret) => SetConfig(s, user, Config(Some(secret), [], true))
    case OpGenerate(user, codes) =>
      if user in s.configs then SetConfig(s, user, s.configs[user].(backupCodes := codes)) else s
    case OpDisable(user) =>
      if user in s.configs then SetConfig(s, user, Config(None, [], false)) else s
    case OpCreate(user, how, id, now) => if CanCreate(s, user) then Create(s, user, how, id, now, maxAttempts) else s
    case OpVerify(id, code, totpOk, now) => Verify(s, id, code, totpOk, now).0
  }

  const INITIAL := State(map[], map[], map[], [])

  /** Challenge ids are never drawn twice. */
  ghost predicate Runs(s: State, ops: seq<Op>, maxAttempts: nat)
    decreases |ops|
  {
    ops == [] ||
    ((ops[0].OpCreate? ==> ops[0].id !in s.born) && Runs(Step(s, ops[0], maxAttempts), ops[1..], maxAttempts))
  }

  function Run(s: State, ops: seq<Op>, maxAttempts: nat): State
    decreases |ops|
  {
    if ops == [] then s else Run(Step(s, ops[0], maxAttempts), ops[1..], maxAttempts)
  }

  // ----- reading the log -----

  /** How many codes were compared against a challenge. */
  function Comparisons(log: seq<Event>, id: string): nat {
    if log == [] then 0
    else Comparisons(log[..|log| - 1], id) + (if log[|log| - 1].Compared? && log[|log| - 1].id == id then 1 else 0)
  }

  /** The user's codes as last generated. */
  function Generated(log: seq<Event>, user: string): multiset<string> {
    if log == [] then multiset{}
    else
      var e := log[|log| - 1];
      if e.NewCodes? && e.owner == user then multiset(e.codes) else Generated(log[..|log| - 1], user)
  }

  /** The backup codes accepted for the user since then. */
  function Spent(log: seq<Event>, user: string): multiset<string> {
    if log == [] then multiset{}
    else
      var e := log[|log| - 1];
      if e.NewCodes? && e.owner == user then multiset{}
      else
        Spent(log[..|log| - 1], user)
        + (if e.Compared? && e.user == user && e.how == BackupCode && e.accepted then multiset{e.code} else multiset{})
  }

  /** Accepted before the deadline set when the challenge was created. */
  ghost predicate InTime(born: map<string, real>, e: Event) {
    e.Compared? ==> e.id in born && e.at <= born[e.id] + CHALLENGE_SECONDS
  }

  ghost predicate ChallengeInv(s: State, maxAttempts: nat) {
    && (forall id :: id in s.challenges ==>
          && id in s.born
          && s.challenges[id].attempts == Comparisons(s.log, id)
          && s.challenges[id].maxAttempts == maxAttempts
          && s.challenges[id].expiresAt == s.born[id] + CHALLENGE_SECONDS)
    && CountsBounded(s.born, s.log, maxAttempts)
    && AllInTime(s.born, s.log)
  }

  ghost predicate CountsBounded(born: map<string, real>, log: seq<Event>, maxAttempts: nat) {
    && (forall id :: Comparisons(log, id) <= maxAttempts)
    && (forall id :: id !in born ==> Comparisons(log, id) == 0)
  }

  ghost predicate AllInTime(born: map<string, real>, log: seq<Event>) {
    forall i :: 0 <= i < |log| ==> InTime(born, log[i])
  }

  /** The backup codes a user still has. */
  function Held(configs: map<string, Config>, user: string): multiset<string> {
    if user in configs then multiset(configs[user].backupCodes) else multiset{}
  }

  ghost predicate Balanced(s: State, user: string) {
    Held(s.configs, user) + Spent(s.log, user) == Generated(s.log, user)
  }

  ghost predicate CodesInv(s: State) {
    forall user :: Balanced(s, user)
  }

  lemma {:induction false} RemoveFirstCount(codes: seq<string>, code: string)
    requires code in codes
    ensures multiset(RemoveFirst(codes, code)) + multiset{code} == multiset(codes)
  {
    assert codes == [codes[0]] + codes[1..];
    if codes[0] != code {
      RemoveFirstCount(codes[1..], code);
    }
  }

  lemma LogStep(log: seq<Event>, e: Event, id: string, user: string)
    ensures Comparisons(log + [e], id) == Comparisons(log, id) + (if e.Compared? && e.id == id then 1 else 0)
    ensures Generated(log + [e], user) == if e.NewCodes? && e.owner == user then multiset(e.codes) else Generated(log, user)
    ensures Spent(log + [e], user) ==
      if e.NewCodes? && e.owner == user then multiset{}
      else Spent(log, user)
           + (if e.Compared? && e.user == user && e.how == BackupCode && e.accepted then multiset{e.code} else multiset{})
  {
    assert (log + [e])[..|log|] == log;
  }

  lemma AppendsOneEvent(s: State, s': State, e: Event)
    requires s'.log == s.log + [e]
    ensures forall id :: Comparisons(s'.log, id) == Comparisons(s.log, id) + (if e.Compared? && e.id == id then 1 else 0)
  {
    forall id ensures Comparisons(s'.log, id) == Comparisons(s.log, id) + (if e.Compared? && e.id == id then 1 else 0) {
      LogStep(s.log, e, id, "");
    }
  }

  lemma ChallengeKeeps(s: State, op: Op, maxAttempts: nat)
    requires ChallengeInv(s, maxAttempts) && (op.OpCreate? ==> op.id !in s.born)
    ensures ChallengeInv(Step(s, op, maxAttempts), maxAttempts)
  {
    match op {
      case OpSetup(user, secret) => SetConfigKeepsChallenges(s, user, Config(Some(secret), [], true), maxAttempts);
      case OpGenerate(user, codes) =>
        if user in s.configs { SetConfigKeepsChallenges(s, user, s.configs[user].(backupCodes := codes), maxAttempts); }
      case OpDisable(user) =>
        if user in s.configs { SetConfigKeepsChallenges(s, user, Config(None, [], false), maxAttempts); }
      case OpCreate(_, _, _, _) =>
      case OpVerify(id, code, totpOk, now) => VerifyKeepsChallenges(s, id, code, totpOk, now, maxAttempts);
    }
  }

  lemma SetConfigKeepsChallenges(s: State, user: string, config: Config, maxAttempts: nat)
    requires ChallengeInv(s, maxAttempts)
    ensures ChallengeInv(SetConfig(s, user, config), maxAttempts)
  {
    AppendsOneEvent(s, SetConfig(s, user, config), NewCodes(user, config.backupCodes));
  }

  lemma CountsAppend(born: map<string, real>, log: seq<Event>, e: Event, maxAttempts: nat)
    requires CountsBounded(born, log, maxAttempts)
    requires e.Compared? && e.id in born && Comparisons(log, e.id) < maxAttempts
    ensures CountsBounded(born, log + [e], maxAttempts)
  {
    forall id
      ensures Comparisons(log + [e], id) <= maxAttempts && (id !in born ==> Comparisons(log + [e], id) == 0)
    {
      LogStep(log, e, id, "");
    }
  }

  lemma TimesAppend(born: map<string, real>, log: seq<Event>, e: Event)
    requires AllInTime(born, log) && InTime(born, e)
    ensures AllInTime(born, log + [e])
  {
  }

  /** Storing a compared challenge with its attempt counted. */
  lemma ComparisonKeepsChallenges(s: State, e: Event, c: Challenge, configs: map<string, Config>, maxAttempts: nat)
    requires ChallengeInv(s, maxAttempts) && e.Compared? && e.id in s.challenges
    requires var before := s.challenges[e.id];
      && before.attempts < maxAttempts && e.at <= before.expiresAt
      && c.attempts == before.attempts + 1 && c.maxAttempts == maxAttempts && c.expiresAt == before.expiresAt
    ensures ChallengeInv(s.(challenges := s.challenges[e.id := c], configs := configs, log := s.log + [e]), maxAttempts)
  {
    CountsAppend(s.born, s.log, e, maxAttempts);
    TimesAppend(s.born, s.log, e);
    forall id | id in s.challenges
      ensures Comparisons(s.log + [e], id) == Comparisons(s.log, id) + (if id == e.id then 1 else 0)
    {
      LogStep(s.log, e, id, "");
    }
  }

  lemma VerifyKeepsChallenges(s: State, id: string, code: string, totpOk: bool, now: real, maxAttempts: nat)
    requires ChallengeInv(s, maxAttempts)
    ensures ChallengeInv(Verify(s, id, code, totpOk, now).0, maxAttempts)
  {
    if Live(s, id, now) {
      var c := s.challenges[id];
      if now <= c.expiresAt && c.attempts < c.maxAttempts {
        var e := Compared(id, c.user, c.how, code, now, Matches(s, c, code, totpOk));
        var c' := c.(attempts := c.attempts + 1, verified := c.verified || e.accepted, keyExpiry := now + CHALLENGE_SECONDS);
        ComparisonKeepsChallenges(s, e, c', Verify(s, id, code, totpOk, now).0.configs, maxAttempts);
      }
    }
  }

  lemma SetConfigBalances(s: State, owner: string, config: Config, user: string)
    requires Balanced(s, user)
    ensures Balanced(SetConfig(s, owner, config), user)
  {
    LogStep(s.log, NewCodes(owner, config.backupCodes), "", user);
  }

  /** Accepting a backup code moves it from held to spent. */
  lemma AcceptBalances(s: State, user: string, e: Event)
    requires Balanced(s, user) && e.Compared? && e.accepted && e.how == BackupCode && e.user == user
    requires user in s.configs && e.code in s.configs[user].backupCodes
    ensures Held(SpendCode(s.configs, user, e.code), user) + Spent(s.log + [e], user) == Generated(s.log + [e], user)
  {
    LogStep(s.log, e, "", user);
    RemoveFirstCount(s.configs[user].backupCodes, e.code);
  }

  /** Any other comparison leaves the user's codes alone. */
  lemma OtherComparisonBalances(s: State, user: string, e: Event, configs: map<string, Config>)
    requires Balanced(s, user) && e.Compared? && !(e.accepted && e.how == BackupCode && e.user == user)
    requires Held(configs, user) == Held(s.configs, user)
    ensures Held(configs, user) + Spent(s.log + [e], user) == Generated(s.log + [e], user)
  {
    LogStep(s.log, e, "", user);
  }

  lemma VerifyBalances(s: State, id: string, code: string, totpOk: bool, now: real, user: string)
    requires Balanced(s, user)
    ensures Balanced(Verify(s, id, code, totpOk, now).0, user)
  {
    var s' := Verify(s, id, code, totpOk, now).0;
    if s'.log != s.log {
      var c := s.challenges[id];
      var e := Compared(id, c.user, c.how, code, now, Matches(s, c, code, totpOk));
      if e.accepted && c.how == BackupCode && c.user == user {
        AcceptBalances(s, user, e);
      } else {
        OtherComparisonBalances(s, user, e, s'.configs);
      }
    }
  }

  lemma StepBalances(s: State, op: Op, maxAttempts: nat, user: string)
    requires Balanced(s, user)
    ensures Balanced(Step(s, op, maxAttempts), user)
  {
    match op {
      case OpSetup(u, secret) => SetConfigBalances(s, u, Config(Some(secret), [], true), user);
      case OpGenerate(u, codes) =>
        if u in s.configs { SetConfigBalances(s, u, s.configs[u].(backupCodes := codes), user); }
      case OpDisable(u) =>
        if u in s.configs { SetConfigBalances(s, u, Config(None, [], false), user); }
      case OpCreate(_, _, _, _) =>
      case OpVerify(id, code, totpOk, now) => VerifyBalances(s, id, code, totpOk, now, user);
    }
  }

  lemma CodesKeep(s: State, op: Op, maxAttempts: nat)
    requires CodesInv(s)
    ensures CodesInv(Step(s, op, maxAttempts))
  {
    forall user ensures Balanced(Step(s, op, maxAttempts), user) {
      StepBalances(s, op, maxAttempts, user);
    }
  }

  lemma StepKeeps(s: State, op: Op, maxAttempts: nat)
    requires ChallengeInv(s, maxAttempts) && CodesInv(s) && (op.OpCreate? ==> op.id !in s.born)
    ensures ChallengeInv(Step(s, op, maxAttempts), maxAttempts) && CodesInv(Step(s, op, maxAttempts))
  {
    ChallengeKeeps(s, op, maxAttempts);
    CodesKeep(s, op, maxAttempts);
  }

  lemma {:induction false} RunKeeps(s: State, ops: seq<Op>, maxAttempts: nat)
    requires ChallengeInv(s, maxAttempts) && CodesInv(s) && Runs(s, ops, maxAttempts)
    ensures ChallengeInv(Run(s, ops, maxAttempts), maxAttempts) && CodesInv(Run(s, ops, maxAttempts))
    decreases |ops|
  {
    if ops != [] {
      StepKeeps(s, ops[0], maxAttempts);
      RunKeeps(Step(s, ops[0], maxAttempts), ops[1..], maxAttempts);
    }
  }

  /** In every sequential run at most `maxAttempts` codes are compared against any
      challenge, and none later than five minutes after its creation. */
  lemma AttemptsAreBounded(ops: seq<Op>, maxAttempts: nat)
    requires Runs(INITIAL, ops, maxAttempts)
    ensures var s := Run(INITIAL, ops, maxAttempts);
      && (forall id :: Comparisons(s.log, id) <= maxAttempts)
      && (forall i :: 0 <= i < |s.log| && s.log[i].Compared? ==>
            s.log[i].id in s.born && s.log[i].at <= s.born[s.log[i].id] + CHALLENGE_SECONDS)
  {
    RunKeeps(INITIAL, ops, maxAttempts);
    var s := Run(INITIAL, ops, maxAttempts);
    assert forall i :: 0 <= i < |s.log| ==> InTime(s.born, s.log[i]);
  }

  /** In every sequential run the codes a user still has and the codes accepted since
      the last generation make up exactly the generated ones. */
  lemma CodesAreConserved(ops: seq<Op>, maxAttempts: nat, user: string)
    requires Runs(INITIAL, ops, maxAttempts) && user in Run(INITIAL, ops, maxAttempts).configs
    ensures var s := Run(INITIAL, ops, maxAttempts);
      multiset(s.configs[user].backupCodes) + Spent(s.log, user) == Generated(s.log, user)
  {
    RunKeeps(INITIAL, ops, maxAttempts);
    assert Balanced(Run(INITIAL, ops, maxAttempts), user);
  }

  /** So a code generated once is accepted at most once. */
  lemma CodeAcceptedOnce(ops: seq<Op>, maxAttempts: nat, user: string, code: string)
    requires Runs(INITIAL, ops, maxAttempts) && Generated(Run(INITIAL, ops, maxAttempts).log, user)[code] <= 1
    ensures Spent(Run(INITIAL, ops, maxAttempts).log, user)[code] <= 1
  {
    RunKeeps(INITIAL, ops, maxAttempts);
    var s := Run(INITIAL, ops, maxAttempts);
    assert Balanced(s, user);
    var have := Held(s.configs, user);
    assert (have + Spent(s.log, user))[code] == have[code] + Spent(s.log, user)[code];
  }

  /** A fresh challenge answers as its method says: a one-time code as the code check does,
      for users with a secret; a backup code if the user holds it, and one copy is spent. It
      counts one attempt either way. */
  lemma FreshChallengeAnswers(s: State, user: string, how: Method, id: string, code: string, totpOk: bool,
                              now: real, later: real, maxAttempts: nat)
    requires CanCreate(s, user) && maxAttempts >= 1 && now <= later < now + CHALLENGE_SECONDS
    ensures var config := s.configs[user];
      var (s2, valid) := Verify(Create(s, user, how, id, now, maxAttempts), id, code, totpOk, later);
      && (valid <==>
            || (how == Totp && totpOk && config.totpSecret.Some? && config.totpSecret.value != "")
            || (how == BackupCode && code in config.backupCodes))
      && s2.challenges[id].attempts == 1 && s2.challenges[id].verified == valid
      && if valid && how == BackupCode then Held(s2.configs, user) + multiset{code} == Held(s.configs, user)
         else s2.configs == s.configs
  {
    if code in s.configs[user].backupCodes {
      RemoveFirstCount(s.configs[user].backupCodes, code);
    }
  }

  /** The Redis key can outlive the deadline, and then the challenge accepts nothing. */
  lemma RenewedKeyAcceptsNothing(s: State, id: string, code: string, totpOk: bool, now: real)
    requires Live(s, id, now) && s.challenges[id].expiresAt < now
    ensures !Verify(s, id, code, totpOk, now).1
    ensures forall later, c2, ok :: !Verify(Verify(s, id, code, totpOk, now).0, id, c2, ok, later).1
  {
  }

  // ----- the manager -----

  class MFAManager {
    const maxAttempts: nat
    var challenges: map<string, Challenge>
    var configs: map<string, Config>
    ghost var born: map<string, real>
    ghost var log: seq<Event>

    ghost function Value(): State
      reads this
    {
      State(challenges, configs, born, log)
    }

    ghost predicate Valid()
      reads this
    {
      ChallengeInv(Value(), maxAttempts) && CodesInv(Value())
    }

    constructor (maxAttempts: nat)
      ensures Valid() && Value() == INITIAL && this.maxAttempts == maxAttempts
    {
      this.maxAttempts, challenges, configs, born, log := maxAttempts, map[], map[], map[], [];
    }

    method CreateChallenge(user: string, how: Method, id: string, now: real) returns (created: bool)
      requires Valid() && id !in born
      modifies this
      ensures Valid() && Value() == Step(old(Value()), OpCreate(user, how, id, now), maxAttempts)
      ensures created == CanCreate(old(Value()), user)
    {
      StepKeeps(Value(), OpCreate(user, how, id, now), maxAttempts);
      created := user in configs && configs[user].enabled;
      if created {
        StoreChallenge(user, how, id, now);
      }
    }

    method StoreChallenge(user: string, how: Method, id: string, now: real)
      requires CanCreate(Value(), user)
      modifies this
      ensures Value() == Create(old(Value()), user, how, id, now, maxAttempts)
    {
      var secret := if how == Totp then configs[user].totpSecret else None;
      var expiresAt := now + CHALLENGE_SECONDS;
      challenges := challenges[id := Challenge(user, how, secret, expiresAt, 0, maxAttempts, false, expiresAt)];
      born := born[id := now];
    }

    method VerifyChallenge(id: string, code: string, totpOk: bool, now: real) returns (valid: bool)
      requires Valid()
      modifies this
      ensures Valid()
      ensures Value() == Verify(old(Value()), id, code, totpOk, now).0
      ensures valid == Verify(old(Value()), id, code, totpOk, now).1
    {
      StepKeeps(Value(), OpVerify(id, code, totpOk, now), maxAttempts);
      valid := Check(id, code, totpOk, now);
    }

    method Check(id: string, code: string, totpOk: bool, now: real) returns (valid: bool)
      modifies this
      ensures Value() == Verify(old(Value()), id, code, totpOk, now).0
      ensures valid == Verify(old(Value()), id, code, totpOk, now).1
    {
      if id !in challenges || now >= challenges[id].keyExpiry {
        return false;
      }
      var challenge := challenges[id];
      if now > challenge.expiresAt {
        challenges := challenges - {id};
        return false;
      }
      if challenge.attempts >= challenge.maxAttempts {
        challenges := challenges - {id};
        return false;
      }
      valid := CompareCode(challenge, code, totpOk);
      challenge := challenge.(attempts := challenge.attempts + 1, verified := challenge.verified || valid,
                              keyExpiry := now + CHALLENGE_SECONDS);
      challenges := challenges[id := challenge];
      log := log + [Compared(id, challenge.user, challenge.how, code, now, valid)];
    }

    /** Compares the code by the challenge's method; an accepted backup code is spent. */
    method CompareCode(challenge: Challenge, code: string, totpOk: bool) returns (valid: bool)
      modifies this`configs
      ensures valid == Matches(old(Value()), challenge, code, totpOk)
      ensures configs == if valid && challenge.how == BackupCode then SpendCode(old(configs), challenge.user, code) else old(configs)
    {
      valid := false;
      if challenge.how == Totp && challenge.secret.Some? && challenge.secret.value != "" {
        valid := totpOk;
      } else if challenge.how == BackupCode {
        if challenge.user in configs && code in configs[challenge.user].backupCodes {
          valid := true;
          var config := configs[challenge.user];
          configs := configs[challenge.user := config.(backupCodes := RemoveFirst(config.backupCodes, code))];
        }
      }
    }

    method GenerateBackupCodes(user: string, codes: seq<string>) returns (found: bool)
      requires Valid()
      modifies this
      ensures Valid() && Value() == Step(old(Value()), OpGenerate(user, codes), maxAttempts)
      ensures found == (user in old(configs))
    {
      StepKeeps(Value(), OpGenerate(user, codes), maxAttempts);
      found := user in configs;
      if found {
        configs := configs[user := configs[user].(backupCodes := codes)];
        log := log + [NewCodes(user, codes)];
      }
    }
  }
}
