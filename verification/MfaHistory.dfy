/** What sequential runs of the multi-factor manager leave, told from the history of
    operations and comparisons: who may be challenged, and how each verification of a
    challenge answers, from its first attempt to its last. */
module MfaHistory {
  import opened Common
  import opened Mfa

  // ----- configurations -----

  /** The user's last confirmed setup or disabling. */
  function LastSwitch(ops: seq<Op>, user: string): Option<Op> {
    if ops == [] then None
    else
      var op := ops[|ops| - 1];
      if (op.OpSetup? || op.OpDisable?) && op.user == user then Some(op) else LastSwitch(ops[..|ops| - 1], user)
  }

  predicate On(ops: seq<Op>, user: string) {
    LastSwitch(ops, user).Some? && LastSwitch(ops, user).value.OpSetup?
  }

  /** The secret of the last setup, while it is on. */
  function SecretOf(ops: seq<Op>, user: string): Option<string> {
    match LastSwitch(ops, user)
    case Some(OpSetup(_, secret)) => Some(secret)
    case _ => None
  }

  /** The codes of the last generation, none after a later setup or disabling. */
  function CodesOf(ops: seq<Op>, user: string): multiset<string> {
    if ops == [] then multiset{}
    else
      match ops[|ops| - 1]
      case OpGenerate(u, codes) => if u == user then multiset(codes) else CodesOf(ops[..|ops| - 1], user)
      case OpSetup(u, _) => if u == user then multiset{} else CodesOf(ops[..|ops| - 1], user)
      case OpDisable(u) => if u == user then multiset{} else CodesOf(ops[..|ops| - 1], user)
      case _ => CodesOf(ops[..|ops| - 1], user)
  }

  /** Some setup of the user was confirmed. */
  predicate WasSetUp(ops: seq<Op>, user: string) {
    ops != [] && ((ops[|ops| - 1].OpSetup? && ops[|ops| - 1].user == user) || WasSetUp(ops[..|ops| - 1], user))
  }

  lemma {:induction false} RunSnoc(s: State, ops: seq<Op>, op: Op, maxAttempts: nat)
    ensures Run(s, ops + [op], maxAttempts) == Step(Run(s, ops, maxAttempts), op, maxAttempts)
    ensures Runs(s, ops + [op], maxAttempts) <==>
      Runs(s, ops, maxAttempts) && (op.OpCreate? ==> op.id !in Run(s, ops, maxAttempts).born)
    decreases |ops|
  {
    if ops == [] {
      assert [op][1..] == [];
      assert ops + [op] == [op];
    } else {
      assert (ops + [op])[1..] == ops[1..] + [op];
      RunSnoc(Step(s, ops[0], maxAttempts), ops[1..], op, maxAttempts);
    }
  }

  /** The last operation, apart. */
  lemma RunLast(ops: seq<Op>, maxAttempts: nat)
    requires ops != []
    ensures var before, op := ops[..|ops| - 1], ops[|ops| - 1];
      && Run(INITIAL, ops, maxAttempts) == Step(Run(INITIAL, before, maxAttempts), op, maxAttempts)
      && (Runs(INITIAL, ops, maxAttempts) ==>
            Runs(INITIAL, before, maxAttempts) && (op.OpCreate? ==> op.id !in Run(INITIAL, before, maxAttempts).born))
  {
    assert ops == ops[..|ops| - 1] + [ops[|ops| - 1]];
    RunSnoc(INITIAL, ops[..|ops| - 1], ops[|ops| - 1], maxAttempts);
  }

  /** The user is configured once set up, and ready to be challenged while the last switch was
      a setup, with its secret; the codes generated are those of the last generation since. */
  predicate Tells(ops: seq<Op>, s: State, user: string) {
    && (user in s.configs <==> WasSetUp(ops, user))
    && (user in s.configs ==>
          && (s.configs[user].enabled <==> On(ops, user))
          && s.configs[user].totpSecret == SecretOf(ops, user)
          && Generated(s.log, user) == CodesOf(ops, user))
  }

  /** In every sequential run a user's configuration is what the history tells. */
  lemma {:induction false} ConfigMatchesHistory(ops: seq<Op>, maxAttempts: nat, user: string)
    ensures Tells(ops, Run(INITIAL, ops, maxAttempts), user)
  {
    if ops != [] {
      var n := |ops| - 1;
      ConfigMatchesHistory(ops[..n], maxAttempts, user);
      RunLast(ops, maxAttempts);
      StepTells(ops, Run(INITIAL, ops[..n], maxAttempts), maxAttempts, user);
    }
  }

  lemma StepTells(ops: seq<Op>, s: State, maxAttempts: nat, user: string)
    requires ops != [] && Tells(ops[..|ops| - 1], s, user)
    ensures Tells(ops, Step(s, ops[|ops| - 1], maxAttempts), user)
  {
    match ops[|ops| - 1] {
      case OpSetup(u, secret) => SetConfigTells(ops, s, maxAttempts, user);
      case OpGenerate(u, codes) => SetConfigTells(ops, s, maxAttempts, user);
      case OpDisable(u) => SetConfigTells(ops, s, maxAttempts, user);
      case OpCreate(_, _, _, _) =>
      case OpVerify(id, code, totpOk, now) => VerifyKeepsSettings(s, id, code, totpOk, now, user);
    }
  }

  lemma SetConfigTells(ops: seq<Op>, s: State, maxAttempts: nat, user: string)
    requires ops != [] && Tells(ops[..|ops| - 1], s, user)
    requires var op := ops[|ops| - 1]; op.OpSetup? || op.OpGenerate? || op.OpDisable?
    ensures Tells(ops, Step(s, ops[|ops| - 1], maxAttempts), user)
  {
    var op := ops[|ops| - 1];
    if op.user != user {
      OthersSettings(s, op, maxAttempts, user);
      assert SecretOf(ops, user) == SecretOf(ops[..|ops| - 1], user) && On(ops, user) == On(ops[..|ops| - 1], user);
    } else {
      OwnSettings(s, op, maxAttempts);
    }
  }

  lemma OthersSettings(s: State, op: Op, maxAttempts: nat, user: string)
    requires (op.OpSetup? || op.OpGenerate? || op.OpDisable?) && op.user != user
    ensures var s' := Step(s, op, maxAttempts);
      && (user in s'.configs <==> user in s.configs)
      && (user in s.configs ==> s'.configs[user] == s.configs[user])
      && Generated(s'.log, user) == Generated(s.log, user)
  {
    var s' := Step(s, op, maxAttempts);
    if s'.log != s.log {
      LogStep(s.log, s'.log[|s.log|], "", user);
    }
  }

  lemma OwnSettings(s: State, op: Op, maxAttempts: nat)
    requires op.OpSetup? || op.OpGenerate? || op.OpDisable?
    ensures var s' := Step(s, op, maxAttempts);
      if op.OpSetup? then
        && op.user in s'.configs && s'.configs[op.user].enabled && s'.configs[op.user].totpSecret == Some(op.secret)
        && Generated(s'.log, op.user) == multiset{}
      else if op.user !in s.configs then s' == s
      else if op.OpGenerate? then
        && op.user in s'.configs && s'.configs[op.user].enabled == s.configs[op.user].enabled
        && s'.configs[op.user].totpSecret == s.configs[op.user].totpSecret
        && Generated(s'.log, op.user) == multiset(op.codes)
      else
        && op.user in s'.configs && !s'.configs[op.user].enabled && s'.configs[op.user].totpSecret == None
        && Generated(s'.log, op.user) == multiset{}
  {
    var s' := Step(s, op, maxAttempts);
    if s'.log != s.log {
      LogStep(s.log, s'.log[|s.log|], "", op.user);
    }
  }

  lemma VerifyKeepsSettings(s: State, id: string, code: string, totpOk: bool, now: real, user: string)
    ensures var s' := Verify(s, id, code, totpOk, now).0;
      && (user in s'.configs <==> user in s.configs)
      && (user in s.configs ==>
            s'.configs[user].enabled == s.configs[user].enabled && s'.configs[user].totpSecret == s.configs[user].totpSecret)
      && Generated(s'.log, user) == Generated(s.log, user)
  {
    var s' := Verify(s, id, code, totpOk, now).0;
    if s'.log != s.log {
      LogStep(s.log, s'.log[|s.log|], "", user);
    }
  }

  // ----- challenges -----

  /** When a challenge was saved last: at its last comparison, or when it was created. */
  function LastSave(log: seq<Event>, id: string, created: real): real {
    if log == [] then created
    else if log[|log| - 1].Compared? && log[|log| - 1].id == id then log[|log| - 1].at
    else LastSave(log[..|log| - 1], id, created)
  }

  lemma LastSaveStep(log: seq<Event>, e: Event, id: string, created: real)
    ensures LastSave(log + [e], id, created) == if e.Compared? && e.id == id then e.at else LastSave(log, id, created)
  {
    assert (log + [e])[..|log|] == log;
  }

  lemma {:induction false} NeverCompared(log: seq<Event>, id: string, created: real)
    requires Comparisons(log, id) == 0
    ensures LastSave(log, id, created) == created
  {
    if log != [] {
      NeverCompared(log[..|log| - 1], id, created);
    }
  }

  /** The creation a stored challenge stems from: the user was set up then, and gave the secret. */
  predicate StemsFrom(ops: seq<Op>, i: nat, id: string, c: Challenge, created: real) {
    && i < |ops| && ops[i] == OpCreate(c.user, c.how, id, created) && On(ops[..i], c.user)
    && c.secret == if c.how == Totp then SecretOf(ops[..i], c.user) else None
  }

  ghost predicate Stored(ops: seq<Op>, s: State) {
    forall id :: id in s.challenges ==>
      && id in s.born
      && s.challenges[id].keyExpiry == LastSave(s.log, id, s.born[id]) + 300.0
      && exists i: nat :: StemsFrom(ops, i, id, s.challenges[id], s.born[id])
  }

  lemma StillStems(ops: seq<Op>, i: nat, id: string, c: Challenge, c': Challenge, created: real)
    requires ops != [] && StemsFrom(ops[..|ops| - 1], i, id, c, created)
    requires c'.user == c.user && c'.how == c.how && c'.secret == c.secret
    ensures StemsFrom(ops, i, id, c', created)
  {
    assert ops[..|ops| - 1][..i] == ops[..i];
  }

  /** Every stored challenge stems from a creation, and lies in Redis for five minutes from
      its last save. */
  lemma {:induction false} ChallengesMatchHistory(ops: seq<Op>, maxAttempts: nat)
    requires Runs(INITIAL, ops, maxAttempts)
    ensures Stored(ops, Run(INITIAL, ops, maxAttempts))
  {
    if ops != [] {
      var n := |ops| - 1;
      var s := Run(INITIAL, ops[..n], maxAttempts);
      RunLast(ops, maxAttempts);
      ChallengesMatchHistory(ops[..n], maxAttempts);
      RunKeeps(INITIAL, ops[..n], maxAttempts);
      match ops[n] {
        case OpCreate(user, how, id, now) =>
          ConfigMatchesHistory(ops[..n], maxAttempts, user);
          CreateStored(s, ops, maxAttempts);
        case OpVerify(_, _, _, _) => VerifyStored(s, ops, maxAttempts);
        case _ => OtherStored(s, ops, maxAttempts);
      }
    }
  }

  lemma OtherStored(s: State, ops: seq<Op>, maxAttempts: nat)
    requires ops != [] && Stored(ops[..|ops| - 1], s)
    requires !ops[|ops| - 1].OpCreate? && !ops[|ops| - 1].OpVerify?
    ensures Stored(ops, Step(s, ops[|ops| - 1], maxAttempts))
  {
    var s' := Step(s, ops[|ops| - 1], maxAttempts);
    forall id | id in s'.challenges
      ensures s'.challenges[id].keyExpiry == LastSave(s'.log, id, s'.born[id]) + 300.0
      ensures exists i: nat :: StemsFrom(ops, i, id, s'.challenges[id], s'.born[id])
    {
      if s'.log != s.log {
        LastSaveStep(s.log, s'.log[|s.log|], id, s.born[id]);
      }
      var i: nat :| StemsFrom(ops[..|ops| - 1], i, id, s.challenges[id], s.born[id]);
      StillStems(ops, i, id, s.challenges[id], s.challenges[id], s.born[id]);
    }
  }

  lemma CreateStored(s: State, ops: seq<Op>, maxAttempts: nat)
    requires ops != [] && Stored(ops[..|ops| - 1], s) && ChallengeInv(s, maxAttempts)
    requires var op := ops[|ops| - 1];
      && op.OpCreate? && op.id !in s.born
      && Tells(ops[..|ops| - 1], s, op.user)
    ensures Stored(ops, Step(s, ops[|ops| - 1], maxAttempts))
  {
    var op := ops[|ops| - 1];
    var s' := Step(s, op, maxAttempts);
    forall id | id in s'.challenges
      ensures id in s'.born && s'.challenges[id].keyExpiry == LastSave(s'.log, id, s'.born[id]) + 300.0
      ensures exists i: nat :: StemsFrom(ops, i, id, s'.challenges[id], s'.born[id])
    {
      if id == op.id {
        NeverCompared(s.log, id, op.now);
        assert StemsFrom(ops, |ops| - 1, id, s'.challenges[id], op.now);
      } else {
        var i: nat :| StemsFrom(ops[..|ops| - 1], i, id, s.challenges[id], s.born[id]);
        StillStems(ops, i, id, s.challenges[id], s.challenges[id], s.born[id]);
      }
    }
  }

  lemma VerifyStored(s: State, ops: seq<Op>, maxAttempts: nat)
    requires ops != [] && Stored(ops[..|ops| - 1], s) && ops[|ops| - 1].OpVerify?
    ensures Stored(ops, Step(s, ops[|ops| - 1], maxAttempts))
  {
    var s' := Step(s, ops[|ops| - 1], maxAttempts);
    forall id | id in s'.challenges
      ensures s'.challenges[id].keyExpiry == LastSave(s'.log, id, s'.born[id]) + 300.0
      ensures exists i: nat :: StemsFrom(ops, i, id, s'.challenges[id], s'.born[id])
    {
      if s'.log != s.log {
        LastSaveStep(s.log, s'.log[|s.log|], id, s.born[id]);
      }
      var i: nat :| StemsFrom(ops[..|ops| - 1], i, id, s.challenges[id], s.born[id]);
      StillStems(ops, i, id, s.challenges[id], s'.challenges[id], s.born[id]);
    }
  }

  /** After any run, a creation makes a challenge exactly for a user whose last switch was a
      setup; it lasts five minutes and nothing was compared with it. */
  lemma CreatedExactly(ops: seq<Op>, maxAttempts: nat, user: string, how: Method, id: string, now: real)
    requires Runs(INITIAL, ops, maxAttempts) && id !in Run(INITIAL, ops, maxAttempts).born
    ensures var s, s' := Run(INITIAL, ops, maxAttempts), Run(INITIAL, ops + [OpCreate(user, how, id, now)], maxAttempts);
      if On(ops, user) then
        && s'.born == s.born[id := now] && s'.challenges.Keys == s.challenges.Keys + {id}
        && s'.challenges[id].keyExpiry == now + 300.0 && Comparisons(s'.log, id) == 0
        && s'.challenges[id].user == user && s'.challenges[id].how == how
        && s'.challenges[id].secret == if how == Totp then SecretOf(ops, user) else None
      else s' == s
  {
    RunSnoc(INITIAL, ops, OpCreate(user, how, id, now), maxAttempts);
    ConfigMatchesHistory(ops, maxAttempts, user);
    RunKeeps(INITIAL, ops, maxAttempts);
    if On(ops, user) {
      OnWasSetUp(ops, user);
    }
  }

  lemma {:induction false} OnWasSetUp(ops: seq<Op>, user: string)
    requires On(ops, user)
    ensures WasSetUp(ops, user)
  {
    var op := ops[|ops| - 1];
    if !(op.OpSetup? && op.user == user) {
      OnWasSetUp(ops[..|ops| - 1], user);
    }
  }

  // ----- verifications -----

  /** A challenge is gone from Redis five minutes after its last save, whatever is left of
      its attempts; then a verification changes nothing. */
  lemma GoneIsRefused(ops: seq<Op>, maxAttempts: nat, id: string, code: string, totpOk: bool, now: real)
    requires Runs(INITIAL, ops, maxAttempts)
    requires var s := Run(INITIAL, ops, maxAttempts);
      id !in s.challenges || (id in s.born && now >= LastSave(s.log, id, s.born[id]) + 300.0)
    ensures Verify(Run(INITIAL, ops, maxAttempts), id, code, totpOk, now) == (Run(INITIAL, ops, maxAttempts), false)
  {
    ChallengesMatchHistory(ops, maxAttempts);
  }

  /** The challenge is stored, and was saved less than five minutes ago. */
  predicate There(s: State, id: string, now: real) {
    id in s.challenges && id in s.born && now < LastSave(s.log, id, s.born[id]) + 300.0
  }

  /** In every run, a challenge that is there and not past five minutes from its creation
      refuses and is deleted exactly after `maxAttempts` comparisons; up to then each
      verification adds exactly one. */
  lemma EveryAttemptCompares(ops: seq<Op>, maxAttempts: nat, id: string, code: string, totpOk: bool, now: real)
    requires Runs(INITIAL, ops, maxAttempts) && There(Run(INITIAL, ops, maxAttempts), id, now)
    ensures var s := Run(INITIAL, ops, maxAttempts);
      var (s', valid) := Verify(s, id, code, totpOk, now);
      if now <= s.born[id] + 300.0 && Comparisons(s.log, id) < maxAttempts then
        && Comparisons(s'.log, id) == Comparisons(s.log, id) + 1
        && (forall other :: other != id ==> Comparisons(s'.log, other) == Comparisons(s.log, other))
        && s'.log == s.log + [Compared(id, s.challenges[id].user, s.challenges[id].how, code, now, valid)]
        && There(s', id, now) && s'.challenges.Keys == s.challenges.Keys && s'.born == s.born
      else !valid && s' == s.(challenges := s.challenges - {id})
  {
    var s := Run(INITIAL, ops, maxAttempts);
    ChallengesMatchHistory(ops, maxAttempts);
    RunKeeps(INITIAL, ops, maxAttempts);
    if now <= s.born[id] + 300.0 && Comparisons(s.log, id) < maxAttempts {
      var (s', valid) := Verify(s, id, code, totpOk, now);
      var e := Compared(id, s.challenges[id].user, s.challenges[id].how, code, now, valid);
      LastSaveStep(s.log, e, id, s.born[id]);
      forall other ensures Comparisons(s'.log, other) == Comparisons(s.log, other) + (if other == id then 1 else 0) {
        LogStep(s.log, e, other, "");
      }
      assert s'.challenges.Keys == s.challenges.Keys;
    }
  }

  /** The answer and its effect, by the method and user of the creation: the code check if
      the setup then in force gave a secret; or the backup codes the user holds now, of which
      one copy of the accepted code is spent. Nothing else about anyone changes. */
  ghost predicate AnswersBy(how: Method, user: string, secret: Option<string>, s: State, code: string, totpOk: bool, s': State, valid: bool) {
    && (valid <==> (how == Totp && secret != Some("") && totpOk) || (how == BackupCode && Held(s.configs, user)[code] > 0))
    && (if valid && how == BackupCode
        then && Held(s'.configs, user) + multiset{code} == Held(s.configs, user)
             && forall u :: u != user ==> Held(s'.configs, u) == Held(s.configs, u)
        else s'.configs == s.configs)
  }

  /** And it answers, at the first attempt as at the last, by the method it was created with. */
  lemma EveryAttemptAnswers(ops: seq<Op>, maxAttempts: nat, id: string, code: string, totpOk: bool, now: real)
    requires Runs(INITIAL, ops, maxAttempts) && There(Run(INITIAL, ops, maxAttempts), id, now)
    requires var s := Run(INITIAL, ops, maxAttempts);
      now <= s.born[id] + 300.0 && Comparisons(s.log, id) < maxAttempts
    ensures var s := Run(INITIAL, ops, maxAttempts);
      var (s', valid) := Verify(s, id, code, totpOk, now);
      exists i :: 0 <= i < |ops| && ops[i].OpCreate? && ops[i].id == id && ops[i].now == s.born[id] && On(ops[..i], ops[i].user)
        && AnswersBy(ops[i].how, ops[i].user, SecretOf(ops[..i], ops[i].user), s, code, totpOk, s', valid)
  {
    var s := Run(INITIAL, ops, maxAttempts);
    var (s', valid) := Verify(s, id, code, totpOk, now);
    ChallengesMatchHistory(ops, maxAttempts);
    RunKeeps(INITIAL, ops, maxAttempts);
    var c := s.challenges[id];
    var i: nat :| StemsFrom(ops, i, id, c, s.born[id]);
    assert ops[i] == OpCreate(c.user, c.how, id, s.born[id]);
    MatchesAnswers(s, c, SecretOf(ops[..i], c.user), code, totpOk);
    assert AnswersBy(c.how, c.user, SecretOf(ops[..i], c.user), s, code, totpOk, s', valid);
  }

  lemma MatchesAnswers(s: State, c: Challenge, secret: Option<string>, code: string, totpOk: bool)
    requires c.how == Totp ==> c.secret == secret && secret.Some?
    ensures var valid := Matches(s, c, code, totpOk);
      forall s': State :: s'.configs == (if valid && c.how == BackupCode then SpendCode(s.configs, c.user, code) else s.configs) ==>
        AnswersBy(c.how, c.user, secret, s, code, totpOk, s', valid)
  {
    if c.user in s.configs && code in s.configs[c.user].backupCodes {
      RemoveFirstCount(s.configs[c.user].backupCodes, code);
    }
  }
}
