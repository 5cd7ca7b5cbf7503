/** Password-reset tokens. A reset call verifies the stored record, then commits the
    new password, then marks the token used; each of the three is a step of its own, and
    a call that fails half-way simply takes no further step. */
module PasswordReset {
  import opened Common

  datatype Info = Info(expiresAt: real, used: bool, keyExpiry: real)

  /** How far a reset call has come. */
  datatype Call =
    | Verified(token: string, expiresAt: real)   // the token was accepted
    | Stored(token: string, expiresAt: real)     // the password is committed, the mark is not yet set

  /** `issued` are all tokens ever handed out, `resets` the committed resets in order,
      `marked` the tokens marked used by some call. */
  datatype State = State(
    store: map<string, Info>, issued: set<string>, calls: map<nat, Call>, resets: seq<string>, marked: set<string>)

  const LIFETIME := 3600.0

  datatype Action =
    | Issue(token: string)
    | Verify(p: nat, token: string, signatureOk: bool)
    | GiveUp(p: nat)            // password too short, or the user is gone
    | Commit(p: nat)
    | Mark(p: nat)
    | Drop(tokens: set<string>) // cleanup of expired tokens, invalidation of a user's tokens

  datatype Step = At(now: real, action: Action)

  predicate KeyAlive(s: State, token: string, now: real) {
    token in s.store && now < s.store[token].keyExpiry
  }

  predicate Accepts(s: State, token: string, signatureOk: bool, now: real) {
    && signatureOk
    && KeyAlive(s, token, now)
    && now <= s.store[token].expiresAt
    && !s.store[token].used
  }

  /** Tokens are never issued twice. */
  predicate Enabled(s: State, step: Step) {
    match step.action
    case Issue(token) => token !in s.issued
    case Verify(p, _, _) => p !in s.calls
    case GiveUp(p) => p in s.calls && s.calls[p].Verified?
    case Commit(p) => p in s.calls && s.calls[p].Verified?
    case Mark(p) => p in s.calls && s.calls[p].Stored?
    case Drop(_) => true
  }

  function Next(s: State, step: Step): State
    requires Enabled(s, step)
  {
    var now := step.now;
    match step.action
    case Issue(token) =>
      s.(store := s.store[token := Info(now + LIFETIME, false, now + LIFETIME)], issued := s.issued + {token})
    case Verify(p, token, ok) =>
      if Accepts(s, token, ok, now) then s.(calls := s.calls[p := Verified(token, s.store[token].expiresAt)])
      else if ok && KeyAlive(s, token, now) && now > s.store[token].expiresAt then s.(store := s.store - {token})
      else s
    case GiveUp(p) => s.(calls := s.calls - {p})
    case Commit(p) =>
      var c := s.calls[p];
      s.(calls := s.calls[p := Stored(c.token, c.expiresAt)], resets := s.resets + [c.token])
    case Mark(p) =>
      var c := s.calls[p];
      s.(store := s.store[c.token := Info(c.expiresAt, true, now + LIFETIME)],
         calls := s.calls - {p}, marked := s.marked + {c.token})
    case Drop(tokens) => s.(store := s.store - tokens)
  }

  const INITIAL := State(map[], {}, map[], [], {})

  function Run(s: State, steps: seq<Step>): Option<State>
    decreases |steps|
  {
    if steps == [] then Some(s)
    else if Enabled(s, steps[0]) then Run(Next(s, steps[0]), steps[1..])
    else None
  }

  /** Some call holds a ticket for the token. */
  predicate Pending(s: State, token: string) {
    exists p :: p in s.calls && s.calls[p].token == token
  }

  /** Some call has committed a reset with the token and not marked it yet. */
  predicate AwaitsMark(s: State, token: string) {
    exists p :: p in s.calls && s.calls[p].Stored? && s.calls[p].token == token
  }

  // ----- a used token -----

  ghost predicate Inv(s: State) {
    && (forall t :: t in s.resets ==> t in s.issued && (t in s.marked || AwaitsMark(s, t)))
    && (forall t :: t in s.store ==> t in s.issued && (s.store[t].used <==> t in s.marked))
    && (forall t :: t in s.store && !s.store[t].used ==> s.store[t].expiresAt == s.store[t].keyExpiry)
    && (forall p :: p in s.calls ==> s.calls[p].token in s.issued && (s.calls[p].Stored? ==> s.calls[p].token in s.resets))
    && (forall t :: t in s.marked ==> t in s.resets)
  }

  lemma StepKeeps(s: State, step: Step)
    requires Inv(s) && Enabled(s, step)
    ensures Inv(Next(s, step))
  {
    var s' := Next(s, step);
    forall t | t in s'.resets ensures t in s'.issued && (t in s'.marked || AwaitsMark(s', t)) {
      if t in s.resets {
        if t !in s.marked && t !in s'.marked {
          var p :| p in s.calls && s.calls[p].Stored? && s.calls[p].token == t;
          assert p in s'.calls && s'.calls[p] == s.calls[p];
        }
      } else {
        assert step.action.Commit? && s'.calls[step.action.p] == Stored(t, s.calls[step.action.p].expiresAt);
      }
    }
  }

  lemma {:induction false} RunKeeps(s: State, steps: seq<Step>)
    requires Inv(s) && Run(s, steps).Some?
    ensures Inv(Run(s, steps).value)
    decreases |steps|
  {
    if steps != [] {
      StepKeeps(s, steps[0]);
      RunKeeps(Next(s, steps[0]), steps[1..]);
    }
  }

  /** Whatever the interleaving, a token that has reset a password is still accepted
      exactly while its key lives and no call has marked it; and then some call has
      committed its reset and not reached its mark. */
  lemma UsedIsAcceptedExactly(steps: seq<Step>, token: string, now: real)
    requires Run(INITIAL, steps).Some? && token in Run(INITIAL, steps).value.resets
    ensures var s := Run(INITIAL, steps).value;
      && (Accepts(s, token, true, now) <==> KeyAlive(s, token, now) && token !in s.marked)
      && (token !in s.marked ==> AwaitsMark(s, token))
  {
    RunKeeps(INITIAL, steps);
  }

  /** A token that a call has marked is never accepted again, however the run goes on. */
  lemma MarkedStaysUsed(steps: seq<Step>, more: seq<Step>, token: string, ok: bool, now: real)
    requires Run(INITIAL, steps).Some? && token in Run(INITIAL, steps).value.marked
    requires Run(Run(INITIAL, steps).value, more).Some?
    ensures !Accepts(Run(Run(INITIAL, steps).value, more).value, token, ok, now)
  {
    RunKeeps(INITIAL, steps);
    RunKeeps(Run(INITIAL, steps).value, more);
    MarksStay(Run(INITIAL, steps).value, more);
  }

  lemma {:induction false} MarksStay(s: State, steps: seq<Step>)
    requires Run(s, steps).Some?
    ensures s.marked <= Run(s, steps).value.marked
    decreases |steps|
  {
    if steps != [] {
      MarksStay(Next(s, steps[0]), steps[1..]);
    }
  }

  // ----- how often a token resets -----

  function Resets(resets: seq<string>, token: string): nat {
    if resets == [] then 0
    else Resets(resets[..|resets| - 1], token) + (if resets[|resets| - 1] == token then 1 else 0)
  }

  /** The step does not accept `token` while another call holds it. Calls for other
      tokens may overlap freely. */
  predicate Apart(token: string, s: State, step: Step) {
    step.action.Verify? && step.action.token == token && Accepts(s, token, step.action.signatureOk, step.now) ==>
      !Pending(s, token)
  }

  predicate AllApart(token: string, s: State, steps: seq<Step>)
    requires Run(s, steps).Some?
    decreases |steps|
  {
    steps == [] || (Apart(token, s, steps[0]) && AllApart(token, Next(s, steps[0]), steps[1..]))
  }

  /** At most one call holds the token, and its progress says whether it has reset yet. */
  ghost predicate OnceInv(token: string, s: State) {
    Inv(s) && OneHolder(token, s.calls, s.resets)
  }

  ghost predicate OneHolder(token: string, calls: map<nat, Call>, resets: seq<string>) {
    && (forall p, q :: p in calls && q in calls && calls[p].token == token == calls[q].token ==> p == q)
    && (forall p :: p in calls && calls[p].Verified? && calls[p].token == token ==> token !in resets)
    && Resets(resets, token) == (if token in resets then 1 else 0)
  }

  lemma ResetsSnoc(resets: seq<string>, t: string, token: string)
    ensures Resets(resets + [t], token) == Resets(resets, token) + (if t == token then 1 else 0)
  {
    assert (resets + [t])[..|resets|] == resets;
  }

  lemma CommitKeepsHolder(token: string, calls: map<nat, Call>, resets: seq<string>, p: nat)
    requires OneHolder(token, calls, resets) && p in calls && calls[p].Verified?
    ensures OneHolder(token, calls[p := Stored(calls[p].token, calls[p].expiresAt)], resets + [calls[p].token])
  {
    ResetsSnoc(resets, calls[p].token, token);
  }

  lemma StepKeepsOnce(token: string, s: State, step: Step)
    requires OnceInv(token, s) && Enabled(s, step) && Apart(token, s, step)
    ensures OnceInv(token, Next(s, step))
  {
    StepKeeps(s, step);
    if step.action.Commit? {
      CommitKeepsHolder(token, s.calls, s.resets, step.action.p);
    }
    if step.action.Verify? && step.action.token == token && Accepts(s, token, step.action.signatureOk, step.now) {
      assert token in s.resets ==> AwaitsMark(s, token);
    }
  }

  lemma {:induction false} RunKeepsOnce(token: string, s: State, steps: seq<Step>)
    requires OnceInv(token, s) && Run(s, steps).Some? && AllApart(token, s, steps)
    ensures OnceInv(token, Run(s, steps).value)
    decreases |steps|
  {
    if steps != [] {
      StepKeepsOnce(token, s, steps[0]);
      RunKeepsOnce(token, Next(s, steps[0]), steps[1..]);
    }
  }

  /** In every run that never accepts a token while another call holds it, that token
      resets at most one password. */
  lemma TokenResetsOnce(token: string, steps: seq<Step>)
    requires Run(INITIAL, steps).Some? && AllApart(token, INITIAL, steps)
    ensures Resets(Run(INITIAL, steps).value.resets, token) <= 1
  {
    RunKeepsOnce(token, INITIAL, steps);
  }

  /** Some run from `s`, itself without overlapping acceptances of the token, gets it to
      reset twice. */
  ghost predicate SecondResetReachable(token: string, s: State) {
    exists more :: Run(s, more).Some? && AllApart(token, s, more) && Resets(Run(s, more).value.resets, token) >= 2
  }

  /** The first overlapping acceptance makes a second reset reachable, and nothing else
      does. */
  lemma SecondResetExactly(token: string, steps: seq<Step>, step: Step)
    requires Run(INITIAL, steps).Some? && AllApart(token, INITIAL, steps)
    requires Enabled(Run(INITIAL, steps).value, step)
    ensures SecondResetReachable(token, Next(Run(INITIAL, steps).value, step))
       <==> !Apart(token, Run(INITIAL, steps).value, step)
  {
    var s := Run(INITIAL, steps).value;
    RunKeepsOnce(token, INITIAL, steps);
    if Apart(token, s, step) {
      StepKeepsOnce(token, s, step);
      forall more | Run(Next(s, step), more).Some? && AllApart(token, Next(s, step), more)
        ensures Resets(Run(Next(s, step), more).value.resets, token) <= 1
      {
        RunKeepsOnce(token, Next(s, step), more);
      }
    } else {
      var holder :| holder in s.calls && s.calls[holder].token == token;
      BothCommit(token, Next(s, step), holder, step.action.p, step.now);
    }
  }

  /** Two calls that hold a token can both commit a reset with it. */
  lemma BothCommit(token: string, s: State, p: nat, q: nat, now: real)
    requires p in s.calls && q in s.calls && p != q && s.calls[p].token == token == s.calls[q].token
    requires s.calls[q].Verified? && (s.calls[p].Stored? ==> Resets(s.resets, token) >= 1)
    ensures SecondResetReachable(token, s)
  {
    var first, second := At(now, Commit(p)), At(now, Commit(q));
    if s.calls[p].Stored? {
      CommitOne(token, s, second);
    } else {
      var s1 := Next(s, first);
      var s2 := Next(s1, second);
      ResetsSnoc(s.resets, token, token);
      ResetsSnoc(s1.resets, token, token);
      var more := [first, second];
      assert more[1..] == [second] && [second][1..] == [];
      assert Run(s2, []) == Some(s2) && AllApart(token, s2, []);
      assert Run(s1, [second]) == Some(s2) && AllApart(token, s1, [second]);
      assert Run(s, more) == Some(s2) && AllApart(token, s, more);
    }
  }

  lemma CommitOne(token: string, s: State, commit: Step)
    requires Enabled(s, commit) && commit.action.Commit? && s.calls[commit.action.p].token == token
    requires Resets(s.resets, token) >= 1
    ensures SecondResetReachable(token, s)
  {
    var s1 := Next(s, commit);
    ResetsSnoc(s.resets, token, token);
    assert [commit][1..] == [];
    assert Run(s1, []) == Some(s1) && AllApart(token, s1, []);
    assert Run(s, [commit]) == Some(s1) && AllApart(token, s, [commit]);
  }

  /** Such an acceptance is possible: two calls verify a fresh token one after the other. */
  lemma OverlapResetsTwice(token: string)
    ensures var steps := [At(0.0, Issue(token)), At(1.0, Verify(0, token, true))];
      var s := Run(INITIAL, steps);
      && s.Some? && AllApart(token, INITIAL, steps) && Enabled(s.value, At(1.0, Verify(1, token, true)))
      && SecondResetReachable(token, Next(s.value, At(1.0, Verify(1, token, true))))
  {
    var a, b, c := At(0.0, Issue(token)), At(1.0, Verify(0, token, true)), At(1.0, Verify(1, token, true));
    var s1 := Next(INITIAL, a);
    var s2 := Next(s1, b);
    assert s2.calls[0] == Verified(token, LIFETIME);
    assert [a, b][1..] == [b] && [b][1..] == [];
    assert Run(s2, []) == Some(s2) && AllApart(token, s2, []);
    assert Run(s1, [b]) == Some(s2) && AllApart(token, s1, [b]);
    assert Run(INITIAL, [a, b]) == Some(s2) && AllApart(token, INITIAL, [a, b]);
    assert Pending(s2, token);
    SecondResetExactly(token, [a, b], c);
  }

  // ----- how long a token lasts -----

  /** Its record and the calls that hold it carry this deadline. */
  ghost predicate Dated(s: State, token: string, deadline: real) {
    && (token in s.store ==> s.store[token].expiresAt == deadline)
    && (forall p :: p in s.calls && s.calls[p].token == token ==> s.calls[p].expiresAt == deadline)
  }

  predicate Drops(step: Step, token: string) {
    step.action.Drop? && token in step.action.tokens
  }

  lemma StepDates(s: State, step: Step, token: string, deadline: real)
    requires Inv(s) && Enabled(s, step) && token in s.issued && Dated(s, token, deadline)
    ensures token in Next(s, step).issued && Dated(Next(s, step), token, deadline)
    ensures (token in s.store || token in s.marked) && !Drops(step, token) ==>
      token in Next(s, step).store || token in Next(s, step).marked
  {
  }

  lemma {:induction false} RunDates(s: State, steps: seq<Step>, token: string, deadline: real)
    requires Inv(s) && Run(s, steps).Some? && token in s.issued && Dated(s, token, deadline)
    ensures Inv(Run(s, steps).value) && Dated(Run(s, steps).value, token, deadline)
    ensures (token in s.store || token in s.marked) && (forall i :: 0 <= i < |steps| ==> !Drops(steps[i], token)) ==>
      token in Run(s, steps).value.store || token in Run(s, steps).value.marked
    decreases |steps|
  {
    if steps != [] {
      StepDates(s, steps[0], token, deadline);
      StepKeeps(s, steps[0]);
      RunDates(Next(s, steps[0]), steps[1..], token, deadline);
    }
  }

  lemma {:induction false} RunPrefix(s: State, steps: seq<Step>, n: nat)
    requires Run(s, steps).Some? && n <= |steps|
    ensures Run(s, steps[..n]).Some? && Run(s, steps) == Run(Run(s, steps[..n]).value, steps[n..])
    decreases n
  {
    if n == 0 {
      assert steps[..0] == [] && steps[0..] == steps;
    } else {
      Slices(steps, n);
      RunPrefix(Next(s, steps[0]), steps[1..], n - 1);
    }
  }

  lemma Slices(steps: seq<Step>, n: nat)
    requires 0 < n <= |steps|
    ensures steps[..n][0] == steps[0] && steps[..n][1..] == steps[1..][..n - 1] && steps[n..] == steps[1..][n - 1..]
  {
  }

  /** However the steps interleave: a token whose signature holds is accepted exactly for 3600
      seconds from its issue, until a call marks it used or its record is dropped. */
  lemma AcceptedForAnHour(steps: seq<Step>, i: nat, token: string, signatureOk: bool, now: real)
    requires Run(INITIAL, steps).Some? && i < |steps| && steps[i].action == Issue(token)
    ensures var s := Run(INITIAL, steps).value;
      && (Accepts(s, token, signatureOk, now) <==>
            signatureOk && token in s.store && token !in s.marked && now < steps[i].now + 3600.0)
      && ((forall j :: i < j < |steps| ==> !Drops(steps[j], token)) ==> token in s.store || token in s.marked)
  {
    var before := Run(INITIAL, steps[..i]);
    RunPrefix(INITIAL, steps, i);
    RunKeeps(INITIAL, steps[..i]);
    assert steps[i..][0] == steps[i] && steps[i..][1..] == steps[i + 1..];
    var s := Next(before.value, steps[i]);
    StepKeeps(before.value, steps[i]);
    RunDates(s, steps[i + 1..], token, steps[i].now + 3600.0);
  }
}
