/** The Redis lease lock: `SET NX EX` to acquire, then `GET` and a separate `DELETE`
    to release, as interleaved steps of any number of clients. */
module LeaseLock {
  import opened Common

  datatype Lease = Lease(token: nat, expiry: real)

  /** Where a client is in its protected section. */
  datatype Phase =
    | Holding(key: string, token: nat, leaseEnd: real)   // acquired, or overrunning its lease
    | Matched(key: string, token: nat, leaseEnd: real)   // its GET returned its own token

  datatype State = State(locks: map<string, Lease>, clients: map<nat, Phase>, used: set<nat>, clock: real)

  datatype Action =
    | Acquire(client: nat, key: string, token: nat, ttl: real)
    | ReadBack(client: nat)
    | Release(client: nat)

  datatype Step = At(now: real, action: Action)

  predicate Live(s: State, key: string, now: real) {
    key in s.locks && now < s.locks[key].expiry
  }

  /** Tokens are never drawn twice; a client runs one section at a time. */
  predicate Enabled(s: State, step: Step) {
    && s.clock <= step.now
    && match step.action
       case Acquire(c, _, token, ttl) => c !in s.clients && token !in s.used && ttl > 0.0
       case ReadBack(c) => c in s.clients && s.clients[c].Holding?
       case Release(c) => c in s.clients && s.clients[c].Matched?
  }

  function Next(s: State, step: Step): State
    requires Enabled(s, step)
  {
    var s := s.(clock := step.now);
    match step.action
    case Acquire(c, key, token, ttl) =>
      if Live(s, key, step.now) then s.(used := s.used + {token})
      else
        s.(locks := s.locks[key := Lease(token, step.now + ttl)],
           clients := s.clients[c := Holding(key, token, step.now + ttl)],
           used := s.used + {token})
    case ReadBack(c) =>
      var p := s.clients[c];
      if Live(s, p.key, step.now) && s.locks[p.key].token == p.token
      then s.(clients := s.clients[c := Matched(p.key, p.token, p.leaseEnd)])
      else s.(clients := s.clients - {c})
    case Release(c) =>
      s.(locks := s.locks - {s.clients[c].key}, clients := s.clients - {c})
  }

  function Initial(clock: real): State {
    State(map[], map[], {}, clock)
  }

  /** The state after `steps`, when each is enabled in turn. */
  function Run(s: State, steps: seq<Step>): Option<State>
    decreases |steps|
  {
    if steps == [] then Some(s)
    else if Enabled(s, steps[0]) then Run(Next(s, steps[0]), steps[1..])
    else None
  }

  /** A matching `GET` is followed by its `DELETE` before that client's own lease ends. */
  predicate Timely(s: State, step: Step)
    requires Enabled(s, step)
  {
    step.action.Release? ==> step.now < s.clients[step.action.client].leaseEnd
  }

  /** A late `DELETE` does no harm as long as it finds no live lock. */
  predicate Harmless(s: State, step: Step)
    requires Enabled(s, step)
  {
    step.action.Release? ==> Timely(s, step) || !Live(s, s.clients[step.action.client].key, step.now)
  }

  /** The step removes a live lock that another client took. */
  predicate DeletesForeign(s: State, step: Step)
    requires Enabled(s, step)
  {
    && step.action.Release?
    && Live(s, s.clients[step.action.client].key, step.now)
    && s.locks[s.clients[step.action.client].key].token != s.clients[step.action.client].token
  }

  predicate AllTimely(s: State, steps: seq<Step>)
    requires Run(s, steps).Some?
    decreases |steps|
  {
    steps == [] || (Timely(s, steps[0]) && AllTimely(Next(s, steps[0]), steps[1..]))
  }

  predicate AllHarmless(s: State, steps: seq<Step>)
    requires Run(s, steps).Some?
    decreases |steps|
  {
    steps == [] || (Harmless(s, steps[0]) && AllHarmless(Next(s, steps[0]), steps[1..]))
  }

  predicate NoneForeign(s: State, steps: seq<Step>)
    requires Run(s, steps).Some?
    decreases |steps|
  {
    steps == [] || (!DeletesForeign(s, steps[0]) && NoneForeign(Next(s, steps[0]), steps[1..]))
  }

  // ----- safety -----

  /** The client's lease has not expired. */
  predicate Holds(s: State, c: nat, key: string, now: real) {
    c in s.clients && s.clients[c].key == key && now < s.clients[c].leaseEnd
  }

  /** At most one client holds an unexpired, unreleased lease on a key. */
  ghost predicate Exclusive(s: State, now: real) {
    forall c, d, key :: Holds(s, c, key, now) && Holds(s, d, key, now) ==> c == d
  }

  /** While a client's lease runs, the lock in Redis is its own. */
  ghost predicate Inv(s: State) {
    && (forall c :: c in s.clients ==> s.clients[c].token in s.used)
    && (forall k :: k in s.locks ==> s.locks[k].token in s.used)
    && (forall c, d :: c in s.clients && d in s.clients && s.clients[c].token == s.clients[d].token ==> c == d)
    && (forall c :: c in s.clients && s.clock < s.clients[c].leaseEnd ==>
          s.clients[c].key in s.locks && s.locks[s.clients[c].key] == Lease(s.clients[c].token, s.clients[c].leaseEnd))
    && (forall c :: c in s.clients && s.clients[c].key in s.locks && s.locks[s.clients[c].key].token == s.clients[c].token ==>
          s.locks[s.clients[c].key].expiry == s.clients[c].leaseEnd)
  }

  lemma InvGivesExclusion(s: State, now: real)
    requires Inv(s) && s.clock <= now
    ensures Exclusive(s, now)
  {
  }

  lemma StepKeeps(s: State, step: Step)
    requires Inv(s) && Enabled(s, step) && Harmless(s, step)
    ensures Inv(Next(s, step))
  {
    var s' := Next(s, step);
    if step.action.Acquire? && !Live(s, step.action.key, step.now) {
      var key := step.action.key;
      assert forall c :: c in s.clients && s.clients[c].key == key ==> s.clients[c].leaseEnd <= step.now;
    }
  }

  lemma {:induction false} RunKeeps(s: State, steps: seq<Step>)
    requires Inv(s) && Run(s, steps).Some? && AllHarmless(s, steps)
    ensures Inv(Run(s, steps).value)
    decreases |steps|
  {
    if steps != [] {
      StepKeeps(s, steps[0]);
      RunKeeps(Next(s, steps[0]), steps[1..]);
    }
  }

  /** Mutual exclusion in every state reached by harmless releases and at every later
      instant until the next step, even when protected sections overrun their leases. */
  lemma MutualExclusion(clock: real, steps: seq<Step>, now: real)
    requires Run(Initial(clock), steps).Some? && Run(Initial(clock), steps).value.clock <= now
    requires AllHarmless(Initial(clock), steps)
    ensures Exclusive(Run(Initial(clock), steps).value, now)
  {
    RunKeeps(Initial(clock), steps);
    InvGivesExclusion(Run(Initial(clock), steps).value, now);
  }

  lemma {:induction false} TimelyIsHarmless(s: State, steps: seq<Step>)
    requires Run(s, steps).Some? && AllTimely(s, steps)
    ensures AllHarmless(s, steps)
    decreases |steps|
  {
    if steps != [] {
      TimelyIsHarmless(Next(s, steps[0]), steps[1..]);
    }
  }

  /** While the invariant holds, a release is foreign exactly when it is harmful: its own
      lease has ended and the key is locked again. */
  lemma ForeignIsHarmful(s: State, step: Step)
    requires Inv(s) && Enabled(s, step)
    ensures DeletesForeign(s, step) <==> !Harmless(s, step)
  {
  }

  lemma {:induction false} HarmlessIffNoneForeign(s: State, steps: seq<Step>)
    requires Inv(s) && Run(s, steps).Some?
    ensures NoneForeign(s, steps) <==> AllHarmless(s, steps)
    decreases |steps|
  {
    if steps != [] {
      ForeignIsHarmful(s, steps[0]);
      if Harmless(s, steps[0]) {
        StepKeeps(s, steps[0]);
        HarmlessIffNoneForeign(Next(s, steps[0]), steps[1..]);
      }
    }
  }

  /** Over every run, whatever its timing: no release ever deletes another client's live
      lock if and only if every release finds its own lease running or its key unlocked. */
  lemma ForeignDeleteExactly(clock: real, steps: seq<Step>)
    requires Run(Initial(clock), steps).Some?
    ensures NoneForeign(Initial(clock), steps) <==> AllHarmless(Initial(clock), steps)
  {
    HarmlessIffNoneForeign(Initial(clock), steps);
  }

  /** In every state reached by harmless releases a timely release deletes the client's
      own live lock, frees the key at once and touches no other key. */
  lemma TimelyReleaseIsOwn(clock: real, steps: seq<Step>, step: Step)
    requires Run(Initial(clock), steps).Some? && AllHarmless(Initial(clock), steps)
    requires var s := Run(Initial(clock), steps).value;
      Enabled(s, step) && Timely(s, step) && step.action.Release?
    ensures var s := Run(Initial(clock), steps).value;
      var p, s' := s.clients[step.action.client], Next(s, step);
      && Live(s, p.key, step.now) && s.locks[p.key] == Lease(p.token, p.leaseEnd)
      && !Live(s', p.key, step.now)
      && (forall k :: k != p.key ==> (k in s'.locks <==> k in s.locks) && (k in s.locks ==> s'.locks[k] == s.locks[k]))
  {
    RunKeeps(Initial(clock), steps);
  }

  /** Each release comes at once after its own `GET`, with no step between. */
  predicate AtOnce(last: Option<Step>, steps: seq<Step>)
    decreases |steps|
  {
    steps == [] ||
    (&& (steps[0].action.Release? ==> last == Some(At(steps[0].now, ReadBack(steps[0].action.client))))
     && AtOnce(Some(steps[0]), steps[1..]))
  }

  /** A `GET` matches exactly the client's own live lock; after any other it gives up. */
  ghost predicate JustMatched(last: Option<Step>, s: State) {
    last.Some? && last.value.action.ReadBack? ==>
      && s.clock == last.value.now
      && var c := last.value.action.client;
         c in s.clients && s.clients[c].Matched? ==>
           Live(s, s.clients[c].key, s.clock) && s.locks[s.clients[c].key].token == s.clients[c].token
  }

  lemma AtOnceIsHarmless(last: Option<Step>, s: State, step: Step)
    requires Inv(s) && JustMatched(last, s) && Enabled(s, step)
    requires step.action.Release? ==> last == Some(At(step.now, ReadBack(step.action.client)))
    ensures Harmless(s, step) && !DeletesForeign(s, step)
    ensures JustMatched(Some(step), Next(s, step))
  {
  }

  lemma {:induction false} RunAtOnce(last: Option<Step>, s: State, steps: seq<Step>)
    requires Inv(s) && JustMatched(last, s) && Run(s, steps).Some? && AtOnce(last, steps)
    ensures AllHarmless(s, steps) && NoneForeign(s, steps)
    decreases |steps|
  {
    if steps != [] {
      AtOnceIsHarmless(last, s, steps[0]);
      StepKeeps(s, steps[0]);
      RunAtOnce(Some(steps[0]), Next(s, steps[0]), steps[1..]);
    }
  }

  /** A release that were one atomic step would be enough: then exclusion holds in every run,
      however far protected sections overrun their leases. */
  lemma AtomicReleasesSuffice(clock: real, steps: seq<Step>, now: real)
    requires Run(Initial(clock), steps).Some? && Run(Initial(clock), steps).value.clock <= now
    requires AtOnce(None, steps)
    ensures NoneForeign(Initial(clock), steps) && Exclusive(Run(Initial(clock), steps).value, now)
  {
    RunAtOnce(None, Initial(clock), steps);
    MutualExclusion(clock, steps, now);
  }

  // ----- why the condition is needed -----

  /** Every live lock has its owner among the clients. */
  ghost predicate Owned(s: State) {
    forall k :: Live(s, k, s.clock) ==> exists c :: Owns(s, c, k)
  }

  predicate Owns(s: State, c: nat, key: string) {
    && c in s.clients && key in s.locks
    && s.clients[c].key == key && s.clients[c].token == s.locks[key].token && s.clients[c].leaseEnd == s.locks[key].expiry
  }

  lemma StepKeepsOwned(s: State, step: Step)
    requires Inv(s) && Owned(s) && Enabled(s, step) && Harmless(s, step)
    ensures Owned(Next(s, step))
  {
    var s' := Next(s, step);
    forall k | Live(s', k, s'.clock) ensures exists c :: Owns(s', c, k) {
      if step.action.Acquire? && !Live(s, step.action.key, step.now) && k == step.action.key {
        assert Owns(s', step.action.client, k);
      } else {
        assert Live(s, k, s.clock);
        var c :| Owns(s, c, k);
        assert Owns(s', c, k);
      }
    }
  }

  lemma {:induction false} RunKeepsOwned(s: State, steps: seq<Step>)
    requires Inv(s) && Owned(s) && Run(s, steps).Some? && AllHarmless(s, steps)
    ensures Owned(Run(s, steps).value)
    decreases |steps|
  {
    if steps != [] {
      StepKeeps(s, steps[0]);
      StepKeepsOwned(s, steps[0]);
      RunKeepsOwned(Next(s, steps[0]), steps[1..]);
    }
  }

  /** After any run of harmless releases, one harmful release lets any new client acquire
      the lock while its owner's lease still runs: exclusion is lost. */
  lemma HarmfulReleaseBreaksExclusion(clock: real, steps: seq<Step>, step: Step, newcomer: nat, token: nat, ttl: real)
    requires Run(Initial(clock), steps).Some? && AllHarmless(Initial(clock), steps)
    requires Enabled(Run(Initial(clock), steps).value, step) && !Harmless(Run(Initial(clock), steps).value, step)
    requires newcomer !in Run(Initial(clock), steps).value.clients && token !in Run(Initial(clock), steps).value.used && ttl > 0.0
    ensures var s := Run(Initial(clock), steps).value;
      var key := s.clients[step.action.client].key;
      var acquire := At(step.now, Acquire(newcomer, key, token, ttl));
      && Enabled(Next(s, step), acquire)
      && !Exclusive(Next(Next(s, step), acquire), step.now)
  {
    RunKeeps(Initial(clock), steps);
    RunKeepsOwned(Initial(clock), steps);
    var s := Run(Initial(clock), steps).value;
    var key := s.clients[step.action.client].key;
    assert Live(s, key, s.clock);
    var owner :| Owns(s, owner, key);
    var s' := Next(s, step);
    var s'' := Next(s', At(step.now, Acquire(newcomer, key, token, ttl)));
    assert Holds(s'', owner, key, step.now) && Holds(s'', newcomer, key, step.now);
  }

  /** A harmful release is possible at all. */
  lemma LateReleaseRuns(key: string, ttl: real)
    requires ttl > 0.0
    ensures var end := Run(Initial(0.0), LateReleaseRun(key, ttl));
      && end.Some? && AllHarmless(Initial(0.0), LateReleaseRun(key, ttl))
      && Enabled(end.value, At(ttl, Release(0))) && !Harmless(end.value, At(ttl, Release(0)))
  {
    var a, b, c := At(0.0, Acquire(0, key, 0, ttl)), At(0.0, ReadBack(0)), At(ttl, Acquire(1, key, 1, ttl));
    assert LateReleaseRun(key, ttl)[1..] == [b, c] && [b, c][1..] == [c] && [c][1..] == [];
    var s1 := Next(Initial(0.0), a);
    var s2 := Next(s1, b);
    var s := Next(s2, c);
    assert Run(s, []) == Some(s);
    assert Run(s2, [c]) == Some(s);
    assert Run(s1, [b, c]) == Some(s);
    assert AllHarmless(s, []);
    assert AllHarmless(s2, [c]);
    assert AllHarmless(s1, [b, c]);
  }

  function LateReleaseRun(key: string, ttl: real): seq<Step> {
    [At(0.0, Acquire(0, key, 0, ttl)), At(0.0, ReadBack(0)), At(ttl, Acquire(1, key, 1, ttl))]
  }
}
