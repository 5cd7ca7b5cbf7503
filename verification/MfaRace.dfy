/** Overlapping verifications: a challenge and a configuration are read, changed and
    written back as a whole, so a write can undo what another call wrote in between. */
module MfaRace {
  import opened Common
  import opened Mfa

  // ----- backup codes of one user -----

  /** An accepted code and the list it was found in. */
  datatype Holding = Holding(code: string, read: seq<string>)

  /** `generated` are the codes as last generated, `spent` those accepted since. */
  datatype Codes = Codes(
    stored: seq<string>, generated: multiset<string>, spent: multiset<string>, calls: map<nat, Holding>)

  datatype CodeStep =
    | Load(p: nat, code: string)   // read the configuration and look the code up
    | Save(p: nat)                 // write the list read, without the code
    | Generate(codes: seq<string>) // new codes, or none when MFA is disabled

  predicate CodeEnabled(s: Codes, step: CodeStep) {
    match step
    case Load(p, _) => p !in s.calls
    case Save(p) => p in s.calls
    case Generate(_) => true
  }

  function CodeNext(s: Codes, step: CodeStep): Codes
    requires CodeEnabled(s, step)
  {
    match step
    case Load(p, code) => if code in s.stored then s.(calls := s.calls[p := Holding(code, s.stored)]) else s
    case Save(p) =>
      var h := s.calls[p];
      s.(stored := RemoveFirst(h.read, h.code), spent := s.spent + multiset{h.code}, calls := s.calls - {p})
    case Generate(codes) => s.(stored := codes, generated := multiset(codes), spent := multiset{})
  }

  predicate CodeRuns(s: Codes, steps: seq<CodeStep>)
    decreases |steps|
  {
    steps == [] || (CodeEnabled(s, steps[0]) && CodeRuns(CodeNext(s, steps[0]), steps[1..]))
  }

  /** The remaining and the accepted codes make up the generated ones. */
  predicate Conserved(s: Codes) {
    multiset(s.stored) + s.spent == s.generated
  }

  /** A save finds the codes it read, up to their order. */
  predicate CodeUndisturbed(s: Codes, step: CodeStep)
    requires CodeEnabled(s, step)
  {
    step.Save? ==> multiset(s.stored) == multiset(s.calls[step.p].read)
  }

  predicate AllCodeUndisturbed(s: Codes, steps: seq<CodeStep>)
    requires CodeRuns(s, steps)
    decreases |steps|
  {
    steps == [] || (CodeUndisturbed(s, steps[0]) && AllCodeUndisturbed(CodeNext(s, steps[0]), steps[1..]))
  }

  /** Conservation after every step. */
  predicate AlwaysConserved(s: Codes, steps: seq<CodeStep>)
    requires CodeRuns(s, steps)
    decreases |steps|
  {
    steps == [] || (Conserved(CodeNext(s, steps[0])) && AlwaysConserved(CodeNext(s, steps[0]), steps[1..]))
  }

  predicate CallsHold(s: Codes) {
    forall p :: p in s.calls ==> s.calls[p].code in s.calls[p].read
  }

  lemma StepConservesExactly(s: Codes, step: CodeStep)
    requires Conserved(s) && CallsHold(s) && CodeEnabled(s, step)
    ensures Conserved(CodeNext(s, step)) <==> CodeUndisturbed(s, step)
    ensures CallsHold(CodeNext(s, step))
  {
    if step.Save? {
      var h := s.calls[step.p];
      RemoveFirstCount(h.read, h.code);
      SpendBalances(multiset(RemoveFirst(h.read, h.code)), multiset(h.read), multiset(s.stored), h.code, s.spent, s.generated);
    }
  }

  lemma SpendBalances(left: multiset<string>, read: multiset<string>, stored: multiset<string>, code: string,
                      spent: multiset<string>, generated: multiset<string>)
    requires left + multiset{code} == read && stored + spent == generated
    ensures left + (spent + multiset{code}) == generated <==> stored == read
  {
    assert left + (spent + multiset{code}) == read + spent;
    if read + spent == stored + spent {
      forall x ensures read[x] == stored[x] {
        assert (read + spent)[x] == (stored + spent)[x];
      }
      assert read == stored;
    }
  }

  lemma {:induction false} ConservedIffUndisturbed(s: Codes, steps: seq<CodeStep>)
    requires Conserved(s) && CallsHold(s) && CodeRuns(s, steps)
    ensures AlwaysConserved(s, steps) <==> AllCodeUndisturbed(s, steps)
    decreases |steps|
  {
    if steps != [] {
      StepConservesExactly(s, steps[0]);
      if CodeUndisturbed(s, steps[0]) {
        ConservedIffUndisturbed(CodeNext(s, steps[0]), steps[1..]);
      }
    }
  }

  const NO_CODES := Codes([], multiset{}, multiset{}, map[])

  /** However verifications overlap: backup codes are conserved all along the run if and
      only if every save finds the codes it read. */
  lemma CodesConservedExactly(steps: seq<CodeStep>)
    requires CodeRuns(NO_CODES, steps)
    ensures AlwaysConserved(NO_CODES, steps) <==> AllCodeUndisturbed(NO_CODES, steps)
  {
    ConservedIffUndisturbed(NO_CODES, steps);
  }

  // ----- a code accepted more often than it was generated -----

  function CodeRun(s: Codes, steps: seq<CodeStep>): Codes
    requires CodeRuns(s, steps)
    decreases |steps|
  {
    if steps == [] then s else CodeRun(CodeNext(s, steps[0]), steps[1..])
  }

  /** A save finds at least the codes it read. */
  predicate CodeHarmless(s: Codes, step: CodeStep)
    requires CodeEnabled(s, step)
  {
    step.Save? ==> multiset(s.calls[step.p].read) <= multiset(s.stored)
  }

  predicate AllCodeHarmless(s: Codes, steps: seq<CodeStep>)
    requires CodeRuns(s, steps)
    decreases |steps|
  {
    steps == [] || (CodeHarmless(s, steps[0]) && AllCodeHarmless(CodeNext(s, steps[0]), steps[1..]))
  }

  predicate NotOverspent(s: Codes) {
    multiset(s.stored) + s.spent <= s.generated
  }

  lemma StepKeepsNotOverspent(s: Codes, step: CodeStep)
    requires NotOverspent(s) && CallsHold(s) && CodeEnabled(s, step) && CodeHarmless(s, step)
    ensures NotOverspent(CodeNext(s, step)) && CallsHold(CodeNext(s, step))
  {
    if step.Save? {
      var h := s.calls[step.p];
      RemoveFirstCount(h.read, h.code);
      SpendMovesOne(multiset(RemoveFirst(h.read, h.code)), multiset(h.read), h.code, s.spent);
      MoreCodes(multiset(h.read), multiset(s.stored), s.spent);
    }
  }

  lemma SpendMovesOne(left: multiset<string>, read: multiset<string>, code: string, spent: multiset<string>)
    requires left + multiset{code} == read
    ensures left + (spent + multiset{code}) == read + spent
  {
  }

  lemma MoreCodes(a: multiset<string>, b: multiset<string>, c: multiset<string>)
    requires a <= b
    ensures a + c <= b + c
  {
  }

  lemma {:induction false} HarmlessKeepsNotOverspent(s: Codes, steps: seq<CodeStep>)
    requires NotOverspent(s) && CallsHold(s) && CodeRuns(s, steps) && AllCodeHarmless(s, steps)
    ensures NotOverspent(CodeRun(s, steps)) && CallsHold(CodeRun(s, steps))
    decreases |steps|
  {
    if steps != [] {
      StepKeepsNotOverspent(s, steps[0]);
      HarmlessKeepsNotOverspent(CodeNext(s, steps[0]), steps[1..]);
    }
  }

  /** In every run whose saves find at least the codes they read, no code is accepted more
      often than it was generated. */
  lemma CodesNotReused(steps: seq<CodeStep>, code: string)
    requires CodeRuns(NO_CODES, steps) && AllCodeHarmless(NO_CODES, steps)
    ensures CodeRun(NO_CODES, steps).spent[code] <= CodeRun(NO_CODES, steps).generated[code]
  {
    HarmlessKeepsNotOverspent(NO_CODES, steps);
    var s := CodeRun(NO_CODES, steps);
    assert (multiset(s.stored) + s.spent)[code] <= s.generated[code];
  }

  lemma {:induction false} UndisturbedKeepsConserved(s: Codes, steps: seq<CodeStep>)
    requires Conserved(s) && CallsHold(s) && CodeRuns(s, steps) && AllCodeUndisturbed(s, steps)
    ensures Conserved(CodeRun(s, steps)) && CallsHold(CodeRun(s, steps))
    decreases |steps|
  {
    if steps != [] {
      StepConservesExactly(s, steps[0]);
      UndisturbedKeepsConserved(CodeNext(s, steps[0]), steps[1..]);
    }
  }

  lemma {:induction false} UndisturbedIsHarmless(s: Codes, steps: seq<CodeStep>)
    requires CodeRuns(s, steps) && AllCodeUndisturbed(s, steps)
    ensures AllCodeHarmless(s, steps)
    decreases |steps|
  {
    if steps != [] {
      UndisturbedIsHarmless(CodeNext(s, steps[0]), steps[1..]);
    }
  }

  /** Some undisturbed run from `s` accepts a code more often than it was generated. */
  ghost predicate Overspendable(s: Codes) {
    exists more, code :: Overspends(s, more, code)
  }

  ghost predicate Overspends(s: Codes, more: seq<CodeStep>, code: string) {
    CodeRuns(s, more) && AllCodeUndisturbed(s, more) && CodeRun(s, more).spent[code] > CodeRun(s, more).generated[code]
  }

  lemma FreshId<T>(calls: map<nat, T>) returns (p: nat)
    ensures p !in calls
  {
    p := Above(calls.Keys);
  }

  /** Every remaining copy of a code can be spent, one call after another. */
  lemma Drain(s: Codes, code: string) returns (more: seq<CodeStep>)
    ensures CodeRuns(s, more) && AllCodeUndisturbed(s, more)
    ensures CodeRun(s, more).generated == s.generated
    ensures CodeRun(s, more).spent[code] == s.spent[code] + multiset(s.stored)[code]
    decreases multiset(s.stored)[code]
  {
    if code !in s.stored {
      more := [];
    } else {
      var p := FreshId(s.calls);
      var load, save := Load(p, code), Save(p);
      var s1 := CodeNext(s, load);
      var s2 := CodeNext(s1, save);
      RemoveFirstCount(s.stored, code);
      assert multiset(s2.stored)[code] + 1 == multiset(s.stored)[code];
      var rest := Drain(s2, code);
      more := [load, save] + rest;
      assert more[1..] == [save] + rest && ([save] + rest)[1..] == rest;
      assert CodeRuns(s1, [save] + rest) && AllCodeUndisturbed(s1, [save] + rest);
      assert CodeRun(s1, [save] + rest) == CodeRun(s2, rest);
    }
  }

  /** After any undisturbed run, a step makes it possible that a code is accepted more often
      than it was generated if and only if it is a save that puts back a code no longer
      stored. */
  lemma ReuseExactly(steps: seq<CodeStep>, step: CodeStep)
    requires CodeRuns(NO_CODES, steps) && AllCodeUndisturbed(NO_CODES, steps)
    requires CodeEnabled(CodeRun(NO_CODES, steps), step)
    ensures Overspendable(CodeNext(CodeRun(NO_CODES, steps), step)) <==> !CodeHarmless(CodeRun(NO_CODES, steps), step)
  {
    UndisturbedKeepsConserved(NO_CODES, steps);
    var s := CodeRun(NO_CODES, steps);
    var s' := CodeNext(s, step);
    if CodeHarmless(s, step) {
      StepKeepsNotOverspent(s, step);
      forall more, code ensures !Overspends(s', more, code) {
        if CodeRuns(s', more) && AllCodeUndisturbed(s', more) {
          UndisturbedIsHarmless(s', more);
          HarmlessKeepsNotOverspent(s', more);
          var end := CodeRun(s', more);
          assert (multiset(end.stored) + end.spent)[code] <= end.generated[code];
        }
      }
    } else {
      HarmfulSaveOverspends(s, step.p);
    }
  }

  lemma HarmfulSaveOverspends(s: Codes, p: nat)
    requires Conserved(s) && CallsHold(s) && p in s.calls && !(multiset(s.calls[p].read) <= multiset(s.stored))
    ensures Overspendable(CodeNext(s, Save(p)))
  {
    var h, s' := s.calls[p], CodeNext(s, Save(p));
    var code :| multiset(h.read)[code] > multiset(s.stored)[code];
    RemoveFirstCount(h.read, h.code);
    SpendMovesOne(multiset(s'.stored), multiset(h.read), h.code, s.spent);
    assert (multiset(s'.stored) + s'.spent)[code] == (multiset(h.read) + s.spent)[code];
    assert (multiset(s.stored) + s.spent)[code] == s.generated[code];
    var more := Drain(s', code);
    assert Overspends(s', more, code);
  }

  /** Such a save is possible: two calls that read a code before either saves both have it
      accepted. */
  lemma CodeAcceptedTwice(s: Codes, code: string, p: nat, q: nat)
    requires code in s.stored && p != q && p !in s.calls && q !in s.calls
    ensures var s1 := CodeNext(s, Load(p, code));
      var s2 := CodeNext(s1, Load(q, code));
      var s3 := CodeNext(s2, Save(p));
      var s4 := CodeNext(s3, Save(q));
      !CodeHarmless(s3, Save(q)) && s4.spent[code] == s.spent[code] + 2
  {
    RemoveFirstCount(s.stored, code);
    assert multiset(RemoveFirst(s.stored, code))[code] < multiset(s.stored)[code];
  }

  // ----- attempts at one challenge -----

  /** `stored` attempts in the saved challenge, codes `compared` so far, and the attempts
      each call read. */
  datatype Tries = Tries(stored: nat, compared: nat, calls: map<nat, nat>)

  datatype TryStep =
    | Read(p: nat)    // read the challenge; below the limit the code will be compared
    | Count(p: nat)   // save the challenge with one attempt more than was read

  predicate TryEnabled(s: Tries, step: TryStep, slots: nat) {
    match step
    case Read(p) => p !in s.calls && |s.calls| < slots
    case Count(p) => p in s.calls
  }

  function TryNext(s: Tries, step: TryStep, limit: nat): Tries
    requires step.Count? ==> step.p in s.calls
  {
    match step
    case Read(p) => if s.stored < limit then Tries(s.stored, s.compared + 1, s.calls[p := s.stored]) else s
    case Count(p) => Tries(s.calls[p] + 1, s.compared, s.calls - {p})
  }

  /** A save finds the count it read. */
  predicate TryUndisturbed(s: Tries, step: TryStep, slots: nat)
    requires TryEnabled(s, step, slots)
  {
    step.Count? ==> s.stored == s.calls[step.p]
  }

  /** The state after `steps`, each enabled in turn, and undisturbed when that is asked for. */
  function TryRun(s: Tries, steps: seq<TryStep>, limit: nat, slots: nat, undisturbed: bool): Option<Tries>
    decreases |steps|
  {
    if steps == [] then Some(s)
    else if TryEnabled(s, steps[0], slots) && (undisturbed ==> TryUndisturbed(s, steps[0], slots))
    then TryRun(TryNext(s, steps[0], limit), steps[1..], limit, slots, undisturbed)
    else None
  }

  lemma CallsSize(calls: map<nat, nat>, p: nat, n: nat)
    ensures p !in calls ==> |calls[p := n]| == |calls| + 1
    ensures p in calls ==> |calls - {p}| == |calls| - 1
  {
    assert |calls| == |calls.Keys|;
    if p in calls {
      assert (calls - {p}).Keys == calls.Keys - {p};
      assert |calls - {p}| == |(calls - {p}).Keys|;
    } else {
      assert calls[p := n].Keys == calls.Keys + {p};
      assert |calls[p := n]| == |calls[p := n].Keys|;
    }
  }

  const NO_TRIES := Tries(0, 0, map[])

  // ----- binomial coefficients -----

  function Binomial(n: nat, k: nat): nat {
    if k == 0 then 1 else if n == 0 then 0 else Binomial(n - 1, k - 1) + Binomial(n - 1, k)
  }

  /** Ways to place `s` of `x + s`; none for a negative `s`. */
  function Ways(x: nat, s: int): nat {
    if s < 0 then 0 else Binomial(x + s, s)
  }

  lemma {:induction false} BinomialDiagonal(n: nat)
    ensures Binomial(n, n) == 1 && forall k :: k > n ==> Binomial(n, k) == 0
  {
    if n > 0 {
      BinomialDiagonal(n - 1);
    }
  }

  lemma Pascal(x: nat, s: int)
    ensures s >= 0 ==> Ways(0, s) == 1
    ensures x > 0 && s >= 0 ==> Ways(x, s) == Ways(x - 1, s) + Ways(x, s - 1)
  {
    if s >= 0 {
      BinomialDiagonal(s);
    }
  }

  lemma {:induction false} WaysMonotone(x: nat, s: int, t: int)
    requires s <= t
    ensures Ways(x, s) <= Ways(x, t)
    decreases t - s
  {
    if s < t {
      Pascal(x, t);
      WaysMonotone(x, s, t - 1);
    }
  }

  lemma {:induction false} WaysOfOne(s: int)
    requires s >= -1
    ensures Ways(1, s) == s + 1
    decreases s + 1
  {
    if s >= 0 {
      Pascal(1, s);
      WaysOfOne(s - 1);
    }
  }

  // ----- how many comparisons overlapping calls can get, without any assumption -----

  function ReadersFrom(calls: map<nat, nat>, w: nat): set<nat> {
    set p | p in calls && calls[p] >= w
  }

  /** The slots that have come at least as far as `w` attempts: calls that read so many,
      and the free slots once so many are stored. */
  function Advanced(s: Tries, w: nat, slots: nat): int {
    |ReadersFrom(s.calls, w)| + (if s.stored >= w then slots - |s.calls| else 0)
  }

  /** What those slots have cost, level by level from `w` up to the limit. */
  function Cost(s: Tries, w: nat, limit: nat, slots: nat): nat
    decreases limit + 1 - w
  {
    if w > limit then 0 else Ways(limit - w + 1, Advanced(s, w, slots) - 1) + Cost(s, w + 1, limit, slots)
  }

  ghost predicate Paid(s: Tries, limit: nat, slots: nat) {
    && s.compared <= |s.calls| + Cost(s, 1, limit, slots)
    && |s.calls| <= slots
    && forall p :: p in s.calls ==> s.calls[p] < limit
  }

  lemma ReadAdvances(s: Tries, p: nat, w: nat, slots: nat)
    requires p !in s.calls
    ensures Advanced(Tries(s.stored, s.compared + 1, s.calls[p := s.stored]), w, slots) == Advanced(s, w, slots)
  {
    CallsSize(s.calls, p, s.stored);
    ReadersWith(s.calls, p, s.stored, w);
  }

  lemma ReadersWith(calls: map<nat, nat>, p: nat, n: nat, w: nat)
    requires p !in calls
    ensures |ReadersFrom(calls[p := n], w)| == |ReadersFrom(calls, w)| + (if n >= w then 1 else 0)
  {
    if n >= w {
      assert ReadersFrom(calls[p := n], w) == ReadersFrom(calls, w) + {p};
    } else {
      assert ReadersFrom(calls[p := n], w) == ReadersFrom(calls, w);
    }
  }

  lemma {:induction false} SameCost(s: Tries, t: Tries, w: nat, limit: nat, slots: nat)
    requires forall v :: Advanced(s, v, slots) == Advanced(t, v, slots)
    ensures Cost(s, w, limit, slots) == Cost(t, w, limit, slots)
    decreases limit + 1 - w
  {
    if w <= limit {
      SameCost(s, t, w + 1, limit, slots);
    }
  }

  /** The state after `Count(p)`. */
  function AfterCount(s: Tries, p: nat): Tries
    requires p in s.calls
  {
    Tries(s.calls[p] + 1, s.compared, s.calls - {p})
  }

  /** Saving the count of a call that read `r`: nothing is lost up to level `r`, level
      `r + 1` gains a slot, and above it no level had more slots than that one. */
  lemma CountAdvances(s: Tries, p: nat, w: nat, slots: nat)
    requires p in s.calls && |s.calls| <= slots
    ensures var r, t := s.calls[p], AfterCount(s, p);
      var c := |ReadersFrom(s.calls, r + 1)| + slots - |s.calls|;
      && (w <= r ==> Advanced(s, w, slots) <= Advanced(t, w, slots))
      && (w > r ==> Advanced(s, w, slots) <= c)
      && (w == r + 1 ==> Advanced(t, w, slots) == c + 1)
  {
    var r, calls := s.calls[p], s.calls - {p};
    CallsSize(s.calls, p, 0);
    if w <= r {
      assert ReadersFrom(s.calls, w) == ReadersFrom(calls, w) + {p};
    } else {
      assert ReadersFrom(calls, w) == ReadersFrom(s.calls, w);
      SubsetCardinality(ReadersFrom(s.calls, w), ReadersFrom(s.calls, r + 1));
    }
  }

  /** What the levels above `r + 1` can lose. */
  lemma {:induction false} CostLost(s: Tries, p: nat, w: nat, limit: nat, slots: nat, c: int)
    requires p in s.calls && |s.calls| <= slots && s.calls[p] + 1 < w <= limit + 1
    requires c == |ReadersFrom(s.calls, s.calls[p] + 1)| + slots - |s.calls|
    ensures Cost(s, w, limit, slots) + 1 <= Cost(AfterCount(s, p), w, limit, slots) + Ways(limit - w + 1, c)
    decreases limit + 1 - w
  {
    Pascal(limit - w + 1, c);
    if w <= limit {
      CountAdvances(s, p, w, slots);
      WaysMonotone(limit - w + 1, Advanced(s, w, slots) - 1, c - 1);
      CostLost(s, p, w + 1, limit, slots, c);
    }
  }

  /** Altogether a save gains at least one. */
  lemma {:induction false} CostGained(s: Tries, p: nat, w: nat, limit: nat, slots: nat)
    requires p in s.calls && |s.calls| <= slots && w <= s.calls[p] + 1 <= limit
    ensures Cost(s, w, limit, slots) + 1 <= Cost(AfterCount(s, p), w, limit, slots)
    decreases limit + 1 - w
  {
    var r := s.calls[p];
    CountAdvances(s, p, w, slots);
    if w == r + 1 {
      var c := |ReadersFrom(s.calls, r + 1)| + slots - |s.calls|;
      CostLost(s, p, w + 1, limit, slots, c);
      WaysMonotone(limit - w + 1, Advanced(s, w, slots) - 1, c - 1);
      Pascal(limit - w + 1, c);
    } else {
      WaysMonotone(limit - w + 1, Advanced(s, w, slots) - 1, Advanced(AfterCount(s, p), w, slots) - 1);
      CostGained(s, p, w + 1, limit, slots);
    }
  }

  lemma StepPaid(s: Tries, step: TryStep, limit: nat, slots: nat)
    requires Paid(s, limit, slots) && TryEnabled(s, step, slots)
    ensures Paid(TryNext(s, step, limit), limit, slots)
  {
    var t := TryNext(s, step, limit);
    CallsSize(s.calls, step.p, s.stored);
    match step {
      case Read(p) =>
        if s.stored < limit {
          forall w ensures Advanced(s, w, slots) == Advanced(t, w, slots) {
            ReadAdvances(s, p, w, slots);
          }
          SameCost(s, t, 1, limit, slots);
        }
      case Count(p) => CostGained(s, p, 1, limit, slots);
    }
  }

  lemma {:induction false} RunPaid(s: Tries, steps: seq<TryStep>, limit: nat, slots: nat)
    requires Paid(s, limit, slots) && TryRun(s, steps, limit, slots, false).Some?
    ensures Paid(TryRun(s, steps, limit, slots, false).value, limit, slots)
    decreases |steps|
  {
    if steps != [] {
      StepPaid(s, steps[0], limit, slots);
      RunPaid(TryNext(s, steps[0], limit), steps[1..], limit, slots);
    }
  }

  lemma AdvancedBounds(s: Tries, w: nat, limit: nat, slots: nat)
    requires Paid(s, limit, slots)
    ensures 0 <= Advanced(s, w, slots) <= slots
    ensures w >= limit ==> Advanced(s, w, slots) <= slots - |s.calls|
  {
    SubsetCardinality(ReadersFrom(s.calls, w), s.calls.Keys);
    assert |s.calls| == |s.calls.Keys|;
    if w >= limit {
      assert ReadersFrom(s.calls, w) == {};
    }
  }

  lemma {:induction false} CostBound(s: Tries, w: nat, limit: nat, slots: nat)
    requires Paid(s, limit, slots) && 1 <= w <= limit
    ensures |s.calls| + Cost(s, w, limit, slots) + 1 <= Ways(limit - w + 1, slots)
    decreases limit - w
  {
    AdvancedBounds(s, w, limit, slots);
    Pascal(limit - w + 1, slots);
    if w == limit {
      WaysOfOne(Advanced(s, w, slots) - 1);
      WaysOfOne(slots);
    } else {
      WaysMonotone(limit - w + 1, Advanced(s, w, slots) - 1, slots - 1);
      CostBound(s, w + 1, limit, slots);
    }
  }

  lemma PaidBound(s: Tries, limit: nat, slots: nat)
    requires Paid(s, limit, slots)
    ensures s.compared + 1 <= Ways(limit, slots)
  {
    if limit == 0 {
      Pascal(0, slots);
      assert s.calls == map[];
    } else {
      CostBound(s, 1, limit, slots);
    }
  }

  /** However verifications of a challenge overlap, with `slots` calls at once no more than
      `C(maxAttempts + slots, slots) - 1` codes are ever compared. */
  lemma ComparisonsBounded(steps: seq<TryStep>, maxAttempts: nat, slots: nat)
    requires TryRun(NO_TRIES, steps, maxAttempts, slots, false).Some?
    ensures TryRun(NO_TRIES, steps, maxAttempts, slots, false).value.compared <= Binomial(maxAttempts + slots, slots) - 1
  {
    RunPaid(NO_TRIES, steps, maxAttempts, slots);
    PaidBound(TryRun(NO_TRIES, steps, maxAttempts, slots, false).value, maxAttempts, slots);
  }

  // ----- and can get -----

  /** From `a` stored attempts with ids from `p` on free: one call reads and waits while the
      other slots use up the attempts, then puts the count back to `a + 1`. */
  function Storm(a: nat, p: nat, limit: nat, slots: nat): seq<TryStep>
    requires a <= limit && p <= slots
    decreases limit - a + slots - p
  {
    if a == limit || p == slots then []
    else [Read(p)] + (Storm(a, p + 1, limit, slots) + ([Count(p)] + Storm(a + 1, p, limit, slots)))
  }

  lemma FirstStep(s: Tries, step: TryStep, rest: seq<TryStep>, limit: nat, slots: nat, undisturbed: bool)
    requires TryEnabled(s, step, slots) && (undisturbed ==> TryUndisturbed(s, step, slots))
    ensures TryRun(s, [step] + rest, limit, slots, undisturbed) == TryRun(TryNext(s, step, limit), rest, limit, slots, undisturbed)
  {
    assert ([step] + rest)[1..] == rest;
  }

  lemma {:induction false} TryConcat(s: Tries, a: seq<TryStep>, b: seq<TryStep>, limit: nat, slots: nat, undisturbed: bool, s': Tries)
    requires TryRun(s, a, limit, slots, undisturbed) == Some(s')
    ensures TryRun(s, a + b, limit, slots, undisturbed) == TryRun(s', b, limit, slots, undisturbed)
    decreases |a|
  {
    if a == [] {
      assert a + b == b;
    } else {
      assert (a + b)[1..] == a[1..] + b;
      TryConcat(TryNext(s, a[0], limit), a[1..], b, limit, slots, undisturbed, s');
    }
  }

  /** Ids up to `p` are taken. */
  predicate TakenTo(calls: map<nat, nat>, p: nat) {
    |calls| == p && forall q :: q in calls ==> q < p
  }

  /** The run compares `gain` codes and leaves the pending calls as they were. */
  predicate Gains(s: Tries, steps: seq<TryStep>, gain: int, limit: nat, slots: nat) {
    var end := TryRun(s, steps, limit, slots, false);
    end.Some? && end.value.calls == s.calls && end.value.compared == s.compared + gain
  }

  /** A call reads, other calls come and go, the call counts, and more follows. */
  lemma WaitAndPutBack(s: Tries, p: nat, inner: seq<TryStep>, s2: Tries, outer: seq<TryStep>, limit: nat, slots: nat)
    requires s.stored < limit && p !in s.calls && |s.calls| < slots && s2.calls == s.calls[p := s.stored]
    requires TryRun(Tries(s.stored, s.compared + 1, s.calls[p := s.stored]), inner, limit, slots, false) == Some(s2)
    ensures TryRun(s, [Read(p)] + (inner + ([Count(p)] + outer)), limit, slots, false)
         == TryRun(Tries(s.stored + 1, s2.compared, s.calls), outer, limit, slots, false)
  {
    CountFirst(s, p, s2, outer, limit, slots, false);
    TryConcat(Tries(s.stored, s.compared + 1, s.calls[p := s.stored]), inner, [Count(p)] + outer, limit, slots, false, s2);
    ReadFirst(s, p, inner + ([Count(p)] + outer), limit, slots, false);
  }

  lemma ReadFirst(s: Tries, p: nat, rest: seq<TryStep>, limit: nat, slots: nat, undisturbed: bool)
    requires s.stored < limit && p !in s.calls && |s.calls| < slots
    ensures TryRun(s, [Read(p)] + rest, limit, slots, undisturbed)
         == TryRun(Tries(s.stored, s.compared + 1, s.calls[p := s.stored]), rest, limit, slots, undisturbed)
  {
    FirstStep(s, Read(p), rest, limit, slots, undisturbed);
  }

  lemma CountFirst(s: Tries, p: nat, later: Tries, rest: seq<TryStep>, limit: nat, slots: nat, undisturbed: bool)
    requires p !in s.calls && later.calls == s.calls[p := s.stored] && (undisturbed ==> later.stored == s.stored)
    ensures TryRun(later, [Count(p)] + rest, limit, slots, undisturbed)
         == TryRun(Tries(s.stored + 1, later.compared, s.calls), rest, limit, slots, undisturbed)
  {
    assert later.calls - {p} == s.calls;
    FirstStep(later, Count(p), rest, limit, slots, undisturbed);
  }

  lemma StormStep(s: Tries, p: nat, inner: seq<TryStep>, g: nat, outer: seq<TryStep>, h: nat, limit: nat, slots: nat)
    requires s.stored < limit && p !in s.calls && |s.calls| < slots
    requires Gains(Tries(s.stored, s.compared + 1, s.calls[p := s.stored]), inner, g, limit, slots)
    requires Gains(Tries(s.stored + 1, s.compared + 1 + g, s.calls), outer, h, limit, slots)
    ensures Gains(s, [Read(p)] + (inner + ([Count(p)] + outer)), 1 + g + h, limit, slots)
  {
    var s2 := TryRun(Tries(s.stored, s.compared + 1, s.calls[p := s.stored]), inner, limit, slots, false).value;
    WaitAndPutBack(s, p, inner, s2, outer, limit, slots);
    SameGain(s, [Read(p)] + (inner + ([Count(p)] + outer)), Tries(s.stored + 1, s.compared + 1 + g, s.calls), outer, h, limit, slots);
  }

  lemma SameGain(s: Tries, all: seq<TryStep>, t: Tries, rest: seq<TryStep>, h: nat, limit: nat, slots: nat)
    requires t.calls == s.calls && Gains(t, rest, h, limit, slots)
    requires TryRun(s, all, limit, slots, false) == TryRun(t, rest, limit, slots, false)
    ensures Gains(s, all, t.compared - s.compared + h, limit, slots)
  {
  }

  lemma StormNext(s: Tries, p: nat, limit: nat, slots: nat)
    requires s.stored < limit && p < slots && TakenTo(s.calls, p)
    requires Gains(Tries(s.stored, s.compared + 1, s.calls[p := s.stored]), Storm(s.stored, p + 1, limit, slots),
                   Ways(limit - s.stored, slots - p - 1) - 1, limit, slots)
    requires Gains(Tries(s.stored + 1, s.compared + Ways(limit - s.stored, slots - p - 1), s.calls),
                   Storm(s.stored + 1, p, limit, slots), Ways(limit - s.stored - 1, slots - p) - 1, limit, slots)
    ensures Gains(s, Storm(s.stored, p, limit, slots), Ways(limit - s.stored, slots - p) - 1, limit, slots)
  {
    var g, h := Ways(limit - s.stored, slots - p - 1) - 1, Ways(limit - s.stored - 1, slots - p) - 1;
    StormGain(limit - s.stored, slots - p);
    StormStep(s, p, Storm(s.stored, p + 1, limit, slots), g, Storm(s.stored + 1, p, limit, slots), h, limit, slots);
  }

  lemma StormOver(s: Tries, p: nat, limit: nat, slots: nat)
    requires s.stored <= limit && p <= slots && (s.stored == limit || p == slots)
    ensures Gains(s, Storm(s.stored, p, limit, slots), Ways(limit - s.stored, slots - p) - 1, limit, slots)
  {
    Pascal(limit - s.stored, slots - p);
  }

  lemma {:induction false} StormRuns(s: Tries, p: nat, limit: nat, slots: nat)
    requires s.stored <= limit && p <= slots && TakenTo(s.calls, p)
    ensures Gains(s, Storm(s.stored, p, limit, slots), Ways(limit - s.stored, slots - p) - 1, limit, slots)
    decreases limit - s.stored + slots - p
  {
    if s.stored == limit || p == slots {
      StormOver(s, p, limit, slots);
    } else {
      CallsSize(s.calls, p, s.stored);
      StormRuns(Tries(s.stored, s.compared + 1, s.calls[p := s.stored]), p + 1, limit, slots);
      StormRuns(Tries(s.stored + 1, s.compared + Ways(limit - s.stored, slots - p - 1), s.calls), p, limit, slots);
      StormNext(s, p, limit, slots);
    }
  }

  lemma StormGain(x: nat, s: nat)
    requires x > 0 && s > 0
    ensures Ways(x, s - 1) >= 1 && Ways(x - 1, s) >= 1
    ensures Ways(x, s) - 1 == 1 + (Ways(x, s - 1) - 1) + (Ways(x - 1, s) - 1)
  {
    WaysMonotone(x, 0, s - 1);
    WaysMonotone(x - 1, 0, s);
    Pascal(x, s);
  }

  /** The bound is reached for every limit and every number of calls at once. */
  lemma BoundIsReached(maxAttempts: nat, slots: nat)
    ensures var end := TryRun(NO_TRIES, Storm(0, 0, maxAttempts, slots), maxAttempts, slots, false);
      end.Some? && end.value.compared == Binomial(maxAttempts + slots, slots) - 1
  {
    StormRuns(NO_TRIES, 0, maxAttempts, slots);
  }

  // ----- exactly which save takes the comparisons over the limit -----

  /** Undisturbed calls are all accounted for: each comparison is stored or being made. */
  ghost predicate Accounted(s: Tries, limit: nat, slots: nat) {
    && s.compared == s.stored + |s.calls| && |s.calls| <= slots
    && s.compared <= limit - 1 + slots
    && forall p :: p in s.calls ==> s.calls[p] < limit && s.calls[p] <= s.stored
  }

  lemma StepAccounted(s: Tries, step: TryStep, limit: nat, slots: nat)
    requires Accounted(s, limit, slots) && TryEnabled(s, step, slots) && TryUndisturbed(s, step, slots)
    ensures Accounted(TryNext(s, step, limit), limit, slots)
  {
    CallsSize(s.calls, step.p, s.stored);
  }

  lemma {:induction false} RunAccounted(s: Tries, steps: seq<TryStep>, limit: nat, slots: nat)
    requires Accounted(s, limit, slots) && TryRun(s, steps, limit, slots, true).Some?
    ensures Accounted(TryRun(s, steps, limit, slots, true).value, limit, slots)
    decreases |steps|
  {
    if steps != [] {
      StepAccounted(s, steps[0], limit, slots);
      RunAccounted(TryNext(s, steps[0], limit), steps[1..], limit, slots);
    }
  }

  /** Some undisturbed run from `s` compares more than `limit - 1 + slots` codes. */
  ghost predicate Breakable(s: Tries, limit: nat, slots: nat) {
    exists more :: Breaks(s, more, limit, slots)
  }

  ghost predicate Breaks(s: Tries, more: seq<TryStep>, limit: nat, slots: nat) {
    var end := TryRun(s, more, limit, slots, true);
    end.Some? && end.value.compared > limit - 1 + slots
  }

  lemma OneCall(s: Tries, p: nat, rest: seq<TryStep>, limit: nat, slots: nat)
    requires s.stored < limit && p !in s.calls && |s.calls| < slots
    ensures TryRun(s, [Read(p)] + ([Count(p)] + rest), limit, slots, true)
         == TryRun(Tries(s.stored + 1, s.compared + 1, s.calls), rest, limit, slots, true)
  {
    CountFirst(s, p, Tries(s.stored, s.compared + 1, s.calls[p := s.stored]), rest, limit, slots, true);
    ReadFirst(s, p, [Count(p)] + rest, limit, slots, true);
  }

  /** One call after another brings the stored count up to one below the limit. */
  lemma Climb(s: Tries, limit: nat, slots: nat) returns (more: seq<TryStep>)
    requires s.stored < limit && |s.calls| < slots
    ensures TryRun(s, more, limit, slots, true) == Some(Tries(limit - 1, s.compared + limit - 1 - s.stored, s.calls))
    decreases limit - s.stored
  {
    if s.stored == limit - 1 {
      more := [];
    } else {
      var p := FreshId(s.calls);
      var rest := Climb(Tries(s.stored + 1, s.compared + 1, s.calls), limit, slots);
      OneCall(s, p, rest, limit, slots);
      more := [Read(p)] + ([Count(p)] + rest);
    }
  }

  /** Below the limit every free slot can compare one more code. */
  lemma Fill(s: Tries, limit: nat, slots: nat) returns (more: seq<TryStep>)
    requires s.stored < limit && |s.calls| <= slots
    ensures TryRun(s, more, limit, slots, true).Some?
    ensures TryRun(s, more, limit, slots, true).value.compared == s.compared + slots - |s.calls|
    decreases slots - |s.calls|
  {
    if |s.calls| == slots {
      more := [];
    } else {
      var p := FreshId(s.calls);
      CallsSize(s.calls, p, s.stored);
      var rest := Fill(TryNext(s, Read(p), limit), limit, slots);
      FirstStep(s, Read(p), rest, limit, slots, true);
      more := [Read(p)] + rest;
    }
  }

  /** After any undisturbed run, a step makes more than `maxAttempts - 1 + slots` comparisons
      possible if and only if it is a save of an outdated count that leaves the challenge
      below its limit. With one call at a time there is none, and the bound is the limit. */
  lemma BreachExactlyWhenOutdated(steps: seq<TryStep>, step: TryStep, maxAttempts: nat, slots: nat)
    requires slots >= 1 && TryRun(NO_TRIES, steps, maxAttempts, slots, true).Some?
    requires TryEnabled(TryRun(NO_TRIES, steps, maxAttempts, slots, true).value, step, slots)
    ensures var s := TryRun(NO_TRIES, steps, maxAttempts, slots, true).value;
      && (Breakable(TryNext(s, step, maxAttempts), maxAttempts, slots)
          <==> step.Count? && s.calls[step.p] < s.stored && s.calls[step.p] + 1 < maxAttempts)
      && (slots == 1 ==> !Breakable(TryNext(s, step, maxAttempts), maxAttempts, slots))
  {
    RunAccounted(NO_TRIES, steps, maxAttempts, slots);
    var s := TryRun(NO_TRIES, steps, maxAttempts, slots, true).value;
    if slots == 1 {
      OneCallIsCurrent(NO_TRIES, steps, maxAttempts);
    }
    if step.Count? && s.calls[step.p] < s.stored {
      if s.calls[step.p] + 1 < maxAttempts {
        OutdatedBreaks(s, step.p, maxAttempts, slots);
      } else {
        ExhaustedStays(TryNext(s, step, maxAttempts), maxAttempts, slots);
      }
    } else {
      StepAccounted(s, step, maxAttempts, slots);
      AccountedStays(TryNext(s, step, maxAttempts), maxAttempts, slots);
    }
  }

  lemma {:induction false} OneCallIsCurrent(s: Tries, steps: seq<TryStep>, limit: nat)
    requires |s.calls| <= 1 && (forall p :: p in s.calls ==> s.calls[p] == s.stored)
    requires TryRun(s, steps, limit, 1, true).Some?
    ensures var end := TryRun(s, steps, limit, 1, true).value;
      forall p :: p in end.calls ==> end.calls[p] == end.stored
    decreases |steps|
  {
    if steps != [] {
      CallsSize(s.calls, steps[0].p, s.stored);
      var s' := TryNext(s, steps[0], limit);
      if steps[0].Count? {
        assert s'.calls == map[];
      } else {
        assert s.calls == map[];
      }
      OneCallIsCurrent(s', steps[1..], limit);
    }
  }

  lemma OutdatedBreaks(s: Tries, p: nat, limit: nat, slots: nat)
    requires Accounted(s, limit, slots) && p in s.calls
    requires s.calls[p] < s.stored && s.calls[p] + 1 < limit
    ensures Breakable(TryNext(s, Count(p), limit), limit, slots)
  {
    CallsSize(s.calls, p, 0);
    var s1 := TryNext(s, Count(p), limit);
    var climb := Climb(s1, limit, slots);
    var s2 := TryRun(s1, climb, limit, slots, true).value;
    var fill := Fill(s2, limit, slots);
    TryConcat(s1, climb, fill, limit, slots, true, s2);
    assert Breaks(s1, climb + fill, limit, slots);
  }

  lemma AccountedStays(s: Tries, limit: nat, slots: nat)
    requires Accounted(s, limit, slots)
    ensures !Breakable(s, limit, slots)
  {
    forall more ensures !Breaks(s, more, limit, slots) {
      if TryRun(s, more, limit, slots, true).Some? {
        RunAccounted(s, more, limit, slots);
      }
    }
  }

  lemma ExhaustedStays(s: Tries, limit: nat, slots: nat)
    requires s.stored >= limit && s.compared <= limit - 1 + slots
    ensures !Breakable(s, limit, slots)
  {
    forall more ensures !Breaks(s, more, limit, slots) {
      if TryRun(s, more, limit, slots, true).Some? {
        NoMoreComparisons(s, more, limit, slots);
      }
    }
  }

  lemma {:induction false} NoMoreComparisons(s: Tries, more: seq<TryStep>, limit: nat, slots: nat)
    requires s.stored >= limit && TryRun(s, more, limit, slots, true).Some?
    ensures TryRun(s, more, limit, slots, true).value.compared == s.compared
    decreases |more|
  {
    if more != [] {
      NoMoreComparisons(TryNext(s, more[0], limit), more[1..], limit, slots);
    }
  }

  // ----- a verification with nothing between its steps is the whole operation -----

  /** One user's codes, as the sequential manager has them. */
  function CodesView(s: State, user: string): Codes
    requires user in s.configs
  {
    Codes(s.configs[user].backupCodes, Generated(s.log, user), Spent(s.log, user), map[])
  }

  /** The challenge compares the code now. */
  predicate Compares(s: State, id: string, now: real) {
    && Live(s, id, now) && now <= s.challenges[id].expiresAt
    && s.challenges[id].attempts < s.challenges[id].maxAttempts
  }

  lemma CodesAlone(s: State, id: string, code: string, totpOk: bool, now: real, p: nat)
    requires Compares(s, id, now) && s.challenges[id].how == BackupCode && s.challenges[id].user in s.configs
    ensures var user := s.challenges[id].user;
      var (s', valid) := Verify(s, id, code, totpOk, now);
      var loaded := CodeNext(CodesView(s, user), Load(p, code));
      && (valid <==> p in loaded.calls)
      && user in s'.configs && CodesView(s', user) == if valid then CodeNext(loaded, Save(p)) else loaded
  {
    var user := s.challenges[id].user;
    LoadSave(CodesView(s, user), code, p);
    VerifyCodes(s, id, code, totpOk, now);
  }

  lemma LoadSave(v: Codes, code: string, p: nat)
    requires v.calls == map[]
    ensures var loaded := CodeNext(v, Load(p, code));
      && (p in loaded.calls <==> code in v.stored)
      && if code in v.stored
         then CodeNext(loaded, Save(p)) == Codes(RemoveFirst(v.stored, code), v.generated, v.spent + multiset{code}, map[])
         else loaded == v
  {
    if code in v.stored {
      assert map[p := Holding(code, v.stored)] - {p} == map[];
    }
  }

  lemma VerifyCodes(s: State, id: string, code: string, totpOk: bool, now: real)
    requires Compares(s, id, now) && s.challenges[id].how == BackupCode && s.challenges[id].user in s.configs
    ensures var user := s.challenges[id].user;
      var v := CodesView(s, user);
      var (s', valid) := Verify(s, id, code, totpOk, now);
      && (valid <==> code in v.stored)
      && user in s'.configs
      && CodesView(s', user) ==
           if valid then Codes(RemoveFirst(v.stored, code), v.generated, v.spent + multiset{code}, map[]) else v
  {
    var user := s.challenges[id].user;
    var valid := code in s.configs[user].backupCodes;
    LogStep(s.log, Compared(id, user, BackupCode, code, now, valid), id, user);
    assert Spent(s.log, user) + multiset{} == Spent(s.log, user);
  }

  lemma TriesAlone(s: State, id: string, code: string, totpOk: bool, now: real, p: nat)
    requires Compares(s, id, now)
    ensures var c, s' := s.challenges[id], Verify(s, id, code, totpOk, now).0;
      && id in s'.challenges
      && Tries(s'.challenges[id].attempts, Comparisons(s'.log, id), map[]) ==
           TryNext(TryNext(Tries(c.attempts, Comparisons(s.log, id), map[]), Read(p), c.maxAttempts), Count(p), c.maxAttempts)
  {
    var c := s.challenges[id];
    var (s', valid) := Verify(s, id, code, totpOk, now);
    LogStep(s.log, Compared(id, c.user, c.how, code, now, valid), id, c.user);
    assert map[p := c.attempts] - {p} == map[];
  }
}
