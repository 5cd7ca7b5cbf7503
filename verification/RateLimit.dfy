/** The check-then-increment counter that limits requests per minute and password
    resets per hour, with `GET`, `INCR` and `EXPIRE` as separate interleaved steps. */
module RateLimit {
  import opened Common

  /** `slots` bounds how many requests of one client are between check and expire. */
  datatype Limiter = Limiter(limit: int, window: real, slots: nat) {
    predicate Valid() {
      window > 0.0 && slots >= 1
    }

    /** A missing counter never rejects, so a limit below one acts as one. */
    function Effective(): nat {
      Max(limit, 1)
    }
  }

  /** The Redis key: absent, or a count that may or may not have an expiry yet. */
  datatype Counter = Absent | Counting(n: nat, expiry: Option<real>)

  /** `checked` requests have passed the check, `issued` ones are admitted and not counted
      yet, `pending` ones have not renewed the window yet. */
  datatype State = State(
    counter: Counter, checked: set<nat>, issued: set<nat>, pending: set<nat>, admitted: seq<real>, clock: real)

  datatype Action =
    | Check(p: nat)    // read the counter and compare with the limit
    | Leave(p: nat)    // passed the check but returns before counting itself
    | Issue(p: nat)    // admitted: a reset token is stored here, a request counts as let through
    | Incr(p: nat)
    | Expire(p: nat)   // renews the window

  datatype Step = At(now: real, action: Action)

  predicate Live(c: Counter, now: real) {
    c.Counting? && (c.expiry.Some? ==> now < c.expiry.value)
  }

  predicate Enabled(l: Limiter, s: State, step: Step) {
    && s.clock <= step.now
    && match step.action
       case Check(p) =>
         p !in s.checked && p !in s.issued && p !in s.pending && |s.checked| + |s.issued| + |s.pending| < l.slots
       case Leave(p) => p in s.checked
       case Issue(p) => p in s.checked
       case Incr(p) => p in s.issued
       case Expire(p) => p in s.pending
  }

  predicate Rejects(l: Limiter, s: State, now: real) {
    Live(s.counter, now) && s.counter.n >= l.limit
  }

  function Next(l: Limiter, s: State, step: Step): State
    requires Enabled(l, s, step)
  {
    var s := s.(clock := step.now);
    match step.action
    case Check(p) => if Rejects(l, s, step.now) then s else s.(checked := s.checked + {p})
    case Leave(p) => s.(checked := s.checked - {p})
    case Issue(p) =>
      s.(checked := s.checked - {p}, issued := s.issued + {p}, admitted := s.admitted + [step.now])
    case Incr(p) =>
      s.(counter := if Live(s.counter, step.now) then s.counter.(n := s.counter.n + 1) else Counting(1, None),
         issued := s.issued - {p}, pending := s.pending + {p})
    case Expire(p) =>
      s.(counter := if Live(s.counter, step.now) then s.counter.(expiry := Some(step.now + l.window)) else s.counter,
         pending := s.pending - {p})
  }

  /** How many of `times` come after the moment. */
  function Recent(times: seq<real>, after: real): nat {
    if times == [] then 0
    else Recent(times[..|times| - 1], after) + (if times[|times| - 1] > after then 1 else 0)
  }

  /** A step loses a count when the counter has expired before it and the last window holds
      more admissions than there are requests still to be counted: some were counted only
      there. The exception is an increment that at once brings a limit of one back up. */
  predicate Loses(l: Limiter, s: State, step: Step) {
    && Live(s.counter, s.clock) && !Live(s.counter, step.now)
    && Recent(s.admitted, step.now - l.window) > |s.issued|
    && !(step.action.Incr? && l.Effective() == 1)
  }

  function Initial(clock: real): State {
    State(Absent, {}, {}, {}, [], clock)
  }

  /** The state after `steps`, each enabled in turn, and losing no count when that is asked for. */
  function Run(l: Limiter, s: State, steps: seq<Step>, kept: bool): Option<State>
    decreases |steps|
  {
    if steps == [] then Some(s)
    else if Enabled(l, s, steps[0]) && (kept ==> !Loses(l, s, steps[0]))
    then Run(l, Next(l, s, steps[0]), steps[1..], kept)
    else None
  }

  /** How many of `times` fall into the half-open interval. */
  function CountIn(times: seq<real>, lo: real, hi: real): nat {
    if times == [] then 0
    else CountIn(times[..|times| - 1], lo, hi) + (if lo <= times[|times| - 1] < hi then 1 else 0)
  }

  // ----- the window bound -----

  function Slack(l: Limiter, kept: bool): nat {
    if kept then 0 else l.slots
  }

  /** What one counter can admit in its life. */
  function Bound(l: Limiter): nat {
    l.Effective() + l.slots - 1
  }

  /** No request is in two places, and there are at most `slots`. */
  predicate Placed(l: Limiter, s: State) {
    s.checked !! s.issued !! s.pending && |s.checked| + |s.issued| + |s.pending| <= l.slots
  }

  /** The count and the requests about to raise it stay below the bound. */
  predicate CountInv(l: Limiter, s: State) {
    && Placed(l, s)
    && (Live(s.counter, s.clock) ==> s.counter.n + |s.checked| + |s.issued| <= Bound(l))
    && (s.counter.Counting? ==> s.counter.n >= 1)
  }

  /** The counter cannot expire inside the window that opens at `lo`. */
  predicate Outlasts(l: Limiter, c: Counter, lo: real) {
    c.Counting? && (c.expiry.Some? ==> lo + l.window <= c.expiry.value)
  }

  /** Only requests past their check can still join the window. */
  predicate Exhausted(l: Limiter, s: State, lo: real, w: nat) {
    Outlasts(l, s.counter, lo) && s.counter.n >= l.Effective() && w + |s.checked| <= Bound(l)
  }

  /** The `w` admissions of an open window are backed by the counter, by expires still
      outstanding or by requests still to be counted. */
  predicate Backed(l: Limiter, s: State, lo: real, w: nat, kept: bool) {
    if Outlasts(l, s.counter, lo) then w <= s.counter.n + |s.issued| + Slack(l, kept)
    else if Live(s.counter, s.clock) then w <= |s.pending| + |s.issued| && (kept ==> w <= s.counter.n + |s.issued|)
    else w <= |s.issued| + Slack(l, kept)
  }

  predicate WindowInv(l: Limiter, s: State, lo: real, kept: bool) {
    var w := CountIn(s.admitted, lo, lo + l.window);
    && (s.clock < lo ==> w == 0)
    && (lo <= s.clock < lo + l.window ==> Backed(l, s, lo, w, kept) || (kept && Exhausted(l, s, lo, w)))
    && w <= Bound(l) + Slack(l, kept)
  }

  lemma CountKeeps(l: Limiter, s: State, step: Step)
    requires l.Valid() && CountInv(l, s) && Enabled(l, s, step)
    ensures CountInv(l, Next(l, s, step))
  {
    match step.action {
      case Check(_) =>
      case Leave(p) => LeaveKeepsCount(l, s, step);
      case Issue(p) => IssueKeepsCount(l, s, step);
      case Incr(p) => IncrKeepsCount(l, s, step);
      case Expire(p) => Removed(s.pending, p);
    }
  }

  lemma LeaveKeepsCount(l: Limiter, s: State, step: Step)
    requires l.Valid() && CountInv(l, s) && Enabled(l, s, step) && step.action.Leave?
    ensures CountInv(l, Next(l, s, step))
  {
    Removed(s.checked, step.action.p);
  }

  lemma IssueKeepsCount(l: Limiter, s: State, step: Step)
    requires l.Valid() && CountInv(l, s) && Enabled(l, s, step) && step.action.Issue?
    ensures CountInv(l, Next(l, s, step))
  {
    Removed(s.checked, step.action.p);
    Added(s.issued, step.action.p);
  }

  lemma IncrKeepsCount(l: Limiter, s: State, step: Step)
    requires l.Valid() && CountInv(l, s) && Enabled(l, s, step) && step.action.Incr?
    ensures CountInv(l, Next(l, s, step))
  {
    Removed(s.issued, step.action.p);
    Added(s.pending, step.action.p);
  }

  lemma Added(s: set<nat>, p: nat)
    requires p !in s
    ensures |s + {p}| == |s| + 1
  {
  }

  lemma Removed(s: set<nat>, p: nat)
    requires p in s
    ensures |s - {p}| == |s| - 1
  {
  }

  lemma WindowKeeps(l: Limiter, s: State, step: Step, lo: real, kept: bool)
    requires l.Valid() && CountInv(l, s) && WindowInv(l, s, lo, kept)
    requires Enabled(l, s, step) && (kept ==> !Loses(l, s, step))
    ensures WindowInv(l, Next(l, s, step), lo, kept)
  {
    CountKeeps(l, s, step);
    if kept && step.action.Incr? && l.Effective() == 1 && !Live(s.counter, step.now) && lo <= step.now < lo + l.window {
      RestartKeepsWindow(l, s, step, lo);
    } else {
      WaitKeepsWindow(l, s, step, lo, kept);
      ActKeepsWindow(l, s.(clock := step.now), step, lo, kept);
    }
  }

  /** An increment that starts the next counter at a limit of one. */
  lemma RestartKeepsWindow(l: Limiter, s: State, step: Step, lo: real)
    requires l.Valid() && CountInv(l, s) && WindowInv(l, s, lo, true) && Enabled(l, s, step)
    requires step.action.Incr? && l.Effective() == 1 && !Live(s.counter, step.now) && lo <= step.now < lo + l.window
    ensures WindowInv(l, Next(l, s, step), lo, true)
  {
    Removed(s.issued, step.action.p);
  }

  /** Time alone. */
  lemma WaitKeepsWindow(l: Limiter, s: State, step: Step, lo: real, kept: bool)
    requires l.Valid() && CountInv(l, s) && WindowInv(l, s, lo, kept)
    requires Enabled(l, s, step) && (kept ==> !Loses(l, s, step))
    requires !(kept && step.action.Incr? && l.Effective() == 1 && !Live(s.counter, step.now) && lo <= step.now < lo + l.window)
    ensures WindowInv(l, s.(clock := step.now), lo, kept)
  {
    if lo <= step.now < lo + l.window {
      RecentBounds(s.admitted, lo, lo + l.window, step.now - l.window);
    }
  }

  lemma ActKeepsWindow(l: Limiter, s: State, step: Step, lo: real, kept: bool)
    requires l.Valid() && Placed(l, s) && WindowInv(l, s, lo, kept) && Enabled(l, s, step) && step.now == s.clock
    requires CountInv(l, Next(l, s, step))
    ensures WindowInv(l, Next(l, s, step), lo, kept)
  {
    match step.action {
      case Issue(_) => IssueKeepsWindow(l, s, step, lo, kept);
      case Incr(_) => IncrKeepsWindow(l, s, step, lo, kept);
      case Expire(_) => ExpireKeepsWindow(l, s, step, lo, kept);
      case _ => CheckKeepsWindow(l, s, step, lo, kept);
    }
  }

  lemma CheckKeepsWindow(l: Limiter, s: State, step: Step, lo: real, kept: bool)
    requires l.Valid() && Placed(l, s) && WindowInv(l, s, lo, kept) && Enabled(l, s, step) && step.now == s.clock
    requires step.action.Check? || step.action.Leave?
    ensures WindowInv(l, Next(l, s, step), lo, kept)
  {
    if step.action.Leave? {
      Removed(s.checked, step.action.p);
    }
  }

  lemma ExpireKeepsWindow(l: Limiter, s: State, step: Step, lo: real, kept: bool)
    requires l.Valid() && Placed(l, s) && WindowInv(l, s, lo, kept) && Enabled(l, s, step) && step.now == s.clock
    requires step.action.Expire?
    ensures WindowInv(l, Next(l, s, step), lo, kept)
  {
  }

  lemma IssueKeepsWindow(l: Limiter, s: State, step: Step, lo: real, kept: bool)
    requires l.Valid() && Placed(l, s) && WindowInv(l, s, lo, kept) && Enabled(l, s, step) && step.now == s.clock
    requires step.action.Issue? && CountInv(l, Next(l, s, step))
    ensures WindowInv(l, Next(l, s, step), lo, kept)
  {
    Removed(s.checked, step.action.p);
    Added(s.issued, step.action.p);
    IssuedKeepsWindow(l, s, Next(l, s, step), lo, kept);
  }

  predicate IssuedFrom(s: State, s': State) {
    && s'.counter == s.counter && s'.pending == s.pending && s'.clock == s.clock
    && |s'.issued| == |s.issued| + 1 && |s'.checked| == |s.checked| - 1
  }

  lemma IssuedKeepsWindow(l: Limiter, s: State, s': State, lo: real, kept: bool)
    requires l.Valid() && CountInv(l, s') && WindowInv(l, s, lo, kept)
    requires IssuedFrom(s, s') && s'.admitted == s.admitted + [s.clock]
    ensures WindowInv(l, s', lo, kept)
  {
    CountLast(s.admitted, s.clock, lo, lo + l.window);
    if lo <= s.clock < lo + l.window {
      OneMoreIssued(l, s, s', lo, CountIn(s.admitted, lo, lo + l.window), kept);
    }
  }

  lemma OneMoreIssued(l: Limiter, s: State, s': State, lo: real, w: nat, kept: bool)
    requires l.Valid() && CountInv(l, s') && lo <= s.clock < lo + l.window && IssuedFrom(s, s')
    requires Backed(l, s, lo, w, kept) || (kept && Exhausted(l, s, lo, w))
    ensures Backed(l, s', lo, w + 1, kept) || (kept && Exhausted(l, s', lo, w + 1))
    ensures w + 1 <= Bound(l) + Slack(l, kept)
  {
  }

  lemma IncrKeepsWindow(l: Limiter, s: State, step: Step, lo: real, kept: bool)
    requires l.Valid() && Placed(l, s) && WindowInv(l, s, lo, kept) && Enabled(l, s, step) && step.now == s.clock
    requires step.action.Incr? && CountInv(l, Next(l, s, step))
    ensures WindowInv(l, Next(l, s, step), lo, kept)
  {
    Removed(s.issued, step.action.p);
    Added(s.pending, step.action.p);
  }

  lemma {:induction false} RecentBounds(times: seq<real>, lo: real, hi: real, after: real)
    requires after < lo
    ensures CountIn(times, lo, hi) <= Recent(times, after)
  {
    if times != [] {
      RecentBounds(times[..|times| - 1], lo, hi, after);
    }
  }

  lemma {:induction false} RunKeeps(l: Limiter, s: State, steps: seq<Step>, lo: real, kept: bool)
    requires l.Valid() && CountInv(l, s) && WindowInv(l, s, lo, kept)
    requires Run(l, s, steps, kept).Some?
    ensures var end := Run(l, s, steps, kept).value;
      CountInv(l, end) && WindowInv(l, end, lo, kept)
    decreases |steps|
  {
    if steps != [] {
      CountKeeps(l, s, steps[0]);
      WindowKeeps(l, s, steps[0], lo, kept);
      RunKeeps(l, Next(l, s, steps[0]), steps[1..], lo, kept);
    }
  }

  /** In every run, any half-open window admits at most `limit - 1 + slots` requests
      when no count is lost, and at most `slots` more otherwise. */
  lemma WindowBound(l: Limiter, clock: real, steps: seq<Step>, lo: real, kept: bool)
    requires l.Valid() && Run(l, Initial(clock), steps, kept).Some?
    ensures CountIn(Run(l, Initial(clock), steps, kept).value.admitted, lo, lo + l.window)
         <= l.Effective() - 1 + l.slots + (if kept then 0 else l.slots)
  {
    RunKeeps(l, Initial(clock), steps, lo, kept);
  }

  /** The request middleware: one request at a time, losing no count, stays within the
      limit in any minute. */
  lemma SequentialRequests(limit: int, clock: real, steps: seq<Step>, lo: real)
    requires Run(Limiter(limit, 60.0, 1), Initial(clock), steps, true).Some?
    ensures CountIn(Run(Limiter(limit, 60.0, 1), Initial(clock), steps, true).value.admitted, lo, lo + 60.0) <= Max(limit, 1)
  {
    WindowBound(Limiter(limit, 60.0, 1), clock, steps, lo, true);
  }

  /** Password resets, likewise: at most three issued per address and hour. */
  lemma SequentialResets(clock: real, steps: seq<Step>, lo: real)
    requires Run(Limiter(3, 3600.0, 1), Initial(clock), steps, true).Some?
    ensures CountIn(Run(Limiter(3, 3600.0, 1), Initial(clock), steps, true).value.admitted, lo, lo + 3600.0) <= 3
  {
    WindowBound(Limiter(3, 3600.0, 1), clock, steps, lo, true);
  }

  // ----- bursts at one instant -----

  /** Some run from `s` that loses no count ends in `end`, without time passing. */
  ghost predicate Reaches(l: Limiter, s: State, end: State) {
    end.clock == s.clock && exists steps :: Run(l, s, steps, true) == Some(end)
  }

  lemma ReachesByStep(l: Limiter, s: State, action: Action)
    requires Enabled(l, s, At(s.clock, action))
    ensures Reaches(l, s, Next(l, s, At(s.clock, action)))
  {
    var steps := [At(s.clock, action)];
    assert steps[1..] == [];
    assert Run(l, s, steps, true) == Some(Next(l, s, steps[0]));
  }

  lemma ReachesOn(l: Limiter, s: State, mid: State, end: State)
    requires Reaches(l, s, mid) && Reaches(l, mid, end)
    ensures Reaches(l, s, end)
  {
    var a :| Run(l, s, a, true) == Some(mid);
    var b :| Run(l, mid, b, true) == Some(end);
    RunConcat(l, s, a, b, mid);
  }

  lemma {:induction false} RunConcat(l: Limiter, s: State, a: seq<Step>, b: seq<Step>, s': State)
    requires Run(l, s, a, true) == Some(s')
    ensures Run(l, s, a + b, true) == Run(l, s', b, true)
    decreases |a|
  {
    if a == [] {
      assert a + b == b;
    } else {
      assert (a + b)[1..] == a[1..] + b;
      RunConcat(l, Next(l, s, a[0]), a[1..], b, s');
    }
  }

  /** The count a check at this moment reads. */
  function Value(s: State): nat
  {
    if Live(s.counter, s.clock) then s.counter.n else 0
  }

  /** Every outstanding expire is done and every checked request gives up. */
  lemma {:induction false} Drained(l: Limiter, s: State) returns (end: State)
    requires l.Valid() && CountInv(l, s)
    ensures Reaches(l, s, end) && CountInv(l, end) && Value(end) == Value(s)
    ensures end.checked == {} && end.pending == {} && end.issued == s.issued && end.admitted == s.admitted
    decreases |s.checked| + |s.pending|
  {
    if s.checked == {} && s.pending == {} {
      end := s;
      assert Run(l, s, [], true) == Some(s);
    } else {
      var action: Action;
      if s.checked != {} {
        var p :| p in s.checked;
        action := Leave(p);
        Removed(s.checked, p);
      } else {
        var p :| p in s.pending;
        action := Expire(p);
        Removed(s.pending, p);
      }
      var mid := Took(l, s, action);
      end := Drained(l, mid);
      ReachesOn(l, s, mid, end);
    }
  }

  /** One complete request. */
  lemma Served(l: Limiter, s: State, p: nat) returns (end: State)
    requires l.Valid() && CountInv(l, s) && Value(s) < l.Effective()
    requires s.checked == {} && s.pending == {} && |s.issued| < l.slots && p !in s.issued
    ensures Reaches(l, s, end) && CountInv(l, end) && Value(end) == Value(s) + 1
    ensures end.checked == {} && end.pending == {} && end.issued == s.issued && end.admitted == s.admitted + [s.clock]
  {
    var s1 := Took(l, s, Check(p));
    var s2 := Took(l, s1, Issue(p));
    assert s2.issued == s.issued + {p} && s2.checked == {};
    var s3 := Took(l, s2, Incr(p));
    assert s3.issued == s.issued && s3.pending == {p};
    end := Took(l, s3, Expire(p));
    ReachesOn(l, s, s1, s2);
    ReachesOn(l, s, s2, s3);
    ReachesOn(l, s, s3, end);
  }

  lemma Took(l: Limiter, s: State, action: Action) returns (end: State)
    requires l.Valid() && CountInv(l, s) && Enabled(l, s, At(s.clock, action))
    ensures end == Next(l, s, At(s.clock, action)) && Reaches(l, s, end) && CountInv(l, end)
  {
    end := Next(l, s, At(s.clock, action));
    ReachesByStep(l, s, action);
    CountKeeps(l, s, At(s.clock, action));
  }

  lemma {:induction false} ServedOneByOne(l: Limiter, s: State, m: nat, lo: real) returns (end: State)
    requires lo <= s.clock < lo + l.window
    requires l.Valid() && CountInv(l, s) && Value(s) + m <= l.Effective()
    requires s.checked == {} && s.pending == {} && (m > 0 ==> |s.issued| < l.slots)
    ensures Reaches(l, s, end) && CountInv(l, end) && Value(end) == Value(s) + m
    ensures end.checked == {} && end.pending == {} && end.issued == s.issued
    ensures CountIn(end.admitted, lo, lo + l.window) == CountIn(s.admitted, lo, lo + l.window) + m
  {
    if m == 0 {
      end := s;
      assert Run(l, s, [], true) == Some(s);
    } else {
      var mid := ServedOneByOne(l, s, m - 1, lo);
      var p := Above(s.issued);
      end := Served(l, mid, p);
      ReachesOn(l, s, mid, end);
      CountLast(mid.admitted, s.clock, lo, lo + l.window);
    }
  }

  /** Every free slot takes a request past its check before any of them counts. */
  lemma {:induction false} Filled(l: Limiter, s: State) returns (end: State)
    requires l.Valid() && CountInv(l, s) && Value(s) < l.Effective() && s.pending == {}
    ensures Reaches(l, s, end) && CountInv(l, end)
    ensures |end.checked| + |end.issued| == l.slots && end.pending == {} && end.issued == s.issued && end.admitted == s.admitted
    decreases l.slots - |s.checked|
  {
    if |s.checked| + |s.issued| == l.slots {
      end := s;
      assert Run(l, s, [], true) == Some(s);
    } else {
      var p := Above(s.checked + s.issued);
      assert p !in s.checked && p !in s.issued;
      Added(s.checked, p);
      var mid := Took(l, s, Check(p));
      end := Filled(l, mid);
      ReachesOn(l, s, mid, end);
    }
  }

  lemma {:induction false} AllIssued(l: Limiter, s: State, lo: real) returns (end: State)
    requires l.Valid() && CountInv(l, s) && lo <= s.clock < lo + l.window
    ensures Reaches(l, s, end)
    ensures CountIn(end.admitted, lo, lo + l.window) == CountIn(s.admitted, lo, lo + l.window) + |s.checked|
    decreases |s.checked|
  {
    if s.checked == {} {
      end := s;
      assert Run(l, s, [], true) == Some(s);
    } else {
      var p :| p in s.checked;
      Removed(s.checked, p);
      var mid := Took(l, s, Issue(p));
      end := AllIssued(l, mid, lo);
      ReachesOn(l, s, mid, end);
      CountLast(s.admitted, s.clock, lo, lo + l.window);
    }
  }

  /** One by one up to one below the limit, then every free slot together. */
  lemma Burst(l: Limiter, s: State, lo: real) returns (steps: seq<Step>)
    requires l.Valid() && CountInv(l, s) && Value(s) < l.Effective() && |s.issued| < l.slots
    requires lo <= s.clock < lo + l.window
    ensures Admits(l, s, steps, lo, CountIn(s.admitted, lo, lo + l.window) + Bound(l) - Value(s) - |s.issued|)
  {
    var mid := BroughtToLimit(l, s, lo);
    var end := AllTogether(l, mid, lo);
    steps := ReachedInTwo(l, s, mid, end);
  }

  lemma ReachedInTwo(l: Limiter, s: State, mid: State, end: State) returns (steps: seq<Step>)
    requires Reaches(l, s, mid) && Reaches(l, mid, end)
    ensures Run(l, s, steps, true) == Some(end)
  {
    ReachesOn(l, s, mid, end);
    steps :| Run(l, s, steps, true) == Some(end);
  }

  lemma BroughtToLimit(l: Limiter, s: State, lo: real) returns (end: State)
    requires l.Valid() && CountInv(l, s) && Value(s) < l.Effective() && |s.issued| < l.slots
    requires lo <= s.clock < lo + l.window
    ensures Reaches(l, s, end) && CountInv(l, end) && Value(end) == l.Effective() - 1
    ensures end.checked == {} && end.pending == {} && end.issued == s.issued
    ensures CountIn(end.admitted, lo, lo + l.window) == CountIn(s.admitted, lo, lo + l.window) + l.Effective() - 1 - Value(s)
  {
    var mid := Drained(l, s);
    end := ServedOneByOne(l, mid, l.Effective() - 1 - Value(s), lo);
    ReachesOn(l, s, mid, end);
  }

  lemma AllTogether(l: Limiter, s: State, lo: real) returns (end: State)
    requires l.Valid() && CountInv(l, s) && Value(s) < l.Effective() && s.pending == {} && s.checked == {}
    requires lo <= s.clock < lo + l.window
    ensures Reaches(l, s, end)
    ensures CountIn(end.admitted, lo, lo + l.window) == CountIn(s.admitted, lo, lo + l.window) + l.slots - |s.issued|
  {
    var mid := Filled(l, s);
    end := AllIssued(l, mid, lo);
    ReachesOn(l, s, mid, end);
  }

  lemma CountLast(times: seq<real>, t: real, lo: real, hi: real)
    ensures CountIn(times + [t], lo, hi) == CountIn(times, lo, hi) + (if lo <= t < hi then 1 else 0)
  {
    assert (times + [t])[..|times|] == times;
  }

  /** The run admits this many requests to the window that opens at `lo`. */
  predicate Admits(l: Limiter, s: State, steps: seq<Step>, lo: real, n: nat) {
    var end := Run(l, s, steps, true);
    end.Some? && CountIn(end.value.admitted, lo, lo + l.window) == n
  }

  ghost predicate CanAdmit(l: Limiter, s: State, lo: real, n: nat) {
    exists steps :: Admits(l, s, steps, lo, n)
  }

  /** For every limit and concurrency the bound is met with equality, losing no count:
      `limit - 1` requests one by one, then `slots` requests checked before any counts. */
  lemma BoundIsReached(l: Limiter, clock: real)
    requires l.Valid()
    ensures CanAdmit(l, Initial(clock), clock, l.Effective() - 1 + l.slots)
  {
    var steps := Burst(l, Initial(clock), clock);
    assert Admits(l, Initial(clock), steps, clock, Bound(l));
  }

  // ----- exactly which steps take a window over the bound -----

  /** Some run from `s` that loses no further count takes a window over the bound. */
  ghost predicate Breakable(l: Limiter, s: State) {
    exists more, lo :: Breaches(l, s, more, lo)
  }

  predicate Breaches(l: Limiter, s: State, more: seq<Step>, lo: real) {
    var end := Run(l, s, more, true);
    end.Some? && CountIn(end.value.admitted, lo, lo + l.window) > l.Effective() - 1 + l.slots
  }

  predicate AllBy(times: seq<real>, until: real) {
    forall i :: 0 <= i < |times| ==> times[i] <= until
  }

  lemma {:induction false} AdmittedByClock(l: Limiter, s: State, steps: seq<Step>, kept: bool)
    requires Run(l, s, steps, kept).Some? && AllBy(s.admitted, s.clock)
    ensures AllBy(Run(l, s, steps, kept).value.admitted, Run(l, s, steps, kept).value.clock)
    decreases |steps|
  {
    if steps != [] {
      AdmittedByClock(l, Next(l, s, steps[0]), steps[1..], kept);
    }
  }

  /** The earliest of the recent times. */
  lemma {:induction false} EarliestRecent(times: seq<real>, after: real) returns (lo: real)
    requires Recent(times, after) > 0
    ensures after < lo && lo in times && forall i :: 0 <= i < |times| && times[i] > after ==> lo <= times[i]
  {
    var before, last := times[..|times| - 1], times[|times| - 1];
    if Recent(before, after) == 0 {
      lo := last;
      NoneRecent(before, after);
    } else {
      lo := EarliestRecent(before, after);
      if after < last < lo {
        lo := last;
      }
    }
  }

  lemma {:induction false} NoneRecent(times: seq<real>, after: real)
    requires Recent(times, after) == 0
    ensures AllBy(times, after)
  {
    if times != [] {
      NoneRecent(times[..|times| - 1], after);
    }
  }

  lemma {:induction false} RecentIn(times: seq<real>, lo: real, hi: real, after: real)
    requires after < lo && forall i :: 0 <= i < |times| ==> times[i] < hi && (times[i] > after ==> lo <= times[i])
    ensures CountIn(times, lo, hi) == Recent(times, after)
  {
    if times != [] {
      RecentIn(times[..|times| - 1], lo, hi, after);
    }
  }

  /** A window that holds all the recent admissions and the present. */
  lemma RecentWindow(l: Limiter, s: State, now: real) returns (lo: real)
    requires l.Valid() && AllBy(s.admitted, s.clock) && s.clock <= now && Recent(s.admitted, now - l.window) > 0
    ensures lo <= s.clock && now < lo + l.window
    ensures CountIn(s.admitted, lo, lo + l.window) == Recent(s.admitted, now - l.window)
  {
    lo := EarliestRecent(s.admitted, now - l.window);
    RecentIn(s.admitted, lo, lo + l.window, now - l.window);
  }

  /** With no expire outstanding a counter outlives what it stands for. */
  lemma LosesWhileRenewing(l: Limiter, clock: real, steps: seq<Step>, step: Step)
    requires l.Valid() && Run(l, Initial(clock), steps, true).Some?
    requires Loses(l, Run(l, Initial(clock), steps, true).value, step)
    requires Enabled(l, Run(l, Initial(clock), steps, true).value, step)
    ensures Run(l, Initial(clock), steps, true).value.pending != {}
  {
    var s := Run(l, Initial(clock), steps, true).value;
    AdmittedByClock(l, Initial(clock), steps, true);
    var lo := RecentWindow(l, s, step.now);
    RunKeeps(l, Initial(clock), steps, lo, true);
    assert !Outlasts(l, s.counter, lo);
    assert Backed(l, s, lo, Recent(s.admitted, step.now - l.window), true);
  }

  /** After any run that lost no count, for every limit and concurrency: the next step makes
      more than `limit - 1 + slots` admissions in one window reachable, by steps that lose
      no further count, if and only if it loses one. */
  lemma BreachExactlyWhenCountLost(l: Limiter, clock: real, steps: seq<Step>, step: Step)
    requires l.Valid() && Run(l, Initial(clock), steps, true).Some?
    requires Enabled(l, Run(l, Initial(clock), steps, true).value, step)
    ensures Breakable(l, Next(l, Run(l, Initial(clock), steps, true).value, step))
       <==> Loses(l, Run(l, Initial(clock), steps, true).value, step)
  {
    var s := Run(l, Initial(clock), steps, true).value;
    if Loses(l, s, step) {
      LosesWhileRenewing(l, clock, steps, step);
      AdmittedByClock(l, Initial(clock), steps, true);
      RunKeeps(l, Initial(clock), steps, clock, true);
      LosingStep(l, s, step);
    } else {
      forall more, lo ensures !Breaches(l, Next(l, s, step), more, lo) {
        RunKeeps(l, Initial(clock), steps, lo, true);
        StaysWithin(l, s, step, more, lo);
      }
    }
  }

  lemma StaysWithin(l: Limiter, s: State, step: Step, more: seq<Step>, lo: real)
    requires l.Valid() && CountInv(l, s) && WindowInv(l, s, lo, true)
    requires Enabled(l, s, step) && !Loses(l, s, step)
    ensures !Breaches(l, Next(l, s, step), more, lo)
  {
    if Run(l, Next(l, s, step), more, true).Some? {
      CountKeeps(l, s, step);
      WindowKeeps(l, s, step, lo, true);
      RunKeeps(l, Next(l, s, step), more, lo, true);
    }
  }

  lemma LosingStep(l: Limiter, s: State, step: Step)
    requires l.Valid() && CountInv(l, s) && AllBy(s.admitted, s.clock) && s.pending != {}
    requires Enabled(l, s, step) && Loses(l, s, step)
    ensures Breakable(l, Next(l, s, step))
  {
    LosingStepLeaves(l, s, step);
    BurstBreaches(l, Next(l, s, step));
  }

  /** More recent admissions than the next counter will stand for. */
  lemma BurstBreaches(l: Limiter, s: State)
    requires l.Valid() && CountInv(l, s) && AllBy(s.admitted, s.clock) && Value(s) < l.Effective() && |s.issued| < l.slots
    requires Recent(s.admitted, s.clock - l.window) > Value(s) + |s.issued|
    ensures Breakable(l, s)
  {
    var lo := RecentWindow(l, s, s.clock);
    var more := Burst(l, s, lo);
    assert Breaches(l, s, more, lo);
  }

  /** What stands to be counted after a losing step, and the admissions no counter stands for. */
  lemma LosingStepLeaves(l: Limiter, s: State, step: Step)
    requires l.Valid() && CountInv(l, s) && AllBy(s.admitted, s.clock) && s.pending != {}
    requires Enabled(l, s, step) && Loses(l, s, step)
    ensures var t := Next(l, s, step);
      && CountInv(l, t) && AllBy(t.admitted, t.clock) && t.clock == step.now
      && Value(t) < l.Effective() && |t.issued| < l.slots
      && Recent(t.admitted, step.now - l.window) > Value(t) + |t.issued|
  {
    CountKeeps(l, s, step);
    assert |s.pending| >= 1;
    match step.action {
      case Issue(p) =>
        Added(s.issued, p);
        Removed(s.checked, p);
        assert (s.admitted + [step.now])[..|s.admitted|] == s.admitted;
      case Incr(p) => Removed(s.issued, p);
      case _ =>
    }
  }

  // ----- and a count can be lost -----

  /** A request counts itself at `counted`, inside the window of an earlier one. */
  function LosingRun(counted: real): seq<Step> {
    [At(0.0, Check(0)), At(0.0, Issue(0)), At(0.0, Incr(0)), At(0.0, Expire(0)),
     At(counted, Check(0)), At(counted, Issue(0)), At(counted, Incr(0))]
  }

  /** For every limit of at least two: a second request counts itself inside the first
      one's window and renews after its end; then a breach is reachable. */
  lemma LostCountExceedsLimit(l: Limiter, counted: real, renewed: real)
    requires l.Valid() && l.limit >= 2
    requires 0.0 <= counted < l.window <= renewed < counted + l.window
    ensures var end := Run(l, Initial(0.0), LosingRun(counted), true);
      && end.Some? && Enabled(l, end.value, At(renewed, Expire(0)))
      && Breakable(l, Next(l, end.value, At(renewed, Expire(0))))
  {
    var s := LosingRunEnds(l, counted);
    assert s.admitted[..1] == [0.0] && Recent(s.admitted, renewed - l.window) >= 1;
    BreachExactlyWhenCountLost(l, 0.0, LosingRun(counted), At(renewed, Expire(0)));
  }

  lemma LosingRunEnds(l: Limiter, counted: real) returns (s: State)
    requires l.Valid() && l.limit >= 2 && 0.0 <= counted < l.window
    ensures Run(l, Initial(0.0), LosingRun(counted), true) == Some(s)
    ensures s == State(Counting(2, Some(l.window)), {}, {}, {0}, [0.0, counted], counted)
  {
    var r := LosingRun(counted);
    var one := State(Counting(1, Some(l.window)), {}, {}, {}, [0.0], 0.0);
    s := State(Counting(2, Some(l.window)), {}, {}, {0}, [0.0, counted], counted);
    FirstCounts(l);
    SecondCounts(l, counted);
    assert r == r[..4] + r[4..];
    assert r[..4] == [At(0.0, Check(0)), At(0.0, Issue(0)), At(0.0, Incr(0)), At(0.0, Expire(0))];
    assert r[4..] == [At(counted, Check(0)), At(counted, Issue(0)), At(counted, Incr(0))];
    RunConcat(l, Initial(0.0), r[..4], r[4..], one);
  }

  lemma RunFirst(l: Limiter, s: State, step: Step, rest: seq<Step>)
    requires Enabled(l, s, step) && !Loses(l, s, step)
    ensures Run(l, s, [step] + rest, true) == Run(l, Next(l, s, step), rest, true)
  {
    assert ([step] + rest)[1..] == rest;
  }

  lemma FirstCounts(l: Limiter)
    requires l.Valid()
    ensures Run(l, Initial(0.0), [At(0.0, Check(0)), At(0.0, Issue(0)), At(0.0, Incr(0)), At(0.0, Expire(0))], true)
         == Some(State(Counting(1, Some(l.window)), {}, {}, {}, [0.0], 0.0))
  {
    var a, b, c, d := At(0.0, Check(0)), At(0.0, Issue(0)), At(0.0, Incr(0)), At(0.0, Expire(0));
    var s1 := State(Absent, {0}, {}, {}, [], 0.0);
    var s2 := State(Absent, {}, {0}, {}, [0.0], 0.0);
    var s3 := State(Counting(1, None), {}, {}, {0}, [0.0], 0.0);
    var s4 := State(Counting(1, Some(l.window)), {}, {}, {}, [0.0], 0.0);
    assert Next(l, Initial(0.0), a) == s1 && Next(l, s1, b) == s2 && Next(l, s2, c) == s3 && Next(l, s3, d) == s4;
    RunFirst(l, s3, d, []);
    RunFirst(l, s2, c, [d]);
    RunFirst(l, s1, b, [c, d]);
    RunFirst(l, Initial(0.0), a, [b, c, d]);
    assert [a] + [b, c, d] == [a, b, c, d] && [b] + [c, d] == [b, c, d] && [c] + [d] == [c, d] && [d] + [] == [d];
  }

  lemma SecondCounts(l: Limiter, counted: real)
    requires l.Valid() && l.limit >= 2 && 0.0 <= counted < l.window
    ensures Run(l, State(Counting(1, Some(l.window)), {}, {}, {}, [0.0], 0.0),
                [At(counted, Check(0)), At(counted, Issue(0)), At(counted, Incr(0))], true)
         == Some(State(Counting(2, Some(l.window)), {}, {}, {0}, [0.0, counted], counted))
  {
    var a, b, c := At(counted, Check(0)), At(counted, Issue(0)), At(counted, Incr(0));
    var s0 := State(Counting(1, Some(l.window)), {}, {}, {}, [0.0], 0.0);
    var s1 := s0.(checked := {0}, clock := counted);
    var s2 := s0.(issued := {0}, admitted := [0.0, counted], clock := counted);
    var s3 := State(Counting(2, Some(l.window)), {}, {}, {0}, [0.0, counted], counted);
    assert Next(l, s0, a) == s1 && Next(l, s1, b) == s2 && Next(l, s2, c) == s3;
    RunFirst(l, s2, c, []);
    RunFirst(l, s1, b, [c]);
    RunFirst(l, s0, a, [b, c]);
    assert [a] + [b, c] == [a, b, c] && [b] + [c] == [b, c] && [c] + [] == [c];
  }
}
