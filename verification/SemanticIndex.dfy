/** The semantic index as a value: a graph of keys whose content hashes are
    similar, updated one key at a time. */
module SemanticIndex {
  import opened Common

  datatype Node = Node(
    hash: string,
    related: set<string>,
    createdAt: real,
    lastAccessed: real,
    accessCount: nat,
    pattern: seq<real>,
    tenant: Option<string>)

  type Index = map<string, Node>

  // ----- similarity -----

  /** Positions at which both strings have the same character. */
  function CommonChars(a: string, b: string): nat {
    if a == "" || b == "" then 0
    else (if a[0] == b[0] then 1 else 0) + CommonChars(a[1..], b[1..])
  }

  function Similarity(a: string, b: string): real {
    if a == b then 1.0 else Share(CommonChars(a, b), Max(|a|, |b|))
  }

  function Share(part: nat, whole: nat): real
    requires whole > 0
  {
    part as real / whole as real
  }

  lemma {:induction false} CommonCharsFacts(a: string, b: string)
    ensures CommonChars(a, b) == CommonChars(b, a)
    ensures CommonChars(a, b) <= Min(|a|, |b|)
    ensures CommonChars(a, b) == |a| == |b| ==> a == b
  {
    if a != "" && b != "" {
      CommonCharsFacts(a[1..], b[1..]);
      assert a == [a[0]] + a[1..] && b == [b[0]] + b[1..];
    }
  }

  /** Symmetric, between 0 and 1, and 1 for equal hashes only. */
  lemma SimilarityFacts(a: string, b: string)
    ensures Similarity(a, b) == Similarity(b, a)
    ensures 0.0 <= Similarity(a, b) <= 1.0
    ensures Similarity(a, b) == 1.0 <==> a == b
  {
    CommonCharsFacts(a, b);
    if a != b {
      ProperShare(CommonChars(a, b), Max(|a|, |b|));
    }
  }

  lemma ProperShare(part: nat, whole: nat)
    requires part < whole
    ensures 0.0 <= Share(part, whole) < 1.0
  {
  }

  /** The positions at which two hashes agree. */
  function Agreeing(a: string, b: string): set<int> {
    set i | 0 <= i < |a| && i < |b| && a[i] == b[i]
  }

  function AgreeingFrom(a: string, b: string, k: nat): set<int> {
    set i | k <= i < |a| && i < |b| && a[i] == b[i]
  }

  lemma {:induction false} CommonCharsFrom(a: string, b: string, k: nat)
    requires k <= |a| && k <= |b|
    ensures CommonChars(a[k..], b[k..]) == |AgreeingFrom(a, b, k)|
    decreases |a| - k
  {
    if k == |a| || k == |b| {
      assert AgreeingFrom(a, b, k) == {};
    } else {
      CommonCharsFrom(a, b, k + 1);
      assert a[k..][1..] == a[k + 1..] && b[k..][1..] == b[k + 1..];
      assert AgreeingFrom(a, b, k) == AgreeingFrom(a, b, k + 1) + (if a[k] == b[k] then {k} else {});
    }
  }

  lemma CommonCharsAgree(a: string, b: string)
    ensures CommonChars(a, b) == |Agreeing(a, b)|
  {
    CommonCharsFrom(a, b, 0);
    assert a[0..] == a && b[0..] == b;
    assert AgreeingFrom(a, b, 0) == Agreeing(a, b);
  }

  lemma {:induction false} SelfAgrees(a: string)
    ensures |Agreeing(a, a)| == |a|
  {
    if a == "" {
      assert Agreeing(a, a) == {};
    } else {
      SelfAgrees(a[1..]);
      CommonCharsAgree(a, a);
      CommonCharsAgree(a[1..], a[1..]);
    }
  }

  /** How similar two hashes are: the agreeing positions as a share of the longer hash. */
  lemma SimilarityIsShare(a: string, b: string)
    ensures a != "" || b != "" ==>
      Similarity(a, b) * (if |a| < |b| then |b| else |a|) as real == |Agreeing(a, b)| as real
    ensures a == b == "" ==> Similarity(a, b) == 1.0
  {
    if a == b {
      SelfAgrees(a);
    } else {
      CommonCharsAgree(a, b);
      ShareOf(CommonChars(a, b), Max(|a|, |b|));
    }
  }

  lemma ShareOf(part: nat, whole: nat)
    requires whole > 0
    ensures Share(part, whole) * whole as real == part as real
  {
  }

  // ----- operations -----

  predicate Similar(a: string, b: string, threshold: real) {
    Similarity(a, b) > threshold
  }

  function NewNode(hash: string, tenant: Option<string>, now: real): Node {
    Node(hash, {}, now, now, 1, [now], tenant)
  }

  /** Links the new node at `key` both ways with each similar node among `done`. */
  function Link(ix: Index, key: string, threshold: real, done: set<string>): Index
    requires key in ix
  {
    map k | k in ix ::
      if k == key then ix[k].(related := ix[k].related + SimilarAmong(ix, key, threshold, done))
      else if k in done && Similar(ix[key].hash, ix[k].hash, threshold) then ix[k].(related := ix[k].related + {key})
      else ix[k]
  }

  function SimilarAmong(ix: Index, key: string, threshold: real, among: set<string>): set<string>
    requires key in ix
  {
    set k | k in among && k in ix && k != key && Similar(ix[key].hash, ix[k].hash, threshold)
  }

  /** Replaces whatever was at `key`, then links. */
  function Add(ix: Index, key: string, hash: string, tenant: Option<string>, threshold: real, now: real): Index {
    var ix' := ix[key := NewNode(hash, tenant, now)];
    Link(ix', key, threshold, ix'.Keys)
  }

  function LastHundred(s: seq<real>): seq<real> {
    if |s| > 100 then s[|s| - 100..] else s
  }

  function RecordAccess(n: Node, now: real): Node {
    n.(lastAccessed := now, accessCount := n.accessCount + 1, pattern := LastHundred(n.pattern + [now]))
  }

  function Access(ix: Index, key: string, now: real): Index {
    if key in ix then ix[key := RecordAccess(ix[key], now)] else ix
  }

  /** Unlinks `key` from the nodes in `done`. */
  function Unlink(ix: Index, key: string, done: set<string>): Index {
    map k | k in ix :: if k in done then ix[k].(related := ix[k].related - {key}) else ix[k]
  }

  function Remove(ix: Index, key: string): Index {
    if key in ix then Unlink(ix, key, ix[key].related) - {key} else ix
  }

  // ----- invariants -----

  /** Any two distinct keys with similar hashes list each other. */
  ghost predicate Complete(ix: Index, threshold: real) {
    forall a, b :: a in ix && b in ix && a != b && Similar(ix[a].hash, ix[b].hash, threshold) ==> b in ix[a].related
  }

  ghost predicate Irreflexive(ix: Index) {
    forall a :: a in ix ==> a !in ix[a].related
  }

  /** Each key lists exactly the other present keys with similar hashes. */
  ghost predicate Exact(ix: Index, threshold: real) {
    forall a :: a in ix ==> ix[a].related == SimilarAmong(ix, a, threshold, ix.Keys)
  }

  /** An exact relation is symmetric and names present keys only. */
  lemma ExactIsSymmetric(ix: Index, threshold: real)
    requires Exact(ix, threshold)
    ensures forall a, b :: a in ix && b in ix[a].related ==> b in ix && a in ix[b].related
  {
    forall a, b | a in ix && b in ix[a].related
      ensures b in ix && a in ix[b].related
    {
      SimilarityFacts(ix[a].hash, ix[b].hash);
    }
  }

  lemma AddKeepsComplete(ix: Index, key: string, hash: string, tenant: Option<string>, threshold: real, now: real)
    requires Complete(ix, threshold) && Irreflexive(ix)
    ensures Complete(Add(ix, key, hash, tenant, threshold, now), threshold)
    ensures Irreflexive(Add(ix, key, hash, tenant, threshold, now))
  {
    var ix' := Add(ix, key, hash, tenant, threshold, now);
    forall a, b | a in ix' && b in ix' && a != b && Similar(ix'[a].hash, ix'[b].hash, threshold)
      ensures b in ix'[a].related
    {
      SimilarityFacts(ix'[a].hash, ix'[b].hash);
    }
  }

  lemma Exceeds(share: real, threshold: real, count: real, m: real)
    requires m > 0.0 && share * m == count
    ensures share > threshold <==> count > threshold * m
  {
    if share > threshold {
      assert share * m > threshold * m;
    } else {
      assert share * m <= threshold * m;
    }
  }

  /** What an addition links, on positions: the new key to each other one whose hash agrees
      with its own in more than the threshold's share of the longer, both ways; older links
      to the key stay, and no others change. */
  lemma AddLinksExactly(ix: Index, key: string, hash: string, tenant: Option<string>, threshold: real, now: real, other: string)
    requires other in ix && other != key && (hash != "" || ix[other].hash != "")
    ensures var ix', alike := Add(ix, key, hash, tenant, threshold, now), Alike(hash, ix[other].hash, threshold);
      && ix'.Keys == ix.Keys + {key} && ix'[key].hash == hash && ix'[other].hash == ix[other].hash
      && (other in ix'[key].related <==> alike)
      && ix'[other].related == ix[other].related + (if alike then {key} else {})
  {
    AddLinks(ix, key, hash, tenant, threshold, now, other);
    SimilarExactly(hash, ix[other].hash, threshold);
  }

  lemma AddLinks(ix: Index, key: string, hash: string, tenant: Option<string>, threshold: real, now: real, other: string)
    requires other in ix && other != key
    ensures var ix', alike := Add(ix, key, hash, tenant, threshold, now), Similar(hash, ix[other].hash, threshold);
      && ix'.Keys == ix.Keys + {key} && ix'[key].hash == hash && ix'[other].hash == ix[other].hash
      && (other in ix'[key].related <==> alike)
      && ix'[other].related == ix[other].related + (if alike then {key} else {})
  {
  }

  /** The hashes agree in more than the threshold's share of the longer one's positions. */
  predicate Alike(a: string, b: string, threshold: real) {
    |Agreeing(a, b)| as real > threshold * (if |a| < |b| then |b| else |a|) as real
  }

  lemma SimilarExactly(a: string, b: string, threshold: real)
    requires a != "" || b != ""
    ensures Similar(a, b, threshold) <==> Alike(a, b, threshold)
  {
    SimilarityIsShare(a, b);
    Exceeds(Similarity(a, b), threshold, |Agreeing(a, b)| as real, (if |a| < |b| then |b| else |a|) as real);
  }

  lemma RemoveKeepsComplete(ix: Index, key: string, threshold: real)
    requires Complete(ix, threshold) && Irreflexive(ix)
    ensures Complete(Remove(ix, key), threshold) && Irreflexive(Remove(ix, key))
  {
    var ix' := Remove(ix, key);
  }

  lemma RemoveKeepsExact(ix: Index, key: string, threshold: real)
    requires Exact(ix, threshold)
    ensures Exact(Remove(ix, key), threshold)
  {
    if key in ix {
      ExactIsSymmetric(ix, threshold);
      var ix' := Remove(ix, key);
      forall a | a in ix' ensures ix'[a].related == SimilarAmong(ix', a, threshold, ix'.Keys) {
        assert key in ix[a].related <==> a in ix[key].related;
        assert ix'[a].related == ix[a].related - {key};
      }
    }
  }

  /** Adding keeps an exact relation exact if and only if the key is new or its new
      hash is still similar to everything it was related to. */
  lemma AddExactIff(ix: Index, key: string, hash: string, tenant: Option<string>, threshold: real, now: real)
    requires Exact(ix, threshold)
    ensures Exact(Add(ix, key, hash, tenant, threshold, now), threshold)
       <==> (key in ix ==> forall b :: b in ix[key].related ==> Similar(hash, ix[b].hash, threshold))
  {
    ExactIsSymmetric(ix, threshold);
    var ix' := Add(ix, key, hash, tenant, threshold, now);
    assert ix'.Keys == ix.Keys + {key};
    assert forall a :: a in ix' ==> ix'[a].hash == if a == key then hash else ix[a].hash;
    if key in ix && exists b :: b in ix[key].related && !Similar(hash, ix[b].hash, threshold) {
      var b :| b in ix[key].related && !Similar(hash, ix[b].hash, threshold);
      assert key in ix'[b].related;
      SimilarityFacts(hash, ix[b].hash);
      assert key !in SimilarAmong(ix', b, threshold, ix'.Keys);
    } else {
      forall a | a in ix' ensures ix'[a].related == SimilarAmong(ix', a, threshold, ix'.Keys) {
        AddedRelation(ix, ix', key, hash, tenant, threshold, now, a);
      }
    }
  }

  lemma AddedRelation(ix: Index, ix': Index, key: string, hash: string, tenant: Option<string>, threshold: real, now: real, a: string)
    requires Exact(ix, threshold) && ix' == Add(ix, key, hash, tenant, threshold, now) && a in ix'
    requires forall x, y :: x in ix && y in ix[x].related ==> y in ix && x in ix[y].related
    requires key in ix ==> forall b :: b in ix[key].related ==> Similar(hash, ix[b].hash, threshold)
    ensures ix'[a].related == SimilarAmong(ix', a, threshold, ix'.Keys)
  {
    forall b ensures b in ix'[a].related <==> b in SimilarAmong(ix', a, threshold, ix'.Keys) {
      if b in ix' {
        SimilarityFacts(ix'[a].hash, ix'[b].hash);
      }
    }
  }

  // ----- runs -----

  datatype Op =
    | OpAdd(key: string, hash: string, tenant: Option<string>, now: real)
    | OpAccess(key: string, now: real)
    | OpRemove(key: string)

  function Step(ix: Index, op: Op, threshold: real): Index {
    match op
    case OpAdd(key, hash, tenant, now) => Add(ix, key, hash, tenant, threshold, now)
    case OpAccess(key, now) => Access(ix, key, now)
    case OpRemove(key) => Remove(ix, key)
  }

  function Run(ops: seq<Op>, threshold: real): Index {
    if ops == [] then map[] else Step(Run(ops[..|ops| - 1], threshold), ops[|ops| - 1], threshold)
  }

  /** No key is added while present. */
  predicate NeverReAdds(ops: seq<Op>, threshold: real) {
    ops == [] ||
    var last := ops[|ops| - 1];
    && NeverReAdds(ops[..|ops| - 1], threshold)
    && (last.OpAdd? ==> last.key !in Run(ops[..|ops| - 1], threshold))
  }

  /** In every run, similar keys list each other and no key lists itself. */
  lemma {:induction false} RunComplete(ops: seq<Op>, threshold: real)
    ensures Complete(Run(ops, threshold), threshold) && Irreflexive(Run(ops, threshold))
  {
    if ops != [] {
      RunComplete(ops[..|ops| - 1], threshold);
      var ix := Run(ops[..|ops| - 1], threshold);
      match ops[|ops| - 1] {
        case OpAdd(key, hash, tenant, now) => AddKeepsComplete(ix, key, hash, tenant, threshold, now);
        case OpAccess(key, now) =>
        case OpRemove(key) => RemoveKeepsComplete(ix, key, threshold);
      }
    }
  }

  /** In runs that never add a present key, the relation is exactly similarity. */
  lemma {:induction false} RunExact(ops: seq<Op>, threshold: real)
    requires NeverReAdds(ops, threshold)
    ensures Exact(Run(ops, threshold), threshold)
  {
    if ops != [] {
      RunExact(ops[..|ops| - 1], threshold);
      var ix := Run(ops[..|ops| - 1], threshold);
      match ops[|ops| - 1] {
        case OpAdd(key, hash, tenant, now) => AddExactIff(ix, key, hash, tenant, threshold, now);
        case OpAccess(key, now) => AccessKeepsExact(ix, key, threshold, now);
        case OpRemove(key) => RemoveKeepsExact(ix, key, threshold);
      }
    }
  }

  /** An addition of a present key whose new hash stays similar to all it was related to. */
  ghost predicate KeepsLinks(ix: Index, op: Op, threshold: real) {
    op.OpAdd? && op.key in ix ==> forall b :: b in ix[op.key].related && b in ix ==> Similar(op.hash, ix[b].hash, threshold)
  }

  ghost predicate AllKeepLinks(ops: seq<Op>, threshold: real) {
    ops == [] ||
    (AllKeepLinks(ops[..|ops| - 1], threshold) && KeepsLinks(Run(ops[..|ops| - 1], threshold), ops[|ops| - 1], threshold))
  }

  ghost predicate AlwaysExact(ops: seq<Op>, threshold: real) {
    ops == [] || (AlwaysExact(ops[..|ops| - 1], threshold) && Exact(Run(ops, threshold), threshold))
  }

  /** In every run the relation is exactly similarity all along if and only if every
      addition of a present key keeps its links. */
  lemma {:induction false} ExactExactlyWhenLinksKept(ops: seq<Op>, threshold: real)
    ensures AlwaysExact(ops, threshold) <==> AllKeepLinks(ops, threshold)
    ensures AlwaysExact(ops, threshold) ==> Exact(Run(ops, threshold), threshold)
  {
    if ops != [] {
      ExactExactlyWhenLinksKept(ops[..|ops| - 1], threshold);
      if AlwaysExact(ops[..|ops| - 1], threshold) {
        StepExactly(Run(ops[..|ops| - 1], threshold), ops[|ops| - 1], threshold);
      }
    }
  }

  lemma StepExactly(ix: Index, op: Op, threshold: real)
    requires Exact(ix, threshold)
    ensures Exact(Step(ix, op, threshold), threshold) <==> KeepsLinks(ix, op, threshold)
  {
    ExactIsSymmetric(ix, threshold);
    match op {
      case OpAdd(key, hash, tenant, now) => AddExactIff(ix, key, hash, tenant, threshold, now);
      case OpAccess(key, now) => AccessKeepsExact(ix, key, threshold, now);
      case OpRemove(key) => RemoveKeepsExact(ix, key, threshold);
    }
  }

  lemma AccessKeepsExact(ix: Index, key: string, threshold: real, now: real)
    requires Exact(ix, threshold)
    ensures Exact(Access(ix, key, now), threshold)
  {
    var ix' := Access(ix, key, now);
    assert ix'.Keys == ix.Keys;
    forall a | a in ix' ensures SimilarAmong(ix', a, threshold, ix'.Keys) == SimilarAmong(ix, a, threshold, ix.Keys) {
    }
  }

  /** Re-adding can leave a one-sided link that outlives the key itself. */
  lemma ReAddLeavesDanglingLink(threshold: real)
    requires 0.0 <= threshold < 1.0
    ensures var ix := Run([OpAdd("a", "x", None, 0.0), OpAdd("b", "x", None, 0.0), OpAdd("a", "y", None, 0.0), OpRemove("a")], threshold);
      "a" !in ix && "b" in ix && "a" in ix["b"].related
  {
    var ops := [OpAdd("a", "x", None, 0.0), OpAdd("b", "x", None, 0.0), OpAdd("a", "y", None, 0.0), OpRemove("a")];
    var i2 := TwoLinked(threshold);
    var i3 := RunNext([ops[0], ops[1]], ops[2], threshold);
    assert CommonChars("y", "x") == 0;
    assert "b" !in i3["a"].related && "a" in i3["b"].related;
    assert [ops[0], ops[1]] + [ops[2]] == [ops[0], ops[1], ops[2]];
    var i4 := RunNext([ops[0], ops[1], ops[2]], ops[3], threshold);
    assert [ops[0], ops[1], ops[2]] + [ops[3]] == ops;
  }

  /** Two keys with one hash, each listing the other. */
  lemma TwoLinked(threshold: real) returns (ix: Index)
    requires 0.0 <= threshold < 1.0
    ensures ix == Run([OpAdd("a", "x", None, 0.0), OpAdd("b", "x", None, 0.0)], threshold)
    ensures ix.Keys == {"a", "b"} && ix["b"].hash == "x" && "a" in ix["b"].related
  {
    var a, b := OpAdd("a", "x", None, 0.0), OpAdd("b", "x", None, 0.0);
    var i1 := RunNext([], a, threshold);
    assert [] + [a] == [a] && [a] + [b] == [a, b];
    ix := RunNext([a], b, threshold);
    assert ix.Keys == {"a", "b"};
  }

  lemma RunNext(ops: seq<Op>, op: Op, threshold: real) returns (ix: Index)
    ensures ix == Run(ops + [op], threshold) == Step(Run(ops, threshold), op, threshold)
  {
    assert (ops + [op])[..|ops|] == ops;
    ix := Run(ops + [op], threshold);
  }

  // ----- access history -----

  /** When `key` was added and accessed, since it was last added. */
  function AccessTimes(ops: seq<Op>, threshold: real, key: string): seq<real> {
    if ops == [] then []
    else
      var before := AccessTimes(ops[..|ops| - 1], threshold, key);
      match ops[|ops| - 1]
      case OpAdd(k, _, _, now) => if k == key then [now] else before
      case OpAccess(k, now) => if k == key && key in Run(ops[..|ops| - 1], threshold) then before + [now] else before
      case OpRemove(_) => before
  }

  lemma LastHundredTwice(times: seq<real>, now: real)
    ensures LastHundred(LastHundred(times) + [now]) == LastHundred(times + [now])
  {
  }

  /** An entry tells of these accesses, the first being its addition. */
  ghost predicate Records(n: Node, times: seq<real>) {
    && times != []
    && n.pattern == (if |times| <= 100 then times else times[|times| - 100..])
    && n.accessCount == |times|
    && n.lastAccessed == times[|times| - 1]
    && n.createdAt == times[0]
  }

  lemma StepRecords(ops: seq<Op>, threshold: real, k: string)
    requires ops != [] && k in Run(ops, threshold)
    requires var before := ops[..|ops| - 1];
      k in Run(before, threshold) ==> Records(Run(before, threshold)[k], AccessTimes(before, threshold, k))
    ensures Records(Run(ops, threshold)[k], AccessTimes(ops, threshold, k))
  {
    var before, op := ops[..|ops| - 1], ops[|ops| - 1];
    StepRecordsAt(Run(before, threshold), op, threshold, k);
    if op.OpAccess? && op.key == k {
      LastHundredTwice(AccessTimes(before, threshold, k), op.now);
    }
  }

  /** Only an addition or an access of the key itself is recorded there. */
  lemma StepRecordsAt(ix: Index, op: Op, threshold: real, k: string)
    requires k in Step(ix, op, threshold)
    ensures var n := Step(ix, op, threshold)[k];
      if op.OpAdd? && op.key == k then n.pattern == [op.now] && n.accessCount == 1 && n.lastAccessed == n.createdAt == op.now
      else
        && k in ix && n.createdAt == ix[k].createdAt
        && if op.OpAccess? && op.key == k
           then n.pattern == LastHundred(ix[k].pattern + [op.now]) && n.accessCount == ix[k].accessCount + 1 && n.lastAccessed == op.now
           else n.pattern == ix[k].pattern && n.accessCount == ix[k].accessCount && n.lastAccessed == ix[k].lastAccessed
  {
  }

  /** In every run each entry counts all accesses since it was added and remembers the
      last hundred of them; linking and unlinking never disturb this. */
  lemma {:induction false} RunRecordsAccesses(ops: seq<Op>, threshold: real)
    ensures forall k :: k in Run(ops, threshold) ==> Records(Run(ops, threshold)[k], AccessTimes(ops, threshold, k))
  {
    if ops != [] {
      RunRecordsAccesses(ops[..|ops| - 1], threshold);
      forall k | k in Run(ops, threshold) ensures Records(Run(ops, threshold)[k], AccessTimes(ops, threshold, k)) {
        StepRecords(ops, threshold, k);
      }
    }
  }
}
