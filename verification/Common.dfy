/** Options, order-preserving filters and small facts about sequences and sets
    that several components share. */
module Common {

  datatype Option<+T> = None | Some(value: T)

  function Max(a: int, b: int): int {
    if a < b then b else a
  }

  function Min(a: int, b: int): int {
    if a < b then a else b
  }

  function MaxReal(a: real, b: real): real {
    if a < b then b else a
  }

  /** Python's `int(x)` on a float: truncation toward zero. */
  function Trunc(x: real): int {
    if x >= 0.0 then x.Floor else -((-x).Floor)
  }

  /** Python's `s[:n]`, where a negative `n` counts from the back. */
  function Prefix<T>(s: seq<T>, n: int): seq<T> {
    s[..PrefixLength(|s|, n)]
  }

  function PrefixLength(size: nat, n: int): (len: nat)
    ensures len <= size
  {
    if n >= 0 then Min(n, size) else Max(0, size + n)
  }

  /** The characters Python counts as white space. */
  predicate IsSpace(c: char) {
    var n := c as int;
    9 <= n <= 13 || 28 <= n <= 32 || n == 0x85 || n == 0xA0 || n == 0x1680 || 0x2000 <= n <= 0x200A
    || n == 0x2028 || n == 0x2029 || n == 0x202F || n == 0x205F || n == 0x3000
  }

  function Strip(s: string): string {
    if s != "" && IsSpace(s[0]) then Strip(s[1..])
    else if s != "" && IsSpace(s[|s| - 1]) then Strip(s[..|s| - 1])
    else s
  }

  /** Blanks one by one: tab to carriage return, the four separators, space, next line, the
      no-break, ogham, em and other wide spaces, line and paragraph separator. */
  const BLANKS := {
    '\t', '\n', '\U{0B}', '\U{0C}', '\r', '\U{1C}', '\U{1D}', '\U{1E}', '\U{1F}', ' ', '\U{85}', '\U{A0}', '\U{1680}',
    '\U{2000}', '\U{2001}', '\U{2002}', '\U{2003}', '\U{2004}', '\U{2005}', '\U{2006}', '\U{2007}', '\U{2008}',
    '\U{2009}', '\U{200A}', '\U{2028}', '\U{2029}', '\U{202F}', '\U{205F}', '\U{3000}'}

  /** These and no others count as white space. */
  lemma SpaceIsBlank(c: char)
    ensures IsSpace(c) <==> c in BLANKS
  {
  }

  /** Stripping takes away blanks at both ends, up to the first others, and nothing else. */
  lemma {:induction false} StripTakesBlanks(s: string) returns (i: nat, j: nat)
    ensures i <= j <= |s| && Strip(s) == s[i..j]
    ensures forall k :: 0 <= k < |s| && !(i <= k < j) ==> IsSpace(s[k])
    ensures i < j ==> !IsSpace(s[i]) && !IsSpace(s[j - 1])
    decreases |s|
  {
    if s != "" && IsSpace(s[0]) {
      i, j := StripTakesBlanks(s[1..]);
      i, j := i + 1, j + 1;
      assert s[1..][i - 1..j - 1] == s[i..j];
      assert forall k :: 0 < k < |s| ==> s[k] == s[1..][k - 1];
    } else if s != "" && IsSpace(s[|s| - 1]) {
      i, j := StripTakesBlanks(s[..|s| - 1]);
      assert s[..|s| - 1][i..j] == s[i..j];
    } else {
      i, j := 0, |s|;
      assert s[0..|s|] == s;
    }
  }

  /** A number above all of a finite set. */
  lemma {:induction false} Above(ids: set<nat>) returns (p: nat)
    ensures forall q :: q in ids ==> q < p
  {
    if ids == {} {
      p := 0;
    } else {
      var q :| q in ids;
      var r := Above(ids - {q});
      p := Max(r, q + 1);
      assert forall x :: x in ids ==> x == q || x in ids - {q};
    }
  }

  lemma Associative<T>(a: seq<T>, b: seq<T>, c: seq<T>)
    ensures a + (b + c) == a + b + c
  {
  }

  lemma Unsnoc<T>(s: seq<T>)
    requires s != []
    ensures s == s[..|s| - 1] + [s[|s| - 1]]
  {
  }

  /** Slicing a concatenation inside its first part. */
  lemma SliceAppend<T>(s: seq<T>, rest: seq<T>, i: nat)
    requires i <= |s|
    ensures (s + rest)[..i] == s[..i] && (s + rest)[i..] == s[i..] + rest
  {
  }

  ghost predicate Distinct<T>(s: seq<T>) {
    forall i, j :: 0 <= i < j < |s| ==> s[i] != s[j]
  }

  function Elems<T(==)>(s: seq<T>): set<T> {
    set x | x in s
  }

  /** The elements of `s` outside `drop`, in their original order. */
  function Filter<T(==)>(s: seq<T>, drop: set<T>): seq<T> {
    if s == [] then []
    else if s[0] in drop then Filter(s[1..], drop)
    else [s[0]] + Filter(s[1..], drop)
  }

  /** `rank` increases strictly along `s`. */
  ghost predicate Increasing<T(!new)>(s: seq<T>, rank: T -> int) {
    forall i, j :: 0 <= i < j < |s| ==> rank(s[i]) < rank(s[j])
  }

  lemma {:induction false} FilterMembers<T>(s: seq<T>, drop: set<T>)
    ensures forall x :: x in Filter(s, drop) <==> x in s && x !in drop
    ensures Distinct(s) ==> Distinct(Filter(s, drop))
  {
    if s != [] {
      FilterMembers(s[1..], drop);
      assert s == [s[0]] + s[1..];
      if Distinct(s) && s[0] !in drop {
        assert s[0] !in s[1..];
        var rest := Filter(s[1..], drop);
        assert s[0] !in rest;
      }
    }
  }

  lemma {:induction false} FilterIncreasing<T(!new)>(s: seq<T>, drop: set<T>, rank: T -> int)
    requires Increasing(s, rank)
    ensures Increasing(Filter(s, drop), rank)
  {
    if s != [] {
      FilterIncreasing(s[1..], drop, rank);
      FilterMembers(s[1..], drop);
      var rest := Filter(s[1..], drop);
      forall j | 0 <= j < |rest|
        ensures rank(s[0]) < rank(rest[j])
      {
        assert rest[j] in s[1..];
      }
    }
  }

  lemma {:induction false} FilterNothing<T>(s: seq<T>, drop: set<T>)
    requires forall x :: x in s ==> x !in drop
    ensures Filter(s, drop) == s
  {
    if s != [] {
      FilterNothing(s[1..], drop);
    }
  }

  lemma {:induction false} FilterAll<T>(s: seq<T>, drop: set<T>)
    requires forall x :: x in s ==> x in drop
    ensures Filter(s, drop) == []
  {
    if s != [] {
      FilterAll(s[1..], drop);
    }
  }

  lemma {:induction false} FilterConcat<T>(s: seq<T>, t: seq<T>, drop: set<T>)
    ensures Filter(s + t, drop) == Filter(s, drop) + Filter(t, drop)
  {
    if s == [] {
      assert s + t == t;
    } else {
      assert (s + t)[1..] == s[1..] + t;
      FilterConcat(s[1..], t, drop);
    }
  }

  lemma {:induction false} FilterTwice<T>(s: seq<T>, a: set<T>, b: set<T>)
    ensures Filter(Filter(s, a), b) == Filter(s, a + b)
  {
    if s != [] {
      FilterTwice(s[1..], a, b);
      if s[0] !in a {
        assert ([s[0]] + Filter(s[1..], a))[1..] == Filter(s[1..], a);
      }
    }
  }

  lemma {:induction false} DistinctCardinality<T>(s: seq<T>)
    requires Distinct(s)
    ensures |Elems(s)| == |s|
  {
    if s != [] {
      DistinctCardinality(s[1..]);
      assert s == [s[0]] + s[1..];
      assert s[0] !in s[1..];
      assert Elems(s) == {s[0]} + Elems(s[1..]);
    }
  }

  lemma {:induction false} SubsetCardinality<T>(a: set<T>, b: set<T>)
    requires a <= b
    ensures |a| <= |b|
    ensures |a| == |b| ==> a == b
  {
    assert b == a + (b - a);
  }

  /** One element taken from what is still to do goes to what is done. */
  lemma TakeOne<T>(all: set<T>, todo: set<T>, x: T)
    requires todo <= all && x in todo
    ensures all - (todo - {x}) == (all - todo) + {x} && x !in all - todo
  {
  }

  lemma TookAll<T>(all: set<T>, todo: set<T>)
    requires todo == {}
    ensures all - todo == all
  {
  }
}
