/** Sums over maps of counters. */
module Tally {

  type Counters = map<string, nat>

  function Count(m: Counters, k: string): nat {
    if k in m then m[k] else 0
  }

  /** `m[k] += amount` on a counter map whose missing keys read as zero. */
  function Bump(m: Counters, k: string, amount: nat): Counters {
    m[k := Count(m, k) + amount]
  }

  function Single(k: string, amount: nat): Counters {
    Bump(map[], k, amount)
  }

  ghost function Total(m: Counters): nat {
    if m == map[] then 0
    else
      var k :| k in m;
      m[k] + Total(m - {k})
  }

  lemma {:induction false} TotalSplit(m: Counters, k: string)
    requires k in m
    ensures Total(m) == m[k] + Total(m - {k})
    decreases |m|
  {
    var first :| first in m && Total(m) == m[first] + Total(m - {first});
    if first != k {
      TotalSplit(m - {first}, k);
      TotalSplit(m - {k}, first);
      assert m - {first} - {k} == m - {k} - {first};
    }
  }

  lemma TotalBump(m: Counters, k: string, amount: nat)
    ensures Total(Bump(m, k, amount)) == Total(m) + amount
  {
    var m' := Bump(m, k, amount);
    TotalSplit(m', k);
    assert m' - {k} == m - {k};
    if k in m {
      TotalSplit(m, k);
    } else {
      assert m - {k} == m;
    }
  }
}
