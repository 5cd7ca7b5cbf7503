/** `CacheMetricsCollector`: counters per tenant, level and operation kept up to date
    record by record, and a bounded history. */
module CacheMetrics {
  import opened Common
  import opened Tally

  datatype Metric = Metric(timestamp: real, level: string, tenant: Option<string>, operation: string, memory: int)

  /** One row of the tenant or level statistics. */
  datatype Stat = Stat(operations: nat, hits: nat, misses: nat)

  const NO_STAT := Stat(0, 0, 0)

  /** Missing and empty tenants are recorded together. */
  function TenantOf(m: Metric): string {
    if m.tenant.Some? && m.tenant.value != "" then m.tenant.value else "global"
  }

  function StatAt(stats: map<string, Stat>, k: string): Stat {
    if k in stats then stats[k] else NO_STAT
  }

  function BumpStat(stat: Stat, operation: string): Stat {
    Stat(stat.operations + 1,
         if operation == "hit" then stat.hits + 1 else stat.hits,
         if operation == "miss" then stat.misses + 1 else stat.misses)
  }

  /** The last `n` elements. */
  function LastN<T>(s: seq<T>, n: nat): seq<T> {
    if |s| > n then s[|s| - n..] else s
  }

  // ----- recounts of the full log -----

  datatype Field = Tenant | Level

  function KeyOf(m: Metric, field: Field): string {
    match field case Tenant => TenantOf(m) case Level => m.level
  }

  /** Recounts one row from scratch. */
  function Recount(log: seq<Metric>, field: Field, k: string): Stat {
    if log == [] then NO_STAT
    else
      var before := Recount(log[..|log| - 1], field, k);
      var m := log[|log| - 1];
      if KeyOf(m, field) == k then BumpStat(before, m.operation) else before
  }

  function CountOperation(log: seq<Metric>, operation: string): nat {
    if log == [] then 0
    else CountOperation(log[..|log| - 1], operation) + (if log[|log| - 1].operation == operation then 1 else 0)
  }

  ghost predicate StatsMatch(log: seq<Metric>, field: Field, stats: map<string, Stat>) {
    && (forall k :: StatAt(stats, k) == Recount(log, field, k))
    && (forall m :: m in log ==> KeyOf(m, field) in stats)
  }

  ghost predicate OperationsMatch(log: seq<Metric>, operations: Counters) {
    forall k :: Count(operations, k) == CountOperation(log, k)
  }

  lemma RecountStep(log: seq<Metric>, m: Metric, field: Field, k: string)
    ensures Recount(log + [m], field, k) ==
      if KeyOf(m, field) == k then BumpStat(Recount(log, field, k), m.operation) else Recount(log, field, k)
    ensures CountOperation(log + [m], k) == CountOperation(log, k) + (if m.operation == k then 1 else 0)
  {
    assert (log + [m])[..|log|] == log;
  }

  lemma StatsStep(log: seq<Metric>, m: Metric, field: Field, stats: map<string, Stat>)
    requires StatsMatch(log, field, stats)
    ensures var k := KeyOf(m, field);
      StatsMatch(log + [m], field, stats[k := BumpStat(StatAt(stats, k), m.operation)])
  {
    forall k ensures Recount(log + [m], field, k) ==
      if KeyOf(m, field) == k then BumpStat(Recount(log, field, k), m.operation) else Recount(log, field, k)
    {
      RecountStep(log, m, field, k);
    }
  }

  lemma OperationsStep(log: seq<Metric>, m: Metric, operations: Counters)
    requires OperationsMatch(log, operations)
    ensures OperationsMatch(log + [m], Bump(operations, m.operation, 1))
  {
    forall k ensures CountOperation(log + [m], k) == CountOperation(log, k) + (if m.operation == k then 1 else 0) {
      RecountStep(log, m, Tenant, k);
    }
  }

  // ----- conservation -----

  datatype Column = Operations | Hits | Misses

  function Cell(stat: Stat, c: Column): nat {
    match c case Operations => stat.operations case Hits => stat.hits case Misses => stat.misses
  }

  function ColumnOf(stats: map<string, Stat>, c: Column): Counters {
    map k | k in stats :: Cell(stats[k], c)
  }

  /** How often a record counts in a column. */
  function Weight(m: Metric, c: Column): nat {
    match c
    case Operations => 1
    case Hits => if m.operation == "hit" then 1 else 0
    case Misses => if m.operation == "miss" then 1 else 0
  }

  function TotalWeight(log: seq<Metric>, c: Column): nat {
    if log == [] then 0 else TotalWeight(log[..|log| - 1], c) + Weight(log[|log| - 1], c)
  }

  /** The statistics a collector ends up with after a log. */
  function StatsOf(log: seq<Metric>, field: Field): map<string, Stat> {
    if log == [] then map[]
    else
      var stats := StatsOf(log[..|log| - 1], field);
      var m := log[|log| - 1];
      stats[KeyOf(m, field) := BumpStat(StatAt(stats, KeyOf(m, field)), m.operation)]
  }

  function OperationsOf(log: seq<Metric>): Counters {
    if log == [] then map[] else Bump(OperationsOf(log[..|log| - 1]), log[|log| - 1].operation, 1)
  }

  lemma {:induction false} StatsOfMatch(log: seq<Metric>, field: Field)
    ensures StatsMatch(log, field, StatsOf(log, field))
  {
    if log != [] {
      var n := |log| - 1;
      StatsOfMatch(log[..n], field);
      StatsStep(log[..n], log[n], field, StatsOf(log[..n], field));
      assert log[..n] + [log[n]] == log;
    }
  }

  lemma {:induction false} OperationsOfMatch(log: seq<Metric>)
    ensures OperationsMatch(log, OperationsOf(log))
    ensures Total(OperationsOf(log)) == |log|
  {
    if log != [] {
      var n := |log| - 1;
      OperationsOfMatch(log[..n]);
      OperationsStep(log[..n], log[n], OperationsOf(log[..n]));
      TotalBump(OperationsOf(log[..n]), log[n].operation, 1);
      assert log[..n] + [log[n]] == log;
    }
  }

  lemma ColumnBump(stats: map<string, Stat>, k: string, m: Metric, c: Column)
    ensures ColumnOf(stats[k := BumpStat(StatAt(stats, k), m.operation)], c) == Bump(ColumnOf(stats, c), k, Weight(m, c))
  {
  }

  /** Every column sums over its rows to the weight of the whole log, whichever way
      the rows are grouped. */
  lemma {:induction false} ColumnTotals(log: seq<Metric>, field: Field, c: Column)
    ensures Total(ColumnOf(StatsOf(log, field), c)) == TotalWeight(log, c)
  {
    if log == [] {
      assert ColumnOf(map[], c) == map[];
    } else {
      var n := |log| - 1;
      var stats := StatsOf(log[..n], field);
      ColumnTotals(log[..n], field, c);
      ColumnBump(stats, KeyOf(log[n], field), log[n], c);
      TotalBump(ColumnOf(stats, c), KeyOf(log[n], field), Weight(log[n], c));
    }
  }

  lemma {:induction false} WeightIsCount(log: seq<Metric>)
    ensures TotalWeight(log, Operations) == |log|
    ensures TotalWeight(log, Hits) == CountOperation(log, "hit")
    ensures TotalWeight(log, Misses) == CountOperation(log, "miss")
  {
    if log != [] {
      WeightIsCount(log[..|log| - 1]);
    }
  }

  /** Operations sum to the number of records across tenants, across levels and across
      operation kinds; hits and misses across tenants and levels agree with the
      operation counters. */
  lemma Conservation(log: seq<Metric>)
    ensures Total(ColumnOf(StatsOf(log, Tenant), Operations)) == |log|
    ensures Total(ColumnOf(StatsOf(log, Level), Operations)) == |log|
    ensures Total(OperationsOf(log)) == |log|
    ensures Total(ColumnOf(StatsOf(log, Tenant), Hits)) == Total(ColumnOf(StatsOf(log, Level), Hits)) == Count(OperationsOf(log), "hit")
    ensures Total(ColumnOf(StatsOf(log, Tenant), Misses)) == Total(ColumnOf(StatsOf(log, Level), Misses)) == Count(OperationsOf(log), "miss")
  {
    OperationsSum(log);
    ColumnsSum(log, Tenant);
    ColumnsSum(log, Level);
  }

  lemma OperationsSum(log: seq<Metric>)
    ensures Total(OperationsOf(log)) == |log|
    ensures Count(OperationsOf(log), "hit") == CountOperation(log, "hit")
    ensures Count(OperationsOf(log), "miss") == CountOperation(log, "miss")
  {
    OperationsOfMatch(log);
  }

  lemma ColumnsSum(log: seq<Metric>, field: Field)
    ensures Total(ColumnOf(StatsOf(log, field), Operations)) == |log|
    ensures Total(ColumnOf(StatsOf(log, field), Hits)) == CountOperation(log, "hit")
    ensures Total(ColumnOf(StatsOf(log, field), Misses)) == CountOperation(log, "miss")
  {
    WeightIsCount(log);
    ColumnTotals(log, field, Operations);
    ColumnTotals(log, field, Hits);
    ColumnTotals(log, field, Misses);
  }

  // ----- counting by positions -----

  /** The positions of the records that satisfy the condition. */
  function Where(log: seq<Metric>, p: Metric -> bool): set<int> {
    set i | 0 <= i < |log| && p(log[i])
  }

  function AndIs(p: Metric -> bool, operation: string): Metric -> bool {
    (m: Metric) => p(m) && m.operation == operation
  }

  /** Operations, hits and misses among the records that satisfy the condition. */
  function CountsOf(log: seq<Metric>, p: Metric -> bool): Stat {
    Stat(|Where(log, p)|, |Where(log, AndIs(p, "hit"))|, |Where(log, AndIs(p, "miss"))|)
  }

  /** Recorded for the tenant by its name; `global` also gets those without one. */
  predicate OfTenant(m: Metric, k: string) {
    (k != "" && m.tenant == Some(k)) || (k == "global" && (m.tenant == None || m.tenant == Some("")))
  }

  lemma WhereLast(log: seq<Metric>, p: Metric -> bool)
    requires log != []
    ensures |Where(log, p)| == |Where(log[..|log| - 1], p)| + (if p(log[|log| - 1]) then 1 else 0)
  {
    var n := |log| - 1;
    assert Where(log, p) == Where(log[..n], p) + (if p(log[n]) then {n} else {});
  }

  lemma CountsLast(log: seq<Metric>, p: Metric -> bool)
    requires log != []
    ensures CountsOf(log, p) ==
      if p(log[|log| - 1]) then BumpStat(CountsOf(log[..|log| - 1], p), log[|log| - 1].operation) else CountsOf(log[..|log| - 1], p)
  {
    WhereLast(log, p);
    WhereLast(log, AndIs(p, "hit"));
    WhereLast(log, AndIs(p, "miss"));
  }

  lemma CountsOfNone(p: Metric -> bool)
    ensures CountsOf([], p) == NO_STAT
  {
    assert Where([], p) == {} && Where([], AndIs(p, "hit")) == {} && Where([], AndIs(p, "miss")) == {};
  }

  /** Each tenant's and each level's row counts the records of its own. */
  lemma {:induction false} RowsCountTheirRecords(log: seq<Metric>, k: string)
    ensures StatAt(StatsOf(log, Tenant), k) == CountsOf(log, (m: Metric) => OfTenant(m, k))
    ensures StatAt(StatsOf(log, Level), k) == CountsOf(log, (m: Metric) => m.level == k)
  {
    var ofTenant, ofLevel := (m: Metric) => OfTenant(m, k), (m: Metric) => m.level == k;
    if log == [] {
      CountsOfNone(ofTenant);
      CountsOfNone(ofLevel);
    } else {
      RowsCountTheirRecords(log[..|log| - 1], k);
      CountsLast(log, ofTenant);
      CountsLast(log, ofLevel);
    }
  }

  lemma {:induction false} OperationsCountTheirRecords(log: seq<Metric>, operation: string)
    ensures Count(OperationsOf(log), operation) == |Where(log, (m: Metric) => m.operation == operation)|
  {
    var p := (m: Metric) => m.operation == operation;
    if log == [] {
      assert Where(log, p) == {};
    } else {
      OperationsCountTheirRecords(log[..|log| - 1], operation);
      WhereLast(log, p);
    }
  }

  // ----- the collector -----

  /** The records a windowed report looks at. */
  predicate InReport(m: Metric, tenant: Option<string>, cutoff: real) {
    m.timestamp >= cutoff && (tenant.Some? && tenant.value != "" ==> m.tenant == tenant)
  }

  function Report(history: seq<Metric>, tenant: Option<string>, cutoff: real): Stat {
    if history == [] then NO_STAT
    else
      var before := Report(history[..|history| - 1], tenant, cutoff);
      var m := history[|history| - 1];
      if InReport(m, tenant, cutoff) then BumpStat(before, m.operation) else before
  }

  /** A record inside the window, and the tenant's if one is asked for. */
  function Reported(tenant: Option<string>, cutoff: real): Metric -> bool {
    (m: Metric) => cutoff <= m.timestamp && (tenant == None || tenant == Some("") || m.tenant == tenant)
  }

  lemma {:induction false} ReportCounts(history: seq<Metric>, tenant: Option<string>, cutoff: real)
    ensures Report(history, tenant, cutoff) == CountsOf(history, Reported(tenant, cutoff))
  {
    if history == [] {
      CountsOfNone(Reported(tenant, cutoff));
    } else {
      ReportCounts(history[..|history| - 1], tenant, cutoff);
      CountsLast(history, Reported(tenant, cutoff));
    }
  }

  /** A report counts the records asked for among the last `n`. */
  lemma ReportCountsLast(log: seq<Metric>, n: nat, tenant: Option<string>, cutoff: real)
    ensures Report(LastN(log, n), tenant, cutoff) ==
      CountsOf(log[(if |log| > n then |log| - n else 0)..], Reported(tenant, cutoff))
  {
    ReportCounts(LastN(log, n), tenant, cutoff);
    assert LastN(log, n) == log[(if |log| > n then |log| - n else 0)..];
  }

  class CacheMetricsCollector {
    const maxHistory: nat
    var history: seq<Metric>
    var tenantStats: map<string, Stat>
    var levelStats: map<string, Stat>
    var operationStats: Counters
    /** Everything ever recorded. */
    ghost var log: seq<Metric>

    ghost predicate Valid()
      reads this
    {
      && history == LastN(log, maxHistory)
      && tenantStats == StatsOf(log, Tenant)
      && levelStats == StatsOf(log, Level)
      && operationStats == OperationsOf(log)
    }

    constructor (maxHistory: nat)
      ensures Valid() && log == [] && this.maxHistory == maxHistory
    {
      this.maxHistory, history, tenantStats, levelStats, operationStats, log := maxHistory, [], map[], map[], map[], [];
    }

    method RecordMetric(metric: Metric)
      requires Valid()
      modifies this
      ensures Valid() && log == old(log) + [metric]
    {
      assert (log + [metric])[..|log|] == log;
      history := history + [metric];
      if |history| > maxHistory {
        history := history[1..];
      }
      var tenant := TenantOf(metric);
      tenantStats := tenantStats[tenant := BumpStat(StatAt(tenantStats, tenant), metric.operation)];
      levelStats := levelStats[metric.level := BumpStat(StatAt(levelStats, metric.level), metric.operation)];
      operationStats := Bump(operationStats, metric.operation, 1);
      log := log + [metric];
    }

    /** Totals over the remembered records inside the time window; the rows of the tenant
        asked for, or of all; and the counters per level and operation. */
    method GetStats(tenant: Option<string>, windowMinutes: int, now: real)
      returns (totals: Stat, tenants: map<string, Stat>, levels: map<string, Stat>, operations: Counters)
      requires Valid()
      ensures totals == Report(LastN(log, maxHistory), tenant, now - (windowMinutes * 60) as real)
      ensures totals.hits + totals.misses <= totals.operations <= maxHistory
      ensures forall k :: k in tenants <==> (tenant.None? || tenant == Some(k)) && exists m :: m in log && TenantOf(m) == k
      ensures forall k :: k in tenants ==> tenants[k] == Recount(log, Tenant, k)
      ensures StatsMatch(log, Level, levels) && OperationsMatch(log, operations)
    {
      totals := Totals(tenant, now - (windowMinutes * 60) as real);
      tenants := map[];
      var todo := tenantStats.Keys;
      ghost var all := todo;
      while todo != {}
        invariant todo <= all == tenantStats.Keys
        invariant tenants == map k | k in tenantStats && k in all - todo && (tenant.None? || tenant == Some(k)) :: tenantStats[k]
      {
        var id :| id in todo;
        if tenant.None? || tenant == Some(id) {
          tenants := tenants[id := tenantStats[id]];
        }
        todo := todo - {id};
      }
      levels, operations := levelStats, operationStats;
      StatsOfMatch(log, Tenant);
      StatsOfMatch(log, Level);
      OperationsOfMatch(log);
      RowsAreRecorded(log, Tenant);
    }

    method Totals(tenant: Option<string>, cutoff: real) returns (totals: Stat)
      requires Valid()
      ensures totals == Report(LastN(log, maxHistory), tenant, cutoff)
      ensures totals.hits + totals.misses <= totals.operations <= maxHistory
    {
      totals := NO_STAT;
      for i := 0 to |history|
        invariant totals == Report(history[..i], tenant, cutoff)
        invariant totals.hits + totals.misses <= totals.operations <= i
      {
        assert history[..i + 1][..i] == history[..i];
        if InReport(history[i], tenant, cutoff) {
          totals := BumpStat(totals, history[i].operation);
        }
      }
      assert history[..|history|] == history;
    }
  }

  /** Every row stands for some record. */
  lemma {:induction false} RowsAreRecorded(log: seq<Metric>, field: Field)
    ensures forall k :: k in StatsOf(log, field) ==> exists m :: m in log && KeyOf(m, field) == k
  {
    if log != [] {
      var n := |log| - 1;
      RowsAreRecorded(log[..n], field);
      forall k | k in StatsOf(log, field) ensures exists m :: m in log && KeyOf(m, field) == k {
        if k == KeyOf(log[n], field) {
          assert log[n] in log;
        } else {
          assert k in StatsOf(log[..n], field);
          var m :| m in log[..n] && KeyOf(m, field) == k;
          assert m in log;
        }
      }
    }
  }
}
