/** Row-level security over the synchronous connection pool: per-connection tenant
    settings, the isolation and system-read policies, and noninterference between
    tenants over whole runs. */
module TenantIsolation {
  import opened Common

  /** A row is found by table and primary key. */
  datatype RowKey = RowKey(table: string, id: int)

  datatype Row = Row(tenantId: int, system: bool, data: string)

  type Rows = map<RowKey, Row>

  /** The tables that also have a `FOR SELECT` policy on system rows. */
  const OVERLAY_TABLES := {"customagentdefinition", "agentteam"}

  /** The column the isolation policy compares: the key itself on the tenant table. */
  function PolicyTenant(k: RowKey, row: Row): int {
    if k.table == "tenant" then k.id else row.tenantId
  }

  predicate IsSystem(k: RowKey, row: Row) {
    k.table in OVERLAY_TABLES && row.system
  }

  /** Permissive policies are combined with OR, for reading only. */
  predicate CanSelect(tenant: int, k: RowKey, row: Row) {
    PolicyTenant(k, row) == tenant || IsSystem(k, row)
  }

  predicate CanWrite(tenant: int, k: RowKey, row: Row) {
    PolicyTenant(k, row) == tenant
  }

  // ----- connections and sessions -----

  /** `setting` is `app.tenant_id` now, `before` its value when the transaction
      began; `pending` holds uncommitted writes, `None` for a deleted row. */
  datatype Conn = Conn(
    holder: Option<Option<int>>,
    setting: Option<int>,
    before: Option<int>,
    pending: map<RowKey, Option<Row>>,
    aborted: bool)

  datatype State = State(db: Rows, pool: map<nat, Conn>)

  datatype Statement =
    | Select(pred: (RowKey, Row) -> bool)
    | Insert(key: RowKey, row: Row)
    | Update(where: (RowKey, Row) -> bool, assign: (RowKey, Row) -> Row)
    | Delete(cond: (RowKey, Row) -> bool)

  datatype Result = Found(rows: Rows) | Affected(count: nat) | Failed

  datatype Action =
    | Checkout(gucEnabled: bool, setAccepted: bool)
    | Exec(stmt: Statement)
    | Commit
    | Rollback

  /** One action of a session of tenant context `ctx` on connection `conn`. */
  datatype Step = Step(ctx: Option<int>, conn: nat, action: Action)

  predicate HeldBy(s: State, c: nat, ctx: Option<int>) {
    c in s.pool && s.pool[c].holder == Some(ctx)
  }

  predicate Free(s: State, c: nat) {
    c in s.pool ==> s.pool[c].holder.None?
  }

  predicate Enabled(s: State, step: Step) {
    if step.action.Checkout? then Free(s, step.conn) else HeldBy(s, step.conn, step.ctx)
  }

  /** What the connection sees: the committed rows under its own writes. */
  function View(db: Rows, pending: map<RowKey, Option<Row>>): Rows {
    map k | k in db.Keys + pending.Keys && (k in pending ==> pending[k].Some?) ::
      if k in pending then pending[k].value else db[k]
  }

  function Targets(view: Rows, tenant: int, where: (RowKey, Row) -> bool): set<RowKey> {
    set k | k in view && CanSelect(tenant, k, view[k]) && CanWrite(tenant, k, view[k]) && where(k, view[k])
  }

  /** A statement's answer and the writes it adds; `None` when it fails. */
  function Execute(view: Rows, tenant: int, stmt: Statement): Option<(Result, map<RowKey, Option<Row>>)> {
    match stmt
    case Select(pred) =>
      Some((Found(map k | k in view && CanSelect(tenant, k, view[k]) && pred(k, view[k]) :: view[k]), map[]))
    case Insert(k, row) =>
      if CanWrite(tenant, k, row) && k !in view then Some((Affected(1), map[k := Some(row)])) else None
    case Update(where, assign) =>
      var targets := Targets(view, tenant, where);
      if forall k :: k in targets ==> CanWrite(tenant, k, assign(k, view[k]))
      then Some((Affected(|targets|), map k | k in targets :: Some(assign(k, view[k]))))
      else None
    case Delete(cond) =>
      var targets := Targets(view, tenant, cond);
      Some((Affected(|targets|), map k | k in targets :: None))
  }

  /** A fresh connection has carried nothing; a reused one keeps its last setting. */
  function LastSetting(s: State, c: nat): Option<int> {
    if c in s.pool then s.pool[c].setting else None
  }

  /** `RESET ALL`, then the context's own tenant if there is one and the server takes it. */
  function CheckedOut(s: State, step: Step): Conn
    requires step.action.Checkout?
  {
    var setting := if step.action.gucEnabled && step.action.setAccepted then step.ctx else None;
    Conn(Some(step.ctx), setting, LastSetting(s, step.conn), map[], false)
  }

  function Returned(conn: Conn, setting: Option<int>): Conn {
    Conn(None, setting, setting, map[], false)
  }

  /** An unset tenant setting fails every statement, as does an aborted transaction. */
  function Answer(s: State, step: Step): Option<(Result, map<RowKey, Option<Row>>)>
    requires Enabled(s, step) && step.action.Exec?
  {
    var conn := s.pool[step.conn];
    if conn.aborted || conn.setting.None? then None
    else Execute(View(s.db, conn.pending), conn.setting.value, step.action.stmt)
  }

  function Next(s: State, step: Step): State
    requires Enabled(s, step)
  {
    match step.action
    case Checkout(_, _) => s.(pool := s.pool[step.conn := CheckedOut(s, step)])
    case Exec(_) =>
      var conn := s.pool[step.conn];
      (match Answer(s, step)
       case None => s.(pool := s.pool[step.conn := conn.(aborted := true)])
       case Some((_, writes)) => s.(pool := s.pool[step.conn := conn.(pending := conn.pending + writes)]))
    case Commit =>
      var conn := s.pool[step.conn];
      if conn.aborted then s.(pool := s.pool[step.conn := Returned(conn, conn.before)])
      else State(View(s.db, conn.pending), s.pool[step.conn := Returned(conn, conn.setting)])
    case Rollback =>
      var conn := s.pool[step.conn];
      s.(pool := s.pool[step.conn := Returned(conn, conn.before)])
  }

  function ResultOf(s: State, step: Step): Result
    requires Enabled(s, step) && step.action.Exec?
  {
    match Answer(s, step)
    case None => Failed
    case Some((r, _)) => r
  }

  // ----- invariants -----

  /** `owner` says which tenant each primary key was drawn for; keys of different
      tenants come from one sequence and never coincide. */
  ghost predicate RowsOwned(owner: RowKey -> int, db: Rows) {
    forall k :: k in db ==> PolicyTenant(k, db[k]) == owner(k)
  }

  ghost predicate WritesOwned(owner: RowKey -> int, setting: Option<int>, writes: map<RowKey, Option<Row>>) {
    forall k :: k in writes ==> setting == Some(owner(k)) && (writes[k].Some? ==> PolicyTenant(k, writes[k].value) == owner(k))
  }

  ghost predicate ConnOk(owner: RowKey -> int, conn: Conn) {
    && WritesOwned(owner, conn.setting, conn.pending)
    && (conn.holder.Some? && conn.setting.Some? ==> conn.holder == Some(conn.setting))
    && (conn.holder.None? ==> conn.pending == map[])
  }

  ghost predicate Inv(owner: RowKey -> int, s: State) {
    RowsOwned(owner, s.db) && forall c :: c in s.pool ==> ConnOk(owner, s.pool[c])
  }

  /** Inserted keys were drawn for the inserting tenant. */
  ghost predicate Drawn(owner: RowKey -> int, step: Step) {
    step.action.Exec? && step.action.stmt.Insert? ==> step.ctx == Some(owner(step.action.stmt.key))
  }

  lemma ExecuteOwned(owner: RowKey -> int, view: Rows, tenant: int, stmt: Statement)
    requires RowsOwned(owner, view)
    requires stmt.Insert? ==> owner(stmt.key) == tenant
    requires Execute(view, tenant, stmt).Some?
    ensures WritesOwned(owner, Some(tenant), Execute(view, tenant, stmt).value.1)
  {
  }

  lemma ViewOwned(owner: RowKey -> int, db: Rows, conn: Conn)
    requires RowsOwned(owner, db) && ConnOk(owner, conn)
    ensures RowsOwned(owner, View(db, conn.pending))
  {
  }

  lemma StepKeeps(owner: RowKey -> int, s: State, step: Step)
    requires Inv(owner, s) && Enabled(s, step) && Drawn(owner, step)
    ensures Inv(owner, Next(s, step))
  {
    if !step.action.Checkout? {
      var conn := s.pool[step.conn];
      ViewOwned(owner, s.db, conn);
      if step.action.Exec? && Answer(s, step).Some? {
        ExecuteOwned(owner, View(s.db, conn.pending), conn.setting.value, step.action.stmt);
      }
    }
  }

  /** A step changes committed rows only of its own tenant, before and after; with no
      tenant, or when the server rejected the setting, it changes none and every
      statement fails, whatever the connection carried before. */
  lemma WritesStayHome(owner: RowKey -> int, s: State, step: Step, k: RowKey)
    requires Inv(owner, s) && Enabled(s, step)
    requires (k in Next(s, step).db) != (k in s.db) || (k in s.db && Next(s, step).db[k] != s.db[k])
    ensures step.ctx == Some(owner(k))
    ensures k in s.db ==> step.ctx == Some(PolicyTenant(k, s.db[k]))
    ensures k in Next(s, step).db ==> step.ctx == Some(PolicyTenant(k, Next(s, step).db[k]))
    ensures s.pool[step.conn].setting == step.ctx
  {
  }

  /** When the setting is disabled or rejected at checkout, the session's first
      statement fails and changes nothing, whatever the connection last carried. */
  lemma RejectedSettingFails(s: State, checkout: Step, exec: Step)
    requires Enabled(s, checkout) && checkout.action.Checkout?
    requires !(checkout.action.gucEnabled && checkout.action.setAccepted) || checkout.ctx.None?
    requires exec.conn == checkout.conn && exec.ctx == checkout.ctx && exec.action.Exec?
    ensures var s' := Next(s, checkout);
      Enabled(s', exec) && ResultOf(s', exec) == Failed && Next(s', exec).db == s.db
  {
  }

  // ----- noninterference -----

  /** The rows tenant `a` can see. */
  function Visible(a: int, db: Rows): Rows {
    map k | k in db && CanSelect(a, k, db[k]) :: db[k]
  }

  /** Both states look the same to `a`: the rows it can see and the transactions it
      has open. The second has no other tenant's transaction open. */
  ghost predicate SameFor(a: int, s: State, t: State) {
    && Visible(a, s.db) == Visible(a, t.db)
    && (forall c :: c in t.pool && t.pool[c].holder.Some? ==> HeldBy(t, c, Some(a)))
    && (forall c :: HeldBy(s, c, Some(a)) <==> HeldBy(t, c, Some(a)))
    && (forall c :: HeldBy(s, c, Some(a)) ==> SameTransaction(s.pool[c], t.pool[c]))
  }

  predicate SameTransaction(c: Conn, d: Conn) {
    c.setting == d.setting && c.pending == d.pending && c.aborted == d.aborted
  }

  lemma ViewsAgree(owner: RowKey -> int, a: int, db: Rows, db': Rows, pending: map<RowKey, Option<Row>>)
    requires Visible(a, db) == Visible(a, db') && WritesOwned(owner, Some(a), pending)
    ensures Visible(a, View(db, pending)) == Visible(a, View(db', pending))
  {
    forall k ensures k in Visible(a, db) <==> k in db && CanSelect(a, k, db[k]) {
    }
    forall k ensures k in Visible(a, db') <==> k in db' && CanSelect(a, k, db'[k]) {
    }
    var v, v' := Visible(a, View(db, pending)), Visible(a, View(db', pending));
    forall k ensures k in v <==> k in v' {
      assert k !in pending ==> (k in v <==> k in Visible(a, db)) && (k in v' <==> k in Visible(a, db'));
    }
    forall k | k in v ensures v[k] == v'[k] {
      assert k !in pending ==> v[k] == Visible(a, db)[k] && v'[k] == Visible(a, db')[k];
    }
  }

  /** A statement depends on what its tenant can see, and on nothing else. */
  lemma ExecuteAgrees(owner: RowKey -> int, a: int, view: Rows, view': Rows, stmt: Statement)
    requires Visible(a, view) == Visible(a, view')
    requires RowsOwned(owner, view) && RowsOwned(owner, view')
    requires stmt.Insert? ==> owner(stmt.key) == a
    ensures Execute(view, a, stmt) == Execute(view', a, stmt)
  {
    forall k ensures k in view && CanSelect(a, k, view[k]) <==> k in view' && CanSelect(a, k, view'[k]) {
      assert k in Visible(a, view) <==> k in Visible(a, view');
    }
    forall k | k in view && CanSelect(a, k, view[k]) ensures view[k] == view'[k] {
      assert Visible(a, view)[k] == Visible(a, view')[k];
    }
    match stmt {
      case Select(pred) =>
        assert (map k | k in view && CanSelect(a, k, view[k]) && pred(k, view[k]) :: view[k])
            == (map k | k in view' && CanSelect(a, k, view'[k]) && pred(k, view'[k]) :: view'[k]);
      case Insert(k, row) =>
      case Update(where, assign) =>
        assert Targets(view, a, where) == Targets(view', a, where);
        var targets := Targets(view, a, where);
        assert (map k | k in targets :: Some(assign(k, view[k]))) == (map k | k in targets :: Some(assign(k, view'[k])));
      case Delete(cond) => assert Targets(view, a, cond) == Targets(view', a, cond);
    }
  }

  lemma OwnAnswers(owner: RowKey -> int, a: int, s: State, t: State, step: Step)
    requires Inv(owner, s) && Inv(owner, t) && SameFor(a, s, t)
    requires step.ctx == Some(a) && step.action.Exec? && Enabled(s, step) && Drawn(owner, step)
    ensures Enabled(t, step) && Answer(s, step) == Answer(t, step)
  {
    var c, d := s.pool[step.conn], t.pool[step.conn];
    assert SameTransaction(c, d);
    if !c.aborted && c.setting.Some? {
      ViewsAgree(owner, a, s.db, t.db, c.pending);
      ViewOwned(owner, s.db, c);
      ViewOwned(owner, t.db, d);
      ExecuteAgrees(owner, a, View(s.db, c.pending), View(t.db, c.pending), step.action.stmt);
    }
  }

  /** Replacing one connection of `a` alike in both states keeps them alike. */
  lemma SameAfter(a: int, s: State, t: State, c: nat, x: Conn, y: Conn, db: Rows, db': Rows)
    requires SameFor(a, s, t) && Visible(a, db) == Visible(a, db')
    requires x.holder == y.holder && (x.holder == None || x.holder == Some(Some(a)))
    requires x.holder.Some? ==> SameTransaction(x, y)
    ensures SameFor(a, State(db, s.pool[c := x]), State(db', t.pool[c := y]))
  {
    var s', t' := State(db, s.pool[c := x]), State(db', t.pool[c := y]);
    forall d ensures HeldBy(s', d, Some(a)) <==> HeldBy(t', d, Some(a)) {
      assert HeldBy(s, d, Some(a)) <==> HeldBy(t, d, Some(a));
    }
  }

  /** A step of `a` has the same effect for `a` in both states. */
  lemma OwnStep(owner: RowKey -> int, a: int, s: State, t: State, step: Step)
    requires Inv(owner, s) && Inv(owner, t) && SameFor(a, s, t)
    requires step.ctx == Some(a) && Enabled(s, step) && Drawn(owner, step)
    ensures Enabled(t, step) && SameFor(a, Next(s, step), Next(t, step))
  {
    var c := step.conn;
    match step.action {
      case Checkout(_, _) =>
        assert HeldBy(s, c, Some(a)) <==> HeldBy(t, c, Some(a));
        SameAfter(a, s, t, c, CheckedOut(s, step), CheckedOut(t, step), s.db, t.db);
      case Exec(_) =>
        OwnAnswers(owner, a, s, t, step);
        SameAfter(a, s, t, c, Next(s, step).pool[c], Next(t, step).pool[c], s.db, t.db);
      case Commit => OwnCommit(owner, a, s, t, step);
      case Rollback =>
        SameAfter(a, s, t, c, Next(s, step).pool[c], Next(t, step).pool[c], s.db, t.db);
    }
  }

  lemma OwnCommit(owner: RowKey -> int, a: int, s: State, t: State, step: Step)
    requires Inv(owner, s) && Inv(owner, t) && SameFor(a, s, t)
    requires step.ctx == Some(a) && Enabled(s, step) && step.action.Commit?
    ensures Enabled(t, step) && SameFor(a, Next(s, step), Next(t, step))
  {
    var c := step.conn;
    assert SameTransaction(s.pool[c], t.pool[c]);
    ViewsAgreeAny(owner, a, s.db, t.db, s.pool[c]);
    SameAfter(a, s, t, c, Next(s, step).pool[c], Next(t, step).pool[c], Next(s, step).db, Next(t, step).db);
  }

  lemma ViewsAgreeAny(owner: RowKey -> int, a: int, db: Rows, db': Rows, conn: Conn)
    requires Visible(a, db) == Visible(a, db') && ConnOk(owner, conn) && conn.holder == Some(Some(a))
    ensures Visible(a, View(db, conn.pending)) == Visible(a, View(db', conn.pending))
  {
    if conn.setting.Some? {
      ViewsAgree(owner, a, db, db', conn.pending);
    } else {
      assert conn.pending == map[];
      assert View(db, conn.pending) == db && View(db', conn.pending) == db';
    }
  }

  /** System rows of other tenants: all of them that `a` can see. */
  function ForeignSystem(a: int, db: Rows): Rows {
    map k | k in db && IsSystem(k, db[k]) && PolicyTenant(k, db[k]) != a :: db[k]
  }

  /** Replaces the other tenants' system rows. */
  function Publish(a: int, t: State, rows: Rows): State {
    t.(db := (map k | k in t.db && !(IsSystem(k, t.db[k]) && PolicyTenant(k, t.db[k]) != a) :: t.db[k]) + rows)
  }

  /** A step of another tenant leaves `a`'s own rows and transactions alone. */
  lemma OtherStepKeepsOwn(owner: RowKey -> int, a: int, s: State, step: Step)
    requires Inv(owner, s) && Enabled(s, step) && Drawn(owner, step) && step.ctx != Some(a)
    ensures forall k :: owner(k) == a ==> (k in Next(s, step).db <==> k in s.db)
    ensures forall k :: owner(k) == a && k in s.db ==> Next(s, step).db[k] == s.db[k]
    ensures forall c :: HeldBy(Next(s, step), c, Some(a)) <==> HeldBy(s, c, Some(a))
    ensures forall c :: HeldBy(s, c, Some(a)) ==> Next(s, step).pool[c] == s.pool[c]
  {
    forall k | owner(k) == a
      ensures (k in Next(s, step).db <==> k in s.db) && (k in s.db ==> Next(s, step).db[k] == s.db[k])
    {
      if (k in Next(s, step).db) != (k in s.db) || (k in s.db && Next(s, step).db[k] != s.db[k]) {
        WritesStayHome(owner, s, step, k);
      }
    }
  }

  lemma PublishedView(owner: RowKey -> int, a: int, db: Rows, db': Rows, t: State)
    requires RowsOwned(owner, db) && RowsOwned(owner, db') && RowsOwned(owner, t.db)
    requires Visible(a, db) == Visible(a, t.db)
    requires forall k :: owner(k) == a ==> (k in db' <==> k in db) && (k in db ==> db'[k] == db[k])
    ensures Visible(a, db') == Visible(a, Publish(a, t, ForeignSystem(a, db')).db)
    ensures RowsOwned(owner, Publish(a, t, ForeignSystem(a, db')).db)
  {
    var p := Publish(a, t, ForeignSystem(a, db')).db;
    forall k ensures k in Visible(a, db') <==> k in Visible(a, p) {
      assert k in Visible(a, db) <==> k in Visible(a, t.db);
    }
    forall k | k in Visible(a, db') ensures db'[k] == p[k] {
      assert k in Visible(a, db) ==> Visible(a, db)[k] == Visible(a, t.db)[k];
    }
  }

  /** Another tenant's step matters to `a` only through the system rows it leaves. */
  lemma OtherStep(owner: RowKey -> int, a: int, s: State, t: State, step: Step)
    requires Inv(owner, s) && Inv(owner, t) && SameFor(a, s, t)
    requires step.ctx != Some(a) && Enabled(s, step) && Drawn(owner, step)
    ensures var t' := Publish(a, t, ForeignSystem(a, Next(s, step).db));
      SameFor(a, Next(s, step), t') && Inv(owner, t')
    ensures ForeignSystem(a, Next(s, step).db) == ForeignSystem(a, s.db) ==> SameFor(a, Next(s, step), t)
  {
    OtherStepKeepsOwn(owner, a, s, step);
    StepKeeps(owner, s, step);
    PublishedView(owner, a, s.db, Next(s, step).db, t);
    if ForeignSystem(a, Next(s, step).db) == ForeignSystem(a, s.db) {
      SameVisible(owner, a, s.db, Next(s, step).db);
    }
  }

  lemma SameVisible(owner: RowKey -> int, a: int, db: Rows, db': Rows)
    requires RowsOwned(owner, db) && RowsOwned(owner, db') && ForeignSystem(a, db) == ForeignSystem(a, db')
    requires forall k :: owner(k) == a ==> (k in db' <==> k in db) && (k in db ==> db'[k] == db[k])
    ensures Visible(a, db) == Visible(a, db')
  {
    forall k ensures k in Visible(a, db) <==> k in Visible(a, db') {
      assert k in ForeignSystem(a, db) <==> k in ForeignSystem(a, db');
    }
    forall k | k in Visible(a, db) ensures db[k] == db'[k] {
      assert k in ForeignSystem(a, db) ==> ForeignSystem(a, db)[k] == ForeignSystem(a, db')[k];
    }
  }

  // ----- whole runs -----

  /** Each step is enabled in turn and inserts only keys drawn for its tenant. */
  ghost predicate Runs(owner: RowKey -> int, s: State, steps: seq<Step>)
    decreases |steps|
  {
    steps == [] || (Enabled(s, steps[0]) && Drawn(owner, steps[0]) && Runs(owner, Next(s, steps[0]), steps[1..]))
  }

  /** What tenant `a`'s statements answer along the run. */
  ghost function Results(owner: RowKey -> int, a: int, s: State, steps: seq<Step>): seq<Result>
    requires Runs(owner, s, steps)
    decreases |steps|
  {
    if steps == [] then []
    else
      (if steps[0].ctx == Some(a) && steps[0].action.Exec? then [ResultOf(s, steps[0])] else [])
      + Results(owner, a, Next(s, steps[0]), steps[1..])
  }

  datatype Event = Own(step: Step) | Published(rows: Rows)

  /** The run as `a` sees it: its own steps, and the system rows left by those steps
      of others that changed any. Every other step is deleted. */
  ghost function Purge(owner: RowKey -> int, a: int, s: State, steps: seq<Step>): seq<Event>
    requires Runs(owner, s, steps)
    decreases |steps|
  {
    if steps == [] then []
    else
      var s' := Next(s, steps[0]);
      (if steps[0].ctx == Some(a) then [Own(steps[0])]
       else if ForeignSystem(a, s'.db) == ForeignSystem(a, s.db) then []
       else [Published(ForeignSystem(a, s'.db))])
      + Purge(owner, a, s', steps[1..])
  }

  /** Replays a purged run; `None` if one of its steps is not possible. */
  function Replay(a: int, t: State, events: seq<Event>): Option<seq<Result>>
    decreases |events|
  {
    if events == [] then Some([])
    else match events[0]
      case Published(rows) => Replay(a, Publish(a, t, rows), events[1..])
      case Own(step) =>
        if !Enabled(t, step) then None
        else
          match Replay(a, Next(t, step), events[1..])
          case None => None
          case Some(rest) => Some((if step.action.Exec? then [ResultOf(t, step)] else []) + rest)
  }

  lemma {:induction false} PurgedReplays(owner: RowKey -> int, a: int, s: State, t: State, steps: seq<Step>)
    requires Inv(owner, s) && Inv(owner, t) && SameFor(a, s, t) && Runs(owner, s, steps)
    ensures Replay(a, t, Purge(owner, a, s, steps)) == Some(Results(owner, a, s, steps))
    decreases |steps|
  {
    if steps != [] {
      var step := steps[0];
      var s' := Next(s, step);
      var rest := Purge(owner, a, s', steps[1..]);
      StepKeeps(owner, s, step);
      if step.ctx == Some(a) {
        OwnStep(owner, a, s, t, step);
        StepKeeps(owner, t, step);
        if step.action.Exec? {
          OwnAnswers(owner, a, s, t, step);
        }
        PurgedReplays(owner, a, s', Next(t, step), steps[1..]);
        assert ([Own(step)] + rest)[1..] == rest;
      } else {
        OtherStep(owner, a, s, t, step);
        if ForeignSystem(a, s'.db) == ForeignSystem(a, s.db) {
          PurgedReplays(owner, a, s', t, steps[1..]);
          assert [] + rest == rest;
        } else {
          var rows := ForeignSystem(a, s'.db);
          PurgedReplays(owner, a, s', Publish(a, t, rows), steps[1..]);
          assert ([Published(rows)] + rest)[1..] == rest;
        }
        assert [] + Results(owner, a, s', steps[1..]) == Results(owner, a, s', steps[1..]);
      }
    }
  }

  /** Noninterference: from any rows and an empty pool, tenant `a`'s answers are the
      same when every step of other tenants that touches no system row is deleted
      and the remaining ones are reduced to the system rows they leave. */
  lemma Noninterference(owner: RowKey -> int, a: int, db: Rows, steps: seq<Step>)
    requires RowsOwned(owner, db) && Runs(owner, State(db, map[]), steps)
    ensures Replay(a, State(db, map[]), Purge(owner, a, State(db, map[]), steps))
         == Some(Results(owner, a, State(db, map[]), steps))
  {
    PurgedReplays(owner, a, State(db, map[]), State(db, map[]), steps);
  }

  function OwnSteps(a: int, steps: seq<Step>): seq<Step> {
    if steps == [] then []
    else (if steps[0].ctx == Some(a) then [steps[0]] else []) + OwnSteps(a, steps[1..])
  }

  /** No step of another tenant changes a system row. */
  ghost predicate LeavesSystemRows(owner: RowKey -> int, a: int, s: State, steps: seq<Step>)
    requires Runs(owner, s, steps)
    decreases |steps|
  {
    steps == [] ||
    (&& (steps[0].ctx != Some(a) ==> ForeignSystem(a, Next(s, steps[0]).db) == ForeignSystem(a, s.db))
     && LeavesSystemRows(owner, a, Next(s, steps[0]), steps[1..]))
  }

  lemma {:induction false} OwnStepsSuffice(owner: RowKey -> int, a: int, s: State, t: State, steps: seq<Step>)
    requires Inv(owner, s) && Inv(owner, t) && SameFor(a, s, t)
    requires Runs(owner, s, steps) && LeavesSystemRows(owner, a, s, steps)
    ensures Runs(owner, t, OwnSteps(a, steps))
    ensures Results(owner, a, t, OwnSteps(a, steps)) == Results(owner, a, s, steps)
    decreases |steps|
  {
    if steps != [] {
      var step := steps[0];
      StepKeeps(owner, s, step);
      if step.ctx == Some(a) {
        OwnStep(owner, a, s, t, step);
        StepKeeps(owner, t, step);
        if step.action.Exec? {
          OwnAnswers(owner, a, s, t, step);
        }
        OwnStepsSuffice(owner, a, Next(s, step), Next(t, step), steps[1..]);
        assert ([step] + OwnSteps(a, steps[1..]))[1..] == OwnSteps(a, steps[1..]);
      } else {
        OtherStep(owner, a, s, t, step);
        OwnStepsSuffice(owner, a, Next(s, step), t, steps[1..]);
        assert [] + OwnSteps(a, steps[1..]) == OwnSteps(a, steps[1..]);
        assert [] + Results(owner, a, Next(s, step), steps[1..]) == Results(owner, a, Next(s, step), steps[1..]);
      }
    }
  }

  /** When other tenants leave the system rows alone, `a` might as well be alone. */
  lemma AloneWithoutSystemRows(owner: RowKey -> int, a: int, db: Rows, steps: seq<Step>)
    requires RowsOwned(owner, db) && Runs(owner, State(db, map[]), steps)
    requires LeavesSystemRows(owner, a, State(db, map[]), steps)
    ensures Runs(owner, State(db, map[]), OwnSteps(a, steps))
    ensures Results(owner, a, State(db, map[]), OwnSteps(a, steps)) == Results(owner, a, State(db, map[]), steps)
  {
    OwnStepsSuffice(owner, a, State(db, map[]), State(db, map[]), steps);
  }

  // ----- why the remaining steps of others must be reduced to their effect -----

  const PUBLISHED_KEY := RowKey("agentteam", 7)

  /** Tenants 1 and 2 have a transaction open each; there are no rows. */
  function TwoSessions(): State {
    State(map[], map[0 := Conn(Some(Some(1)), Some(1), None, map[], false),
                     1 := Conn(Some(Some(2)), Some(2), None, map[], false)])
  }

  function InsertPrivate(): Step {
    Step(Some(2), 1, Exec(Insert(PUBLISHED_KEY, Row(2, false, "team"))))
  }

  /** Marks everything tenant 2 has as system rows, commits, and lets tenant 1 read. */
  function PublishAndRead(): seq<Step> {
    [Step(Some(2), 1, Exec(Update((k, row) => true, (k, row: Row) => row.(system := true)))),
     Step(Some(2), 1, Commit),
     Step(Some(1), 0, Exec(Select((k, row) => true)))]
  }

  /** Deleting a step that touches no system row, and re-running the later steps of
      others as they are, can change what `a` reads: the later update has nothing
      left to publish. */
  lemma NaiveDeletionInterferes(owner: RowKey -> int)
    requires owner(PUBLISHED_KEY) == 2
    ensures var s := TwoSessions();
      && Enabled(s, InsertPrivate()) && ForeignSystem(1, Next(s, InsertPrivate()).db) == ForeignSystem(1, s.db)
      && Runs(owner, s, PublishAndRead()) && Runs(owner, Next(s, InsertPrivate()), PublishAndRead())
      && Results(owner, 1, s, PublishAndRead()) != Results(owner, 1, Next(s, InsertPrivate()), PublishAndRead())
  {
    var s := TwoSessions();
    var inserted := Next(s, InsertPrivate());
    assert View(s.db, map[]) == map[];
    assert inserted.pool[1].pending == map[PUBLISHED_KEY := Some(Row(2, false, "team"))];
    ReadsNothing(owner, s);
    ReadsPublished(owner, inserted);
  }

  lemma ReadsNothing(owner: RowKey -> int, s: State)
    requires s == TwoSessions()
    ensures Runs(owner, s, PublishAndRead()) && Results(owner, 1, s, PublishAndRead()) == [Found(map[])]
  {
    var p := PublishAndRead();
    assert View(s.db, map[]) == map[];
    assert Answer(s, p[0]).value.1 == map[];
    var s1 := Next(s, p[0]);
    assert s1 == s;
    var s2 := Next(s1, p[1]);
    assert s2.db == map[];
    assert View(s2.db, map[]) == map[];
    assert ResultOf(s2, p[2]) == Found(map[]);
    ReadResults(owner, s, s1, s2);
  }

  /** The update turns tenant 2's uncommitted row into a system row. */
  lemma UpdatePublishes(s: State)
    requires s.db == map[] && s.pool.Keys == {0, 1}
    requires s.pool[1] == TwoSessions().pool[1].(pending := map[PUBLISHED_KEY := Some(Row(2, false, "team"))])
    ensures var p := PublishAndRead()[0];
      && Enabled(s, p) && Next(s, p).db == map[]
      && Next(s, p).pool == s.pool[1 := s.pool[1].(pending := map[PUBLISHED_KEY := Some(Row(2, true, "team"))])]
  {
    var p := PublishAndRead()[0];
    var view := View(s.db, s.pool[1].pending);
    assert view == map[PUBLISHED_KEY := Row(2, false, "team")];
    assert Targets(view, 2, p.action.stmt.where) == {PUBLISHED_KEY};
    assert Answer(s, p).value.1 == map[PUBLISHED_KEY := Some(Row(2, true, "team"))];
    assert s.pool[1].pending + Answer(s, p).value.1 == map[PUBLISHED_KEY := Some(Row(2, true, "team"))];
  }

  lemma ReadsPublished(owner: RowKey -> int, s: State)
    requires s.db == map[] && s.pool.Keys == {0, 1} && s.pool[0] == TwoSessions().pool[0]
    requires s.pool[1] == TwoSessions().pool[1].(pending := map[PUBLISHED_KEY := Some(Row(2, false, "team"))])
    ensures Runs(owner, s, PublishAndRead())
    ensures Results(owner, 1, s, PublishAndRead()) == [Found(map[PUBLISHED_KEY := Row(2, true, "team")])]
  {
    var p := PublishAndRead();
    UpdatePublishes(s);
    var s1 := Next(s, p[0]);
    CommitPublishes(s1);
    ReadResults(owner, s, s1, Next(s1, p[1]));
  }

  /** After the commit tenant 1's open session reads the row. */
  lemma CommitPublishes(s: State)
    requires s.db == map[] && s.pool.Keys == {0, 1} && s.pool[0] == TwoSessions().pool[0]
    requires s.pool[1] == TwoSessions().pool[1].(pending := map[PUBLISHED_KEY := Some(Row(2, true, "team"))])
    ensures var p, row := PublishAndRead(), Row(2, true, "team");
      && Enabled(s, p[1]) && Enabled(Next(s, p[1]), p[2])
      && ResultOf(Next(s, p[1]), p[2]) == Found(map[PUBLISHED_KEY := row])
  {
    var s2 := Next(s, PublishAndRead()[1]);
    assert s2.db == map[PUBLISHED_KEY := Row(2, true, "team")];
    assert View(s2.db, map[]) == s2.db;
  }

  lemma ReadResults(owner: RowKey -> int, s: State, s1: State, s2: State)
    requires Enabled(s, PublishAndRead()[0]) && s1 == Next(s, PublishAndRead()[0])
    requires Enabled(s1, PublishAndRead()[1]) && s2 == Next(s1, PublishAndRead()[1])
    requires Enabled(s2, PublishAndRead()[2])
    ensures Runs(owner, s, PublishAndRead())
    ensures Results(owner, 1, s, PublishAndRead()) == [ResultOf(s2, PublishAndRead()[2])]
  {
    var p := PublishAndRead();
    assert p[1..] == [p[1], p[2]] && [p[1], p[2]][1..] == [p[2]] && [p[2]][1..] == [];
    assert Runs(owner, s2, [p[2]]) && Runs(owner, s1, [p[1], p[2]]);
    assert Results(owner, 1, s2, [p[2]]) == [ResultOf(s2, p[2])] + [];
    assert Results(owner, 1, s1, [p[1], p[2]]) == [] + [ResultOf(s2, p[2])];
  }

  /** One statement in a transaction of its own. */
  function Transaction(ctx: Option<int>, conn: nat, stmt: Statement): seq<Step> {
    [Step(ctx, conn, Checkout(true, true)), Step(ctx, conn, Exec(stmt)), Step(ctx, conn, Commit)]
  }

  /** The committed rows after such a transaction. */
  function Committed(s: State, ctx: Option<int>, conn: nat, stmt: Statement): Rows
    requires Free(s, conn)
  {
    var t := Transaction(ctx, conn, stmt);
    Next(Next(Next(s, t[0]), t[1]), t[2]).db
  }

  /** What the statement of such a transaction answers. */
  function Answered(s: State, ctx: Option<int>, conn: nat, stmt: Statement): Result
    requires Free(s, conn)
  {
    var t := Transaction(ctx, conn, stmt);
    ResultOf(Next(s, t[0]), t[1])
  }

  lemma CommittedRows(s: State, tenant: int, conn: nat, stmt: Statement)
    requires Free(s, conn)
    ensures Committed(s, Some(tenant), conn, stmt) ==
      match Execute(s.db, tenant, stmt) case None => s.db case Some((_, writes)) => View(s.db, writes)
    ensures Answered(s, Some(tenant), conn, stmt) ==
      match Execute(s.db, tenant, stmt) case None => Failed case Some((r, _)) => r
  {
    var t := Transaction(Some(tenant), conn, stmt);
    assert View(s.db, map[]) == s.db;
    var s1 := Next(s, t[0]);
    var s2 := Next(s1, t[1]);
    match Execute(s.db, tenant, stmt) {
      case None =>
      case Some((_, writes)) => assert s2.pool[conn].pending == writes;
    }
  }

  /** A select answers exactly the matching rows of the tenant, told by the key on the tenant
      table and by the tenant column elsewhere, and the matching system rows of the two
      overlay tables, and changes nothing. */
  lemma CommittedSelectExactly(s: State, tenant: int, conn: nat, pred: (RowKey, Row) -> bool)
    requires Free(s, conn)
    ensures Answered(s, Some(tenant), conn, Select(pred)) == Found(map k | k in s.db && pred(k, s.db[k])
        && ((if k.table == "tenant" then k.id == tenant else s.db[k].tenantId == tenant)
            || ((k.table == "customagentdefinition" || k.table == "agentteam") && s.db[k].system)) :: s.db[k])
    ensures Committed(s, Some(tenant), conn, Select(pred)) == s.db
  {
    CommittedRows(s, tenant, conn, Select(pred));
    assert View(s.db, map[]) == s.db;
  }

  /** The row a transaction finds at a key: its own last write there, or else the committed one. */
  predicate Shows(s: State, conn: nat, k: RowKey, row: Row)
    requires conn in s.pool
  {
    if k in s.pool[conn].pending then s.pool[conn].pending[k] == Some(row) else k in s.db && s.db[k] == row
  }

  /** The same for a select anywhere in a transaction, over its own writes so far. */
  lemma SelectSeesOwnWrites(s: State, step: Step, tenant: int, pred: (RowKey, Row) -> bool, k: RowKey, row: Row)
    requires Enabled(s, step) && step.action == Exec(Select(pred))
    requires !s.pool[step.conn].aborted && s.pool[step.conn].setting == Some(tenant)
    ensures ResultOf(s, step).Found? && Next(s, step) == s
    ensures k in ResultOf(s, step).rows && ResultOf(s, step).rows[k] == row <==>
      && Shows(s, step.conn, k, row) && pred(k, row)
      && ((if k.table == "tenant" then k.id == tenant else row.tenantId == tenant)
          || ((k.table == "customagentdefinition" || k.table == "agentteam") && row.system))
  {
    assert s.pool[step.conn].pending + map[] == s.pool[step.conn].pending;
    assert s.pool[step.conn := s.pool[step.conn]] == s.pool;
  }

  /** What a transaction wrote last at a key is what it shows there: the new row, or none
      after a deletion. Other keys are untouched. */
  lemma WritesShow(s: State, step: Step, k: RowKey, row: Row)
    requires Enabled(s, step) && step.action.Exec? && Answer(s, step).Some?
    ensures var writes := Answer(s, step).value.1;
      Shows(Next(s, step), step.conn, k, row) <==> if k in writes then writes[k] == Some(row) else Shows(s, step.conn, k, row)
  {
  }

  /** A commit makes exactly the rows the transaction shows the committed ones; a rollback,
      or a commit after a failed statement, leaves them as they were. */
  lemma EndOfTransaction(s: State, step: Step, k: RowKey, row: Row)
    requires Enabled(s, step) && (step.action.Commit? || step.action.Rollback?)
    ensures k in Next(s, step).db && Next(s, step).db[k] == row <==>
      if step.action.Commit? && !s.pool[step.conn].aborted then Shows(s, step.conn, k, row) else k in s.db && s.db[k] == row
    ensures Free(Next(s, step), step.conn)
  {
  }

  /** The state after the statements of one session, in turn. */
  function Executed(s: State, ctx: Option<int>, conn: nat, stmts: seq<Statement>): State
    requires HeldBy(s, conn, ctx)
    decreases |stmts|
  {
    if stmts == [] then s else Executed(Next(s, Step(ctx, conn, Exec(stmts[0]))), ctx, conn, stmts[1..])
  }

  predicate AllFail(s: State, ctx: Option<int>, conn: nat, stmts: seq<Statement>)
    requires HeldBy(s, conn, ctx)
    decreases |stmts|
  {
    stmts == [] ||
    (ResultOf(s, Step(ctx, conn, Exec(stmts[0]))) == Failed && AllFail(Next(s, Step(ctx, conn, Exec(stmts[0]))), ctx, conn, stmts[1..]))
  }

  lemma {:induction false} AbortedFailsOn(s: State, ctx: Option<int>, conn: nat, stmts: seq<Statement>)
    requires HeldBy(s, conn, ctx) && s.pool[conn].aborted
    ensures AllFail(s, ctx, conn, stmts)
    ensures var end := Executed(s, ctx, conn, stmts);
      HeldBy(end, conn, ctx) && end.pool[conn].aborted && end.db == s.db
    decreases |stmts|
  {
    if stmts != [] {
      AbortedFailsOn(Next(s, Step(ctx, conn, Exec(stmts[0]))), ctx, conn, stmts[1..]);
    }
  }

  /** Once a statement of a transaction has failed, all later ones fail, and its commit changes
      no row, whatever it had written before. */
  lemma OneFailureUndoesAll(s: State, ctx: Option<int>, conn: nat, failed: Statement, later: seq<Statement>)
    requires HeldBy(s, conn, ctx) && ResultOf(s, Step(ctx, conn, Exec(failed))) == Failed
    ensures var s1 := Next(s, Step(ctx, conn, Exec(failed)));
      && HeldBy(s1, conn, ctx) && AllFail(s1, ctx, conn, later)
      && var end := Executed(s1, ctx, conn, later);
         && HeldBy(end, conn, ctx) && Next(end, Step(ctx, conn, Commit)).db == s.db
  {
    AbortedFailsOn(Next(s, Step(ctx, conn, Exec(failed))), ctx, conn, later);
  }

  /** An update that hands no row to another tenant changes exactly the tenant's own
      matching rows; one that would fails and is undone as a whole. */
  lemma CommittedUpdateExactly(s: State, tenant: int, conn: nat, where: (RowKey, Row) -> bool, assign: (RowKey, Row) -> Row)
    requires Free(s, conn)
    ensures var hit := set k | k in s.db && where(k, s.db[k]) && (if k.table == "tenant" then k.id else s.db[k].tenantId) == tenant;
      if forall k :: k in hit ==> (if k.table == "tenant" then k.id else assign(k, s.db[k]).tenantId) == tenant
      then && Answered(s, Some(tenant), conn, Update(where, assign)) == Affected(|hit|)
           && Committed(s, Some(tenant), conn, Update(where, assign)) ==
                map k | k in s.db :: if k in hit then assign(k, s.db[k]) else s.db[k]
      else && Answered(s, Some(tenant), conn, Update(where, assign)) == Failed
           && Committed(s, Some(tenant), conn, Update(where, assign)) == s.db
  {
    CommittedRows(s, tenant, conn, Update(where, assign));
    UpdateWrites(s.db, tenant, where, assign);
  }

  lemma UpdateWrites(db: Rows, tenant: int, where: (RowKey, Row) -> bool, assign: (RowKey, Row) -> Row)
    ensures var hit := set k | k in db && where(k, db[k]) && (if k.table == "tenant" then k.id else db[k].tenantId) == tenant;
      match Execute(db, tenant, Update(where, assign))
      case None => !forall k :: k in hit ==> (if k.table == "tenant" then k.id else assign(k, db[k]).tenantId) == tenant
      case Some((r, writes)) =>
        && (forall k :: k in hit ==> (if k.table == "tenant" then k.id else assign(k, db[k]).tenantId) == tenant)
        && r == Affected(|hit|)
        && View(db, writes) == map k | k in db :: if k in hit then assign(k, db[k]) else db[k]
  {
    TargetsAre(db, tenant, where);
  }

  lemma TargetsAre(db: Rows, tenant: int, where: (RowKey, Row) -> bool)
    ensures Targets(db, tenant, where) ==
      set k | k in db && where(k, db[k]) && (if k.table == "tenant" then k.id else db[k].tenantId) == tenant
  {
  }

  /** A delete removes exactly the tenant's own matching rows, system rows of others
      being readable but out of reach. */
  lemma CommittedDeleteExactly(s: State, tenant: int, conn: nat, cond: (RowKey, Row) -> bool)
    requires Free(s, conn)
    ensures var hit := set k | k in s.db && cond(k, s.db[k]) && (if k.table == "tenant" then k.id else s.db[k].tenantId) == tenant;
      && Answered(s, Some(tenant), conn, Delete(cond)) == Affected(|hit|)
      && Committed(s, Some(tenant), conn, Delete(cond)) == map k | k in s.db && k !in hit :: s.db[k]
  {
    CommittedRows(s, tenant, conn, Delete(cond));
    TargetsAre(s.db, tenant, cond);
  }

  /** An insert succeeds exactly for a new key and a row of the tenant's own; then the row is
      there, for other tenants exactly when it is a system row of an overlay table. */
  lemma CommittedInsertExactly(s: State, tenant: int, conn: nat, k: RowKey, row: Row, reader: int)
    requires Free(s, conn)
    ensures var db := Committed(s, Some(tenant), conn, Insert(k, row));
      if k !in s.db && (if k.table == "tenant" then k.id else row.tenantId) == tenant
      then && Answered(s, Some(tenant), conn, Insert(k, row)) == Affected(1) && db == s.db[k := row]
           && (k in Visible(reader, db) <==>
                 reader == tenant || ((k.table == "customagentdefinition" || k.table == "agentteam") && row.system))
      else Answered(s, Some(tenant), conn, Insert(k, row)) == Failed && db == s.db
  {
    CommittedRows(s, tenant, conn, Insert(k, row));
  }
}
