/** What the writes do to the table: what every run keeps, and which rows one call touches. */
module UserRoleEffects {
  import opened Collections
  import opened UserRoleTable
  import opened UserRoleRepository
  import C = UserRoleCloaking

  datatype Write =
    | Creating(row: Row)
    | BulkCreating(rows: seq<Row>)
    | Updating(id: nat, tenant: TenantId, role: Option<RoleId>, now: int)
    | Revoking(id: nat, tenant: TenantId, now: int)
    | Switching(user: UserId, tenant: TenantId, status: Status, now: int)

  /** One write by a caller who sees global roles, or one who does not. */
  datatype Access = Access(write: Write, includeGlobal: bool)

  function Apply(db: Db, a: Access): Db {
    match a.write
    case Creating(row) => Create(db, row, a.includeGlobal).0
    case BulkCreating(rows) => BulkCreate(db, rows, a.includeGlobal).0
    case Updating(id, tenant, role, now) => Update(db, id, tenant, role, now, a.includeGlobal).0
    case Revoking(id, tenant, now) => Revoke(db, id, tenant, now, a.includeGlobal).0
    case Switching(user, tenant, status, now) => UpdateStatus(db, user, tenant, status, now, a.includeGlobal).0
  }

  function ApplyAll(db: Db, accesses: seq<Access>): Db
    decreases accesses
  {
    if accesses == [] then db else ApplyAll(Apply(db, accesses[0]), accesses[1..])
  }

  // ------------------------------------------------------------- what every run keeps

  /** The row's user, tenant and role exist, and the tenant may use the role. */
  predicate RowSound(db: Db, r: Row) {
    && r.userId in db.users && r.tenantId in db.tenants
    && (r.roleId.Some? ==> r.roleId.value in db.roles && TenantCanUseRole(db, r.tenantId, r.roleId.value))
  }

  predicate NoneTwiceActive(rows: seq<Row>) {
    forall i, j :: 0 <= i < j < |rows| ==> !Clash(rows[i], rows[j])
  }

  /** At most one active row per user and tenant, and every row sound. */
  predicate Sound(db: Db) {
    NoneTwiceActive(db.rows) && forall i :: 0 <= i < |db.rows| ==> RowSound(db, db.rows[i])
  }

  predicate UniqueIds(rows: seq<Row>) {
    forall i, j :: 0 <= i < j < |rows| ==> rows[i].id != rows[j].id
  }

  /** New rows come with fresh ids. */
  predicate FreshIds(db: Db, a: Access) {
    match a.write
    case Creating(row) => UniqueIds(db.rows + [row])
    case BulkCreating(rows) => UniqueIds(db.rows + rows)
    case _ => true
  }

  predicate FreshRun(db: Db, accesses: seq<Access>)
    decreases accesses
  {
    accesses != [] ==> FreshIds(db, accesses[0]) && FreshRun(Apply(db, accesses[0]), accesses[1..])
  }

  /** Whoever calls, and in whatever order: no user is ever twice active in a tenant, no row refers to nothing, and no
      tenant holds a role it may not use. */
  lemma {:induction false} EveryRunKeepsTable(db: Db, accesses: seq<Access>)
    requires Sound(db) && UniqueIds(db.rows) && FreshRun(db, accesses)
    ensures Sound(ApplyAll(db, accesses)) && UniqueIds(ApplyAll(db, accesses).rows)
    decreases accesses
  {
    if accesses != [] {
      WriteKeepsTable(db, accesses[0]);
      EveryRunKeepsTable(Apply(db, accesses[0]), accesses[1..]);
    }
  }

  lemma WriteKeepsTable(db: Db, a: Access)
    requires Sound(db) && UniqueIds(db.rows) && FreshIds(db, a)
    ensures Sound(Apply(db, a)) && UniqueIds(Apply(db, a).rows)
  {
    match a.write
    case Creating(row) => CreateKeeps(db, row, a.includeGlobal);
    case BulkCreating(rows) => InsertAllKeeps(db, db, rows, a.includeGlobal);
    case Updating(id, tenant, role, now) => UpdateKeeps(db, id, tenant, role, now, a.includeGlobal);
    case Revoking(id, tenant, now) =>
      StatusKeeps(db, (r: Row) => Revocable(db, r, id, tenant, a.includeGlobal), Revoked, now);
    case Switching(user, tenant, status, now) => SwitchKeeps(db, user, tenant, status, now, a.includeGlobal);
  }

  lemma InsertKeeps(db: Db, r: Row, includeGlobal: bool)
    requires Sound(db) && InsertRow(db, r, includeGlobal).Returned?
    ensures Sound(db.(rows := db.rows + [r]))
  {
    var next := db.(rows := db.rows + [r]);
    forall i, j | 0 <= i < j < |next.rows| ensures !Clash(next.rows[i], next.rows[j]) {
      if j == |db.rows| {
        assert db.rows[i] in db.rows;
        assert !Clash(r, db.rows[i]);
      }
    }
    forall i | 0 <= i < |next.rows| ensures RowSound(next, next.rows[i]) {
      if i < |db.rows| {
        assert RowSound(db, db.rows[i]);
      }
    }
  }

  lemma CreateKeeps(db: Db, r: Row, includeGlobal: bool)
    requires Sound(db) && UniqueIds(db.rows) && UniqueIds(db.rows + [r])
    ensures Sound(Create(db, r, includeGlobal).0) && UniqueIds(Create(db, r, includeGlobal).0.rows)
  {
    if InsertRow(db, r, includeGlobal).Returned? {
      InsertKeeps(db, r, includeGlobal);
    }
  }

  lemma {:induction false} InsertAllKeeps(committed: Db, tx: Db, rs: seq<Row>, includeGlobal: bool)
    requires Sound(tx) && UniqueIds(tx.rows + rs)
    ensures InsertAll(committed, tx, rs, includeGlobal).1.None? ==>
              && Sound(InsertAll(committed, tx, rs, includeGlobal).0)
              && UniqueIds(InsertAll(committed, tx, rs, includeGlobal).0.rows)
    decreases rs
  {
    if rs == [] {
      assert tx.rows + rs == tx.rows;
    } else if InsertRow(tx, rs[0], includeGlobal).Returned? {
      InsertKeeps(tx, rs[0], includeGlobal);
      assert (tx.rows + [rs[0]]) + rs[1..] == tx.rows + rs;
      InsertAllKeeps(committed, tx.(rows := tx.rows + [rs[0]]), rs[1..], includeGlobal);
    }
  }

  lemma UpdateKeeps(db: Db, id: nat, tenant: TenantId, role: Option<RoleId>, now: int, includeGlobal: bool)
    requires Sound(db) && UniqueIds(db.rows)
    ensures var next := Update(db, id, tenant, role, now, includeGlobal).0; Sound(next) && UniqueIds(next.rows)
  {
    var outcome := Update(db, id, tenant, role, now, includeGlobal);
    if outcome.1.Ok? {
      var where := (r: Row) => Updatable(db, r, id, includeGlobal);
      var next := db.(rows := UpdateWhere(db.rows, where, SetRole(role, now)));
      assert outcome.0 == next;
      forall i | 0 <= i < |next.rows| ensures RowSound(next, next.rows[i]) {
        assert RowSound(db, db.rows[i]);
        assert db.rows[i] in db.rows;
        assert where(db.rows[i]) ==> db.rows[i] in Filter(db.rows, where);
      }
      forall i, j | 0 <= i < j < |next.rows|
        ensures !Clash(next.rows[i], next.rows[j]) && next.rows[i].id != next.rows[j].id
      {
        assert !Clash(db.rows[i], db.rows[j]);
      }
    }
  }

  /** Setting the status of some rows keeps the rest; no conflict if no row becomes active. */
  lemma StatusKeeps(db: Db, where: Row -> bool, status: Status, now: int)
    requires Sound(db) && UniqueIds(db.rows)
    ensures var next := db.(rows := UpdateWhere(db.rows, where, SetStatus(status, now)));
            && UniqueIds(next.rows)
            && (forall i :: 0 <= i < |next.rows| ==> RowSound(next, next.rows[i]))
            && (status != Active ==> Sound(next))
  {
    var next := db.(rows := UpdateWhere(db.rows, where, SetStatus(status, now)));
    forall i | 0 <= i < |next.rows| ensures RowSound(next, next.rows[i]) {
      assert RowSound(db, db.rows[i]);
    }
    if status != Active {
      forall i, j | 0 <= i < j < |next.rows| ensures !Clash(next.rows[i], next.rows[j]) {
        assert !Clash(db.rows[i], db.rows[j]);
      }
    }
  }

  lemma SwitchKeeps(db: Db, user: UserId, tenant: TenantId, status: Status, now: int, includeGlobal: bool)
    requires Sound(db) && UniqueIds(db.rows)
    ensures var next := UpdateStatus(db, user, tenant, status, now, includeGlobal).0;
            Sound(next) && UniqueIds(next.rows)
  {
    var outcome := UpdateStatus(db, user, tenant, status, now, includeGlobal);
    if outcome.1.Ok? {
      var where := (r: Row) => Switchable(db, r, user, tenant, includeGlobal);
      StatusKeeps(db, where, status, now);
      ConflictMeans(outcome.0.rows);
    }
  }

  lemma ConflictMeans(rows: seq<Row>)
    requires UniqueIds(rows)
    ensures ActiveConflict(rows) <==> !NoneTwiceActive(rows)
  {
    if i, j :| 0 <= i < j < |rows| && Clash(rows[i], rows[j]) {
      assert rows[i] in rows && rows[j] in rows;
    }
    if r, s :| r in rows && s in rows && r.id != s.id && Clash(r, s) {
      var i, j :| 0 <= i < |rows| && 0 <= j < |rows| && rows[i] == r && rows[j] == s;
      assert i != j && (i < j || j < i);
    }
  }

  // ------------------------------------------------------------- what an ordinary caller cannot touch

  function Hidden(db: Db): seq<Row> { Filter(db.rows, (r: Row) => !C.Shown(db, r)) }

  ghost predicate Ordinary(a: Access) {
    !a.includeGlobal && (a.write.BulkCreating? ==> C.Uniform(a.write.rows))
  }

  /** Ordinary callers leave the rows of global roles exactly as they are, and add none. */
  lemma {:induction false} OrdinaryRunsLeaveHidden(db: Db, accesses: seq<Access>)
    requires forall a :: a in accesses ==> Ordinary(a)
    ensures Hidden(ApplyAll(db, accesses)) == Hidden(db)
    decreases accesses
  {
    if accesses != [] {
      WriteLeavesHidden(db, accesses[0]);
      OrdinaryRunsLeaveHidden(Apply(db, accesses[0]), accesses[1..]);
    }
  }

  lemma WriteLeavesHidden(db: Db, a: Access)
    requires Ordinary(a)
    ensures Hidden(Apply(db, a)) == Hidden(db)
  {
    match a.write
    case Creating(row) =>
      C.CheckRoleHides(db, row.roleId, row.tenantId);
      if Create(db, row, false).1.Ok? {
        AppendLeavesHidden(db, row);
      }
    case BulkCreating(rows) =>
      if rows != [] {
        C.CheckRoleHides(db, rows[0].roleId, rows[0].tenantId);
        if CheckRoleIfAny(db, rows[0].roleId, rows[0].tenantId, false).None? {
          InsertAllLeavesHidden(db, db, rows);
        }
      }
    case Updating(id, tenant, role, now) =>
      UpdateLeavesHidden(db, id, tenant, role, now);
    case Revoking(id, tenant, now) =>
      ChangeLeavesHidden(db, (r: Row) => Revocable(db, r, id, tenant, false), SetStatus(Revoked, now));
    case Switching(user, tenant, status, now) =>
      ChangeLeavesHidden(db, (r: Row) => Switchable(db, r, user, tenant, false), SetStatus(status, now));
  }

  lemma UpdateLeavesHidden(db: Db, id: nat, tenant: TenantId, role: Option<RoleId>, now: int)
    ensures Hidden(Update(db, id, tenant, role, now, false).0) == Hidden(db)
  {
    C.CheckRoleHides(db, role, tenant);
    var outcome := Update(db, id, tenant, role, now, false);
    if outcome.1.Ok? {
      var where := (r: Row) => Updatable(db, r, id, false);
      assert outcome.0 == db.(rows := UpdateWhere(db.rows, where, SetRole(role, now)));
      ChangeLeavesHidden(db, where, SetRole(role, now));
    }
  }

  lemma AppendLeavesHidden(db: Db, r: Row)
    requires C.Shown(db, r)
    ensures Hidden(db.(rows := db.rows + [r])) == Hidden(db)
  {
    var next := db.(rows := db.rows + [r]);
    var hidden := (s: Row) => !C.Shown(db, s);
    FilterConcat(db.rows, [r], hidden);
    assert Filter([r], hidden) == [];
    FilterCongruent(next.rows, (s: Row) => !C.Shown(next, s), hidden);
  }

  lemma {:induction false} InsertAllLeavesHidden(committed: Db, tx: Db, rs: seq<Row>)
    requires forall i :: 0 <= i < |rs| ==> C.Shown(tx, rs[i])
    ensures InsertAll(committed, tx, rs, false).1.None? ==> Hidden(InsertAll(committed, tx, rs, false).0) == Hidden(tx)
    decreases rs
  {
    if rs != [] && InsertRow(tx, rs[0], false).Returned? {
      AppendLeavesHidden(tx, rs[0]);
      InsertAllLeavesHidden(committed, tx.(rows := tx.rows + [rs[0]]), rs[1..]);
    }
  }

  /** An update of shown rows that leaves them shown. */
  lemma ChangeLeavesHidden(db: Db, where: Row -> bool, change: Row -> Row)
    requires forall r :: where(r) ==> C.Shown(db, r) && C.Shown(db, change(r))
    ensures Hidden(db.(rows := UpdateWhere(db.rows, where, change))) == Hidden(db)
  {
    var next := db.(rows := UpdateWhere(db.rows, where, change));
    var hidden := (r: Row) => !C.Shown(db, r);
    ChangeSkipsHidden(db.rows, where, change, hidden);
    FilterCongruent(next.rows, (r: Row) => !C.Shown(next, r), hidden);
    FilterCongruent(db.rows, (r: Row) => !C.Shown(db, r), hidden);
  }

  lemma {:induction false} ChangeSkipsHidden(
    rows: seq<Row>, where: Row -> bool, change: Row -> Row, hidden: Row -> bool)
    requires forall r :: where(r) ==> !hidden(r) && !hidden(change(r))
    ensures Filter(UpdateWhere(rows, where, change), hidden) == Filter(rows, hidden)
  {
    if rows != [] {
      assert UpdateWhere(rows, where, change)[1..] == UpdateWhere(rows[1..], where, change);
      ChangeSkipsHidden(rows[1..], where, change, hidden);
    }
  }

  // ------------------------------------------------------------- which rows one call touches

  /** A role that the caller may assign in a tenant. */
  predicate MayAssign(db: Db, role: Option<RoleId>, tenant: TenantId, includeGlobal: bool) {
    role.Some? ==>
      && role.value in db.roles && !db.roles[role.value].deleted
      && (db.roles[role.value].tenantId == Some(tenant) || db.roles[role.value].tenantId.None?)
      && (db.roles[role.value].isGlobal ==> includeGlobal)
      && TenantCanUseRole(db, tenant, role.value)
  }

  /** A row is created exactly when its role may be assigned, its user and tenant exist, its user is no platform
      identity to the caller, and the user is not active there already; then it is the last row, and otherwise nothing
      changes. */
  lemma CreateSucceedsIff(db: Db, r: Row, includeGlobal: bool)
    ensures var (next, reply) := Create(db, r, includeGlobal);
            if && MayAssign(db, r.roleId, r.tenantId, includeGlobal) && r.userId in db.users && r.tenantId in db.tenants
               && (includeGlobal || !PlatformIdentity(db, r.userId))
               && !(r.status == Active && HasVisibleActive(db, r.userId, r.tenantId, true))
            then reply == Ok(r) && next == db.(rows := db.rows + [r])
            else reply.Err? && next == db
  {
    if s :| s in db.rows && Clash(r, s) {
      assert s.userId == r.userId && s.tenantId == r.tenantId && s.status == Active && Visible(db, s, true);
    }
    if s :| s in db.rows && s.userId == r.userId && s.tenantId == r.tenantId && s.status == Active
            && Visible(db, s, true)
    {
      assert r.status == Active ==> Clash(r, s);
    }
  }

  /** Rows created one at a time, up to the first that is refused. */
  function CreateEach(db: Db, rs: seq<Row>, includeGlobal: bool): (Db, bool)
    decreases rs
  {
    if rs == [] then (db, true) else
      var (next, reply) := Create(db, rs[0], includeGlobal);
      if reply.Err? then (next, false) else CreateEach(next, rs[1..], includeGlobal)
  }

  /** A batch is all or nothing: it goes in exactly when its rows would all go in one at a time, with that outcome, and
      otherwise nothing changes. */
  lemma BulkIsAllOrNothing(db: Db, rs: seq<Row>, includeGlobal: bool)
    requires C.Uniform(rs)
    ensures var (next, reply) := BulkCreate(db, rs, includeGlobal);
            if CreateEach(db, rs, includeGlobal).1 then
              reply == Ok(rs) && next == CreateEach(db, rs, includeGlobal).0 == db.(rows := db.rows + rs)
            else reply.Err? && next == db
  {
    if rs == [] {
      assert db.rows + rs == db.rows;
    } else if CheckRoleIfAny(db, rs[0].roleId, rs[0].tenantId, includeGlobal).None? {
      InsertAllIsEach(db, db, rs, includeGlobal);
      var (end, e) := InsertAll(db, db, rs, includeGlobal);
      assert BulkCreate(db, rs, includeGlobal) == if e.Some? then (db, Err(e.value)) else (end, Ok(rs));
    } else {
      assert Create(db, rs[0], includeGlobal).1.Err?;
    }
  }

  lemma {:induction false} InsertAllIsEach(committed: Db, tx: Db, rs: seq<Row>, includeGlobal: bool)
    requires C.Uniform(rs)
    requires rs != [] ==> CheckRoleIfAny(tx, rs[0].roleId, rs[0].tenantId, includeGlobal).None?
    ensures var (end, e) := InsertAll(committed, tx, rs, includeGlobal);
            && (e.None? <==> CreateEach(tx, rs, includeGlobal).1)
            && (e.None? ==> end == CreateEach(tx, rs, includeGlobal).0 == tx.(rows := tx.rows + rs))
    decreases rs
  {
    if rs == [] {
      assert tx.rows + rs == tx.rows;
    } else if InsertRow(tx, rs[0], includeGlobal).Returned? {
      assert (tx.rows + [rs[0]]) + rs[1..] == tx.rows + rs;
      assert C.Uniform(rs[1..]) by {
        assert forall i :: 0 <= i < |rs| - 1 ==> rs[1..][i] == rs[i + 1];
      }
      assert |rs| > 1 ==> rs[1..][0].roleId == rs[0].roleId && rs[1..][0].tenantId == rs[0].tenantId;
      InsertAllIsEach(committed, tx.(rows := tx.rows + [rs[0]]), rs[1..], includeGlobal);
    }
  }

  /** An update that selects one row changes that one, and answers with it. */
  lemma OneRowChanges(rows: seq<Row>, where: Row -> bool, change: Row -> Row, k: nat)
    requires k < |rows| && where(rows[k]) && forall i :: 0 <= i < |rows| && i != k ==> !where(rows[i])
    ensures UpdateWhere(rows, where, change) == rows[k := change(rows[k])]
    ensures First(Map(Filter(rows, where), change)) == Some(change(rows[k]))
  {
    OnlyOne(rows, where, k);
  }

  lemma {:induction false} OnlyOne(rows: seq<Row>, where: Row -> bool, k: nat)
    requires k < |rows| && where(rows[k]) && forall i :: 0 <= i < |rows| && i != k ==> !where(rows[i])
    ensures Filter(rows, where) == [rows[k]]
  {
    if k == 0 {
      FilterNone(rows[1..], where);
    } else {
      OnlyOne(rows[1..], where, k - 1);
    }
  }

  lemma NoRowChanges(rows: seq<Row>, where: Row -> bool, change: Row -> Row)
    requires forall i :: 0 <= i < |rows| ==> !where(rows[i])
    ensures UpdateWhere(rows, where, change) == rows && First(Map(Filter(rows, where), change)) == None
  {
    FilterNone(rows, where);
  }

  /** Revoking touches the status of the one row with that id, when it is of the caller's tenant and shown to the
      caller, and nothing otherwise; the user is then not active in the tenant through it. */
  lemma RevokeTouchesOne(db: Db, k: nat, tenant: TenantId, now: int, includeGlobal: bool)
    requires UniqueIds(db.rows) && k < |db.rows|
    ensures var r := db.rows[k];
            var (next, reply) := Revoke(db, r.id, tenant, now, includeGlobal);
            if r.tenantId == tenant && (includeGlobal || !IsGlobal(db.roles, r.roleId)) then
              && next == db.(rows := db.rows[k := r.(status := Revoked, updatedAt := now)])
              && reply == Some(next.rows[k])
            else next == db && reply == None
  {
    var r := db.rows[k];
    var where := (s: Row) => Revocable(db, s, r.id, tenant, includeGlobal);
    if where(r) {
      OneRowChanges(db.rows, where, SetStatus(Revoked, now), k);
    } else {
      NoRowChanges(db.rows, where, SetStatus(Revoked, now));
    }
  }

  /** After the active row of a user in a tenant is revoked, the user has none there, and can be assigned there again
      by whoever may assign the role. */
  lemma RevokeFreesThePlace(db: Db, k: nat, now: int, includeGlobal: bool, again: Row, byGlobal: bool)
    requires Sound(db) && UniqueIds(db.rows) && k < |db.rows|
    requires db.rows[k].status == Active && Visible(db, db.rows[k], includeGlobal)
    ensures var r := db.rows[k];
            var next := Revoke(db, r.id, r.tenantId, now, includeGlobal).0;
            && !HasVisibleActive(next, r.userId, r.tenantId, true)
            && (&& again.userId == r.userId && again.tenantId == r.tenantId
                && MayAssign(next, again.roleId, again.tenantId, byGlobal)
                && (byGlobal || !PlatformIdentity(next, again.userId)) ==>
                  Create(next, again, byGlobal).1.Ok?)
  {
    var r := db.rows[k];
    RevokeTouchesOne(db, k, r.tenantId, now, includeGlobal);
    var next := Revoke(db, r.id, r.tenantId, now, includeGlobal).0;
    forall i | 0 <= i < |next.rows|
      ensures !(next.rows[i].userId == r.userId && next.rows[i].tenantId == r.tenantId && next.rows[i].status == Active)
    {
      if i < k {
        assert !Clash(db.rows[i], db.rows[k]);
      } else if k < i {
        assert !Clash(db.rows[k], db.rows[i]);
      }
    }
    CreateSucceedsIff(next, again, byGlobal);
    assert RowSound(db, r);
  }

  /** A change of role touches the role of the one row with that id, whatever tenant it is in, if the caller may assign
      the role in its own tenant, the row is shown to the caller, its user is no platform identity to the caller, and
      the row's own tenant may use the role. */
  lemma UpdateTouchesOne(db: Db, k: nat, tenant: TenantId, role: Option<RoleId>, now: int, includeGlobal: bool)
    requires UniqueIds(db.rows) && k < |db.rows|
    ensures var r := db.rows[k];
            var (next, reply) := Update(db, r.id, tenant, role, now, includeGlobal);
            if !MayAssign(db, role, tenant, includeGlobal) then next == db && reply.Err?
            else if !includeGlobal && (IsGlobal(db.roles, r.roleId) || PlatformIdentity(db, r.userId)) then
              next == db && reply == Ok(None)
            else if role.Some? && !TenantCanUseRole(db, r.tenantId, role.value) then
              next == db && reply == Err(RoleNotAllowedForTenant)
            else
              && next == db.(rows := db.rows[k := r.(roleId := role, updatedAt := now)])
              && reply == Ok(Some(next.rows[k]))
  {
    var r := db.rows[k];
    var where := (s: Row) => Updatable(db, s, r.id, includeGlobal);
    if where(r) {
      OnlyOne(db.rows, where, k);
      OneRowChanges(db.rows, where, SetRole(role, now), k);
    } else {
      FilterNone(db.rows, where);
      NoRowChanges(db.rows, where, SetRole(role, now));
    }
  }

  /** Two rows of the pair would be active: two that the switch touches, or one and an active row it does not. */
  predicate WouldClash(db: Db, user: UserId, tenant: TenantId, includeGlobal: bool) {
    exists i, j :: 0 <= i < |db.rows| && 0 <= j < |db.rows| && i != j
                   && Switchable(db, db.rows[i], user, tenant, includeGlobal)
                   && (Switchable(db, db.rows[j], user, tenant, includeGlobal)
                       || (db.rows[j].status == Active && db.rows[j].userId == user && db.rows[j].tenantId == tenant))
  }

  /** A switch of status fails whole exactly when it would make two rows of the pair active; otherwise every row of the
      pair that is not pending and is shown to the caller takes the status, and no other row changes. */
  lemma SwitchTouchesPair(db: Db, user: UserId, tenant: TenantId, status: Status, now: int, includeGlobal: bool)
    requires Sound(db) && UniqueIds(db.rows)
    ensures var (next, reply) := UpdateStatus(db, user, tenant, status, now, includeGlobal);
            && (reply == Err(RawUnique) <==> status == Active && WouldClash(db, user, tenant, includeGlobal))
            && (reply == Err(NoActiveAssignment)
                <==> forall i :: 0 <= i < |db.rows| ==> var r := db.rows[i];
                       !(r.userId == user && r.tenantId == tenant && r.status != Pending
                         && (includeGlobal || !IsGlobal(db.roles, r.roleId))))
            && (reply.Err? ==> next == db)
            && (reply.Ok? ==>
                  |next.rows| == |db.rows| && next == db.(rows := next.rows)
                  && (exists i :: 0 <= i < |db.rows| && next.rows[i] == reply.value
                                  && Switchable(db, db.rows[i], user, tenant, includeGlobal))
                  && forall i :: 0 <= i < |db.rows| ==>
                       var r := db.rows[i];
                       next.rows[i] == if && r.userId == user && r.tenantId == tenant && r.status != Pending
                                          && (includeGlobal || !IsGlobal(db.roles, r.roleId))
                                       then r.(status := status, updatedAt := now) else r)
  {
    var where := (r: Row) => Switchable(db, r, user, tenant, includeGlobal);
    var rows := UpdateWhere(db.rows, where, SetStatus(status, now));
    StatusKeeps(db, where, status, now);
    ConflictMeans(rows);
    ClashAfterSwitch(db, user, tenant, status, now, includeGlobal);
    SwitchFinds(db, user, tenant, status, now, includeGlobal);
  }

  /** A switch finds no assignment exactly when it reaches no row, and otherwise answers with one that it reached. */
  lemma SwitchFinds(db: Db, user: UserId, tenant: TenantId, status: Status, now: int, includeGlobal: bool)
    ensures UpdateStatus(db, user, tenant, status, now, includeGlobal).1 == Err(NoActiveAssignment)
       <==> && !ActiveConflict(UpdateWhere(db.rows, r => Switchable(db, r, user, tenant, includeGlobal),
                                           SetStatus(status, now)))
            && forall i :: 0 <= i < |db.rows| ==> !Switchable(db, db.rows[i], user, tenant, includeGlobal)
    ensures var reply := UpdateStatus(db, user, tenant, status, now, includeGlobal).1;
            reply.Ok? ==> exists i :: 0 <= i < |db.rows| && Switchable(db, db.rows[i], user, tenant, includeGlobal)
                                      && reply.value == db.rows[i].(status := status, updatedAt := now)
  {
    var where := (r: Row) => Switchable(db, r, user, tenant, includeGlobal);
    forall i | 0 <= i < |db.rows| ensures where(db.rows[i]) ==> db.rows[i] in Filter(db.rows, where) {
      assert db.rows[i] in db.rows;
    }
    if Filter(db.rows, where) != [] {
      assert Filter(db.rows, where)[0] in Filter(db.rows, where);
    }
  }

  lemma ClashAfterSwitch(db: Db, user: UserId, tenant: TenantId, status: Status, now: int, includeGlobal: bool)
    requires Sound(db)
    ensures var where := (r: Row) => Switchable(db, r, user, tenant, includeGlobal);
            !NoneTwiceActive(UpdateWhere(db.rows, where, SetStatus(status, now)))
            <==> status == Active && WouldClash(db, user, tenant, includeGlobal)
  {
    var where := (r: Row) => Switchable(db, r, user, tenant, includeGlobal);
    var rows := UpdateWhere(db.rows, where, SetStatus(status, now));
    if i, j :| 0 <= i < j < |rows| && Clash(rows[i], rows[j]) {
      assert !Clash(db.rows[i], db.rows[j]);
      if where(db.rows[i]) {
        assert status == Active && WouldClash(db, user, tenant, includeGlobal);
      } else {
        assert where(db.rows[j]) && i != j;
        assert status == Active && WouldClash(db, user, tenant, includeGlobal);
      }
    }
    if status == Active && WouldClash(db, user, tenant, includeGlobal) {
      var i, j :| 0 <= i < |db.rows| && 0 <= j < |db.rows| && i != j
                  && Switchable(db, db.rows[i], user, tenant, includeGlobal)
                  && (Switchable(db, db.rows[j], user, tenant, includeGlobal)
                      || (db.rows[j].status == Active && db.rows[j].userId == user && db.rows[j].tenantId == tenant));
      assert Clash(rows[i], rows[j]) && Clash(rows[j], rows[i]);
      assert i < j || j < i;
    }
  }

  // ------------------------------------------------------------- what a refused batch answers

  /** The place of row k is taken: by a row of the table, whoever may see it, or by an earlier row of the batch. */
  predicate TakenInTable(db: Db, r: Row) { r.status == Active && HasVisibleActive(db, r.userId, r.tenantId, true) }

  predicate TakenInBatch(rs: seq<Row>, k: nat)
    requires k < |rs|
  {
    exists j :: 0 <= j < k && Clash(rs[k], rs[j])
  }

  /** What the insert of row k answers, once the role of the batch has been checked. */
  function RowResult(db: Db, rs: seq<Row>, k: nat, includeGlobal: bool): SqlResult
    requires k < |rs|
  {
    if !includeGlobal && PlatformIdentity(db, rs[k].userId) then NoRows
    else if TakenInTable(db, rs[k]) || TakenInBatch(rs, k) then UniqueViolation
    else if rs[k].userId !in db.users then ForeignKeyViolation(UserFk)
    else if rs[k].tenantId !in db.tenants then ForeignKeyViolation(TenantFk)
    else Returned(rs[k])
  }

  predicate FirstRefused(db: Db, rs: seq<Row>, m: nat, includeGlobal: bool) {
    && m < |rs| && !RowResult(db, rs, m, includeGlobal).Returned?
    && forall j :: 0 <= j < m ==> RowResult(db, rs, j, includeGlobal).Returned?
  }

  /** The error of a batch refused at row m: that of the row, looked up in the committed table, with its user. */
  function BatchError(db: Db, rs: seq<Row>, m: nat, includeGlobal: bool): Error
    requires FirstRefused(db, rs, m, includeGlobal)
  {
    var e := InsertError(db, RowResult(db, rs, m, includeGlobal), rs[m], includeGlobal);
    if e == RawForeignKey then e else ForUser(e, rs[m].userId)
  }

  function Inserted(db: Db, rs: seq<Row>, k: nat): Db
    requires k <= |rs|
  {
    db.(rows := db.rows + rs[..k])
  }

  /** The rows of the batch inserted so far make nobody a platform identity to an ordinary caller. */
  lemma BatchMakesNoPlatform(db: Db, rs: seq<Row>, k: nat, user: UserId)
    requires k <= |rs| && forall i :: 0 <= i < |rs| ==> C.Shown(db, rs[i])
    ensures PlatformIdentity(Inserted(db, rs, k), user) == PlatformIdentity(db, user)
  {
    var tx := Inserted(db, rs, k);
    assert forall r :: r in tx.rows <==> r in db.rows || r in rs[..k];
    assert forall r :: r in rs[..k] ==> C.Shown(db, r);
  }

  lemma ClashInTransaction(db: Db, rs: seq<Row>, k: nat)
    requires k < |rs|
    ensures (exists s :: s in Inserted(db, rs, k).rows && Clash(rs[k], s))
       <==> TakenInTable(db, rs[k]) || TakenInBatch(rs, k)
  {
    var tx := Inserted(db, rs, k);
    if s :| s in tx.rows && Clash(rs[k], s) {
      if s in db.rows {
        assert Visible(db, s, true);
      } else {
        var j :| 0 <= j < k && rs[..k][j] == s;
        assert Clash(rs[k], rs[j]);
      }
    }
    if TakenInTable(db, rs[k]) {
      var s :| s in db.rows && s.userId == rs[k].userId && s.tenantId == rs[k].tenantId && s.status == Active;
      assert s in tx.rows && Clash(rs[k], s);
    }
    if TakenInBatch(rs, k) {
      var j :| 0 <= j < k && Clash(rs[k], rs[j]);
      assert rs[..k][j] == rs[j] && rs[j] in tx.rows;
    }
  }

  lemma RowInTransaction(db: Db, rs: seq<Row>, k: nat, includeGlobal: bool)
    requires C.Uniform(rs) && k < |rs| && MayAssign(db, rs[0].roleId, rs[0].tenantId, includeGlobal)
    ensures InsertRow(Inserted(db, rs, k), rs[k], includeGlobal) == RowResult(db, rs, k, includeGlobal)
  {
    assert rs[k].roleId == rs[0].roleId && rs[k].tenantId == rs[0].tenantId;
    ClashInTransaction(db, rs, k);
    if !includeGlobal {
      BatchMakesNoPlatform(db, rs, k, rs[k].userId);
    }
  }

  lemma {:induction false} InsertAllAnswers(db: Db, rs: seq<Row>, k: nat, m: nat, includeGlobal: bool)
    requires C.Uniform(rs) && k <= |rs| && (rs != [] ==> MayAssign(db, rs[0].roleId, rs[0].tenantId, includeGlobal))
    requires k <= m <= |rs| && forall j :: 0 <= j < m ==> RowResult(db, rs, j, includeGlobal).Returned?
    requires m < |rs| ==> FirstRefused(db, rs, m, includeGlobal)
    ensures InsertAll(db, Inserted(db, rs, k), rs[k..], includeGlobal).1
         == if m == |rs| then None else Some(BatchError(db, rs, m, includeGlobal))
    decreases |rs| - k
  {
    if k < |rs| {
      var tx := Inserted(db, rs, k);
      RowInTransaction(db, rs, k, includeGlobal);
      assert rs[k..][0] == rs[k] && rs[k..][1..] == rs[k + 1..];
      if k < m {
        assert tx.rows + [rs[k]] == Inserted(db, rs, k + 1).rows;
        InsertAllAnswers(db, rs, k + 1, m, includeGlobal);
      }
    }
  }

  /** The answer to a batch: that of its role, or of its first refused row, or all its rows. */
  lemma BatchAnswers(db: Db, rs: seq<Row>, m: nat, includeGlobal: bool)
    requires C.Uniform(rs) && rs != [] && MayAssign(db, rs[0].roleId, rs[0].tenantId, includeGlobal)
    requires m <= |rs| && forall j :: 0 <= j < m ==> RowResult(db, rs, j, includeGlobal).Returned?
    requires m < |rs| ==> FirstRefused(db, rs, m, includeGlobal)
    ensures BulkCreate(db, rs, includeGlobal).1
         == if m == |rs| then Ok(rs) else Err(BatchError(db, rs, m, includeGlobal))
  {
    assert Inserted(db, rs, 0) == db by {
      assert db.rows + rs[..0] == db.rows;
    }
    assert rs[0..] == rs;
    InsertAllAnswers(db, rs, 0, m, includeGlobal);
  }

  /** The first refused row, or the end. */
  lemma {:induction false} FindFirstRefused(db: Db, rs: seq<Row>, k: nat, includeGlobal: bool) returns (m: nat)
    requires k <= |rs| && forall j :: 0 <= j < k ==> RowResult(db, rs, j, includeGlobal).Returned?
    ensures k <= m <= |rs| && forall j :: 0 <= j < m ==> RowResult(db, rs, j, includeGlobal).Returned?
    ensures m < |rs| ==> FirstRefused(db, rs, m, includeGlobal)
    decreases |rs| - k
  {
    m := k;
    if k < |rs| && RowResult(db, rs, k, includeGlobal).Returned? {
      m := FindFirstRefused(db, rs, k + 1, includeGlobal);
    }
  }

  /** The user exists, and is no platform identity to the caller. */
  predicate KnownTo(db: Db, user: UserId, includeGlobal: bool) {
    user in db.users && (includeGlobal || !PlatformIdentity(db, user))
  }

  /** Row m is refused for a user known to the caller, whose place is taken only by an earlier row of the batch. */
  predicate RefusedByBatchOnly(db: Db, rs: seq<Row>, m: nat, includeGlobal: bool) {
    && FirstRefused(db, rs, m, includeGlobal) && KnownTo(db, rs[m].userId, includeGlobal)
    && TakenInBatch(rs, m) && !TakenInTable(db, rs[m])
  }

  /** A caller sees every active row of a user it knows. */
  lemma KnownIsSeen(db: Db, user: UserId, tenant: TenantId, includeGlobal: bool)
    requires KnownTo(db, user, includeGlobal)
    ensures HasVisibleActive(db, user, tenant, includeGlobal) == HasVisibleActive(db, user, tenant, true)
  {
    if r :| r in db.rows && r.userId == user && r.tenantId == tenant && r.status == Active && Visible(db, r, true) {
      assert Visible(db, r, includeGlobal);
    }
  }

  /** A batch calls a user unknown that the caller knows exactly when its role may be assigned and its first refused row
      clashes with an earlier row of the batch and with none of the table: the conflict is looked up where the earlier
      row is not committed. Who calls makes no difference. */
  lemma KnownUserCalledUnknownIff(db: Db, rs: seq<Row>, includeGlobal: bool)
    requires C.Uniform(rs)
    ensures (exists u :: KnownTo(db, u, includeGlobal)
                         && BulkCreate(db, rs, includeGlobal).1 == Err(ForUser(InvalidUserId, u)))
       <==> && rs != [] && MayAssign(db, rs[0].roleId, rs[0].tenantId, includeGlobal)
            && exists m :: RefusedByBatchOnly(db, rs, m, includeGlobal)
  {
    if rs != [] && MayAssign(db, rs[0].roleId, rs[0].tenantId, includeGlobal) {
      var m := FindFirstRefused(db, rs, 0, includeGlobal);
      BatchAnswers(db, rs, m, includeGlobal);
      if m < |rs| {
        ErrorAtFirst(db, rs, m, includeGlobal);
      }
    }
  }

  lemma ErrorAtFirst(db: Db, rs: seq<Row>, m: nat, includeGlobal: bool)
    requires FirstRefused(db, rs, m, includeGlobal)
    ensures (exists u :: KnownTo(db, u, includeGlobal)
                         && BatchError(db, rs, m, includeGlobal) == ForUser(InvalidUserId, u))
       <==> RefusedByBatchOnly(db, rs, m, includeGlobal)
    ensures forall n: nat :: FirstRefused(db, rs, n, includeGlobal) ==> n == m
  {
    var u := rs[m].userId;
    if KnownTo(db, u, includeGlobal) {
      KnownIsSeen(db, u, rs[m].tenantId, includeGlobal);
    }
  }

  /** For one: two active rows of the same user, the first of which would be accepted alone. */
  lemma RepeatedUserIsCalledUnknown(db: Db, a: Row, b: Row, includeGlobal: bool)
    requires Create(db, a, includeGlobal).1.Ok? && a.status == Active && b.status == Active
    requires a.userId == b.userId && a.tenantId == b.tenantId && a.roleId == b.roleId
    ensures KnownTo(db, a.userId, includeGlobal)
    ensures BulkCreate(db, [a, b], includeGlobal) == (db, Err(ForUser(InvalidUserId, a.userId)))
  {
    var rs := [a, b];
    CreateSucceedsIff(db, a, includeGlobal);
    assert Clash(rs[1], rs[0]);
    assert RowResult(db, rs, 0, includeGlobal).Returned?;
    KnownIsSeen(db, a.userId, a.tenantId, includeGlobal);
    BatchAnswers(db, rs, 1, includeGlobal);
  }

  // ------------------------------------------------------------- what breaks and what fails

  /** A caller who sees global roles can break what hides platform identities: any other role given to one of them. */
  lemma GlobalCallerExposes(db: Db, r: Row)
    requires C.Inv(db) && PlatformIdentity(db, r.userId)
    requires Create(db, r, true).1.Ok? && !IsGlobal(db.roles, r.roleId)
    ensures var next := Create(db, r, true).0;
            && !C.OwnsNothingShown(next)
            && ((forall s :: s in db.rows ==> s.userId in db.users) ==>
                  !forall tenant :: FindByTenant(C.Erase(next), tenant, None, false)
                                    == FindByTenant(next, tenant, None, false))
  {
    CreateSucceedsIff(db, r, true);
    var next := Create(db, r, true).0;
    assert r in next.rows && C.Shown(next, r);
    var s :| s in db.rows && s.userId == r.userId && s.status != Revoked && IsGlobal(db.roles, s.roleId);
    assert s in next.rows;
    if forall q :: q in db.rows ==> q.userId in db.users {
      C.ListingsHideIff(next);
    }
  }

  /** A user who was revoked, assigned again and suspended cannot be activated: the suspension reached the revoked row
      too, and the activation would make both active. */
  lemma ActivationFails(db: Db, k: nat, again: Row, now: int, includeGlobal: bool)
    requires Sound(db) && UniqueIds(db.rows + [again]) && k < |db.rows|
    requires db.rows[k].status == Active && Visible(db, db.rows[k], includeGlobal)
    requires var r := db.rows[k]; again.userId == r.userId && again.tenantId == r.tenantId && again.status == Active
    requires Create(Revoke(db, db.rows[k].id, again.tenantId, now, includeGlobal).0, again, includeGlobal).1.Ok?
    ensures var revoked := Revoke(db, db.rows[k].id, again.tenantId, now, includeGlobal).0;
            var given := Create(revoked, again, includeGlobal).0;
            var suspended := UpdateStatus(given, again.userId, again.tenantId, Suspended, now, includeGlobal);
            && suspended.1.Ok?
            && UpdateStatus(suspended.0, again.userId, again.tenantId, Active, now, includeGlobal)
               == (suspended.0, Err(RawUnique))
  {
    var r := db.rows[k];
    var revoked := Revoke(db, r.id, again.tenantId, now, includeGlobal).0;
    assert UniqueIds(db.rows) by {
      assert forall i :: 0 <= i < |db.rows| ==> (db.rows + [again])[i] == db.rows[i];
    }
    RevokeTouchesOne(db, k, again.tenantId, now, includeGlobal);
    StatusKeeps(db, (s: Row) => Revocable(db, s, r.id, again.tenantId, includeGlobal), Revoked, now);
    CreateSucceedsIff(revoked, again, includeGlobal);
    var given := Create(revoked, again, includeGlobal).0;
    assert UniqueIds(given.rows) by {
      assert forall i :: 0 <= i < |given.rows| ==> given.rows[i].id == (db.rows + [again])[i].id;
    }
    InsertKeeps(revoked, again, includeGlobal);
    assert Visible(db, again, includeGlobal) by {
      assert MayAssign(revoked, again.roleId, again.tenantId, includeGlobal);
    }
    ActivationClashes(given, k, |db.rows|, again.userId, again.tenantId, now, includeGlobal);
  }

  lemma ActivationClashes(db: Db, i: nat, j: nat, user: UserId, tenant: TenantId, now: int, includeGlobal: bool)
    requires Sound(db) && UniqueIds(db.rows) && i < j < |db.rows|
    requires Switchable(db, db.rows[i], user, tenant, includeGlobal)
    requires Switchable(db, db.rows[j], user, tenant, includeGlobal)
    ensures var suspended := UpdateStatus(db, user, tenant, Suspended, now, includeGlobal);
            && suspended.1.Ok?
            && UpdateStatus(suspended.0, user, tenant, Active, now, includeGlobal) == (suspended.0, Err(RawUnique))
  {
    SwitchTouchesPair(db, user, tenant, Suspended, now, includeGlobal);
    SwitchKeeps(db, user, tenant, Suspended, now, includeGlobal);
    SomeoneSwitches(db, i, user, tenant, Suspended, now, includeGlobal);
    var next := UpdateStatus(db, user, tenant, Suspended, now, includeGlobal).0;
    SwitchTouchesPair(next, user, tenant, Active, now, includeGlobal);
    assert Switchable(next, next.rows[i], user, tenant, includeGlobal);
    assert Switchable(next, next.rows[j], user, tenant, includeGlobal);
  }

  /** A switch that reaches a row finds an assignment. */
  lemma SomeoneSwitches(db: Db, i: nat, user: UserId, tenant: TenantId, status: Status, now: int, includeGlobal: bool)
    requires i < |db.rows| && Switchable(db, db.rows[i], user, tenant, includeGlobal)
    ensures UpdateStatus(db, user, tenant, status, now, includeGlobal).1 != Err(NoActiveAssignment)
  {
    assert db.rows[i] in Filter(db.rows, (r: Row) => Switchable(db, r, user, tenant, includeGlobal));
  }

  // ------------------------------------------------------------- what a caller is shown

  function RowsOf(list: seq<Detail>): (r: seq<Row>)
    ensures |r| == |list|
  {
    seq(|list|, i requires 0 <= i < |list| => list[i].row)
  }

  ghost predicate NewestComeFirst(rows: seq<Row>) {
    forall i, j :: 0 <= i < j < |rows| ==> rows[i].createdAt >= rows[j].createdAt
  }

  /** A tenant's list: its rows that the caller may see, of known users and of the status asked for, each as often as
      the table has it, and no other; newest first, with the name of its role and the user's profile. */
  lemma TenantListIsExact(db: Db, tenant: TenantId, status: Option<Status>, includeGlobal: bool, r: Row)
    ensures var list := FindByTenant(db, tenant, status, includeGlobal);
            && multiset(RowsOf(list))[r]
               == (if && r.tenantId == tenant && (includeGlobal || !IsGlobal(db.roles, r.roleId))
                      && (status.None? || status.value == r.status) && r.userId in db.users
                   then multiset(db.rows)[r] else 0)
            && NewestComeFirst(RowsOf(list))
            && forall i :: 0 <= i < |list| ==> Describes(db, list[i])
  {
    var where := (s: Row) => ListedInTenant(db, s, tenant, status, includeGlobal);
    var picked := Filter(db.rows, where);
    FilterMultiplicity(db.rows, where, r);
    NewestFirstSorts(picked);
    var rows := Sort(picked, NewestFirst());
    assert RowsOf(FindByTenant(db, tenant, status, includeGlobal)) == rows;
    forall i | 0 <= i < |rows| ensures rows[i].userId in db.users {
      assert rows[i] in rows;
    }
  }

  /** A detail gives the profile of its row's user, and the name of its row's role if there is such a role. */
  predicate Describes(db: Db, d: Detail) {
    && d.row.userId in db.users && d.user == db.users[d.row.userId]
    && (match d.row.roleId
        case None => d.roleName == ""
        case Some(role) => if role in db.roles then d.roleName == db.roles[role].name else d.roleName == "")
  }

  /** A user's list: the memberships that the caller may see, of its own tenant or of all, each as often as the table
      has it, and no other; newest first, with the names of its tenant and role. */
  lemma UserListIsExact(db: Db, user: UserId, tenant: TenantId, crossTenant: bool, includeGlobal: bool)
    returns (rows: seq<Row>)
    ensures NewestComeFirst(rows) && Memberships(db, rows, FindByUser(db, user, tenant, crossTenant, includeGlobal))
    ensures forall r: Row :: multiset(rows)[r]
              == if && r.userId == user && (crossTenant || r.tenantId == tenant)
                    && (includeGlobal || !IsGlobal(db.roles, r.roleId)) && r.tenantId in db.tenants
                 then multiset(db.rows)[r] else 0
  {
    var where := (r: Row) => ListedForUser(db, r, user, tenant, crossTenant, includeGlobal);
    var picked := Filter(db.rows, where);
    rows := Sort(picked, NewestFirst());
    NewestFirstSorts(picked);
    forall r: Row ensures multiset(rows)[r] == if where(r) then multiset(db.rows)[r] else 0 {
      FilterMultiplicity(db.rows, where, r);
    }
    forall i | 0 <= i < |rows| ensures rows[i].tenantId in db.tenants {
      assert rows[i] in rows;
    }
    assert Memberships(db, rows, FindByUser(db, user, tenant, crossTenant, includeGlobal));
  }

  /** Each membership with the tenant, role and status of its row, and their names as far as they exist. */
  ghost predicate Memberships(db: Db, rows: seq<Row>, list: seq<Membership>) {
    && |list| == |rows|
    && forall i :: 0 <= i < |rows| ==>
         && list[i].tenantId == rows[i].tenantId && list[i].roleId == rows[i].roleId && list[i].status == rows[i].status
         && rows[i].tenantId in db.tenants && list[i].tenantName == db.tenants[rows[i].tenantId].name
         && (match rows[i].roleId
             case None => list[i].roleName == None
             case Some(role) => list[i].roleName == if role in db.roles then Some(db.roles[role].name) else None)
  }

  /** A look-up by id finds the one row with that id, if the caller may see it. */
  lemma IdFindsTheRow(db: Db, k: nat, includeGlobal: bool)
    requires UniqueIds(db.rows) && k < |db.rows|
    ensures FindByID(db, db.rows[k].id, includeGlobal)
         == if includeGlobal || !IsGlobal(db.roles, db.rows[k].roleId) then Some(db.rows[k]) else None
  {
    var where := (r: Row) => r.id == db.rows[k].id && Visible(db, r, includeGlobal);
    if where(db.rows[k]) {
      OnlyOne(db.rows, where, k);
    } else {
      FilterNone(db.rows, where);
    }
  }

  lemma NewestFirstSorts(rows: seq<Row>)
    ensures NewestComeFirst(Sort(rows, NewestFirst()))
  {
    var s := Sort(rows, NewestFirst());
    SortSorts(rows, NewestFirst());
    forall i, j | 0 <= i < j < |s| ensures s[i].createdAt >= s[j].createdAt {
      assert NewestFirst()(s[i], s[j]);
    }
  }
}
