/** The user-role repository: the statements with their checks and error mapping, over one table. */
module UserRoleRepository {
  import opened Collections
  import opened UserRoleTable

  datatype Error =
    | InvalidRoleId | RoleNotAllowedForTenant | InvalidUserId | UserAlreadyHasActiveRole | NoActiveAssignment
    | RawForeignKey | RawUnique
    | ForUser(error: Error, user: UserId)

  // ------------------------------------------------------------- specification: one call on one database

  function CheckRole(db: Db, role: RoleId, tenant: TenantId, includeGlobal: bool): Option<Error> {
    if role !in db.roles || db.roles[role].deleted
       || !(db.roles[role].tenantId == Some(tenant) || db.roles[role].tenantId.None?)
       || (db.roles[role].isGlobal && !includeGlobal)
    then Some(InvalidRoleId)
    else if !TenantCanUseRole(db, tenant, role) then Some(RoleNotAllowedForTenant)
    else None
  }

  function CheckRoleIfAny(db: Db, role: Option<RoleId>, tenant: TenantId, includeGlobal: bool): Option<Error> {
    if role.None? then None else CheckRole(db, role.value, tenant, includeGlobal)
  }

  /** The error of an INSERT that returned no row; `committed` is what a reader outside the transaction sees. */
  function InsertError(committed: Db, result: SqlResult, r: Row, includeGlobal: bool): Error
    requires !result.Returned?
  {
    match result
    case NoRows => InvalidUserId
    case UniqueViolation =>
      if HasVisibleActive(committed, r.userId, r.tenantId, includeGlobal) then UserAlreadyHasActiveRole
      else InvalidUserId
    case ForeignKeyViolation(key) =>
      (match key case RoleFk => InvalidRoleId case UserFk => InvalidUserId case TenantFk => RawForeignKey)
    case CheckViolation => RoleNotAllowedForTenant
  }

  function Create(db: Db, r: Row, includeGlobal: bool): (Db, Result<Row, Error>) {
    var refused := CheckRoleIfAny(db, r.roleId, r.tenantId, includeGlobal);
    if refused.Some? then (db, Err(refused.value)) else
      var result := InsertRow(db, r, includeGlobal);
      if result.Returned? then (db.(rows := db.rows + [r]), Ok(r))
      else (db, Err(InsertError(db, result, r, includeGlobal)))
  }

  /** Rows inserted one after another, or the first error. */
  function InsertAll(committed: Db, tx: Db, rs: seq<Row>, includeGlobal: bool): (Db, Option<Error>)
    decreases rs
  {
    if rs == [] then (tx, None) else
      var result := InsertRow(tx, rs[0], includeGlobal);
      if result.Returned? then InsertAll(committed, tx.(rows := tx.rows + [rs[0]]), rs[1..], includeGlobal)
      else
        var e := InsertError(committed, result, rs[0], includeGlobal);
        (tx, Some(if e == RawForeignKey then e else ForUser(e, rs[0].userId)))
  }

  function BulkCreate(db: Db, rs: seq<Row>, includeGlobal: bool): (Db, Result<seq<Row>, Error>) {
    var refused := if rs == [] then None else CheckRoleIfAny(db, rs[0].roleId, rs[0].tenantId, includeGlobal);
    if refused.Some? then (db, Err(refused.value)) else
      var (tx, e) := InsertAll(db, db, rs, includeGlobal);
      if e.Some? then (db, Err(e.value)) else (tx, Ok(rs))
  }

  function SetRole(role: Option<RoleId>, now: int): Row -> Row {
    (r: Row) => r.(roleId := role, updatedAt := now)
  }

  function SetStatus(status: Status, now: int): Row -> Row {
    (r: Row) => r.(status := status, updatedAt := now)
  }

  /** `tenant` is the caller's, checked against the role; the trigger checks the row's own tenant. */
  function Update(db: Db, id: nat, tenant: TenantId, role: Option<RoleId>, now: int, includeGlobal: bool)
    : (Db, Result<Option<Row>, Error>)
  {
    var refused := CheckRoleIfAny(db, role, tenant, includeGlobal);
    if refused.Some? then (db, Err(refused.value)) else
      var targets := Filter(db.rows, r => Updatable(db, r, id, includeGlobal));
      if role.Some? && exists r :: r in targets && !TenantCanUseRole(db, r.tenantId, role.value) then
        (db, Err(RoleNotAllowedForTenant))
      else
        (db.(rows := UpdateWhere(db.rows, r => Updatable(db, r, id, includeGlobal), SetRole(role, now))),
         Ok(First(Map(targets, SetRole(role, now)))))
  }

  function Revoke(db: Db, id: nat, tenant: TenantId, now: int, includeGlobal: bool): (Db, Option<Row>) {
    var where := (r: Row) => Revocable(db, r, id, tenant, includeGlobal);
    (db.(rows := UpdateWhere(db.rows, where, SetStatus(Revoked, now))),
     First(Map(Filter(db.rows, where), SetStatus(Revoked, now))))
  }

  /** Touches every row of the pair that is not pending, or fails whole. */
  function UpdateStatus(db: Db, user: UserId, tenant: TenantId, status: Status, now: int, includeGlobal: bool)
    : (Db, Result<Row, Error>)
  {
    var where := (r: Row) => Switchable(db, r, user, tenant, includeGlobal);
    var rows := UpdateWhere(db.rows, where, SetStatus(status, now));
    var touched := First(Map(Filter(db.rows, where), SetStatus(status, now)));
    if ActiveConflict(rows) then (db, Err(RawUnique))
    else if touched.None? then (db, Err(NoActiveAssignment))
    else (db.(rows := rows), Ok(touched.value))
  }

  /** An update one row further. */
  lemma NextRow(rows: seq<Row>, where: Row -> bool, change: Row -> Row, i: nat)
    requires i < |rows|
    ensures UpdateWhere(rows[..i + 1], where, change)
         == UpdateWhere(rows[..i], where, change) + [if where(rows[i]) then change(rows[i]) else rows[i]]
    ensures Filter(rows[..i + 1], where) == Filter(rows[..i], where) + if where(rows[i]) then [rows[i]] else []
    ensures Map(Filter(rows[..i + 1], where), change)
         == Map(Filter(rows[..i], where), change) + if where(rows[i]) then [change(rows[i])] else []
  {
    assert rows[..i + 1] == rows[..i] + [rows[i]];
    FilterConcat(rows[..i], [rows[i]], where);
    assert Filter([rows[i]], where) == if where(rows[i]) then [rows[i]] else [];
  }

  // ------------------------------------------------------------- the repository

  class Repository {
    var rows: seq<Row>
    const roles: map<RoleId, Role>
    const users: map<UserId, Profile>
    const tenants: map<TenantId, Tenant>

    constructor (db: Db)
      ensures Snapshot() == db
    {
      rows, roles, users, tenants := db.rows, db.roles, db.users, db.tenants;
    }

    function Snapshot(): Db
      reads this
    {
      Db(rows, roles, users, tenants)
    }

    method CreateRow(r: Row, includeGlobal: bool) returns (reply: Result<Row, Error>)
      modifies this
      ensures (Snapshot(), reply) == Create(old(Snapshot()), r, includeGlobal)
    {
      if r.roleId.Some? {
        var refused := CheckRole(Snapshot(), r.roleId.value, r.tenantId, includeGlobal);
        if refused.Some? {
          return Err(refused.value);
        }
      }
      var result := InsertRow(Snapshot(), r, includeGlobal);
      match result
      case Returned(created) =>
        rows := rows + [created];
        reply := Ok(created);
      case NoRows => reply := Err(InvalidUserId);
      case UniqueViolation => reply := Err(ResolveActiveUniqueViolation(r.userId, r.tenantId, includeGlobal));
      case ForeignKeyViolation(RoleFk) => reply := Err(InvalidRoleId);
      case ForeignKeyViolation(UserFk) => reply := Err(InvalidUserId);
      case ForeignKeyViolation(TenantFk) => reply := Err(RawForeignKey);
      case CheckViolation => reply := Err(RoleNotAllowedForTenant);
    }

    function ResolveActiveUniqueViolation(user: UserId, tenant: TenantId, includeGlobal: bool): Error
      reads this
    {
      if HasVisibleActive(Snapshot(), user, tenant, includeGlobal) then UserAlreadyHasActiveRole else InvalidUserId
    }

    /** All or nothing: the rows are inserted in a transaction of their own. */
    method BulkCreateRows(rs: seq<Row>, includeGlobal: bool) returns (reply: Result<seq<Row>, Error>)
      modifies this
      ensures (Snapshot(), reply) == BulkCreate(old(Snapshot()), rs, includeGlobal)
    {
      if |rs| > 0 && rs[0].roleId.Some? {
        var refused := CheckRole(Snapshot(), rs[0].roleId.value, rs[0].tenantId, includeGlobal);
        if refused.Some? {
          return Err(refused.value);
        }
      }
      var committed, tx, results := Snapshot(), rows, [];
      for i := 0 to |rs|
        invariant rows == old(rows) && results == rs[..i]
        invariant InsertAll(committed, committed, rs, includeGlobal)
               == InsertAll(committed, committed.(rows := tx), rs[i..], includeGlobal)
      {
        var result := InsertRow(committed.(rows := tx), rs[i], includeGlobal);
        if !result.Returned? {
          var e := InsertError(committed, result, rs[i], includeGlobal);
          return Err(if e == RawForeignKey then e else ForUser(e, rs[i].userId));
        }
        assert rs[i..][1..] == rs[i + 1..];
        tx, results := tx + [result.row], results + [result.row];
      }
      rows := tx;
      assert results == rs;
      reply := Ok(results);
    }

    method UpdateRole(id: nat, tenant: TenantId, role: Option<RoleId>, now: int, includeGlobal: bool)
      returns (reply: Result<Option<Row>, Error>)
      modifies this
      ensures (Snapshot(), reply) == Update(old(Snapshot()), id, tenant, role, now, includeGlobal)
    {
      var db := Snapshot();
      if role.Some? {
        var refused := CheckRole(db, role.value, tenant, includeGlobal);
        if refused.Some? {
          return Err(refused.value);
        }
      }
      var ok, updated, touched := UpdateRows(
        (r: Row) => Updatable(db, r, id, includeGlobal), SetRole(role, now),
        (r: Row) => role.None? || TenantCanUseRole(db, r.tenantId, role.value));
      if !ok {
        return Err(RoleNotAllowedForTenant);
      }
      rows := updated;
      reply := Ok(First(touched));
    }

    /** UPDATE ... RETURNING, row by row; a row that the trigger does not admit stops the whole statement. */
    method UpdateRows(where: Row -> bool, change: Row -> Row, admits: Row -> bool)
      returns (ok: bool, updated: seq<Row>, touched: seq<Row>)
      ensures ok <==> forall r :: r in Filter(rows, where) ==> admits(r)
      ensures ok ==> updated == UpdateWhere(rows, where, change) && touched == Map(Filter(rows, where), change)
    {
      ok, updated, touched := true, [], [];
      for i := 0 to |rows|
        invariant ok && forall r :: r in Filter(rows[..i], where) ==> admits(r)
        invariant updated == UpdateWhere(rows[..i], where, change)
        invariant touched == Map(Filter(rows[..i], where), change)
      {
        var r := rows[i];
        NextRow(rows, where, change, i);
        if where(r) {
          if !admits(r) {
            assert r in Filter(rows, where);
            ok := false;
            return;
          }
          updated, touched := updated + [change(r)], touched + [change(r)];
        } else {
          updated := updated + [r];
        }
      }
      assert rows[..|rows|] == rows;
    }

    method RevokeRow(id: nat, tenant: TenantId, now: int, includeGlobal: bool) returns (reply: Option<Row>)
      modifies this
      ensures (Snapshot(), reply) == Revoke(old(Snapshot()), id, tenant, now, includeGlobal)
    {
      var db := Snapshot();
      var _, updated, touched := UpdateRows(
        (r: Row) => Revocable(db, r, id, tenant, includeGlobal), SetStatus(Revoked, now), (r: Row) => true);
      rows := updated;
      reply := First(touched);
    }

    method SwitchStatus(user: UserId, tenant: TenantId, status: Status, now: int, includeGlobal: bool)
      returns (reply: Result<Row, Error>)
      modifies this
      ensures (Snapshot(), reply) == UpdateStatus(old(Snapshot()), user, tenant, status, now, includeGlobal)
    {
      var db := Snapshot();
      var _, updated, touched := UpdateRows(
        (r: Row) => Switchable(db, r, user, tenant, includeGlobal), SetStatus(status, now), (r: Row) => true);
      if ActiveConflict(updated) {
        return Err(RawUnique);
      }
      if touched == [] {
        return Err(NoActiveAssignment);
      }
      rows := updated;
      reply := Ok(touched[0]);
    }
  }
}
