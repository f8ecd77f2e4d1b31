/** What an assignment answers: every error by its cause, on the fields of the table. */
module UserRoleAnswers {
  import opened Collections
  import opened UserRoleTable
  import opened UserRoleRepository
  import C = UserRoleCloaking
  import E = UserRoleEffects

  // ------------------------------------------------------------- causes

  /** To this caller and in this tenant there is no such role: absent, deleted, of another tenant, or hidden. */
  predicate RoleUnknown(db: Db, role: RoleId, tenant: TenantId, includeGlobal: bool) {
    || role !in db.roles
    || db.roles[role].deleted
    || (db.roles[role].tenantId.Some? && db.roles[role].tenantId.value != tenant)
    || (db.roles[role].isGlobal && !includeGlobal)
  }

  /** The role is for the platform tenant only, and this is another tenant. */
  predicate RoleReserved(db: Db, role: RoleId, tenant: TenantId) {
    && (role == Admin || role == Operario || (role in db.roles && db.roles[role].isGlobal))
    && (tenant !in db.tenants || !db.tenants[tenant].isPlatform)
  }

  predicate RoleFits(db: Db, role: Option<RoleId>, tenant: TenantId, includeGlobal: bool) {
    role.Some? ==> !RoleUnknown(db, role.value, tenant, includeGlobal) && !RoleReserved(db, role.value, tenant)
  }

  predicate OfGlobalRole(db: Db, r: Row) {
    r.roleId.Some? && r.roleId.value in db.roles && db.roles[r.roleId.value].isGlobal
  }

  /** The caller may not know of the user, who holds, or is about to hold, or held until suspended, a global role. */
  predicate UserHidden(db: Db, user: UserId, includeGlobal: bool) {
    && !includeGlobal
    && exists i :: 0 <= i < |db.rows| && db.rows[i].userId == user && OfGlobalRole(db, db.rows[i])
                   && (db.rows[i].status == Active || db.rows[i].status == Pending || db.rows[i].status == Suspended)
  }

  /** Row s keeps the active row r out. */
  predicate Occupies(s: Row, r: Row) {
    r.status == Active && s.status == Active && s.userId == r.userId && s.tenantId == r.tenantId
  }

  predicate Conflict(db: Db, r: Row) {
    exists i :: 0 <= i < |db.rows| && Occupies(db.rows[i], r)
  }

  /** The user is active in the tenant already, in a row that the caller may see. */
  predicate VisibleConflict(db: Db, r: Row, includeGlobal: bool) {
    exists i :: 0 <= i < |db.rows| && Occupies(db.rows[i], r) && (includeGlobal || !OfGlobalRole(db, db.rows[i]))
  }

  lemma CausesMean(db: Db, r: Row, includeGlobal: bool)
    ensures UserHidden(db, r.userId, includeGlobal) == (!includeGlobal && PlatformIdentity(db, r.userId))
    ensures VisibleConflict(db, r, includeGlobal)
         == (r.status == Active && HasVisibleActive(db, r.userId, r.tenantId, includeGlobal))
    ensures Conflict(db, r) == exists s :: s in db.rows && Clash(r, s)
  {
  }

  /** A user with a hidden conflict is hidden: the global role that hides the row hides its owner. */
  lemma HiddenConflictHidesUser(db: Db, r: Row, includeGlobal: bool)
    requires Conflict(db, r) && !VisibleConflict(db, r, includeGlobal)
    ensures UserHidden(db, r.userId, includeGlobal)
  {
    var i :| 0 <= i < |db.rows| && Occupies(db.rows[i], r);
    assert OfGlobalRole(db, db.rows[i]);
  }

  // ------------------------------------------------------------- one assignment

  /** The role is answered for first, then the user, then the place, then the tenant. A hidden user and a hidden
      conflict are answered as an unknown user is. */
  lemma CreateAnswers(db: Db, r: Row, includeGlobal: bool)
    ensures var (next, reply) := Create(db, r, includeGlobal);
            var fits := RoleFits(db, r.roleId, r.tenantId, includeGlobal);
            var hidden, taken := UserHidden(db, r.userId, includeGlobal), Conflict(db, r);
            var seen := VisibleConflict(db, r, includeGlobal);
      && (reply == Err(InvalidRoleId)
          <==> r.roleId.Some? && RoleUnknown(db, r.roleId.value, r.tenantId, includeGlobal))
      && (reply == Err(RoleNotAllowedForTenant)
          <==> && r.roleId.Some? && !RoleUnknown(db, r.roleId.value, r.tenantId, includeGlobal)
               && RoleReserved(db, r.roleId.value, r.tenantId))
      && (reply == Err(InvalidUserId)
          <==> fits && (hidden || (taken && !seen) || (!taken && r.userId !in db.users)))
      && (reply == Err(UserAlreadyHasActiveRole) <==> fits && !hidden && seen)
      && (reply == Err(RawForeignKey)
          <==> fits && !hidden && !taken && r.userId in db.users && r.tenantId !in db.tenants)
      && (reply == Ok(r)
          <==> fits && !hidden && !taken && r.userId in db.users && r.tenantId in db.tenants)
      && next == if reply.Ok? then db.(rows := db.rows + [r]) else db
  {
    CausesMean(db, r, includeGlobal);
    RoleAnswers(db, r.roleId, r.tenantId, includeGlobal);
    if Conflict(db, r) && !VisibleConflict(db, r, includeGlobal) {
      HiddenConflictHidesUser(db, r, includeGlobal);
    }
  }

  lemma RoleAnswers(db: Db, role: Option<RoleId>, tenant: TenantId, includeGlobal: bool)
    ensures var refused := CheckRoleIfAny(db, role, tenant, includeGlobal);
      && (refused == Some(InvalidRoleId) <==> role.Some? && RoleUnknown(db, role.value, tenant, includeGlobal))
      && (refused == Some(RoleNotAllowedForTenant)
          <==> && role.Some? && !RoleUnknown(db, role.value, tenant, includeGlobal)
               && RoleReserved(db, role.value, tenant))
      && (refused.None? <==> RoleFits(db, role, tenant, includeGlobal))
    ensures RoleFits(db, role, tenant, includeGlobal) == E.MayAssign(db, role, tenant, includeGlobal)
  {
  }

  // ------------------------------------------------------------- a batch

  /** An earlier row of the batch keeps row k out. */
  predicate ConflictInBatch(rs: seq<Row>, k: nat)
    requires k < |rs|
  {
    exists j :: 0 <= j < k && Occupies(rs[j], rs[k])
  }

  predicate RowFits(db: Db, rs: seq<Row>, k: nat, includeGlobal: bool)
    requires k < |rs|
  {
    && !UserHidden(db, rs[k].userId, includeGlobal)
    && !Conflict(db, rs[k]) && !ConflictInBatch(rs, k)
    && rs[k].userId in db.users && rs[k].tenantId in db.tenants
  }

  predicate StopsAt(db: Db, rs: seq<Row>, m: nat, includeGlobal: bool) {
    && m < |rs| && !RowFits(db, rs, m, includeGlobal)
    && forall j :: 0 <= j < m ==> RowFits(db, rs, j, includeGlobal)
  }

  /** The batch stops at row m, whose user is active in the tenant already for all to see. */
  predicate StopsTaken(db: Db, rs: seq<Row>, m: nat, includeGlobal: bool) {
    && StopsAt(db, rs, m, includeGlobal)
    && !UserHidden(db, rs[m].userId, includeGlobal) && VisibleConflict(db, rs[m], includeGlobal)
  }

  /** The batch stops at row m, whose user is hidden, or repeated in the batch, or absent. */
  predicate StopsUnknown(db: Db, rs: seq<Row>, m: nat, includeGlobal: bool) {
    && StopsAt(db, rs, m, includeGlobal)
    && (|| UserHidden(db, rs[m].userId, includeGlobal)
        || (!Conflict(db, rs[m]) && (ConflictInBatch(rs, m) || rs[m].userId !in db.users)))
  }

  /** The batch stops at row m, that lacks nothing but its tenant. */
  predicate StopsHomeless(db: Db, rs: seq<Row>, m: nat, includeGlobal: bool) {
    && StopsAt(db, rs, m, includeGlobal)
    && !UserHidden(db, rs[m].userId, includeGlobal) && !Conflict(db, rs[m]) && !ConflictInBatch(rs, m)
    && rs[m].userId in db.users
  }

  /** A batch answers for its role, or for the row it stops at, naming the user; a conflict within the batch is
      answered as an unknown user is. */
  lemma BulkAnswers(db: Db, rs: seq<Row>, u: UserId, includeGlobal: bool)
    requires C.Uniform(rs)
    ensures var (next, reply) := BulkCreate(db, rs, includeGlobal);
            var fits := rs == [] || RoleFits(db, rs[0].roleId, rs[0].tenantId, includeGlobal);
      && (reply == Err(InvalidRoleId)
          <==> rs != [] && rs[0].roleId.Some? && RoleUnknown(db, rs[0].roleId.value, rs[0].tenantId, includeGlobal))
      && (reply == Err(RoleNotAllowedForTenant)
          <==> && rs != [] && rs[0].roleId.Some?
               && !RoleUnknown(db, rs[0].roleId.value, rs[0].tenantId, includeGlobal)
               && RoleReserved(db, rs[0].roleId.value, rs[0].tenantId))
      && (reply == Err(ForUser(UserAlreadyHasActiveRole, u))
          <==> fits && exists m: nat :: StopsTaken(db, rs, m, includeGlobal) && rs[m].userId == u)
      && (reply == Err(ForUser(InvalidUserId, u))
          <==> fits && exists m: nat :: StopsUnknown(db, rs, m, includeGlobal) && rs[m].userId == u)
      && (reply == Err(RawForeignKey) <==> fits && exists m: nat :: StopsHomeless(db, rs, m, includeGlobal))
      && (reply == Ok(rs) <==> fits && forall k :: 0 <= k < |rs| ==> RowFits(db, rs, k, includeGlobal))
      && next == if reply.Ok? then db.(rows := db.rows + rs) else db
  {
    E.BulkIsAllOrNothing(db, rs, includeGlobal);
    if rs != [] {
      RoleAnswers(db, rs[0].roleId, rs[0].tenantId, includeGlobal);
      if RoleFits(db, rs[0].roleId, rs[0].tenantId, includeGlobal) {
        var m := FindStop(db, rs, 0, includeGlobal);
        StopAnswers(db, rs, m, includeGlobal);
        assert forall n: nat :: StopsAt(db, rs, n, includeGlobal) ==> n == m;
      }
    }
  }

  /** The row the batch stops at, or the end. */
  lemma {:induction false} FindStop(db: Db, rs: seq<Row>, k: nat, includeGlobal: bool) returns (m: nat)
    requires k <= |rs| && forall j :: 0 <= j < k ==> RowFits(db, rs, j, includeGlobal)
    ensures m <= |rs| && forall j :: 0 <= j < m ==> RowFits(db, rs, j, includeGlobal)
    ensures m < |rs| ==> StopsAt(db, rs, m, includeGlobal)
    decreases |rs| - k
  {
    m := k;
    if k < |rs| && RowFits(db, rs, k, includeGlobal) {
      m := FindStop(db, rs, k + 1, includeGlobal);
    }
  }

  lemma StopAnswers(db: Db, rs: seq<Row>, m: nat, includeGlobal: bool)
    requires C.Uniform(rs) && rs != [] && RoleFits(db, rs[0].roleId, rs[0].tenantId, includeGlobal)
    requires m <= |rs| && forall j :: 0 <= j < m ==> RowFits(db, rs, j, includeGlobal)
    requires m < |rs| ==> StopsAt(db, rs, m, includeGlobal)
    ensures BulkCreate(db, rs, includeGlobal).1
         == if m == |rs| then Ok(rs)
            else if StopsTaken(db, rs, m, includeGlobal) then Err(ForUser(UserAlreadyHasActiveRole, rs[m].userId))
            else if StopsUnknown(db, rs, m, includeGlobal) then Err(ForUser(InvalidUserId, rs[m].userId))
            else Err(RawForeignKey)
    ensures m < |rs| ==> (StopsHomeless(db, rs, m, includeGlobal)
                          <==> !StopsTaken(db, rs, m, includeGlobal) && !StopsUnknown(db, rs, m, includeGlobal))
    ensures !(StopsTaken(db, rs, m, includeGlobal) && StopsUnknown(db, rs, m, includeGlobal))
  {
    RoleAnswers(db, rs[0].roleId, rs[0].tenantId, includeGlobal);
    forall j | 0 <= j < |rs|
      ensures RowFits(db, rs, j, includeGlobal) == E.RowResult(db, rs, j, includeGlobal).Returned?
    {
      RowMeans(db, rs, j, includeGlobal);
    }
    E.BatchAnswers(db, rs, m, includeGlobal);
    if m < |rs| {
      RowMeans(db, rs, m, includeGlobal);
    }
  }

  lemma RowMeans(db: Db, rs: seq<Row>, k: nat, includeGlobal: bool)
    requires k < |rs|
    ensures RowFits(db, rs, k, includeGlobal) == E.RowResult(db, rs, k, includeGlobal).Returned?
    ensures UserHidden(db, rs[k].userId, includeGlobal) == (!includeGlobal && PlatformIdentity(db, rs[k].userId))
    ensures Conflict(db, rs[k]) == E.TakenInTable(db, rs[k])
    ensures ConflictInBatch(rs, k) == E.TakenInBatch(rs, k)
    ensures VisibleConflict(db, rs[k], includeGlobal)
         == (rs[k].status == Active && HasVisibleActive(db, rs[k].userId, rs[k].tenantId, includeGlobal))
    ensures Conflict(db, rs[k]) && !VisibleConflict(db, rs[k], includeGlobal) ==>
              UserHidden(db, rs[k].userId, includeGlobal)
    ensures VisibleConflict(db, rs[k], includeGlobal) ==> Conflict(db, rs[k])
  {
    CausesMean(db, rs[k], includeGlobal);
    CausesMean(db, rs[k], true);
    if Conflict(db, rs[k]) && !VisibleConflict(db, rs[k], includeGlobal) {
      HiddenConflictHidesUser(db, rs[k], includeGlobal);
    }
    assert ConflictInBatch(rs, k) == exists j :: 0 <= j < k && Clash(rs[k], rs[j]);
  }

  // ------------------------------------------------------------- a change of role

  /** Row i is the one meant, and neither it nor its owner is hidden from the caller. */
  predicate Reaches(db: Db, i: nat, id: nat, includeGlobal: bool)
    requires i < |db.rows|
  {
    && db.rows[i].id == id && (includeGlobal || !OfGlobalRole(db, db.rows[i]))
    && !UserHidden(db, db.rows[i].userId, includeGlobal)
  }

  /** A change of role answers for the role in the caller's tenant, then for the role in the tenant of a row it reaches;
      a row that is hidden, or whose owner is, is answered as a missing one is. */
  lemma UpdateAnswers(db: Db, id: nat, tenant: TenantId, role: Option<RoleId>, now: int, includeGlobal: bool)
    ensures var (next, reply) := Update(db, id, tenant, role, now, includeGlobal);
            var reached := exists i :: 0 <= i < |db.rows| && Reaches(db, i, id, includeGlobal);
            var barred := role.Some? && exists i :: 0 <= i < |db.rows| && Reaches(db, i, id, includeGlobal)
                                                    && RoleReserved(db, role.value, db.rows[i].tenantId);
      && (reply == Err(InvalidRoleId) <==> role.Some? && RoleUnknown(db, role.value, tenant, includeGlobal))
      && (reply == Err(RoleNotAllowedForTenant)
          <==> && role.Some? && !RoleUnknown(db, role.value, tenant, includeGlobal)
               && (RoleReserved(db, role.value, tenant) || barred))
      && (reply == Ok(None) <==> RoleFits(db, role, tenant, includeGlobal) && !reached)
      && (reply.Ok? && reply.value.Some? <==> RoleFits(db, role, tenant, includeGlobal) && reached && !barred)
      && (!(reply.Ok? && reply.value.Some?) ==> next == db)
  {
    RoleAnswers(db, role, tenant, includeGlobal);
    var where := (r: Row) => Updatable(db, r, id, includeGlobal);
    var targets := Filter(db.rows, where);
    forall i | 0 <= i < |db.rows| ensures Reaches(db, i, id, includeGlobal) == (db.rows[i] in targets) {
      CausesMean(db, db.rows[i], includeGlobal);
      assert db.rows[i] in db.rows;
    }
    if targets == [] {
      E.NoRowChanges(db.rows, where, SetRole(role, now));
    } else {
      assert targets[0] in targets;
    }
  }
}
