/** The user-role assignment table and its SQL statements, with the predicates that decide what a caller sees. */
module UserRoleTable {
  import opened Collections

  type UserId = nat
  type TenantId = nat

  /** `admin` and `operario` are reserved to the platform tenant by id. */
  datatype RoleId = Admin | Operario | Custom(name: string)

  datatype Role = Role(name: string, isGlobal: bool, tenantId: Option<TenantId>, deleted: bool)
  datatype Profile = Profile(email: string)
  datatype Tenant = Tenant(name: string, isPlatform: bool)
  datatype Status = Active | Pending | Revoked | Suspended

  datatype Row = Row(id: nat, userId: UserId, tenantId: TenantId, roleId: Option<RoleId>, status: Status,
                     assignedBy: Option<UserId>, assignedAt: Option<int>, createdAt: int, updatedAt: int)

  datatype Db = Db(rows: seq<Row>, roles: map<RoleId, Role>, users: map<UserId, Profile>,
                   tenants: map<TenantId, Tenant>)

  // ------------------------------------------------------------- row visibility and the identity guard

  /** COALESCE(is_global, FALSE) of a LEFT JOIN on roles. */
  predicate IsGlobal(roles: map<RoleId, Role>, roleId: Option<RoleId>) {
    roleId.Some? && roleId.value in roles && roles[roleId.value].isGlobal
  }

  predicate Visible(db: Db, r: Row, includeGlobal: bool) {
    !IsGlobal(db.roles, r.roleId) || includeGlobal
  }

  /** The user has a membership, not revoked, to a global role in some tenant. */
  predicate PlatformIdentity(db: Db, user: UserId) {
    exists r :: r in db.rows && r.userId == user && r.status != Revoked && IsGlobal(db.roles, r.roleId)
  }

  predicate TenantCanUseRole(db: Db, tenant: TenantId, role: RoleId) {
    || (!IsGlobal(db.roles, Some(role)) && role != Admin && role != Operario)
    || (tenant in db.tenants && db.tenants[tenant].isPlatform)
  }

  /** Two active rows of one user in one tenant: what idx_utr_active_unique forbids. */
  predicate Clash(r: Row, s: Row) {
    r.status == Active && s.status == Active && r.userId == s.userId && r.tenantId == s.tenantId
  }

  predicate ActiveConflict(rows: seq<Row>) {
    exists r, s :: r in rows && s in rows && r.id != s.id && Clash(r, s)
  }

  // ------------------------------------------------------------- queries

  function NewestFirst(): (Row, Row) -> bool {
    (a: Row, b: Row) => a.createdAt >= b.createdAt
  }

  function RoleName(db: Db, roleId: Option<RoleId>): string {
    if roleId.Some? && roleId.value in db.roles then db.roles[roleId.value].name else ""
  }

  datatype Detail = Detail(row: Row, roleName: string, user: Profile)

  function DetailOf(db: Db, r: Row): Detail {
    Detail(r, RoleName(db, r.roleId), if r.userId in db.users then db.users[r.userId] else Profile(""))
  }

  predicate ListedInTenant(db: Db, r: Row, tenant: TenantId, status: Option<Status>, includeGlobal: bool) {
    && r.tenantId == tenant && Visible(db, r, includeGlobal)
    && (status.Some? ==> r.status == status.value)
    && r.userId in db.users
  }

  /** FindByTenantQuery and FindByTenantWithStatusQuery: an inner join on users. */
  function FindByTenant(db: Db, tenant: TenantId, status: Option<Status>, includeGlobal: bool): seq<Detail> {
    Map(Sort(Filter(db.rows, r => ListedInTenant(db, r, tenant, status, includeGlobal)), NewestFirst()),
        r => DetailOf(db, r))
  }

  function First<T>(s: seq<T>): Option<T> {
    if s == [] then None else Some(s[0])
  }

  function FindByID(db: Db, id: nat, includeGlobal: bool): Option<Row> {
    First(Filter(db.rows, (r: Row) => r.id == id && Visible(db, r, includeGlobal)))
  }

  datatype Membership = Membership(tenantId: TenantId, tenantName: string, roleId: Option<RoleId>,
                                   roleName: Option<string>, status: Status)

  /** The role name falls back to the role id, kept here as None. */
  function MembershipOf(db: Db, r: Row): Membership {
    Membership(r.tenantId, if r.tenantId in db.tenants then db.tenants[r.tenantId].name else "", r.roleId,
               if r.roleId.Some? && r.roleId.value in db.roles then Some(db.roles[r.roleId.value].name) else None,
               r.status)
  }

  predicate ListedForUser(db: Db, r: Row, user: UserId, tenant: TenantId, crossTenant: bool, includeGlobal: bool) {
    && r.userId == user && (crossTenant || r.tenantId == tenant) && Visible(db, r, includeGlobal)
    && r.tenantId in db.tenants
  }

  function FindByUser(db: Db, user: UserId, tenant: TenantId, crossTenant: bool, includeGlobal: bool): seq<Membership> {
    Map(Sort(Filter(db.rows, r => ListedForUser(db, r, user, tenant, crossTenant, includeGlobal)), NewestFirst()),
        r => MembershipOf(db, r))
  }

  predicate HasVisibleActive(db: Db, user: UserId, tenant: TenantId, includeGlobal: bool) {
    exists r :: r in db.rows && r.userId == user && r.tenantId == tenant && r.status == Active
             && Visible(db, r, includeGlobal)
  }

  // ------------------------------------------------------------- statements

  datatype ForeignKey = RoleFk | UserFk | TenantFk

  datatype SqlResult =
    | NoRows
    | Returned(row: Row)
    | UniqueViolation
    | ForeignKeyViolation(key: ForeignKey)
    | CheckViolation

  /** CreateQuery: the guard, then the trigger, then the index, then the foreign keys. */
  function InsertRow(db: Db, r: Row, includeGlobal: bool): SqlResult {
    if !includeGlobal && PlatformIdentity(db, r.userId) then NoRows
    else if r.roleId.Some? && !TenantCanUseRole(db, r.tenantId, r.roleId.value) then CheckViolation
    else if exists s :: s in db.rows && Clash(r, s) then UniqueViolation
    else if r.roleId.Some? && r.roleId.value !in db.roles then ForeignKeyViolation(RoleFk)
    else if r.userId !in db.users then ForeignKeyViolation(UserFk)
    else if r.tenantId !in db.tenants then ForeignKeyViolation(TenantFk)
    else Returned(r)
  }

  /** An UPDATE: `change` applied to the rows that `where` selects, in place. */
  function UpdateWhere(rows: seq<Row>, where: Row -> bool, change: Row -> Row): seq<Row> {
    Map(rows, r => if where(r) then change(r) else r)
  }

  predicate Updatable(db: Db, r: Row, id: nat, includeGlobal: bool) {
    r.id == id && Visible(db, r, includeGlobal) && (includeGlobal || !PlatformIdentity(db, r.userId))
  }

  predicate Revocable(db: Db, r: Row, id: nat, tenant: TenantId, includeGlobal: bool) {
    r.id == id && r.tenantId == tenant && Visible(db, r, includeGlobal)
  }

  predicate Switchable(db: Db, r: Row, user: UserId, tenant: TenantId, includeGlobal: bool) {
    r.userId == user && r.tenantId == tenant && r.status != Pending && Visible(db, r, includeGlobal)
  }
}
