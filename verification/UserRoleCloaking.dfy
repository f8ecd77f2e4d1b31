/** Hidden rows cannot be told from absent ones: a simulation between a database and the same database with
    everything hidden from ordinary callers erased. */
module UserRoleCloaking {
  import opened Collections
  import opened UserRoleTable
  import opened UserRoleRepository

  predicate Shown(db: Db, r: Row) { !IsGlobal(db.roles, r.roleId) }

  /** No rows of global roles, no global roles, no platform identities. */
  function Erase(db: Db): Db {
    Db(Filter(db.rows, r => Shown(db, r)),
       map role | role in db.roles && !db.roles[role].isGlobal :: db.roles[role],
       map user | user in db.users && !PlatformIdentity(db, user) :: db.users[user],
       db.tenants)
  }

  /** No platform identity owns a row that is shown. */
  ghost predicate OwnsNothingShown(db: Db) {
    forall r :: r in db.rows && Shown(db, r) ==> !PlatformIdentity(db, r.userId)
  }

  ghost predicate Inv(db: Db) { OwnsNothingShown(db) && !ActiveConflict(db.rows) }

  // ------------------------------------------------------------- calls of ordinary callers

  /** Every call is made with includeGlobal = false. */
  datatype Call =
    | AskTenant(tenant: TenantId, status: Option<Status>)
    | AskId(id: nat)
    | AskUser(user: UserId, tenant: TenantId, crossTenant: bool)
    | DoCreate(row: Row)
    | DoBulkCreate(rows: seq<Row>)
    | DoUpdate(id: nat, tenant: TenantId, role: Option<RoleId>, now: int)
    | DoRevoke(id: nat, tenant: TenantId, now: int)
    | DoUpdateStatus(user: UserId, tenant: TenantId, newStatus: Status, now: int)

  datatype Reply =
    | Details(details: seq<Detail>)
    | Memberships(memberships: seq<Membership>)
    | Found(row: Option<Row>)
    | Written(result: Result<Row, Error>)
    | WrittenAll(results: Result<seq<Row>, Error>)
    | Updated(update: Result<Option<Row>, Error>)

  /** A bulk call sends one tenant and one role. */
  ghost predicate Uniform(rs: seq<Row>) {
    forall i, j :: 0 <= i < |rs| && 0 <= j < |rs| ==> rs[i].roleId == rs[j].roleId && rs[i].tenantId == rs[j].tenantId
  }

  ghost predicate WellFormed(call: Call) {
    call.DoBulkCreate? ==> Uniform(call.rows)
  }

  function Exec(db: Db, call: Call): (Db, Reply) {
    match call
    case AskTenant(tenant, status) => (db, Details(FindByTenant(db, tenant, status, false)))
    case AskId(id) => (db, Found(FindByID(db, id, false)))
    case AskUser(user, tenant, crossTenant) => (db, Memberships(FindByUser(db, user, tenant, crossTenant, false)))
    case DoCreate(row) => var (next, r) := Create(db, row, false); (next, Written(r))
    case DoBulkCreate(rows) => var (next, r) := BulkCreate(db, rows, false); (next, WrittenAll(r))
    case DoUpdate(id, tenant, role, now) =>
      var (next, r) := Update(db, id, tenant, role, now, false); (next, Updated(r))
    case DoRevoke(id, tenant, now) => var (next, r) := Revoke(db, id, tenant, now, false); (next, Found(r))
    case DoUpdateStatus(user, tenant, status, now) =>
      var (next, r) := UpdateStatus(db, user, tenant, status, now, false); (next, Written(r))
  }

  function ExecAll(db: Db, calls: seq<Call>): (Db, seq<Reply>)
    decreases calls
  {
    if calls == [] then (db, []) else
      var (next, reply) := Exec(db, calls[0]);
      var (end, replies) := ExecAll(next, calls[1..]);
      (end, [reply] + replies)
  }

  /** For every sequence of calls by ordinary callers: the replies are those of the erased database, erasing the
      outcome is the outcome of the erased database, and the invariant this rests on is kept. */
  lemma {:induction false} HiddenIsAbsent(db: Db, calls: seq<Call>)
    requires Inv(db)
    requires forall c :: c in calls ==> WellFormed(c)
    ensures ExecAll(Erase(db), calls) == (Erase(ExecAll(db, calls).0), ExecAll(db, calls).1)
    ensures Inv(ExecAll(db, calls).0)
    decreases calls
  {
    if calls != [] {
      CallHides(db, calls[0]);
      HiddenIsAbsent(Exec(db, calls[0]).0, calls[1..]);
    }
  }

  /** `full` and `erased` are the outcomes of one call on a database and on its erasure. */
  ghost predicate Agree<R>(full: (Db, R), erased: (Db, R)) {
    erased.0 == Erase(full.0) && erased.1 == full.1 && Inv(full.0)
  }

  lemma CallHides(db: Db, call: Call)
    requires Inv(db) && WellFormed(call)
    ensures Agree(Exec(db, call), Exec(Erase(db), call))
  {
    match call
    case AskTenant(tenant, status) => TenantListHides(db, tenant, status);
    case AskId(id) => IdLookupHides(db, id);
    case AskUser(user, tenant, crossTenant) => UserListHides(db, user, tenant, crossTenant);
    case DoCreate(row) => CreateCallHides(db, row);
    case DoBulkCreate(rows) => BulkCallHides(db, rows);
    case DoUpdate(id, tenant, role, now) => UpdateCallHides(db, id, tenant, role, now);
    case DoRevoke(id, tenant, now) => RevokeCallHides(db, id, tenant, now);
    case DoUpdateStatus(user, tenant, status, now) => StatusCallHides(db, user, tenant, status, now);
  }

  lemma CreateCallHides(db: Db, row: Row)
    requires Inv(db)
    ensures Agree(Exec(db, DoCreate(row)), Exec(Erase(db), DoCreate(row)))
  {
    CreateHides(db, row);
    var full, erased := Create(db, row, false), Create(Erase(db), row, false);
    assert Exec(db, DoCreate(row)) == (full.0, Written(full.1));
    assert Exec(Erase(db), DoCreate(row)) == (erased.0, Written(erased.1));
  }

  lemma BulkCallHides(db: Db, rows: seq<Row>)
    requires Inv(db) && Uniform(rows)
    ensures Agree(Exec(db, DoBulkCreate(rows)), Exec(Erase(db), DoBulkCreate(rows)))
  {
    BulkCreateHides(db, rows);
    var full, erased := BulkCreate(db, rows, false), BulkCreate(Erase(db), rows, false);
    assert Exec(db, DoBulkCreate(rows)) == (full.0, WrittenAll(full.1));
    assert Exec(Erase(db), DoBulkCreate(rows)) == (erased.0, WrittenAll(erased.1));
  }

  lemma UpdateCallHides(db: Db, id: nat, tenant: TenantId, role: Option<RoleId>, now: int)
    requires Inv(db)
    ensures Agree(Exec(db, DoUpdate(id, tenant, role, now)), Exec(Erase(db), DoUpdate(id, tenant, role, now)))
  {
    UpdateHides(db, id, tenant, role, now);
    var full, erased := Update(db, id, tenant, role, now, false), Update(Erase(db), id, tenant, role, now, false);
    assert Exec(db, DoUpdate(id, tenant, role, now)) == (full.0, Updated(full.1));
    assert Exec(Erase(db), DoUpdate(id, tenant, role, now)) == (erased.0, Updated(erased.1));
  }

  lemma RevokeCallHides(db: Db, id: nat, tenant: TenantId, now: int)
    requires Inv(db)
    ensures Agree(Exec(db, DoRevoke(id, tenant, now)), Exec(Erase(db), DoRevoke(id, tenant, now)))
  {
    RevokeHides(db, id, tenant, now);
    var full, erased := Revoke(db, id, tenant, now, false), Revoke(Erase(db), id, tenant, now, false);
    assert Exec(db, DoRevoke(id, tenant, now)) == (full.0, Found(full.1));
    assert Exec(Erase(db), DoRevoke(id, tenant, now)) == (erased.0, Found(erased.1));
  }

  lemma StatusCallHides(db: Db, user: UserId, tenant: TenantId, status: Status, now: int)
    requires Inv(db)
    ensures Agree(Exec(db, DoUpdateStatus(user, tenant, status, now)),
                  Exec(Erase(db), DoUpdateStatus(user, tenant, status, now)))
  {
    UpdateStatusHides(db, user, tenant, status, now);
    var full := UpdateStatus(db, user, tenant, status, now, false);
    var erased := UpdateStatus(Erase(db), user, tenant, status, now, false);
    assert Exec(db, DoUpdateStatus(user, tenant, status, now)) == (full.0, Written(full.1));
    assert Exec(Erase(db), DoUpdateStatus(user, tenant, status, now)) == (erased.0, Written(erased.1));
  }

  // ------------------------------------------------------------- queries

  /** Selecting from the erased rows is selecting from the shown rows. */
  lemma EraseSelect(db: Db, p: Row -> bool, q: Row -> bool)
    requires forall r :: r in db.rows ==> p(r) == (Shown(db, r) && q(r))
    ensures Filter(Erase(db).rows, q) == Filter(db.rows, p)
  {
    FilterTwice(db.rows, r => Shown(db, r), q, p);
  }

  lemma MapCongruent<T(!new), U>(s: seq<T>, f: T -> U, g: T -> U)
    requires forall x :: x in s ==> f(x) == g(x)
    ensures Map(s, f) == Map(s, g)
  {
  }

  lemma NobodyIsPlatform(db: Db, user: UserId)
    ensures !PlatformIdentity(Erase(db), user)
  {
  }

  lemma TenantListHides(db: Db, tenant: TenantId, status: Option<Status>)
    requires OwnsNothingShown(db)
    ensures FindByTenant(Erase(db), tenant, status, false) == FindByTenant(db, tenant, status, false)
  {
    var e := Erase(db);
    var p := (r: Row) => ListedInTenant(db, r, tenant, status, false);
    EraseSelect(db, p, r => ListedInTenant(e, r, tenant, status, false));
    MapCongruent(Sort(Filter(db.rows, p), NewestFirst()), (r: Row) => DetailOf(db, r), (r: Row) => DetailOf(e, r));
  }

  lemma IdLookupHides(db: Db, id: nat)
    requires Inv(db)
    ensures FindByID(Erase(db), id, false) == FindByID(db, id, false)
  {
    var e := Erase(db);
    EraseSelect(db, (r: Row) => r.id == id && Visible(db, r, false), (r: Row) => r.id == id && Visible(e, r, false));
  }

  lemma UserListHides(db: Db, user: UserId, tenant: TenantId, crossTenant: bool)
    requires Inv(db)
    ensures FindByUser(Erase(db), user, tenant, crossTenant, false) == FindByUser(db, user, tenant, crossTenant, false)
  {
    var e := Erase(db);
    var p := (r: Row) => ListedForUser(db, r, user, tenant, crossTenant, false);
    EraseSelect(db, p, r => ListedForUser(e, r, user, tenant, crossTenant, false));
    MapCongruent(Sort(Filter(db.rows, p), NewestFirst()),
                 (r: Row) => MembershipOf(db, r), (r: Row) => MembershipOf(e, r));
  }

  /** Listings hide platform identities exactly as long as these own nothing that is shown. */
  lemma ListingsHideIff(db: Db)
    requires forall r :: r in db.rows ==> r.userId in db.users
    ensures (forall tenant :: FindByTenant(Erase(db), tenant, None, false) == FindByTenant(db, tenant, None, false))
       <==> OwnsNothingShown(db)
  {
    if OwnsNothingShown(db) {
      forall tenant ensures FindByTenant(Erase(db), tenant, None, false) == FindByTenant(db, tenant, None, false) {
        TenantListHides(db, tenant, None);
      }
    } else {
      var r :| r in db.rows && Shown(db, r) && PlatformIdentity(db, r.userId);
      RowIsListed(db, r);
      ErasedOwnerIsNotListed(db, r);
    }
  }

  lemma RowIsListed(db: Db, r: Row)
    requires r in db.rows && Shown(db, r) && r.userId in db.users
    ensures exists i :: 0 <= i < |FindByTenant(db, r.tenantId, None, false)|
                        && FindByTenant(db, r.tenantId, None, false)[i].row == r
  {
    var s := Sort(Filter(db.rows, x => ListedInTenant(db, x, r.tenantId, None, false)), NewestFirst());
    assert r in s;
    var i :| 0 <= i < |s| && s[i] == r;
    assert FindByTenant(db, r.tenantId, None, false)[i].row == r;
  }

  lemma ErasedOwnerIsNotListed(db: Db, r: Row)
    requires PlatformIdentity(db, r.userId)
    ensures forall i :: 0 <= i < |FindByTenant(Erase(db), r.tenantId, None, false)| ==>
              FindByTenant(Erase(db), r.tenantId, None, false)[i].row != r
  {
    var e := Erase(db);
    var s := Sort(Filter(e.rows, x => ListedInTenant(e, x, r.tenantId, None, false)), NewestFirst());
    forall i | 0 <= i < |s| ensures s[i] != r {
      assert s[i] in s;
    }
  }

  // ------------------------------------------------------------- commands

  lemma CheckRoleHides(db: Db, role: Option<RoleId>, tenant: TenantId)
    ensures CheckRoleIfAny(Erase(db), role, tenant, false) == CheckRoleIfAny(db, role, tenant, false)
    ensures CheckRoleIfAny(db, role, tenant, false).None? ==> Assignable(db, role, tenant)
  {
  }

  /** What a passed check leaves: the role exists, is not global, and the tenant may use it. */
  ghost predicate Assignable(db: Db, role: Option<RoleId>, tenant: TenantId) {
    role.Some? ==> role.value in db.roles && !db.roles[role.value].isGlobal && TenantCanUseRole(db, tenant, role.value)
  }

  /** An INSERT of an assignable role answers alike on both sides, including which error. */
  lemma InsertHides(committed: Db, db: Db, r: Row)
    requires OwnsNothingShown(db) && Assignable(db, r.roleId, r.tenantId)
    ensures InsertRow(Erase(db), r, false).Returned? <==> InsertRow(db, r, false).Returned?
    ensures !InsertRow(db, r, false).Returned? ==>
              InsertError(Erase(committed), InsertRow(Erase(db), r, false), r, false)
              == InsertError(committed, InsertRow(db, r, false), r, false)
  {
    NobodyIsPlatform(db, r.userId);
    ActiveLookupHides(committed, r.userId, r.tenantId);
    ClashHides(db, r);
  }

  /** A new row clashes with a shown row or with none, unless its user is a platform identity: then with none shown. */
  lemma ClashHides(db: Db, r: Row)
    requires OwnsNothingShown(db)
    ensures (exists s :: s in Erase(db).rows && Clash(r, s))
       <==> !PlatformIdentity(db, r.userId) && exists s :: s in db.rows && Clash(r, s)
  {
    if s :| s in Erase(db).rows && Clash(r, s) {
      assert s in db.rows && Shown(db, s);
    }
    if s :| !PlatformIdentity(db, r.userId) && s in db.rows && Clash(r, s) {
      assert Shown(db, s);
      assert s in Erase(db).rows;
    }
  }

  lemma ActiveLookupHides(db: Db, user: UserId, tenant: TenantId)
    ensures HasVisibleActive(Erase(db), user, tenant, false) == HasVisibleActive(db, user, tenant, false)
  {
    var e := Erase(db);
    if r :| r in db.rows && r.userId == user && r.tenantId == tenant && r.status == Active && Visible(db, r, false) {
      assert r in e.rows && Visible(e, r, false);
    }
    if r :| r in e.rows && r.userId == user && r.tenantId == tenant && r.status == Active && Visible(e, r, false) {
      assert r in db.rows && Visible(db, r, false);
    }
  }

  /** Appending a shown row that passed the guard. */
  lemma AppendHides(db: Db, r: Row)
    requires Inv(db) && Assignable(db, r.roleId, r.tenantId) && InsertRow(db, r, false).Returned?
    ensures Erase(db.(rows := db.rows + [r])) == Erase(db).(rows := Erase(db).rows + [r])
    ensures Inv(db.(rows := db.rows + [r]))
  {
    var next := db.(rows := db.rows + [r]);
    forall user ensures PlatformIdentity(next, user) == PlatformIdentity(db, user) {
      AppendMakesNoPlatform(db, r, user);
    }
    FilterConcat(db.rows, [r], s => Shown(db, s));
    assert Filter([r], s => Shown(db, s)) == [r];
    FilterCongruent(next.rows, s => Shown(next, s), s => Shown(db, s));
    AppendKeepsInv(db, r);
  }

  lemma AppendMakesNoPlatform(db: Db, r: Row, user: UserId)
    requires Shown(db, r)
    ensures PlatformIdentity(db.(rows := db.rows + [r]), user) == PlatformIdentity(db, user)
  {
    assert forall s :: s in db.rows + [r] <==> s in db.rows || s == r;
  }

  lemma AppendKeepsInv(db: Db, r: Row)
    requires Inv(db) && Shown(db, r) && InsertRow(db, r, false).Returned?
    ensures Inv(db.(rows := db.rows + [r]))
  {
    var next := db.(rows := db.rows + [r]);
    assert forall s :: s in next.rows <==> s in db.rows || s == r;
    forall s | s in next.rows && Shown(next, s) ensures !PlatformIdentity(next, s.userId) {
      AppendMakesNoPlatform(db, r, s.userId);
    }
  }

  lemma CreateHides(db: Db, r: Row)
    requires Inv(db)
    ensures Agree(Create(db, r, false), Create(Erase(db), r, false))
  {
    CheckRoleHides(db, r.roleId, r.tenantId);
    if CheckRoleIfAny(db, r.roleId, r.tenantId, false).None? {
      InsertHides(db, db, r);
      if InsertRow(db, r, false).Returned? {
        AppendHides(db, r);
      }
    }
  }

  lemma BulkCreateHides(db: Db, rs: seq<Row>)
    requires Inv(db) && Uniform(rs)
    ensures Agree(BulkCreate(db, rs, false), BulkCreate(Erase(db), rs, false))
  {
    if rs != [] {
      CheckRoleHides(db, rs[0].roleId, rs[0].tenantId);
      if CheckRoleIfAny(db, rs[0].roleId, rs[0].tenantId, false).None? {
        forall i | 0 <= i < |rs| ensures Assignable(db, rs[i].roleId, rs[i].tenantId) {
        }
        InsertAllHides(db, db, rs);
      }
    }
  }

  lemma {:induction false} InsertAllHides(committed: Db, tx: Db, rs: seq<Row>)
    requires Inv(tx)
    requires forall i :: 0 <= i < |rs| ==> Assignable(tx, rs[i].roleId, rs[i].tenantId)
    ensures InsertAll(Erase(committed), Erase(tx), rs, false).1 == InsertAll(committed, tx, rs, false).1
    ensures InsertAll(committed, tx, rs, false).1.None? ==>
              Agree(InsertAll(committed, tx, rs, false), InsertAll(Erase(committed), Erase(tx), rs, false))
    decreases rs
  {
    if rs != [] {
      InsertHides(committed, tx, rs[0]);
      if InsertRow(tx, rs[0], false).Returned? {
        AppendHides(tx, rs[0]);
        var next := tx.(rows := tx.rows + [rs[0]]);
        forall i | 0 <= i < |rs[1..]| ensures Assignable(next, rs[1..][i].roleId, rs[1..][i].tenantId) {
          assert rs[1..][i] == rs[i + 1];
        }
        InsertAllHides(committed, next, rs[1..]);
      }
    }
  }

  /** An update of shown rows only, that leaves them shown and with their owner, commutes with erasing. */
  ghost predicate ShownOnly(db: Db, where: Row -> bool, change: Row -> Row) {
    forall r :: r in db.rows && where(r) ==> Shown(db, r) && Shown(db, change(r)) && change(r).userId == r.userId
  }

  lemma UpdatePlatforms(db: Db, where: Row -> bool, change: Row -> Row, user: UserId)
    requires ShownOnly(db, where, change)
    ensures PlatformIdentity(db.(rows := UpdateWhere(db.rows, where, change)), user) == PlatformIdentity(db, user)
  {
    var next := db.(rows := UpdateWhere(db.rows, where, change));
    if r :| r in next.rows && r.userId == user && r.status != Revoked && IsGlobal(db.roles, r.roleId) {
      var i :| 0 <= i < |next.rows| && next.rows[i] == r;
      assert db.rows[i] in db.rows;
    }
    if r :| r in db.rows && r.userId == user && r.status != Revoked && IsGlobal(db.roles, r.roleId) {
      var i :| 0 <= i < |db.rows| && db.rows[i] == r;
      assert next.rows[i] == r;
    }
  }

  lemma UpdateCommutes(db: Db, where: Row -> bool, whereErased: Row -> bool, change: Row -> Row)
    requires OwnsNothingShown(db) && ShownOnly(db, where, change)
    requires forall r :: r in db.rows && Shown(db, r) ==> where(r) == whereErased(r)
    ensures var next := db.(rows := UpdateWhere(db.rows, where, change));
      && Erase(next) == Erase(db).(rows := UpdateWhere(Erase(db).rows, whereErased, change))
      && OwnsNothingShown(next)
    ensures Filter(Erase(db).rows, whereErased) == Filter(db.rows, where)
  {
    var next := db.(rows := UpdateWhere(db.rows, where, change));
    forall user ensures PlatformIdentity(next, user) == PlatformIdentity(db, user) {
      UpdatePlatforms(db, where, change, user);
    }
    assert Erase(next).users == Erase(db).users;
    EraseSelect(db, where, whereErased);
    ShownRowsCommute(db, where, whereErased, change);
    FilterCongruent(next.rows, (r: Row) => Shown(next, r), (r: Row) => Shown(db, r));
    UpdateOwnsNothing(db, where, change);
  }

  lemma UpdateOwnsNothing(db: Db, where: Row -> bool, change: Row -> Row)
    requires OwnsNothingShown(db) && ShownOnly(db, where, change)
    ensures OwnsNothingShown(db.(rows := UpdateWhere(db.rows, where, change)))
  {
    var next := db.(rows := UpdateWhere(db.rows, where, change));
    forall r | r in next.rows && Shown(next, r) ensures !PlatformIdentity(next, r.userId) {
      var i :| 0 <= i < |next.rows| && next.rows[i] == r;
      assert db.rows[i] in db.rows;
      UpdatePlatforms(db, where, change, r.userId);
    }
  }

  lemma ShownRowsCommute(db: Db, where: Row -> bool, whereErased: Row -> bool, change: Row -> Row)
    requires ShownOnly(db, where, change)
    requires forall r :: r in db.rows && Shown(db, r) ==> where(r) == whereErased(r)
    ensures Filter(UpdateWhere(db.rows, where, change), (r: Row) => Shown(db, r))
         == UpdateWhere(Erase(db).rows, whereErased, change)
  {
    var shown := (r: Row) => Shown(db, r);
    var step := (r: Row) => if where(r) then change(r) else r;
    var stepErased := (r: Row) => if whereErased(r) then change(r) else r;
    FilterMap(db.rows, step, shown, shown);
    MapCongruent(Filter(db.rows, shown), step, stepErased);
  }

  lemma UpdateHides(db: Db, id: nat, tenant: TenantId, role: Option<RoleId>, now: int)
    requires Inv(db)
    ensures Agree(Update(db, id, tenant, role, now, false), Update(Erase(db), id, tenant, role, now, false))
  {
    var e := Erase(db);
    CheckRoleHides(db, role, tenant);
    if CheckRoleIfAny(db, role, tenant, false).None? {
      var where, whereErased := (r: Row) => Updatable(db, r, id, false), (r: Row) => Updatable(e, r, id, false);
      UpdatableHides(db, id);
      UpdateCommutes(db, where, whereErased, SetRole(role, now));
      if role.Some? {
        TriggerHides(db, role.value, Filter(db.rows, where));
      }
      KeepsActive(db.rows, where, SetRole(role, now));
    }
  }

  lemma UpdatableHides(db: Db, id: nat)
    requires OwnsNothingShown(db)
    ensures forall r :: r in db.rows && Shown(db, r) ==>
              Updatable(db, r, id, false) == Updatable(Erase(db), r, id, false)
  {
    forall r | r in db.rows && Shown(db, r)
      ensures Updatable(db, r, id, false) == Updatable(Erase(db), r, id, false)
    {
      NobodyIsPlatform(db, r.userId);
    }
  }

  lemma TriggerHides(db: Db, role: RoleId, targets: seq<Row>)
    requires role in db.roles && !db.roles[role].isGlobal
    ensures (exists r :: r in targets && !TenantCanUseRole(Erase(db), r.tenantId, role))
       <==> (exists r :: r in targets && !TenantCanUseRole(db, r.tenantId, role))
  {
    forall tenant ensures TenantCanUseRole(Erase(db), tenant, role) == TenantCanUseRole(db, tenant, role) {
    }
  }

  lemma RevokeHides(db: Db, id: nat, tenant: TenantId, now: int)
    requires Inv(db)
    ensures Agree(Revoke(db, id, tenant, now, false), Revoke(Erase(db), id, tenant, now, false))
  {
    var e := Erase(db);
    var where := (r: Row) => Revocable(db, r, id, tenant, false);
    var whereErased := (r: Row) => Revocable(e, r, id, tenant, false);
    UpdateCommutes(db, where, whereErased, SetStatus(Revoked, now));
    KeepsActive(db.rows, where, SetStatus(Revoked, now));
  }

  /** An update that makes no row active makes no conflict. */
  lemma KeepsActive(rows: seq<Row>, where: Row -> bool, change: Row -> Row)
    requires !ActiveConflict(rows)
    requires forall r :: change(r).id == r.id && change(r).userId == r.userId && change(r).tenantId == r.tenantId
    requires forall r :: change(r).status == Active ==> r.status == Active
    ensures !ActiveConflict(UpdateWhere(rows, where, change))
  {
    var next := UpdateWhere(rows, where, change);
    forall r, s | r in next && s in next && r.id != s.id ensures !Clash(r, s) {
      var i :| 0 <= i < |next| && next[i] == r;
      var j :| 0 <= j < |next| && next[j] == s;
      assert rows[i] in rows && rows[j] in rows;
      assert !Clash(rows[i], rows[j]);
    }
  }

  lemma UpdateStatusHides(db: Db, user: UserId, tenant: TenantId, status: Status, now: int)
    requires Inv(db)
    ensures Agree(UpdateStatus(db, user, tenant, status, now, false),
                  UpdateStatus(Erase(db), user, tenant, status, now, false))
  {
    var e := Erase(db);
    var where, whereErased :=
      (r: Row) => Switchable(db, r, user, tenant, false), (r: Row) => Switchable(e, r, user, tenant, false);
    UpdateCommutes(db, where, whereErased, SetStatus(status, now));
    ConflictIsShown(db, where, SetStatus(status, now));
  }

  /** An update of shown rows cannot clash with a hidden row, for the hidden row would make its owner a platform
      identity, who owns no shown row. */
  lemma ConflictIsShown(db: Db, where: Row -> bool, change: Row -> Row)
    requires Inv(db) && ShownOnly(db, where, change)
    requires forall r :: change(r).id == r.id && change(r).userId == r.userId && change(r).tenantId == r.tenantId
    ensures var next := db.(rows := UpdateWhere(db.rows, where, change));
            ActiveConflict(Erase(next).rows) == ActiveConflict(next.rows)
  {
    var next := db.(rows := UpdateWhere(db.rows, where, change));
    if r, s :| r in next.rows && s in next.rows && r.id != s.id && Clash(r, s) {
      HiddenStaysPut(db, where, change, r);
      HiddenStaysPut(db, where, change, s);
      assert Shown(next, r) && Shown(next, s);
      assert r in Erase(next).rows && s in Erase(next).rows;
    }
    if r, s :| r in Erase(next).rows && s in Erase(next).rows && r.id != s.id && Clash(r, s) {
      assert r in next.rows && s in next.rows;
    }
  }

  /** A hidden row of the outcome was there before; so was any shown one, under the same owner. */
  lemma HiddenStaysPut(db: Db, where: Row -> bool, change: Row -> Row, r: Row)
    requires OwnsNothingShown(db) && ShownOnly(db, where, change)
    requires r in UpdateWhere(db.rows, where, change)
    ensures !Shown(db, r) ==> r in db.rows
    ensures Shown(db, r) ==> !PlatformIdentity(db, r.userId)
  {
    var next := UpdateWhere(db.rows, where, change);
    var i :| 0 <= i < |next| && next[i] == r;
    assert db.rows[i] in db.rows;
  }
}
