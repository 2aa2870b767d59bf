/** Tenants and users: two tables with soft deletion, the statements the repositories issue on
    them, and what every interleaving of those statements keeps. */
module Accounts {
  import opened Wrappers

  const BLOCKED := 0      // user status
  const ACTIVE := 1       // user and tenant status
  const PENDING := 2      // user status
  const INACTIVE := 0     // tenant status

  datatype Tenant = Tenant(id: nat, code: string, name: string, domain: Option<string>, status: int,
                           updatedAt: int, deletedAt: Option<int>)

  datatype User = User(id: nat, tenantId: nat, fullName: string, email: string, username: string, status: int,
                       lastLoginAt: Option<int>, updatedAt: int, deletedAt: Option<int>)

  type Tenants = map<nat, Tenant>
  type Users = map<nat, User>

  datatype DbError = DuplicateKey | UniqueViolation | ForeignKeyViolation

  // ---------- Statements as functions of the table ----------

  /** The code is unique over all rows, the domain over those that have one; deleted rows count. */
  predicate TenantClash(rows: Tenants, t: Tenant)
  {
    exists id | id in rows && id != t.id ::
      rows[id].code == t.code || (t.domain.Some? && rows[id].domain == t.domain)
  }

  function InsertTenant(rows: Tenants, t: Tenant): Result<Tenants, DbError>
  {
    if t.id in rows then Err(DuplicateKey)
    else if TenantClash(rows, t) then Err(UniqueViolation)
    else Result.Ok(rows[t.id := t.(deletedAt := None)])
  }

  /** Only a row that is not deleted is written; the identity and deletion columns are not. */
  function ChangeTenant(rows: Tenants, t: Tenant, now: int): Result<Tenants, DbError>
  {
    if t.id !in rows || rows[t.id].deletedAt.Some? then Result.Ok(rows)
    else if TenantClash(rows, t) then Err(UniqueViolation)
    else Result.Ok(rows[t.id := t.(updatedAt := now, deletedAt := None)])
  }

  function SoftDeleteTenant(rows: Tenants, id: nat, now: int): Tenants
  {
    if id !in rows || rows[id].deletedAt.Some? then rows
    else rows[id := rows[id].(status := INACTIVE, updatedAt := now, deletedAt := Some(now))]
  }

  /** Usernames are unique among the users that are not deleted. */
  predicate UsernameClash(rows: Users, u: User)
  {
    exists id | id in rows && id != u.id :: rows[id].username == u.username && rows[id].deletedAt.None?
  }

  function InsertUser(rows: Users, tenants: Tenants, u: User): Result<Users, DbError>
  {
    if u.id in rows then Err(DuplicateKey)
    else if UsernameClash(rows, u) then Err(UniqueViolation)
    else if u.tenantId !in tenants then Err(ForeignKeyViolation)
    else Result.Ok(rows[u.id := u.(lastLoginAt := None, deletedAt := None)])
  }

  function ChangeUser(rows: Users, u: User, now: int): Result<Users, DbError>
  {
    if u.id !in rows || rows[u.id].deletedAt.Some? then Result.Ok(rows)
    else if UsernameClash(rows, u) then Err(UniqueViolation)
    else
      var row := rows[u.id];
      Result.Ok(rows[u.id := row.(fullName := u.fullName, email := u.email, username := u.username,
                                  status := u.status, updatedAt := now)])
  }

  function SoftDeleteUser(rows: Users, id: nat, now: int): Users
  {
    if id !in rows || rows[id].deletedAt.Some? then rows
    else rows[id := rows[id].(status := BLOCKED, updatedAt := now, deletedAt := Some(now))]
  }

  /** The one statement that does not look at `deleted_at`. */
  function TouchLastLogin(rows: Users, id: nat, now: int): Users
  {
    if id !in rows then rows
    else rows[id := rows[id].(lastLoginAt := Some(now), updatedAt := now)]
  }

  // ---------- Credentials ----------

  const PASSWORD := "PASSWORD"

  datatype Credential = Credential(id: nat, userId: nat, kind: string, hash: Option<string>, isActive: bool,
                                   lastUsedAt: Option<int>, createdAt: int, updatedAt: int)

  type Credentials = map<nat, Credential>

  function InsertCredential(rows: Credentials, users: Users, c: Credential): Result<Credentials, DbError>
  {
    if c.id in rows then Err(DuplicateKey)
    else if c.userId !in users then Err(ForeignKeyViolation)
    else Result.Ok(rows[c.id := c.(lastUsedAt := None)])
  }

  function ChangeCredential(rows: Credentials, c: Credential, now: int): Credentials
  {
    if c.id !in rows then rows
    else rows[c.id := rows[c.id].(hash := c.hash, isActive := c.isActive, lastUsedAt := c.lastUsedAt, updatedAt := now)]
  }

  predicate Usable(c: Credential, user: nat, kind: string)
  {
    c.userId == user && c.kind == kind && c.isActive
  }

  /** `ORDER BY created_at DESC LIMIT 1`: a usable credential no other one is newer than. */
  predicate Newest(rows: Credentials, user: nat, kind: string, found: Option<Credential>)
  {
    match found
    case Some(c) =>
      && c.id in rows && rows[c.id] == c && Usable(c, user, kind)
      && forall id | id in rows && Usable(rows[id], user, kind) :: rows[id].createdAt <= c.createdAt
    case None => forall id | id in rows :: !Usable(rows[id], user, kind)
  }

  // ---------- Lookups ----------

  datatype UserKey =
    | ById(id: nat)
    | ByEmail(email: string)
    | ByUsername(username: string)
    | ByEmailAndTenant(email: string, tenantId: nat)

  predicate UserSelected(u: User, key: UserKey)
  {
    u.deletedAt.None? &&
    match key
    case ById(id) => u.id == id
    case ByEmail(email) => u.email == email
    case ByUsername(username) => u.username == username
    case ByEmailAndTenant(email, tenantId) => u.email == email && u.tenantId == tenantId
  }

  datatype TenantKey = TenantById(id: nat) | TenantByCode(code: string) | TenantByDomain(domain: string)

  predicate TenantSelected(t: Tenant, key: TenantKey)
  {
    t.deletedAt.None? &&
    match key
    case TenantById(id) => t.id == id
    case TenantByCode(code) => t.code == code
    case TenantByDomain(domain) => t.domain == Some(domain)
  }

  predicate Keyed(tenants: Tenants, users: Users)
  {
    (forall id | id in tenants :: tenants[id].id == id) && (forall id | id in users :: users[id].id == id)
  }

  // ---------- The repositories ----------

  class TenantRepo {
    var rows: Tenants

    constructor ()
      ensures rows == map[]
    {
      rows := map[];
    }

    method Create(t: Tenant) returns (failure: Option<DbError>)
      modifies this
      ensures match InsertTenant(old(rows), t)
              case Ok(after) => rows == after && failure == None
              case Err(e) => rows == old(rows) && failure == Some(e)
    {
      if t.id in rows {
        return Some(DuplicateKey);
      }
      if TenantClash(rows, t) {
        return Some(UniqueViolation);
      }
      rows := rows[t.id := t.(deletedAt := None)];
      return None;
    }

    method Update(t: Tenant, now: int) returns (failure: Option<DbError>)
      modifies this
      ensures match ChangeTenant(old(rows), t, now)
              case Ok(after) => rows == after && failure == None
              case Err(e) => rows == old(rows) && failure == Some(e)
    {
      if t.id in rows && rows[t.id].deletedAt.None? {
        if TenantClash(rows, t) {
          return Some(UniqueViolation);
        }
        rows := rows[t.id := t.(updatedAt := now, deletedAt := None)];
      }
      return None;
    }

    method Delete(id: nat, now: int)
      modifies this
      ensures rows == SoftDeleteTenant(old(rows), id, now)
    {
      if id in rows && rows[id].deletedAt.None? {
        rows := rows[id := rows[id].(status := INACTIVE, updatedAt := now, deletedAt := Some(now))];
      }
    }

    /** The first row the query yields; the order of several matches is the database's choice. */
    method Find(key: TenantKey) returns (found: Option<Tenant>)
      ensures found.Some? ==> exists id | id in rows :: rows[id] == found.value && TenantSelected(found.value, key)
      ensures found.None? ==> forall id | id in rows :: !TenantSelected(rows[id], key)
    {
      if id :| id in rows && TenantSelected(rows[id], key) {
        return Some(rows[id]);
      } else {
        return None;
      }
    }
  }

  class UserRepo {
    var rows: Users
    var credentials: Credentials

    constructor ()
      ensures rows == map[] && credentials == map[]
    {
      rows, credentials := map[], map[];
    }

    method Create(u: User, tenants: Tenants) returns (failure: Option<DbError>)
      modifies `rows
      ensures match InsertUser(old(rows), tenants, u)
              case Ok(after) => rows == after && failure == None
              case Err(e) => rows == old(rows) && failure == Some(e)
    {
      if u.id in rows {
        return Some(DuplicateKey);
      }
      if UsernameClash(rows, u) {
        return Some(UniqueViolation);
      }
      if u.tenantId !in tenants {
        return Some(ForeignKeyViolation);
      }
      rows := rows[u.id := u.(lastLoginAt := None, deletedAt := None)];
      return None;
    }

    method Update(u: User, now: int) returns (failure: Option<DbError>)
      modifies `rows
      ensures match ChangeUser(old(rows), u, now)
              case Ok(after) => rows == after && failure == None
              case Err(e) => rows == old(rows) && failure == Some(e)
    {
      if u.id in rows && rows[u.id].deletedAt.None? {
        if UsernameClash(rows, u) {
          return Some(UniqueViolation);
        }
        var row := rows[u.id];
        rows := rows[u.id := row.(fullName := u.fullName, email := u.email, username := u.username,
                                  status := u.status, updatedAt := now)];
      }
      return None;
    }

    method Delete(id: nat, now: int)
      modifies `rows
      ensures rows == SoftDeleteUser(old(rows), id, now)
    {
      if id in rows && rows[id].deletedAt.None? {
        rows := rows[id := rows[id].(status := BLOCKED, updatedAt := now, deletedAt := Some(now))];
      }
    }

    method UpdateLastLogin(id: nat, now: int)
      modifies `rows
      ensures rows == TouchLastLogin(old(rows), id, now)
    {
      if id in rows {
        rows := rows[id := rows[id].(lastLoginAt := Some(now), updatedAt := now)];
      }
    }

    method Find(key: UserKey) returns (found: Option<User>)
      ensures found.Some? ==> exists id | id in rows :: rows[id] == found.value && UserSelected(found.value, key)
      ensures found.None? ==> forall id | id in rows :: !UserSelected(rows[id], key)
    {
      if id :| id in rows && UserSelected(rows[id], key) {
        return Some(rows[id]);
      } else {
        return None;
      }
    }

    method CreateCredential(c: Credential) returns (failure: Option<DbError>)
      modifies `credentials
      ensures match InsertCredential(old(credentials), rows, c)
              case Ok(after) => credentials == after && failure == None
              case Err(e) => credentials == old(credentials) && failure == Some(e)
    {
      if c.id in credentials {
        return Some(DuplicateKey);
      }
      if c.userId !in rows {
        return Some(ForeignKeyViolation);
      }
      credentials := credentials[c.id := c.(lastUsedAt := None)];
      return None;
    }

    method UpdateCredential(c: Credential, now: int)
      modifies `credentials
      ensures credentials == ChangeCredential(old(credentials), c, now)
    {
      if c.id in credentials {
        credentials := credentials[c.id := credentials[c.id].(hash := c.hash, isActive := c.isActive,
                                                              lastUsedAt := c.lastUsedAt, updatedAt := now)];
      }
    }

    method GetActiveCredentialByType(user: nat, kind: string) returns (found: Option<Credential>)
      requires forall id | id in credentials :: credentials[id].id == id
      ensures Newest(credentials, user, kind, found)
    {
      found := None;
      var todo := credentials.Keys;
      while todo != {}
        invariant todo <= credentials.Keys
        invariant found.Some? ==> found.value.id in credentials && credentials[found.value.id] == found.value &&
                                  Usable(found.value, user, kind)
        invariant forall id | id in credentials && id !in todo && Usable(credentials[id], user, kind) ::
                    found.Some? && credentials[id].createdAt <= found.value.createdAt
        decreases todo
      {
        var id :| id in todo;
        var c := credentials[id];
        if Usable(c, user, kind) && (found.None? || found.value.createdAt < c.createdAt) {
          found := Some(c);
        }
        todo := todo - {id};
      }
    }
  }

  // ---------- Runs of statements ----------

  datatype State = State(tenants: Tenants, users: Users)

  /** Row arguments are arbitrary: in particular an update may carry a row read before a deletion. */
  datatype Statement =
    | CreateTenant(t: Tenant)
    | UpdateTenant(t: Tenant)
    | DeleteTenant(id: nat)
    | CreateUser(u: User)
    | UpdateUser(u: User)
    | DeleteUser(id: nat)
    | UpdateLastLogin(id: nat)

  function OrElse<T>(outcome: Result<T, DbError>, before: T): T
  {
    if outcome.Ok? then outcome.value else before
  }

  function Step(st: State, s: Statement, now: int): State
  {
    match s
    case CreateTenant(t) => st.(tenants := OrElse(InsertTenant(st.tenants, t), st.tenants))
    case UpdateTenant(t) => st.(tenants := OrElse(ChangeTenant(st.tenants, t, now), st.tenants))
    case DeleteTenant(id) => st.(tenants := SoftDeleteTenant(st.tenants, id, now))
    case CreateUser(u) => st.(users := OrElse(InsertUser(st.users, st.tenants, u), st.users))
    case UpdateUser(u) => st.(users := OrElse(ChangeUser(st.users, u, now), st.users))
    case DeleteUser(id) => st.(users := SoftDeleteUser(st.users, id, now))
    case UpdateLastLogin(id) => st.(users := TouchLastLogin(st.users, id, now))
  }

  function Run(st: State, run: seq<(Statement, int)>): State
    decreases |run|
  {
    if run == [] then st else Run(Step(st, run[0].0, run[0].1), run[1..])
  }

  /** Soft-deleted users are blocked and soft-deleted tenants inactive, keys are the rows' own ids,
      users belong to existing tenants, and a username names at most one user that is not deleted. */
  ghost predicate Invariant(st: State)
  {
    && Keyed(st.tenants, st.users)
    && (forall id | id in st.tenants && st.tenants[id].deletedAt.Some? :: st.tenants[id].status == INACTIVE)
    && (forall id | id in st.users && st.users[id].deletedAt.Some? :: st.users[id].status == BLOCKED)
    && (forall id | id in st.users :: st.users[id].tenantId in st.tenants)
    && (forall i, j | i in st.users && j in st.users && i != j ::
          st.users[i].deletedAt.None? && st.users[j].deletedAt.None? ==> st.users[i].username != st.users[j].username)
  }

  lemma {:induction false} RunKeepsInvariant(st: State, run: seq<(Statement, int)>)
    requires Invariant(st)
    ensures Invariant(Run(st, run))
    decreases |run|
  {
    if run != [] {
      StepKeepsInvariant(st, run[0].0, run[0].1);
      RunKeepsInvariant(Step(st, run[0].0, run[0].1), run[1..]);
    }
  }

  lemma StepKeepsInvariant(st: State, s: Statement, now: int)
    requires Invariant(st)
    ensures Invariant(Step(st, s, now))
  {
  }

  /** What can still change in a deleted user's row: the two columns of the last-login statement. */
  predicate Frozen(before: User, after: User)
  {
    after == before.(lastLoginAt := after.lastLoginAt, updatedAt := after.updatedAt)
  }

  lemma {:induction false} DeletedUserStaysFrozen(st: State, run: seq<(Statement, int)>, id: nat)
    requires Keyed(st.tenants, st.users) && id in st.users && st.users[id].deletedAt.Some?
    ensures id in Run(st, run).users && Frozen(st.users[id], Run(st, run).users[id])
    decreases |run|
  {
    if run != [] {
      var next := Step(st, run[0].0, run[0].1);
      DeletedUserStaysFrozen(next, run[1..], id);
    }
  }

  lemma {:induction false} DeletedTenantNeverChanges(st: State, run: seq<(Statement, int)>, id: nat)
    requires Keyed(st.tenants, st.users) && id in st.tenants && st.tenants[id].deletedAt.Some?
    ensures id in Run(st, run).tenants && Run(st, run).tenants[id] == st.tenants[id]
    decreases |run|
  {
    if run != [] {
      DeletedTenantNeverChanges(Step(st, run[0].0, run[0].1), run[1..], id);
    }
  }

  /** From an empty database, in every reachable state: every user or tenant deleted at some point is
      blocked or inactive for good, its row is otherwise unchanged, and no lookup selects it again. */
  lemma TombstonesAreFinal(before: seq<(Statement, int)>, after: seq<(Statement, int)>, id: nat)
    ensures var mid := Run(State(map[], map[]), before);
            var end := Run(mid, after);
            && Invariant(mid) && Invariant(end)
            && (id in mid.users && mid.users[id].deletedAt.Some? ==>
                  && id in end.users && Frozen(mid.users[id], end.users[id]) && end.users[id].status == BLOCKED
                  && (forall key :: !UserSelected(end.users[id], key)))
            && (id in mid.tenants && mid.tenants[id].deletedAt.Some? ==>
                  && id in end.tenants && end.tenants[id] == mid.tenants[id] && end.tenants[id].status == INACTIVE
                  && (forall key :: !TenantSelected(end.tenants[id], key)))
  {
    var mid := Run(State(map[], map[]), before);
    RunKeepsInvariant(State(map[], map[]), before);
    RunKeepsInvariant(mid, after);
    if id in mid.users && mid.users[id].deletedAt.Some? {
      DeletedUserStaysFrozen(mid, after, id);
    }
    if id in mid.tenants && mid.tenants[id].deletedAt.Some? {
      DeletedTenantNeverChanges(mid, after, id);
    }
  }

  /** A deletion takes effect at once and touches one row only. */
  lemma DeletionIsExact(st: State, id: nat, now: int)
    requires Invariant(st)
    ensures var after := Step(st, DeleteUser(id), now).users;
            after.Keys == st.users.Keys &&
            (forall other | other in st.users && other != id :: after[other] == st.users[other]) &&
            (id in st.users ==> after[id].deletedAt.Some? && after[id].status == BLOCKED) &&
            (id in st.users && st.users[id].deletedAt.Some? ==> after == st.users)
  {
  }

  // ---------- What the statements write ----------

  /** Inserting a user: when it succeeds, and the one row it adds. */
  lemma UserInsertionIsExact(users: Users, tenants: Tenants, u: User)
    ensures var outcome := InsertUser(users, tenants, u);
            && (outcome.Ok? <==>
                  && u.id !in users && u.tenantId in tenants
                  && forall id | id in users && users[id].deletedAt == None :: users[id].username != u.username)
            && (outcome.Ok? ==>
                  && outcome.value.Keys == users.Keys + {u.id}
                  && (forall id | id in users :: outcome.value[id] == users[id])
                  && var row := outcome.value[u.id];
                     && (row.id, row.tenantId, row.fullName, row.email, row.username, row.status, row.updatedAt) ==
                        (u.id, u.tenantId, u.fullName, u.email, u.username, u.status, u.updatedAt)
                     && row.lastLoginAt == None && row.deletedAt == None)
  {
  }

  /** Updating a user: nothing for a missing or deleted one; otherwise its four columns and the time, unless
      another live user has the name. */
  lemma UserUpdateIsExact(users: Users, u: User, now: int)
    requires forall id | id in users :: users[id].id == id
    ensures var outcome := ChangeUser(users, u, now);
            var live := u.id in users && users[u.id].deletedAt == None;
            && (!live ==> outcome == Result.Ok(users))
            && (live ==> (outcome.Ok? <==>
                  forall id | id in users && id != u.id && users[id].deletedAt == None :: users[id].username != u.username))
            && (live && outcome.Ok? ==>
                  && outcome.value.Keys == users.Keys
                  && (forall id | id in users && id != u.id :: outcome.value[id] == users[id])
                  && var old_, new_ := users[u.id], outcome.value[u.id];
                     && (new_.fullName, new_.email, new_.username, new_.status, new_.updatedAt) ==
                        (u.fullName, u.email, u.username, u.status, now)
                     && (new_.id, new_.tenantId, new_.lastLoginAt, new_.deletedAt) ==
                        (old_.id, old_.tenantId, old_.lastLoginAt, old_.deletedAt))
  {
  }

  /** The last-login statement writes two columns of the one row, deleted or not. */
  lemma LastLoginIsExact(users: Users, id: nat, now: int)
    ensures var after := TouchLastLogin(users, id, now);
            && after.Keys == users.Keys
            && (forall other | other in users && other != id :: after[other] == users[other])
            && (id in users ==>
                  && after[id].lastLoginAt == Some(now) && after[id].updatedAt == now
                  && after[id] == users[id].(lastLoginAt := after[id].lastLoginAt, updatedAt := after[id].updatedAt))
  {
  }

  /** The tenant statements: the row inserted, or the columns of a live row replaced, or a live row
      deactivated and marked deleted; all other rows stay. */
  lemma TenantStatementsAreExact(rows: Tenants, t: Tenant, now: int)
    requires forall id | id in rows :: rows[id].id == id
    ensures var free := forall id | id in rows && id != t.id ::
                          rows[id].code != t.code && (t.domain != None ==> rows[id].domain != t.domain);
            var live := t.id in rows && rows[t.id].deletedAt == None;
            && (InsertTenant(rows, t).Ok? <==> t.id !in rows && free)
            && (InsertTenant(rows, t).Ok? ==> InsertTenant(rows, t).value == rows[t.id :=
                  Tenant(t.id, t.code, t.name, t.domain, t.status, t.updatedAt, None)])
            && (!live ==> ChangeTenant(rows, t, now) == Result.Ok(rows))
            && (live ==> (ChangeTenant(rows, t, now).Ok? <==> free))
            && (live && free ==> ChangeTenant(rows, t, now).value == rows[t.id :=
                  Tenant(t.id, t.code, t.name, t.domain, t.status, now, None)])
    ensures var after := SoftDeleteTenant(rows, t.id, now);
            && after.Keys == rows.Keys && (forall id | id in rows && id != t.id :: after[id] == rows[id])
            && (t.id in rows ==> after[t.id] == if rows[t.id].deletedAt == None
                  then rows[t.id].(status := 0, updatedAt := now, deletedAt := Some(now)) else rows[t.id])
  {
  }

  /** The credential statements: a new row starts unused; an update writes hash, activity, last use and
      time of the one row and leaves owner, kind and creation time alone. */
  lemma CredentialStatementsAreExact(rows: Credentials, users: Users, c: Credential, now: int)
    ensures var outcome := InsertCredential(rows, users, c);
            && (outcome.Ok? <==> c.id !in rows && c.userId in users)
            && (outcome.Ok? ==> outcome.value == rows[c.id :=
                  Credential(c.id, c.userId, c.kind, c.hash, c.isActive, None, c.createdAt, c.updatedAt)])
    ensures var after := ChangeCredential(rows, c, now);
            && after.Keys == rows.Keys && (forall id | id in rows && id != c.id :: after[id] == rows[id])
            && (c.id in rows ==>
                  && (after[c.id].hash, after[c.id].isActive, after[c.id].lastUsedAt, after[c.id].updatedAt) ==
                     (c.hash, c.isActive, c.lastUsedAt, now)
                  && (after[c.id].id, after[c.id].userId, after[c.id].kind, after[c.id].createdAt) ==
                     (rows[c.id].id, rows[c.id].userId, rows[c.id].kind, rows[c.id].createdAt))
  {
  }
}
