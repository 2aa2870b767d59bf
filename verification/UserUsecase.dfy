/** The user-management use cases: creation by an administrator, editing and soft deletion. */
module UserUsecase {
  import opened AppErrors
  import opened Wrappers
  import A = Accounts
  import R = Roles
  import AuthAnswers
  import AuthUsecase
  import RoleManagement

  /** The password of a new user: none, hashed, or one bcrypt refuses. */
  datatype Secret = NoPassword | Hashed(hash: string) | Unhashable

  datatype NewUser = NewUser(tenantId: nat, fullName: string, email: string, username: string, status: int,
                             secret: Secret, roles: seq<nat>, createdBy: Option<nat>)

  datatype Changes = Changes(fullName: Option<string>, email: Option<string>, status: Option<int>)

  /** Status 0 is read as unset. */
  function RowOf(id: nat, req: NewUser, now: int): A.User
  {
    A.User(id, req.tenantId, req.fullName, req.email, req.username,
           if req.status == A.BLOCKED then A.ACTIVE else req.status, None, now, None)
  }

  function Edited(u: A.User, changes: Changes, now: int): A.User
  {
    u.(fullName := if changes.fullName.Some? then changes.fullName.value else u.fullName,
       email := if changes.email.Some? then changes.email.value else u.email,
       status := if changes.status.Some? then changes.status.value else u.status,
       updatedAt := now)
  }

  /** Assigning a list of roles, ignoring the ones that fail. */
  function WithRoles(st: R.State, user: nat, roles: seq<nat>, admin: Option<nat>, now: int): R.State
    decreases |roles|
  {
    if roles == [] then st
    else WithRoles(R.Step(st, R.AssignRole(user, roles[0], admin), now), user, roles[1..], admin, now)
  }

  function CreationRefusal(tenants: A.Tenants, users: A.Users, id: nat, req: NewUser, now: int): Option<AppError>
  {
    var objection := AuthUsecase.Objection(tenants, users, req.tenantId, req.email, req.username);
    if objection.Some? then objection
    else if A.InsertUser(users, tenants, RowOf(id, req, now)).Err? then Some(Internal)
    else None
  }

  function WithCredential(rows: A.Credentials, id: nat, user: nat, secret: Secret, now: int): A.Credentials
  {
    if secret.Hashed?
    then rows[id := A.Credential(id, user, A.PASSWORD, Some(secret.hash), true, None, now, now)]
    else rows
  }

  predicate SecretFails(rows: A.Credentials, id: nat, secret: Secret)
  {
    secret.Unhashable? || (secret.Hashed? && id in rows)
  }

  predicate Live(users: A.Users, id: nat) { id in users && users[id].deletedAt.None? }

  function Updated(users: A.Users, id: nat, changes: Changes, now: int): (A.Users, Option<AppError>)
  {
    if !Live(users, id) then (users, Some(NotFound))
    else
      match A.ChangeUser(users, Edited(users[id], changes, now), now)
      case Ok(after) => (after, None)
      case Err(_) => (users, Some(Internal))
  }

  class UserUsecase {
    const userRepo: A.UserRepo
    const roleRepo: RoleManagement.RoleRepo
    const tenantRepo: A.TenantRepo

    constructor (userRepo: A.UserRepo, roleRepo: RoleManagement.RoleRepo, tenantRepo: A.TenantRepo)
      ensures this.userRepo == userRepo && this.roleRepo == roleRepo && this.tenantRepo == tenantRepo
    {
      this.userRepo, this.roleRepo, this.tenantRepo := userRepo, roleRepo, tenantRepo;
    }

    /** A failing password leaves the user row behind; failing role assignments are ignored. */
    method CreateUser(id: nat, credentialId: nat, req: NewUser, now: int) returns (r: Result<A.User, AppError>)
      requires A.Keyed(tenantRepo.rows, userRepo.rows)
      modifies userRepo, roleRepo
      ensures
        match CreationRefusal(tenantRepo.rows, old(userRepo.rows), id, req, now)
        case Some(e) =>
          userRepo.rows == old(userRepo.rows) && userRepo.credentials == old(userRepo.credentials) &&
          roleRepo.st == old(roleRepo.st) && r == Err(e)
        case None =>
          var noted := R.Step(old(roleRepo.st), R.CreateUser(id), now);
          userRepo.rows == old(userRepo.rows)[id := RowOf(id, req, now)] &&
          if SecretFails(old(userRepo.credentials), credentialId, req.secret) then
            userRepo.credentials == old(userRepo.credentials) && roleRepo.st == noted && r == Err(Internal)
          else
            userRepo.credentials == WithCredential(old(userRepo.credentials), credentialId, id, req.secret, now) &&
            roleRepo.st == WithRoles(noted, id, req.roles, req.createdBy, now) && r == Result.Ok(RowOf(id, req, now))
    {
      var objection := Check(req);
      if objection.Some? {
        return Err(objection.value);
      }
      var user := RowOf(id, req, now);
      var failure := userRepo.Create(user, tenantRepo.rows);
      if failure.Some? {
        return Err(Internal);
      }
      roleRepo.UserInserted(id, now);
      if req.secret.Unhashable? {
        return Err(Internal);
      }
      if req.secret.Hashed? {
        failure := userRepo.CreateCredential(
          A.Credential(credentialId, id, A.PASSWORD, Some(req.secret.hash), true, None, now, now));
        if failure.Some? {
          return Err(Internal);
        }
      }
      AssignRoles(id, req.roles, req.createdBy, now);
      return Result.Ok(user);
    }

    method Check(req: NewUser) returns (objection: Option<AppError>)
      requires A.Keyed(tenantRepo.rows, userRepo.rows)
      ensures objection == AuthUsecase.Objection(tenantRepo.rows, userRepo.rows, req.tenantId, req.email, req.username)
    {
      var tenant := tenantRepo.Find(A.TenantById(req.tenantId));
      if tenant.None? {
        return Some(NotFound);
      }
      if tenant.value.status != A.ACTIVE {
        return Some(TenantInactive);
      }
      var existing := userRepo.Find(A.ByEmailAndTenant(req.email, req.tenantId));
      if existing.Some? {
        return Some(Conflict);
      }
      existing := userRepo.Find(A.ByUsername(req.username));
      return if existing.Some? then Some(Conflict) else None;
    }

    method AssignRoles(user: nat, roles: seq<nat>, admin: Option<nat>, now: int)
      modifies roleRepo
      ensures roleRepo.st == WithRoles(old(roleRepo.st), user, roles, admin, now)
    {
      for i := 0 to |roles|
        invariant WithRoles(old(roleRepo.st), user, roles, admin, now) ==
                  WithRoles(roleRepo.st, user, roles[i..], admin, now)
      {
        var _ := roleRepo.AssignRoleToUser(user, roles[i], admin, now);
        assert roles[i..][1..] == roles[i + 1..];
      }
    }

    method UpdateUser(id: nat, changes: Changes, now: int) returns (failure: Option<AppError>)
      requires A.Keyed(tenantRepo.rows, userRepo.rows)
      modifies userRepo
      ensures (userRepo.rows, failure) == Updated(old(userRepo.rows), id, changes, now)
      ensures userRepo.credentials == old(userRepo.credentials)
    {
      var found := userRepo.Find(A.ById(id));
      if found.None? {
        return Some(NotFound);
      }
      var user := found.value;
      if changes.fullName.Some? {
        user := user.(fullName := changes.fullName.value);
      }
      if changes.email.Some? {
        user := user.(email := changes.email.value);
      }
      if changes.status.Some? {
        user := user.(status := changes.status.value);
      }
      user := user.(updatedAt := now);
      assert user == Edited(userRepo.rows[id], changes, now);
      var error := userRepo.Update(user, now);
      return if error.Some? then Some(Internal) else None;
    }

    method DeleteUser(id: nat, now: int) returns (failure: Option<AppError>)
      requires A.Keyed(tenantRepo.rows, userRepo.rows)
      modifies userRepo
      ensures userRepo.rows == A.SoftDeleteUser(old(userRepo.rows), id, now)
      ensures failure == if Live(old(userRepo.rows), id) then None else Some(NotFound)
      ensures userRepo.credentials == old(userRepo.credentials)
    {
      var found := userRepo.Find(A.ById(id));
      if found.None? {
        return Some(NotFound);
      }
      userRepo.Delete(id, now);
      return None;
    }
  }

  // ---------- Roles given at creation ----------

  /** A new user holds exactly the requested roles that exist, without expiry. */
  lemma {:induction false} RequestedRolesHeld(st: R.State, user: nat, roles: seq<nat>, admin: Option<nat>,
                                              now: int, later: int)
    requires user in st.users && forall h | h in st.holders :: h.0 != user || h.1 in st.roles
    ensures var after := WithRoles(st, user, roles, admin, now);
            && after.roles == st.roles && after.grants == st.grants && after.users == st.users
            && (forall role :: R.Holds(after, user, role, later) <==>
                  (role in roles && role in st.roles) || R.Holds(st, user, role, later))
            && (forall other, role | other != user ::
                  R.Holds(after, other, role, later) <==> R.Holds(st, other, role, later))
    decreases |roles|
  {
    if roles != [] {
      var next := R.Step(st, R.AssignRole(user, roles[0], admin), now);
      RequestedRolesHeld(next, user, roles[1..], admin, now, later);
      assert forall role :: role in roles <==> role == roles[0] || role in roles[1..];
    }
  }

  // ---------- Names and emails ----------

  /** Editing keeps the username, so in every state the statements can reach it never meets the
      unique index: it succeeds exactly for users that are not deleted. */
  lemma UpdatesNeverClash(st: A.State, id: nat, changes: Changes, now: int)
    requires A.Invariant(st)
    ensures Updated(st.users, id, changes, now).1 == if Live(st.users, id) then None else Some(NotFound)
    ensures A.Invariant(st.(users := Updated(st.users, id, changes, now).0))
  {
    if Live(st.users, id) {
      A.StepKeepsInvariant(st, A.UpdateUser(Edited(st.users[id], changes, now)), now);
    }
  }

  /** Deleting a user frees the username at once: nobody not deleted has it any more. */
  lemma DeletionFreesUsername(st: A.State, id: nat, now: int)
    requires A.Invariant(st) && Live(st.users, id)
    ensures !AuthUsecase.LiveMatch(A.SoftDeleteUser(st.users, id, now), A.ByUsername(st.users[id].username))
  {
  }

  /** Among users not deleted, an email names at most one per tenant. */
  ghost predicate EmailsUnique(users: A.Users)
  {
    forall i, j | i in users && j in users && i != j && users[i].deletedAt.None? && users[j].deletedAt.None? ::
      !(users[i].tenantId == users[j].tenantId && users[i].email == users[j].email)
  }

  lemma CreationKeepsEmailsUnique(tenants: A.Tenants, users: A.Users, id: nat, req: NewUser, now: int)
    requires A.Keyed(tenants, users) && EmailsUnique(users)
    requires CreationRefusal(tenants, users, id, req, now).None?
    ensures EmailsUnique(users[id := RowOf(id, req, now)])
  {
    forall other | other in users && users[other].deletedAt.None?
      ensures !(users[other].tenantId == req.tenantId && users[other].email == req.email)
    {
      assert !A.UserSelected(users[other], A.ByEmailAndTenant(req.email, req.tenantId));
    }
  }

  /** Editing does not check the email: uniqueness survives exactly when the check the creation makes
      would have passed against the other users. */
  lemma UpdateKeepsEmailsUniqueIff(st: A.State, id: nat, changes: Changes, now: int)
    requires A.Invariant(st) && EmailsUnique(st.users) && Live(st.users, id)
    ensures EmailsUnique(Updated(st.users, id, changes, now).0) <==>
            changes.email.None? ||
            !AuthUsecase.LiveMatch(st.users - {id}, A.ByEmailAndTenant(changes.email.value, st.users[id].tenantId))
  {
    UpdatesNeverClash(st, id, changes, now);
    var after := Updated(st.users, id, changes, now).0;
    var row := Edited(st.users[id], changes, now);
    assert after == st.users[id := st.users[id].(fullName := row.fullName, email := row.email,
                                                 username := row.username, status := row.status, updatedAt := now)];
    assert forall other | other in st.users && other != id :: after[other] == st.users[other];
    if changes.email.Some? {
      EmailTaken(st.users, after, id, changes.email.value);
    }
  }

  /** When only one live row's email has changed, the clashes are those with its new email. */
  lemma EmailTaken(before: A.Users, after: A.Users, id: nat, email: string)
    requires EmailsUnique(before) && Live(before, id) && after.Keys == before.Keys
    requires forall other | other in before && other != id :: after[other] == before[other]
    requires after[id].email == email && after[id].deletedAt.None? && after[id].tenantId == before[id].tenantId
    ensures EmailsUnique(after) <==> !AuthUsecase.LiveMatch(before - {id}, A.ByEmailAndTenant(email, before[id].tenantId))
  {
    var key := A.ByEmailAndTenant(email, before[id].tenantId);
    if other :| other in before - {id} && A.UserSelected((before - {id})[other], key) {
      assert after[other] == before[other];
      assert !EmailsUnique(after);
    }
    if !EmailsUnique(after) {
      var i, j :| i in after && j in after && i != j && after[i].deletedAt.None? && after[j].deletedAt.None? &&
                  after[i].tenantId == after[j].tenantId && after[i].email == after[j].email;
      assert i == id || j == id;
      var other := if i == id then j else i;
      assert A.UserSelected((before - {id})[other], key);
    }
  }

  // ---------- What the calls answer and write ----------

  /** A creation is refused by the checks it shares with registration, or internally for an id in use; the row
      it would add carries the request's own fields, with status 0, the blocked one, read as active. */
  lemma CreationIsExact(tenants: A.Tenants, users: A.Users, id: nat, req: NewUser, now: int)
    ensures var refusal := CreationRefusal(tenants, users, id, req, now);
            var present := req.tenantId in tenants && tenants[req.tenantId].deletedAt == None;
            var open := present && tenants[req.tenantId].status == 1;
            var taken := AuthAnswers.EmailTaken(users, req.tenantId, req.email) ||
                         AuthAnswers.UsernameTaken(users, req.username);
            && (refusal == Some(NotFound) <==> !present)
            && (refusal == Some(TenantInactive) <==> present && !open)
            && (refusal == Some(Conflict) <==> open && taken)
            && (refusal == Some(Internal) <==> open && !taken && id in users)
            && (refusal == None <==> open && !taken && id !in users)
    ensures RowOf(id, req, now) == A.User(id, req.tenantId, req.fullName, req.email, req.username,
                                          if req.status == 0 then 1 else req.status, None, now, None)
  {
    AuthAnswers.ChecksAreExact(tenants, users, req.tenantId, req.email, req.username);
    assert A.UsernameClash(users, RowOf(id, req, now)) ==> AuthAnswers.UsernameTaken(users, req.username);
  }

  /** The password of a new user: stored active under the fresh id, absent if none was given, and a failure
      exactly for one that cannot be hashed or an id in use. */
  lemma PasswordIsStored(rows: A.Credentials, id: nat, user: nat, secret: Secret, now: int)
    ensures SecretFails(rows, id, secret) <==> secret == Unhashable || (secret != NoPassword && id in rows)
    ensures !SecretFails(rows, id, secret) ==>
              WithCredential(rows, id, user, secret, now) ==
              match secret
              case NoPassword => rows
              case Hashed(hash) => rows[id := A.Credential(id, user, "PASSWORD", Some(hash), true, None, now, now)]
              case Unhashable => map[]
  {
  }

  /** An edit writes what is asked for and the time, and nothing else of the row or the table; it fails for
      users that are missing or deleted only. */
  lemma EditIsExact(st: A.State, id: nat, changes: Changes, now: int)
    requires A.Invariant(st)
    ensures var (after, failure) := Updated(st.users, id, changes, now);
            var live := id in st.users && st.users[id].deletedAt == None;
            && (failure == None <==> live) && (failure == Some(NotFound) <==> !live)
            && (!live ==> after == st.users)
            && (live ==>
                  && after.Keys == st.users.Keys
                  && (forall other | other in st.users && other != id :: after[other] == st.users[other])
                  && var old_, new_ := st.users[id], after[id];
                     && new_.fullName == (match changes.fullName case Some(name) => name case None => old_.fullName)
                     && new_.email == (match changes.email case Some(email) => email case None => old_.email)
                     && new_.status == (match changes.status case Some(status) => status case None => old_.status)
                     && new_.updatedAt == now
                     && (new_.id, new_.tenantId, new_.username, new_.lastLoginAt, new_.deletedAt) ==
                        (old_.id, old_.tenantId, old_.username, old_.lastLoginAt, old_.deletedAt))
  {
    UpdatesNeverClash(st, id, changes, now);
  }
}
