/** The role repository as an object, the role use cases on top of it, and what serial runs of the
    use cases keep beyond what the table constraints enforce. */
module RoleManagement {
  import opened AppErrors
  import opened Wrappers
  import opened Roles

  // ---------- The repository ----------

  predicate CodeMatches(role: Role, code: string, tenantId: Option<nat>)
  {
    role.code == code && (role.tenantId.None? || role.tenantId == tenantId)
  }

  class RoleRepo {
    var st: State

    constructor (st: State)
      ensures this.st == st
    {
      this.st := st;
    }

    method Create(role: Role, now: int) returns (failure: Option<DbError>)
      modifies this
      ensures st == Step(old(st), CreateRole(role), now)
      ensures failure == Failure(old(st), CreateRole(role), now)
    {
      if role.id in st.roles {
        return Some(DuplicateKey);
      }
      if CodeClash(st.roles, role) {
        return Some(UniqueViolation);
      }
      if !TenantKnown(st, role.tenantId) {
        return Some(ForeignKeyViolation);
      }
      st := st.(roles := st.roles[role.id := role]);
      return None;
    }

    method Update(role: Role, now: int) returns (failure: Option<DbError>)
      modifies this
      ensures st == Step(old(st), UpdateRole(role), now)
      ensures failure == Failure(old(st), UpdateRole(role), now)
    {
      if role.id in st.roles && !st.roles[role.id].isSystemDefined {
        var row := st.roles[role.id].(code := role.code, name := role.name, description := role.description,
                                      status := role.status, updatedBy := role.updatedBy, updatedAt := role.updatedAt);
        if CodeClash(st.roles, row) {
          return Some(UniqueViolation);
        }
        st := st.(roles := st.roles[role.id := row]);
      }
      return None;
    }

    /** The row goes, and by cascade the grants and assignments that point at it. */
    method Delete(id: nat, now: int)
      modifies this
      ensures st == Step(old(st), DeleteRole(id), now)
    {
      if id in st.roles && !st.roles[id].isSystemDefined {
        st := st.(roles := st.roles - {id});
        st := st.(grants := set g | g in st.grants && g.0 != id);
        st := st.(holders := map h | h in st.holders && h.1 != id :: st.holders[h]);
      }
    }

    method AssignPermission(role: nat, permission: nat, now: int) returns (failure: Option<DbError>)
      modifies this
      ensures st == Step(old(st), Statement.AssignPermission(role, permission), now)
      ensures failure == Failure(old(st), Statement.AssignPermission(role, permission), now)
    {
      if (role, permission) !in st.grants {
        if role !in st.roles || permission !in st.permissions {
          return Some(ForeignKeyViolation);
        }
        st := st.(grants := st.grants + {(role, permission)});
      }
      return None;
    }

    /** The expiry is never passed on, so an assignment made here does not expire. */
    method AssignRoleToUser(user: nat, role: nat, assignedBy: Option<nat>, now: int) returns (failure: Option<DbError>)
      modifies this
      ensures st == Step(old(st), AssignRole(user, role, assignedBy), now)
      ensures failure == Failure(old(st), AssignRole(user, role, assignedBy), now)
      ensures failure.None? ==> forall later :: Roles.Holds(st, user, role, later)
    {
      if user !in st.users || role !in st.roles {
        return Some(ForeignKeyViolation);
      }
      st := st.(holders := st.holders[(user, role) := Assignment(assignedBy, now, None)]);
      return None;
    }

    /** The user row that assignments may refer to from now on. */
    method UserInserted(user: nat, now: int)
      modifies this
      ensures st == Step(old(st), CreateUser(user), now)
    {
      st := st.(users := st.users + {user});
    }

    /** The first row the query yields; the order of several matches is the database's choice. */
    method GetByCode(code: string, tenantId: Option<nat>) returns (found: Option<Role>)
      ensures found.Some? ==>
                exists id | id in st.roles :: st.roles[id] == found.value && CodeMatches(found.value, code, tenantId)
      ensures found.None? ==> forall id | id in st.roles :: !CodeMatches(st.roles[id], code, tenantId)
    {
      if id :| id in st.roles && CodeMatches(st.roles[id], code, tenantId) {
        return Some(st.roles[id]);
      } else {
        return None;
      }
    }

    method GetByID(id: nat) returns (found: Option<Role>)
      ensures found == if id in st.roles then Some(st.roles[id]) else None
    {
      return if id in st.roles then Some(st.roles[id]) else None;
    }
  }

  function Failure(st: State, s: Statement, now: int): Option<DbError>
  {
    match Apply(st, s, now)
    case Ok(_) => None
    case Err(e) => Some(e)
  }

  // ---------- The use cases ----------

  datatype Changes = Changes(name: Option<string>, description: Option<string>, status: Option<int>,
                             updatedBy: Option<nat>)

  function Edited(role: Role, changes: Changes, now: int): Role
  {
    role.(name := if changes.name.Some? then changes.name.value else role.name,
          description := if changes.description.Some? then changes.description else role.description,
          status := if changes.status.Some? then changes.status.value else role.status,
          updatedBy := changes.updatedBy, updatedAt := now)
  }

  /** Granting a list of permissions, ignoring the ones that fail. */
  function WithGrants(st: State, role: nat, permissions: seq<nat>, now: int): State
    decreases |permissions|
  {
    if permissions == [] then st
    else WithGrants(Step(st, AssignPermission(role, permissions[0]), now), role, permissions[1..], now)
  }

  function CodeTaken(st: State, code: string, tenantId: Option<nat>): bool
  {
    exists id | id in st.roles :: CodeMatches(st.roles[id], code, tenantId)
  }

  datatype Call =
    | CreateRoleCall(role: Role, permissions: seq<nat>)
    | UpdateRoleCall(id: nat, changes: Changes)
    | DeleteRoleCall(id: nat)
    | Other(statement: Statement)   // the use cases that pass one statement through

  /** Everything except creating and updating roles passes a single statement through. */
  predicate WellFormed(call: Call)
  {
    call.Other? ==> !call.statement.CreateRole? && !call.statement.UpdateRole?
  }

  function Serve(st: State, call: Call, now: int): (State, Option<AppError>)
  {
    match call
    case CreateRoleCall(role, permissions) =>
      if CodeTaken(st, role.code, role.tenantId) then (st, Some(Conflict))
      else if Failure(st, CreateRole(role), now).Some? then (st, Some(Internal))
      else (WithGrants(Step(st, CreateRole(role), now), role.id, permissions, now), None)
    case UpdateRoleCall(id, changes) =>
      if id !in st.roles then (st, Some(NotFound))
      else if st.roles[id].isSystemDefined then (st, Some(Forbidden))
      else
        var row := Edited(st.roles[id], changes, now);
        (Step(st, UpdateRole(row), now), if Failure(st, UpdateRole(row), now).Some? then Some(Internal) else None)
    case DeleteRoleCall(id) =>
      if id !in st.roles then (st, Some(NotFound))
      else if st.roles[id].isSystemDefined then (st, Some(Forbidden))
      else (Step(st, DeleteRole(id), now), None)
    case Other(statement) =>
      (Step(st, statement, now), if Failure(st, statement, now).Some? then Some(Internal) else None)
  }

  class RoleUsecase {
    const roleRepo: RoleRepo

    constructor (roleRepo: RoleRepo)
      ensures this.roleRepo == roleRepo
    {
      this.roleRepo := roleRepo;
    }

    /** `id` is the freshly generated identifier of the new role. */
    method CreateRole(id: nat, tenantId: Option<nat>, code: string, name: string, description: Option<string>,
                      permissions: seq<nat>, createdBy: Option<nat>, now: int)
      returns (r: Result<Role, AppError>)
      modifies roleRepo
      ensures var role := Role(id, tenantId, code, name, description, false, ACTIVE, createdBy, now);
              var (after, failure) := Serve(old(roleRepo.st), CreateRoleCall(role, permissions), now);
              roleRepo.st == after && r == if failure.None? then Result.Ok(role) else Err(failure.value)
    {
      var existing := roleRepo.GetByCode(code, tenantId);
      if existing.Some? {
        return Err(Conflict);
      }
      var role := Role(id, tenantId, code, name, description, false, ACTIVE, createdBy, now);
      var failure := roleRepo.Create(role, now);
      if failure.Some? {
        return Err(Internal);
      }
      ghost var created := roleRepo.st;
      for i := 0 to |permissions|
        invariant WithGrants(created, id, permissions, now) == WithGrants(roleRepo.st, id, permissions[i..], now)
      {
        var _ := roleRepo.AssignPermission(id, permissions[i], now);
        assert permissions[i..][1..] == permissions[i + 1..];
      }
      return Result.Ok(role);
    }

    method UpdateRole(id: nat, changes: Changes, now: int) returns (failure: Option<AppError>)
      modifies roleRepo
      ensures (roleRepo.st, failure) == Serve(old(roleRepo.st), UpdateRoleCall(id, changes), now)
    {
      var found := roleRepo.GetByID(id);
      if found.None? {
        return Some(NotFound);
      }
      var role := found.value;
      if role.isSystemDefined {
        return Some(Forbidden);
      }
      if changes.name.Some? {
        role := role.(name := changes.name.value);
      }
      if changes.description.Some? {
        role := role.(description := changes.description);
      }
      if changes.status.Some? {
        role := role.(status := changes.status.value);
      }
      role := role.(updatedBy := changes.updatedBy, updatedAt := now);
      assert role == Edited(found.value, changes, now);
      var error := roleRepo.Update(role, now);
      return if error.Some? then Some(Internal) else None;
    }

    method DeleteRole(id: nat, now: int) returns (failure: Option<AppError>)
      modifies roleRepo
      ensures (roleRepo.st, failure) == Serve(old(roleRepo.st), DeleteRoleCall(id), now)
    {
      var found := roleRepo.GetByID(id);
      if found.None? {
        return Some(NotFound);
      }
      if found.value.isSystemDefined {
        return Some(Forbidden);
      }
      roleRepo.Delete(id, now);
      return None;
    }
  }

  // ---------- Codes stay unique over serial runs ----------

  function RunCalls(st: State, calls: seq<(Call, int)>): State
    decreases |calls|
  {
    if calls == [] then st else RunCalls(Serve(st, calls[0].0, calls[0].1).0, calls[1..])
  }

  /** No two roles share tenant and code, with the missing tenant counted as a value of its own. */
  ghost predicate CodesUnique(st: State)
  {
    && (forall id | id in st.roles :: st.roles[id].id == id)
    && forall i, j | i in st.roles && j in st.roles && i != j ::
         st.roles[i].tenantId != st.roles[j].tenantId || st.roles[i].code != st.roles[j].code
  }

  lemma {:induction false} GrantsLeaveRoles(st: State, role: nat, permissions: seq<nat>, now: int)
    ensures WithGrants(st, role, permissions, now).roles == st.roles
    decreases |permissions|
  {
    if permissions != [] {
      GrantsLeaveRoles(Step(st, AssignPermission(role, permissions[0]), now), role, permissions[1..], now);
    }
  }

  lemma ServeKeepsCodesUnique(st: State, call: Call, now: int)
    requires CodesUnique(st) && WellFormed(call)
    ensures CodesUnique(Serve(st, call, now).0)
  {
    match call
    case CreateRoleCall(role, permissions) =>
      CreationKeepsUnique(st, role, permissions, now);
    case UpdateRoleCall(id, changes) =>
      if id in st.roles {
        EditKeepsUnique(st, st.roles[id], changes, now);
      }
    case DeleteRoleCall(id) =>
      PassThroughKeepsUnique(st, DeleteRole(id), now);
    case Other(statement) =>
      PassThroughKeepsUnique(st, statement, now);
  }

  lemma CreationKeepsUnique(st: State, role: Role, permissions: seq<nat>, now: int)
    requires CodesUnique(st)
    ensures CodesUnique(Serve(st, CreateRoleCall(role, permissions), now).0)
  {
    if !CodeTaken(st, role.code, role.tenantId) {
      NewCodeKeepsUnique(st, role, now);
      GrantsLeaveRoles(Step(st, CreateRole(role), now), role.id, permissions, now);
    }
  }

  lemma PassThroughKeepsUnique(st: State, s: Statement, now: int)
    requires CodesUnique(st) && !s.CreateRole? && !s.UpdateRole?
    ensures CodesUnique(Step(st, s, now))
  {
  }

  lemma NewCodeKeepsUnique(st: State, role: Role, now: int)
    requires CodesUnique(st) && !CodeTaken(st, role.code, role.tenantId)
    ensures CodesUnique(Step(st, CreateRole(role), now))
  {
  }

  /** An edit leaves the code and the tenant of the row alone. */
  lemma EditKeepsUnique(st: State, role: Role, changes: Changes, now: int)
    requires CodesUnique(st) && role.id in st.roles && st.roles[role.id] == role
    ensures CodesUnique(Step(st, UpdateRole(Edited(role, changes, now)), now))
  {
  }

  lemma {:induction false} SerialRunsKeepCodesUnique(st: State, calls: seq<(Call, int)>)
    requires CodesUnique(st) && forall i | 0 <= i < |calls| :: WellFormed(calls[i].0)
    ensures CodesUnique(RunCalls(st, calls))
    decreases |calls|
  {
    if calls != [] {
      ServeKeepsCodesUnique(st, calls[0].0, calls[0].1);
      SerialRunsKeepCodesUnique(Serve(st, calls[0].0, calls[0].1).0, calls[1..]);
    }
  }

  function SeedRole(id: nat, code: string, name: string, description: string): Role
  {
    Role(id, None, code, name, Some(description), true, ACTIVE, None, 0)
  }

  /** The roles the migration inserts. */
  const SEED_ROLES: map<nat, Role> := map[
    0x10 := SeedRole(0x10, "ROLE_SUPER_ADMIN", "Super Admin", "Full system access"),
    0x20 := SeedRole(0x20, "ROLE_ADMIN", "Administrator", "Tenant administrator"),
    0x30 := SeedRole(0x30, "ROLE_USER", "User", "Standard user"),
    0x40 := SeedRole(0x40, "ROLE_TENANT_ADMIN", "Tenant Admin", "Tenant-specific admin"),
    0x50 := SeedRole(0x50, "ROLE_TENANT_MANAGER", "Tenant Manager", "Tenant manager")
  ]

  const SYSTEM_TENANT: nat := 0x01

  const SEED := State(SEED_ROLES, map[], {}, map[], {}, {SYSTEM_TENANT})

  function SeedCodeLength(id: nat): nat
  {
    if id == 0x10 then 16 else if id == 0x20 then 10 else if id == 0x30 then 9 else if id == 0x40 then 17 else 19
  }

  lemma SeedRow(id: nat)
    requires id in SEED_ROLES
    ensures SEED_ROLES[id].id == id && SEED_ROLES[id].tenantId == None
    ensures |SEED_ROLES[id].code| == SeedCodeLength(id)
    ensures id in {0x10, 0x20, 0x30, 0x40, 0x50}
  {
  }

  lemma SeedCodesUnique()
    ensures CodesUnique(SEED) && Intact(SEED)
  {
    var roles := SEED.roles;
    forall id | id in roles
      ensures roles[id].id == id && roles[id].tenantId == None && |roles[id].code| == SeedCodeLength(id)
      ensures id in {0x10, 0x20, 0x30, 0x40, 0x50}
    {
      SeedRow(id);
    }
    forall i, j | i in roles && j in roles && i != j
      ensures roles[i].code != roles[j].code
    {
      assert SeedCodeLength(i) != SeedCodeLength(j);
    }
  }

  ghost function MatchingIds(st: State, code: string, tenantId: Option<nat>): set<nat>
  {
    set id | id in st.roles && CodeMatches(st.roles[id], code, tenantId)
  }

  lemma MatchesBounded(st: State, code: string, tenantId: Option<nat>)
    requires CodesUnique(st)
    ensures |MatchingIds(st, code, tenantId)| <= if tenantId.None? then 1 else 2
  {
    var global, own := MatchesOf(st, code, tenantId, None), MatchesOf(st, code, tenantId, tenantId);
    AtMostOne(global);
    AtMostOne(own);
    if tenantId.None? {
      assert MatchingIds(st, code, tenantId) == global;
    } else {
      assert MatchingIds(st, code, tenantId) == global + own;
    }
  }

  ghost function MatchesOf(st: State, code: string, tenantId: Option<nat>, owner: Option<nat>): set<nat>
  {
    set id | id in MatchingIds(st, code, tenantId) && st.roles[id].tenantId == owner
  }

  lemma AtMostOne(s: set<nat>)
    requires forall i, j | i in s && j in s :: i == j
    ensures |s| <= 1
  {
    if s != {} {
      var x :| x in s;
      assert s == {x};
    }
  }

  /** From the seed, after any serial run: a lookup by code matches at most one role without a
      tenant, and at most two with one. */
  lemma LookupByCodeIsBounded(calls: seq<(Call, int)>, code: string, tenantId: Option<nat>)
    requires forall i | 0 <= i < |calls| :: WellFormed(calls[i].0)
    ensures CodesUnique(RunCalls(SEED, calls))
    ensures |MatchingIds(RunCalls(SEED, calls), code, tenantId)| <= if tenantId.None? then 1 else 2
  {
    SeedCodesUnique();
    SerialRunsKeepCodesUnique(SEED, calls);
    MatchesBounded(RunCalls(SEED, calls), code, tenantId);
  }

  /** Two matches do occur, for every tenant there is: it may create a code first and the global role of
      that code follow. */
  lemma TwoMatchesOccur(st: State, code: string, tenant: nat, own: Role, global: Role, now: int)
    requires own.id != global.id && own.id !in st.roles && global.id !in st.roles
    requires own.code == global.code == code && own.tenantId == Some(tenant) && global.tenantId == None
    requires !CodeTaken(st, code, Some(tenant))
    ensures var after := RunCalls(st, [(CreateRoleCall(own, []), now), (CreateRoleCall(global, []), now)]);
            {own.id, global.id} <= MatchingIds(after, code, Some(tenant)) <==> tenant in st.tenants
  {
    var calls := [(CreateRoleCall(own, []), now), (CreateRoleCall(global, []), now)];
    var first := Serve(st, calls[0].0, now).0;
    assert first == if tenant in st.tenants then st.(roles := st.roles[own.id := own]) else st;
    assert calls[1..] == [(CreateRoleCall(global, []), now)];
    var second := Serve(first, calls[1].0, now).0;
    assert !CodeTaken(first, code, None);
    assert second == first.(roles := first.roles[global.id := global]);
    assert RunCalls(second, []) == second;
    assert RunCalls(first, calls[1..]) == RunCalls(second, []) by { assert calls[1..][1..] == []; }
  }

  /** Two creations that both pass the code check before either inserts: the first goes through if its
      tenant exists, and the second, leaving a duplicate, exactly when the role has no tenant. */
  lemma InterleavedCreationsDuplicate(st: State, first: Role, second: Role, now: int)
    requires first.id != second.id && first.id !in st.roles && second.id !in st.roles
    requires first.code == second.code && first.tenantId == second.tenantId
    requires !CodeTaken(st, first.code, first.tenantId)
    ensures var after := Run(st, [(CreateRole(first), now), (CreateRole(second), now)]);
            (first.id in after.roles <==> TenantKnown(st, first.tenantId)) &&
            (second.id in after.roles <==> first.tenantId == None)
  {
    var run := [(CreateRole(first), now), (CreateRole(second), now)];
    var one := Step(st, CreateRole(first), now);
    assert one == if TenantKnown(st, first.tenantId) then st.(roles := st.roles[first.id := first]) else st;
    var two := Step(one, CreateRole(second), now);
    assert run[1..] == [(CreateRole(second), now)] && run[1..][1..] == [];
    assert Run(two, []) == two && Run(one, run[1..]) == two;
  }

  // ---------- Use cases and the statement-level guarantees ----------

  /** The use cases issue only statements, so the statement-level invariant carries over. */
  lemma {:induction false} GrantsKeepIntact(st: State, role: nat, permissions: seq<nat>, now: int)
    requires Intact(st)
    ensures Intact(WithGrants(st, role, permissions, now))
    decreases |permissions|
  {
    if permissions != [] {
      StepKeepsIntact(st, AssignPermission(role, permissions[0]), now);
      GrantsKeepIntact(Step(st, AssignPermission(role, permissions[0]), now), role, permissions[1..], now);
    }
  }

  lemma {:induction false} CallsKeepIntact(st: State, calls: seq<(Call, int)>)
    requires Intact(st)
    ensures Intact(RunCalls(st, calls))
    decreases |calls|
  {
    if calls != [] {
      var call, now := calls[0].0, calls[0].1;
      match call {
        case CreateRoleCall(role, permissions) =>
          StepKeepsIntact(st, CreateRole(role), now);
          GrantsKeepIntact(Step(st, CreateRole(role), now), role.id, permissions, now);
        case UpdateRoleCall(id, changes) =>
          if id in st.roles { StepKeepsIntact(st, UpdateRole(Edited(st.roles[id], changes, now)), now); }
        case DeleteRoleCall(id) =>
          StepKeepsIntact(st, DeleteRole(id), now);
        case Other(statement) =>
          StepKeepsIntact(st, statement, now);
      }
      CallsKeepIntact(Serve(st, call, now).0, calls[1..]);
    }
  }

  // ---------- What a creation grants, and what the calls write ----------

  lemma {:induction false} GrantsAreExact(st: State, role: nat, permissions: seq<nat>, now: int)
    requires role in st.roles
    ensures var after := WithGrants(st, role, permissions, now);
            && after == st.(grants := after.grants)
            && (forall r, p :: (r, p) in after.grants <==>
                  (r, p) in st.grants || (r == role && p in permissions && p in st.permissions))
    decreases |permissions|
  {
    if permissions != [] {
      var next := Step(st, AssignPermission(role, permissions[0]), now);
      GrantsAreExact(next, role, permissions[1..], now);
      assert forall p :: p in permissions <==> p == permissions[0] || p in permissions[1..];
    }
  }

  /** A creation succeeds exactly if no role of the code is the tenant's or global, the id is new and the
      tenant exists; it then adds the role and grants it exactly the requested permissions that exist,
      nothing else changing. A creation that fails changes nothing. */
  lemma CreationIsExact(st: State, role: Role, permissions: seq<nat>, now: int)
    ensures var (after, failure) := Serve(st, CreateRoleCall(role, permissions), now);
            var taken := exists id | id in st.roles :: st.roles[id].code == role.code &&
                           (st.roles[id].tenantId == None || st.roles[id].tenantId == role.tenantId);
            && (failure == Some(Conflict) <==> taken)
            && (failure == None <==>
                  && !taken && role.id !in st.roles
                  && (role.tenantId == None || role.tenantId.value in st.tenants))
            && (failure == None || failure == Some(Conflict) || failure == Some(Internal))
            && (failure != None ==> after == st)
            && (failure == None ==>
                  && after == st.(roles := st.roles[role.id := role], grants := after.grants)
                  && (forall r, p :: (r, p) in after.grants <==>
                        (r, p) in st.grants || (r == role.id && p in permissions && p in st.permissions)))
  {
    var created := Step(st, CreateRole(role), now);
    if role.id in created.roles {
      GrantsAreExact(created, role.id, permissions, now);
    }
    assert CodeTaken(st, role.code, role.tenantId) <==>
             exists id | id in st.roles :: st.roles[id].code == role.code &&
               (st.roles[id].tenantId == None || st.roles[id].tenantId == role.tenantId);
    assert CodeClash(st.roles, role) ==> CodeTaken(st, role.code, role.tenantId);
  }

  /** After a grant succeeds, everyone who holds the role without expiry passed reaches the permission, and
      no other pair has come or gone; it fails exactly if the pair is new and one end does not exist. */
  lemma GrantTakesEffect(st: State, role: nat, permission: nat, now: int)
    ensures var after := Step(st, AssignPermission(role, permission), now);
            var failed := Failure(st, AssignPermission(role, permission), now).Some?;
            && (failed <==> (role, permission) !in st.grants && (role !in st.roles || permission !in st.permissions))
            && (failed ==> after == st)
            && (!failed ==>
                  && after == st.(grants := st.grants + {(role, permission)})
                  && forall user, later | (user, role) in st.holders &&
                       (st.holders[(user, role)].expiresAt == None || st.holders[(user, role)].expiresAt.value > later) ::
                         Reaches(after, user, permission, later))
  {
    var after := Step(st, AssignPermission(role, permission), now);
    if Failure(st, AssignPermission(role, permission), now).None? {
      assert after.grants == st.grants + {(role, permission)};
      forall user, later | (user, role) in st.holders &&
        (st.holders[(user, role)].expiresAt == None || st.holders[(user, role)].expiresAt.value > later)
        ensures Reaches(after, user, permission, later)
      {
        assert Holds(after, user, role, later) && (role, permission) in after.grants;
      }
    }
  }

  /** An edit of a role that is not system-defined writes the columns asked for, who and when, and nothing
      else; code, tenant and every other row stay. It fails only for a missing or a system-defined role. */
  lemma EditIsExact(st: State, id: nat, changes: Changes, now: int)
    requires CodesUnique(st)
    ensures var (after, failure) := Serve(st, UpdateRoleCall(id, changes), now);
            && (failure == Some(NotFound) <==> id !in st.roles)
            && (failure == Some(Forbidden) <==> id in st.roles && st.roles[id].isSystemDefined)
            && (failure == None <==> id in st.roles && !st.roles[id].isSystemDefined)
            && (failure != None ==> after == st)
            && (failure == None ==>
                  var old_, new_ := st.roles[id], after.roles[id];
                  && after == st.(roles := st.roles[id := new_])
                  && (new_.id, new_.tenantId, new_.code, new_.isSystemDefined) ==
                     (old_.id, old_.tenantId, old_.code, old_.isSystemDefined)
                  && new_.name == (match changes.name case Some(name) => name case None => old_.name)
                  && new_.description == (if changes.description == None then old_.description else changes.description)
                  && new_.status == (match changes.status case Some(status) => status case None => old_.status)
                  && new_.updatedBy == changes.updatedBy && new_.updatedAt == now)
  {
    if id in st.roles && !st.roles[id].isSystemDefined {
      var row := Edited(st.roles[id], changes, now);
      assert row.id == id && row.tenantId == st.roles[id].tenantId && row.code == st.roles[id].code;
      assert !CodeClash(st.roles, row);
    }
  }

  /** A deletion takes the role that is not system-defined with all its grants and holders, and fails only
      for a missing or a system-defined role. */
  lemma DeletionIsExact(st: State, id: nat, now: int)
    ensures var (after, failure) := Serve(st, DeleteRoleCall(id), now);
            && (failure == Some(NotFound) <==> id !in st.roles)
            && (failure == Some(Forbidden) <==> id in st.roles && st.roles[id].isSystemDefined)
            && (failure == None || failure == Some(NotFound) || failure == Some(Forbidden))
            && (failure != None ==> after == st)
            && (failure == None ==>
                  && id !in after.roles && (forall other | other != id :: other in after.roles <==> other in st.roles)
                  && (forall other | other in after.roles :: after.roles[other] == st.roles[other])
                  && (forall r, p :: (r, p) in after.grants <==> (r, p) in st.grants && r != id)
                  && (forall u, r :: (u, r) in after.holders <==> (u, r) in st.holders && r != id)
                  && (forall h | h in after.holders :: after.holders[h] == st.holders[h])
                  && after.permissions == st.permissions && after.users == st.users && after.tenants == st.tenants)
  {
  }
}
