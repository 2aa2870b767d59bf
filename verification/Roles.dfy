/** Roles, permissions and who holds them: four tables with their keys, foreign keys and cascades,
    the statements issued on them, and the joins that compute a user's roles and permissions. */
module Roles {
  import opened Basics
  import opened Wrappers

  const ACTIVE := 1     // role status
  const INACTIVE := 0

  datatype Role = Role(id: nat, tenantId: Option<nat>, code: string, name: string, description: Option<string>,
                       isSystemDefined: bool, status: int, updatedBy: Option<nat>, updatedAt: int)

  datatype Permission = Permission(id: nat, resource: string, action: string)

  datatype Assignment = Assignment(assignedBy: Option<nat>, assignedAt: int, expiresAt: Option<int>)

  /** `grants` is role_permissions by (role, permission), `holders` is user_roles by (user, role); `users`
      and `tenants` are the ids the foreign keys refer to. */
  datatype State = State(roles: map<nat, Role>, permissions: map<nat, Permission>,
                         grants: set<(nat, nat)>, holders: map<(nat, nat), Assignment>, users: set<nat>,
                         tenants: set<nat>)

  datatype DbError = DuplicateKey | UniqueViolation | ForeignKeyViolation

  // ---------- Statements ----------

  /** UNIQUE(tenant_id, code): in SQL a NULL tenant equals no other, so it never clashes. */
  predicate CodeClash(roles: map<nat, Role>, role: Role)
  {
    role.tenantId.Some? &&
    exists id | id in roles && id != role.id :: roles[id].tenantId == role.tenantId && roles[id].code == role.code
  }

  /** tenant_id REFERENCES tenants(id), when it is not NULL. */
  predicate TenantKnown(st: State, tenantId: Option<nat>)
  {
    tenantId.None? || tenantId.value in st.tenants
  }

  datatype Statement =
    | CreateRole(role: Role)
    | UpdateRole(role: Role)
    | DeleteRole(id: nat)
    | CreatePermission(permission: Permission)
    | AssignPermission(role_: nat, permission_: nat)
    | RemovePermission(role_: nat, permission_: nat)
    | AssignRole(user: nat, role_: nat, assignedBy: Option<nat>)
    | RemoveRole(user: nat, role_: nat)
    | CreateUser(user: nat)
    | CreateTenant(tenant: nat)

  function Apply(st: State, s: Statement, now: int): Result<State, DbError>
  {
    match s
    case CreateRole(role) =>
      if role.id in st.roles then Err(DuplicateKey)
      else if CodeClash(st.roles, role) then Err(UniqueViolation)
      else if !TenantKnown(st, role.tenantId) then Err(ForeignKeyViolation)
      else Result.Ok(st.(roles := st.roles[role.id := role]))
    case UpdateRole(role) =>
      if role.id !in st.roles || st.roles[role.id].isSystemDefined then Result.Ok(st)
      else
        var row := st.roles[role.id].(code := role.code, name := role.name, description := role.description,
                                      status := role.status, updatedBy := role.updatedBy, updatedAt := role.updatedAt);
        if CodeClash(st.roles, row) then Err(UniqueViolation)
        else Result.Ok(st.(roles := st.roles[role.id := row]))
    case DeleteRole(id) =>
      if id !in st.roles || st.roles[id].isSystemDefined then Result.Ok(st)
      else Result.Ok(st.(roles := st.roles - {id},
                         grants := (set g | g in st.grants && g.0 != id),
                         holders := (map h | h in st.holders && h.1 != id :: st.holders[h])))
    case CreatePermission(p) =>
      if p.id in st.permissions then Err(DuplicateKey)
      else if exists id | id in st.permissions ::
                st.permissions[id].resource == p.resource && st.permissions[id].action == p.action
        then Err(UniqueViolation)
      else Result.Ok(st.(permissions := st.permissions[p.id := p]))
    case AssignPermission(role, permission) =>
      if (role, permission) in st.grants then Result.Ok(st)
      else if role !in st.roles || permission !in st.permissions then Err(ForeignKeyViolation)
      else Result.Ok(st.(grants := st.grants + {(role, permission)}))
    case RemovePermission(role, permission) =>
      Result.Ok(st.(grants := st.grants - {(role, permission)}))
    case AssignRole(user, role, assignedBy) =>
      if user !in st.users || role !in st.roles then Err(ForeignKeyViolation)
      else Result.Ok(st.(holders := st.holders[(user, role) := Assignment(assignedBy, now, None)]))
    case RemoveRole(user, role) =>
      Result.Ok(st.(holders := st.holders - {(user, role)}))
    case CreateUser(user) =>
      Result.Ok(st.(users := st.users + {user}))
    case CreateTenant(tenant) =>
      Result.Ok(st.(tenants := st.tenants + {tenant}))
  }

  /** A failed statement changes nothing. */
  function Step(st: State, s: Statement, now: int): State
  {
    var outcome := Apply(st, s, now);
    if outcome.Ok? then outcome.value else st
  }

  function Run(st: State, run: seq<(Statement, int)>): State
    decreases |run|
  {
    if run == [] then st else Run(Step(st, run[0].0, run[0].1), run[1..])
  }

  // ---------- What every interleaving of statements keeps ----------

  /** Keys are the rows' own ids, and every reference points at an existing row. */
  ghost predicate Intact(st: State)
  {
    && (forall id | id in st.roles :: st.roles[id].id == id)
    && (forall id | id in st.permissions :: st.permissions[id].id == id)
    && (forall id | id in st.roles :: TenantKnown(st, st.roles[id].tenantId))
    && (forall g | g in st.grants :: g.0 in st.roles && g.1 in st.permissions)
    && (forall h | h in st.holders :: h.0 in st.users && h.1 in st.roles)
    && (forall i, j | i in st.permissions && j in st.permissions && i != j ::
          (st.permissions[i].resource, st.permissions[i].action) != (st.permissions[j].resource, st.permissions[j].action))
    && (forall i, j | i in st.roles && j in st.roles && i != j && st.roles[i].tenantId.Some? ::
          !(st.roles[i].tenantId == st.roles[j].tenantId && st.roles[i].code == st.roles[j].code))
  }

  lemma RoleStatementKeepsIntact(st: State, s: Statement, now: int)
    requires Intact(st) && (s.CreateRole? || s.UpdateRole? || s.DeleteRole?)
    ensures Intact(Step(st, s, now))
  {
  }

  lemma PermissionStatementKeepsIntact(st: State, s: Statement, now: int)
    requires Intact(st) && (s.CreatePermission? || s.AssignPermission? || s.RemovePermission?)
    ensures Intact(Step(st, s, now))
  {
  }

  lemma HolderStatementKeepsIntact(st: State, s: Statement, now: int)
    requires Intact(st) && (s.AssignRole? || s.RemoveRole? || s.CreateUser? || s.CreateTenant?)
    ensures Intact(Step(st, s, now))
  {
  }

  lemma StepKeepsIntact(st: State, s: Statement, now: int)
    requires Intact(st)
    ensures Intact(Step(st, s, now))
  {
    if s.CreateRole? || s.UpdateRole? || s.DeleteRole? {
      RoleStatementKeepsIntact(st, s, now);
    } else if s.CreatePermission? || s.AssignPermission? || s.RemovePermission? {
      PermissionStatementKeepsIntact(st, s, now);
    } else {
      HolderStatementKeepsIntact(st, s, now);
    }
  }

  lemma {:induction false} RunKeepsIntact(st: State, run: seq<(Statement, int)>)
    requires Intact(st)
    ensures Intact(Run(st, run))
    decreases |run|
  {
    if run != [] {
      StepKeepsIntact(st, run[0].0, run[0].1);
      RunKeepsIntact(Step(st, run[0].0, run[0].1), run[1..]);
    }
  }

  lemma StepProtectsSystemRole(st: State, s: Statement, now: int, id: nat)
    requires id in st.roles && st.roles[id].isSystemDefined
    ensures id in Step(st, s, now).roles && Step(st, s, now).roles[id] == st.roles[id]
  {
  }

  /** No run of statements, whatever rows they carry, changes or removes a system-defined role. */
  lemma {:induction false} SystemRolesAreProtected(st: State, run: seq<(Statement, int)>, id: nat)
    requires id in st.roles && st.roles[id].isSystemDefined
    ensures id in Run(st, run).roles && Run(st, run).roles[id] == st.roles[id]
    decreases |run|
  {
    if run != [] {
      StepProtectsSystemRole(st, run[0].0, run[0].1, id);
      SystemRolesAreProtected(Step(st, run[0].0, run[0].1), run[1..], id);
    }
  }

  // ---------- The joins ----------

  predicate Unexpired(a: Assignment, now: int)
  {
    a.expiresAt.None? || a.expiresAt.value > now
  }

  predicate Holds(st: State, user: nat, role: nat, now: int)
  {
    (user, role) in st.holders && Unexpired(st.holders[(user, role)], now)
  }

  /** The permissions granted to one role. */
  function GrantedTo(st: State, role: nat): set<nat>
  {
    set g | g in st.grants && g.0 == role :: g.1
  }

  /** Reachability: some unexpired assignment leads to a role the permission is granted to. */
  ghost predicate Reaches(st: State, user: nat, permission: nat, now: int)
  {
    exists role: nat :: Holds(st, user, role, now) && (role, permission) in st.grants
  }

  /** The three-way join with DISTINCT, visiting user_roles and role_permissions in any order. The
      role's own row is not consulted, so its status plays no part. */
  method GetUserPermissions(st: State, user: nat, now: int) returns (found: seq<Permission>)
    requires Intact(st)
    ensures Distinct(found)
    ensures forall p :: p in found <==> p.id in st.permissions && st.permissions[p.id] == p && Reaches(st, user, p.id, now)
  {
    found := [];
    var todo := st.holders.Keys;
    while todo != {}
      invariant todo <= st.holders.Keys
      invariant Distinct(found)
      invariant forall p | p in found :: p.id in st.permissions && st.permissions[p.id] == p && Reaches(st, user, p.id, now)
      invariant forall h, g | h in st.holders && h !in todo && h.0 == user && Unexpired(st.holders[h], now) &&
                  g in st.grants && g.0 == h.1 :: st.permissions[g.1] in found
      decreases todo
    {
      var h :| h in todo;
      if h.0 == user && Unexpired(st.holders[h], now) {
        assert Holds(st, user, h.1, now);
        found := JoinGrants(st, user, h.1, now, found);
      }
      todo := todo - {h};
    }
    forall p: Permission | p.id in st.permissions && st.permissions[p.id] == p && Reaches(st, user, p.id, now)
      ensures p in found
    {
      var role: nat :| Holds(st, user, role, now) && (role, p.id) in st.grants;
    }
  }

  /** The inner loop of the join: the permissions of one held role, skipping those already seen. */
  method JoinGrants(st: State, user: nat, role: nat, now: int, before: seq<Permission>) returns (found: seq<Permission>)
    requires Intact(st) && Distinct(before) && Holds(st, user, role, now)
    requires forall p | p in before :: p.id in st.permissions && st.permissions[p.id] == p && Reaches(st, user, p.id, now)
    ensures Distinct(found) && before <= found
    ensures forall p | p in found :: p.id in st.permissions && st.permissions[p.id] == p && Reaches(st, user, p.id, now)
    ensures forall g | g in st.grants && g.0 == role :: st.permissions[g.1] in found
  {
    found := before;
    var todo := st.grants;
    while todo != {}
      invariant todo <= st.grants && Distinct(found) && before <= found
      invariant forall p | p in found :: p.id in st.permissions && st.permissions[p.id] == p && Reaches(st, user, p.id, now)
      invariant forall g | g in st.grants && g !in todo && g.0 == role :: st.permissions[g.1] in found
      decreases todo
    {
      var g :| g in todo;
      if g.0 == role && st.permissions[g.1] !in found {
        assert (role, g.1) in st.grants;
        assert Reaches(st, user, g.1, now);
        found := found + [st.permissions[g.1]];
      }
      todo := todo - {g};
    }
  }

  method GetRolesByUserID(st: State, user: nat, now: int) returns (found: seq<Role>)
    requires Intact(st)
    ensures Distinct(found)
    ensures forall r :: r in found <==>
              r.id in st.roles && st.roles[r.id] == r && r.status == ACTIVE && Holds(st, user, r.id, now)
  {
    found := [];
    var todo := st.holders.Keys;
    while todo != {}
      invariant todo <= st.holders.Keys
      invariant Distinct(found)
      invariant forall r | r in found ::
                  r.id in st.roles && st.roles[r.id] == r && r.status == ACTIVE && Holds(st, user, r.id, now) &&
                  (user, r.id) !in todo
      invariant forall h | h in st.holders && h !in todo && h.0 == user && Unexpired(st.holders[h], now) &&
                  st.roles[h.1].status == ACTIVE :: st.roles[h.1] in found
      decreases todo
    {
      var h :| h in todo;
      if h.0 == user && Unexpired(st.holders[h], now) && st.roles[h.1].status == ACTIVE {
        found := found + [st.roles[h.1]];
      }
      todo := todo - {h};
    }
    forall r: Role | r.id in st.roles && st.roles[r.id] == r && r.status == ACTIVE && Holds(st, user, r.id, now)
      ensures r in found
    {
      assert (user, r.id) in st.holders;
    }
  }

  // ---------- Joins against each other ----------

  ghost function Reachable(st: State, user: nat, now: int): set<nat>
  {
    set p | p in st.permissions && Reaches(st, user, p, now)
  }

  /** The permissions of the roles the user is told about: the active ones. */
  ghost function ThroughActive(st: State, user: nat, now: int): set<nat>
  {
    set p | p in st.permissions && exists role: nat :: ActivelyGrants(st, user, role, p, now)
  }

  predicate ActivelyGrants(st: State, user: nat, role: nat, permission: nat, now: int)
  {
    role in st.roles && st.roles[role].status == ACTIVE && Holds(st, user, role, now) && (role, permission) in st.grants
  }

  /** A user has every permission of every role listed for them; and exactly those if and only if no
      inactive role they still hold adds a permission. */
  lemma PermissionsAgainstRoles(st: State, user: nat, now: int)
    requires Intact(st)
    ensures ThroughActive(st, user, now) <= Reachable(st, user, now)
    ensures Reachable(st, user, now) == ThroughActive(st, user, now) <==>
            forall role | role in st.roles && st.roles[role].status != ACTIVE && Holds(st, user, role, now) ::
              GrantedTo(st, role) <= ThroughActive(st, user, now)
  {
    forall p | p in ThroughActive(st, user, now)
      ensures p in Reachable(st, user, now)
    {
      var role: nat :| ActivelyGrants(st, user, role, p, now);
    }
    if Reachable(st, user, now) == ThroughActive(st, user, now) {
      forall role, p | role in st.roles && Holds(st, user, role, now) && p in GrantedTo(st, role)
        ensures p in ThroughActive(st, user, now)
      {
        assert (role, p) in st.grants;
        assert p in Reachable(st, user, now);
      }
    }
    if forall role | role in st.roles && st.roles[role].status != ACTIVE && Holds(st, user, role, now) ::
         GrantedTo(st, role) <= ThroughActive(st, user, now) {
      forall p | p in Reachable(st, user, now)
        ensures p in ThroughActive(st, user, now)
      {
        var role: nat :| Holds(st, user, role, now) && (role, p) in st.grants;
        if st.roles[role].status != ACTIVE {
          assert p in GrantedTo(st, role);
        } else {
          assert ActivelyGrants(st, user, role, p, now);
        }
      }
    }
  }

  /** Deactivating a role hides it from the role list but takes no permission away. */
  lemma DeactivationKeepsPermissions(st: State, role: Role, user: nat, permission: nat, now: int, later: int)
    requires Intact(st) && role.id in st.roles && !st.roles[role.id].isSystemDefined
    ensures var after := Step(st, UpdateRole(st.roles[role.id].(status := INACTIVE)), now);
            (Reaches(after, user, permission, later) <==> Reaches(st, user, permission, later)) &&
            after.roles[role.id].status == INACTIVE
  {
    var after := Step(st, UpdateRole(st.roles[role.id].(status := INACTIVE)), now);
    assert after.grants == st.grants && after.holders == st.holders;
    assert forall r: nat :: Holds(after, user, r, later) <==> Holds(st, user, r, later);
    if Reaches(st, user, permission, later) {
      var r: nat :| Holds(st, user, r, later) && (r, permission) in st.grants;
      assert Holds(after, user, r, later);
    }
  }

  /** Deleting a role removes exactly the grants and assignments through it: afterwards a user has
      just the permissions some other held role justifies. */
  lemma DeletionRemovesExactlyItsGrants(st: State, id: nat, user: nat, permission: nat, now: int, later: int)
    requires Intact(st) && id in st.roles && !st.roles[id].isSystemDefined
    ensures var after := Step(st, DeleteRole(id), now);
            && after.roles == st.roles - {id} && after.permissions == st.permissions
            && after.grants == (set g | g in st.grants && g.0 != id)
            && (forall h :: h in after.holders <==> h in st.holders && h.1 != id)
            && (forall h | h in after.holders :: after.holders[h] == st.holders[h])
            && (Reaches(after, user, permission, later) <==>
                  exists role: nat :: role != id && Holds(st, user, role, later) && (role, permission) in st.grants)
  {
    var after := Step(st, DeleteRole(id), now);
    forall role: nat
      ensures Holds(after, user, role, later) && (role, permission) in after.grants <==>
              role != id && Holds(st, user, role, later) && (role, permission) in st.grants
    {
    }
    if Reaches(after, user, permission, later) {
      var role: nat :| Holds(after, user, role, later) && (role, permission) in after.grants;
      assert role != id && Holds(st, user, role, later) && (role, permission) in st.grants;
    }
  }

  /** Assigning, removing and withdrawing touch one pair each: a role assigned is held without expiry,
      whatever was there before; a role removed is held no more; a permission withdrawn is granted no more.
      Other pairs and the rest of the database stay. */
  lemma AssignmentsAreExact(st: State, user: nat, role: nat, permission: nat, admin: Option<nat>, now: int)
    ensures var given := Step(st, AssignRole(user, role, admin), now);
            && (user in st.users && role in st.roles ==>
                  given == st.(holders := given.holders) && (user, role) in given.holders &&
                  given.holders[(user, role)].assignedBy == admin && given.holders[(user, role)].assignedAt == now &&
                  given.holders[(user, role)].expiresAt == None)
            && (user !in st.users || role !in st.roles ==> given == st)
            && (forall h | h != (user, role) ::
                  (h in given.holders <==> h in st.holders) && (h in st.holders ==> given.holders[h] == st.holders[h]))
    ensures var removed := Step(st, RemoveRole(user, role), now);
            && removed == st.(holders := removed.holders) && (user, role) !in removed.holders
            && (forall h | h != (user, role) ::
                  (h in removed.holders <==> h in st.holders) && (h in st.holders ==> removed.holders[h] == st.holders[h]))
    ensures var withdrawn := Step(st, RemovePermission(role, permission), now);
            && withdrawn == st.(grants := withdrawn.grants)
            && (forall r, p :: (r, p) in withdrawn.grants <==> (r, p) in st.grants && (r, p) != (role, permission))
  {
  }

  /** An assignment is in force as long as its expiry is absent or lies ahead: a user whose assignments have
      all expired holds nothing and reaches nothing, and one expiry takes exactly its own role away. */
  lemma ExpiryEndsAssignments(st: State, user: nat, role: nat, permission: nat, now: int)
    ensures Holds(st, user, role, now) <==>
              && (user, role) in st.holders
              && (st.holders[(user, role)].expiresAt == None || now < st.holders[(user, role)].expiresAt.value)
    ensures (forall r: nat | (user, r) in st.holders ::
               st.holders[(user, r)].expiresAt != None && st.holders[(user, r)].expiresAt.value <= now) ==>
            !Reaches(st, user, permission, now)
    ensures Reaches(st, user, permission, now) <==>
            exists r: nat :: (user, r) in st.holders && (r, permission) in st.grants &&
              (st.holders[(user, r)].expiresAt == None || now < st.holders[(user, r)].expiresAt.value)
  {
    if r: nat :| (user, r) in st.holders && (r, permission) in st.grants &&
                 (st.holders[(user, r)].expiresAt == None || now < st.holders[(user, r)].expiresAt.value) {
      assert Holds(st, user, r, now);
    }
  }
}
