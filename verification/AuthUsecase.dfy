/** The authentication use cases over the four repositories: what each call does to the database and
    returns, and what follows for whole runs of logins, refreshes and logouts. */
module AuthUsecase {
  import opened AppErrors
  import opened Wrappers
  import Accounts
  import PermissionCodec
  import RoleManagement
  import Roles
  import Sessions

  const ROLE_USER := "ROLE_USER"
  const NIL_UUID: nat := 0

  /** SHA-256 of a refresh token, the bcrypt comparison of a stored hash with a password, and the
      configured lifetime of a session. */
  datatype Config = Config(digest: string -> string, matches: (string, string) -> bool, refreshTtl: int)

  datatype Database = Database(tenants: Accounts.Tenants, users: Accounts.Users, credentials: Accounts.Credentials,
                               roles: Roles.State, sessions: Sessions.Table)

  ghost predicate Sound(db: Database)
  {
    && Accounts.Keyed(db.tenants, db.users)
    && (forall id | id in db.credentials :: db.credentials[id].id == id)
    && Roles.Intact(db.roles) && db.roles.users == db.users.Keys && db.roles.tenants == db.tenants.Keys
    && Sessions.Keyed(db.sessions)
  }

  // ---------- Tokens ----------

  /** The claims of an access token; a fresh value carries no token id and the nil session. */
  datatype Claims = Claims(userId: nat, tenantId: nat, email: string, roles: seq<string>, permissions: seq<string>,
                           sessionId: nat, id: string)

  datatype TokenPair = TokenPair(accessToken: Claims, refreshToken: string)

  /** Claims arrive by value: the identifier is written to this copy and goes into the token, and the
      caller's claims keep theirs. */
  method GenerateAccessToken(claims: Claims, tokenId: string) returns (token: Claims)
    ensures token == claims.(id := tokenId)
  {
    var copy := claims;
    copy := copy.(id := tokenId);
    return copy;
  }

  method RoleCodes(roles: seq<Roles.Role>) returns (codes: seq<string>)
    ensures |codes| == |roles| && forall i | 0 <= i < |codes| :: codes[i] == roles[i].code
  {
    codes := [];
    for i := 0 to |roles|
      invariant |codes| == i && forall j | 0 <= j < i :: codes[j] == roles[j].code
    {
      codes := codes + [roles[i].code];
    }
  }

  ghost predicate CarriesRoles(st: Roles.State, user: nat, now: int, codes: seq<string>)
  {
    forall code :: code in codes <==>
      exists role | role in st.roles ::
        st.roles[role].status == Roles.ACTIVE && Roles.Holds(st, user, role, now) && st.roles[role].code == code
  }

  ghost predicate CarriesPermissions(st: Roles.State, user: nat, now: int, strs: seq<string>)
  {
    forall s :: s in strs <==>
      exists p | p in st.permissions ::
        Roles.Reaches(st, user, p, now) && PermissionCodec.Encode(st.permissions[p].resource, st.permissions[p].action) == s
  }

  method CollectRoles(st: Roles.State, user: nat, now: int) returns (codes: seq<string>)
    requires Roles.Intact(st)
    ensures CarriesRoles(st, user, now, codes)
  {
    var roles := Roles.GetRolesByUserID(st, user, now);
    codes := RoleCodes(roles);
    forall code
      ensures code in codes <==> exists role | role in st.roles ::
        st.roles[role].status == Roles.ACTIVE && Roles.Holds(st, user, role, now) && st.roles[role].code == code
    {
      if code in codes {
        var i :| 0 <= i < |codes| && codes[i] == code;
        assert roles[i] in roles;
      }
      if role :| role in st.roles && st.roles[role].status == Roles.ACTIVE && Roles.Holds(st, user, role, now) &&
                 st.roles[role].code == code {
        assert st.roles[role] in roles;
        var i :| 0 <= i < |roles| && roles[i] == st.roles[role];
        assert codes[i] == code;
      }
    }
  }

  method CollectPermissions(st: Roles.State, user: nat, now: int) returns (strs: seq<string>)
    requires Roles.Intact(st)
    ensures CarriesPermissions(st, user, now, strs)
  {
    var permissions := Roles.GetUserPermissions(st, user, now);
    strs := PermissionCodec.PermissionStrings(permissions);
    forall s
      ensures s in strs <==> exists p | p in st.permissions ::
        Roles.Reaches(st, user, p, now) && PermissionCodec.Encode(st.permissions[p].resource, st.permissions[p].action) == s
    {
      if s in strs {
        var i :| 0 <= i < |strs| && strs[i] == s;
        assert permissions[i] in permissions;
      }
      if p :| p in st.permissions && Roles.Reaches(st, user, p, now) &&
              PermissionCodec.Encode(st.permissions[p].resource, st.permissions[p].action) == s {
        assert st.permissions[p] in permissions;
        var i :| 0 <= i < |permissions| && permissions[i] == st.permissions[p];
        assert strs[i] == s;
      }
    }
  }

  // ---------- Login ----------

  datatype LoginRequest = LoginRequest(email: string, tenantId: Option<nat>, password: string, deviceType: Option<string>)

  /** The values drawn during one call: the time and the random identifiers. */
  datatype Drawn = Drawn(now: int, tokenId: string, refreshToken: string, sessionId: nat)

  function LookupKey(req: LoginRequest): Accounts.UserKey
  {
    if req.tenantId.Some? then Accounts.ByEmailAndTenant(req.email, req.tenantId.value) else Accounts.ByEmail(req.email)
  }

  /** The user a lookup may yield: any row it selects, or none if it selects none. */
  ghost predicate Found(users: Accounts.Users, key: Accounts.UserKey, user: Option<Accounts.User>)
  {
    match user
    case Some(u) => u.id in users && users[u.id] == u && Accounts.UserSelected(u, key)
    case None => forall id | id in users :: !Accounts.UserSelected(users[id], key)
  }

  predicate ActiveTenant(tenants: Accounts.Tenants, id: nat)
  {
    id in tenants && tenants[id].deletedAt.None? && tenants[id].status == Accounts.ACTIVE
  }

  function AccountRefusal(db: Database, user: Option<Accounts.User>): (e: Option<AppError>)
    ensures e.None? ==> user.Some?
  {
    if user.None? then Some(InvalidCredentials)
    else if user.value.status != Accounts.ACTIVE then Some(UserInactive)
    else if !ActiveTenant(db.tenants, user.value.tenantId) then Some(TenantInactive)
    else None
  }

  predicate PasswordAccepted(config: Config, cred: Option<Accounts.Credential>, password: string)
  {
    cred.Some? && cred.value.hash.Some? && config.matches(cred.value.hash.value, password)
  }

  /** The row a login inserts. Its access-token id is that of the caller's claims: empty, not NULL. */
  function NewSession(config: Config, user: nat, req: LoginRequest, drawn: Drawn): Sessions.Session
  {
    Sessions.Session(drawn.sessionId, user, config.digest(drawn.refreshToken), Some(""), req.deviceType,
                     drawn.now + config.refreshTtl, None, None, drawn.now, drawn.now)
  }

  ghost predicate Issued(db: Database, user: Accounts.User, drawn: Drawn, tokens: TokenPair)
  {
    var claims := tokens.accessToken;
    && claims.userId == user.id && claims.tenantId == user.tenantId && claims.email == user.email
    && claims.id == drawn.tokenId && claims.sessionId == NIL_UUID
    && tokens.refreshToken == drawn.refreshToken
    && CarriesRoles(db.roles, user.id, drawn.now, claims.roles)
    && CarriesPermissions(db.roles, user.id, drawn.now, claims.permissions)
  }

  /** What a login does once the user and the credential are known. */
  ghost predicate LoginWith(config: Config, before: Database, after: Database, req: LoginRequest, drawn: Drawn,
                            user: Accounts.User, cred: Option<Accounts.Credential>, r: Result<TokenPair, AppError>)
  {
    var row := NewSession(config, user.id, req, drawn);
    if !PasswordAccepted(config, cred, req.password) then
      after == before && r == Err(InvalidCredentials)
    else if Sessions.Violation(before.sessions, before.users.Keys, row).Some? then
      after == before && r == Err(Internal)
    else
      && after == before.(
           sessions := before.sessions[row.id := row],
           users := Accounts.TouchLastLogin(before.users, user.id, drawn.now),
           credentials := Accounts.ChangeCredential(before.credentials,
                                                    cred.value.(lastUsedAt := Some(drawn.now)), drawn.now))
      && r.Ok? && Issued(before, user, drawn, r.value)
  }

  ghost predicate LoginFor(config: Config, before: Database, after: Database, req: LoginRequest, drawn: Drawn,
                           user: Option<Accounts.User>, r: Result<TokenPair, AppError>)
  {
    match AccountRefusal(before, user)
    case Some(e) => after == before && r == Err(e)
    case None => exists cred :: Accounts.Newest(before.credentials, user.value.id, Accounts.PASSWORD, cred) &&
                                LoginWith(config, before, after, req, drawn, user.value, cred, r)
  }

  ghost predicate LoginEffect(config: Config, before: Database, after: Database, req: LoginRequest, drawn: Drawn,
                              r: Result<TokenPair, AppError>)
  {
    exists user :: Found(before.users, LookupKey(req), user) && LoginFor(config, before, after, req, drawn, user, r)
  }

  lemma LoginKeepsSound(config: Config, before: Database, after: Database, req: LoginRequest, drawn: Drawn,
                        user: Accounts.User, cred: Option<Accounts.Credential>, r: Result<TokenPair, AppError>)
    requires Sound(before) && LoginWith(config, before, after, req, drawn, user, cred, r)
    ensures Sound(after)
  {
  }

  // ---------- Registration ----------

  datatype RegisterRequest = RegisterRequest(tenantId: nat, fullName: string, email: string, username: string)

  function NewUser(id: nat, req: RegisterRequest, now: int): Accounts.User
  {
    Accounts.User(id, req.tenantId, req.fullName, req.email, req.username, Accounts.PENDING, None, now, None)
  }

  predicate LiveMatch(users: Accounts.Users, key: Accounts.UserKey)
  {
    exists id | id in users :: Accounts.UserSelected(users[id], key)
  }

  /** The checks before anything is written. */
  function Objection(tenants: Accounts.Tenants, users: Accounts.Users, tenant: nat, email: string, username: string)
    : Option<AppError>
  {
    if tenant !in tenants || tenants[tenant].deletedAt.Some? then Some(NotFound)
    else if tenants[tenant].status != Accounts.ACTIVE then Some(TenantInactive)
    else if LiveMatch(users, Accounts.ByEmailAndTenant(email, tenant)) then Some(Conflict)
    else if LiveMatch(users, Accounts.ByUsername(username)) then Some(Conflict)
    else None
  }

  function RegisterRefusal(db: Database, req: RegisterRequest, id: nat, now: int): Option<AppError>
  {
    var objection := Objection(db.tenants, db.users, req.tenantId, req.email, req.username);
    if objection.Some? then objection
    else if Accounts.InsertUser(db.users, db.tenants, NewUser(id, req, now)).Err? then Some(Internal)
    else None
  }

  /** The user row as inserted, known to the role tables as well. */
  function WithUser(db: Database, user: Accounts.User, now: int): Database
  {
    db.(users := db.users[user.id := user], roles := Roles.Step(db.roles, Roles.CreateUser(user.id), now))
  }

  lemma WithUserSound(db: Database, user: Accounts.User, now: int)
    requires Sound(db) && user.id !in db.users
    ensures Sound(WithUser(db, user, now))
  {
    Roles.StepKeepsIntact(db.roles, Roles.CreateUser(user.id), now);
  }

  ghost predicate DefaultRole(db: Database, tenant: nat, role: Option<nat>)
  {
    match role
    case Some(id) => id in db.roles.roles && RoleManagement.CodeMatches(db.roles.roles[id], ROLE_USER, Some(tenant))
    case None => !RoleManagement.CodeTaken(db.roles, ROLE_USER, Some(tenant))
  }

  /** What a registration does once it is not refused: when hashing or storing the password fails, the
      user row stays behind without a credential. */
  ghost predicate Registered(before: Database, after: Database, user: Accounts.User, credentialId: nat,
                             hashed: Option<string>, now: int, r: Result<Accounts.User, AppError>)
  {
    var created := WithUser(before, user, now);
    if hashed.None? || credentialId in before.credentials then
      after == created && r == Err(Internal)
    else
      && r == Result.Ok(user)
      && exists role: Option<nat> :: DefaultRole(before, user.tenantId, role) &&
           after == created.(
             credentials := before.credentials[credentialId :=
               Accounts.Credential(credentialId, user.id, Accounts.PASSWORD, hashed, true, None, now, now)],
             roles := if role.None? then created.roles
                      else Roles.Step(created.roles, Roles.AssignRole(user.id, role.value, None), now))
  }

  ghost predicate RegisterEffect(before: Database, after: Database, req: RegisterRequest, id: nat, credentialId: nat,
                                 hashed: Option<string>, now: int, r: Result<Accounts.User, AppError>)
  {
    match RegisterRefusal(before, req, id, now)
    case Some(e) => after == before && r == Err(e)
    case None => Registered(before, after, NewUser(id, req, now), credentialId, hashed, now, r)
  }

  // ---------- Refresh, logout, password change ----------

  /** Why a refresh fails. Every case is an error: past the checks the session is inserted again under
      the primary key it already has. `queriedAt` is the database's clock, `now` the service's. */
  ghost predicate RefreshFails(config: Config, db: Database, token: string, queriedAt: int, now: int, e: AppError)
  {
    var hash := config.digest(token);
    || (e == SessionRevoked && forall id | id in db.sessions :: !Sessions.Resolves(db.sessions[id], hash, queriedAt))
    || (exists id | id in db.sessions :: Sessions.Resolves(db.sessions[id], hash, queriedAt) &&
          e == RefreshError(db, db.sessions[id], now))
  }

  function RefreshError(db: Database, s: Sessions.Session, now: int): AppError
  {
    if Sessions.IsRevoked(s, now) then SessionRevoked
    else if s.userId in db.users && db.users[s.userId].deletedAt.None? && db.users[s.userId].status != Accounts.ACTIVE
      then UserInactive
    else Internal
  }

  /** What a password change does, for the credential it picked. */
  predicate PasswordChanged(config: Config, before: Database, after: Database, user: nat,
                            cred: Option<Accounts.Credential>, old_: string, hashed: Option<string>, now: int,
                            failure: Option<AppError>)
  {
    if cred.None? || cred.value.hash.None? then after == before && failure == Some(BadRequest)
    else if !config.matches(cred.value.hash.value, old_) then after == before && failure == Some(InvalidCredentials)
    else if hashed.None? then after == before && failure == Some(Internal)
    else
      && failure == None
      && after == before.(
           credentials := Accounts.ChangeCredential(before.credentials,
                                                    cred.value.(hash := hashed, lastUsedAt := Some(now)), now),
           sessions := Sessions.BulkRevoked(before.sessions, user, None, now))
  }

  ghost predicate ChangeEffect(config: Config, before: Database, after: Database, user: nat, oldPassword: string,
                               hashed: Option<string>, now: int, failure: Option<AppError>)
  {
    exists cred :: Accounts.Newest(before.credentials, user, Accounts.PASSWORD, cred) &&
                   PasswordChanged(config, before, after, user, cred, oldPassword, hashed, now, failure)
  }

  // ---------- The use cases ----------

  class AuthUsecase {
    const userRepo: Accounts.UserRepo
    const tenantRepo: Accounts.TenantRepo
    const roleRepo: RoleManagement.RoleRepo
    const sessionRepo: Sessions.SessionRepo
    const config: Config

    constructor (userRepo: Accounts.UserRepo, tenantRepo: Accounts.TenantRepo, roleRepo: RoleManagement.RoleRepo,
                 sessionRepo: Sessions.SessionRepo, config: Config)
      ensures this.userRepo == userRepo && this.tenantRepo == tenantRepo && this.roleRepo == roleRepo
      ensures this.sessionRepo == sessionRepo && this.config == config
    {
      this.userRepo, this.tenantRepo, this.roleRepo := userRepo, tenantRepo, roleRepo;
      this.sessionRepo, this.config := sessionRepo, config;
    }

    ghost function Db(): Database
      reads userRepo, tenantRepo, roleRepo, sessionRepo
    {
      Database(tenantRepo.rows, userRepo.rows, userRepo.credentials, roleRepo.st, sessionRepo.rows)
    }

    method Login(req: LoginRequest, drawn: Drawn) returns (r: Result<TokenPair, AppError>)
      requires Sound(Db())
      modifies userRepo, sessionRepo
      ensures Sound(Db())
      ensures LoginEffect(config, old(Db()), Db(), req, drawn, r)
    {
      ghost var before := Db();
      var user := FindForLogin(req);
      if user.None? {
        assert LoginFor(config, before, Db(), req, drawn, user, Err(InvalidCredentials));
        return Err(InvalidCredentials);
      }
      if user.value.status != Accounts.ACTIVE {
        assert LoginFor(config, before, Db(), req, drawn, user, Err(UserInactive));
        return Err(UserInactive);
      }
      var tenant := tenantRepo.Find(Accounts.TenantById(user.value.tenantId));
      if tenant.None? || tenant.value.status != Accounts.ACTIVE {
        assert LoginFor(config, before, Db(), req, drawn, user, Err(TenantInactive));
        return Err(TenantInactive);
      }
      var cred := userRepo.GetActiveCredentialByType(user.value.id, Accounts.PASSWORD);
      if cred.None? || cred.value.hash.None? || !config.matches(cred.value.hash.value, req.password) {
        assert LoginWith(config, before, Db(), req, drawn, user.value, cred, Err(InvalidCredentials));
        assert LoginFor(config, before, Db(), req, drawn, user, Err(InvalidCredentials));
        return Err(InvalidCredentials);
      }
      r := GenerateTokenPair(user.value, req, drawn);
      if r.Ok? {
        userRepo.UpdateLastLogin(user.value.id, drawn.now);
        userRepo.UpdateCredential(cred.value.(lastUsedAt := Some(drawn.now)), drawn.now);
      }
      assert LoginWith(config, before, Db(), req, drawn, user.value, cred, r);
      assert LoginFor(config, before, Db(), req, drawn, user, r);
      LoginKeepsSound(config, before, Db(), req, drawn, user.value, cred, r);
    }

    method FindForLogin(req: LoginRequest) returns (user: Option<Accounts.User>)
      requires Sound(Db())
      ensures Found(userRepo.rows, LookupKey(req), user)
    {
      if req.tenantId.Some? {
        user := userRepo.Find(Accounts.ByEmailAndTenant(req.email, req.tenantId.value));
      } else {
        user := userRepo.Find(Accounts.ByEmail(req.email));
      }
    }

    /** The session id is put into the claims only after the token has been made from them. */
    method GenerateTokenPair(user: Accounts.User, req: LoginRequest, drawn: Drawn)
      returns (r: Result<TokenPair, AppError>)
      requires Sound(Db())
      modifies sessionRepo
      ensures var row := NewSession(config, user.id, req, drawn);
              if Sessions.Violation(old(sessionRepo.rows), userRepo.rows.Keys, row).Some?
              then sessionRepo.rows == old(sessionRepo.rows) && r == Err(Internal)
              else sessionRepo.rows == old(sessionRepo.rows)[row.id := row] && r.Ok? &&
                   Issued(old(Db()), user, drawn, r.value)
    {
      var roles := CollectRoles(roleRepo.st, user.id, drawn.now);
      var permissions := CollectPermissions(roleRepo.st, user.id, drawn.now);
      var claims := Claims(user.id, user.tenantId, user.email, roles, permissions, NIL_UUID, "");
      var accessToken := GenerateAccessToken(claims, drawn.tokenId);
      var session := Sessions.Session(drawn.sessionId, user.id, config.digest(drawn.refreshToken), Some(claims.id),
                                      req.deviceType, drawn.now + config.refreshTtl, None, None, drawn.now, drawn.now);
      var failure := sessionRepo.Create(session, userRepo.rows.Keys);
      if failure.Some? {
        return Err(Internal);
      }
      claims := claims.(sessionId := session.id);
      return Result.Ok(TokenPair(accessToken, drawn.refreshToken));
    }

    /** `id` and `credentialId` are fresh identifiers; `hashed` is the bcrypt hash, absent when bcrypt
        refuses the password. */
    method Register(req: RegisterRequest, id: nat, credentialId: nat, hashed: Option<string>, now: int)
      returns (r: Result<Accounts.User, AppError>)
      requires Sound(Db())
      modifies userRepo, roleRepo
      ensures Sound(Db())
      ensures RegisterEffect(old(Db()), Db(), req, id, credentialId, hashed, now, r)
    {
      var objection := CheckRegistration(req);
      if objection.Some? {
        return Err(objection.value);
      }
      r := CreateAccount(NewUser(id, req, now), credentialId, hashed, now);
    }

    method CheckRegistration(req: RegisterRequest) returns (objection: Option<AppError>)
      requires Sound(Db())
      ensures objection == Objection(tenantRepo.rows, userRepo.rows, req.tenantId, req.email, req.username)
    {
      var tenant := tenantRepo.Find(Accounts.TenantById(req.tenantId));
      if tenant.None? {
        return Some(NotFound);
      }
      if tenant.value.status != Accounts.ACTIVE {
        return Some(TenantInactive);
      }
      var existing := userRepo.Find(Accounts.ByEmailAndTenant(req.email, req.tenantId));
      if existing.Some? {
        return Some(Conflict);
      }
      existing := userRepo.Find(Accounts.ByUsername(req.username));
      return if existing.Some? then Some(Conflict) else None;
    }

    method CreateAccount(user: Accounts.User, credentialId: nat, hashed: Option<string>, now: int)
      returns (r: Result<Accounts.User, AppError>)
      requires Sound(Db()) && user.lastLoginAt.None? && user.deletedAt.None?
      modifies userRepo, roleRepo
      ensures Sound(Db())
      ensures if Accounts.InsertUser(old(Db()).users, old(Db()).tenants, user).Err?
              then Db() == old(Db()) && r == Err(Internal)
              else Registered(old(Db()), Db(), user, credentialId, hashed, now, r)
    {
      ghost var before := Db();
      var failure := userRepo.Create(user, tenantRepo.rows);
      if failure.Some? {
        return Err(Internal);
      }
      roleRepo.UserInserted(user.id, now);
      assert Db() == WithUser(before, user, now);
      WithUserSound(before, user, now);
      r := StorePassword(before, user, credentialId, hashed, now);
    }

    method StorePassword(ghost before: Database, user: Accounts.User, credentialId: nat, hashed: Option<string>, now: int)
      returns (r: Result<Accounts.User, AppError>)
      requires Sound(before) && Sound(Db()) && Db() == WithUser(before, user, now)
      modifies userRepo, roleRepo
      ensures Sound(Db())
      ensures Registered(before, Db(), user, credentialId, hashed, now, r)
    {
      if hashed.None? {
        return Err(Internal);
      }
      var failure := userRepo.CreateCredential(
        Accounts.Credential(credentialId, user.id, Accounts.PASSWORD, hashed, true, None, now, now));
      if failure.Some? {
        return Err(Internal);
      }
      AssignDefaultRole(before, user, now);
      return Result.Ok(user);
    }

    /** Failing to find or assign the role does not fail the registration. */
    method AssignDefaultRole(ghost before: Database, user: Accounts.User, now: int)
      requires Sound(before) && Roles.Intact(roleRepo.st) && user.id in roleRepo.st.users
      requires roleRepo.st == Roles.Step(before.roles, Roles.CreateUser(user.id), now)
      modifies roleRepo
      ensures Roles.Intact(roleRepo.st) && roleRepo.st.users == old(roleRepo.st.users)
      ensures exists role: Option<nat> :: DefaultRole(before, user.tenantId, role) &&
                roleRepo.st == if role.None? then old(roleRepo.st)
                               else Roles.Step(old(roleRepo.st), Roles.AssignRole(user.id, role.value, None), now)
    {
      var role := roleRepo.GetByCode(ROLE_USER, Some(user.tenantId));
      if role.Some? {
        Roles.StepKeepsIntact(roleRepo.st, Roles.AssignRole(user.id, role.value.id, None), now);
        var _ := roleRepo.AssignRoleToUser(user.id, role.value.id, None, now);
        assert DefaultRole(before, user.tenantId, Some(role.value.id));
      } else {
        assert DefaultRole(before, user.tenantId, None);
      }
    }

    method RefreshToken(token: string, newToken: string, tokenId: string, queriedAt: int, now: int)
      returns (r: Result<TokenPair, AppError>)
      requires Sound(Db())
      modifies sessionRepo
      ensures Db() == old(Db())
      ensures r.Err? && RefreshFails(config, Db(), token, queriedAt, now, r.error)
    {
      var found := sessionRepo.GetByRefreshTokenHash(config.digest(token), queriedAt);
      if found.None? {
        return Err(SessionRevoked);
      }
      var session := found.value;
      if Sessions.IsRevoked(session, now) {
        return Err(SessionRevoked);
      }
      var user := userRepo.Find(Accounts.ById(session.userId));
      if user.None? {
        return Err(Internal);
      }
      if user.value.status != Accounts.ACTIVE {
        return Err(UserInactive);
      }
      var roles := CollectRoles(roleRepo.st, user.value.id, now);
      var permissions := CollectPermissions(roleRepo.st, user.value.id, now);
      var claims := Claims(user.value.id, user.value.tenantId, user.value.email, roles, permissions, session.id, "");
      var accessToken := GenerateAccessToken(claims, tokenId);
      session := session.(refreshTokenHash := config.digest(newToken), accessTokenId := Some(claims.id),
                          lastActivityAt := Some(now), updatedAt := now);
      var failure := sessionRepo.Create(session, userRepo.rows.Keys);
      if failure.Some? {
        return Err(Internal);
      }
      return Result.Ok(TokenPair(accessToken, newToken));
    }

    method Logout(sessionId: nat, now: int) returns (failure: Option<AppError>)
      modifies sessionRepo
      ensures sessionRepo.rows == Sessions.Revoked(old(sessionRepo.rows), sessionId, now)
      ensures failure == if sessionId in old(sessionRepo.rows) then None else Some(NotFound)
    {
      var session := sessionRepo.GetByID(sessionId);
      if session.None? {
        return Some(NotFound);
      }
      sessionRepo.Revoke(sessionId, now);
      return None;
    }

    method ChangePassword(user: nat, oldPassword: string, hashed: Option<string>, now: int)
      returns (failure: Option<AppError>)
      requires Sound(Db())
      modifies userRepo, sessionRepo
      ensures Sound(Db())
      ensures ChangeEffect(config, old(Db()), Db(), user, oldPassword, hashed, now, failure)
    {
      ghost var before := Db();
      var cred := userRepo.GetActiveCredentialByType(user, Accounts.PASSWORD);
      if cred.None? || cred.value.hash.None? {
        assert PasswordChanged(config, before, Db(), user, cred, oldPassword, hashed, now, Some(BadRequest));
        return Some(BadRequest);
      }
      if !config.matches(cred.value.hash.value, oldPassword) {
        assert PasswordChanged(config, before, Db(), user, cred, oldPassword, hashed, now, Some(InvalidCredentials));
        return Some(InvalidCredentials);
      }
      if hashed.None? {
        assert PasswordChanged(config, before, Db(), user, cred, oldPassword, hashed, now, Some(Internal));
        return Some(Internal);
      }
      userRepo.UpdateCredential(cred.value.(hash := hashed, lastUsedAt := Some(now)), now);
      sessionRepo.RevokeAllUserSessions(user, None, now);
      assert PasswordChanged(config, before, Db(), user, cred, oldPassword, hashed, now, None);
      return None;
    }
  }
}
