/** What the authentication calls answer and write, call by call and in terms of the tables' own columns:
    which error under which condition, what an issued token carries, which columns change. */
module AuthAnswers {
  import opened AppErrors
  import opened AuthUsecase
  import opened Wrappers
  import Accounts
  import PermissionCodec
  import RoleManagement
  import Roles
  import Sessions

  // ---------- Login: the answer ----------

  /** Some row of the user table is live and has the email, in the tenant if one is given. */
  predicate Addressed(u: Accounts.User, req: LoginRequest)
  {
    u.deletedAt == None && u.email == req.email && (req.tenantId == None || req.tenantId == Some(u.tenantId))
  }

  predicate OpenTenant(tenants: Accounts.Tenants, id: nat)
  {
    id in tenants && tenants[id].deletedAt == None && tenants[id].status == 1
  }

  predicate ActivePassword(c: Accounts.Credential, user: nat)
  {
    c.userId == user && c.kind == "PASSWORD" && c.isActive
  }

  /** The credential is one of the user's active passwords and none of them is newer; or there is none. */
  predicate NewestPassword(rows: Accounts.Credentials, user: nat, cred: Option<Accounts.Credential>)
  {
    match cred
    case Some(c) =>
      && c.id in rows && rows[c.id] == c && ActivePassword(c, user)
      && forall id | id in rows && ActivePassword(rows[id], user) :: rows[id].createdAt <= c.createdAt
    case None => forall id | id in rows :: !ActivePassword(rows[id], user)
  }

  predicate Opens(config: Config, cred: Option<Accounts.Credential>, password: string)
  {
    cred != None && cred.value.hash != None && config.matches(cred.value.hash.value, password)
  }

  /** The insert meets a session with the same id, the same token hash, or the empty access-token id. */
  predicate SessionTaken(config: Config, rows: Sessions.Table, drawn: Drawn)
  {
    drawn.sessionId in rows ||
    exists id | id in rows ::
      rows[id].refreshTokenHash == config.digest(drawn.refreshToken) || rows[id].accessTokenId == Some("")
  }

  /** Every login, on every database: for the account the lookup yields and its newest password, exactly one
      of five outcomes, each under its own condition; every error leaves the database as it was. */
  lemma LoginAnswers(config: Config, before: Database, after: Database, req: LoginRequest, drawn: Drawn,
                     r: Result<TokenPair, AppError>)
    returns (user: Option<Accounts.User>, cred: Option<Accounts.Credential>)
    requires LoginEffect(config, before, after, req, drawn, r)
    ensures match user
            case Some(u) => u.id in before.users && before.users[u.id] == u && Addressed(u, req)
            case None => r == Err(InvalidCredentials) && forall id | id in before.users :: !Addressed(before.users[id], req)
    ensures user != None ==>
              var u := user.value;
              && (r == Err(UserInactive) <==> u.status != 1)
              && (r == Err(TenantInactive) <==> u.status == 1 && !OpenTenant(before.tenants, u.tenantId))
              && (u.status == 1 && OpenTenant(before.tenants, u.tenantId) ==>
                    && NewestPassword(before.credentials, u.id, cred)
                    && (r == Err(InvalidCredentials) <==> !Opens(config, cred, req.password))
                    && (r == Err(Internal) <==>
                          Opens(config, cred, req.password) && SessionTaken(config, before.sessions, drawn))
                    && (r.Ok? <==> Opens(config, cred, req.password) && !SessionTaken(config, before.sessions, drawn)))
    ensures r.Err? ==> after == before
    ensures r.Ok? ==> user != None && cred != None && r.value.accessToken.userId == user.value.id &&
                      LoginWith(config, before, after, req, drawn, user.value, cred, r)
  {
    user :| Found(before.users, LookupKey(req), user) && LoginFor(config, before, after, req, drawn, user, r);
    assert forall id | id in before.users ::
             Accounts.UserSelected(before.users[id], LookupKey(req)) <==> Addressed(before.users[id], req);
    if AccountRefusal(before, user) == None {
      cred :| Accounts.Newest(before.credentials, user.value.id, Accounts.PASSWORD, cred) &&
              LoginWith(config, before, after, req, drawn, user.value, cred, r);
      NewestIsNewestPassword(before.credentials, user.value.id, cred);
      InsertMeets(config, before, user.value.id, req, drawn);
    } else {
      cred := None;
    }
  }

  lemma NewestIsNewestPassword(rows: Accounts.Credentials, user: nat, cred: Option<Accounts.Credential>)
    ensures Accounts.Newest(rows, user, Accounts.PASSWORD, cred) <==> NewestPassword(rows, user, cred)
  {
    assert forall id | id in rows :: Accounts.Usable(rows[id], user, Accounts.PASSWORD) <==> ActivePassword(rows[id], user);
  }

  lemma InsertMeets(config: Config, db: Database, user: nat, req: LoginRequest, drawn: Drawn)
    requires user in db.users
    ensures Sessions.Violation(db.sessions, db.users.Keys, NewSession(config, user, req, drawn)) == None <==>
            !SessionTaken(config, db.sessions, drawn)
  {
  }

  /** What a successful login writes: one new session row, two columns of the user's row, two of the
      credential's, and nothing else. */
  lemma LoginWrites(config: Config, before: Database, after: Database, req: LoginRequest, drawn: Drawn,
                    r: Result<TokenPair, AppError>)
    returns (cred: Accounts.Credential)
    requires LoginEffect(config, before, after, req, drawn, r) && r.Ok?
    ensures var id := r.value.accessToken.userId;
            && after.tenants == before.tenants && after.roles == before.roles
            && drawn.sessionId !in before.sessions
            && after.sessions == before.sessions[drawn.sessionId := Sessions.Session(
                 drawn.sessionId, id, config.digest(drawn.refreshToken), Some(""), req.deviceType,
                 drawn.now + config.refreshTtl, None, None, drawn.now, drawn.now)]
            && id in before.users
            && after.users == before.users[id := before.users[id].(lastLoginAt := Some(drawn.now), updatedAt := drawn.now)]
            && NewestPassword(before.credentials, id, Some(cred)) && Opens(config, Some(cred), req.password)
            && after.credentials ==
                 before.credentials[cred.id := cred.(lastUsedAt := Some(drawn.now), updatedAt := drawn.now)]
  {
    var user, found := LoginAnswers(config, before, after, req, drawn, r);
    cred := found.value;
  }

  // ---------- Login: the token ----------

  predicate InForce(st: Roles.State, user: nat, role: nat, now: int)
  {
    (user, role) in st.holders &&
    (st.holders[(user, role)].expiresAt == None || now < st.holders[(user, role)].expiresAt.value)
  }

  /** Some role in force for the user is granted a permission of this resource and action. */
  ghost predicate Allowed(st: Roles.State, user: nat, now: int, resource: string, action: string)
  {
    exists role: nat, p | p in st.permissions && InForce(st, user, role, now) && (role, p) in st.grants ::
      st.permissions[p].resource == resource && st.permissions[p].action == action
  }

  ghost predicate HasActiveRole(st: Roles.State, user: nat, now: int, code: string)
  {
    exists role | role in st.roles && InForce(st, user, role, now) ::
      st.roles[role].status == 1 && st.roles[role].code == code
  }

  /** The token a login issues, against the tables at that moment: it is the user's, with the drawn
      identifier and no session; its roles are exactly the codes of the active roles in force; and, for
      colon-free resources, the check of a permission on it grants exactly what some role in force allows,
      or everything to a user allowed the wildcard. */
  lemma IssuedTokenIsExact(config: Config, before: Database, after: Database, req: LoginRequest, drawn: Drawn,
                           r: Result<TokenPair, AppError>, code: string, resource: string, action: string)
    requires LoginEffect(config, before, after, req, drawn, r) && r.Ok?
    ensures var token, st := r.value.accessToken, before.roles;
            && token.userId in before.users
            && token.tenantId == before.users[token.userId].tenantId && token.email == before.users[token.userId].email
            && token.id == drawn.tokenId && token.sessionId == 0 && r.value.refreshToken == drawn.refreshToken
            && (code in token.roles <==> HasActiveRole(st, token.userId, drawn.now, code))
            && (PermissionCodec.ColonFree(resource) &&
                (forall p | p in st.permissions :: PermissionCodec.ColonFree(st.permissions[p].resource)) ==>
                  (resource + ":" + action in token.permissions || "*:*" in token.permissions <==>
                     Allowed(st, token.userId, drawn.now, resource, action) ||
                     Allowed(st, token.userId, drawn.now, "*", "*")))
  {
    var user, cred := LoginAnswers(config, before, after, req, drawn, r);
    var token, st, id, now := r.value.accessToken, before.roles, user.value.id, drawn.now;
    assert Issued(before, user.value, drawn, r.value);
    CarriedRoles(st, id, now, token.roles, code);
    if PermissionCodec.ColonFree(resource) &&
       forall p | p in st.permissions :: PermissionCodec.ColonFree(st.permissions[p].resource) {
      CarriedPermission(st, id, now, token.permissions, resource, action);
      CarriedPermission(st, id, now, token.permissions, "*", "*");
      assert "*" + ":" + "*" == "*:*";
    }
  }

  lemma CarriedRoles(st: Roles.State, user: nat, now: int, codes: seq<string>, code: string)
    requires CarriesRoles(st, user, now, codes)
    ensures code in codes <==> HasActiveRole(st, user, now, code)
  {
  }

  lemma CarriedPermission(st: Roles.State, user: nat, now: int, strs: seq<string>, resource: string, action: string)
    requires CarriesPermissions(st, user, now, strs) && PermissionCodec.ColonFree(resource)
    requires forall p | p in st.permissions :: PermissionCodec.ColonFree(st.permissions[p].resource)
    ensures resource + ":" + action in strs <==> Allowed(st, user, now, resource, action)
  {
    forall p | p in st.permissions
      ensures PermissionCodec.Encode(st.permissions[p].resource, st.permissions[p].action) == resource + ":" + action <==>
              st.permissions[p].resource == resource && st.permissions[p].action == action
      ensures Roles.Reaches(st, user, p, now) <==>
              exists role: nat :: InForce(st, user, role, now) && (role, p) in st.grants
    {
      PermissionCodec.ColonFreeEncodingInjective(st.permissions[p].resource, st.permissions[p].action, resource, action);
      assert PermissionCodec.Encode(resource, action) == resource + ":" + action;
      ReachedInForce(st, user, p, now);
    }
  }

  lemma ReachedInForce(st: Roles.State, user: nat, p: nat, now: int)
    ensures Roles.Reaches(st, user, p, now) <==> exists role: nat :: InForce(st, user, role, now) && (role, p) in st.grants
  {
    assert forall role: nat :: Roles.Holds(st, user, role, now) <==> InForce(st, user, role, now);
  }

  // ---------- Changing the password ----------

  /** Every password change, for the user's newest active password: the three errors and success each under
      its own condition, every error leaving the database as it was, and success writing the new hash, the
      last use and the end of all the user's running sessions, and nothing else. */
  lemma PasswordChangeAnswers(config: Config, before: Database, after: Database, user: nat, oldPassword: string,
                              hashed: Option<string>, now: int, failure: Option<AppError>)
    returns (cred: Option<Accounts.Credential>)
    requires ChangeEffect(config, before, after, user, oldPassword, hashed, now, failure)
    ensures NewestPassword(before.credentials, user, cred)
    ensures failure == Some(BadRequest) <==> cred == None || cred.value.hash == None
    ensures failure == Some(InvalidCredentials) <==>
            cred != None && cred.value.hash != None && !config.matches(cred.value.hash.value, oldPassword)
    ensures failure == Some(Internal) <==>
            cred != None && cred.value.hash != None && config.matches(cred.value.hash.value, oldPassword) && hashed == None
    ensures failure == None <==>
            cred != None && cred.value.hash != None && config.matches(cred.value.hash.value, oldPassword) && hashed != None
    ensures failure != None ==> after == before
    ensures failure == None ==>
              && after.tenants == before.tenants && after.users == before.users && after.roles == before.roles
              && after.credentials == before.credentials[cred.value.id :=
                   cred.value.(hash := hashed, lastUsedAt := Some(now), updatedAt := now)]
              && after.sessions.Keys == before.sessions.Keys
              && forall id | id in before.sessions ::
                   after.sessions[id] == if before.sessions[id].userId == user && before.sessions[id].revokedAt == None
                     then before.sessions[id].(revokedAt := Some(now), updatedAt := now) else before.sessions[id]
  {
    cred :| Accounts.Newest(before.credentials, user, Accounts.PASSWORD, cred) &&
            PasswordChanged(config, before, after, user, cred, oldPassword, hashed, now, failure);
    NewestIsNewestPassword(before.credentials, user, cred);
  }

  // ---------- Registration ----------

  /** A live user of the tenant has the email. */
  predicate EmailTaken(users: Accounts.Users, tenant: nat, email: string)
  {
    exists id | id in users :: users[id].deletedAt == None && users[id].tenantId == tenant && users[id].email == email
  }

  predicate UsernameTaken(users: Accounts.Users, username: string)
  {
    exists id | id in users :: users[id].deletedAt == None && users[id].username == username
  }

  /** The checks that registrations and creations by an administrator share, each under its condition. */
  lemma ChecksAreExact(tenants: Accounts.Tenants, users: Accounts.Users, tenant: nat, email: string, username: string)
    ensures var objection := Objection(tenants, users, tenant, email, username);
            var present := tenant in tenants && tenants[tenant].deletedAt == None;
            && (objection == Some(NotFound) <==> !present)
            && (objection == Some(TenantInactive) <==> present && tenants[tenant].status != 1)
            && (objection == Some(Conflict) <==>
                  OpenTenant(tenants, tenant) && (EmailTaken(users, tenant, email) || UsernameTaken(users, username)))
            && (objection == None <==>
                  OpenTenant(tenants, tenant) && !EmailTaken(users, tenant, email) && !UsernameTaken(users, username))
  {
    assert LiveMatch(users, Accounts.ByEmailAndTenant(email, tenant)) <==> EmailTaken(users, tenant, email) by {
      assert forall id | id in users :: Accounts.UserSelected(users[id], Accounts.ByEmailAndTenant(email, tenant)) <==>
               users[id].deletedAt == None && users[id].tenantId == tenant && users[id].email == email;
    }
    assert LiveMatch(users, Accounts.ByUsername(username)) <==> UsernameTaken(users, username) by {
      assert forall id | id in users :: Accounts.UserSelected(users[id], Accounts.ByUsername(username)) <==>
               users[id].deletedAt == None && users[id].username == username;
    }
  }

  /** Every registration: refused by one of the checks, or internally for an id that is in use, changing
      nothing; otherwise the user row is there with the request's own fields and pending, whatever becomes of
      the password; and with the password stored, under the fresh credential, the registration succeeds. */
  lemma RegistrationAnswers(before: Database, after: Database, req: RegisterRequest, id: nat, credentialId: nat,
                            hashed: Option<string>, now: int, r: Result<Accounts.User, AppError>)
    requires RegisterEffect(before, after, req, id, credentialId, hashed, now, r)
    ensures var present := req.tenantId in before.tenants && before.tenants[req.tenantId].deletedAt == None;
            var open := OpenTenant(before.tenants, req.tenantId);
            var taken := EmailTaken(before.users, req.tenantId, req.email) || UsernameTaken(before.users, req.username);
            var accepted := open && !taken && id !in before.users;
            var stored := hashed != None && credentialId !in before.credentials;
            && (r == Err(NotFound) <==> !present)
            && (r == Err(TenantInactive) <==> present && !open)
            && (r == Err(Conflict) <==> open && taken)
            && (r == Err(Internal) <==> open && !taken && (id in before.users || !stored))
            && (r.Ok? <==> accepted && stored)
            && (!accepted ==> after == before)
            && (accepted ==>
                  && after.users == before.users[id := Accounts.User(
                       id, req.tenantId, req.fullName, req.email, req.username, 2, None, now, None)]
                  && after.tenants == before.tenants && after.sessions == before.sessions
                  && after.credentials == if !stored then before.credentials else before.credentials[credentialId :=
                       Accounts.Credential(credentialId, id, "PASSWORD", hashed, true, None, now, now)])
            && (r.Ok? ==> r.value == after.users[id])
  {
    ChecksAreExact(before.tenants, before.users, req.tenantId, req.email, req.username);
    assert Accounts.UsernameClash(before.users, NewUser(id, req, now)) ==> UsernameTaken(before.users, req.username);
  }

  /** The role a successful registration assigns: one of the code ROLE_USER, the tenant's own or global, held
      without expiry; none exactly if there is no such role. No other assignment changes. */
  lemma RegistrationAssigns(before: Database, after: Database, req: RegisterRequest, id: nat, credentialId: nat,
                            hashed: Option<string>, now: int, r: Result<Accounts.User, AppError>)
    returns (role: Option<nat>)
    requires Sound(before) && RegisterEffect(before, after, req, id, credentialId, hashed, now, r) && r.Ok?
    ensures match role
            case Some(x) =>
              && x in before.roles.roles && before.roles.roles[x].code == "ROLE_USER"
              && (before.roles.roles[x].tenantId == None || before.roles.roles[x].tenantId == Some(req.tenantId))
              && after.roles.holders == before.roles.holders[(id, x) := Roles.Assignment(None, now, None)]
            case None =>
              && after.roles.holders == before.roles.holders
              && forall x | x in before.roles.roles :: before.roles.roles[x].code == "ROLE_USER" ==>
                   before.roles.roles[x].tenantId != None && before.roles.roles[x].tenantId != Some(req.tenantId)
    ensures after.roles == before.roles.(users := before.roles.users + {id}, holders := after.roles.holders)
  {
    var user := NewUser(id, req, now);
    var created := WithUser(before, user, now);
    role :| DefaultRole(before, user.tenantId, role) &&
      after.roles == if role.None? then created.roles
                     else Roles.Step(created.roles, Roles.AssignRole(id, role.value, None), now);
    assert created.roles == before.roles.(users := before.roles.users + {id});
  }

  /** Right after an accepted registration its owner cannot log in, whatever the password and however the
      registration ended: every login that finds the account answers that it is not active. */
  lemma RegisteredCannotLogIn(before: Database, after: Database, req: RegisterRequest, id: nat, credentialId: nat,
                              hashed: Option<string>, now: int, r: Result<Accounts.User, AppError>,
                              config: Config, last: Database, login: LoginRequest, drawn: Drawn,
                              answer: Result<TokenPair, AppError>)
    requires RegisterEffect(before, after, req, id, credentialId, hashed, now, r)
    requires RegisterRefusal(before, req, id, now) == None
    requires LoginEffect(config, after, last, login, drawn, answer)
    ensures answer.Ok? ==> answer.value.accessToken.userId != id
    ensures login.email == req.email && login.tenantId == Some(req.tenantId) ==> answer == Err(UserInactive) && last == after
  {
    RegistrationAnswers(before, after, req, id, credentialId, hashed, now, r);
    ChecksAreExact(before.tenants, before.users, req.tenantId, req.email, req.username);
    var user, cred := LoginAnswers(config, after, last, login, drawn, answer);
    assert Addressed(after.users[id], login) <==>
             login.email == req.email && (login.tenantId == None || login.tenantId == Some(req.tenantId));
  }

  // ---------- Refreshing ----------

  /** Every refresh, on every database: for the session the lookup yields, exactly one of three errors, each
      under its own condition. */
  lemma RefreshAnswers(config: Config, db: Database, token: string, queriedAt: int, now: int, e: AppError)
    returns (found: Option<Sessions.Session>)
    requires Sound(db) && RefreshFails(config, db, token, queriedAt, now, e)
    ensures match found
            case None =>
              && e == SessionRevoked
              && forall id | id in db.sessions :: db.sessions[id].refreshTokenHash == config.digest(token) ==>
                   db.sessions[id].revokedAt != None || db.sessions[id].expiresAt <= queriedAt
            case Some(s) =>
              && s.id in db.sessions && db.sessions[s.id] == s
              && s.refreshTokenHash == config.digest(token) && s.revokedAt == None && s.expiresAt > queriedAt
              && (e == SessionRevoked <==> now > s.expiresAt)
              && (e == UserInactive <==>
                    && now <= s.expiresAt && s.userId in db.users
                    && db.users[s.userId].deletedAt == None && db.users[s.userId].status != 1)
              && (e == SessionRevoked || e == UserInactive || e == Internal)
  {
    var hash := config.digest(token);
    if id :| id in db.sessions && Sessions.Resolves(db.sessions[id], hash, queriedAt) &&
             e == RefreshError(db, db.sessions[id], now) {
      found := Some(db.sessions[id]);
    } else {
      found := None;
    }
  }
}
