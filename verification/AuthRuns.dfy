/** What follows from the authentication use cases for whole runs: at most one login ever succeeds,
    no refresh ever does, issued tokens cannot end their session, deleted users stay out, and a
    token's permission check agrees with the database. */
module AuthRuns {
  import opened AppErrors
  import opened AuthUsecase
  import opened Wrappers
  import Accounts
  import PermissionCodec
  import Roles
  import Sessions

  // ---------- The empty access-token id ----------

  /** Every INSERT the use cases issue carries the empty access-token id. */
  predicate BlankInsert(e: Sessions.Event)
  {
    e.statement.Create? ==> e.statement.s.accessTokenId == Some("")
  }

  ghost predicate BlankIds(rows: Sessions.Table)
  {
    forall id | id in rows :: rows[id].accessTokenId == Some("")
  }

  function SuccessfulInserts(rows: Sessions.Table, run: seq<Sessions.Event>): nat
    decreases |run|
  {
    if run == [] then 0
    else (if run[0].statement.Create? &&
             Sessions.Violation(rows, run[0].statement.users, run[0].statement.s).None? then 1 else 0)
         + SuccessfulInserts(Sessions.Step(rows, run[0]), run[1..])
  }

  lemma StepKeepsBlankIds(rows: Sessions.Table, e: Sessions.Event)
    requires BlankIds(rows) && BlankInsert(e)
    ensures BlankIds(Sessions.Step(rows, e))
    ensures rows != map[] ==> Sessions.Step(rows, e).Keys == rows.Keys
  {
    if e.statement.Create? && rows != map[] {
      var id :| id in rows;
      assert Sessions.Violation(rows, e.statement.users, e.statement.s).Some?;
    }
  }

  lemma NonEmptyRefusesBlank(rows: Sessions.Table, users: set<nat>, s: Sessions.Session)
    requires BlankIds(rows) && rows != map[] && s.accessTokenId == Some("")
    ensures Sessions.Violation(rows, users, s).Some?
  {
    var id :| id in rows;
    assert rows[id].accessTokenId == s.accessTokenId;
  }

  /** Over any interleaving of session statements whose inserts are those of the use cases, at most
      one insert ever succeeds, and none once the table has a row. */
  lemma {:induction false} AtMostOneSessionEver(rows: Sessions.Table, run: seq<Sessions.Event>)
    requires BlankIds(rows) && forall i | 0 <= i < |run| :: BlankInsert(run[i])
    ensures BlankIds(Sessions.Run(rows, run))
    ensures SuccessfulInserts(rows, run) <= if rows == map[] then 1 else 0
    ensures rows != map[] ==> Sessions.Run(rows, run).Keys == rows.Keys
    decreases |run|
  {
    if run != [] {
      var next := Sessions.Step(rows, run[0]);
      StepKeepsBlankIds(rows, run[0]);
      if run[0].statement.Create? && rows != map[] {
        NonEmptyRefusesBlank(rows, run[0].statement.users, run[0].statement.s);
      }
      if run[0].statement.Create? && Sessions.Violation(rows, run[0].statement.users, run[0].statement.s).None? {
        assert run[0].statement.s.id in next;
      }
      AtMostOneSessionEver(next, run[1..]);
    }
  }

  /** With the right password of an active user in an active tenant, a login succeeds if and only if
      there has been no session yet. */
  lemma LoginSucceedsIffNoSessionYet(config: Config, before: Database, after: Database, req: LoginRequest,
                                     drawn: Drawn, user: Accounts.User, cred: Accounts.Credential,
                                     r: Result<TokenPair, AppError>)
    requires BlankIds(before.sessions) && user.id in before.users
    requires AccountRefusal(before, Some(user)) == None && PasswordAccepted(config, Some(cred), req.password)
    requires LoginWith(config, before, after, req, drawn, user, Some(cred), r)
    ensures r.Ok? <==> before.sessions == map[]
    ensures r.Err? ==> r.error == Internal && after == before
  {
    if before.sessions != map[] {
      NonEmptyRefusesBlank(before.sessions, before.users.Keys, NewSession(config, user.id, req, drawn));
    }
  }

  /** Every login on every database, whatever the request: success means a live active user in a live
      active tenant, whose newest password credential matches, and exactly one new session, the user's,
      to which the refresh token resolves while its lifetime lasts; failure changes nothing. */
  lemma LoginIsGuarded(config: Config, before: Database, after: Database, req: LoginRequest, drawn: Drawn,
                       r: Result<TokenPair, AppError>)
    requires LoginEffect(config, before, after, req, drawn, r)
    ensures r.Err? ==> after == before
    ensures r.Ok? ==>
              && drawn.sessionId !in before.sessions
              && after.sessions.Keys == before.sessions.Keys + {drawn.sessionId}
              && (forall id | id in before.sessions :: after.sessions[id] == before.sessions[id])
              && var id := r.value.accessToken.userId;
                 && id in before.users && before.users[id].deletedAt.None? && before.users[id].status == Accounts.ACTIVE
                 && before.users[id].email == req.email
                 && (req.tenantId.Some? ==> before.users[id].tenantId == req.tenantId.value)
                 && ActiveTenant(before.tenants, before.users[id].tenantId)
                 && (exists cred :: Accounts.Newest(before.credentials, id, Accounts.PASSWORD, cred) &&
                                    PasswordAccepted(config, cred, req.password))
                 && after.sessions[drawn.sessionId].userId == id
                 && after.sessions[drawn.sessionId].accessTokenId == Some("")
                 && (forall now :: now < drawn.now + config.refreshTtl <==>
                       Sessions.Resolves(after.sessions[drawn.sessionId], config.digest(r.value.refreshToken), now))
  {
    var user :| Found(before.users, LookupKey(req), user) && LoginFor(config, before, after, req, drawn, user, r);
    if r.Ok? {
      var row := NewSession(config, user.value.id, req, drawn);
      assert after.sessions == before.sessions[row.id := row];
    }
  }

  /** On a database whose sessions all carry the empty access-token id, as every one a login makes does,
      a login can succeed only while there is no session. */
  lemma LoginNeedsEmptyTable(config: Config, before: Database, after: Database, req: LoginRequest, drawn: Drawn,
                             r: Result<TokenPair, AppError>)
    requires BlankIds(before.sessions) && LoginEffect(config, before, after, req, drawn, r)
    ensures r.Ok? ==> before.sessions == map[] && after.sessions.Keys == {drawn.sessionId}
    ensures BlankIds(after.sessions)
  {
    LoginIsGuarded(config, before, after, req, drawn, r);
    var user :| Found(before.users, LookupKey(req), user) && LoginFor(config, before, after, req, drawn, user, r);
    if r.Ok? && before.sessions != map[] {
      NonEmptyRefusesBlank(before.sessions, before.users.Keys, NewSession(config, user.value.id, req, drawn));
    }
  }

  /** The calls, by what they may do to the sessions: a login with its result, a refresh, the calls
      that revoke or touch sessions, and those that work on other tables. */
  datatype Call =
    | LoginCall(req: LoginRequest, drawn: Drawn, r: Result<TokenPair, AppError>)
    | RefreshCall
    | SessionCall(e: Sessions.Event)
    | ElsewhereCall

  ghost predicate CallStep(config: Config, call: Call, before: Database, after: Database)
  {
    match call
    case LoginCall(req, drawn, r) => LoginEffect(config, before, after, req, drawn, r)
    case RefreshCall => after == before
    case SessionCall(e) => !e.statement.Create? && after.sessions == Sessions.Step(before.sessions, e)
    case ElsewhereCall => after.sessions == before.sessions
  }

  ghost predicate IsRun(config: Config, calls: seq<Call>, trace: seq<Database>)
  {
    && |trace| == |calls| + 1 && trace[0].sessions == map[]
    && forall k | 0 <= k < |calls| :: CallStep(config, calls[k], trace[k], trace[k + 1])
  }

  predicate Succeeded(call: Call)
  {
    call.LoginCall? && call.r.Ok?
  }

  lemma CallKeepsSessions(config: Config, call: Call, before: Database, after: Database)
    requires BlankIds(before.sessions) && CallStep(config, call, before, after)
    ensures BlankIds(after.sessions)
    ensures Succeeded(call) ==> before.sessions == map[] && after.sessions != map[]
    ensures before.sessions != map[] ==> after.sessions != map[]
  {
    match call {
      case LoginCall(req, drawn, r) =>
        LoginNeedsEmptyTable(config, before, after, req, drawn, r);
        assert r.Ok? ==> drawn.sessionId in after.sessions;
      case SessionCall(e) =>
        StepKeepsBlankIds(before.sessions, e);
        if id :| id in before.sessions { assert id in after.sessions; }
      case _ =>
    }
  }

  lemma {:induction false} RunKeepsSessions(config: Config, calls: seq<Call>, trace: seq<Database>, i: nat, k: nat)
    requires IsRun(config, calls, trace) && i <= k < |trace|
    ensures BlankIds(trace[k].sessions)
    ensures trace[i].sessions != map[] ==> trace[k].sessions != map[]
    decreases k
  {
    if k > 0 {
      RunKeepsSessions(config, calls, trace, if i < k then i else k - 1, k - 1);
      CallKeepsSessions(config, calls[k - 1], trace[k - 1], trace[k]);
    }
  }

  /** In every run of calls that starts without sessions, no two logins succeed, by any users. */
  lemma AtMostOneLoginSucceeds(config: Config, calls: seq<Call>, trace: seq<Database>, i: nat, j: nat)
    requires IsRun(config, calls, trace)
    requires i < |calls| && j < |calls| && Succeeded(calls[i]) && Succeeded(calls[j])
    ensures i == j
  {
    if i < j {
      FirstSuccessShutsOut(config, calls, trace, i, j);
    } else if j < i {
      FirstSuccessShutsOut(config, calls, trace, j, i);
    }
  }

  lemma FirstSuccessShutsOut(config: Config, calls: seq<Call>, trace: seq<Database>, i: nat, j: nat)
    requires IsRun(config, calls, trace) && i < j < |calls| && Succeeded(calls[i])
    ensures !Succeeded(calls[j])
  {
    RunKeepsSessions(config, calls, trace, 0, i);
    CallKeepsSessions(config, calls[i], trace[i], trace[i + 1]);
    RunKeepsSessions(config, calls, trace, i + 1, j);
    CallKeepsSessions(config, calls[j], trace[j], trace[j + 1]);
  }

  // ---------- Refresh ----------

  /** Even when other statements run between a refresh's lookup and its insert, the insert is refused
      and the table is what those statements left: rows are never removed. */
  lemma RefreshFailsUnderInterleaving(rows: Sessions.Table, run: seq<Sessions.Event>, id: nat,
                                      rewritten: Sessions.Session, users: set<nat>)
    requires Sessions.Keyed(rows) && id in rows && rewritten.id == id
    ensures Sessions.Violation(Sessions.Run(rows, run), users, rewritten) == Some(Sessions.DuplicateKey)
    ensures Sessions.Inserted(Sessions.Run(rows, run), users, rewritten) == Sessions.Run(rows, run)
  {
    Sessions.RowsAreWriteOnce(rows, run, id);
  }

  // ---------- Tokens that cannot log out ----------

  predicate ProperInsert(e: Sessions.Event)
  {
    e.statement.Create? ==> e.statement.s.id != NIL_UUID
  }

  lemma {:induction false} NilIsNeverASession(rows: Sessions.Table, run: seq<Sessions.Event>)
    requires NIL_UUID !in rows && forall i | 0 <= i < |run| :: ProperInsert(run[i])
    ensures NIL_UUID !in Sessions.Run(rows, run)
    decreases |run|
  {
    if run != [] {
      NilIsNeverASession(Sessions.Step(rows, run[0]), run[1..]);
    }
  }

  /** Logging out with an issued token, after any statements, finds no session and revokes nothing; and
      revoking "all other" sessions with it revokes them all. */
  lemma IssuedTokensNameNoSession(db: Database, user: Accounts.User, drawn: Drawn, tokens: TokenPair,
                                  run: seq<Sessions.Event>, now: int)
    requires Issued(db, user, drawn, tokens) && NIL_UUID !in db.sessions && Sessions.Keyed(db.sessions)
    requires forall i | 0 <= i < |run| :: ProperInsert(run[i])
    ensures var rows := Sessions.Run(db.sessions, run);
            && tokens.accessToken.sessionId !in rows
            && Sessions.Revoked(rows, tokens.accessToken.sessionId, now) == rows
            && Sessions.BulkRevoked(rows, user.id, Some(tokens.accessToken.sessionId), now)
                 == Sessions.BulkRevoked(rows, user.id, None, now)
  {
    NilIsNeverASession(db.sessions, run);
    var rows := Sessions.Run(db.sessions, run);
    RunKeepsKeyed(db.sessions, run);
    assert forall id | id in rows :: rows[id].id != NIL_UUID;
  }

  lemma {:induction false} RunKeepsKeyed(rows: Sessions.Table, run: seq<Sessions.Event>)
    requires Sessions.Keyed(rows)
    ensures Sessions.Keyed(Sessions.Run(rows, run))
    decreases |run|
  {
    if run != [] {
      RunKeepsKeyed(Sessions.Step(rows, run[0]), run[1..]);
    }
  }

  // ---------- Password changes ----------

  /** After a successful change, along any later run and at any later time, none of the sessions the
      user had resolves; and if the credential was the one newest of its kind, the next login checks
      the new hash. */
  lemma PasswordChangeEndsSessions(config: Config, before: Database, after: Database, user: nat,
                                   cred: Option<Accounts.Credential>, oldPassword: string, hashed: Option<string>,
                                   now: int, run: seq<Sessions.Event>, later: int)
    requires Sound(before) && Sessions.ColumnsUnique(before.sessions) && now <= later
    requires Accounts.Newest(before.credentials, user, Accounts.PASSWORD, cred)
    requires PasswordChanged(config, before, after, user, cred, oldPassword, hashed, now, None)
    ensures forall id | id in before.sessions && before.sessions[id].userId == user ::
              && id in Sessions.Run(after.sessions, run)
              && !Sessions.Resolves(Sessions.Run(after.sessions, run)[id], before.sessions[id].refreshTokenHash, later)
    ensures forall id | id in before.sessions && before.sessions[id].userId != user ::
              id in after.sessions && after.sessions[id] == before.sessions[id]
    ensures (forall id | id in before.credentials && id != cred.value.id &&
                         Accounts.Usable(before.credentials[id], user, Accounts.PASSWORD) ::
               before.credentials[id].createdAt < cred.value.createdAt) ==>
            forall next :: Accounts.Newest(after.credentials, user, Accounts.PASSWORD, next) ==>
              next.Some? && next.value.hash == hashed
  {
    var e := Sessions.Event(Sessions.RevokeAll(user, None), now);
    Sessions.StepKeepsColumnsUnique(before.sessions, e);
    Sessions.BulkRevocationIsExact(before.sessions, user, None, now, later);
    forall id | id in before.sessions && before.sessions[id].userId == user
      ensures id in Sessions.Run(after.sessions, run)
      ensures !Sessions.Resolves(Sessions.Run(after.sessions, run)[id], before.sessions[id].refreshTokenHash, later)
    {
      Sessions.DeadSessionsStayDead(after.sessions, run, id, now, later);
    }
  }

  // ---------- Deleted users ----------

  /** From an empty database, a user deleted at any point is selected by no later lookup, logs in never
      again, and refreshing a session left over fails as it would for an account that does not exist. */
  lemma DeletedUsersStayOut(earlier: seq<(Accounts.Statement, int)>, later: seq<(Accounts.Statement, int)>, id: nat,
                            config: Config, before: Database, after: Database, req: LoginRequest, drawn: Drawn,
                            r: Result<TokenPair, AppError>)
    requires var mid := Accounts.Run(Accounts.State(map[], map[]), earlier);
             id in mid.users && mid.users[id].deletedAt.Some? && before.users == Accounts.Run(mid, later).users
    requires LoginEffect(config, before, after, req, drawn, r)
    ensures forall key, user | Found(before.users, key, user) :: user.Some? ==> user.value.id != id
    ensures r.Ok? ==> r.value.accessToken.userId != id
    ensures forall s: Sessions.Session, now | s.userId == id ::
              RefreshError(before, s, now) == if Sessions.IsRevoked(s, now) then SessionRevoked else Internal
  {
    Accounts.TombstonesAreFinal(earlier, later, id);
    LoginIsGuarded(config, before, after, req, drawn, r);
  }

  // ---------- Permissions, from the tables to the token check ----------

  ghost predicate MayDo(st: Roles.State, user: nat, now: int, resource: string, action: string)
  {
    exists p | p in st.permissions ::
      Roles.Reaches(st, user, p, now) && st.permissions[p].resource == resource && st.permissions[p].action == action
  }

  /** The gateway-side check on a token issued by a login, against the tables at that moment: for
      colon-free resources it grants exactly what the user can reach, or everything to a user who
      reaches the wildcard. */
  lemma TokenMatchesTables(st: Roles.State, user: nat, now: int, strs: seq<string>, resource: string, action: string)
    requires CarriesPermissions(st, user, now, strs)
    requires PermissionCodec.ColonFree(resource)
    requires forall p | p in st.permissions :: PermissionCodec.ColonFree(st.permissions[p].resource)
    ensures PermissionCodec.Encode(resource, action) in strs || "*:*" in strs <==>
            MayDo(st, user, now, resource, action) || MayDo(st, user, now, "*", "*")
  {
    EncodedExactly(st, user, now, strs, resource, action);
    PermissionCodec.OnlyTheWildcardPairEncodesAsWildcard("*", "*");
    EncodedExactly(st, user, now, strs, "*", "*");
  }

  lemma EncodedExactly(st: Roles.State, user: nat, now: int, strs: seq<string>, resource: string, action: string)
    requires CarriesPermissions(st, user, now, strs) && PermissionCodec.ColonFree(resource)
    requires forall p | p in st.permissions :: PermissionCodec.ColonFree(st.permissions[p].resource)
    ensures PermissionCodec.Encode(resource, action) in strs <==> MayDo(st, user, now, resource, action)
  {
    forall p | p in st.permissions
      ensures PermissionCodec.Encode(st.permissions[p].resource, st.permissions[p].action) ==
              PermissionCodec.Encode(resource, action) <==>
              st.permissions[p].resource == resource && st.permissions[p].action == action
    {
      PermissionCodec.ColonFreeEncodingInjective(st.permissions[p].resource, st.permissions[p].action, resource, action);
    }
  }
}
