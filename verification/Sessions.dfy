/** The session table: inserts under a primary key and two unique columns, revocation, and the lookup
    by refresh-token hash, over every interleaving of statements. */
module Sessions {
  import opened Wrappers

  datatype Session = Session(id: nat, userId: nat, refreshTokenHash: string, accessTokenId: Option<string>,
                             deviceType: Option<string>, expiresAt: int, revokedAt: Option<int>,
                             lastActivityAt: Option<int>, createdAt: int, updatedAt: int)

  type Table = map<nat, Session>

  datatype DbError = DuplicateKey | DuplicateHash | DuplicateAccessToken | NoSuchUser

  // ---------- Statements ----------

  /** Why an INSERT is refused, if it is: `id` is the primary key, the refresh-token hash and the
      access-token id are UNIQUE (the latter over non-NULL values), the user must exist. */
  function Violation(rows: Table, users: set<nat>, s: Session): Option<DbError>
  {
    if s.id in rows then Some(DuplicateKey)
    else if exists id | id in rows :: rows[id].refreshTokenHash == s.refreshTokenHash then Some(DuplicateHash)
    else if s.accessTokenId.Some? && exists id | id in rows :: rows[id].accessTokenId == s.accessTokenId
      then Some(DuplicateAccessToken)
    else if s.userId !in users then Some(NoSuchUser)
    else None
  }

  function Inserted(rows: Table, users: set<nat>, s: Session): Table
  {
    if Violation(rows, users, s).None? then rows[s.id := s] else rows
  }

  function Revoked(rows: Table, id: nat, now: int): Table
  {
    if id !in rows then rows else rows[id := rows[id].(revokedAt := Some(now), updatedAt := now)]
  }

  predicate BulkTarget(s: Session, user: nat, except: Option<nat>)
  {
    s.userId == user && except != Some(s.id) && s.revokedAt.None?
  }

  function BulkRevoked(rows: Table, user: nat, except: Option<nat>, now: int): Table
  {
    map id | id in rows :: if BulkTarget(rows[id], user, except)
                           then rows[id].(revokedAt := Some(now), updatedAt := now) else rows[id]
  }

  function Touched(rows: Table, id: nat, now: int): Table
  {
    if id !in rows then rows else rows[id := rows[id].(lastActivityAt := Some(now), updatedAt := now)]
  }

  /** What `WHERE refresh_token_hash = $1 AND (revoked_at IS NULL AND expires_at > NOW())` selects. */
  predicate Resolves(s: Session, hash: string, now: int)
  {
    s.refreshTokenHash == hash && s.revokedAt.None? && s.expiresAt > now
  }

  /** The check the use cases make on a session they have loaded. */
  function IsRevoked(s: Session, now: int): bool
  {
    s.revokedAt.Some? || now > s.expiresAt
  }

  /** The in-memory check and the lookup agree except at the very instant of expiry. */
  lemma ChecksDifferOnlyAtExpiry(s: Session, now: int)
    ensures (!IsRevoked(s, now) <==> Resolves(s, s.refreshTokenHash, now))
            <==> !(s.revokedAt.None? && now == s.expiresAt)
  {
  }

  class SessionRepo {
    var rows: Table

    constructor ()
      ensures rows == map[]
    {
      rows := map[];
    }

    method Create(s: Session, users: set<nat>) returns (failure: Option<DbError>)
      modifies this
      ensures rows == Inserted(old(rows), users, s) && failure == Violation(old(rows), users, s)
    {
      failure := Violation(rows, users, s);
      if failure.None? {
        rows := rows[s.id := s];
      }
    }

    method GetByID(id: nat) returns (found: Option<Session>)
      ensures found == if id in rows then Some(rows[id]) else None
    {
      return if id in rows then Some(rows[id]) else None;
    }

    method GetByRefreshTokenHash(hash: string, now: int) returns (found: Option<Session>)
      ensures found.Some? ==> Resolves(found.value, hash, now) && exists id | id in rows :: rows[id] == found.value
      ensures found.None? ==> forall id | id in rows :: !Resolves(rows[id], hash, now)
    {
      if id :| id in rows && Resolves(rows[id], hash, now) {
        return Some(rows[id]);
      } else {
        return None;
      }
    }

    method Revoke(id: nat, now: int)
      modifies this
      ensures rows == Revoked(old(rows), id, now)
    {
      if id in rows {
        rows := rows[id := rows[id].(revokedAt := Some(now), updatedAt := now)];
      }
    }

    /** One UPDATE over the table, row by row in any order. */
    method RevokeAllUserSessions(user: nat, except: Option<nat>, now: int)
      modifies this
      ensures rows == BulkRevoked(old(rows), user, except, now)
    {
      var todo := rows.Keys;
      while todo != {}
        invariant todo <= rows.Keys == old(rows).Keys
        invariant forall id | id in rows :: rows[id] ==
                    if id in todo then old(rows)[id] else BulkRevoked(old(rows), user, except, now)[id]
        decreases todo
      {
        var id :| id in todo;
        if BulkTarget(rows[id], user, except) {
          rows := rows[id := rows[id].(revokedAt := Some(now), updatedAt := now)];
        }
        todo := todo - {id};
      }
    }

    method UpdateActivity(id: nat, now: int)
      modifies this
      ensures rows == Touched(old(rows), id, now)
    {
      if id in rows {
        rows := rows[id := rows[id].(lastActivityAt := Some(now), updatedAt := now)];
      }
    }
  }

  // ---------- Runs ----------

  datatype Statement =
    | Create(s: Session, users: set<nat>)
    | Revoke(id: nat)
    | RevokeAll(user: nat, except: Option<nat>)
    | Touch(id: nat)

  datatype Event = Event(statement: Statement, at: int)

  function Step(rows: Table, e: Event): Table
  {
    match e.statement
    case Create(s, users) => Inserted(rows, users, s)
    case Revoke(id) => Revoked(rows, id, e.at)
    case RevokeAll(user, except) => BulkRevoked(rows, user, except, e.at)
    case Touch(id) => Touched(rows, id, e.at)
  }

  function Run(rows: Table, run: seq<Event>): Table
    decreases |run|
  {
    if run == [] then rows else Run(Step(rows, run[0]), run[1..])
  }

  predicate Keyed(rows: Table) { forall id | id in rows :: rows[id].id == id }

  /** The columns no statement ever writes again. */
  predicate SameIdentity(before: Session, after: Session)
  {
    before.id == after.id && before.userId == after.userId && before.refreshTokenHash == after.refreshTokenHash &&
    before.accessTokenId == after.accessTokenId && before.expiresAt == after.expiresAt &&
    before.createdAt == after.createdAt
  }

  /** Rows are write-once in identity, owner, hash and expiry, are never removed, and revocation is
      never undone. */
  lemma {:induction false} RowsAreWriteOnce(rows: Table, run: seq<Event>, id: nat)
    requires Keyed(rows) && id in rows
    ensures Keyed(Run(rows, run)) && id in Run(rows, run)
    ensures SameIdentity(rows[id], Run(rows, run)[id])
    ensures rows[id].revokedAt.Some? ==> Run(rows, run)[id].revokedAt.Some?
    decreases |run|
  {
    if run != [] {
      RowsAreWriteOnce(Step(rows, run[0]), run[1..], id);
    }
  }

  ghost predicate ColumnsUnique(rows: Table)
  {
    && Keyed(rows)
    && forall i, j | i in rows && j in rows && i != j ::
         && rows[i].refreshTokenHash != rows[j].refreshTokenHash
         && (rows[i].accessTokenId.Some? ==> rows[i].accessTokenId != rows[j].accessTokenId)
  }

  lemma StepKeepsColumnsUnique(rows: Table, e: Event)
    requires ColumnsUnique(rows)
    ensures ColumnsUnique(Step(rows, e))
  {
  }

  lemma {:induction false} RunKeepsColumnsUnique(rows: Table, run: seq<Event>)
    requires ColumnsUnique(rows)
    ensures ColumnsUnique(Run(rows, run))
    decreases |run|
  {
    if run != [] {
      StepKeepsColumnsUnique(rows, run[0]);
      RunKeepsColumnsUnique(Step(rows, run[0]), run[1..]);
    }
  }

  predicate Dead(s: Session, now: int)
  {
    s.revokedAt.Some? || s.expiresAt <= now
  }

  /** Once a session is revoked or expired, then after any further statements and at any later time
      its refresh token resolves to nothing at all: not to it, and not to any other session. */
  lemma DeadSessionsStayDead(rows: Table, run: seq<Event>, id: nat, now: int, later: int)
    requires ColumnsUnique(rows) && id in rows && Dead(rows[id], now)
    requires now <= later
    ensures id in Run(rows, run) && Dead(Run(rows, run)[id], later)
    ensures forall other | other in Run(rows, run) ::
              !Resolves(Run(rows, run)[other], rows[id].refreshTokenHash, later)
  {
    RowsAreWriteOnce(rows, run, id);
    RunKeepsColumnsUnique(rows, run);
  }

  /** From an empty table, only the hash a session was created with ever resolves to it, and at most
      one session resolves. */
  lemma {:induction false} OnlyCreationHashesExist(rows: Table, run: seq<Event>, id: nat)
    requires Keyed(rows)
    requires id in Run(rows, run) && id !in rows
    ensures exists i | 0 <= i < |run| :: run[i].statement.Create? && run[i].statement.s.id == id &&
              SameIdentity(run[i].statement.s, Run(rows, run)[id])
    decreases |run|
  {
    if run != [] {
      var next := Step(rows, run[0]);
      if id in next {
        RowsAreWriteOnce(next, run[1..], id);
        assert run[0].statement.Create?;
      } else {
        OnlyCreationHashesExist(next, run[1..], id);
        var i :| 0 <= i < |run[1..]| && run[1..][i].statement.Create? && run[1..][i].statement.s.id == id &&
                 SameIdentity(run[1..][i].statement.s, Run(rows, run)[id]);
        assert run[i + 1] == run[1..][i];
      }
    }
  }

  lemma TokensResolveToTheirCreation(run: seq<Event>, hash: string, now: int, i: nat, j: nat)
    requires i in Run(map[], run) && Resolves(Run(map[], run)[i], hash, now)
    requires j in Run(map[], run) && Resolves(Run(map[], run)[j], hash, now)
    ensures i == j
    ensures exists k | 0 <= k < |run| :: run[k].statement.Create? && run[k].statement.s.id == i &&
              run[k].statement.s.refreshTokenHash == hash
  {
    RunKeepsColumnsUnique(map[], run);
    OnlyCreationHashesExist(map[], run, i);
    var k :| 0 <= k < |run| && run[k].statement.Create? && run[k].statement.s.id == i &&
             SameIdentity(run[k].statement.s, Run(map[], run)[i]);
  }

  /** Bulk revocation ends exactly the user's running sessions other than the excepted one. */
  lemma BulkRevocationIsExact(rows: Table, user: nat, except: Option<nat>, now: int, later: int)
    requires Keyed(rows) && now <= later
    ensures var after := BulkRevoked(rows, user, except, now);
            after.Keys == rows.Keys &&
            (forall id | id in rows && rows[id].userId == user && except != Some(id) ::
              after[id].revokedAt.Some? && Dead(after[id], later) &&
              (rows[id].revokedAt.Some? ==> after[id] == rows[id])) &&
            (forall id | id in rows && (rows[id].userId != user || except == Some(id)) :: after[id] == rows[id])
  {
  }

  // ---------- What the statements write ----------

  /** An insert is refused exactly for a known id, a known hash, a known access-token id that is not NULL,
      or an unknown user; otherwise the row is added as given and no other row changes. */
  lemma InsertionIsExact(rows: Table, users: set<nat>, s: Session)
    ensures Violation(rows, users, s) == None <==>
              && s.id !in rows && s.userId in users
              && forall id | id in rows ::
                   && rows[id].refreshTokenHash != s.refreshTokenHash
                   && (s.accessTokenId != None ==> rows[id].accessTokenId != s.accessTokenId)
    ensures Inserted(rows, users, s) == if Violation(rows, users, s) == None then rows[s.id := s] else rows
  {
  }

  /** Revoking and touching write the stated columns of one row; the rest of it and all other rows stay. */
  lemma RowStatementsAreExact(rows: Table, id: nat, now: int)
    ensures var revoked := Revoked(rows, id, now);
            && revoked.Keys == rows.Keys && (forall other | other in rows && other != id :: revoked[other] == rows[other])
            && (id in rows ==>
                  && revoked[id].revokedAt == Some(now) && revoked[id].updatedAt == now
                  && revoked[id] == rows[id].(revokedAt := revoked[id].revokedAt, updatedAt := revoked[id].updatedAt))
    ensures var touched := Touched(rows, id, now);
            && touched.Keys == rows.Keys && (forall other | other in rows && other != id :: touched[other] == rows[other])
            && (id in rows ==>
                  && touched[id].lastActivityAt == Some(now) && touched[id].updatedAt == now
                  && touched[id] ==
                       rows[id].(lastActivityAt := touched[id].lastActivityAt, updatedAt := touched[id].updatedAt))
  {
  }

  /** A revocation of one session ends it for good and no other: over any later run its token resolves to
      nothing, while at that moment every other row is as it was. */
  lemma RevocationEndsOne(rows: Table, id: nat, now: int, run: seq<Event>, later: int)
    requires ColumnsUnique(rows) && id in rows && now <= later
    ensures var after := Run(Revoked(rows, id, now), run);
            && id in after && after[id].revokedAt != None
            && forall other | other in after :: !Resolves(after[other], rows[id].refreshTokenHash, later)
  {
    StepKeepsColumnsUnique(rows, Event(Revoke(id), now));
    RowsAreWriteOnce(Revoked(rows, id, now), run, id);
    DeadSessionsStayDead(Revoked(rows, id, now), run, id, now, later);
  }

  /** Which users' sessions exist: over every run only those that existed when they were inserted. */
  lemma {:induction false} SessionsHaveUsers(rows: Table, run: seq<Event>, users: set<nat>)
    requires forall id | id in rows :: rows[id].userId in users
    requires forall i | 0 <= i < |run| && run[i].statement.Create? :: run[i].statement.users <= users
    ensures forall id | id in Run(rows, run) :: Run(rows, run)[id].userId in users
    decreases |run|
  {
    if run != [] {
      SessionsHaveUsers(Step(rows, run[0]), run[1..], users);
    }
  }
}
