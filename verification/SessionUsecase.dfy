/** The session-management use cases: revoking one session, or all of a user's but one. */
module SessionUsecase {
  import opened AppErrors
  import opened Wrappers
  import opened Sessions

  /** The error of a revocation and the table after it. */
  function Revocation(rows: Table, id: nat, now: int): (Table, Option<AppError>)
  {
    if id !in rows then (rows, Some(NotFound))
    else if IsRevoked(rows[id], now) then (rows, Some(BadRequest))
    else (Revoked(rows, id, now), None)
  }

  class SessionUsecase {
    const sessionRepo: SessionRepo

    constructor (sessionRepo: SessionRepo)
      ensures this.sessionRepo == sessionRepo
    {
      this.sessionRepo := sessionRepo;
    }

    method RevokeSession(id: nat, now: int) returns (failure: Option<AppError>)
      modifies sessionRepo
      ensures (sessionRepo.rows, failure) == Revocation(old(sessionRepo.rows), id, now)
    {
      var session := sessionRepo.GetByID(id);
      if session.None? {
        return Some(NotFound);
      }
      if IsRevoked(session.value, now) {
        return Some(BadRequest);
      }
      sessionRepo.Revoke(id, now);
      return None;
    }

    method RevokeAllOtherSessions(user: nat, current: nat, now: int)
      modifies sessionRepo
      ensures sessionRepo.rows == BulkRevoked(old(sessionRepo.rows), user, Some(current), now)
    {
      sessionRepo.RevokeAllUserSessions(user, Some(current), now);
    }

    method UpdateSessionActivity(id: nat, now: int)
      modifies sessionRepo
      ensures sessionRepo.rows == Touched(old(sessionRepo.rows), id, now)
    {
      sessionRepo.UpdateActivity(id, now);
    }
  }

  /** Every revocation: not found, already revoked or past its expiry, or one row revoked and no other row
      changed. */
  lemma RevocationIsExact(rows: Table, id: nat, now: int)
    ensures var (after, failure) := Revocation(rows, id, now);
            && (failure == Some(NotFound) <==> id !in rows)
            && (failure == Some(BadRequest) <==> id in rows && (rows[id].revokedAt != None || now > rows[id].expiresAt))
            && (failure == None <==> id in rows && rows[id].revokedAt == None && now <= rows[id].expiresAt)
            && after == if failure == None then rows[id := rows[id].(revokedAt := Some(now), updatedAt := now)] else rows
  {
  }

  /** A session is revoked at most once: after a successful call, and whatever statements follow, every
      further call for it is refused and changes nothing. */
  lemma RevokedOnce(rows: Table, id: nat, now: int, run: seq<Event>, later: int)
    requires Keyed(rows) && Revocation(rows, id, now).1.None?
    ensures var after := Run(Revocation(rows, id, now).0, run);
            Revocation(after, id, later) == (after, Some(BadRequest))
  {
    RowsAreWriteOnce(Revocation(rows, id, now).0, run, id);
  }

  /** The call is refused as already revoked exactly for the rows whose token no longer resolves, apart
      from a running session at the very instant of its expiry. */
  lemma RefusedExactlyWhenDead(rows: Table, id: nat, now: int)
    requires id in rows && !(rows[id].revokedAt.None? && rows[id].expiresAt == now)
    ensures Revocation(rows, id, now).1 == Some(BadRequest) <==> Dead(rows[id], now)
    ensures Revocation(rows, id, now).1 == None <==> Resolves(rows[id], rows[id].refreshTokenHash, now)
  {
    ChecksDifferOnlyAtExpiry(rows[id], now);
  }

  /** After revoking all others, over any later run and at any later time, a session the user had then
      resolves only if it is the excepted one and was running. */
  lemma OnlyTheCurrentSurvives(rows: Table, user: nat, current: nat, now: int, run: seq<Event>, later: int, id: nat)
    requires ColumnsUnique(rows) && id in rows && rows[id].userId == user && now <= later
    ensures var after := Run(BulkRevoked(rows, user, Some(current), now), run);
            id in after &&
            (Resolves(after[id], rows[id].refreshTokenHash, later) ==> id == current && !Dead(rows[id], now))
  {
    var mid := BulkRevoked(rows, user, Some(current), now);
    StepKeepsColumnsUnique(rows, Event(RevokeAll(user, Some(current)), now));
    BulkRevocationIsExact(rows, user, Some(current), now, later);
    RowsAreWriteOnce(mid, run, id);
    if id != current || Dead(rows[id], now) {
      DeadSessionsStayDead(mid, run, id, now, later);
    }
  }
}
