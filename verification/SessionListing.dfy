/** The session lists against the session table: what the list builder calls running and ended, and what
    the refresh lookup and the use cases make of the same rows. */
module SessionListing {
  import opened Wrappers
  import opened Sessions
  import E = SqlEngine
  import B = SqlBuilders

  /** The columns of a session that the list builder filters on. */
  function RowOf(s: Session): E.Row
  {
    E.SessionRow(s.id, s.userId, s.deviceType, s.expiresAt, s.revokedAt)
  }

  function RowsOf(table: seq<Session>): seq<E.Row>
  {
    if table == [] then [] else [RowOf(table[0])] + RowsOf(table[1..])
  }

  /** The user's sessions whose refresh token still resolves, in table order; or those that are dead. */
  function Resolving(table: seq<Session>, user: nat, now: int): seq<Session>
  {
    if table == [] then []
    else (if table[0].userId == user && Resolves(table[0], table[0].refreshTokenHash, now) then [table[0]] else [])
         + Resolving(table[1..], user, now)
  }

  function DeadOnes(table: seq<Session>, user: nat, now: int): seq<Session>
  {
    if table == [] then []
    else (if table[0].userId == user && Dead(table[0], now) then [table[0]] else []) + DeadOnes(table[1..], user, now)
  }

  function Asking(user: nat, ended: bool): B.Query
  {
    B.SessionQuery(user, B.SessionFilter(None, None, Some(ended), 0, 0))
  }

  lemma {:induction false} AllSessionRows(table: seq<Session>, user: nat, ended: bool)
    ensures B.AllRowsOf(Asking(user, ended), RowsOf(table))
  {
    if table != [] {
      AllSessionRows(table[1..], user, ended);
    }
  }

  /** For a user and any session table: the running list holds exactly the sessions the refresh lookup
      would find by their own token, and the ended list exactly the dead ones. */
  lemma {:induction false} ListsAreResolvingAndDead(table: seq<Session>, user: nat, now: int)
    ensures B.AllRowsOf(Asking(user, false), RowsOf(table)) && B.AllRowsOf(Asking(user, true), RowsOf(table))
    ensures B.Matching(Asking(user, false), now, RowsOf(table)) == RowsOf(Resolving(table, user, now))
    ensures B.Matching(Asking(user, true), now, RowsOf(table)) == RowsOf(DeadOnes(table, user, now))
  {
    AllSessionRows(table, user, false);
    AllSessionRows(table, user, true);
    if table != [] {
      ListsAreResolvingAndDead(table[1..], user, now);
      var s := table[0];
      assert RowsOf(table)[1..] == RowsOf(table[1..]);
      RunningIsResolving(s, user, now);
      var running, dead := Resolving(table[1..], user, now), DeadOnes(table[1..], user, now);
      RowsOfMore(s, running);
      RowsOfMore(s, dead);
      assert [] + running == running && [] + dead == dead;
    }
  }

  lemma RowsOfMore(s: Session, table: seq<Session>)
    ensures RowsOf([s] + table) == [RowOf(s)] + RowsOf(table)
  {
    assert ([s] + table)[1..] == table;
  }

  /** Row by row: running for the list is resolving for the lookup, and ended is dead. */
  lemma RunningIsResolving(s: Session, user: nat, now: int)
    ensures B.Matches(Asking(user, false), now, RowOf(s)) <==>
            s.userId == user && Resolves(s, s.refreshTokenHash, now)
    ensures B.Matches(Asking(user, true), now, RowOf(s)) <==> s.userId == user && Dead(s, now)
  {
  }
}
