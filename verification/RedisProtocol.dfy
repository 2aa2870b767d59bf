/** The Redis limiter under concurrency: the check and the add of a request are separate steps, so
    any number of clients can pass the check before any of them adds. Interleavings and clocks are
    arbitrary; in particular clients may disagree about the time. */
module RedisProtocol {
  import opened Basics
  import opened Text
  import opened RedisLimiter

  /** The shared set, and the second each client that has passed its check will add. */
  datatype State = State(members: SortedSet, pending: seq<nat>)

  datatype Action =
    | Check(now: nat)     // a client prunes and counts, and becomes pending if it passes
    | Add(client: nat)    // a pending client performs its ZADD
    | Drop                // the key reaches its deadline

  const INITIAL := State(map[], [])

  function Prune(members: SortedSet, window: nat, now: nat): SortedSet
  {
    RemRangeByScore(members, 0, Seconds(now) - Seconds(window))
  }

  function Step(st: State, action: Action, key: string, burst: int, window: nat): State
  {
    match action
    case Check(now) =>
      var left := Prune(st.members, window, now);
      State(left, if |left| >= burst then st.pending else st.pending + [Seconds(now)])
    case Add(client) =>
      if client >= |st.pending| then st
      else State(st.members[Member(st.pending[client], key) := st.pending[client]],
                 st.pending[..client] + st.pending[client + 1..])
    case Drop => st.(members := map[])
  }

  function Run(actions: seq<Action>, key: string, burst: int, window: nat): State
  {
    if actions == [] then INITIAL
    else
      var last := |actions| - 1;
      Step(Run(actions[..last], key, burst, window), actions[last], key, burst, window)
  }

  /** At every point of the run at most `clients` clients are between their check and their add. */
  predicate AtMostPending(actions: seq<Action>, key: string, burst: int, window: nat, clients: nat)
  {
    |Run(actions, key, burst, window).pending| <= clients &&
    (actions == [] || AtMostPending(actions[..|actions| - 1], key, burst, window, clients))
  }

  /** Whatever the interleaving, the set overshoots the burst by at most the clients in between. */
  lemma {:induction false} OvershootBounded(actions: seq<Action>, key: string, burst: int, window: nat, clients: nat)
    requires burst >= 1 && AtMostPending(actions, key, burst, window, clients)
    ensures var st := Run(actions, key, burst, window);
            |st.members| + |st.pending| <= burst - 1 + clients
  {
    if actions != [] {
      var last := |actions| - 1;
      OvershootBounded(actions[..last], key, burst, window, clients);
      var st := Run(actions[..last], key, burst, window);
      match actions[last] {
        case Check(now) =>
          SubsetSize(Prune(st.members, window, now).Keys, st.members.Keys);
        case Add(client) =>
          if client < |st.pending| {
            AddedOne(st.members, Member(st.pending[client], key), st.pending[client]);
          }
        case Drop =>
      }
    }
  }

  /** With one client at a time the set never exceeds the burst. */
  lemma SingleClientKeepsBurst(actions: seq<Action>, key: string, burst: int, window: nat)
    requires burst >= 1 && AtMostPending(actions, key, burst, window, 1)
    ensures |Run(actions, key, burst, window).members| <= burst
  {
    OvershootBounded(actions, key, burst, window, 1);
  }

  // ---------- The bound is reached ----------

  /** The set holding the seconds m + 1, ..., n. Clocks run backwards below, so that nothing a later
      client finds is ever old enough to prune. */
  function Filled(m: nat, n: nat, key: string): SortedSet
    requires m <= n
    decreases n - m
  {
    if m == n then map[] else Filled(m + 1, n, key)[Member(m + 1, key) := m + 1]
  }

  lemma {:induction false} FilledSize(m: nat, n: nat, key: string)
    requires m <= n
    ensures |Filled(m, n, key)| == n - m
    ensures forall x | x in Filled(m, n, key) ::
              exists s: nat :: m < s <= n && x == Member(s, key) && Filled(m, n, key)[x] == s
    decreases n - m
  {
    if m < n {
      FilledSize(m + 1, n, key);
      var before := Filled(m + 1, n, key);
      if Member(m + 1, key) in before {
        var s: nat :| m + 1 < s <= n && Member(m + 1, key) == Member(s, key);
        MemberInjective(m + 1, s, key);
      }
      assert Filled(m, n, key).Keys == before.Keys + {Member(m + 1, key)};
      forall x | x in Filled(m, n, key)
        ensures exists s: nat :: m < s <= n && x == Member(s, key) && Filled(m, n, key)[x] == s
      {
        if x == Member(m + 1, key) {
          assert Filled(m, n, key)[x] == m + 1;
        } else {
          var s: nat :| m + 1 < s <= n && x == Member(s, key) && before[x] == s;
          assert Filled(m, n, key)[x] == s;
        }
      }
    }
  }

  lemma NothingPruned(m: nat, n: nat, key: string, window: nat, now: nat)
    requires m <= n && Seconds(now) <= m
    ensures Prune(Filled(m, n, key), window, now) == Filled(m, n, key)
  {
    FilledSize(m, n, key);
  }

  lemma CheckPasses(m: nat, n: nat, pending: seq<nat>, second: nat, key: string, burst: int, window: nat)
    requires second <= m <= n && n - m < burst
    ensures Step(State(Filled(m, n, key), pending), Check(second * SECOND), key, burst, window)
            == State(Filled(m, n, key), pending + [second])
  {
    FilledSize(m, n, key);
    assert Seconds(second * SECOND) == second;
    NothingPruned(m, n, key, window, second * SECOND);
  }

  lemma FirstAdds(m: nat, n: nat, pending: seq<nat>, key: string, burst: int, window: nat)
    requires 1 <= m <= n && pending != [] && pending[0] == m
    ensures Step(State(Filled(m, n, key), pending), Add(0), key, burst, window)
            == State(Filled(m - 1, n, key), pending[1..])
  {
    assert pending[..0] + pending[1..] == pending[1..];
  }

  lemma Extend(actions: seq<Action>, action: Action, next: State, key: string, burst: int, window: nat, clients: nat)
    requires AtMostPending(actions, key, burst, window, clients)
    requires Step(Run(actions, key, burst, window), action, key, burst, window) == next && |next.pending| <= clients
    ensures Run(actions + [action], key, burst, window) == next
    ensures AtMostPending(actions + [action], key, burst, window, clients)
  {
    assert (actions + [action])[..|actions|] == actions;
  }

  /** The seconds m, m - 1, ..., k of them. */
  function Upcoming(m: nat, k: nat): seq<nat>
    requires k <= m
  {
    seq(k, i requires 0 <= i < k => m - i)
  }

  /** Requests one after the other, in the seconds n, n - 1, ..., m + 1. */
  lemma {:induction false} FillSerially(m: nat, n: nat, key: string, burst: int, window: nat, clients: nat)
    returns (actions: seq<Action>)
    requires m <= n && n - m < burst && clients >= 1
    ensures Run(actions, key, burst, window) == State(Filled(m, n, key), [])
    ensures AtMostPending(actions, key, burst, window, clients)
    decreases n - m
  {
    if m == n {
      return [];
    }
    actions := FillSerially(m + 1, n, key, burst, window, clients);
    CheckPasses(m + 1, n, [], m + 1, key, burst, window);
    Extend(actions, Check((m + 1) * SECOND), State(Filled(m + 1, n, key), [m + 1]), key, burst, window, clients);
    actions := actions + [Check((m + 1) * SECOND)];
    FirstAdds(m + 1, n, [m + 1], key, burst, window);
    Extend(actions, Add(0), State(Filled(m, n, key), []), key, burst, window, clients);
    actions := actions + [Add(0)];
  }

  /** Then `k` clients pass their checks, in earlier and earlier seconds, before any of them adds. */
  lemma {:induction false} CheckTogether(m: nat, n: nat, k: nat, key: string, burst: int, window: nat, clients: nat)
    returns (actions: seq<Action>)
    requires m <= n && n - m < burst && k <= m && k <= clients && clients >= 1
    ensures Run(actions, key, burst, window) == State(Filled(m, n, key), Upcoming(m, k))
    ensures AtMostPending(actions, key, burst, window, clients)
    decreases k
  {
    if k == 0 {
      actions := FillSerially(m, n, key, burst, window, clients);
      return;
    }
    actions := CheckTogether(m, n, k - 1, key, burst, window, clients);
    var second := m - (k - 1);
    CheckPasses(m, n, Upcoming(m, k - 1), second, key, burst, window);
    assert Upcoming(m, k - 1) + [second] == Upcoming(m, k);
    Extend(actions, Check(second * SECOND), State(Filled(m, n, key), Upcoming(m, k)), key, burst, window, clients);
    actions := actions + [Check(second * SECOND)];
  }

  /** Finally the first `j` of them add. */
  lemma {:induction false} AddTogether(m: nat, n: nat, j: nat, k: nat, key: string, burst: int, window: nat, clients: nat)
    returns (actions: seq<Action>)
    requires m <= n && n - m < burst && j <= k <= m && k <= clients && clients >= 1
    ensures Run(actions, key, burst, window) == State(Filled(m - j, n, key), Upcoming(m - j, k - j))
    ensures AtMostPending(actions, key, burst, window, clients)
    decreases j
  {
    if j == 0 {
      actions := CheckTogether(m, n, k, key, burst, window, clients);
      return;
    }
    actions := AddTogether(m, n, j - 1, k, key, burst, window, clients);
    var now, left := m - (j - 1), k - (j - 1);
    UpcomingNext(now, left);
    FirstAdds(now, n, Upcoming(now, left), key, burst, window);
    Extend(actions, Add(0), State(Filled(now - 1, n, key), Upcoming(now - 1, left - 1)), key, burst, window, clients);
    actions := actions + [Add(0)];
  }

  lemma UpcomingNext(m: nat, k: nat)
    requires 1 <= k <= m
    ensures Upcoming(m, k)[0] == m && Upcoming(m, k)[1..] == Upcoming(m - 1, k - 1)
  {
  }

  /** The bound is sharp: for every burst, window and number of clients some interleaving fills the set
      to burst - 1 + clients. */
  lemma OvershootReached(key: string, burst: int, window: nat, clients: nat) returns (actions: seq<Action>)
    requires burst >= 1 && clients >= 1
    ensures AtMostPending(actions, key, burst, window, clients)
    ensures |Run(actions, key, burst, window).members| == burst - 1 + clients
  {
    var n: nat := burst - 1 + clients;
    actions := AddTogether(clients, n, clients, clients, key, burst, window, clients);
    FilledSize(0, n, key);
  }
}
