/** The gateway's in-memory rate limiter: a mutex-protected map of counters, one per key,
    whose windows restart on demand and whose stale entries a background sweep deletes.
    Times and durations are integers in nanoseconds. */
module LocalLimiter {
  import opened Basics
  import opened Wrappers

  const MINUTE := 60_000_000_000

  // Entries older than this are dropped by the sweep.
  const CLEANUP_AGE := 2 * MINUTE

  datatype Counter = Counter(count: int, window: int)

  datatype Decision = Allow | Reject(retryAfter: int)

  type Cache = map<string, Counter>

  /** What one limiter is given; zero means not specified. */
  datatype Limits = Limits(burst: int, window: int)

  datatype Config = Config(enabled: bool, defaultBurst: int, defaultWindow: int)

  function Effective(config: Config, asked: Limits): Limits
  {
    Limits(if asked.burst == 0 then config.defaultBurst else asked.burst,
           if asked.window != 0 then asked.window
           else if config.defaultWindow != 0 then config.defaultWindow else MINUTE)
  }

  function GlobalLimits(config: Config): Limits
  {
    Effective(config, Limits(config.defaultBurst, MINUTE))
  }

  function Entry(cache: Cache, key: string): Option<Counter>
  {
    if key in cache then Some(cache[key]) else None
  }

  // ---------- The decision as a function of the entry, and the imperative limiter ----------

  /** What one request does to its key's entry. */
  function Hit(entry: Option<Counter>, burst: int, window: int, now: int): (Counter, Decision)
  {
    if entry.None? || now - entry.value.window > window then (Counter(1, now), Allow)
    else if entry.value.count >= burst then
      (entry.value, Reject(Max(0, window - (now - entry.value.window))))
    else (entry.value.(count := entry.value.count + 1), Allow)
  }

  function Serve(cache: Cache, key: string, burst: int, window: int, now: int): (Cache, Decision)
  {
    var (counter, decision) := Hit(Entry(cache, key), burst, window, now);
    (cache[key := counter], decision)
  }

  function Swept(cache: Cache, now: int): Cache
  {
    map key | key in cache && !(now - cache[key].window > CLEANUP_AGE) :: cache[key]
  }

  class RateLimiter {
    var localCache: Cache

    constructor ()
      ensures localCache == map[]
    {
      localCache := map[];
    }

    method IsAllowedLocal(key: string, burst: int, window: int, now: int)
      returns (allowed: bool, retryAfter: int)
      modifies this
      ensures localCache == Serve(old(localCache), key, burst, window, now).0
      ensures Serve(old(localCache), key, burst, window, now).1 ==
              if allowed then Allow else Reject(retryAfter)
      ensures allowed ==> retryAfter == 0
    {
      if key !in localCache || now - localCache[key].window > window {
        localCache := localCache[key := Counter(1, now)];
        return true, 0;
      }
      var counter := localCache[key];
      if counter.count >= burst {
        retryAfter := window - (now - counter.window);
        if retryAfter < 0 {
          retryAfter := 0;
        }
        assert localCache == old(localCache)[key := counter];
        return false, retryAfter;
      }
      localCache := localCache[key := Counter(counter.count + 1, counter.window)];
      return true, 0;
    }

    /** One tick of the cleanup loop: visit the entries in any order, deleting while iterating. */
    method Cleanup(now: int)
      modifies this
      ensures localCache == Swept(old(localCache), now)
    {
      var pending := localCache.Keys;
      while pending != {}
        invariant pending <= localCache.Keys <= old(localCache).Keys
        invariant forall k | k in localCache :: localCache[k] == old(localCache)[k]
        invariant forall k | k in old(localCache) && k !in pending ::
                    k in localCache <==> !(now - old(localCache)[k].window > CLEANUP_AGE)
        decreases pending
      {
        var key :| key in pending;
        if now - localCache[key].window > CLEANUP_AGE {
          localCache := localCache - {key};
        }
        pending := pending - {key};
      }
    }

    /** The middleware of one limiter: a burst or window that is set is the one applied, an unset one is the
        configured default, and an unset default window is one minute. */
    method Limit(config: Config, key: string, asked: Limits, now: int) returns (allowed: bool)
      modifies this
      ensures !config.enabled ==> allowed && localCache == old(localCache)
      ensures config.enabled ==>
        var burst := if asked.burst != 0 then asked.burst else config.defaultBurst;
        var window := if asked.window != 0 then asked.window
                      else if config.defaultWindow != 0 then config.defaultWindow else 60_000_000_000;
        var (after, decision) := Serve(old(localCache), key, burst, window, now);
        localCache == after && (allowed <==> decision == Allow)
    {
      if !config.enabled {
        return true;
      }
      var burst, window := asked.burst, asked.window;
      if burst == 0 {
        burst := config.defaultBurst;
      }
      if window == 0 {
        window := config.defaultWindow;
        if window == 0 {
          window := MINUTE;
        }
      }
      var ok, _ := IsAllowedLocal(key, burst, window, now);
      return ok;
    }

    /** The gateway's middleware chain on the local path: the global limiter runs first, then, where the
        route asks for it, authentication and the endpoint limiter. Both limiters derive the same key. */
    method HandleRequest(config: Config, key: string, endpoint: Option<Limits>, visit: Visit) returns (admitted: bool)
      modifies this
      ensures (localCache, admitted) == Chain(config, old(localCache), Arrival(key, endpoint, visit))
      ensures forall k | k in old(localCache) && k != key :: k in localCache && localCache[k] == old(localCache)[k]
    {
      var allowed := Limit(config, key, Limits(config.defaultBurst, MINUTE), visit.globalAt);
      if !allowed {
        return false;
      }
      if !visit.authorized {
        return false;
      }
      if endpoint.None? {
        return true;
      }
      admitted := Limit(config, key, endpoint.value, visit.endpointAt);
      assert config.enabled ==> localCache == old(localCache)[key := localCache[key]];
    }
  }

  // ---------- Runs ----------

  datatype Event =
    | Request(key: string, burst: int, window: int, at: int)
    | Sweep(at: int)

  function Step(cache: Cache, e: Event): (Cache, seq<Decision>)
  {
    match e
    case Request(key, burst, window, at) =>
      var (next, decision) := Serve(cache, key, burst, window, at);
      (next, [decision])
    case Sweep(at) => (Swept(cache, at), [])
  }

  function After(cache: Cache, events: seq<Event>): Cache
    decreases |events|
  {
    if events == [] then cache else After(Step(cache, events[0]).0, events[1..])
  }

  function Decisions(cache: Cache, events: seq<Event>): seq<Decision>
    decreases |events|
  {
    if events == [] then []
    else Step(cache, events[0]).1 + Decisions(Step(cache, events[0]).0, events[1..])
  }

  /** The clock never goes back, starting at `start`. */
  predicate Monotone(events: seq<Event>, start: int)
  {
    events == [] || (start <= events[0].at && Monotone(events[1..], events[0].at))
  }

  // ---------- Whole-run bound on admissions ----------

  /** Every request on `key` uses these parameters; requests on other keys are arbitrary. */
  predicate Steady(events: seq<Event>, key: string, burst: int, window: int)
  {
    forall i | 0 <= i < |events| && events[i].Request? && events[i].key == key ::
      events[i].burst == burst && events[i].window == window
  }

  function AdmittedNow(cache: Cache, e: Event, key: string, low: int, high: int): nat
  {
    if e.Request? && e.key == key && low <= e.at <= high && Step(cache, e).1 == [Allow] then 1 else 0
  }

  /** Admissions on `key` with a time in the closed interval [low, high]. */
  function Admissions(cache: Cache, events: seq<Event>, key: string, low: int, high: int): nat
    decreases |events|
  {
    if events == [] then 0
    else AdmittedNow(cache, events[0], key, low, high) +
         Admissions(Step(cache, events[0]).0, events[1..], key, low, high)
  }

  lemma {:induction false} NoAdmissionsPast(cache: Cache, events: seq<Event>, key: string,
                                            low: int, high: int, start: int)
    requires Monotone(events, start) && high < start
    ensures Admissions(cache, events, key, low, high) == 0
    decreases |events|
  {
    if events != [] {
      NoAdmissionsPast(Step(cache, events[0]).0, events[1..], key, low, high, events[0].at);
    }
  }

  predicate Live(cache: Cache, key: string, window: int, now: int)
  {
    key in cache && now - cache[key].window <= window
  }

  /** How long a counter is sure to stay: until its window ends or the sweep may take it. */
  function Lifetime(window: int): int { Min(window, CLEANUP_AGE) }

  predicate Fresh(cache: Cache, key: string, window: int, now: int)
  {
    key in cache && now - cache[key].window <= Lifetime(window)
  }

  /** With `more` further windows able to start by `high`, what the key can still admit. */
  function Budget(cache: Cache, key: string, burst: int, window: int, now: int, more: nat): int
  {
    (if Live(cache, key, window, now) then Max(0, Max(1, burst) - cache[key].count) else 0)
    + more * Max(1, burst)
  }

  /** At most `more` windows can start at `now` or later and no later than `high`. */
  predicate WindowsLeft(cache: Cache, key: string, window: int, now: int, high: int, more: nat)
  {
    if Fresh(cache, key, window, now) then high <= cache[key].window + Lifetime(window) + more * Lifetime(window)
    else high < now || (more >= 1 && high <= now + more * Lifetime(window))
  }

  lemma {:induction false} AdmissionsWithinBudget(cache: Cache, events: seq<Event>, key: string, burst: int,
                                                  window: int, low: int, high: int, start: int, more: nat)
    requires Monotone(events, start) && Steady(events, key, burst, window) && window >= 0
    requires WindowsLeft(cache, key, window, start, high, more)
    ensures Admissions(cache, events, key, low, high) <= Budget(cache, key, burst, window, start, more)
    decreases |events|
  {
    if events == [] || high < events[0].at {
      if events != [] {
        NoAdmissionsPast(cache, events, key, low, high, events[0].at);
      }
      return;
    }
    var e := events[0];
    var next := Step(cache, e).0;
    LaterWindowsLeft(cache, key, window, start, e.at, high, more);
    if e.Request? && e.key == key && !Live(cache, key, window, e.at) {
      // A new window starts at e.at, so one of the remaining ones is used up.
      OneLess(more, Lifetime(window));
      OneLess(more, Max(1, burst));
      AdmissionsWithinBudget(next, events[1..], key, burst, window, low, high, e.at, more - 1);
    } else {
      AdmissionsWithinBudget(next, events[1..], key, burst, window, low, high, e.at, more);
    }
  }

  lemma OneLess(n: nat, m: int)
    requires n >= 1
    ensures n * m == (n - 1) * m + m
  {
  }

  lemma LaterWindowsLeft(cache: Cache, key: string, window: int, start: int, now: int, high: int, more: nat)
    requires window >= 0 && start <= now <= high && WindowsLeft(cache, key, window, start, high, more)
    ensures WindowsLeft(cache, key, window, now, high, more)
  {
    if Fresh(cache, key, window, start) && !Fresh(cache, key, window, now) {
      assert more == 0 ==> more * Lifetime(window) == 0;
    }
  }

  predicate Counted(cache: Cache)
  {
    forall key | key in cache :: cache[key].count >= 1
  }

  lemma {:induction false} AdmissionsInInterval(cache: Cache, events: seq<Event>, key: string, burst: int,
                                                window: int, low: int, windows: nat, start: int)
    requires Counted(cache) && Monotone(events, start) && Steady(events, key, burst, window)
    requires window >= 0 && windows >= 1
    ensures Admissions(cache, events, key, low, low + windows * Lifetime(window)) <= (windows + 1) * Max(1, burst) - 1
    decreases |events|
  {
    if events == [] { return; }
    var high := low + windows * Lifetime(window);
    if events[0].at < low {
      AdmissionsInInterval(Step(cache, events[0]).0, events[1..], key, burst, window, low, windows, events[0].at);
    } else {
      AdmissionsWithinBudget(cache, events, key, burst, window, low, high, events[0].at, windows);
      assert (windows + 1) * Max(1, burst) == windows * Max(1, burst) + Max(1, burst);
    }
  }

  /** Whatever the window, the traffic on other keys and the times of the sweep: a closed interval as long
      as `windows` lifetimes (a lifetime is the window, or two minutes if that is shorter) holds at most
      (windows + 1) * max(1, burst) - 1 admissions of one key: `windows` windows can open inside it, and a
      counter from before it has already spent one unit. */
  lemma WholeRunBound(events: seq<Event>, key: string, burst: int, window: int,
                      low: int, windows: nat, start: int)
    requires Monotone(events, start) && Steady(events, key, burst, window)
    requires window >= 0 && windows >= 1
    ensures Admissions(map[], events, key, low, low + windows * Lifetime(window)) <= (windows + 1) * Max(1, burst) - 1
  {
    AdmissionsInInterval(map[], events, key, burst, window, low, windows, start);
  }

  /** `n` requests on the key at one instant. */
  function Salvo(key: string, burst: int, window: int, at: int, n: nat): seq<Event>
  {
    if n == 0 then [] else [Request(key, burst, window, at)] + Salvo(key, burst, window, at, n - 1)
  }

  /** A full burst at `at`, and again as soon as each window has lapsed. */
  function Rounds(key: string, burst: nat, window: int, at: int, rounds: nat): seq<Event>
    decreases rounds
  {
    if rounds == 0 then []
    else Salvo(key, burst, window, at, burst) + Rounds(key, burst, window, at + window + 1, rounds - 1)
  }

  /** The cache after `n` admitted requests at one instant. */
  function Fired(cache: Cache, key: string, window: int, at: int, n: nat): Cache
  {
    if n == 0 then cache
    else if Live(cache, key, window, at) then cache[key := Counter(cache[key].count + n, cache[key].window)]
    else cache[key := Counter(n, at)]
  }

  lemma FiredOnce(cache: Cache, key: string, burst: nat, window: nat, at: int, n: nat)
    requires 1 <= n <= burst && (Live(cache, key, window, at) ==> cache[key].count + n <= burst)
    ensures var (next, decision) := Serve(cache, key, burst, window, at);
            decision == Allow && Live(next, key, window, at) && next[key].count + n - 1 <= burst &&
            Fired(next, key, window, at, n - 1) == Fired(cache, key, window, at, n)
  {
  }

  lemma {:induction false} SalvoOrdered(key: string, burst: nat, window: nat, at: int, n: nat, rest: seq<Event>)
    requires Monotone(rest, at) && Steady(rest, key, burst, window)
    ensures var events := Salvo(key, burst, window, at, n) + rest;
            Monotone(events, at) && Steady(events, key, burst, window)
  {
    var events := Salvo(key, burst, window, at, n) + rest;
    if n == 0 {
      assert events == rest;
    } else {
      SalvoOrdered(key, burst, window, at, n - 1, rest);
      assert events[1..] == Salvo(key, burst, window, at, n - 1) + rest;
    }
  }

  lemma {:induction false} SalvoAdmitted(cache: Cache, key: string, burst: nat, window: nat, at: int, n: nat,
                                         rest: seq<Event>, low: int, high: int)
    requires low <= at <= high && n <= burst
    requires n > 0 ==> Live(cache, key, window, at) ==> cache[key].count + n <= burst
    ensures Admissions(cache, Salvo(key, burst, window, at, n) + rest, key, low, high)
            == n + Admissions(Fired(cache, key, window, at, n), rest, key, low, high)
    decreases n
  {
    var events := Salvo(key, burst, window, at, n) + rest;
    if n == 0 {
      assert events == rest;
    } else {
      var e := Request(key, burst, window, at);
      FiredOnce(cache, key, burst, window, at, n);
      SalvoAdmitted(Step(cache, e).0, key, burst, window, at, n - 1, rest, low, high);
      assert events[0] == e && events[1..] == Salvo(key, burst, window, at, n - 1) + rest;
    }
  }

  lemma {:induction false} RoundsOrdered(key: string, burst: nat, window: nat, at: int, rounds: nat)
    ensures var events := Rounds(key, burst, window, at, rounds);
            Monotone(events, at) && Steady(events, key, burst, window)
    decreases rounds
  {
    if rounds >= 1 {
      var rest := Rounds(key, burst, window, at + window + 1, rounds - 1);
      RoundsOrdered(key, burst, window, at + window + 1, rounds - 1);
      assert Monotone(rest, at);
      SalvoOrdered(key, burst, window, at, burst, rest);
    }
  }

  /** When the last of the rounds begins. */
  function LastRound(at: int, window: nat, rounds: nat): (last: int)
    requires rounds >= 1
    ensures at <= last == at + (rounds - 1) * (window + 1)
    decreases rounds
  {
    if rounds == 1 then at
    else
      assert (rounds - 1) * (window + 1) == (rounds - 2) * (window + 1) + window + 1;
      LastRound(at + window + 1, window, rounds - 1)
  }

  function Times(rounds: nat, burst: nat): (total: nat)
    ensures total == rounds * burst
  {
    if rounds == 0 then 0 else burst + Times(rounds - 1, burst)
  }

  lemma {:induction false} RoundsAdmitted(cache: Cache, key: string, burst: nat, window: nat, at: int,
                                          rounds: nat, low: int, high: int)
    requires burst >= 1 && !Live(cache, key, window, at)
    requires rounds >= 1 ==> low <= at && LastRound(at, window, rounds) <= high
    ensures Admissions(cache, Rounds(key, burst, window, at, rounds), key, low, high) == Times(rounds, burst)
    decreases rounds
  {
    if rounds >= 1 {
      var later := at + window + 1;
      var next := Fired(cache, key, window, at, burst);
      assert next[key] == Counter(burst, at);
      RoundsAdmitted(next, key, burst, window, later, rounds - 1, low, high);
      SalvoAdmitted(cache, key, burst, window, at, burst,
                    Rounds(key, burst, window, later, rounds - 1), low, high);
    }
  }

  lemma LastRoundFits(window: nat, windows: nat)
    requires 1 <= windows <= window
    ensures LastRound(window + 1, window, windows) <= window + windows * window
  {
    OneLess(windows, window);
    assert (windows - 1) * (window + 1) == (windows - 1) * window + (windows - 1);
  }

  /** The admissions after an opening request at time 0: the rest of its burst when its window ends, and
      full rounds after that. */
  lemma SalvoAndRounds(key: string, burst: nat, window: nat, windows: nat)
    requires burst >= 1 && 1 <= windows <= window
    ensures var rest := Salvo(key, burst, window, window, burst - 1) + Rounds(key, burst, window, window + 1, windows);
            && Admissions(map[key := Counter(1, 0)], rest, key, window, window + windows * window)
                 == (windows + 1) * burst - 1
            && Monotone(rest, 0) && Steady(rest, key, burst, window)
  {
    var low, high := window, window + windows * window;
    var rounds := Rounds(key, burst, window, window + 1, windows);
    var begun: Cache := map[key := Counter(1, 0)];
    var full := begun[key := Counter(burst, 0)];
    LastRoundFits(window, windows);
    RoundsAdmitted(full, key, burst, window, window + 1, windows, low, high);
    SalvoAdmitted(begun, key, burst, window, window, burst - 1, rounds, low, high);
    RoundsOrdered(key, burst, window, window + 1, windows);
    SalvoOrdered(key, burst, window, window, burst - 1, rounds);
    assert Fired(begun, key, window, window, burst - 1) == full;
    assert (windows + 1) * burst == windows * burst + burst;
  }

  /** The bound is sharp: for every burst of at least one there is a run that reaches it, as long as the
      window has at least as many units as there are windows, for the one-unit gaps between them to fit. */
  lemma WholeRunBoundSharp(key: string, burst: nat, window: nat, windows: nat)
    returns (events: seq<Event>)
    requires burst >= 1 && 1 <= windows <= window
    ensures Monotone(events, 0) && Steady(events, key, burst, window)
    ensures Admissions(map[], events, key, window, window + windows * window) == (windows + 1) * burst - 1
  {
    var opening := Request(key, burst, window, 0);
    var rest := Salvo(key, burst, window, window, burst - 1) + Rounds(key, burst, window, window + 1, windows);
    SalvoAndRounds(key, burst, window, windows);
    events := [opening] + rest;
    assert events[1..] == rest;
    assert Step(map[], opening).0 == map[key := Counter(1, 0)];
  }

  // ---------- The sweep is invisible ----------

  function WithoutSweeps(events: seq<Event>): seq<Event>
  {
    if events == [] then []
    else (if events[0].Sweep? then [] else [events[0]]) + WithoutSweeps(events[1..])
  }

  predicate WindowsAtMost(events: seq<Event>, limit: int)
  {
    forall i | 0 <= i < |events| && events[i].Request? :: events[i].window <= limit
  }

  /** The swept cache lacks only entries that are already past the cleanup age. */
  predicate Simulates(full: Cache, swept: Cache, now: int)
  {
    && (forall key | key in swept :: key in full && full[key] == swept[key])
    && (forall key | key in full && key !in swept :: now - full[key].window > CLEANUP_AGE)
  }

  lemma {:induction false} SweepsSimulated(full: Cache, swept: Cache, events: seq<Event>, start: int)
    requires Simulates(full, swept, start)
    requires Monotone(events, start) && WindowsAtMost(events, CLEANUP_AGE)
    ensures Decisions(swept, events) == Decisions(full, WithoutSweeps(events))
    decreases |events|
  {
    if events == [] { return; }
    var e, rest := events[0], WithoutSweeps(events[1..]);
    match e {
      case Sweep(at) =>
        SweepsSimulated(full, Swept(swept, at), events[1..], at);
        assert WithoutSweeps(events) == rest;
      case Request(key, burst, window, at) =>
        SweepsSimulated(Step(full, e).0, Step(swept, e).0, events[1..], at);
        assert WithoutSweeps(events) == [e] + rest;
        assert ([e] + rest)[1..] == rest;
    }
  }

  ghost predicate SweepsInvisible(limit: int)
  {
    forall events, start | Monotone(events, start) && WindowsAtMost(events, limit) ::
      Decisions(map[], events) == Decisions(map[], WithoutSweeps(events))
  }

  /** Sweeps at arbitrary points never change an answer exactly when no window exceeds two minutes. */
  lemma SweepsInvisibleUpToTwoMinutes(limit: int)
    ensures SweepsInvisible(limit) <==> limit <= CLEANUP_AGE
  {
    if limit <= CLEANUP_AGE {
      forall events, start | Monotone(events, start) && WindowsAtMost(events, limit)
        ensures Decisions(map[], events) == Decisions(map[], WithoutSweeps(events))
      {
        SweepsSimulated(map[], map[], events, start);
      }
    } else {
      var first, again := Request("k", 1, limit, 0), Request("k", 1, limit, limit);
      var events := [first, Sweep(limit), again];
      assert events[1..] == [Sweep(limit), again] && events[1..][1..] == [again];
      assert Monotone([again], limit) && Monotone(events[1..], 0);
      assert Monotone(events, 0) && WindowsAtMost(events, limit);
      var started: Cache := map["k" := Counter(1, 0)];
      assert Step(map[], first) == (started, [Allow]);
      assert Swept(started, limit) == map[];
      assert Decisions(map[], [again]) == [Allow];
      assert Decisions(map[], events) == [Allow] + ([] + [Allow]);
      assert WithoutSweeps([again]) == [again];
      assert WithoutSweeps(events) == [first, again];
      assert [first, again][1..] == [again];
      assert Decisions(started, [again]) == [Reject(0)];
      assert Decisions(map[], [first, again]) == [Allow] + [Reject(0)];
      assert Decisions(map[], events)[1] != Decisions(map[], WithoutSweeps(events))[1];
    }
  }

  // ---------- retryAfter is the exact threshold ----------

  predicate Quiet(events: seq<Event>, key: string)
  {
    forall i | 0 <= i < |events| && events[i].Request? :: events[i].key != key
  }

  function LastEventAt(events: seq<Event>, start: int): int
  {
    if events == [] then start else events[|events| - 1].at
  }

  lemma {:induction false} QuietKeepsEntry(cache: Cache, events: seq<Event>, key: string, start: int)
    requires Quiet(events, key) && Monotone(events, start) && key in cache
    ensures Entry(After(cache, events), key) == Some(cache[key]) ||
            (key !in After(cache, events) && LastEventAt(events, start) - cache[key].window > CLEANUP_AGE)
    ensures start <= LastEventAt(events, start)
    decreases |events|
  {
    if events != [] {
      var next := Step(cache, events[0]).0;
      if key in next {
        QuietKeepsEntry(next, events[1..], key, events[0].at);
      } else {
        QuietStaysAbsent(next, events[1..], key, events[0].at);
      }
      assert LastEventAt(events[1..], events[0].at) == LastEventAt(events, start);
    }
  }

  lemma {:induction false} QuietStaysAbsent(cache: Cache, events: seq<Event>, key: string, start: int)
    requires Quiet(events, key) && Monotone(events, start) && key !in cache
    ensures key !in After(cache, events) && start <= LastEventAt(events, start)
    decreases |events|
  {
    if events != [] {
      QuietStaysAbsent(Step(cache, events[0]).0, events[1..], key, events[0].at);
      assert LastEventAt(events[1..], events[0].at) == LastEventAt(events, start);
    }
  }

  /** After a rejection with a given delay, the next request on the key is admitted exactly when it
      comes more than that delay later, whatever other keys and the sweep do in between. */
  lemma RetryAfterExact(cache: Cache, key: string, burst: int, window: int, now: int,
                        quiet: seq<Event>, retryAt: int)
    requires window <= CLEANUP_AGE
    requires Serve(cache, key, burst, window, now).1.Reject?
    requires Quiet(quiet, key) && Monotone(quiet, now) && LastEventAt(quiet, now) <= retryAt
    ensures var (rejected, decision) := Serve(cache, key, burst, window, now);
            decision.retryAfter >= 0 &&
            (Serve(After(rejected, quiet), key, burst, window, retryAt).1 == Allow
             <==> retryAt - now > decision.retryAfter)
  {
    QuietKeepsEntry(Serve(cache, key, burst, window, now).0, quiet, key, now);
  }

  // ---------- Two limiters, one counter ----------

  /** A request reaches the global limiter at one time and, if it is authorized, the endpoint limiter at a
      later one. */
  datatype Visit = Visit(globalAt: int, authorized: bool, endpointAt: int)

  function Pass(entry: Option<Counter>, global: Limits, endpoint: Option<Limits>, visit: Visit): (Option<Counter>, bool)
  {
    var (counter, decision) := Hit(entry, global.burst, global.window, visit.globalAt);
    if decision.Reject? || !visit.authorized then (Some(counter), false)
    else if endpoint.None? then (Some(counter), true)
    else
      var (counter', decision') := Hit(Some(counter), endpoint.value.burst, endpoint.value.window, visit.endpointAt);
      (Some(counter'), decision' == Allow)
  }

  predicate Serial(visits: seq<Visit>, start: int)
  {
    visits == [] ||
    (start <= visits[0].globalAt <= visits[0].endpointAt && Serial(visits[1..], visits[0].endpointAt))
  }

  /** How many visits the counter window that began at `began` lets through to the endpoint. */
  function AdmittedInWindow(entry: Option<Counter>, visits: seq<Visit>, global: Limits, endpoint: Limits, began: int): nat
    decreases |visits|
  {
    if visits == [] then 0
    else
      var (next, admitted) := Pass(entry, global, Some(endpoint), visits[0]);
      (if admitted && next.value.window == began then 1 else 0) +
      AdmittedInWindow(next, visits[1..], global, endpoint, began)
  }

  function WindowCapacity(entry: Option<Counter>, endpointBurst: int, began: int): int
  {
    if entry.None? || entry.value.window < began then (Max(1, endpointBurst) + 1) / 2
    else if entry.value.window > began then 0
    else Max(0, (endpointBurst - entry.value.count) / 2)
  }

  lemma {:induction false} CapacityBounds(entry: Option<Counter>, visits: seq<Visit>, global: Limits,
                                          endpoint: Limits, began: int, start: int)
    requires Serial(visits, start) && global.window >= 0 && endpoint.window >= 0
    requires entry.Some? ==> entry.value.count >= 1
    ensures AdmittedInWindow(entry, visits, global, endpoint, began) <= WindowCapacity(entry, endpoint.burst, began)
    decreases |visits|
  {
    if visits != [] {
      var (next, _) := Pass(entry, global, Some(endpoint), visits[0]);
      CapacityBounds(next, visits[1..], global, endpoint, began, visits[0].endpointAt);
    }
  }

  /** Because every admitted request is counted by both limiters, one counter window admits at most
      ceil(max(1, burst) / 2) requests through an endpoint, for every serial run, whatever the two windows
      and however many requests authentication turns away in between. */
  lemma SharedCounterHalvesBurst(visits: seq<Visit>, global: Limits, endpoint: Limits, began: int, start: int)
    requires Serial(visits, start) && global.window >= 0 && endpoint.window >= 0
    ensures AdmittedInWindow(None, visits, global, endpoint, began) <= (Max(1, endpoint.burst) + 1) / 2
  {
    CapacityBounds(None, visits, global, endpoint, began, start);
  }

  /** `n` authorized visits at one instant. */
  function Crowd(at: int, n: nat): seq<Visit>
  {
    if n == 0 then [] else [Visit(at, true, at)] + Crowd(at, n - 1)
  }

  lemma {:induction false} CrowdAdmitted(count: int, at: int, n: nat, global: Limits, endpoint: Limits)
    requires global.window >= 0 && endpoint.window >= 0
    requires n > 0 ==> count + 2 * n <= endpoint.burst <= global.burst
    ensures AdmittedInWindow(Some(Counter(count, at)), Crowd(at, n), global, endpoint, at) == n
    ensures Serial(Crowd(at, n), at)
    decreases n
  {
    if n > 0 {
      CrowdAdmitted(count + 2, at, n - 1, global, endpoint);
      assert Crowd(at, n)[0] == Visit(at, true, at) && Crowd(at, n)[1..] == Crowd(at, n - 1);
    }
  }

  /** The ceiling is reached, for all windows and whenever the global burst is no smaller: by a window that
      the endpoint limiter opens itself, so that its first request is counted once only. */
  lemma CeilingReached(global: Limits, endpoint: Limits) returns (visits: seq<Visit>, began: int)
    requires global.window >= 0 && endpoint.window >= 0 && endpoint.burst <= global.burst
    ensures Serial(visits, 0)
    ensures AdmittedInWindow(None, visits, global, endpoint, began) == (Max(1, endpoint.burst) + 1) / 2
  {
    began := endpoint.window + 1;
    var n: nat := (Max(1, endpoint.burst) - 1) / 2;
    var slow := Visit(0, true, began);
    visits := [slow] + Crowd(began, n);
    CrowdAdmitted(1, began, n, global, endpoint);
    assert visits[1..] == Crowd(began, n);
    assert Pass(None, global, Some(endpoint), slow) == (Some(Counter(1, began)), true);
  }

  /** Every visit is authorized and falls into both limiters' windows from `began`. */
  predicate WithinWindow(visits: seq<Visit>, global: Limits, endpoint: Limits, began: int)
  {
    forall i | 0 <= i < |visits| ::
      && visits[i].authorized
      && began <= visits[i].globalAt <= visits[i].endpointAt <= began + Min(global.window, endpoint.window)
  }

  /** What one window that the global limiter opened can let through. */
  function SharedCapacity(global: Limits, endpoint: Limits): int
  {
    Min((Max(1, global.burst) + 1) / 2, Max(0, endpoint.burst) / 2)
  }

  lemma {:induction false} InsideWindow(entry: Counter, visits: seq<Visit>, global: Limits, endpoint: Limits, done: nat)
    requires WithinWindow(visits, global, endpoint, entry.window)
    requires entry.count >= 1
    requires var most := SharedCapacity(global, endpoint);
             done <= most && if done < most then entry.count == 2 * done
                             else entry.count >= global.burst || entry.count >= endpoint.burst - 1
    ensures AdmittedInWindow(Some(entry), visits, global, endpoint, entry.window)
            == Min(|visits|, SharedCapacity(global, endpoint) - done)
    decreases |visits|
  {
    if visits != [] {
      var (next, admitted) := Pass(Some(entry), global, Some(endpoint), visits[0]);
      InsideWindow(next.value, visits[1..], global, endpoint, if admitted then done + 1 else done);
    }
  }

  /** When all visits fall inside the window the first of them opens, the number admitted is exact:
      the endpoint's burst is halved, and so is the global one. */
  lemma AlignedWindowExact(visits: seq<Visit>, global: Limits, endpoint: Limits)
    requires visits != [] && WithinWindow(visits, global, endpoint, visits[0].globalAt)
    ensures AdmittedInWindow(None, visits, global, endpoint, visits[0].globalAt)
            == Min(|visits|, SharedCapacity(global, endpoint))
  {
    var (next, admitted) := Pass(None, global, Some(endpoint), visits[0]);
    InsideWindow(next.value, visits[1..], global, endpoint, if admitted then 1 else 0);
  }

  // ---------- Whole runs through the gateway ----------

  /** One request at the gateway; the route's limits are those of its configuration, if it has any. */
  datatype Arrival = Arrival(key: string, endpoint: Option<Limits>, visit: Visit)

  function Chain(config: Config, cache: Cache, a: Arrival): (Cache, bool)
  {
    if !config.enabled then (cache, a.visit.authorized)
    else
      var endpoint := if a.endpoint.None? then None else Some(Effective(config, a.endpoint.value));
      var (next, admitted) := Pass(Entry(cache, a.key), GlobalLimits(config), endpoint, a.visit);
      (cache[a.key := next.value], admitted)
  }

  function VisitsOf(arrivals: seq<Arrival>, key: string): seq<Visit>
  {
    if arrivals == [] then []
    else (if arrivals[0].key == key then [arrivals[0].visit] else []) + VisitsOf(arrivals[1..], key)
  }

  /** How many requests of the key the gateway admits in the counter window that began at `began`. */
  function RouteAdmitted(config: Config, cache: Cache, arrivals: seq<Arrival>, key: string, began: int): nat
    decreases |arrivals|
  {
    if arrivals == [] then 0
    else
      var a := arrivals[0];
      var (next, admitted) := Chain(config, cache, a);
      (if a.key == key && admitted && key in next && next[key].window == began then 1 else 0) +
      RouteAdmitted(config, next, arrivals[1..], key, began)
  }

  /** All requests of the key go to one route; requests of other keys are arbitrary. */
  predicate OnRoute(arrivals: seq<Arrival>, key: string, asked: Option<Limits>)
  {
    forall i | 0 <= i < |arrivals| && arrivals[i].key == key :: arrivals[i].endpoint == asked
  }

  lemma {:induction false} RouteIsItsCounter(config: Config, cache: Cache, arrivals: seq<Arrival>, key: string,
                                             asked: Limits, began: int)
    requires config.enabled && OnRoute(arrivals, key, Some(asked))
    ensures RouteAdmitted(config, cache, arrivals, key, began)
            == AdmittedInWindow(Entry(cache, key), VisitsOf(arrivals, key), GlobalLimits(config),
                                Effective(config, asked), began)
    decreases |arrivals|
  {
    if arrivals != [] {
      var a, next := arrivals[0], Chain(config, cache, arrivals[0]).0;
      RouteIsItsCounter(config, next, arrivals[1..], key, asked, began);
      if a.key == key {
        assert VisitsOf(arrivals, key)[1..] == VisitsOf(arrivals[1..], key);
      } else {
        assert Entry(next, key) == Entry(cache, key);
        assert VisitsOf(arrivals, key) == VisitsOf(arrivals[1..], key);
      }
    }
  }

  /** A route configured with a burst lets at most half of it, rounded up, through in one counter window,
      for every serial run of its key and any traffic on other keys. */
  lemma RouteHalvesItsBurst(config: Config, arrivals: seq<Arrival>, key: string, asked: Limits, began: int, start: int)
    requires config.enabled && asked.burst >= 1 && asked.window > 0
    requires OnRoute(arrivals, key, Some(asked)) && Serial(VisitsOf(arrivals, key), start)
    ensures RouteAdmitted(config, map[], arrivals, key, began) <= (asked.burst + 1) / 2
  {
    RouteIsItsCounter(config, map[], arrivals, key, asked, began);
    SharedCounterHalvesBurst(VisitsOf(arrivals, key), GlobalLimits(config), Effective(config, asked), began, start);
  }

  /** When the key's requests are authorized and fall within a minute and the route's window of the first,
      exactly this many are admitted: half the route's burst, but no more than half the default burst. */
  lemma RouteAdmitsExactly(config: Config, arrivals: seq<Arrival>, key: string, asked: Limits)
    requires config.enabled && asked.burst >= 1 && asked.window > 0 && OnRoute(arrivals, key, Some(asked))
    requires var visits := VisitsOf(arrivals, key);
             visits != [] && forall i | 0 <= i < |visits| ::
               && visits[i].authorized
               && visits[0].globalAt <= visits[i].globalAt <= visits[i].endpointAt
               && visits[i].endpointAt <= visits[0].globalAt + Min(60_000_000_000, asked.window)
    ensures RouteAdmitted(config, map[], arrivals, key, VisitsOf(arrivals, key)[0].globalAt)
            == Min(|VisitsOf(arrivals, key)|, Min((Max(1, config.defaultBurst) + 1) / 2, asked.burst / 2))
  {
    var visits := VisitsOf(arrivals, key);
    RouteIsItsCounter(config, map[], arrivals, key, asked, visits[0].globalAt);
    AlignedWindowExact(visits, GlobalLimits(config), Effective(config, asked));
  }

  lemma {:induction false} OpenRouteInside(config: Config, cache: Cache, arrivals: seq<Arrival>, key: string, began: int)
    requires config.enabled && OnRoute(arrivals, key, None) && key in cache
    requires cache[key].window == began && cache[key].count >= 1
    requires forall visit | visit in VisitsOf(arrivals, key) ::
               visit.authorized && began <= visit.globalAt <= began + 60_000_000_000
    ensures RouteAdmitted(config, cache, arrivals, key, began)
            == Min(|VisitsOf(arrivals, key)|, Max(0, config.defaultBurst - cache[key].count))
    decreases |arrivals|
  {
    if arrivals != [] {
      var a, next := arrivals[0], Chain(config, cache, arrivals[0]).0;
      if a.key == key {
        assert VisitsOf(arrivals, key) == [a.visit] + VisitsOf(arrivals[1..], key);
        assert a.visit in VisitsOf(arrivals, key);
        assert next[key] == if cache[key].count >= config.defaultBurst then cache[key]
                            else Counter(cache[key].count + 1, began);
      } else {
        assert VisitsOf(arrivals, key) == VisitsOf(arrivals[1..], key);
        assert next[key] == cache[key];
      }
      OpenRouteInside(config, next, arrivals[1..], key, began);
    }
  }

  /** On a route without limits of its own the default burst counts in full: authorized requests within a
      minute of the first one. */
  lemma OpenRouteAdmitsExactly(config: Config, first: Arrival, later: seq<Arrival>, cache: Cache)
    requires config.enabled && first.key !in cache && first.endpoint == None && first.visit.authorized
    requires OnRoute(later, first.key, None)
    requires forall visit | visit in VisitsOf(later, first.key) :: visit.authorized &&
               first.visit.globalAt <= visit.globalAt <= first.visit.globalAt + 60_000_000_000
    ensures RouteAdmitted(config, cache, [first] + later, first.key, first.visit.globalAt)
            == Min(1 + |VisitsOf(later, first.key)|, Max(1, config.defaultBurst))
  {
    assert ([first] + later)[1..] == later;
    OpenRouteInside(config, Chain(config, cache, first).0, later, first.key, first.visit.globalAt);
  }

  /** A request that authentication turns away is never admitted and costs its key one unit, of the default
      burst and a window of a minute, like any request. */
  lemma TurnedAwayCostsOneUnit(config: Config, cache: Cache, a: Arrival)
    requires config.enabled && !a.visit.authorized
    ensures !Chain(config, cache, a).1
    ensures Chain(config, cache, a).0 == Serve(cache, a.key, config.defaultBurst, 60_000_000_000, a.visit.globalAt).0
  {
  }
}
