/** The gateway's Redis rate limiter: a sorted set per key, pruned and counted in one pipeline and
    added to in a separate step. Times and durations are in nanoseconds; scores are whole seconds. */
module RedisLimiter {
  import opened Basics
  import opened Wrappers
  import opened Text
  import Local = LocalLimiter

  const SECOND := 1_000_000_000

  /** A Redis sorted set: each member with its score. */
  type SortedSet = map<string, int>

  /** What Redis holds under one key: the set, and when EXPIRE makes the key disappear. */
  datatype Slot = Slot(members: SortedSet, deadline: Option<int>)

  const EMPTY := Slot(map[], None)

  function Seconds(t: nat): nat { t / SECOND }

  /** The member is `second:key`, so admissions within one second collapse into one member. */
  function Member(second: nat, key: string): string
  {
    Itoa(second) + ":" + key
  }

  function RemRangeByScore(z: SortedSet, low: int, high: int): SortedSet
  {
    map m | m in z && !(low <= z[m] <= high) :: z[m]
  }

  /** EXPIRE takes whole seconds; the client rounds a shorter positive duration up to one. */
  function TimeToLive(window: nat): nat
  {
    if 0 < window < SECOND then SECOND else Seconds(window) * SECOND
  }

  function Visible(slot: Slot, now: nat): Slot
  {
    if slot.deadline.Some? && slot.deadline.value <= now then EMPTY else slot
  }

  /** The set as the pipeline's ZCARD sees it, after its ZREMRANGEBYSCORE. */
  function Pruned(slot: Slot, window: nat, now: nat): SortedSet
  {
    RemRangeByScore(Visible(slot, now).members, 0, Seconds(now) - Seconds(window))
  }

  /** Pruning the last member removes the key and with it the deadline. */
  function AfterCheck(slot: Slot, window: nat, now: nat): Slot
  {
    var left := Pruned(slot, window, now);
    if left == map[] then EMPTY else Slot(left, Visible(slot, now).deadline)
  }

  function AfterAdd(slot: Slot, key: string, window: nat, now: nat): Slot
  {
    Slot(slot.members[Member(Seconds(now), key) := Seconds(now)], Some(now + TimeToLive(window)))
  }

  predicate IsOldest(z: SortedSet, oldest: int)
  {
    (exists m | m in z :: z[m] == oldest) && (forall m | m in z :: oldest <= z[m])
  }

  function RetryAfter(oldest: int, window: nat, now: nat): int
  {
    Max(0, window - (now - oldest * SECOND))
  }

  /** One whole request when no other client runs between its check and its add. */
  function Request(slot: Slot, key: string, burst: int, window: nat, now: nat): (Slot, bool)
  {
    if |Pruned(slot, window, now)| >= burst then (AfterCheck(slot, window, now), false)
    else (AfterAdd(AfterCheck(slot, window, now), key, window, now), true)
  }

  /** What Redis holds, by Redis key. */
  type Store = map<string, Slot>

  function RedisKey(prefix: string, key: string): string
  {
    prefix + ":" + key
  }

  function SlotIn(store: Store, prefix: string, key: string): Slot
  {
    if RedisKey(prefix, key) in store then store[RedisKey(prefix, key)] else EMPTY
  }

  class RateLimiter {
    var slots: Store
    const prefix: string
    const local: Local.RateLimiter

    constructor (prefix: string)
      ensures slots == map[] && local.localCache == map[] && this.prefix == prefix && fresh(local)
    {
      this.prefix := prefix;
      slots := map[];
      local := new Local.RateLimiter();
    }

    function SlotOf(key: string): Slot
      reads this
    {
      SlotIn(slots, prefix, key)
    }

    /** ZRANGE 0 0 WITHSCORES: the lowest score, found by visiting the members in any order. */
    static method Oldest(z: SortedSet) returns (oldest: int)
      requires z != map[]
      ensures IsOldest(z, oldest)
    {
      var first :| first in z;
      oldest := z[first];
      var pending := z.Keys - {first};
      while pending != {}
        invariant pending <= z.Keys
        invariant exists m | m in z :: z[m] == oldest
        invariant forall m | m in z && m !in pending :: oldest <= z[m]
        decreases pending
      {
        var m :| m in pending;
        if z[m] < oldest {
          oldest := z[m];
        }
        pending := pending - {m};
      }
    }

    /** When the pipeline fails the request falls back to the in-memory limiter. */
    method IsAllowedRedis(key: string, burst: int, window: nat, now: nat, pipelineWorks: bool)
      returns (allowed: bool, retryAfter: int)
      modifies this, local
      ensures if pipelineWorks
        then
          && local.localCache == old(local.localCache)
          && (SlotOf(key), allowed) == Request(old(SlotOf(key)), key, burst, window, now)
          && slots == Stored(prefix, old(slots), Call(key, burst, window, now, true))
        else
          && slots == old(slots)
          && (local.localCache, if allowed then Local.Allow else Local.Reject(retryAfter)) ==
             Local.Serve(old(local.localCache), key, burst, window, now)
      ensures forall other | other != key :: SlotOf(other) == old(SlotOf(other))
      ensures pipelineWorks && !allowed ==>
        var counted := Pruned(old(SlotOf(key)), window, now);
        if counted == map[] then retryAfter == 0
        else exists oldest | IsOldest(counted, oldest) :: retryAfter == RetryAfter(oldest, window, now)
    {
      if !pipelineWorks {
        allowed, retryAfter := local.IsAllowedLocal(key, burst, window, now);
        return;
      }
      forall other | other != key
        ensures RedisKey(prefix, other) != RedisKey(prefix, key)
      {
        KeysAreSeparate(prefix, other, key);
      }
      var slot := SlotOf(key);
      var counted := Pruned(slot, window, now);
      slots := slots[RedisKey(prefix, key) := AfterCheck(slot, window, now)];
      if |counted| >= burst {
        retryAfter := 0;
        if |counted| > 0 {
          var oldest := Oldest(counted);
          retryAfter := window - (now - oldest * SECOND);
          if retryAfter < 0 {
            retryAfter := 0;
          }
        }
        return false, retryAfter;
      }
      slots := slots[RedisKey(prefix, key) := AfterAdd(SlotOf(key), key, window, now)];
      return true, 0;
    }
  }

  /** Different clients have different Redis keys. */
  lemma KeysAreSeparate(prefix: string, a: string, b: string)
    ensures RedisKey(prefix, a) == RedisKey(prefix, b) <==> a == b
  {
    assert RedisKey(prefix, a)[|prefix| + 1..] == a && RedisKey(prefix, b)[|prefix| + 1..] == b;
  }

  // ---------- Members stand for seconds ----------

  lemma MemberInjective(s: nat, t: nat, key: string)
    ensures Member(s, key) == Member(t, key) ==> s == t
  {
    if Member(s, key) == Member(t, key) {
      var m := Member(s, key);
      assert m[..|m| - |key| - 1] == Itoa(s) && m[..|m| - |key| - 1] == Itoa(t);
      AtoiOfItoa(s);
      AtoiOfItoa(t);
    }
  }

  function Members(seconds: set<nat>, key: string): set<string>
  {
    set s | s in seconds :: Member(s, key)
  }

  lemma {:induction false} MembersCounted(seconds: set<nat>, key: string)
    ensures |Members(seconds, key)| == |seconds|
  {
    if seconds != {} {
      var s :| s in seconds;
      MembersCounted(seconds - {s}, key);
      forall t | t in seconds - {s}
        ensures Member(t, key) != Member(s, key)
      {
        MemberInjective(s, t, key);
      }
      assert Members(seconds, key) == Members(seconds - {s}, key) + {Member(s, key)};
    }
  }

  // ---------- Serial runs refine a sliding log ----------

  /** The seconds of the half-open window (now - W, now] in which some request was admitted. */
  function InWindow(log: seq<nat>, window: nat, now: nat): set<nat>
  {
    set i | 0 <= i < |log| && Seconds(now) - Seconds(window) < Seconds(log[i]) <= Seconds(now) :: Seconds(log[i])
  }

  /** The reference: remember every admitted time, admit while fewer than `burst` seconds are marked. */
  function LogRun(log: seq<nat>, times: seq<nat>, burst: int, window: nat): seq<bool>
    decreases |times|
  {
    if times == [] then []
    else
      var allowed := |InWindow(log, window, times[0])| < burst;
      [allowed] + LogRun(if allowed then log + [times[0]] else log, times[1..], burst, window)
  }

  /** The limiter itself; with `expires` false the key is never dropped at its deadline. */
  function RedisRun(slot: Slot, times: seq<nat>, key: string, burst: int, window: nat, expires: bool): seq<bool>
    decreases |times|
  {
    if times == [] then []
    else
      var (next, allowed) := Request(slot, key, burst, window, times[0]);
      [allowed] + RedisRun(if expires then next else next.(deadline := None), times[1..], key, burst, window, expires)
  }

  predicate Ordered(times: seq<nat>, start: nat)
  {
    times == [] || (start <= times[0] && Ordered(times[1..], times[0]))
  }

  /** The slot holds the logged seconds that can still matter and nothing but logged seconds, and
      its deadline is not before the last of them leaves the window. */
  ghost predicate Refines(slot: Slot, log: seq<nat>, key: string, window: nat, now: nat)
  {
    && (forall i | 0 <= i < |log| :: log[i] <= now)
    && (forall i | 0 <= i < |log| && Seconds(log[i]) > Seconds(now) - Seconds(window) ::
          Member(Seconds(log[i]), key) in slot.members)
    && (forall m | m in slot.members :: exists i | 0 <= i < |log| ::
          m == Member(Seconds(log[i]), key) && slot.members[m] == Seconds(log[i]))
    && (slot.deadline.Some? ==> forall m | m in slot.members ::
          (slot.members[m] + Seconds(window)) * SECOND <= slot.deadline.value)
  }

  lemma RefinesLater(slot: Slot, log: seq<nat>, key: string, window: nat, now: nat, later: nat)
    requires Refines(slot, log, key, window, now) && now <= later
    ensures Refines(slot, log, key, window, later)
  {
    assert Seconds(now) <= Seconds(later);
  }

  lemma VisibleRefines(slot: Slot, log: seq<nat>, key: string, window: nat, now: nat)
    requires Refines(slot, log, key, window, now)
    ensures Refines(Visible(slot, now), log, key, window, now)
  {
    if Visible(slot, now) != slot {
      forall i | 0 <= i < |log| && Member(Seconds(log[i]), key) in slot.members
        ensures Seconds(log[i]) <= Seconds(now) - Seconds(window)
      {
        var m := Member(Seconds(log[i]), key);
        var j :| 0 <= j < |log| && m == Member(Seconds(log[j]), key) && slot.members[m] == Seconds(log[j]);
        MemberInjective(Seconds(log[i]), Seconds(log[j]), key);
        assert (Seconds(log[i]) + Seconds(window)) * SECOND <= now;
      }
    }
  }

  /** After pruning, the sorted set is exactly the marked seconds of the window. */
  lemma PrunedIsWindow(slot: Slot, log: seq<nat>, key: string, window: nat, now: nat)
    requires Refines(slot, log, key, window, now)
    ensures Pruned(slot, window, now).Keys == Members(InWindow(log, window, now), key)
    ensures |Pruned(slot, window, now)| == |InWindow(log, window, now)|
    ensures Refines(AfterCheck(slot, window, now), log, key, window, now)
  {
    var left := Pruned(slot, window, now);
    PrunedKeys(slot, log, key, window, now);
    MembersCounted(InWindow(log, window, now), key);
    assert |left| == |left.Keys|;
    VisibleRefines(slot, log, key, window, now);
    forall i | 0 <= i < |log| && Seconds(log[i]) > Seconds(now) - Seconds(window)
      ensures Member(Seconds(log[i]), key) in left
    {
      assert Seconds(log[i]) in InWindow(log, window, now);
    }
  }

  lemma PrunedKeys(slot: Slot, log: seq<nat>, key: string, window: nat, now: nat)
    requires Refines(slot, log, key, window, now)
    ensures Pruned(slot, window, now).Keys == Members(InWindow(log, window, now), key)
  {
    VisibleRefines(slot, log, key, window, now);
    var shown := Visible(slot, now).members;
    var left := Pruned(slot, window, now);
    forall m | m in left
      ensures m in Members(InWindow(log, window, now), key)
    {
      var i :| 0 <= i < |log| && m == Member(Seconds(log[i]), key) && shown[m] == Seconds(log[i]);
      assert Seconds(log[i]) in InWindow(log, window, now);
    }
    forall s | s in InWindow(log, window, now)
      ensures Member(s, key) in left
    {
      var i :| 0 <= i < |log| && Seconds(log[i]) == s;
      var j :| 0 <= j < |log| && Member(s, key) == Member(Seconds(log[j]), key) &&
               shown[Member(s, key)] == Seconds(log[j]);
      MemberInjective(s, Seconds(log[j]), key);
    }
  }

  lemma AddRefines(slot: Slot, log: seq<nat>, key: string, window: nat, now: nat)
    requires Refines(slot, log, key, window, now)
    ensures Refines(AfterAdd(slot, key, window, now), log + [now], key, window, now)
  {
    var next, log' := AfterAdd(slot, key, window, now), log + [now];
    forall m | m in next.members
      ensures exists i | 0 <= i < |log'| :: m == Member(Seconds(log'[i]), key) && next.members[m] == Seconds(log'[i])
      ensures (next.members[m] + Seconds(window)) * SECOND <= next.deadline.value
    {
      var i: nat;
      if m == Member(Seconds(now), key) {
        i := |log|;
        assert log'[i] == now;
      } else {
        i :| 0 <= i < |log| && m == Member(Seconds(log[i]), key) && slot.members[m] == Seconds(log[i]);
        assert log'[i] == log[i];
      }
      assert next.members[m] == Seconds(log'[i]) <= Seconds(now);
    }
  }

  /** One request: it is admitted as the log would, and the slot goes on refining the log. */
  lemma RequestRefines(slot: Slot, log: seq<nat>, key: string, burst: int, window: nat, start: nat, now: nat)
    requires Refines(slot, log, key, window, start) && start <= now
    ensures var (next, allowed) := Request(slot, key, burst, window, now);
            && (allowed <==> |InWindow(log, window, now)| < burst)
            && Refines(next, if allowed then log + [now] else log, key, window, now)
  {
    RefinesLater(slot, log, key, window, start, now);
    PrunedIsWindow(slot, log, key, window, now);
    if Request(slot, key, burst, window, now).1 {
      AddRefines(AfterCheck(slot, window, now), log, key, window, now);
    }
  }

  lemma RefinesWithoutDeadline(slot: Slot, log: seq<nat>, key: string, window: nat, now: nat)
    requires Refines(slot, log, key, window, now)
    ensures Refines(slot.(deadline := None), log, key, window, now)
  {
  }

  lemma {:induction false} SerialRunRefines(slot: Slot, log: seq<nat>, times: seq<nat>, key: string,
                                            burst: int, window: nat, expires: bool, start: nat)
    requires Refines(slot, log, key, window, start) && Ordered(times, start)
    ensures RedisRun(slot, times, key, burst, window, expires) == LogRun(log, times, burst, window)
    decreases |times|
  {
    if times != [] {
      var now := times[0];
      RequestRefines(slot, log, key, burst, window, start, now);
      var (next, allowed) := Request(slot, key, burst, window, now);
      var log' := if allowed then log + [now] else log;
      RefinesWithoutDeadline(next, log', key, window, now);
      SerialRunRefines(if expires then next else next.(deadline := None), log', times[1..], key, burst, window,
                       expires, now);
    }
  }

  /** Served one request at a time, the limiter answers like the sliding log, with or without the
      key being dropped at its deadline. */
  lemma SerialRunIsSlidingLog(times: seq<nat>, key: string, burst: int, window: nat)
    requires Ordered(times, 0)
    ensures RedisRun(EMPTY, times, key, burst, window, true) == LogRun([], times, burst, window)
    ensures RedisRun(EMPTY, times, key, burst, window, true) == RedisRun(EMPTY, times, key, burst, window, false)
  {
    SerialRunRefines(EMPTY, [], times, key, burst, window, true, 0);
    SerialRunRefines(EMPTY, [], times, key, burst, window, false, 0);
  }

  // ---------- Many keys in one Redis ----------

  /** A call of the limiter; when its pipeline fails, Redis is left as it is. */
  datatype Call = Call(key: string, burst: int, window: nat, at: nat, pipelineWorks: bool)

  function Stored(prefix: string, store: Store, c: Call): Store
  {
    if !c.pipelineWorks then store
    else store[RedisKey(prefix, c.key) := Request(SlotIn(store, prefix, c.key), c.key, c.burst, c.window, c.at).0]
  }

  /** The answers Redis gives to one key in the course of a run, and the times they are given at. */
  function AnswersTo(prefix: string, store: Store, calls: seq<Call>, key: string): seq<bool>
    decreases |calls|
  {
    if calls == [] then []
    else
      var c := calls[0];
      (if c.pipelineWorks && c.key == key
       then [Request(SlotIn(store, prefix, c.key), c.key, c.burst, c.window, c.at).1] else []) +
      AnswersTo(prefix, Stored(prefix, store, c), calls[1..], key)
  }

  function TimesOf(calls: seq<Call>, key: string): seq<nat>
  {
    if calls == [] then []
    else (if calls[0].pipelineWorks && calls[0].key == key then [calls[0].at] else []) + TimesOf(calls[1..], key)
  }

  /** Calls on the key have these limits; calls on other keys have any. */
  predicate SteadyOn(calls: seq<Call>, key: string, burst: int, window: nat)
  {
    forall i | 0 <= i < |calls| && calls[i].key == key :: calls[i].burst == burst && calls[i].window == window
  }

  lemma {:induction false} AnswersAreOwnRun(prefix: string, store: Store, calls: seq<Call>, key: string,
                                            burst: int, window: nat)
    requires SteadyOn(calls, key, burst, window)
    ensures AnswersTo(prefix, store, calls, key)
            == RedisRun(SlotIn(store, prefix, key), TimesOf(calls, key), key, burst, window, true)
    decreases |calls|
  {
    if calls != [] {
      var c, next := calls[0], Stored(prefix, store, calls[0]);
      AnswersAreOwnRun(prefix, next, calls[1..], key, burst, window);
      KeysAreSeparate(prefix, c.key, key);
      if c.pipelineWorks && c.key == key {
        assert TimesOf(calls, key)[1..] == TimesOf(calls[1..], key);
      } else {
        assert SlotIn(next, prefix, key) == SlotIn(store, prefix, key);
        assert TimesOf(calls, key) == TimesOf(calls[1..], key);
      }
    }
  }

  /** From an empty Redis, whatever other keys do: the answers given to a key are those of a sliding log of
      that key's own requests. */
  lemma KeysDoNotInterfere(prefix: string, calls: seq<Call>, key: string, burst: int, window: nat)
    requires SteadyOn(calls, key, burst, window) && Ordered(TimesOf(calls, key), 0)
    ensures AnswersTo(prefix, map[], calls, key) == RedisRun(EMPTY, TimesOf(calls, key), key, burst, window, true)
    ensures AnswersTo(prefix, map[], calls, key) == LogRun([], TimesOf(calls, key), burst, window)
  {
    AnswersAreOwnRun(prefix, map[], calls, key, burst, window);
    SerialRunIsSlidingLog(TimesOf(calls, key), key, burst, window);
  }

  /** Between requests a key stays for the window, in whole seconds and at least one, after its last
      admission, and is gone from then on. */
  lemma KeyExpires(slot: Slot, key: string, window: nat, now: nat, later: nat)
    requires window > 0
    ensures var kept := AfterAdd(slot, key, window, now);
            Visible(kept, later) == (if later < now + Max(1, window / 1_000_000_000) * 1_000_000_000 then kept else EMPTY)
  {
  }

  // ---------- A burst above the window's seconds never rejects ----------

  lemma {:induction false} IntervalSize(s: set<nat>, low: int, high: int)
    requires low <= high && forall x | x in s :: low < x <= high
    ensures |s| <= high - low
    decreases high - low
  {
    if low == high {
      assert s == {};
    } else {
      IntervalSize(s - {high}, low, high - 1);
      assert |s| <= |s - {high}| + 1 by {
        if high in s { assert s == (s - {high}) + {high}; } else { assert s == s - {high}; }
      }
    }
  }

  predicate AllAdmitted(decisions: seq<bool>)
  {
    forall i | 0 <= i < |decisions| :: decisions[i]
  }

  ghost predicate NeverRejects(burst: int, window: nat)
  {
    forall times, key | Ordered(times, 0) :: AllAdmitted(RedisRun(EMPTY, times, key, burst, window, true))
  }

  lemma {:induction false} GenerousLogAdmits(log: seq<nat>, times: seq<nat>, burst: int, window: nat)
    requires burst > Seconds(window)
    ensures AllAdmitted(LogRun(log, times, burst, window))
    decreases |times|
  {
    if times != [] {
      var now := times[0];
      IntervalSize(InWindow(log, window, now), Seconds(now) - Seconds(window), Seconds(now));
      GenerousLogAdmits(log + [now], times[1..], burst, window);
    }
  }

  /** One request in each of the seconds 1, ..., n. */
  function Ticks(n: nat): seq<nat>
  {
    seq(n, (i: nat) => (i + 1) * SECOND)
  }

  /** The remaining ticks up to `burst`, and one more request in the last second. */
  function TicksFrom(n: nat, burst: nat): seq<nat>
    requires n <= burst
    decreases burst - n
  {
    if n == burst then [burst * SECOND] else [(n + 1) * SECOND] + TicksFrom(n + 1, burst)
  }

  lemma {:induction false} TickWindow(n: nat, window: nat, now: nat)
    requires n <= Seconds(now) && Seconds(now) <= Seconds(window)
    ensures |InWindow(Ticks(n), window, now)| == n
    decreases n
  {
    var log := Ticks(n);
    if n > 0 {
      TickWindow(n - 1, window, now);
      TickSeconds(n - 1);
      var earlier := InWindow(Ticks(n - 1), window, now);
      assert n !in earlier;
      assert log == Ticks(n - 1) + [n * SECOND];
      WindowOfMore(Ticks(n - 1), n * SECOND, window, now);
    }
  }

  lemma TickSeconds(n: nat)
    ensures forall i | 0 <= i < n :: Seconds(Ticks(n)[i]) == i + 1
  {
  }

  lemma WindowOfMore(log: seq<nat>, time: nat, window: nat, now: nat)
    requires Seconds(now) - Seconds(window) < Seconds(time) <= Seconds(now)
    ensures InWindow(log + [time], window, now) == InWindow(log, window, now) + {Seconds(time)}
  {
    var more := log + [time];
    assert more[|log|] == time;
    forall s | s in InWindow(log, window, now)
      ensures s in InWindow(more, window, now)
    {
      var i :| 0 <= i < |log| && Seconds(log[i]) == s;
      assert more[i] == log[i];
    }
  }

  lemma {:induction false} LastTickRejected(n: nat, burst: nat, window: nat)
    requires n <= burst && 1 <= burst <= Seconds(window)
    ensures Ordered(TicksFrom(n, burst), n * SECOND)
    ensures !AllAdmitted(LogRun(Ticks(n), TicksFrom(n, burst), burst, window))
    decreases burst - n
  {
    var times := TicksFrom(n, burst);
    TickWindow(n, window, times[0]);
    if n < burst {
      LastTickRejected(n + 1, burst, window);
      assert Ticks(n) + [times[0]] == Ticks(n + 1) && times[1..] == TicksFrom(n + 1, burst);
      var later := LogRun(Ticks(n + 1), times[1..], burst, window);
      var i :| 0 <= i < |later| && !later[i];
      assert !LogRun(Ticks(n), times, burst, window)[i + 1];
    } else {
      assert !LogRun(Ticks(n), times, burst, window)[0];
    }
  }

  /** No serial run is ever rejected exactly when the burst exceeds the window's whole seconds. */
  lemma NeverRejectsAboveWindowSeconds(burst: int, window: nat)
    ensures NeverRejects(burst, window) <==> burst > Seconds(window)
  {
    if burst > Seconds(window) {
      forall times, key | Ordered(times, 0)
        ensures AllAdmitted(RedisRun(EMPTY, times, key, burst, window, true))
      {
        SerialRunIsSlidingLog(times, key, burst, window);
        GenerousLogAdmits([], times, burst, window);
      }
    } else {
      var times: seq<nat> := if burst <= 0 then [0] else TicksFrom(0, burst);
      if burst <= 0 {
        assert !LogRun([], times, burst, window)[0];
      } else {
        LastTickRejected(0, burst, window);
        assert Ticks(0) == [];
      }
      SerialRunIsSlidingLog(times, "k", burst, window);
      assert !AllAdmitted(RedisRun(EMPTY, times, "k", burst, window, true));
    }
  }

  // ---------- retryAfter on the Redis path ----------

  function SlotAfter(slot: Slot, times: seq<nat>, key: string, burst: int, window: nat): Slot
    decreases |times|
  {
    if times == [] then slot
    else SlotAfter(Request(slot, key, burst, window, times[0]).0, times[1..], key, burst, window)
  }

  function LastTime(times: seq<nat>, start: nat): nat
  {
    if times == [] then start else times[|times| - 1]
  }

  lemma {:induction false} SerialInvariant(slot: Slot, log: seq<nat>, times: seq<nat>, key: string,
                                           burst: int, window: nat, start: nat)
    returns (log': seq<nat>)
    requires Refines(slot, log, key, window, start) && Ordered(times, start)
    requires |slot.members| <= Max(0, burst)
    ensures var slot' := SlotAfter(slot, times, key, burst, window);
            Refines(slot', log', key, window, LastTime(times, start)) && |slot'.members| <= Max(0, burst)
    decreases |times|
  {
    if times == [] {
      return log;
    }
    var now := times[0];
    RequestRefines(slot, log, key, burst, window, start, now);
    RequestStaysWithin(slot, key, burst, window, now);
    var (next, allowed) := Request(slot, key, burst, window, now);
    log' := SerialInvariant(next, if allowed then log + [now] else log, times[1..], key, burst, window, now);
    assert LastTime(times[1..], now) == LastTime(times, start);
  }

  lemma RequestStaysWithin(slot: Slot, key: string, burst: int, window: nat, now: nat)
    requires |slot.members| <= Max(0, burst)
    ensures |Request(slot, key, burst, window, now).0.members| <= Max(0, burst)
  {
    PrunedSmaller(slot, window, now);
    AddedOne(AfterCheck(slot, window, now).members, Member(Seconds(now), key), Seconds(now));
  }

  lemma AddedOne(z: SortedSet, member: string, score: int)
    ensures |z| <= |z[member := score]| <= |z| + 1
  {
    if member in z {
      assert z[member := score].Keys == z.Keys;
    } else {
      assert z[member := score].Keys == z.Keys + {member};
    }
  }

  lemma PrunedSmaller(slot: Slot, window: nat, now: nat)
    ensures |Pruned(slot, window, now)| <= |slot.members|
  {
    SubsetSize(Pruned(slot, window, now).Keys, slot.members.Keys);
  }

  lemma SecondsReached(t: nat, s: int)
    ensures Seconds(t) >= s <==> t >= s * SECOND
  {
  }

  /** What a rejection under a full set says about the state: the facts both retries below need. */
  ghost predicate RejectedFull(slot: Slot, window: nat, oldest: int, burst: int)
  {
    && burst >= 1 && |slot.members| == burst
    && IsOldest(slot.members, oldest) && oldest >= 0
    && (slot.deadline.Some? ==> (oldest + Seconds(window)) * SECOND <= slot.deadline.value)
  }

  lemma RetryTooEarly(slot: Slot, key: string, burst: int, window: nat, oldest: int, retryAt: nat)
    requires RejectedFull(slot, window, oldest, burst)
    requires retryAt < (oldest + Seconds(window)) * SECOND
    ensures !Request(slot, key, burst, window, retryAt).1
  {
    SecondsReached(retryAt, oldest + Seconds(window));
    assert Visible(slot, retryAt) == slot;
    assert Pruned(slot, window, retryAt) == slot.members;
  }

  lemma RetryInTime(slot: Slot, key: string, burst: int, window: nat, oldest: int, retryAt: nat)
    requires RejectedFull(slot, window, oldest, burst)
    requires retryAt >= (oldest + Seconds(window)) * SECOND
    ensures Request(slot, key, burst, window, retryAt).1
  {
    SecondsReached(retryAt, oldest + Seconds(window));
    var m :| m in slot.members && slot.members[m] == oldest;
    var later := Pruned(slot, window, retryAt);
    assert m !in later;
    SubsetSize(later.Keys, slot.members.Keys);
  }

  lemma RejectionLeavesFull(slot: Slot, log: seq<nat>, key: string, burst: int, window: nat, now: nat, oldest: int)
    requires Refines(slot, log, key, window, now) && |slot.members| <= Max(0, burst) && burst >= 1
    requires !Request(slot, key, burst, window, now).1
    requires IsOldest(Pruned(slot, window, now), oldest)
    ensures RejectedFull(Request(slot, key, burst, window, now).0, window, oldest, burst)
    ensures now < (oldest + Seconds(window)) * SECOND
  {
    PrunedSmaller(slot, window, now);
    PrunedIsWindow(slot, log, key, window, now);
    var counted := Pruned(slot, window, now);
    var m :| m in counted && counted[m] == oldest;
    assert AfterCheck(slot, window, now).members[m] == oldest;
    SecondsReached(now, oldest + Seconds(window));
  }

  /** The delay is one duration counted from the oldest second, so it is the instant at which that
      second leaves the window exactly when the window has no fraction of a second. */
  lemma DelayIsThreshold(window: nat, now: nat, oldest: int)
    requires 0 <= oldest && now < (oldest + Seconds(window)) * SECOND
    ensures var opensAt := (oldest + Seconds(window)) * SECOND;
            now + RetryAfter(oldest, window, now) >= opensAt &&
            (now + RetryAfter(oldest, window, now) == opensAt <==> window % SECOND == 0)
  {
  }

  /** In every serial run, the delay returned with a rejection is the exact threshold for a lone
      retry if and only if the window is a whole number of seconds. */
  lemma RetryAfterExactForWholeSeconds(times: seq<nat>, key: string, burst: int, window: nat, now: nat, oldest: int)
    requires Ordered(times, 0) && LastTime(times, 0) <= now && burst >= 1
    ensures var slot := SlotAfter(EMPTY, times, key, burst, window);
            var (rejected, allowed) := Request(slot, key, burst, window, now);
            !allowed && IsOldest(Pruned(slot, window, now), oldest) ==>
              ((forall retryAt: nat | now <= retryAt ::
                 Request(rejected, key, burst, window, retryAt).1 <==>
                 retryAt - now >= RetryAfter(oldest, window, now))
               <==> window % SECOND == 0)
  {
    var log := SerialInvariant(EMPTY, [], times, key, burst, window, 0);
    var slot := SlotAfter(EMPTY, times, key, burst, window);
    if !Request(slot, key, burst, window, now).1 && IsOldest(Pruned(slot, window, now), oldest) {
      RefinesLater(slot, log, key, window, LastTime(times, 0), now);
      RejectionLeavesFull(slot, log, key, burst, window, now, oldest);
      RetryThreshold(Request(slot, key, burst, window, now).0, key, burst, window, now, oldest);
    }
  }

  /** The exact threshold for a lone retry after a rejection under a full set. */
  lemma RetryThreshold(rejected: Slot, key: string, burst: int, window: nat, now: nat, oldest: int)
    requires RejectedFull(rejected, window, oldest, burst) && now < (oldest + Seconds(window)) * SECOND
    ensures (forall retryAt: nat | now <= retryAt ::
              Request(rejected, key, burst, window, retryAt).1 <==>
              retryAt - now >= RetryAfter(oldest, window, now))
            <==> window % SECOND == 0
  {
    var opensAt := (oldest + Seconds(window)) * SECOND;
    forall retryAt: nat | now <= retryAt
      ensures Request(rejected, key, burst, window, retryAt).1 <==> retryAt >= opensAt
    {
      if retryAt < opensAt {
        RetryTooEarly(rejected, key, burst, window, oldest, retryAt);
      } else {
        RetryInTime(rejected, key, burst, window, oldest, retryAt);
      }
    }
    DelayIsThreshold(window, now, oldest);
    assert Request(rejected, key, burst, window, opensAt).1;
  }
}
