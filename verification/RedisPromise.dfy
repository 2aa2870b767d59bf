/** What the Redis limiter's answers say about the number of requests it admits per window: for
    exactly which bursts and windows at most `burst` requests are admitted in every window. */
module RedisPromise {
  import opened Basics
  import opened RedisLimiter

  /** The times of the requests that were admitted. */
  function Admitted(times: seq<nat>, decisions: seq<bool>): seq<nat>
  {
    if times == [] || decisions == [] then []
    else (if decisions[0] then [times[0]] else []) + Admitted(times[1..], decisions[1..])
  }

  /** How many of the times lie in (low, high]. */
  function CountIn(times: seq<nat>, low: int, high: int): nat
  {
    if times == [] then 0
    else CountIn(times[..|times| - 1], low, high) + (if low < times[|times| - 1] <= high then 1 else 0)
  }

  function InSeconds(times: seq<nat>): seq<nat>
  {
    seq(|times|, i requires 0 <= i < |times| => Seconds(times[i]))
  }

  /** The requests a serial run admits. */
  function Passed(times: seq<nat>, key: string, burst: int, window: nat): seq<nat>
  {
    Admitted(times, RedisRun(EMPTY, times, key, burst, window, true))
  }

  predicate HoldsInSeconds(times: seq<nat>, key: string, burst: int, window: nat, now: nat)
  {
    CountIn(InSeconds(Passed(times, key, burst, window)), Seconds(now) - Seconds(window), Seconds(now)) <= Max(0, burst)
  }

  predicate HoldsInRealTime(times: seq<nat>, key: string, burst: int, window: nat, now: nat)
  {
    CountIn(Passed(times, key, burst, window), now - window, now) <= Max(0, burst)
  }

  /** At most `burst` admissions in every window of every serial run, with both the window and the
      admissions taken in whole seconds, as the limiter takes them. */
  ghost predicate KeepsWindowsInSeconds(burst: int, window: nat)
  {
    forall times, key, now | Ordered(times, 0) && LastTime(times, 0) <= now ::
      HoldsInSeconds(times, key, burst, window, now)
  }

  /** The same in real time: at most `burst` admissions in (now - window, now]. */
  ghost predicate KeepsWindows(burst: int, window: nat)
  {
    forall times, key, now | Ordered(times, 0) && LastTime(times, 0) <= now ::
      HoldsInRealTime(times, key, burst, window, now)
  }

  // ---------- What a run has logged ----------

  function LogAfter(log: seq<nat>, times: seq<nat>, burst: int, window: nat): seq<nat>
    decreases |times|
  {
    if times == [] then log
    else LogAfter(if |InWindow(log, window, times[0])| < burst then log + [times[0]] else log, times[1..], burst, window)
  }

  lemma {:induction false} LogIsAdmitted(log: seq<nat>, times: seq<nat>, burst: int, window: nat)
    ensures LogAfter(log, times, burst, window) == log + Admitted(times, LogRun(log, times, burst, window))
    decreases |times|
  {
    if times != [] {
      var allowed := |InWindow(log, window, times[0])| < burst;
      var next := if allowed then log + [times[0]] else log;
      LogIsAdmitted(next, times[1..], burst, window);
      assert LogRun(log, times, burst, window)[1..] == LogRun(next, times[1..], burst, window);
    }
  }

  lemma PassedIsLog(times: seq<nat>, key: string, burst: int, window: nat)
    requires Ordered(times, 0)
    ensures Passed(times, key, burst, window) == LogAfter([], times, burst, window)
  {
    SerialRunIsSlidingLog(times, key, burst, window);
    LogIsAdmitted([], times, burst, window);
  }

  // ---------- A burst of one keeps its windows, in seconds ----------

  /** Admitted seconds lie at least a window apart. */
  predicate Apart(log: seq<nat>, window: nat)
  {
    forall i, j | 0 <= i < j < |log| :: Seconds(log[i]) + Seconds(window) <= Seconds(log[j])
  }

  predicate Until(log: seq<nat>, now: nat)
  {
    forall i | 0 <= i < |log| :: log[i] <= now
  }

  lemma {:induction false} BurstOfOneStaysApart(log: seq<nat>, times: seq<nat>, burst: int, window: nat, start: nat)
    requires burst <= 1 && Apart(log, window) && Until(log, start) && Ordered(times, start)
    requires burst <= 0 ==> log == []
    ensures Apart(LogAfter(log, times, burst, window), window)
    ensures burst <= 0 ==> LogAfter(log, times, burst, window) == []
    decreases |times|
  {
    if times != [] {
      var now := times[0];
      if |InWindow(log, window, now)| < burst {
        forall i | 0 <= i < |log|
          ensures Seconds(log[i]) + Seconds(window) <= Seconds(now)
        {
          assert Seconds(log[i]) !in InWindow(log, window, now);
        }
        BurstOfOneStaysApart(log + [now], times[1..], burst, window, now);
      } else {
        BurstOfOneStaysApart(log, times[1..], burst, window, now);
      }
    }
  }

  lemma {:induction false} AtMostOneInside(log: seq<nat>, window: nat, now: nat)
    requires Apart(log, window) && Seconds(window) >= 1
    ensures CountIn(InSeconds(log), Seconds(now) - Seconds(window), Seconds(now)) <= 1
    ensures (forall i | 0 <= i < |log| :: !(Seconds(now) - Seconds(window) < Seconds(log[i]) <= Seconds(now))) ==>
              CountIn(InSeconds(log), Seconds(now) - Seconds(window), Seconds(now)) == 0
  {
    if log != [] {
      var init := log[..|log| - 1];
      AtMostOneInside(init, window, now);
      assert InSeconds(log)[..|log| - 1] == InSeconds(init);
    }
  }

  lemma {:induction false} NoneInEmptyInterval(times: seq<nat>, low: int, high: int)
    requires high <= low
    ensures CountIn(times, low, high) == 0
  {
    if times != [] {
      NoneInEmptyInterval(times[..|times| - 1], low, high);
    }
  }

  // ---------- Floods ----------

  lemma SameSecondMarksOne(log: seq<nat>, window: nat, now: nat, second: nat)
    requires forall i | 0 <= i < |log| :: Seconds(log[i]) == second
    ensures |InWindow(log, window, now)| <= 1
    ensures Seconds(window) == 0 ==> InWindow(log, window, now) == {}
  {
    assert InWindow(log, window, now) <= {second};
    SubsetSize(InWindow(log, window, now), {second});
  }

  lemma {:induction false} FloodLogged(log: seq<nat>, times: seq<nat>, burst: int, window: nat, second: nat)
    requires burst >= 2 || (burst == 1 && Seconds(window) == 0)
    requires forall i | 0 <= i < |log| :: Seconds(log[i]) == second
    requires forall i | 0 <= i < |times| :: Seconds(times[i]) == second
    ensures LogAfter(log, times, burst, window) == log + times
    ensures AllAdmitted(LogRun(log, times, burst, window))
    decreases |times|
  {
    if times != [] {
      SameSecondMarksOne(log, window, times[0], second);
      FloodLogged(log + [times[0]], times[1..], burst, window, second);
    }
  }

  lemma FloodPasses(times: seq<nat>, key: string, burst: int, window: nat, second: nat)
    requires burst >= 2 || (burst == 1 && Seconds(window) == 0)
    requires Ordered(times, 0) && forall i | 0 <= i < |times| :: Seconds(times[i]) == second
    ensures AllAdmitted(RedisRun(EMPTY, times, key, burst, window, true))
    ensures Passed(times, key, burst, window) == times
  {
    FloodLogged([], times, burst, window, second);
    SerialRunIsSlidingLog(times, key, burst, window);
    PassedIsLog(times, key, burst, window);
    assert [] + times == times;
  }

  /** With a burst of two or more, any number of requests within one second are all admitted. */
  lemma FloodOfOneSecondIsAdmitted(times: seq<nat>, key: string, burst: int, window: nat, second: nat)
    requires burst >= 2
    requires Ordered(times, 0) && forall i | 0 <= i < |times| :: Seconds(times[i]) == second
    ensures AllAdmitted(RedisRun(EMPTY, times, key, burst, window, true))
    ensures |Passed(times, key, burst, window)| == |times|
  {
    FloodPasses(times, key, burst, window, second);
  }

  function Zeros(n: nat): seq<nat> { seq(n, _ => 0) }

  lemma {:induction false} ZerosCounted(n: nat, low: int)
    requires low < 0
    ensures CountIn(Zeros(n), low, 0) == n && CountIn(InSeconds(Zeros(n)), low, 0) == n && Ordered(Zeros(n), 0)
  {
    if n > 0 {
      ZerosCounted(n - 1, low);
      assert Zeros(n)[..n - 1] == Zeros(n - 1) == Zeros(n)[1..];
      assert InSeconds(Zeros(n))[..n - 1] == InSeconds(Zeros(n - 1));
    }
  }

  /** `burst` + 1 requests at time 0 all pass, more than a window may hold. */
  lemma FloodBreaksWindow(key: string, burst: int, window: nat)
    requires window > 0 && (burst >= 2 || (burst == 1 && Seconds(window) == 0))
    ensures var times := Zeros(burst + 1);
            && Ordered(times, 0) && LastTime(times, 0) == 0 && !HoldsInRealTime(times, key, burst, window, 0)
            && (Seconds(window) > 0 ==> !HoldsInSeconds(times, key, burst, window, 0))
  {
    ZerosCounted(burst + 1, 0 - window);
    if Seconds(window) > 0 { ZerosCounted(burst + 1, 0 - Seconds(window)); }
    FloodPasses(Zeros(burst + 1), key, burst, window, 0);
  }

  /** In whole seconds, every window holds at most `burst` admissions of every serial run exactly when
      the burst is at most one, or the window has no whole second at all. */
  lemma WindowPromiseInSeconds(burst: int, window: nat)
    ensures KeepsWindowsInSeconds(burst, window) <==> burst <= 1 || Seconds(window) == 0
  {
    if burst <= 1 || Seconds(window) == 0 {
      forall times, key, now | Ordered(times, 0) && LastTime(times, 0) <= now
        ensures HoldsInSeconds(times, key, burst, window, now)
      {
        if Seconds(window) == 0 {
          NoneInEmptyInterval(InSeconds(Passed(times, key, burst, window)), Seconds(now), Seconds(now));
        } else {
          PassedIsLog(times, key, burst, window);
          BurstOfOneStaysApart([], times, burst, window, 0);
          AtMostOneInside(LogAfter([], times, burst, window), window, now);
        }
      }
    } else {
      FloodBreaksWindow("k", burst, window);
    }
  }

  // ---------- Real time ----------

  lemma BothLogged(a: nat, b: nat, window: nat)
    requires Seconds(b) - Seconds(window) >= Seconds(a)
    ensures LogAfter([], [a, b], 1, window) == [a, b]
  {
    assert [a, b][1..] == [b] && [b][1..] == [] && [] + [a] == [a] && [a] + [b] == [a, b];
    assert InWindow([], window, a) == {} && InWindow([a], window, b) == {};
    assert LogAfter([a, b], [], 1, window) == [a, b];
    assert LogAfter([a], [b], 1, window) == [a, b];
  }

  lemma BothCounted(a: nat, b: nat, low: int)
    requires low < a <= b
    ensures CountIn([a, b], low, b) == 2
  {
    assert [a, b][..1] == [a] && [a][..0] == [];
    assert CountIn([a], low, b) == 1;
  }

  /** With a burst of one: a request in the last instant of second 0 and one as soon as that second has
      left the window both pass, less than a window apart. */
  lemma LateAndEarly(key: string, window: nat)
    requires Seconds(window) >= 1
    ensures var times := [SECOND - 1, Seconds(window) * SECOND];
            Ordered(times, 0) && LastTime(times, 0) == times[1] && !HoldsInRealTime(times, key, 1, window, times[1])
  {
    var a: nat, b: nat := SECOND - 1, Seconds(window) * SECOND;
    var times := [a, b];
    assert Seconds(a) == 0 && Seconds(b) == Seconds(window);
    BothLogged(a, b, window);
    assert times[1..] == [b] && Ordered([b], a);
    PassedIsLog(times, key, 1, window);
    BothCounted(a, b, b - window);
  }

  /** In real time, every window holds at most `burst` admissions exactly when nothing is ever admitted
      or the window is empty. */
  lemma WindowPromiseInRealTime(burst: int, window: nat)
    ensures KeepsWindows(burst, window) <==> burst <= 0 || window == 0
  {
    if burst <= 0 || window == 0 {
      forall times, key, now | Ordered(times, 0) && LastTime(times, 0) <= now
        ensures HoldsInRealTime(times, key, burst, window, now)
      {
        if window == 0 {
          NoneInEmptyInterval(Passed(times, key, burst, window), now, now);
        } else {
          PassedIsLog(times, key, burst, window);
          BurstOfOneStaysApart([], times, burst, window, 0);
        }
      }
    } else if burst == 1 && Seconds(window) >= 1 {
      LateAndEarly("k", window);
    } else {
      FloodBreaksWindow("k", burst, window);
    }
  }

  // ---------- What does hold for every burst ----------

  predicate OnePerSecond(times: seq<nat>)
  {
    forall i, j | 0 <= i < j < |times| :: Seconds(times[i]) < Seconds(times[j])
  }

  lemma {:induction false} LogFromTimes(log: seq<nat>, times: seq<nat>, burst: int, window: nat)
    requires OnePerSecond(log + times)
    ensures OnePerSecond(LogAfter(log, times, burst, window))
    decreases |times|
  {
    if times != [] {
      var now := times[0];
      assert log + times == (log + [now]) + times[1..];
      assert OnePerSecond(log + times[1..]) by { SkipOne(log, times); }
      LogFromTimes(if |InWindow(log, window, now)| < burst then log + [now] else log, times[1..], burst, window);
    } else {
      assert log + times == log;
    }
  }

  lemma SkipOne(log: seq<nat>, times: seq<nat>)
    requires times != [] && OnePerSecond(log + times)
    ensures OnePerSecond(log + times[1..])
  {
    var all, less := log + times, log + times[1..];
    forall i, j | 0 <= i < j < |less|
      ensures Seconds(less[i]) < Seconds(less[j])
    {
      var i', j' := if i < |log| then i else i + 1, if j < |log| then j else j + 1;
      assert less[i] == all[i'] && less[j] == all[j'];
    }
  }

  lemma {:induction false} CountIsMarked(log: seq<nat>, window: nat, now: nat)
    requires OnePerSecond(log)
    ensures CountIn(InSeconds(log), Seconds(now) - Seconds(window), Seconds(now)) == |InWindow(log, window, now)|
  {
    if log != [] {
      var init, last := log[..|log| - 1], log[|log| - 1];
      CountIsMarked(init, window, now);
      assert InSeconds(log)[..|log| - 1] == InSeconds(init);
      assert log == init + [last];
      if Seconds(now) - Seconds(window) < Seconds(last) <= Seconds(now) {
        WindowOfMore(init, last, window, now);
        assert Seconds(last) !in InWindow(init, window, now);
      } else {
        OutsideMarksNothing(init, last, window, now);
      }
    }
  }

  lemma OutsideMarksNothing(log: seq<nat>, at: nat, window: nat, now: nat)
    requires !(Seconds(now) - Seconds(window) < Seconds(at) <= Seconds(now))
    ensures InWindow(log + [at], window, now) == InWindow(log, window, now)
  {
    var more := log + [at];
    assert more[|log|] == at;
    forall s | s in InWindow(log, window, now)
      ensures s in InWindow(more, window, now)
    {
      var i :| 0 <= i < |log| && Seconds(log[i]) == s;
      assert more[i] == log[i];
    }
    forall s | s in InWindow(more, window, now)
      ensures s in InWindow(log, window, now)
    {
      var i :| 0 <= i < |more| && Seconds(more[i]) == s && Seconds(now) - Seconds(window) < s <= Seconds(now);
      assert i < |log| && more[i] == log[i];
    }
  }

  lemma {:induction false} MarkedWithinBurst(log: seq<nat>, times: seq<nat>, burst: int, window: nat, start: nat, now: nat)
    requires Until(log, start) && Ordered(times, start)
    requires forall at: nat :: |InWindow(log, window, at)| <= Max(0, burst)
    ensures |InWindow(LogAfter(log, times, burst, window), window, now)| <= Max(0, burst)
    decreases |times|
  {
    if times != [] {
      var at := times[0];
      if |InWindow(log, window, at)| < burst {
        forall later: nat
          ensures |InWindow(log + [at], window, later)| <= Max(0, burst)
        {
          OneMoreMarked(log, at, burst, window, later);
        }
        MarkedWithinBurst(log + [at], times[1..], burst, window, at, now);
      } else {
        MarkedWithinBurst(log, times[1..], burst, window, at, now);
      }
    }
  }

  lemma OneMoreMarked(log: seq<nat>, at: nat, burst: int, window: nat, later: nat)
    requires Until(log, at) && |InWindow(log, window, at)| < burst
    requires |InWindow(log, window, later)| <= Max(0, burst)
    ensures |InWindow(log + [at], window, later)| <= Max(0, burst)
  {
    var more, before := log + [at], InWindow(log, window, at);
    if Seconds(later) - Seconds(window) < Seconds(at) <= Seconds(later) {
      assert InWindow(more, window, later) <= before + {Seconds(at)} by {
        forall s | s in InWindow(more, window, later)
          ensures s in before + {Seconds(at)}
        {
          var i :| 0 <= i < |more| && Seconds(more[i]) == s;
          if i < |log| { assert more[i] == log[i]; }
        }
      }
      SubsetSize(InWindow(more, window, later), before + {Seconds(at)});
    } else {
      OutsideMarksNothing(log, at, window, later);
    }
  }

  /** What holds for every burst and window: at any time the admissions of any serial run lie in at most
      `burst` different seconds of the window; so a client that sends at most one request in each second
      is held to the burst. */
  lemma SecondsStayWithinBurst(times: seq<nat>, key: string, burst: int, window: nat, now: nat)
    requires Ordered(times, 0)
    ensures |InWindow(Passed(times, key, burst, window), window, now)| <= Max(0, burst)
    ensures OnePerSecond(times) ==>
              CountIn(InSeconds(Passed(times, key, burst, window)), Seconds(now) - Seconds(window), Seconds(now))
              <= Max(0, burst)
  {
    PassedIsLog(times, key, burst, window);
    assert forall at: nat :: InWindow([], window, at) == {};
    MarkedWithinBurst([], times, burst, window, 0, now);
    if OnePerSecond(times) {
      assert [] + times == times;
      LogFromTimes([], times, burst, window);
      CountIsMarked(LogAfter([], times, burst, window), window, now);
    }
  }
}
