/** When the client's answer is the same for every completion order and every map iteration order, for
    arbitrary requests: keys may repeat, and requests of one key may be answered differently. */
module FanOutAnswers {
  import opened Basics
  import opened FanOut
  import opened Text
  import opened Wrappers

  // ---------- What one response contributes ----------

  datatype Report = Fine | Failure | Http(status: nat)

  function ReportOf(r: Response): Report
  {
    if r.Failed? then Failure else if r.status >= 400 then Http(r.status) else Fine
  }

  function ValueOf(r: Response): Json
  {
    if r.Failed? then Null else r.body
  }

  /** The top-level fields a request writes when the parts are merged. */
  function Writes(r: Request): Data
  {
    var value := ValueOf(r.response);
    if value.Object? then value.fields else map[r.key := value]
  }

  /** Requests of one key agree on the error reported and the value shown. */
  predicate PartsAgree(requests: seq<Request>)
  {
    forall i, j | 0 <= i < |requests| && 0 <= j < |requests| && requests[i].key == requests[j].key ::
      SamePart(requests[i].response, requests[j].response)
  }

  predicate SamePart(r: Response, s: Response)
  {
    ReportOf(r) == ReportOf(s) && ValueOf(r) == ValueOf(s)
  }

  /** Every request of the key, and there is one, writes the field. */
  predicate AlwaysWritten(requests: seq<Request>, key: string, out: string)
  {
    (exists i | 0 <= i < |requests| :: requests[i].key == key) &&
    (forall i | 0 <= i < |requests| && requests[i].key == key :: out in Writes(requests[i]))
  }

  predicate WritesAgree(r: Request, s: Request)
  {
    forall out | out in Writes(r) && out in Writes(s) :: Writes(r)[out] == Writes(s)[out]
  }

  /** No field is written with two values, and every field that is ever written is written by some key
      whichever of its requests answers last. */
  ghost predicate MergeAgrees(requests: seq<Request>)
  {
    && (forall i, j | 0 <= i < |requests| && 0 <= j < |requests| :: WritesAgree(requests[i], requests[j]))
    && (forall i, out | 0 <= i < |requests| && out in Writes(requests[i]) ::
          exists key :: AlwaysWritten(requests, key, out))
  }

  /** A request that fails or answers with an error status. */
  predicate AnyError(requests: seq<Request>)
  {
    exists i | 0 <= i < |requests| :: !ReportOf(requests[i].response).Fine?
  }

  // ---------- Which request answered last ----------

  /** For each key, the index of the request whose answer was received last. */
  type Pick = map<string, nat>

  predicate IsPick(requests: seq<Request>, pick: Pick)
  {
    && (forall key | key in pick :: pick[key] < |requests| && requests[pick[key]].key == key)
    && (forall i | 0 <= i < |requests| :: requests[i].key in pick)
  }

  function ResultsOf(requests: seq<Request>, pick: Pick): Results
    requires IsPick(requests, pick)
  {
    map key | key in pick :: requests[pick[key]].response
  }

  lemma {:induction false} LastAnswers(requests: seq<Request>, order: seq<nat>) returns (pick: Pick)
    requires forall i | 0 <= i < |order| :: order[i] < |requests|
    ensures forall key | key in pick :: pick[key] < |requests| && requests[pick[key]].key == key
    ensures forall i | 0 <= i < |order| :: requests[order[i]].key in pick
    ensures Collected(requests, order) == map key | key in pick :: requests[pick[key]].response
  {
    if order == [] {
      return map[];
    }
    pick := LastAnswers(requests, order[..|order| - 1]);
    var last := order[|order| - 1];
    pick := pick[requests[last].key := last];
  }

  lemma OrderPicks(requests: seq<Request>, order: seq<nat>) returns (pick: Pick)
    requires IsOrder(requests, order)
    ensures IsPick(requests, pick) && Collected(requests, order) == ResultsOf(requests, pick)
  {
    pick := LastAnswers(requests, order);
    DistinctBelow(order, |requests|);
    forall i | 0 <= i < |requests|
      ensures requests[i].key in pick
    {
      assert i in order;
    }
  }

  /** The requests below `n` that are not picked, or those that are. */
  function Sorted(requests: seq<Request>, pick: Pick, picked: bool, n: nat): seq<nat>
    requires IsPick(requests, pick) && n <= |requests|
  {
    if n == 0 then []
    else Sorted(requests, pick, picked, n - 1) +
         (if (pick[requests[n - 1].key] == n - 1) == picked then [n - 1] else [])
  }

  lemma {:induction false} SortedContents(requests: seq<Request>, pick: Pick, picked: bool, n: nat)
    requires IsPick(requests, pick) && n <= |requests|
    ensures var s := Sorted(requests, pick, picked, n);
            Distinct(s) &&
            forall i | 0 <= i < |s| :: s[i] < n && (pick[requests[s[i]].key] == s[i]) == picked
  {
    if n > 0 {
      SortedContents(requests, pick, picked, n - 1);
    }
  }

  lemma {:induction false} SortedSizes(requests: seq<Request>, pick: Pick, n: nat)
    requires IsPick(requests, pick) && n <= |requests|
    ensures |Sorted(requests, pick, false, n)| + |Sorted(requests, pick, true, n)| == n
  {
    if n > 0 {
      SortedSizes(requests, pick, n - 1);
    }
  }

  lemma {:induction false} PickedLast(requests: seq<Request>, pick: Pick, first: seq<nat>, n: nat)
    requires IsPick(requests, pick) && n <= |requests|
    requires forall i | 0 <= i < |first| :: first[i] < |requests|
    ensures var order := first + Sorted(requests, pick, true, n);
            (forall i | 0 <= i < |order| :: order[i] < |requests|) &&
            forall key | key in pick && pick[key] < n ::
              key in Collected(requests, order) && Collected(requests, order)[key] == requests[pick[key]].response
  {
    SortedContents(requests, pick, true, n);
    if n > 0 {
      PickedLast(requests, pick, first, n - 1);
      SortedContents(requests, pick, true, n - 1);
      var before := first + Sorted(requests, pick, true, n - 1);
      var order := first + Sorted(requests, pick, true, n);
      if pick[requests[n - 1].key] == n - 1 {
        assert order == before + [n - 1];
        assert order[..|order| - 1] == before;
      } else {
        assert order == before;
      }
    }
  }

  lemma DistinctJoined(a: seq<nat>, b: seq<nat>)
    requires Distinct(a) && Distinct(b) && forall i, j | 0 <= i < |a| && 0 <= j < |b| :: a[i] != b[j]
    ensures Distinct(a + b)
  {
  }

  function OrderFor(requests: seq<Request>, pick: Pick): seq<nat>
    requires IsPick(requests, pick)
  {
    Sorted(requests, pick, false, |requests|) + Sorted(requests, pick, true, |requests|)
  }

  lemma OrderForIsOrder(requests: seq<Request>, pick: Pick)
    requires IsPick(requests, pick)
    ensures IsOrder(requests, OrderFor(requests, pick))
  {
    var n := |requests|;
    SortedContents(requests, pick, false, n);
    SortedContents(requests, pick, true, n);
    SortedSizes(requests, pick, n);
    DistinctJoined(Sorted(requests, pick, false, n), Sorted(requests, pick, true, n));
  }

  /** Any choice of who answers last for each key does happen in some completion order. */
  lemma PickRealized(requests: seq<Request>, pick: Pick) returns (order: seq<nat>)
    requires IsPick(requests, pick)
    ensures IsOrder(requests, order) && Collected(requests, order) == ResultsOf(requests, pick)
  {
    order := OrderFor(requests, pick);
    OrderForIsOrder(requests, pick);
    SortedContents(requests, pick, false, |requests|);
    PickedLast(requests, pick, Sorted(requests, pick, false, |requests|), |requests|);
    var other := OrderPicks(requests, order);
    SameKeys(requests, pick, other);
  }

  /** Some request of the set asks for the key. */
  predicate HasOne(requests: seq<Request>, good: set<nat>, key: string)
  {
    exists j | 0 <= j < |requests| :: j in good && requests[j].key == key
  }

  /** A pick from a set of requests that has one of every key. */
  lemma PickAmong(requests: seq<Request>, good: set<nat>) returns (pick: Pick)
    requires forall i | 0 <= i < |requests| :: HasOne(requests, good, requests[i].key)
    ensures IsPick(requests, pick) && forall key | key in pick :: pick[key] in good
  {
    pick := map[];
    for i := 0 to |requests|
      invariant forall key | key in pick ::
                  pick[key] < |requests| && requests[pick[key]].key == key && pick[key] in good
      invariant forall j | 0 <= j < i :: j in good ==> requests[j].key in pick
    {
      if i in good {
        pick := pick[requests[i].key := i];
      }
    }
    forall i | 0 <= i < |requests|
      ensures requests[i].key in pick
    {
      assert HasOne(requests, good, requests[i].key);
    }
  }

  lemma SomePick(requests: seq<Request>) returns (pick: Pick)
    ensures IsPick(requests, pick)
  {
    var all := Below(|requests|);
    BelowSize(|requests|);
    forall i | 0 <= i < |requests|
      ensures HasOne(requests, all, requests[i].key)
    {
      assert i in all;
    }
    pick := PickAmong(requests, all);
  }

  lemma SameKeys(requests: seq<Request>, p: Pick, q: Pick)
    requires IsPick(requests, p) && IsPick(requests, q)
    ensures p.Keys == q.Keys
  {
    forall key
      ensures key in p ==> key in q
      ensures key in q ==> key in p
    {
      if key in p { assert requests[p[key]].key == key; }
      if key in q { assert requests[q[key]].key == key; }
    }
  }

  // ---------- The answer in terms of the pick ----------

  function DataOf(requests: seq<Request>, pick: Pick): Data
    requires IsPick(requests, pick)
  {
    map key | key in pick :: ValueOf(requests[pick[key]].response)
  }

  function ReportsOf(requests: seq<Request>, pick: Pick): seq<Report>
    requires IsPick(requests, pick)
  {
    seq(|requests|, i requires 0 <= i < |requests| => ReportOf(requests[pick[requests[i].key]].response))
  }

  predicate AllFine(reports: seq<Report>) { forall i | 0 <= i < |reports| :: reports[i].Fine? }

  function Tail(report: Report): string
    requires !report.Fine?
  {
    if report.Failure? then ": failed" else ": HTTP " + Itoa(report.status)
  }

  function Separated(rest: string): string { if rest == "" then "" else ", " + rest }

  /** The error lines of the parts, in their order, joined. */
  function Lines(keys: seq<string>, reports: seq<Report>): string
    requires |keys| == |reports|
  {
    if keys == [] then ""
    else
      var rest := Lines(keys[1..], reports[1..]);
      if reports[0].Fine? then rest else keys[0] + Tail(reports[0]) + Separated(rest)
  }

  function AnswerOf(requests: seq<Request>, pick: Pick, mergeType: string, mergeOrder: seq<string>): Answer
    requires IsPick(requests, pick) && Enumerates(DataOf(requests, pick), mergeOrder)
  {
    var data, reports := DataOf(requests, pick), ReportsOf(requests, pick);
    if !AllFine(reports) then Partial(data, "Partial success: " + Lines(KeysOf(requests), reports))
    else if mergeType == "merge" then Whole(Merged(data, mergeOrder))
    else if mergeType == "array" then Whole(map["results" := Object(data)])
    else Whole(data)
  }

  function ReportsFor(keys: seq<string>, results: Results): seq<Report>
  {
    seq(|keys|, i requires 0 <= i < |keys| => if keys[i] !in results then Failure else ReportOf(results[keys[i]]))
  }

  lemma {:induction false} MessagesOfMore(key: string, keys: seq<string>, results: Results)
    ensures ErrorMessages([key] + keys, results)
            == (if ErrorMessage(key, results).Some? then [ErrorMessage(key, results).value] else []) +
               ErrorMessages(keys, results)
  {
    if keys == [] {
      assert ([key] + keys)[..0] == [] && [key] + keys == [key];
      assert ErrorMessages([], results) == [];
    } else {
      var init := keys[..|keys| - 1];
      MessagesOfMore(key, init, results);
      assert ([key] + keys)[..|keys|] == [key] + init;
    }
  }

  lemma {:induction false} MessagesAreLines(keys: seq<string>, results: Results)
    ensures Join(ErrorMessages(keys, results), ", ") == Lines(keys, ReportsFor(keys, results))
    ensures ErrorMessages(keys, results) == [] <==> AllFine(ReportsFor(keys, results))
    ensures ErrorMessages(keys, results) == [] <==> Lines(keys, ReportsFor(keys, results)) == ""
  {
    if keys != [] {
      var reports, rest := ReportsFor(keys, results), keys[1..];
      MessagesAreLines(rest, results);
      assert reports[1..] == ReportsFor(rest, results);
      assert keys == [keys[0]] + rest;
      MessagesOfMore(keys[0], rest, results);
      FirstLine(keys, results);
      FineFirst(reports);
      if reports[0].Fine? {
        assert ErrorMessages(keys, results) == ErrorMessages(rest, results);
      } else {
        JoinOfMore(keys[0] + Tail(reports[0]), ErrorMessages(rest, results));
      }
    }
  }

  lemma FineFirst(reports: seq<Report>)
    requires reports != []
    ensures AllFine(reports) <==> reports[0].Fine? && AllFine(reports[1..])
  {
    if AllFine(reports[1..]) {
      assert forall i | 1 <= i < |reports| :: reports[i] == reports[1..][i - 1];
    }
  }

  lemma JoinOfMore(line: string, lines: seq<string>)
    requires lines == [] <==> Join(lines, ", ") == ""
    ensures Join([line] + lines, ", ") == line + Separated(Join(lines, ", "))
  {
    assert ([line] + lines)[1..] == lines;
  }

  lemma FirstLine(keys: seq<string>, results: Results)
    requires keys != []
    ensures var report := ReportsFor(keys, results)[0];
            ErrorMessage(keys[0], results) == if report.Fine? then None else Some(keys[0] + Tail(report))
  {
    var report := ReportsFor(keys, results)[0];
    if report.Http? {
      assert ": HTTP " + Itoa(report.status) == Tail(report);
      assert keys[0] + ": HTTP " + Itoa(report.status) == keys[0] + (": HTTP " + Itoa(report.status));
    }
  }

  lemma AnswerInParts(requests: seq<Request>, pick: Pick, mergeType: string, mergeOrder: seq<string>)
    requires IsPick(requests, pick) && Enumerates(DataOf(requests, pick), mergeOrder)
    ensures Aggregated(KeysOf(requests), ResultsOf(requests, pick)) == DataOf(requests, pick)
    ensures AnswerFor(KeysOf(requests), ResultsOf(requests, pick), mergeType, mergeOrder)
            == AnswerOf(requests, pick, mergeType, mergeOrder)
  {
    AggregatedIsData(requests, pick);
    MessagesAreLines(KeysOf(requests), ResultsOf(requests, pick));
    assert ReportsFor(KeysOf(requests), ResultsOf(requests, pick)) == ReportsOf(requests, pick);
  }

  lemma AggregatedIsData(requests: seq<Request>, pick: Pick)
    requires IsPick(requests, pick)
    ensures Aggregated(KeysOf(requests), ResultsOf(requests, pick)) == DataOf(requests, pick)
  {
    var keys := KeysOf(requests);
    forall key
      ensures key in keys <==> key in pick
    {
      if key in pick {
        assert keys[pick[key]] == key;
      }
    }
  }

  lemma PickIsPossible(requests: seq<Request>, pick: Pick, mergeType: string, mergeOrder: seq<string>)
    requires IsPick(requests, pick) && Enumerates(DataOf(requests, pick), mergeOrder)
    ensures Possible(requests, mergeType, AnswerOf(requests, pick, mergeType, mergeOrder))
  {
    var order := PickRealized(requests, pick);
    AnswerInParts(requests, pick, mergeType, mergeOrder);
  }

  lemma PossibleIsPick(requests: seq<Request>, mergeType: string, answer: Answer)
    returns (pick: Pick, mergeOrder: seq<string>)
    requires Possible(requests, mergeType, answer)
    ensures IsPick(requests, pick) && Enumerates(DataOf(requests, pick), mergeOrder)
    ensures answer == AnswerOf(requests, pick, mergeType, mergeOrder)
  {
    var order, found :| IsOrder(requests, order) &&
      Enumerates(Aggregated(KeysOf(requests), Collected(requests, order)), found) &&
      answer == AnswerFor(KeysOf(requests), Collected(requests, order), mergeType, found);
    mergeOrder := found;
    pick := OrderPicks(requests, order);
    AggregatedIsData(requests, pick);
    AnswerInParts(requests, pick, mergeType, mergeOrder);
  }

  // ---------- Error texts tell different reports apart ----------

  predicate NotDigits(s: string) { s == "" || !IsDigit(s[0]) }

  lemma ShorterDigits(m: nat, n: nat, x: string, y: string)
    requires NotDigits(x) && |Itoa(m)| < |Itoa(n)|
    ensures Itoa(m) + x != Itoa(n) + y
  {
    var i, s, t := |Itoa(m)|, Itoa(m) + x, Itoa(n) + y;
    assert t[i] == Itoa(n)[i];
    if x != "" {
      assert s[i] == x[0];
    }
  }

  lemma DigitsDiffer(m: nat, n: nat, x: string, y: string)
    requires m != n && NotDigits(x) && NotDigits(y)
    ensures Itoa(m) + x != Itoa(n) + y
  {
    if |Itoa(m)| < |Itoa(n)| {
      ShorterDigits(m, n, x, y);
    } else if |Itoa(n)| < |Itoa(m)| {
      ShorterDigits(n, m, y, x);
    } else {
      AtoiOfItoa(m);
      AtoiOfItoa(n);
      assert (Itoa(m) + x)[..|Itoa(m)|] == Itoa(m) && (Itoa(n) + y)[..|Itoa(n)|] == Itoa(n);
    }
  }

  lemma PrefixedDiffers(prefix: string, x: string, y: string)
    requires x != y
    ensures prefix + x != prefix + y
  {
    assert (prefix + x)[|prefix|..] == x && (prefix + y)[|prefix|..] == y;
  }

  lemma TailStarts(report: Report)
    requires !report.Fine?
    ensures |Tail(report)| > 2 && Tail(report)[2] == if report.Failure? then 'f' else 'H'
  {
  }

  lemma TailsDiffer(a: Report, b: Report, x: string, y: string)
    requires !a.Fine? && !b.Fine? && a != b
    ensures Tail(a) + Separated(x) != Tail(b) + Separated(y)
  {
    if a.Http? && b.Http? {
      DigitsDiffer(a.status, b.status, Separated(x), Separated(y));
      PrefixedDiffers(": HTTP ", Itoa(a.status) + Separated(x), Itoa(b.status) + Separated(y));
      TailSplits(": HTTP ", Itoa(a.status), Separated(x));
      TailSplits(": HTTP ", Itoa(b.status), Separated(y));
    } else {
      TailStarts(a);
      TailStarts(b);
      assert (Tail(a) + Separated(x))[2] == Tail(a)[2] && (Tail(b) + Separated(y))[2] == Tail(b)[2];
    }
  }

  lemma TailSplits(prefix: string, digits: string, rest: string)
    ensures (prefix + digits) + rest == prefix + (digits + rest)
  {
  }

  lemma LineDiffers(key: string, a: Report, b: Report, x: string, y: string)
    requires !a.Fine? && !b.Fine? && a != b
    ensures key + Tail(a) + Separated(x) != key + Tail(b) + Separated(y)
  {
    TailsDiffer(a, b, x, y);
    PrefixedDiffers(key, Tail(a) + Separated(x), Tail(b) + Separated(y));
    TailSplits(key, Tail(a), Separated(x));
    TailSplits(key, Tail(b), Separated(y));
  }

  lemma SameStart(start: string, x: string, y: string)
    requires x != y
    ensures start + Separated(x) != start + Separated(y)
  {
    if x != "" && y != "" {
      PrefixedDiffers(", ", x, y);
    }
    PrefixedDiffers(start, Separated(x), Separated(y));
  }

  /** Reports that differ at one key only, where they are `ra` and `rb`. */
  predicate DifferAt(keys: seq<string>, a: seq<Report>, b: seq<Report>, key: string, ra: Report, rb: Report)
  {
    |a| == |b| == |keys| && forall i | 0 <= i < |keys| ::
      if keys[i] == key then a[i] == ra && b[i] == rb else a[i] == b[i]
  }

  lemma {:induction false} FewerLinesAreShorter(keys: seq<string>, a: seq<Report>, b: seq<Report>, key: string, ra: Report)
    requires DifferAt(keys, a, b, key, ra, Fine) && !ra.Fine?
    ensures |Lines(keys, b)| <= |Lines(keys, a)|
    ensures key in keys ==> |Lines(keys, b)| < |Lines(keys, a)|
  {
    if keys != [] {
      FewerLinesAreShorter(keys[1..], a[1..], b[1..], key, ra);
    }
  }

  lemma {:induction false} LinesDiffer(keys: seq<string>, a: seq<Report>, b: seq<Report>, key: string,
                                       ra: Report, rb: Report)
    requires DifferAt(keys, a, b, key, ra, rb) && ra != rb && key in keys
    ensures Lines(keys, a) != Lines(keys, b)
  {
    if rb.Fine? {
      FewerLinesAreShorter(keys, a, b, key, ra);
    } else if ra.Fine? {
      FewerLinesAreShorter(keys, b, a, key, rb);
    } else {
      var x, y := Lines(keys[1..], a[1..]), Lines(keys[1..], b[1..]);
      if keys[0] == key {
        LineDiffers(key, ra, rb, x, y);
      } else {
        LinesDiffer(keys[1..], a[1..], b[1..], key, ra, rb);
        if !a[0].Fine? {
          SameStart(keys[0] + Tail(a[0]), x, y);
        }
      }
    }
  }

  // ---------- Two different answers ----------

  /** Picks that differ at one key, where the parts differ, give different answers unless both are
      merged. */
  lemma PicksTellApart(requests: seq<Request>, mergeType: string, p: Pick, q: Pick, key: string,
                       x: seq<string>, y: seq<string>)
    requires IsPick(requests, p) && IsPick(requests, q) && key in p && q == p[key := q[key]]
    requires !SamePart(requests[p[key]].response, requests[q[key]].response)
    requires Enumerates(DataOf(requests, p), x) && Enumerates(DataOf(requests, q), y)
    requires mergeType != "merge" || !AllFine(ReportsOf(requests, p)) || !AllFine(ReportsOf(requests, q))
    ensures AnswerOf(requests, p, mergeType, x) != AnswerOf(requests, q, mergeType, y)
  {
    var ra, rb := ReportOf(requests[p[key]].response), ReportOf(requests[q[key]].response);
    var a, b := ReportsOf(requests, p), ReportsOf(requests, q);
    var i := p[key];
    assert a[i] == ra && b[i] == rb;
    if DataOf(requests, p)[key] != DataOf(requests, q)[key] {
      assert DataOf(requests, p) != DataOf(requests, q);
      WrappedDiffers(DataOf(requests, p), DataOf(requests, q));
    } else if !AllFine(a) && !AllFine(b) {
      assert KeysOf(requests)[i] == key;
      assert DifferAt(KeysOf(requests), a, b, key, ra, rb);
      LinesDiffer(KeysOf(requests), a, b, key, ra, rb);
      PrefixedDiffers("Partial success: ", Lines(KeysOf(requests), a), Lines(KeysOf(requests), b));
    }
  }

  lemma WrappedDiffers(a: Data, b: Data)
    requires a != b
    ensures Whole(map["results" := Object(a)]) != Whole(map["results" := Object(b)])
  {
    var x: Data, y: Data := map["results" := Object(a)], map["results" := Object(b)];
    assert x["results"] != y["results"];
  }

  lemma PickDiffers(requests: seq<Request>, mergeType: string, p: Pick, key: string, j: nat) returns (x: Answer, y: Answer)
    requires IsPick(requests, p) && key in p && j < |requests| && requests[j].key == key
    requires !SamePart(requests[p[key]].response, requests[j].response)
    requires mergeType != "merge" || !AllFine(ReportsOf(requests, p))
    ensures Possible(requests, mergeType, x) && Possible(requests, mergeType, y) && x != y
  {
    var q := p[key := j];
    var one := SomeEnumeration(DataOf(requests, p), DataOf(requests, p).Keys);
    var other := SomeEnumeration(DataOf(requests, q), DataOf(requests, q).Keys);
    x, y := AnswerOf(requests, p, mergeType, one), AnswerOf(requests, q, mergeType, other);
    PickIsPossible(requests, p, mergeType, one);
    PickIsPossible(requests, q, mergeType, other);
    PicksTellApart(requests, mergeType, p, q, key, one, other);
  }

  lemma DisagreeingParts(requests: seq<Request>, mergeType: string) returns (x: Answer, y: Answer)
    requires !PartsAgree(requests) && (mergeType != "merge" || AnyError(requests))
    ensures Possible(requests, mergeType, x) && Possible(requests, mergeType, y) && x != y
  {
    var i: nat, j: nat :| i < |requests| && j < |requests| && requests[i].key == requests[j].key &&
                          !SamePart(requests[i].response, requests[j].response);
    var p := SomePick(requests);
    if mergeType != "merge" {
      x, y := PickDiffers(requests, mergeType, p[requests[i].key := i], requests[i].key, j);
    } else {
      var e: nat :| e < |requests| && !ReportOf(requests[e].response).Fine?;
      x, y := DisagreeingBesideError(requests, p, i, j, e);
    }
  }

  lemma DisagreeingBesideError(requests: seq<Request>, pick: Pick, i: nat, j: nat, e: nat) returns (x: Answer, y: Answer)
    requires IsPick(requests, pick) && i < |requests| && j < |requests| && requests[i].key == requests[j].key
    requires !SamePart(requests[i].response, requests[j].response)
    requires e < |requests| && !ReportOf(requests[e].response).Fine?
    ensures Possible(requests, "merge", x) && Possible(requests, "merge", y) && x != y
  {
    var key, p := requests[i].key, pick[requests[e].key := e];
    if requests[e].key == key {
      ShownError(requests, p, e);
      x, y := PickDiffers(requests, "merge", p, key,
                          if SamePart(requests[e].response, requests[i].response) then j else i);
    } else {
      p := p[key := i];
      ShownError(requests, p, e);
      x, y := PickDiffers(requests, "merge", p, key, j);
    }
  }

  lemma ShownError(requests: seq<Request>, pick: Pick, e: nat)
    requires IsPick(requests, pick) && e < |requests| && pick[requests[e].key] == e
    requires !ReportOf(requests[e].response).Fine?
    ensures !AllFine(ReportsOf(requests, pick))
  {
    assert !ReportsOf(requests, pick)[e].Fine?;
  }

  lemma NoErrorIsFine(requests: seq<Request>, pick: Pick)
    requires IsPick(requests, pick) && !AnyError(requests)
    ensures AllFine(ReportsOf(requests, pick))
  {
  }

  lemma MergedIsPossible(requests: seq<Request>, pick: Pick, mergeOrder: seq<string>)
    requires IsPick(requests, pick) && !AnyError(requests) && Enumerates(DataOf(requests, pick), mergeOrder)
    ensures Possible(requests, "merge", Whole(Merged(DataOf(requests, pick), mergeOrder)))
  {
    NoErrorIsFine(requests, pick);
    PickIsPossible(requests, pick, "merge", mergeOrder);
  }

  lemma ClashingWrites(requests: seq<Request>, i: nat, j: nat) returns (x: Answer, y: Answer)
    requires !AnyError(requests) && i < |requests| && j < |requests| && !WritesAgree(requests[i], requests[j])
    ensures Possible(requests, "merge", x) && Possible(requests, "merge", y) && x != y
  {
    var out :| out in Writes(requests[i]) && out in Writes(requests[j]) &&
               Writes(requests[i])[out] != Writes(requests[j])[out];
    var p := SomePick(requests);
    p := p[requests[i].key := i];
    var q := p[requests[j].key := j];
    if requests[i].key == requests[j].key {
      x := MergeEndingIn(requests, p, requests[i].key, out);
      y := MergeEndingIn(requests, q, requests[j].key, out);
    } else {
      x := MergeEndingIn(requests, q, requests[i].key, out);
      y := MergeEndingIn(requests, q, requests[j].key, out);
    }
  }

  lemma MergeEndingIn(requests: seq<Request>, pick: Pick, key: string, out: string) returns (x: Answer)
    requires IsPick(requests, pick) && !AnyError(requests)
    requires key in pick && out in Writes(requests[pick[key]])
    ensures Possible(requests, "merge", x) && out in x.data && x.data[out] == Writes(requests[pick[key]])[out]
  {
    var data := DataOf(requests, pick);
    var order := EnumerationEndingIn(data, key);
    assert Contribution(data, key) == Writes(requests[pick[key]]);
    MergedIsPossible(requests, pick, order);
    x := Whole(Merged(data, order));
  }

  lemma ContributionOf(requests: seq<Request>, pick: Pick, key: string)
    requires IsPick(requests, pick) && key in pick
    ensures key in DataOf(requests, pick)
    ensures Contribution(DataOf(requests, pick), key) == Writes(requests[pick[key]])
  {
  }

  lemma SometimesWritten(requests: seq<Request>, i: nat, out: string) returns (x: Answer, y: Answer)
    requires !AnyError(requests) && i < |requests| && out in Writes(requests[i])
    requires forall key :: !AlwaysWritten(requests, key, out)
    ensures Possible(requests, "merge", x) && Possible(requests, "merge", y) && x != y
  {
    var q := PickAvoiding(requests, out);
    x := MergeEndingIn(requests, q[requests[i].key := i], requests[i].key, out);
    y := MergeWithout(requests, q, out);
  }

  lemma PickAvoiding(requests: seq<Request>, out: string) returns (pick: Pick)
    requires forall key :: !AlwaysWritten(requests, key, out)
    ensures IsPick(requests, pick) && forall key | key in pick :: out !in Writes(requests[pick[key]])
  {
    BelowSize(|requests|);
    var good := set j | j in Below(|requests|) && j < |requests| && out !in Writes(requests[j]);
    forall k | 0 <= k < |requests|
      ensures HasOne(requests, good, requests[k].key)
    {
      assert !AlwaysWritten(requests, requests[k].key, out);
      var j :| 0 <= j < |requests| && requests[j].key == requests[k].key && out !in Writes(requests[j]);
      assert j in good;
    }
    pick := PickAmong(requests, good);
  }

  lemma MergeWithout(requests: seq<Request>, pick: Pick, out: string) returns (y: Answer)
    requires IsPick(requests, pick) && !AnyError(requests)
    requires forall key | key in pick :: out !in Writes(requests[pick[key]])
    ensures Possible(requests, "merge", y) && out !in y.data
  {
    var data := DataOf(requests, pick);
    var order := SomeEnumeration(data, data.Keys);
    MergedIsPossible(requests, pick, order);
    if out in Merged(data, order) {
      var i := WrittenBy(requests, pick, order, out);
    }
    y := Whole(Merged(data, order));
  }

  // ---------- One answer ----------

  lemma SameFromAnyPick(requests: seq<Request>, p: Pick, q: Pick)
    requires PartsAgree(requests) && IsPick(requests, p) && IsPick(requests, q)
    ensures DataOf(requests, p) == DataOf(requests, q) && ReportsOf(requests, p) == ReportsOf(requests, q)
  {
    SameKeys(requests, p, q);
    forall key | key in p
      ensures SamePart(requests[p[key]].response, requests[q[key]].response)
    {
      assert requests[p[key]].key == requests[q[key]].key;
    }
  }

  lemma ErrorIsShown(requests: seq<Request>, pick: Pick)
    requires PartsAgree(requests) && IsPick(requests, pick) && AnyError(requests)
    ensures !AllFine(ReportsOf(requests, pick))
  {
    var e :| 0 <= e < |requests| && !ReportOf(requests[e].response).Fine?;
    assert SamePart(requests[pick[requests[e].key]].response, requests[e].response);
    assert !ReportsOf(requests, pick)[e].Fine?;
  }

  lemma AgreeingParts(requests: seq<Request>, mergeType: string, x: Answer, y: Answer)
    requires PartsAgree(requests) && (mergeType != "merge" || AnyError(requests))
    requires Possible(requests, mergeType, x) && Possible(requests, mergeType, y)
    ensures x == y
  {
    var p, one := PossibleIsPick(requests, mergeType, x);
    var q, other := PossibleIsPick(requests, mergeType, y);
    SameFromAnyPick(requests, p, q);
    if AnyError(requests) {
      ErrorIsShown(requests, p);
    }
  }

  /** The request whose value a merged field holds is one of those picked. */
  lemma WrittenBy(requests: seq<Request>, pick: Pick, order: seq<string>, out: string) returns (i: nat)
    requires IsPick(requests, pick) && Enumerates(DataOf(requests, pick), order)
    requires out in Merged(DataOf(requests, pick), order)
    ensures i < |requests| && requests[i].key in pick && pick[requests[i].key] == i && out in Writes(requests[i])
    ensures Writes(requests[i])[out] == Merged(DataOf(requests, pick), order)[out]
  {
    var data := DataOf(requests, pick);
    MergedContents(data, order);
    var k :| 0 <= k < |order| && out in Contribution(data, order[k]) &&
             Contribution(data, order[k])[out] == Merged(data, order)[out];
    i := pick[order[k]];
    ContributionOf(requests, pick, order[k]);
  }

  lemma IsMerged(requests: seq<Request>, pick: Pick, order: seq<string>, key: string, out: string)
    requires IsPick(requests, pick) && Enumerates(DataOf(requests, pick), order)
    requires AlwaysWritten(requests, key, out)
    ensures out in Merged(DataOf(requests, pick), order)
  {
    var data := DataOf(requests, pick);
    ContributionOf(requests, pick, key);
    MergedContents(data, order);
    assert key in order;
    var k :| 0 <= k < |order| && order[k] == key;
    assert out in Contribution(data, order[k]);
  }

  lemma MergedInside(requests: seq<Request>, p: Pick, one: seq<string>, q: Pick, other: seq<string>, out: string)
    requires MergeAgrees(requests) && IsPick(requests, p) && IsPick(requests, q)
    requires Enumerates(DataOf(requests, p), one) && Enumerates(DataOf(requests, q), other)
    requires out in Merged(DataOf(requests, p), one)
    ensures out in Merged(DataOf(requests, q), other)
    ensures Merged(DataOf(requests, q), other)[out] == Merged(DataOf(requests, p), one)[out]
  {
    var i := WrittenBy(requests, p, one, out);
    var key :| AlwaysWritten(requests, key, out);
    IsMerged(requests, q, other, key, out);
    var j := WrittenBy(requests, q, other, out);
    assert WritesAgree(requests[i], requests[j]);
  }

  lemma AgreeingMerge(requests: seq<Request>, x: Answer, y: Answer)
    requires MergeAgrees(requests) && !AnyError(requests)
    requires Possible(requests, "merge", x) && Possible(requests, "merge", y)
    ensures x == y
  {
    var p, one := PossibleIsPick(requests, "merge", x);
    var q, other := PossibleIsPick(requests, "merge", y);
    NoErrorIsFine(requests, p);
    NoErrorIsFine(requests, q);
    MergedSameData(requests, p, one, q, other);
  }

  lemma MergedSameData(requests: seq<Request>, p: Pick, one: seq<string>, q: Pick, other: seq<string>)
    requires MergeAgrees(requests) && IsPick(requests, p) && IsPick(requests, q)
    requires Enumerates(DataOf(requests, p), one) && Enumerates(DataOf(requests, q), other)
    ensures Merged(DataOf(requests, p), one) == Merged(DataOf(requests, q), other)
  {
    var a, b := Merged(DataOf(requests, p), one), Merged(DataOf(requests, q), other);
    forall out
      ensures out in a ==> out in b && b[out] == a[out]
      ensures out in b ==> out in a
    {
      if out in a { MergedInside(requests, p, one, q, other, out); }
      if out in b { MergedInside(requests, q, other, p, one, out); }
    }
  }

  // ---------- The exact condition ----------

  ghost predicate OneAnswer(requests: seq<Request>, mergeType: string)
  {
    forall x, y | Possible(requests, mergeType, x) && Possible(requests, mergeType, y) :: x == y
  }

  /** For all requests: the client's answer is the same for every completion and iteration order exactly
      if the requests of each key agree on error and value; except that when everything succeeds and is
      merged, it is the fields written that have to agree. */
  lemma AnswerDeterministicIff(requests: seq<Request>, mergeType: string)
    ensures OneAnswer(requests, mergeType) <==>
            if mergeType == "merge" && !AnyError(requests) then MergeAgrees(requests) else PartsAgree(requests)
  {
    if mergeType == "merge" && !AnyError(requests) {
      if MergeAgrees(requests) {
        forall x, y | Possible(requests, mergeType, x) && Possible(requests, mergeType, y)
          ensures x == y
        {
          AgreeingMerge(requests, x, y);
        }
      } else {
        var x, y := DisagreeingMerge(requests);
      }
    } else if PartsAgree(requests) {
      forall x, y | Possible(requests, mergeType, x) && Possible(requests, mergeType, y)
        ensures x == y
      {
        AgreeingParts(requests, mergeType, x, y);
      }
    } else {
      var x, y := DisagreeingParts(requests, mergeType);
    }
  }

  lemma DisagreeingMerge(requests: seq<Request>) returns (x: Answer, y: Answer)
    requires !MergeAgrees(requests) && !AnyError(requests)
    ensures Possible(requests, "merge", x) && Possible(requests, "merge", y) && x != y
  {
    if i: nat, j: nat :| i < |requests| && j < |requests| && !WritesAgree(requests[i], requests[j]) {
      x, y := ClashingWrites(requests, i, j);
    } else {
      var i: nat, out :| i < |requests| && out in Writes(requests[i]) &&
                         !exists key :: AlwaysWritten(requests, key, out);
      x, y := SometimesWritten(requests, i, out);
    }
  }

  /** In particular, when no key carries two different answers: one answer exactly if some part failed,
      nothing is merged, or the collected parts' top-level fields do not clash. */
  lemma AnswerForAgreeingKeys(requests: seq<Request>, mergeType: string, order: seq<nat>)
    requires KeysAgree(requests) && IsOrder(requests, order)
    ensures OneAnswer(requests, mergeType) <==>
            AnyError(requests) || mergeType != "merge" || NoClash(Aggregated(KeysOf(requests), Collected(requests, order)))
  {
    AnswerDeterministicIff(requests, mergeType);
    var pick := OrderPicks(requests, order);
    AggregatedIsData(requests, pick);
    MergeAgreesUnlessClash(requests, pick);
  }

  lemma MergeAgreesUnlessClash(requests: seq<Request>, pick: Pick)
    requires KeysAgree(requests) && IsPick(requests, pick)
    ensures MergeAgrees(requests) <==> NoClash(DataOf(requests, pick))
  {
    var data := DataOf(requests, pick);
    if MergeAgrees(requests) {
      forall a, b | a in data && b in data
        ensures forall out | out in Contribution(data, a) && out in Contribution(data, b) ::
                  Contribution(data, a)[out] == Contribution(data, b)[out]
      {
        ContributionOf(requests, pick, a);
        ContributionOf(requests, pick, b);
        assert WritesAgree(requests[pick[a]], requests[pick[b]]);
      }
    }
    if NoClash(data) {
      forall i, j | 0 <= i < |requests| && 0 <= j < |requests|
        ensures WritesAgree(requests[i], requests[j])
      {
        WritesOf(requests, pick, i);
        WritesOf(requests, pick, j);
      }
      forall i, out | 0 <= i < |requests| && out in Writes(requests[i])
        ensures exists key :: AlwaysWritten(requests, key, out)
      {
        OneKeyWritesAlike(requests, i, out);
      }
    }
  }

  lemma WritesOf(requests: seq<Request>, pick: Pick, i: nat)
    requires KeysAgree(requests) && IsPick(requests, pick) && i < |requests|
    ensures requests[i].key in DataOf(requests, pick)
    ensures Contribution(DataOf(requests, pick), requests[i].key) == Writes(requests[i])
  {
    ContributionOf(requests, pick, requests[i].key);
    assert requests[pick[requests[i].key]].response == requests[i].response;
  }

  lemma OneKeyWritesAlike(requests: seq<Request>, i: nat, out: string)
    requires KeysAgree(requests) && i < |requests| && out in Writes(requests[i])
    ensures AlwaysWritten(requests, requests[i].key, out)
  {
    forall j | 0 <= j < |requests| && requests[j].key == requests[i].key
      ensures out in Writes(requests[j])
    {
      assert requests[j].response == requests[i].response;
    }
  }

  // ---------- What an answer contains ----------

  predicate Erroneous(r: Response) { r.Failed? || r.status >= 400 }

  function Shown(r: Response): Json { if r.Failed? then Null else r.body }

  /** A part's value appears in merged data: its fields if it is an object, itself under its key if not. */
  predicate Contributes(r: Request, out: string, value: Json)
  {
    if Shown(r.response).Object?
    then out in Shown(r.response).fields && Shown(r.response).fields[out] == value
    else out == r.key && Shown(r.response) == value
  }

  predicate ShowsParts(requests: seq<Request>, pick: Pick, data: Data)
    requires IsPick(requests, pick)
  {
    data.Keys == pick.Keys && forall key | key in pick :: data[key] == Shown(requests[pick[key]].response)
  }

  /** The merged data hold exactly what the parts shown contribute. */
  ghost predicate MergesParts(requests: seq<Request>, pick: Pick, data: Data)
    requires IsPick(requests, pick)
  {
    && (forall out | out in data :: exists key | key in pick :: Contributes(requests[pick[key]], out, data[out]))
    && (forall key, out, value | key in pick && Contributes(requests[pick[key]], out, value) :: out in data)
  }

  /** The message has a line for every part in error. */
  ghost predicate ReportsErrors(requests: seq<Request>, pick: Pick, message: string)
    requires IsPick(requests, pick)
  {
    && Prefixed(message)
    && forall i | 0 <= i < |requests| && Erroneous(requests[pick[requests[i].key]].response) ::
         Mentions(message, LineOf(requests[i].key, requests[pick[requests[i].key]].response))
  }

  /** Every possible answer, for any requests: one request of each key is the one shown. If one of those has
      failed or has an error status, the answer is partial: every key's value, and a message with a line for
      each part in error. Otherwise it is every key's value, or that under "results", or the merged fields:
      each of them from some part, and all of them there. */
  lemma AnswerContents(requests: seq<Request>, mergeType: string, answer: Answer) returns (pick: Pick)
    requires Possible(requests, mergeType, answer)
    ensures IsPick(requests, pick)
    ensures answer.Partial? <==> exists key | key in pick :: Erroneous(requests[pick[key]].response)
    ensures answer.Partial? ==> ShowsParts(requests, pick, answer.data) && ReportsErrors(requests, pick, answer.message)
    ensures answer.Whole? && mergeType != "merge" && mergeType != "array" ==> ShowsParts(requests, pick, answer.data)
    ensures answer.Whole? && mergeType == "array" ==>
              answer.data.Keys == {"results"} && answer.data["results"].Object? &&
              ShowsParts(requests, pick, answer.data["results"].fields)
    ensures answer.Whole? && mergeType == "merge" ==> MergesParts(requests, pick, answer.data)
  {
    var mergeOrder;
    pick, mergeOrder := PossibleIsPick(requests, mergeType, answer);
    ErrorsAreReported(requests, pick);
    DataShowsParts(requests, pick);
    if answer.Partial? {
      LinesReportErrors(requests, pick);
    } else if mergeType == "merge" {
      MergedIsContributed(requests, pick, mergeOrder);
    }
  }

  lemma DataShowsParts(requests: seq<Request>, pick: Pick)
    requires IsPick(requests, pick)
    ensures ShowsParts(requests, pick, DataOf(requests, pick))
  {
  }

  lemma LinesReportErrors(requests: seq<Request>, pick: Pick)
    requires IsPick(requests, pick)
    ensures ReportsErrors(requests, pick, "Partial success: " + Lines(KeysOf(requests), ReportsOf(requests, pick)))
  {
    var keys, reports := KeysOf(requests), ReportsOf(requests, pick);
    forall i | 0 <= i < |requests| && Erroneous(requests[pick[requests[i].key]].response)
      ensures Mentions("Partial success: " + Lines(keys, reports),
                       LineOf(requests[i].key, requests[pick[requests[i].key]].response))
    {
      LinesMention(keys, reports, i);
      LineIsTail(keys[i], requests[pick[keys[i]]].response);
      MentionedAfter("Partial success: ", Lines(keys, reports), keys[i] + Tail(reports[i]));
    }
  }

  /** The line for a part in error. */
  function LineOf(key: string, r: Response): string
    requires Erroneous(r)
  {
    if r.Failed? then key + ": failed" else key + ": HTTP " + Itoa(r.status)
  }

  ghost predicate Mentions(text: string, line: string)
  {
    exists before, after :: Surrounded(text, before, line, after)
  }

  predicate Surrounded(text: string, before: string, line: string, after: string)
  {
    text == before + (line + after)
  }

  predicate Prefixed(message: string) { "Partial success: " <= message }

  lemma LineIsTail(key: string, r: Response)
    requires Erroneous(r)
    ensures LineOf(key, r) == key + Tail(ReportOf(r))
  {
    if !r.Failed? {
      TailSplits(key, ": HTTP ", Itoa(r.status));
    }
  }

  lemma ErrorsAreReported(requests: seq<Request>, pick: Pick)
    requires IsPick(requests, pick)
    ensures AllFine(ReportsOf(requests, pick)) <==> !exists key | key in pick :: Erroneous(requests[pick[key]].response)
  {
    var reports := ReportsOf(requests, pick);
    if key :| key in pick && Erroneous(requests[pick[key]].response) {
      assert !reports[pick[key]].Fine?;
    }
    if i :| 0 <= i < |reports| && !reports[i].Fine? {
      assert Erroneous(requests[pick[requests[i].key]].response);
    }
  }

  lemma MentionedAfter(prefix: string, text: string, line: string)
    requires Mentions(text, line)
    ensures Mentions(prefix + text, line)
  {
    var before, after :| Surrounded(text, before, line, after);
    assert prefix + (before + (line + after)) == (prefix + before) + (line + after);
    assert Surrounded(prefix + text, prefix + before, line, after);
  }

  lemma {:induction false} LinesMention(keys: seq<string>, reports: seq<Report>, i: nat)
    requires |keys| == |reports| && i < |keys| && !reports[i].Fine?
    ensures Mentions(Lines(keys, reports), keys[i] + Tail(reports[i]))
    decreases |keys|
  {
    var rest := Lines(keys[1..], reports[1..]);
    if i == 0 {
      assert [] + (keys[0] + Tail(reports[0]) + Separated(rest)) == keys[0] + Tail(reports[0]) + Separated(rest);
      assert Surrounded(Lines(keys, reports), "", keys[0] + Tail(reports[0]), Separated(rest));
    } else {
      LinesMention(keys[1..], reports[1..], i - 1);
      if !reports[0].Fine? {
        LaterLineStays(keys[0] + Tail(reports[0]), rest, keys[i] + Tail(reports[i]));
      }
    }
  }

  lemma LaterLineStays(first: string, rest: string, line: string)
    requires Mentions(rest, line) && line != ""
    ensures Mentions(first + Separated(rest), line)
  {
    MentionedAfter(", ", rest, line);
    MentionedAfter(first, ", " + rest, line);
    assert rest != "";
  }

  lemma MergedIsContributed(requests: seq<Request>, pick: Pick, order: seq<string>)
    requires IsPick(requests, pick) && Enumerates(DataOf(requests, pick), order)
    ensures MergesParts(requests, pick, Merged(DataOf(requests, pick), order))
  {
    var data := DataOf(requests, pick);
    var merged := Merged(data, order);
    forall out | out in merged
      ensures exists key | key in pick :: Contributes(requests[pick[key]], out, merged[out])
    {
      var i := WrittenBy(requests, pick, order, out);
      assert Contributes(requests[pick[requests[i].key]], out, merged[out]);
    }
    MergedContents(data, order);
    forall key, out, value | key in pick && Contributes(requests[pick[key]], out, value)
      ensures out in merged
    {
      ContributionOf(requests, pick, key);
      assert key in order;
      var k :| 0 <= k < |order| && order[k] == key;
      assert out in Contribution(data, order[k]);
    }
  }
}
