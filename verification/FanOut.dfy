/** The gateway's concurrent fan-out: one goroutine per request sends its answer into a buffered
    channel, the caller receives as many answers as there were requests, and the aggregator merges
    what was collected by iterating over maps in an order it does not control. */
module FanOut {
  import opened Basics
  import opened Wrappers
  import opened Text

  datatype Json = Object(fields: map<string, Json>) | Scalar(text: string) | Null

  /** What one backend call comes back with; the body is the decoded JSON, or its raw text. */
  datatype Response = Failed | Reply(status: nat, body: Json)

  datatype Request = Request(key: string, response: Response)

  type Results = map<string, Response>

  // ---------- ForwardMultiple as a protocol ----------

  datatype Action = Send(worker: nat) | Receive

  /** `sent` lists the workers in the order their sends went through; the channel holds the part of
      it not yet received. */
  datatype State = State(sent: seq<nat>, received: nat, results: Results)

  const START := State([], 0, map[])

  /** A worker can send once and only while the channel has room; the caller receives while something
      is in the channel and fewer than all answers have been received. */
  predicate Enabled(requests: seq<Request>, st: State, action: Action)
  {
    match action
    case Send(worker) =>
      worker < |requests| && worker !in st.sent && |st.sent| - st.received < |requests|
    case Receive => st.received < |st.sent| && st.received < |requests|
  }

  predicate InRange(requests: seq<Request>, st: State)
  {
    st.received <= |st.sent| && forall i | 0 <= i < |st.sent| :: st.sent[i] < |requests|
  }

  function Next(requests: seq<Request>, st: State, action: Action): State
    requires InRange(requests, st) && Enabled(requests, st, action)
  {
    match action
    case Send(worker) => st.(sent := st.sent + [worker])
    case Receive =>
      var r := requests[st.sent[st.received]];
      State(st.sent, st.received + 1, st.results[r.key := r.response])
  }

  /** The results map after the answers have arrived in this order. */
  function Collected(requests: seq<Request>, order: seq<nat>): Results
    requires forall i | 0 <= i < |order| :: order[i] < |requests|
  {
    if order == [] then map[]
    else
      var last := requests[order[|order| - 1]];
      Collected(requests, order[..|order| - 1])[last.key := last.response]
  }

  ghost predicate Invariant(requests: seq<Request>, st: State)
  {
    && InRange(requests, st) && Distinct(st.sent)
    && st.results == Collected(requests, st.sent[..st.received])
  }

  lemma StepKeepsInvariant(requests: seq<Request>, st: State, action: Action)
    requires Invariant(requests, st) && Enabled(requests, st, action)
    ensures Invariant(requests, Next(requests, st, action))
  {
    var next := Next(requests, st, action);
    match action
    case Send(worker) =>
      assert next.sent[..st.received] == st.sent[..st.received];
    case Receive =>
      assert next.sent[..next.received][..st.received] == st.sent[..st.received];
  }

  function Below(n: nat): set<nat>
  {
    if n == 0 then {} else Below(n - 1) + {n - 1}
  }

  lemma {:induction false} BelowSize(n: nat)
    ensures |Below(n)| == n && forall k: nat :: k in Below(n) <==> k < n
  {
    if n > 0 {
      BelowSize(n - 1);
    }
  }

  function Elements(xs: seq<nat>): set<nat>
  {
    set x | x in xs
  }

  lemma {:induction false} ElementsSize(xs: seq<nat>)
    requires Distinct(xs)
    ensures |Elements(xs)| == |xs|
  {
    if xs != [] {
      var init, last := xs[..|xs| - 1], xs[|xs| - 1];
      ElementsSize(init);
      assert xs == init + [last];
      assert Elements(xs) == Elements(init) + {last};
    }
  }

  lemma DistinctBelow(xs: seq<nat>, n: nat)
    requires Distinct(xs) && forall i | 0 <= i < |xs| :: xs[i] < n
    ensures |xs| <= n
    ensures |xs| == n ==> forall k: nat | k < n :: k in xs
    ensures |xs| < n ==> exists k: nat :: k < n && k !in xs
  {
    BelowSize(n);
    ElementsSize(xs);
    assert Elements(xs) <= Below(n);
    SubsetSize(Elements(xs), Below(n));
    if |xs| == n {
      forall k: nat | k < n
        ensures k in xs
      {
        assert k in Below(n);
        assert k in Elements(xs);
      }
    }
    if |xs| < n {
      var k: nat :| k in Below(n) - Elements(xs);
    }
  }

  predicate Complete(requests: seq<Request>, st: State) { st.received == |requests| }

  /** No sender ever blocks: a worker that has not sent finds room in the channel. And the caller is
      never stuck: until it has received everything, some step is possible. */
  lemma NobodyBlocks(requests: seq<Request>, st: State, worker: nat)
    requires Invariant(requests, st)
    ensures worker < |requests| && worker !in st.sent ==> Enabled(requests, st, Send(worker))
    ensures !Complete(requests, st) ==> exists action :: Enabled(requests, st, action)
    ensures Complete(requests, st) ==> IsOrder(requests, st.sent) && st.received == |st.sent|
  {
    DistinctBelow(st.sent, |requests|);
    if worker < |requests| && worker !in st.sent {
      assert |st.sent| < |requests|;
    }
    if !Complete(requests, st) {
      if |st.sent| == |requests| || st.received < |st.sent| {
        assert Enabled(requests, st, Receive);
      } else {
        var idle: nat :| idle < |requests| && idle !in st.sent;
        assert Enabled(requests, st, Send(idle));
      }
    }
  }

  /** A completion order: every request exactly once. */
  predicate IsOrder(requests: seq<Request>, order: seq<nat>)
  {
    |order| == |requests| && Distinct(order) && forall i | 0 <= i < |order| :: order[i] < |requests|
  }

  function Run(requests: seq<Request>, actions: seq<Action>): (st: Option<State>)
    ensures st.Some? ==> InRange(requests, st.value)
  {
    if actions == [] then Some(START)
    else match Run(requests, actions[..|actions| - 1])
      case None => None
      case Some(st) =>
        if Enabled(requests, st, actions[|actions| - 1]) then Some(Next(requests, st, actions[|actions| - 1])) else None
  }

  /** Every finished run has collected the answers in some completion order, each exactly once. */
  lemma {:induction false} RunsKeepInvariant(requests: seq<Request>, actions: seq<Action>)
    requires Run(requests, actions).Some?
    ensures Invariant(requests, Run(requests, actions).value)
    ensures Complete(requests, Run(requests, actions).value) ==>
              var st := Run(requests, actions).value;
              IsOrder(requests, st.sent) && st.results == Collected(requests, st.sent)
  {
    if actions != [] {
      RunsKeepInvariant(requests, actions[..|actions| - 1]);
      StepKeepsInvariant(requests, Run(requests, actions[..|actions| - 1]).value, actions[|actions| - 1]);
    }
    var st := Run(requests, actions).value;
    NobodyBlocks(requests, st, 0);
    assert st.sent[..|st.sent|] == st.sent;
  }

  /** The receiving loop itself, over the answers in their order of arrival. */
  method CollectResults(requests: seq<Request>, order: seq<nat>) returns (results: Results)
    requires IsOrder(requests, order)
    ensures results == Collected(requests, order)
  {
    results := map[];
    for i := 0 to |requests|
      invariant results == Collected(requests, order[..i])
    {
      var answer := requests[order[i]];
      results := results[answer.key := answer.response];
      assert order[..i + 1][..i] == order[..i];
    }
    assert order[..|requests|] == order;
  }

  // ---------- When the collected map is deterministic ----------

  lemma {:induction false} CollectedContents(requests: seq<Request>, order: seq<nat>)
    requires forall i | 0 <= i < |order| :: order[i] < |requests|
    ensures forall i | 0 <= i < |order| :: requests[order[i]].key in Collected(requests, order)
    ensures forall key | key in Collected(requests, order) ::
              exists i | 0 <= i < |order| ::
                requests[order[i]] == Request(key, Collected(requests, order)[key])
  {
    if order != [] {
      var init, last := order[..|order| - 1], requests[order[|order| - 1]];
      CollectedContents(requests, init);
      forall key | key in Collected(requests, order)
        ensures exists i | 0 <= i < |order| :: requests[order[i]] == Request(key, Collected(requests, order)[key])
      {
        if key == last.key {
          assert requests[order[|order| - 1]] == Request(key, last.response);
        } else {
          assert key in Collected(requests, init);
          var i :| 0 <= i < |init| && requests[init[i]] == Request(key, Collected(requests, init)[key]);
          assert requests[order[i]] == requests[init[i]];
        }
      }
    }
  }

  /** No key is asked for twice with different answers. */
  predicate KeysAgree(requests: seq<Request>)
  {
    forall i, j | 0 <= i < |requests| && 0 <= j < |requests| ::
      requests[i].key == requests[j].key ==> requests[i].response == requests[j].response
  }

  lemma CollectedWithin(requests: seq<Request>, a: seq<nat>, b: seq<nat>, key: string)
    requires IsOrder(requests, a) && IsOrder(requests, b) && KeysAgree(requests)
    requires key in Collected(requests, a)
    ensures key in Collected(requests, b) && Collected(requests, b)[key] == Collected(requests, a)[key]
  {
    CollectedContents(requests, a);
    CollectedContents(requests, b);
    DistinctBelow(b, |requests|);
    var i :| 0 <= i < |a| && requests[a[i]] == Request(key, Collected(requests, a)[key]);
    assert a[i] in b;
    var j :| 0 <= j < |b| && b[j] == a[i];
    var k :| 0 <= k < |b| && requests[b[k]] == Request(key, Collected(requests, b)[key]);
  }

  lemma SameFromAnyOrder(requests: seq<Request>, a: seq<nat>, b: seq<nat>)
    requires IsOrder(requests, a) && IsOrder(requests, b) && KeysAgree(requests)
    ensures Collected(requests, a) == Collected(requests, b)
  {
    forall key
      ensures key in Collected(requests, a) ==>
                key in Collected(requests, b) && Collected(requests, b)[key] == Collected(requests, a)[key]
      ensures key in Collected(requests, b) ==> key in Collected(requests, a)
    {
      if key in Collected(requests, a) { CollectedWithin(requests, a, b, key); }
      if key in Collected(requests, b) { CollectedWithin(requests, b, a, key); }
    }
  }

  /** The order in which `last` answers last. */
  function LastIs(n: nat, last: nat): seq<nat>
    requires last < n
  {
    seq(n, (i: nat) => if i == n - 1 then last else if i == last then n - 1 else i)
  }

  lemma LastWins(requests: seq<Request>, last: nat)
    requires last < |requests|
    ensures IsOrder(requests, LastIs(|requests|, last))
    ensures requests[last].key in Collected(requests, LastIs(|requests|, last))
    ensures Collected(requests, LastIs(|requests|, last))[requests[last].key] == requests[last].response
  {
  }

  ghost predicate Deterministic(requests: seq<Request>)
  {
    forall a, b | IsOrder(requests, a) && IsOrder(requests, b) :: Collected(requests, a) == Collected(requests, b)
  }

  /** The collected map is the same for every completion order exactly when no key carries two
      different answers; in particular whenever the keys are distinct. */
  lemma FanOutDeterministic(requests: seq<Request>)
    ensures Deterministic(requests) <==> KeysAgree(requests)
    ensures (forall i, j | 0 <= i < j < |requests| :: requests[i].key != requests[j].key) ==> Deterministic(requests)
  {
    if KeysAgree(requests) {
      forall a, b | IsOrder(requests, a) && IsOrder(requests, b)
        ensures Collected(requests, a) == Collected(requests, b)
      {
        SameFromAnyOrder(requests, a, b);
      }
    } else {
      var i, j :| 0 <= i < |requests| && 0 <= j < |requests| &&
        requests[i].key == requests[j].key && requests[i].response != requests[j].response;
      LastWins(requests, i);
      LastWins(requests, j);
      assert Collected(requests, LastIs(|requests|, i)) != Collected(requests, LastIs(|requests|, j));
    }
  }

  // ---------- mergeResponses ----------

  type Data = map<string, Json>

  /** What one entry writes: an object's fields, or the value under its own key. */
  function Contribution(data: Data, key: string): Data
    requires key in data
  {
    if data[key].Object? then data[key].fields else map[key := data[key]]
  }

  predicate Enumerates(data: Data, order: seq<string>)
  {
    (forall i | 0 <= i < |order| :: order[i] in data) && (forall key | key in data :: key in order) &&
    (forall i, j | 0 <= i < j < |order| :: order[i] != order[j])
  }

  function Merged(data: Data, order: seq<string>): Data
    requires forall i | 0 <= i < |order| :: order[i] in data
  {
    if order == [] then map[]
    else Merged(data, order[..|order| - 1]) + Contribution(data, order[|order| - 1])
  }

  /** Both loops run over a map in an order Go leaves open; the result is the one of the order the
      outer loop happened to take, and the inner order leaves no trace. */
  method MergeResponses(data: Data) returns (result: Data)
    ensures exists order | Enumerates(data, order) :: result == Merged(data, order)
  {
    result := map[];
    ghost var order: seq<string> := [];
    var todo := data.Keys;
    while todo != {}
      invariant todo <= data.Keys
      invariant forall i | 0 <= i < |order| :: order[i] in data && order[i] !in todo
      invariant forall key | key in data :: key in todo || key in order
      invariant forall i, j | 0 <= i < j < |order| :: order[i] != order[j]
      invariant result == Merged(data, order)
      decreases todo
    {
      var key :| key in todo;
      ghost var before := result;
      match data[key] {
        case Object(fields) =>
          var inner := fields.Keys;
          while inner != {}
            invariant inner <= fields.Keys
            invariant result == before + (fields - inner)
            decreases inner
          {
            var innerKey :| innerKey in inner;
            result := result[innerKey := fields[innerKey]];
            inner := inner - {innerKey};
          }
          assert fields - {} == fields;
        case _ =>
          result := result[key := data[key]];
          assert result == before + map[key := data[key]];
      }
      assert (order + [key])[..|order|] == order;
      order := order + [key];
      todo := todo - {key};
    }
  }

  lemma {:induction false} MergedContents(data: Data, order: seq<string>)
    requires forall i | 0 <= i < |order| :: order[i] in data
    ensures forall i, out | 0 <= i < |order| && out in Contribution(data, order[i]) :: out in Merged(data, order)
    ensures forall out | out in Merged(data, order) ::
              exists i | 0 <= i < |order| ::
                out in Contribution(data, order[i]) && Contribution(data, order[i])[out] == Merged(data, order)[out]
  {
    if order != [] {
      var init, last := order[..|order| - 1], order[|order| - 1];
      MergedContents(data, init);
      forall out | out in Merged(data, order)
        ensures exists i | 0 <= i < |order| ::
                  out in Contribution(data, order[i]) && Contribution(data, order[i])[out] == Merged(data, order)[out]
      {
        if out in Contribution(data, last) {
          assert Contribution(data, order[|order| - 1])[out] == Merged(data, order)[out];
        } else {
          assert out in Merged(data, init) && Merged(data, order)[out] == Merged(data, init)[out];
          var i :| 0 <= i < |init| &&
            out in Contribution(data, init[i]) && Contribution(data, init[i])[out] == Merged(data, init)[out];
          assert order[i] == init[i];
        }
      }
    }
  }

  /** No output key is written with two different values. */
  predicate NoClash(data: Data)
  {
    forall a, b | a in data && b in data ::
      forall out | out in Contribution(data, a) && out in Contribution(data, b) ::
        Contribution(data, a)[out] == Contribution(data, b)[out]
  }

  lemma MergedSame(data: Data, x: seq<string>, y: seq<string>)
    requires Enumerates(data, x) && Enumerates(data, y) && NoClash(data)
    ensures Merged(data, x) == Merged(data, y)
  {
    MergedWithin(data, x, y);
    MergedWithin(data, y, x);
  }

  lemma MergedWithin(data: Data, x: seq<string>, y: seq<string>)
    requires Enumerates(data, x) && Enumerates(data, y) && NoClash(data)
    ensures forall out | out in Merged(data, x) :: out in Merged(data, y) && Merged(data, x)[out] == Merged(data, y)[out]
  {
    MergedContents(data, x);
    MergedContents(data, y);
    forall out | out in Merged(data, x)
      ensures out in Merged(data, y) && Merged(data, x)[out] == Merged(data, y)[out]
    {
      var i :| 0 <= i < |x| && out in Contribution(data, x[i]) && Contribution(data, x[i])[out] == Merged(data, x)[out];
      assert x[i] in y;
      var j :| 0 <= j < |y| && y[j] == x[i];
      assert out in Merged(data, y);
      var k :| 0 <= k < |y| && out in Contribution(data, y[k]) && Contribution(data, y[k])[out] == Merged(data, y)[out];
    }
  }

  lemma {:induction false} SomeEnumeration(data: Data, keys: set<string>) returns (order: seq<string>)
    requires keys <= data.Keys
    ensures forall i | 0 <= i < |order| :: order[i] in keys
    ensures forall key | key in keys :: key in order
    ensures forall i, j | 0 <= i < j < |order| :: order[i] != order[j]
    decreases keys
  {
    if keys == {} {
      return [];
    }
    var key :| key in keys;
    order := SomeEnumeration(data, keys - {key});
    order := order + [key];
  }

  lemma EnumerationEndingIn(data: Data, last: string) returns (order: seq<string>)
    requires last in data
    ensures Enumerates(data, order) && order != [] && order[|order| - 1] == last
  {
    order := SomeEnumeration(data, data.Keys - {last});
    order := order + [last];
  }

  ghost predicate MergeDeterministic(data: Data)
  {
    forall x, y | Enumerates(data, x) && Enumerates(data, y) :: Merged(data, x) == Merged(data, y)
  }

  /** The merge is independent of map iteration order exactly when no output key receives two
      different values. */
  lemma MergeDeterministicIff(data: Data)
    ensures MergeDeterministic(data) <==> NoClash(data)
  {
    if NoClash(data) {
      forall x, y | Enumerates(data, x) && Enumerates(data, y)
        ensures Merged(data, x) == Merged(data, y)
      {
        MergedSame(data, x, y);
      }
    } else {
      var a, b, out :| a in data && b in data && out in Contribution(data, a) && out in Contribution(data, b) &&
        Contribution(data, a)[out] != Contribution(data, b)[out];
      var x := EnumerationEndingIn(data, a);
      var y := EnumerationEndingIn(data, b);
      assert Merged(data, x)[out] == Contribution(data, a)[out];
      assert Merged(data, y)[out] == Contribution(data, b)[out];
    }
  }

  // ---------- The aggregated answer, end to end ----------

  datatype Answer = Partial(data: Data, message: string) | Whole(data: Data)

  function ErrorMessage(key: string, results: Results): Option<string>
  {
    if key !in results || results[key].Failed? then Some(key + ": failed")
    else if results[key].status >= 400 then Some(key + ": HTTP " + Itoa(results[key].status))
    else None
  }

  function ErrorMessages(keys: seq<string>, results: Results): seq<string>
  {
    if keys == [] then []
    else
      var last := ErrorMessage(keys[|keys| - 1], results);
      ErrorMessages(keys[..|keys| - 1], results) + (if last.Some? then [last.value] else [])
  }

  function PartValue(key: string, results: Results): Json
  {
    if key !in results || results[key].Failed? then Null else results[key].body
  }

  function Aggregated(keys: seq<string>, results: Results): Data
  {
    map key | key in keys :: PartValue(key, results)
  }

  /** Errors win over the merge type; only the "merge" type depends on an iteration order. */
  function AnswerFor(keys: seq<string>, results: Results, mergeType: string, order: seq<string>): Answer
    requires Enumerates(Aggregated(keys, results), order)
  {
    var data, messages := Aggregated(keys, results), ErrorMessages(keys, results);
    if messages != [] then Partial(data, "Partial success: " + Join(messages, ", "))
    else if mergeType == "merge" then Whole(Merged(data, order))
    else if mergeType == "array" then Whole(map["results" := Object(data)])
    else Whole(data)
  }

  /** The loop over the parts, in their order, and the choice of the answer's form. */
  method Aggregate(keys: seq<string>, results: Results, mergeType: string) returns (answer: Answer)
    ensures exists order | Enumerates(Aggregated(keys, results), order) ::
              answer == AnswerFor(keys, results, mergeType, order)
  {
    var aggregated: Data := map[];
    var hasError := false;
    var errorMessages: seq<string> := [];
    for i := 0 to |keys|
      invariant aggregated == Aggregated(keys[..i], results)
      invariant errorMessages == ErrorMessages(keys[..i], results) && (hasError <==> errorMessages != [])
    {
      var key := keys[i];
      assert keys[..i + 1][..i] == keys[..i];
      assert forall k :: k in keys[..i + 1] <==> k in keys[..i] || k == key;
      if key !in results || results[key].Failed? {
        hasError := true;
        errorMessages := errorMessages + [key + ": failed"];
        aggregated := aggregated[key := Null];
      } else {
        var result := results[key];
        if result.status >= 400 {
          hasError := true;
          errorMessages := errorMessages + [key + ": HTTP " + Itoa(result.status)];
        }
        aggregated := aggregated[key := result.body];
      }
    }
    assert keys[..|keys|] == keys;
    ghost var order := SomeEnumeration(aggregated, aggregated.Keys);
    assert Enumerates(aggregated, order);
    if hasError {
      return Partial(aggregated, "Partial success: " + Join(errorMessages, ", "));
    }
    if mergeType == "merge" {
      var merged := MergeResponses(aggregated);
      return Whole(merged);
    } else if mergeType == "array" {
      return Whole(map["results" := Object(aggregated)]);
    } else {
      return Whole(aggregated);
    }
  }

  function KeysOf(requests: seq<Request>): seq<string>
  {
    seq(|requests|, i requires 0 <= i < |requests| => requests[i].key)
  }

  /** Every answer the client could see: any completion order, then any map iteration order. */
  ghost predicate Possible(requests: seq<Request>, mergeType: string, answer: Answer)
  {
    exists order, mergeOrder |
      IsOrder(requests, order) && Enumerates(Aggregated(KeysOf(requests), Collected(requests, order)), mergeOrder) ::
      answer == AnswerFor(KeysOf(requests), Collected(requests, order), mergeType, mergeOrder)
  }

  /** The whole call, for requests that complete in this order. */
  method AggregateWithRequest(requests: seq<Request>, order: seq<nat>, mergeType: string) returns (answer: Answer)
    requires IsOrder(requests, order)
    ensures Possible(requests, mergeType, answer)
  {
    var results := CollectResults(requests, order);
    answer := Aggregate(KeysOf(requests), results, mergeType);
  }
}
