/**
 The three route handlers and the process-wide `isHealthy` variable they
 share, as a pure transition function from (stored value, request) to
 (stored value, response), and its fold over a sequence of requests handled
 one at a time.
 */
module HealthRouter {
  import opened JsValues

  datatype Request =
    | GetRoot
    | GetHealth
    | PostToggleHealth(body: JsValue)

  /** The body `{"healthy": x}` a client sends to store `x`. */
  function ToggleWith(x: JsValue): Request {
    PostToggleHealth(Object([(HealthyKey, x)]))
  }

  /** What a handler writes: plain text, `{status: ...}`, `{updated: ...}`, or
      the framework's error page when the handler throws. */
  datatype Body =
    | Text(text: string)
    | Status(status: string)
    | Updated(updated: JsValue)
    | ErrorPage

  datatype Response = Response(code: int, body: Body)

  /** The stored value and the response after one request. */
  datatype Transition = Transition(state: JsValue, response: Response)

  const Greeting: string := "Hello from DevSecOps App \U{1F680}"

  /** `isHealthy` at process start. */
  const InitialState: JsValue := Bool(true)

  const HealthyResponse: Response := Response(200, Status("healthy"))
  const UnhealthyResponse: Response := Response(500, Status("unhealthy"))
  const GreetingResponse: Response := Response(200, Text(Greeting))

  /** The answer of `GET /health` while `state` is stored. */
  function HealthResponse(state: JsValue): (r: Response)
    ensures r.code == 200 <==> Truthy(state)
    ensures r == HealthyResponse || r == UnhealthyResponse
  {
    if Truthy(state) then HealthyResponse else UnhealthyResponse
  }

  /** A request that stores a new value: a toggle whose body can be read. */
  predicate Writes(req: Request) {
    req.PostToggleHealth? && ReadHealthy(req.body).Value?
  }

  /** The value such a request stores. */
  function Written(req: Request): JsValue
    requires Writes(req)
  {
    ReadHealthy(req.body).v
  }

  /** One request. `GET /` and `GET /health` only read; the toggle stores
      `body.healthy` as it is, with no check of its type, and echoes it.
      A toggle whose body is `null` or `undefined` throws before the
      assignment, so the stored value is kept and the error page is sent. */
  function Step(state: JsValue, req: Request): (t: Transition)
    ensures !Writes(req) ==> t.state == state
    ensures Writes(req) ==> t.state == Written(req) && t.response == Response(200, Updated(Written(req)))
    ensures t.response.code == 200 || t.response.code == 500
  {
    match req
    case GetRoot => Transition(state, GreetingResponse)
    case GetHealth => Transition(state, HealthResponse(state))
    case PostToggleHealth(body) =>
      match ReadHealthy(body)
      case TypeError => Transition(state, Response(500, ErrorPage))
      case Value(x) => Transition(x, Response(200, Updated(x)))
  }

  /** The stored value and the responses after handling `reqs` in order. */
  datatype Trace = Trace(state: JsValue, responses: seq<Response>)

  function Run(init: JsValue, reqs: seq<Request>): (tr: Trace)
    ensures |tr.responses| == |reqs|
    decreases |reqs|
  {
    if |reqs| == 0 then Trace(init, [])
    else
      var prev := Run(init, reqs[..|reqs| - 1]);
      var t := Step(prev.state, reqs[|reqs| - 1]);
      Trace(t.state, prev.responses + [t.response])
  }

  /** Handling `reqs` then `req` is handling `reqs` and then stepping once. */
  lemma RunSnoc(init: JsValue, reqs: seq<Request>, req: Request)
    ensures Run(init, reqs + [req]).state == Step(Run(init, reqs).state, req).state
    ensures Run(init, reqs + [req]).responses
            == Run(init, reqs).responses + [Step(Run(init, reqs).state, req).response]
  {
    assert (reqs + [req])[..|reqs|] == reqs;
  }

  /** Handling `a` and then `b` is handling `b` from the value `a` left
      stored: the stored value is the only thing one request passes on to
      the next, and the responses of `a` are followed by those of `b`. */
  lemma {:induction false} RunAppend(init: JsValue, a: seq<Request>, b: seq<Request>)
    ensures Run(init, a + b).state == Run(Run(init, a).state, b).state
    ensures Run(init, a + b).responses == Run(init, a).responses + Run(Run(init, a).state, b).responses
    decreases |b|
  {
    if |b| == 0 {
      assert a + b == a;
    } else {
      var last := |b| - 1;
      var front := b[..last];
      RunAppend(init, a, front);
      assert a + b == (a + front) + [b[last]];
      assert b == front + [b[last]];
      RunSnoc(init, a + front, b[last]);
      RunSnoc(Run(init, a).state, front, b[last]);
    }
  }

  /** From the initial state, `GET /health` answers 200 `{status:"healthy"}`. */
  lemma InitialHealthIsHealthy()
    ensures Step(InitialState, GetHealth) == Transition(InitialState, HealthyResponse)
  {
  }

  /** `GET /` answers the greeting whatever is stored, and stores nothing. */
  lemma RootIsConstant(state: JsValue)
    ensures Step(state, GetRoot) == Transition(state, GreetingResponse)
  {
  }

  /** `GET /health` stores nothing and answers by the truthiness of the
      stored value: 200 exactly when it is truthy. */
  lemma HealthReadsTruthiness(state: JsValue)
    ensures Step(state, GetHealth).state == state
    ensures Step(state, GetHealth).response.code == 200 <==> Truthy(state)
    ensures Truthy(state) ==> Step(state, GetHealth).response == HealthyResponse
    ensures !Truthy(state) ==> Step(state, GetHealth).response == UnhealthyResponse
  {
  }

  /** Toggling with `{"healthy": x}` stores exactly `x`, whatever its type,
      and answers 200 `{updated: x}`. */
  lemma ToggleStoresVerbatim(state: JsValue, x: JsValue)
    ensures Step(state, ToggleWith(x))
            == Transition(x, Response(200, Updated(x)))
  {
    ReadHealthyOfSingleField(x);
  }

  /** A toggle whose body is an object stores the value of the body's last
      `healthy` field, whatever fields come before or after it, and echoes it. */
  lemma ToggleStoresLastField(state: JsValue, fields: seq<(string, JsValue)>, i: nat)
    requires i < |fields| && fields[i].0 == HealthyKey
    requires forall j :: i < j < |fields| ==> fields[j].0 != HealthyKey
    ensures Step(state, PostToggleHealth(Object(fields)))
            == Transition(fields[i].1, Response(200, Updated(fields[i].1)))
  {
    var r := ReadHealthy(Object(fields));
    var k :| 0 <= k < |fields| && fields[k] == (HealthyKey, r.v)
             && forall j :: k < j < |fields| ==> fields[j].0 != HealthyKey;
    assert k == i;
  }

  /** After any earlier requests, a toggle with `x` followed by `GET /health`
      stores `x`, echoes it, and then answers by the truthiness of `x`. */
  lemma ToggleThenHealthAfter(init: JsValue, reqs: seq<Request>, x: JsValue)
    ensures Run(init, reqs + [ToggleWith(x), GetHealth]).state == x
    ensures Run(init, reqs + [ToggleWith(x), GetHealth]).responses
            == Run(init, reqs).responses + [Response(200, Updated(x)), HealthResponse(x)]
  {
    ToggleStoresVerbatim(Run(init, reqs).state, x);
    RunSnoc(init, reqs, ToggleWith(x));
    RunSnoc(init, reqs + [ToggleWith(x)], GetHealth);
    assert reqs + [ToggleWith(x)] + [GetHealth] == reqs + [ToggleWith(x), GetHealth];
  }

  /** Toggle with `x`, then read the health: 200 "healthy" when `x` is
      truthy, 500 "unhealthy" otherwise. */
  lemma ToggleThenHealth(state: JsValue, x: JsValue)
    ensures Run(state, [ToggleWith(x), GetHealth]).responses[1]
            == if Truthy(x) then HealthyResponse else UnhealthyResponse
  {
    ToggleThenHealthAfter(state, [], x);
    assert [] + [ToggleWith(x), GetHealth] == [ToggleWith(x), GetHealth];
  }

  /** In one run from the initial state: the toggle to false that the test
      suite makes, followed by a read (500 "unhealthy"); then a toggle back to
      true and a read (200 "healthy"). */
  lemma ToggleRoundTrip()
    ensures var reqs := [ToggleWith(Bool(false)), GetHealth, ToggleWith(Bool(true)), GetHealth];
            && Run(InitialState, reqs).responses[1] == UnhealthyResponse
            && Run(InitialState, reqs).responses[3] == HealthyResponse
            && Run(InitialState, reqs).state == Bool(true)
  {
    var first := [ToggleWith(Bool(false)), GetHealth];
    ToggleThenHealthAfter(InitialState, [], Bool(false));
    assert [] + first == first;
    ToggleThenHealthAfter(InitialState, first, Bool(true));
    assert first + [ToggleWith(Bool(true)), GetHealth]
           == [ToggleWith(Bool(false)), GetHealth, ToggleWith(Bool(true)), GetHealth];
  }

  /** Because nothing checks the payload's type, a toggle with the string
      "false", an empty object or an empty array leaves the service
      reporting healthy. */
  lemma TruthyPayloadsReadHealthy(state: JsValue)
    ensures Run(state, [ToggleWith(Str("false")), GetHealth]).responses[1] == HealthyResponse
    ensures Run(state, [ToggleWith(Object([])), GetHealth]).responses[1] == HealthyResponse
    ensures Run(state, [ToggleWith(Array([])), GetHealth]).responses[1] == HealthyResponse
  {
    ToggleThenHealth(state, Str("false"));
    ToggleThenHealth(state, Object([]));
    ToggleThenHealth(state, Array([]));
  }

  /** A toggle with 0 makes the service report unhealthy, and a toggle body
      without a `healthy` field stores `undefined`, which reads unhealthy too. */
  lemma FalsyPayloadsReadUnhealthy(state: JsValue)
    ensures Run(state, [ToggleWith(Num(Finite(0.0))), GetHealth]).responses[1] == UnhealthyResponse
    ensures Step(state, PostToggleHealth(Object([]))) == Transition(Undefined, Response(200, Updated(Undefined)))
    ensures HealthResponse(Step(state, PostToggleHealth(Object([]))).state) == UnhealthyResponse
  {
    ToggleThenHealth(state, Num(Finite(0.0)));
  }

  /** With no storing request in between, the stored value never changes,
      every `GET /health` answers the same, and every `GET /` answers the
      greeting. */
  lemma {:induction false} ReadOnlyTrace(init: JsValue, reqs: seq<Request>)
    requires forall j :: 0 <= j < |reqs| ==> !Writes(reqs[j])
    ensures Run(init, reqs).state == init
    ensures forall j :: 0 <= j < |reqs| && reqs[j] == GetHealth ==>
              Run(init, reqs).responses[j] == HealthResponse(init)
    ensures forall j :: 0 <= j < |reqs| && reqs[j] == GetRoot ==>
              Run(init, reqs).responses[j] == GreetingResponse
    decreases |reqs|
  {
    if |reqs| > 0 {
      var last := |reqs| - 1;
      var prefix := reqs[..last];
      assert forall j :: 0 <= j < |prefix| ==> prefix[j] == reqs[j];
      ReadOnlyTrace(init, prefix);
      var responses := Run(init, reqs).responses;
      assert responses == Run(init, prefix).responses + [Step(init, reqs[last]).response];
      forall j | 0 <= j < |reqs| && reqs[j] == GetHealth
        ensures responses[j] == HealthResponse(init)
      {
        if j < last {
          assert prefix[j] == GetHealth;
        }
      }
      forall j | 0 <= j < |reqs| && reqs[j] == GetRoot
        ensures responses[j] == GreetingResponse
      {
        if j < last {
          assert prefix[j] == GetRoot;
        }
      }
    }
  }

  /** Repeated `GET /health` with nothing in between returns identical responses. */
  lemma RepeatedHealthIdentical(init: JsValue, reqs: seq<Request>)
    requires |reqs| > 0
    requires forall j :: 0 <= j < |reqs| ==> reqs[j] == GetHealth
    ensures forall j :: 0 <= j < |reqs| ==> Run(init, reqs).responses[j] == Run(init, reqs).responses[0]
  {
    ReadOnlyTrace(init, reqs);
  }

  /** After any sequence of requests, the stored value is what the last
      storing request wrote. */
  lemma {:induction false} LastWriteWins(init: JsValue, reqs: seq<Request>, i: nat)
    requires i < |reqs| && Writes(reqs[i])
    requires forall j :: i < j < |reqs| ==> !Writes(reqs[j])
    ensures Run(init, reqs).state == Written(reqs[i])
    decreases |reqs|
  {
    var last := |reqs| - 1;
    var prefix := reqs[..last];
    if i < last {
      assert forall j :: i < j < |prefix| ==> prefix[j] == reqs[j];
      LastWriteWins(init, prefix, i);
    }
  }

  /** When no request ever stored a value, the initial one is still stored. */
  lemma NoWriteKeepsInitial(init: JsValue, reqs: seq<Request>)
    requires forall j :: 0 <= j < |reqs| ==> !Writes(reqs[j])
    ensures Run(init, reqs).state == init
  {
    ReadOnlyTrace(init, reqs);
  }

  /** A `GET /health` at the end of any sequence of requests answers by the
      truthiness of whatever the last storing request wrote. */
  lemma HealthAfterLastWrite(init: JsValue, reqs: seq<Request>, i: nat)
    requires i < |reqs| && Writes(reqs[i])
    requires forall j :: i < j < |reqs| ==> !Writes(reqs[j])
    ensures Run(init, reqs + [GetHealth]).responses[|reqs|].code == 200 <==> Truthy(Written(reqs[i]))
  {
    LastWriteWins(init, reqs, i);
    RunSnoc(init, reqs, GetHealth);
  }
}
