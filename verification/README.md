# Health-flag service: port guard and route handlers

A Dafny model of the two pure pieces of a small Express service (`app/index.js`):

- **The port guard of `server.start`.** The caller may pass any JavaScript value. The guard throws `"Invalid port number"` unless the value's `typeof` is `"number"`, it is not NaN, it is above 0 and below 65536, and `Number.isInteger` holds. Only then is `app.listen` reached. `PortGuard.Start` returns `Err(InvalidPort)` or `Ok(port)`, where `Ok` stands for the call that binds the socket.
- **The health router.** A process-wide `isHealthy` value starts as `true`. `GET /` answers a fixed greeting. `GET /health` answers 200 `{status:"healthy"}` or 500 `{status:"unhealthy"}` by the truthiness of the stored value. `POST /toggle-health` stores `req.body.healthy` exactly as sent and echoes it as `{updated: ...}`. `HealthRouter.Step` is the pure transition `(stored value, request) -> (stored value, response)`. `HealthRouter.Run` folds it over requests that are handled one at a time.

JavaScript values are modelled by `JsValues.JsValue`: numbers (`NaN`, `±Infinity`, finite reals), strings, booleans, `null`, `undefined`, objects (as ordered key/value lists) and arrays. The module also defines `typeof`, truthiness and the `body.healthy` property read.

Files: `js_values.dfy` (module `JsValues`), `port_guard.dfy` (module `PortGuard`), `health_router.dfy` (module `HealthRouter`).

The toggle handler does not check the payload's type. It stores any value, and `GET /health` tests it with `if (isHealthy)`. So the model stores any `JsValue`, and the health answer follows JavaScript truthiness: the string `"false"` reads as healthy.

## Model

| member | source | states |
|---|---|---|
| JsValues.TypeOf | app/index.js:33 | `typeof` is `"number"` exactly for numbers, and `"object"` exactly for `null`, objects and arrays |
| JsValues.Truthy | app/index.js:16 | the `if (isHealthy)` test holds exactly when the value is not one of `false`, `0`, `NaN`, `""`, `null`, `undefined`; so `"false"`, `{}` and `[]` pass |
| JsValues.LastIndexOf | app/index.js:25 | the index returned holds the key and no later field does, or it is -1 and no field does |
| JsValues.Lookup | app/index.js:25 | a key is found exactly when some field has it; the value returned is that of the last field with the key, as in JSON parsing of duplicate keys |
| JsValues.ReadHealthy | app/index.js:25 | `body.healthy` throws exactly for a `null` or `undefined` body; for a non-object it is `undefined`; for an object it is the value of the last field named `healthy`, or `undefined` when no field has that name |
| JsValues.ReadHealthyOfSingleField | app/index.js:25 | the body `{"healthy": x}` reads back exactly `x` |
| PortGuard.ValidPort | app/index.js:32-38 | the guard's five checks pass exactly for numbers equal to an integer `p` with `0 < p < 65536` |
| PortGuard.Start | app/index.js:31-43 | `Start` binds exactly when the value is an in-range integer number, and then binds that port; on every other value it fails with `InvalidPort`, message "Invalid port number", and no port |
| PortGuard.StartAcceptsRange | app/index.js:32-43 | every integer from 1 to 65535 is accepted and bound as given |
| PortGuard.StartRejectsNonNumbers | app/index.js:33 | any value whose `typeof` is not `"number"` is rejected, whatever it contains |
| PortGuard.StartRejectsNonFinite | app/index.js:34-36 | NaN, `+Infinity` and `-Infinity` are rejected |
| PortGuard.StartRejectsFractions | app/index.js:37 | a number with a fractional part is rejected, even inside the range |
| PortGuard.StartRejectsOutOfRange | app/index.js:35-36 | integers at most 0 or at least 65536 are rejected |
| PortGuard.StartBoundaries | app/test/index.test.js:41-53 | 1 and 65535 are accepted; 0, -1, 65536, 70000, 3.14, `"abc"`, `null`, `undefined`, `{}` and `[]` are rejected |
| PortGuard.StartAcceptsUsedPorts | app/index.js:54-56 | the default entry port 3000, and the ports 3001-3003 and 4000 used by the tests, pass the guard |
| HealthRouter.HealthResponse | app/index.js:15-21 | the health answer is either 200 "healthy" or 500 "unhealthy", and it is 200 exactly when the stored value is truthy |
| HealthRouter.Step | app/index.js:10-27 | only a toggle with a readable body changes the stored value; such a toggle stores the `healthy` field and answers 200 echoing it; every answer is 200 or 500 |
| HealthRouter.Run | app/index.js:7-27 | handling requests in order yields exactly one response per request |
| HealthRouter.RunAppend | app/index.js:7-27 | handling `a` then `b` is handling `b` from the value `a` left stored: the stored value is all one request passes to the next, and the responses of `a` are followed by those of `b` |
| HealthRouter.InitialHealthIsHealthy | app/index.js:7 | from the initial value `true`, `GET /health` answers 200 "healthy" and stores nothing |
| HealthRouter.RootIsConstant | app/index.js:10-12 | `GET /` answers 200 with the greeting, whatever is stored, and stores nothing |
| HealthRouter.HealthReadsTruthiness | app/index.js:15-21 | `GET /health` stores nothing; it answers 200 "healthy" when the stored value is truthy and 500 "unhealthy" otherwise |
| HealthRouter.ToggleStoresVerbatim | app/index.js:24-26 | a toggle with `{"healthy": x}` stores exactly `x`, of any type, and answers 200 `{updated: x}` |
| HealthRouter.ToggleStoresLastField | app/index.js:24-26 | a toggle whose object body has its last `healthy` field at `x` stores `x` and answers 200 `{updated: x}`, whatever the other fields are |
| HealthRouter.ToggleThenHealthAfter | app/index.js:15-26 | after any earlier requests, a toggle with `x` and a read leave `x` stored; they answer 200 `{updated: x}` and then the health answer for `x` |
| HealthRouter.ToggleThenHealth | app/index.js:16-25 | a toggle with `x` followed by `GET /health` answers 200 "healthy" if `x` is truthy and 500 "unhealthy" otherwise |
| HealthRouter.ToggleRoundTrip | app/index.js:16-25 | in one run from the initial state: the test suite's toggle to `false` then a read gives 500 "unhealthy"; a toggle back to `true` then a read gives 200 "healthy" |
| HealthRouter.TruthyPayloadsReadHealthy | app/index.js:16-25 | because the payload is not type-checked, toggling with `"false"`, `{}` or `[]` and then reading gives 200 "healthy" |
| HealthRouter.FalsyPayloadsReadUnhealthy | app/index.js:16-25 | toggling with `0` and then reading gives 500 "unhealthy"; a toggle body without `healthy` stores `undefined`, which reads unhealthy |
| HealthRouter.ReadOnlyTrace | app/index.js:10-21 | with no storing request in between, the stored value is unchanged, every `GET /health` gives the same answer, and every `GET /` gives the greeting |
| HealthRouter.RepeatedHealthIdentical | app/index.js:15-21 | repeated `GET /health` with nothing in between gives identical responses |
| HealthRouter.LastWriteWins | app/index.js:25 | after any sequence of requests, the stored value is what the last storing toggle wrote |
| HealthRouter.NoWriteKeepsInitial | app/index.js:7 | if no request stored a value, the initial value is still stored |
| HealthRouter.HealthAfterLastWrite | app/index.js:16-25 | a `GET /health` after any sequence of requests answers 200 exactly when the last value stored by a toggle is truthy |

## Left out

- The bind itself (`app.listen`), its callback-to-Promise completion, and the instance's `listening`/`close` lifecycle. These are framework and operating-system behaviour. `Ok(port)` stands for the bind being attempted. Bind failures, such as a port already in use, are not modelled.
- The log line written once the server listens, and the `require.main === module` entry. These are I/O and process plumbing. The model only shows that 3000 passes the guard.
- JSON parsing of request bodies and the handling of malformed bodies. Both belong to the body-parsing middleware. A toggle's body is given as an already-parsed `JsValue`.
- Serialisation of responses. `Updated(x)` carries the stored value itself. For example, `{updated: undefined}` would serialise as `{}`, and the model does not show that.
- The framework's error page for a handler that throws. A toggle whose body is `null` or `undefined` is modelled as a 500 `ErrorPage` that keeps the stored value. The page's contents belong to the framework.
- IEEE 754 double precision. `Finite(x)` holds an exact real, and negative zero is folded into zero. The guard and truthiness only classify numbers, so they give the same answer on every double. Rounding of numeric literals is not modelled.
- The test harness and `jest.config.js`. They contain no logic.
- Value kinds that do not reach the handlers. The value space has no bigint, symbol or function values, and its strings have no lone UTF-16 surrogates. The guard rejects all of these, since their `typeof` is not `"number"`, and a JSON body cannot carry the first three.
- Framework answers outside the handlers. These are a 304 for a conditional GET that matches the ETag set by `res.send`/`res.json`, HEAD requests served by the GET routes, and a 404 for any other route. Requests in the model carry no method other than the three routes and no headers, so `Step` only ever answers 200 or 500.
