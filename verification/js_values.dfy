/**
 The slice of JavaScript value semantics that the service's handlers and its
 port guard depend on: the value space a JSON request body or a caller of
 `server.start` can hand over, the `typeof` operator, truthiness (the
 ECMAScript ToBoolean conversion) and the property read `body.healthy`.
 */
module JsValues {

  datatype Option<+T> = None | Some(value: T) {
    function GetOr(default: T): T {
      match this
      case Some(v) => v
      case None => default
    }
  }

  /** A JavaScript number, seen only through the classes the code tells apart.
      Negative zero is not distinguished from zero: neither the port guard nor
      truthiness separates them. */
  datatype JsNumber = NaN | PosInf | NegInf | Finite(x: real)

  /** A JavaScript value. Objects are the ordered key/value pairs a JSON text
      lists (duplicates included); arrays are their elements. */
  datatype JsValue =
    | Num(n: JsNumber)
    | Str(s: string)
    | Bool(b: bool)
    | Null
    | Undefined
    | Object(fields: seq<(string, JsValue)>)
    | Array(elems: seq<JsValue>)

  /** The `typeof` operator. `null` and arrays report "object", as in JavaScript. */
  function TypeOf(v: JsValue): (t: string)
    ensures t == "number" <==> v.Num?
    ensures t == "object" <==> v.Null? || v.Object? || v.Array?
  {
    match v
    case Num(_) => "number"
    case Str(_) => "string"
    case Bool(_) => "boolean"
    case Undefined => "undefined"
    case Null => "object"
    case Object(_) => "object"
    case Array(_) => "object"
  }

  /** The falsy values as the language standard enumerates them (with -0
      folded into 0); everything else, `"false"`, `{}` and `[]` included, is
      truthy. */
  const FalsyValues: set<JsValue> :=
    {Bool(false), Num(Finite(0.0)), Num(NaN), Str(""), Null, Undefined}

  /** Truthiness: the value an `if (v)` test sees. It agrees with the
      enumeration of falsy values, in both directions. */
  predicate Truthy(v: JsValue)
    ensures Truthy(v) <==> v !in FalsyValues
  {
    match v
    case Bool(b) => b
    case Num(n) => !n.NaN? && n != Finite(0.0)
    case Str(s) => s != ""
    case Null => false
    case Undefined => false
    case Object(_) => true
    case Array(_) => true
  }

  /** The position of the last field named `key`, or -1 when there is none. */
  function LastIndexOf(fields: seq<(string, JsValue)>, key: string): (k: int)
    ensures -1 <= k < |fields|
    ensures k >= 0 ==> fields[k].0 == key
    ensures forall j :: k < j < |fields| ==> fields[j].0 != key
    decreases |fields|
  {
    if |fields| == 0 then -1
    else if fields[|fields| - 1].0 == key then |fields| - 1
    else
      var k := LastIndexOf(fields[..|fields| - 1], key);
      assert forall j :: k < j < |fields| - 1 ==> fields[..|fields| - 1][j] == fields[j];
      k
  }

  /** The own property `key` of an object parsed from JSON. When the text
      repeats a key the last occurrence wins. */
  function Lookup(fields: seq<(string, JsValue)>, key: string): (r: Option<JsValue>)
    ensures r.Some? <==> exists i :: 0 <= i < |fields| && fields[i].0 == key
    ensures r.Some? ==> exists i :: 0 <= i < |fields| && fields[i] == (key, r.value)
                                    && forall j :: i < j < |fields| ==> fields[j].0 != key
  {
    var k := LastIndexOf(fields, key);
    if k < 0 then None
    else
      assert fields[k] == (key, fields[k].1);
      Some(fields[k].1)
  }

  /** The name of the request-body field the toggle handler reads. */
  const HealthyKey: string := "healthy"

  /** Reading a property either yields a value or throws a TypeError. */
  datatype PropertyRead = Value(v: JsValue) | TypeError

  /** The expression `body.healthy`. Reading a property of `null` or
      `undefined` throws; no number, boolean, string or array has an own or
      inherited property of that name, so those read `undefined`; an object
      yields its field, or `undefined` when it has none. */
  function ReadHealthy(body: JsValue): (r: PropertyRead)
    ensures r.TypeError? <==> body.Null? || body.Undefined?
    ensures r.Value? && !body.Object? ==> r.v == Undefined
    ensures body.Object? && (exists i :: 0 <= i < |body.fields| && body.fields[i].0 == HealthyKey) ==>
              exists i :: 0 <= i < |body.fields| && body.fields[i] == (HealthyKey, r.v)
                          && forall j :: i < j < |body.fields| ==> body.fields[j].0 != HealthyKey
    ensures body.Object? && (forall i :: 0 <= i < |body.fields| ==> body.fields[i].0 != HealthyKey) ==>
              r == Value(Undefined)
  {
    match body
    case Null => TypeError
    case Undefined => TypeError
    case Object(fields) => Value(Lookup(fields, HealthyKey).GetOr(Undefined))
    case _ => Value(Undefined)
  }

  /** A JSON body `{"healthy": x}` reads back exactly `x`. */
  lemma ReadHealthyOfSingleField(x: JsValue)
    ensures ReadHealthy(Object([(HealthyKey, x)])) == Value(x)
  {
  }
}
