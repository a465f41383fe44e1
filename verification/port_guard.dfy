/**
 The argument check of `server.start`: a port is any JavaScript value the
 caller passes, and only an integral number strictly between 0 and 65536 gets
 past the guard to the call that binds the socket.
 */
module PortGuard {
  import opened JsValues

  /** The one error `server.start` throws itself. */
  datatype StartError = InvalidPort {
    /** The message of the thrown `Error`. */
    function Message(): string {
      "Invalid port number"
    }
  }

  /** The first port number the guard refuses from above. */
  const PortLimit: int := 65536

  /** The port the program listens on when run as the main module. */
  const DefaultPort: int := 3000

  /** What `server.start` does synchronously: either it throws, or it hands
      `port` to the bind (which completes later and is not modelled). */
  datatype StartResult = Ok(port: int) | Err(error: StartError)

  /** The TCP ports the guard is meant to admit. */
  predicate InPortRange(p: int) {
    0 < p < PortLimit
  }

  /** The JavaScript number a caller writes for the integer `p`. */
  function PortValue(p: int): JsValue {
    Num(Finite(p as real))
  }

  /** `isNaN(n)` for an argument already known to be a number. */
  predicate IsNaN(n: JsNumber) {
    n.NaN?
  }

  /** `n <= 0` under IEEE comparison: false for NaN and +Infinity. */
  predicate AtMostZero(n: JsNumber) {
    match n
    case NaN => false
    case PosInf => false
    case NegInf => true
    case Finite(x) => x <= 0.0
  }

  /** `n >= 65536` under IEEE comparison: false for NaN and -Infinity. */
  predicate AtLeastLimit(n: JsNumber) {
    match n
    case NaN => false
    case PosInf => true
    case NegInf => false
    case Finite(x) => x >= PortLimit as real
  }

  /** `Number.isInteger(n)`: finite and without fractional part. */
  predicate IsInteger(n: JsNumber) {
    n.Finite? && n.x.Floor as real == n.x
  }

  /** The guard as written: its five disjuncts, the later ones reached only
      for numbers, as with `||` in the source. */
  predicate GuardThrows(v: JsValue) {
    TypeOf(v) != "number"
    || IsNaN(v.n)
    || AtMostZero(v.n)
    || AtLeastLimit(v.n)
    || !IsInteger(v.n)
  }

  /** The guard lets through exactly the integers of the port range. */
  lemma GuardPassesExactlyPorts(v: JsValue)
    ensures !GuardThrows(v) <==> exists p :: InPortRange(p) && v == PortValue(p)
  {
    if !GuardThrows(v) {
      var p := v.n.x.Floor;
      assert InPortRange(p) && v == PortValue(p);
    }
    forall p | InPortRange(p)
      ensures !GuardThrows(PortValue(p))
    {
      assert (p as real).Floor == p;
    }
  }

  /** A value that passes the guard. These are exactly the integers of the
      port range written as numbers: no other number and no value of
      another type gets through. */
  predicate ValidPort(v: JsValue)
    ensures ValidPort(v) <==> exists p :: InPortRange(p) && v == PortValue(p)
  {
    GuardPassesExactlyPorts(v);
    !GuardThrows(v)
  }

  /** `server.start(port)` up to the bind: an invalid value throws before
      anything is bound, a valid one is bound to exactly that port. */
  function Start(v: JsValue): (r: StartResult)
    ensures r.Ok? <==> exists p :: InPortRange(p) && v == PortValue(p)
    ensures r.Ok? ==> InPortRange(r.port) && v == PortValue(r.port)
    ensures r.Err? ==> r.error == InvalidPort && r.error.Message() == "Invalid port number"
  {
    if !ValidPort(v) then Err(InvalidPort) else Ok(v.n.x.Floor)
  }

  /** Every integer in the port range is accepted and bound as given. */
  lemma StartAcceptsRange(p: int)
    requires InPortRange(p)
    ensures Start(PortValue(p)) == Ok(p)
  {
    assert (p as real).Floor == p;
  }

  /** A value that is not of type number is refused whatever it holds. */
  lemma StartRejectsNonNumbers(v: JsValue)
    requires TypeOf(v) != "number"
    ensures Start(v) == Err(InvalidPort)
  {
  }

  /** NaN and both infinities are refused. */
  lemma StartRejectsNonFinite(n: JsNumber)
    requires !n.Finite?
    ensures Start(Num(n)) == Err(InvalidPort)
  {
  }

  /** A number with a fractional part is refused even inside the range. */
  lemma StartRejectsFractions(x: real)
    requires x.Floor as real != x
    ensures Start(Num(Finite(x))) == Err(InvalidPort)
  {
  }

  /** Integers outside (0, 65536) are refused. */
  lemma StartRejectsOutOfRange(p: int)
    requires p <= 0 || p >= PortLimit
    ensures Start(PortValue(p)) == Err(InvalidPort)
  {
  }

  /** The edges of the range and the values the test suite exercises. */
  lemma StartBoundaries()
    ensures Start(PortValue(1)) == Ok(1)
    ensures Start(PortValue(PortLimit - 1)) == Ok(PortLimit - 1)
    ensures Start(PortValue(0)) == Err(InvalidPort)
    ensures Start(PortValue(-1)) == Err(InvalidPort)
    ensures Start(PortValue(PortLimit)) == Err(InvalidPort)
    ensures Start(PortValue(70000)) == Err(InvalidPort)
    ensures Start(Num(Finite(3.14))) == Err(InvalidPort)
    ensures Start(Str("abc")) == Err(InvalidPort)
    ensures Start(Null) == Err(InvalidPort)
    ensures Start(Undefined) == Err(InvalidPort)
    ensures Start(Object([])) == Err(InvalidPort)
    ensures Start(Array([])) == Err(InvalidPort)
  {
    StartAcceptsRange(1);
    StartAcceptsRange(PortLimit - 1);
  }

  /** The ports the program and its tests start on all pass the guard. */
  lemma StartAcceptsUsedPorts()
    ensures Start(PortValue(DefaultPort)) == Ok(DefaultPort)
    ensures Start(PortValue(3001)) == Ok(3001)
    ensures Start(PortValue(3002)) == Ok(3002)
    ensures Start(PortValue(3003)) == Ok(3003)
    ensures Start(PortValue(4000)) == Ok(4000)
  {
    StartAcceptsRange(DefaultPort);
    StartAcceptsRange(3001);
    StartAcceptsRange(3002);
    StartAcceptsRange(3003);
    StartAcceptsRange(4000);
  }
}
