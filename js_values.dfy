/** Values that cross the boundary between the JavaScript runtime and the native
    adapter, and the ways a host function call can end. */
module JsValues {

  /** One byte of a buffer. */
  type Byte = bv8

  /** The JavaScript values a host function receives. Numbers are doubles in
      JavaScript; NaN and the infinities are not modelled. `Buffer` is an ArrayBuffer. */
  datatype Arg =
    | Undefined
    | Null
    | Bool(b: bool)
    | Num(x: real)
    | Str(s: string)
    | Buffer(bytes: seq<Byte>)

  /** JavaScript truthiness, as `!x` tests it. */
  predicate Truthy(a: Arg) {
    match a
    case Undefined => false
    case Null => false
    case Bool(b) => b
    case Num(x) => x != 0.0
    case Str(s) => s != ""
    case Buffer(_) => true
  }

  /** Why the C++ code has no defined behaviour at some point; the model stops there. */
  datatype FaultKind =
    | ArgumentOutOfRange(index: nat)  // arguments[index] read with index >= count
    | WrongArgumentKind(index: nat)   // a JSI getter applied to a value of another kind
    | NumberOutOfRange(index: nat)    // a double cast to an integer type that cannot hold it
    | NullByteArray                   // the provider returned a null array
    | BufferOverread                  // a copy reads past the end of a buffer

  /** How a call ends when it does not return a value. */
  datatype Failure =
    | JsError(message: string)  // an error thrown to the JavaScript caller
    | Fault(kind: FaultKind)

  datatype Option<T> = None | Some(value: T) {
    function GetOr(default: T): T {
      match this
      case Some(v) => v
      case None => default
    }
  }

  datatype Result<T> = Ok(value: T) | Err(failure: Failure) {
    predicate IsFailure() { Err? }
    function PropagateFailure<U>(): Result<U> requires Err? { Err(failure) }
    function Extract(): T requires Ok? { value }
  }

  const Int32Min: int := -0x8000_0000
  const Int32Limit: int := 0x8000_0000

  /** The C++ conversion of a double to an integer type: truncation toward zero. */
  function Trunc(x: real): (n: int)
    ensures 0.0 <= x ==> n as real <= x < n as real + 1.0
    ensures x < 0.0 ==> n as real - 1.0 < x <= n as real
  {
    if x >= 0.0 then x.Floor else -((-x).Floor)
  }

  /** A number that is already an integer converts to itself. */
  lemma TruncOfInteger(k: int)
    ensures Trunc(k as real) == k
  {
  }

  /** `arguments[i].getString(runtime)` */
  function GetString(args: seq<Arg>, i: nat): (r: Result<string>)
    ensures r.Ok? <==> i < |args| && args[i].Str?
    ensures r.Ok? ==> r.value == args[i].s
    ensures i >= |args| ==> r == Err(Fault(ArgumentOutOfRange(i)))
  {
    if i >= |args| then Err(Fault(ArgumentOutOfRange(i)))
    else if args[i].Str? then Ok(args[i].s)
    else Err(Fault(WrongArgumentKind(i)))
  }

  /** `arguments[i].getBool()` */
  function GetBool(args: seq<Arg>, i: nat): (r: Result<bool>)
    ensures r.Ok? <==> i < |args| && args[i].Bool?
    ensures r.Ok? ==> r.value == args[i].b
    ensures i >= |args| ==> r == Err(Fault(ArgumentOutOfRange(i)))
  {
    if i >= |args| then Err(Fault(ArgumentOutOfRange(i)))
    else if args[i].Bool? then Ok(args[i].b)
    else Err(Fault(WrongArgumentKind(i)))
  }

  /** `arguments[i].getObject(runtime).getArrayBuffer(runtime)` */
  function GetArrayBuffer(args: seq<Arg>, i: nat): (r: Result<seq<Byte>>)
    ensures r.Ok? <==> i < |args| && args[i].Buffer?
    ensures r.Ok? ==> r.value == args[i].bytes
    ensures i >= |args| ==> r == Err(Fault(ArgumentOutOfRange(i)))
  {
    if i >= |args| then Err(Fault(ArgumentOutOfRange(i)))
    else if args[i].Buffer? then Ok(args[i].bytes)
    else Err(Fault(WrongArgumentKind(i)))
  }

  /** `(int) arguments[i].getNumber()`: a 32-bit `int`. */
  function GetInt(args: seq<Arg>, i: nat): (r: Result<int>)
    ensures r.Ok? <==> i < |args| && args[i].Num? && Int32Min <= Trunc(args[i].x) < Int32Limit
    ensures r.Ok? ==> r.value == Trunc(args[i].x)
    ensures i >= |args| ==> r == Err(Fault(ArgumentOutOfRange(i)))
  {
    if i >= |args| then Err(Fault(ArgumentOutOfRange(i)))
    else if !args[i].Num? then Err(Fault(WrongArgumentKind(i)))
    else
      var n := Trunc(args[i].x);
      if Int32Min <= n < Int32Limit then Ok(n) else Err(Fault(NumberOutOfRange(i)))
  }

  /** `(size_t) arguments[i].getNumber()`, a length that is later handed to JNI and
      to LZ4 as a 32-bit `jsize`/`int`. The model follows a 32-bit `size_t`: a length
      of 2^31 or more is a fault, where a 64-bit build would narrow it by wrapping. */
  function GetSize(args: seq<Arg>, i: nat): (r: Result<nat>)
    ensures r.Ok? <==> i < |args| && args[i].Num? && 0 <= Trunc(args[i].x) < Int32Limit
    ensures r.Ok? ==> r.value == Trunc(args[i].x)
    ensures i >= |args| ==> r == Err(Fault(ArgumentOutOfRange(i)))
  {
    if i >= |args| then Err(Fault(ArgumentOutOfRange(i)))
    else if !args[i].Num? then Err(Fault(WrongArgumentKind(i)))
    else
      var n := Trunc(args[i].x);
      if 0 <= n < Int32Limit then Ok(n) else Err(Fault(NumberOutOfRange(i)))
  }
}
