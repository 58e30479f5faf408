/** The JavaScript wrappers `readFile` and `writeFile`: arity checks, then one call to
    the native host function with a prefix of the caller's parameters. */
module Facade {
  import opened JsValues

  const ReadNeedsUrlMessage: string := "You need to provide the file url"
  const WriteNeedsArgumentsMessage: string :=
    "You need to provide the file name, the data as an ArrayBuffer and the size of the buffer"

  /** The wrapper's `i`-th named parameter: `undefined` when the caller passed fewer. */
  function Param(args: seq<Arg>, i: nat): Arg {
    if i < |args| then args[i] else Undefined
  }

  /** The arguments `readFile` forwards to the native function, or the error it throws. */
  function ForwardRead(args: seq<Arg>): (r: Result<seq<Arg>>)
    ensures r.Err? <==> |args| == 0
    ensures r.Err? ==> r.failure == JsError(ReadNeedsUrlMessage)
    ensures r.Ok? ==> r.value == args[..if |args| < 4 then |args| else 4]
  {
    if |args| < 1 then Err(JsError(ReadNeedsUrlMessage))
    else if |args| == 1 then Ok([Param(args, 0)])
    else if |args| == 2 then Ok([Param(args, 0), Param(args, 1)])
    else if |args| == 3 then Ok([Param(args, 0), Param(args, 1), Param(args, 2)])
    else Ok([Param(args, 0), Param(args, 1), Param(args, 2), Param(args, 3)])
  }

  /** The arguments `writeFile` forwards to the native function, or the error it throws. */
  function ForwardWrite(args: seq<Arg>): (r: Result<seq<Arg>>)
    ensures r.Err? <==> |args| < 3
    ensures r.Err? ==> r.failure == JsError(WriteNeedsArgumentsMessage)
    ensures 3 <= |args| <= 4 ==> r == Ok(args)
    ensures |args| == 5 && !Truthy(args[4]) ==> r == Ok(args)
    ensures |args| == 5 && Truthy(args[4]) ==> r == Ok(args + [Undefined])
    ensures |args| >= 6 ==> r == Ok(args[..6])
  {
    if |args| < 3 then Err(JsError(WriteNeedsArgumentsMessage))
    else if |args| == 3 then
      var fw := [Param(args, 0), Param(args, 1), Param(args, 2)];
      assert fw == args;
      Ok(fw)
    else if |args| == 4 then
      var fw := [Param(args, 0), Param(args, 1), Param(args, 2), Param(args, 3)];
      assert fw == args;
      Ok(fw)
    else if |args| == 5 && !Truthy(Param(args, 4)) then
      var fw := [Param(args, 0), Param(args, 1), Param(args, 2), Param(args, 3), Param(args, 4)];
      assert fw == args;
      Ok(fw)
    else
      var fw := [Param(args, 0), Param(args, 1), Param(args, 2), Param(args, 3), Param(args, 4), Param(args, 5)];
      assert |args| == 5 ==> fw == args + [Undefined];
      assert |args| >= 6 ==> fw == args[..6];
      Ok(fw)
  }
}
