/** The native `writeFile` host function: argument decoding, decompression into a
    buffer of the original size, and the hand-over to the provider. */
module WritePipeline {
  import opened JsValues
  import opened Lz4
  import opened Host
  import opened Buffers

  const NeedsArgumentsMessage: string :=
    "write need at least the file name to write to, the buffer of data to write on disk and the buffer size, check the docs"

  /** The decoded arguments of one call. */
  datatype WriteRequest = WriteRequest(
    fileName: string,
    buffer: seq<Byte>,
    originalSize: nat,
    append: bool,
    isCompressed: bool,
    compressedSize: nat)

  /** Lines 200-218 as written: `append` is the 4th argument when there are more than
      three, and under the same `count > 3` guard the 5th argument is read as
      `isCompressed` and, when it is true, the 6th as `compressedSize`. */
  function WriteRequestOf(args: seq<Arg>): (r: Result<WriteRequest>)
    ensures r == Err(JsError(NeedsArgumentsMessage)) <==> |args| < 3
    ensures r.Ok? && |args| > 3 ==> GetBool(args, 3) == Ok(r.value.append)
    ensures r.Ok? && |args| <= 3 ==> r.value.append && !r.value.isCompressed
    ensures r.Ok? && |args| > 3 ==> GetBool(args, 4) == Ok(r.value.isCompressed)
    ensures r.Ok? && r.value.isCompressed ==> GetSize(args, 5) == Ok(r.value.compressedSize)
    ensures r.Ok? && !r.value.isCompressed ==> r.value.compressedSize == 0
    ensures r.Ok? ==> GetString(args, 0) == Ok(r.value.fileName) &&
                      GetArrayBuffer(args, 1) == Ok(r.value.buffer) &&
                      GetSize(args, 2) == Ok(r.value.originalSize)
    ensures r.Ok? <==>
              |args| >= 3 && GetString(args, 0).Ok? && GetArrayBuffer(args, 1).Ok? && GetSize(args, 2).Ok? &&
              (|args| > 3 ==> GetBool(args, 3).Ok? && GetBool(args, 4).Ok? &&
                              (GetBool(args, 4) == Ok(true) ==> GetSize(args, 5).Ok?))
  {
    if |args| < 3 then Err(JsError(NeedsArgumentsMessage))
    else
      var fileName :- GetString(args, 0);
      var buffer :- GetArrayBuffer(args, 1);
      var originalSize :- GetSize(args, 2);
      var append :- if |args| > 3 then GetBool(args, 3) else Ok(true);
      var isCompressed :- if |args| > 3 then GetBool(args, 4) else Ok(false);
      var compressedSize :- if isCompressed then GetSize(args, 5) else Ok(0);
      Ok(WriteRequest(fileName, buffer, originalSize, append, isCompressed, compressedSize))
  }

  /** Lines 219-225: the bytes handed to the provider, always `originalSize` of them:
      the decompressed buffer when the data is compressed, else the buffer's prefix. */
  function PayloadOf(req: WriteRequest, codec: Codec): (r: Result<seq<Byte>>)
    ensures r.Ok? ==> |r.value| == req.originalSize
    ensures req.isCompressed ==>
              (r.Ok? <==> req.compressedSize <= |req.buffer|) &&
              (r.Ok? ==> r.value == codec.decompress(req.buffer[..req.compressedSize], req.originalSize))
    ensures !req.isCompressed ==>
              (r.Ok? <==> req.originalSize <= |req.buffer|) &&
              (r.Ok? ==> r.value == req.buffer[..req.originalSize])
    ensures r.Err? ==> r == Err(Fault(BufferOverread))
  {
    if req.isCompressed then
      if req.compressedSize <= |req.buffer|
      then Ok(codec.decompress(req.buffer[..req.compressedSize], req.originalSize))
      else Err(Fault(BufferOverread))
    else if req.originalSize <= |req.buffer| then Ok(req.buffer[..req.originalSize])
    else Err(Fault(BufferOverread))
  }

  /** Lines 219-237 for a decoded request: one provider call with the payload and the
      append flag; the provider's string comes back unchanged, or empty for null. */
  function StoreSpec(req: WriteRequest, host: Provider, codec: Codec): (r: Run<string>)
    ensures r.outcome.Ok? <==> PayloadOf(req, codec).Ok?
    ensures r.outcome.Ok? ==>
              var bytes := PayloadOf(req, codec).value;
              r.calls == [Call.WriteFile(req.fileName, bytes, req.append)] &&
              r.outcome.value == host.writeFile(req.fileName, bytes, req.append).GetOr("")
    ensures r.outcome.Err? ==> r.calls == []
  {
    match PayloadOf(req, codec)
    case Err(e) => Run(Err(e), [])
    case Ok(bytes) =>
      Run(Ok(host.writeFile(req.fileName, bytes, req.append).GetOr("")),
          [Call.WriteFile(req.fileName, bytes, req.append)])
  }

  /** The whole host function as written. */
  function WriteFileSpec(args: seq<Arg>, host: Provider, codec: Codec): Run<string> {
    match WriteRequestOf(args)
    case Err(e) => Run(Err(e), [])
    case Ok(req) => StoreSpec(req, host, codec)
  }

  /** The `writeFile` lambda, step by step, ending exactly as `WriteFileSpec` says. */
  method WriteFile(args: seq<Arg>, host: Provider, codec: Codec) returns (run: Run<string>)
    ensures run == WriteFileSpec(args, host, codec)
  {
    var count := |args|;
    if count < 3 {
      return Run(Err(JsError(NeedsArgumentsMessage)), []);
    }
    var nameArg := GetString(args, 0);
    if nameArg.Err? {
      return Run(Err(nameArg.failure), []);
    }
    var bufferArg := GetArrayBuffer(args, 1);
    if bufferArg.Err? {
      return Run(Err(bufferArg.failure), []);
    }
    var sizeArg := GetSize(args, 2);
    if sizeArg.Err? {
      return Run(Err(sizeArg.failure), []);
    }
    var fileName, bytes, originalSize := nameArg.value, bufferArg.value, sizeArg.value;
    var append := true;
    if count > 3 {
      var b := GetBool(args, 3);
      if b.Err? {
        return Run(Err(b.failure), []);
      }
      append := b.value;
    }
    var isCompressed := false;
    var compressedSize := 0;
    if count > 3 {
      var b := GetBool(args, 4);
      if b.Err? {
        return Run(Err(b.failure), []);
      }
      isCompressed := b.value;
      if isCompressed {
        var n := GetSize(args, 5);
        if n.Err? {
          return Run(Err(n.failure), []);
        }
        compressedSize := n.value;
      }
    }
    if isCompressed {
      if compressedSize > |bytes| {
        return Run(Err(Fault(BufferOverread)), []);
      }
      bytes := codec.decompress(bytes[..compressedSize], originalSize);
      assert bytes[..originalSize] == bytes;
    }
    if originalSize > |bytes| {
      return Run(Err(Fault(BufferOverread)), []);
    }
    var byteArray := CopyBytes(bytes, originalSize);
    var saved := host.writeFile(fileName, byteArray, append);
    run := Run(Ok(saved.GetOr("")), [Call.WriteFile(fileName, byteArray, append)]);
  }

  // Properties of the host function as a whole.

  /** Fewer than three arguments fail before the provider is called. */
  lemma WriteNeedsThreeArguments(args: seq<Arg>, host: Provider, codec: Codec)
    requires |args| < 3
    ensures WriteFileSpec(args, host, codec) == Run(Err(JsError(NeedsArgumentsMessage)), [])
  {
  }

  /** A successful call made exactly one provider call, with `originalSize` bytes that
      are the decompressed buffer or the buffer's prefix, and the decoded append flag;
      it returns the provider's string unchanged. */
  lemma WriteStoresOriginalBytes(args: seq<Arg>, host: Provider, codec: Codec)
    requires WriteFileSpec(args, host, codec).outcome.Ok?
    ensures WriteRequestOf(args).Ok?
    ensures var req := WriteRequestOf(args).value;
      var run := WriteFileSpec(args, host, codec);
      var bytes := if req.isCompressed
                   then codec.decompress(req.buffer[..req.compressedSize], req.originalSize)
                   else req.buffer[..req.originalSize];
      |bytes| == req.originalSize &&
      run.calls == [Call.WriteFile(req.fileName, bytes, req.append)] &&
      run.outcome.value == host.writeFile(req.fileName, bytes, req.append).GetOr("")
  {
  }

  /** `compressedSize` is read only when `isCompressed` is true: otherwise the 6th
      argument can be anything without changing the decoded request. */
  lemma WriteIgnoresSizeWhenUncompressed(args: seq<Arg>, v: Arg)
    requires |args| >= 6 && GetBool(args, 4) == Ok(false)
    ensures WriteRequestOf(args[5 := v]) == WriteRequestOf(args)
  {
  }

  /** As written, every four-argument call whose first four arguments have the right
      kinds reads `arguments[4]`, past the end of the argument array. */
  lemma FourArgumentsOverrun(args: seq<Arg>)
    requires |args| == 4
    requires args[0].Str? && args[1].Buffer? && args[3].Bool?
    requires args[2].Num? && 0 <= Trunc(args[2].x) < Int32Limit
    ensures WriteRequestOf(args) == Err(Fault(ArgumentOutOfRange(4)))
  {
  }

  /** The call `writeFile("a.bin", [1, 2, 3, 4], 4, false)` hits that overrun. */
  lemma FourArgumentCallExample()
    ensures WriteRequestOf([Str("a.bin"), Buffer([1, 2, 3, 4]), Num(4.0), Bool(false)])
            == Err(Fault(ArgumentOutOfRange(4)))
  {
  }

  /** The decoding the guards evidently intend: the 5th argument is read only when it
      exists, and the 6th only when it exists and the data is compressed. */
  function IntendedWriteRequestOf(args: seq<Arg>): (r: Result<WriteRequest>)
    ensures forall i: nat :: r != Err(Fault(ArgumentOutOfRange(i)))
    ensures r == Err(JsError(NeedsArgumentsMessage)) <==> |args| < 3
    ensures r.Ok? ==> GetString(args, 0) == Ok(r.value.fileName) &&
                      GetArrayBuffer(args, 1) == Ok(r.value.buffer) &&
                      GetSize(args, 2) == Ok(r.value.originalSize)
    ensures r.Ok? <==>
              |args| >= 3 && GetString(args, 0).Ok? && GetArrayBuffer(args, 1).Ok? && GetSize(args, 2).Ok? &&
              (|args| > 3 ==> GetBool(args, 3).Ok?) &&
              (|args| > 4 ==> GetBool(args, 4).Ok? &&
                              (GetBool(args, 4) == Ok(true) && |args| > 5 ==> GetSize(args, 5).Ok?))
    ensures r.Ok? && |args| > 3 ==> GetBool(args, 3) == Ok(r.value.append)
    ensures r.Ok? && |args| <= 3 ==> r.value.append
    ensures r.Ok? && |args| > 4 ==> GetBool(args, 4) == Ok(r.value.isCompressed)
    ensures r.Ok? && |args| <= 4 ==> !r.value.isCompressed
    ensures r.Ok? && r.value.isCompressed && |args| > 5 ==> GetSize(args, 5) == Ok(r.value.compressedSize)
    ensures r.Ok? && !(r.value.isCompressed && |args| > 5) ==> r.value.compressedSize == 0
  {
    if |args| < 3 then Err(JsError(NeedsArgumentsMessage))
    else
      var fileName :- GetString(args, 0);
      var buffer :- GetArrayBuffer(args, 1);
      var originalSize :- GetSize(args, 2);
      var append :- if |args| > 3 then GetBool(args, 3) else Ok(true);
      var isCompressed :- if |args| > 4 then GetBool(args, 4) else Ok(false);
      var compressedSize :- if isCompressed && |args| > 5 then GetSize(args, 5) else Ok(0);
      Ok(WriteRequest(fileName, buffer, originalSize, append, isCompressed, compressedSize))
  }

  /** Wherever the code as written does not read past the argument array, the intended
      decoding agrees with it. */
  lemma IntendedAgreesWhereDefined(args: seq<Arg>)
    requires forall i: nat :: WriteRequestOf(args) != Err(Fault(ArgumentOutOfRange(i)))
    ensures IntendedWriteRequestOf(args) == WriteRequestOf(args)
  {
  }

  /** The host function with the intended decoding. */
  function IntendedWriteFileSpec(args: seq<Arg>, host: Provider, codec: Codec): Run<string> {
    match IntendedWriteRequestOf(args)
    case Err(e) => Run(Err(e), [])
    case Ok(req) => StoreSpec(req, host, codec)
  }

  /** Decoding inverts the caller's encoding of a six-argument request. */
  lemma WriteRequestRoundTrip(req: WriteRequest)
    requires req.originalSize < Int32Limit && req.compressedSize < Int32Limit
    requires !req.isCompressed ==> req.compressedSize == 0
    ensures WriteRequestOf([Str(req.fileName), Buffer(req.buffer), Num(req.originalSize as real),
                            Bool(req.append), Bool(req.isCompressed), Num(req.compressedSize as real)])
            == Ok(req)
  {
    TruncOfInteger(req.originalSize);
    TruncOfInteger(req.compressedSize);
  }
}
