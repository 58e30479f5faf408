/** The wrappers and the native host functions together. */
module EndToEnd {
  import opened JsValues
  import opened Lz4
  import opened Host
  import opened ReadPipeline
  import opened WritePipeline
  import opened Facade

  /** Reading through the wrapper means the same as calling the native function with
      the caller's own arguments: the native side looks only at the first four and at
      whether there are one, more than two or more than three. */
  lemma FacadeReadIsTransparent(args: seq<Arg>, host: Provider, codec: Codec)
    requires |args| >= 1
    ensures ReadFileSpec(ForwardRead(args).value, host, codec) == ReadFileSpec(args, host, codec)
  {
  }

  /** As written, the wrapper's four-argument call (a name, a buffer, a size and an
      append flag) makes the native function read past its argument array, and the
      provider is never called. */
  lemma FacadeFourArgumentWriteOverruns(args: seq<Arg>, host: Provider, codec: Codec)
    requires |args| == 4
    requires args[0].Str? && args[1].Buffer? && args[3].Bool?
    requires args[2].Num? && 0 <= Trunc(args[2].x) < Int32Limit
    ensures WriteFileSpec(ForwardWrite(args).value, host, codec)
            == Run(Err(Fault(ArgumentOutOfRange(4))), [])
  {
  }

  /** With the intended decoding, the same call stores the buffer's first
      `originalSize` bytes with the caller's append flag. */
  lemma FacadeFourArgumentWriteIntended(args: seq<Arg>, host: Provider, codec: Codec)
    requires |args| == 4
    requires args[0].Str? && args[1].Buffer? && args[3].Bool?
    requires args[2].Num? && 0 <= Trunc(args[2].x) <= |args[1].bytes| && Trunc(args[2].x) < Int32Limit
    ensures IntendedWriteFileSpec(ForwardWrite(args).value, host, codec).calls
            == [Call.WriteFile(args[0].s, args[1].bytes[..Trunc(args[2].x)], args[3].b)]
  {
  }

  /** The example application's round trip: read a whole file of `size` bytes with
      compression requested, then write the result under `name` passing the reported
      compression flag and the data length. Provided LZ4 round-trips on the chunk (an
      assumption the code never checks), the provider is asked to store exactly the
      chunk that was read. */
  lemma ReadThenWriteStoresChunk(url: string, name: string, size: nat, host: Provider, codec: Codec)
    requires HasContentScheme(url) && host.isFileAvailable(url)
    requires size < Int32Limit
    requires host.readFile(url, size, 0, false).Some?
    requires size <= |host.readFile(url, size, 0, false).value|
    requires RoundTripsOn(codec, host.readFile(url, size, 0, false).value[..size])
    ensures var read := ReadFileSpec(ForwardRead([Str(url), Num(size as real), Num(0.0), Bool(true)]).value, host, codec);
      read.outcome.Ok? &&
      var r := read.outcome.value;
      var written := WriteFileSpec(
        ForwardWrite([Str(name), Buffer(r.data), Num(size as real), Bool(false), Bool(r.isCompressed),
                      Num((if r.isCompressed then |r.data| else size) as real)]).value,
        host, codec);
      written.outcome.Ok? &&
      written.calls == [Call.WriteFile(name, host.readFile(url, size, 0, false).value[..size], false)]
  {
    var readArgs := [Str(url), Num(size as real), Num(0.0), Bool(true)];
    FacadeReadIsTransparent(readArgs, host, codec);
    var chunk := host.readFile(url, size, 0, false).value[..size];
    var r := KeepIfSmaller(chunk, codec);
    assert ReadFileSpec(readArgs, host, codec).outcome == Ok(r);
    KeepIfSmallerRestores(chunk, codec);
    var compressedSize := if r.isCompressed then |r.data| else size;
    var writeArgs := [Str(name), Buffer(r.data), Num(size as real), Bool(false), Bool(r.isCompressed),
                      Num(compressedSize as real)];
    var req := WriteRequest(name, r.data, size, false, r.isCompressed,
                            if r.isCompressed then compressedSize else 0);
    assert WriteRequestOf(writeArgs) == Ok(req);
    assert ForwardWrite(writeArgs).value == writeArgs;
    assert r.data[..|r.data|] == r.data;
    assert chunk[..size] == chunk;
    assert PayloadOf(req, codec) == Ok(chunk);
  }
}
