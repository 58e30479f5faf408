/** The native `readFile` host function: argument checks, the existence check, the
    chunk request to the provider, and the keep-if-smaller compression rule. */
module ReadPipeline {
  import opened JsValues
  import opened Lz4
  import opened Host
  import opened Buffers

  const NeedsUrlMessage: string := "readFile need at least the file URL to read from, check the docs"
  const BadSchemeMessage: string := "URL must be a local file URL starting with content://"
  const NotFoundMessage: string := "Could not open file at the given URL"

  /** What the call asks the provider for, decoded from the argument count. */
  datatype ReadOptions = ReadOptions(chunkSize: int, offset: int, readAll: bool, shouldCompress: bool)

  /** The `{isCompressed, data}` object handed back to JavaScript. */
  datatype ReadResult = ReadResult(isCompressed: bool, data: seq<Byte>)

  /** The `substr(0, 10) == "content://"` test: a shorter string is its own substring. */
  predicate HasContentScheme(url: string) {
    url[..if |url| < 10 then |url| else 10] == "content://"
  }

  lemma ContentSchemeIsPrefix(url: string)
    ensures HasContentScheme(url) <==> |url| >= 10 && url[..10] == "content://"
  {
  }

  /** Lines 119-126: at least one argument, a string, starting with the scheme. */
  function UrlOf(args: seq<Arg>): (r: Result<string>)
    ensures |args| == 0 ==> r == Err(JsError(NeedsUrlMessage))
    ensures r.Ok? <==> |args| >= 1 && args[0].Str? && HasContentScheme(args[0].s)
    ensures r.Ok? ==> r.value == args[0].s
    ensures |args| >= 1 && args[0].Str? && !HasContentScheme(args[0].s) ==>
              r == Err(JsError(BadSchemeMessage))
  {
    if |args| < 1 then Err(JsError(NeedsUrlMessage))
    else
      var url :- GetString(args, 0);
      if HasContentScheme(url) then Ok(url) else Err(JsError(BadSchemeMessage))
  }

  /** Lines 136-157: one argument means "read all" with a zero chunk size; the chunk
      size, offset and compression flag are the 2nd, 3rd and 4th arguments when given. */
  function ReadOptionsOf(args: seq<Arg>): (r: Result<ReadOptions>)
    requires |args| >= 1
    ensures |args| == 1 ==> r == Ok(ReadOptions(0, 0, true, false))
    ensures r.Ok? && |args| >= 2 ==> GetInt(args, 1) == Ok(r.value.chunkSize) && !r.value.readAll
    ensures r.Ok? && |args| > 2 ==> GetInt(args, 2) == Ok(r.value.offset)
    ensures r.Ok? && |args| <= 2 ==> r.value.offset == 0
    ensures r.Ok? && |args| > 3 ==> GetBool(args, 3) == Ok(r.value.shouldCompress)
    ensures r.Ok? && |args| <= 3 ==> !r.value.shouldCompress
    ensures r.Err? <==>
              (|args| >= 2 && GetInt(args, 1).Err?) ||
              (|args| > 2 && GetInt(args, 2).Err?) ||
              (|args| > 3 && GetBool(args, 3).Err?)
  {
    var readAll := |args| == 1;
    var chunkSize :- if readAll then Ok(0) else GetInt(args, 1);
    var offset :- if |args| > 2 then GetInt(args, 2) else Ok(0);
    var shouldCompress :- if |args| > 3 then GetBool(args, 3) else Ok(false);
    Ok(ReadOptions(chunkSize, offset, readAll, shouldCompress))
  }

  /** Lines 166, 172 and 187: the first `chunkSize` bytes of the provider's array,
      which the compressor and the typed array read. */
  function ChunkOf(returned: Option<seq<Byte>>, chunkSize: int): (r: Result<seq<Byte>>)
    ensures returned.None? ==> r == Err(Fault(NullByteArray))
    ensures r.Ok? <==> returned.Some? && 0 <= chunkSize <= |returned.value|
    ensures r.Ok? ==> |r.value| == chunkSize && r.value <= returned.value
  {
    match returned
    case None => Err(Fault(NullByteArray))
    case Some(bytes) =>
      if 0 <= chunkSize <= |bytes| then Ok(bytes[..chunkSize]) else Err(Fault(BufferOverread))
  }

  /** Lines 169-183: keep the compressed block only when it is strictly shorter. */
  function KeepIfSmaller(chunk: seq<Byte>, codec: Codec): (r: ReadResult)
    ensures |r.data| <= |chunk|
    ensures r.isCompressed <==> |r.data| < |chunk|
    ensures r.isCompressed <==> |Packed(chunk, codec)| < |chunk|
    ensures r.data == if r.isCompressed then Packed(chunk, codec) else chunk
  {
    var block := Packed(chunk, codec);
    if |block| < |chunk| then ReadResult(true, block) else ReadResult(false, chunk)
  }

  /** What the caller gets back from the data of a read result once it undoes the
      compression the result reports, for a chunk of `n` bytes. */
  function Restored(r: ReadResult, n: nat, codec: Codec): seq<Byte> {
    if r.isCompressed then codec.decompress(r.data, n) else r.data
  }

  /** The keep-if-smaller rule loses nothing: undoing it gives the chunk back whenever
      LZ4 round-trips on that chunk. */
  lemma KeepIfSmallerRestores(chunk: seq<Byte>, codec: Codec)
    requires RoundTripsOn(codec, chunk)
    ensures Restored(KeepIfSmaller(chunk, codec), |chunk|, codec) == chunk
  {
  }

  /** The result the host function builds from a chunk (lines 167-192). */
  function Encode(chunk: seq<Byte>, shouldCompress: bool, codec: Codec): ReadResult {
    if shouldCompress then KeepIfSmaller(chunk, codec) else ReadResult(false, chunk)
  }

  /** The whole host function, stage by stage, with the provider calls it makes. */
  function ReadFileSpec(args: seq<Arg>, host: Provider, codec: Codec): Run<ReadResult> {
    match UrlOf(args)
    case Err(e) => Run(Err(e), [])
    case Ok(url) =>
      var probe := [IsFileAvailable(url)];
      if !host.isFileAvailable(url) then Run(Err(JsError(NotFoundMessage)), probe)
      else
        match ReadOptionsOf(args)
        case Err(e) => Run(Err(e), probe)
        case Ok(o) =>
          var calls := probe + [Call.ReadFile(url, o.chunkSize, o.offset, o.readAll)];
          match ChunkOf(host.readFile(url, o.chunkSize, o.offset, o.readAll), o.chunkSize)
          case Err(e) => Run(Err(e), calls)
          case Ok(chunk) => Run(Ok(Encode(chunk, o.shouldCompress, codec)), calls)
  }

  /** The `readFile` lambda, step by step: it reassigns its locals as the C++ does and
      ends exactly as the stage-wise description says. */
  method ReadFile(args: seq<Arg>, host: Provider, codec: Codec) returns (run: Run<ReadResult>)
    ensures run == ReadFileSpec(args, host, codec)
  {
    var count := |args|;
    if count < 1 {
      return Run(Err(JsError(NeedsUrlMessage)), []);
    }
    var urlArg := GetString(args, 0);
    if urlArg.Err? {
      return Run(Err(urlArg.failure), []);
    }
    var fileUrl := urlArg.value;
    if !HasContentScheme(fileUrl) {
      return Run(Err(JsError(BadSchemeMessage)), []);
    }
    var calls := [IsFileAvailable(fileUrl)];
    var checkFile := host.isFileAvailable(fileUrl);
    if !checkFile {
      return Run(Err(JsError(NotFoundMessage)), calls);
    }
    var chunkSize: int;
    var readAllBytes := false;
    if count == 1 {
      chunkSize := 0;
      readAllBytes := true;
    } else {
      var n := GetInt(args, 1);
      if n.Err? {
        return Run(Err(n.failure), calls);
      }
      chunkSize := n.value;
    }
    var offset: int;
    if count > 2 {
      var n := GetInt(args, 2);
      if n.Err? {
        return Run(Err(n.failure), calls);
      }
      offset := n.value;
    } else {
      offset := 0;
    }
    var shouldCompress := false;
    if count > 3 {
      var b := GetBool(args, 3);
      if b.Err? {
        return Run(Err(b.failure), calls);
      }
      shouldCompress := b.value;
    }
    calls := calls + [Call.ReadFile(fileUrl, chunkSize, offset, readAllBytes)];
    var returned := host.readFile(fileUrl, chunkSize, offset, readAllBytes);
    if returned.None? {
      return Run(Err(Fault(NullByteArray)), calls);
    }
    var bytes := returned.value;
    if chunkSize < 0 || chunkSize > |bytes| {
      return Run(Err(Fault(BufferOverread)), calls);
    }
    var isCompressed := false;
    var length := chunkSize;
    if shouldCompress {
      var size := codec.compressBound(chunkSize);
      var dstBuffer := codec.compress(bytes[..chunkSize], size);
      var compressedSize := |dstBuffer|;
      if compressedSize < chunkSize {
        isCompressed := true;
        bytes := CopyBytes(dstBuffer, compressedSize);
        length := compressedSize;
      }
    }
    var data := CopyBytes(bytes, length);
    assert ReadResult(isCompressed, data) == Encode(returned.value[..chunkSize], shouldCompress, codec);
    run := Run(Ok(ReadResult(isCompressed, data)), calls);
  }

  // Properties of the host function as a whole.

  /** A call with no arguments fails before anything else happens. */
  lemma ReadWithoutArgumentsFails(host: Provider, codec: Codec)
    ensures ReadFileSpec([], host, codec) == Run(Err(JsError(NeedsUrlMessage)), [])
  {
  }

  /** A locator whose first ten characters are not `content://` is rejected before
      the provider is asked anything. */
  lemma ReadRejectsOtherSchemes(args: seq<Arg>, host: Provider, codec: Codec)
    requires |args| >= 1 && args[0].Str? && !HasContentScheme(args[0].s)
    ensures ReadFileSpec(args, host, codec) == Run(Err(JsError(BadSchemeMessage)), [])
  {
  }

  /** The existence check is the first provider call, and when it answers false the
      call fails and the provider's `readFile` is never called. */
  lemma ReadChecksExistenceFirst(args: seq<Arg>, host: Provider, codec: Codec)
    ensures var run := ReadFileSpec(args, host, codec);
      run.calls != [] ==> run.calls[0] == IsFileAvailable(args[0].s)
    ensures var run := ReadFileSpec(args, host, codec);
      UrlOf(args).Ok? && !host.isFileAvailable(args[0].s) ==>
        run == Run(Err(JsError(NotFoundMessage)), [IsFileAvailable(args[0].s)]) &&
        forall c <- run.calls :: !c.ReadFile?
  {
  }

  /** A successful call asked the provider for exactly the decoded chunk, and the
      data it returns is the keep-if-smaller encoding of that chunk's first bytes. */
  lemma ReadFetchesDecodedChunk(args: seq<Arg>, host: Provider, codec: Codec)
    requires ReadFileSpec(args, host, codec).outcome.Ok?
    ensures UrlOf(args).Ok? && ReadOptionsOf(args).Ok?
    ensures var url, o := args[0].s, ReadOptionsOf(args).value;
      var run := ReadFileSpec(args, host, codec);
      var returned := host.readFile(url, o.chunkSize, o.offset, o.readAll);
      run.calls == [IsFileAvailable(url), Call.ReadFile(url, o.chunkSize, o.offset, o.readAll)] &&
      returned.Some? && 0 <= o.chunkSize <= |returned.value| &&
      run.outcome.value == Encode(returned.value[..o.chunkSize], o.shouldCompress, codec)
  {
  }

  /** Without compression requested, the data is the provider's first `chunkSize`
      bytes, unchanged, and the result says it is not compressed. */
  lemma ReadUncompressedReturnsChunk(args: seq<Arg>, host: Provider, codec: Codec)
    requires ReadFileSpec(args, host, codec).outcome.Ok?
    requires !ReadOptionsOf(args).value.shouldCompress
    ensures var url, o := args[0].s, ReadOptionsOf(args).value;
      ReadFileSpec(args, host, codec).outcome.value ==
        ReadResult(false, host.readFile(url, o.chunkSize, o.offset, o.readAll).value[..o.chunkSize])
  {
  }

  /** With compression requested, the result is compressed exactly when the LZ4 block
      of the chunk is shorter than the requested chunk size; otherwise it is the chunk. */
  lemma ReadCompressedIffSmaller(args: seq<Arg>, host: Provider, codec: Codec)
    requires ReadFileSpec(args, host, codec).outcome.Ok?
    requires ReadOptionsOf(args).value.shouldCompress
    ensures var url, o := args[0].s, ReadOptionsOf(args).value;
      var chunk := host.readFile(url, o.chunkSize, o.offset, o.readAll).value[..o.chunkSize];
      var r := ReadFileSpec(args, host, codec).outcome.value;
      (r.isCompressed <==> |Packed(chunk, codec)| < o.chunkSize) &&
      r.data == (if r.isCompressed then Packed(chunk, codec) else chunk)
  {
  }

  /** A one-argument ("read all") call always returns empty, uncompressed data, since
      the typed array is sized by the zero chunk size. */
  lemma ReadAllReturnsNothing(args: seq<Arg>, host: Provider, codec: Codec)
    requires |args| == 1
    requires ReadFileSpec(args, host, codec).outcome.Ok?
    ensures ReadFileSpec(args, host, codec).outcome.value == ReadResult(false, [])
  {
  }

  /** Decoding inverts the caller's encoding of a four-argument request. */
  lemma ReadOptionsRoundTrip(url: string, chunkSize: int, offset: int, shouldCompress: bool)
    requires Int32Min <= chunkSize < Int32Limit && Int32Min <= offset < Int32Limit
    ensures ReadOptionsOf([Str(url), Num(chunkSize as real), Num(offset as real), Bool(shouldCompress)])
            == Ok(ReadOptions(chunkSize, offset, false, shouldCompress))
  {
    TruncOfInteger(chunkSize);
    TruncOfInteger(offset);
  }
}
