# Chunked binary file transfer across the JavaScript/native boundary

This project models the core of a React Native module for reading and writing binary files, written in Dafny.
JavaScript code calls two native host functions, `readFile` and `writeFile`, through thin wrappers.
The native side does the following:

- It checks the argument count, the `content://` scheme and whether the file exists.
- It decodes the chunk size, the offset and the flags from how many arguments were passed.
- It asks the Java host object for the bytes.
- On reads, it may compress the chunk with LZ4, and keeps the compressed block only when it is strictly shorter than the requested chunk size.
- On writes, it decompresses the data back to its original size when asked, then hands the bytes and the append flag to the host.

Layout:

- `js_values.dfy` (module `JsValues`): the JavaScript values the host functions receive (`Arg`), how a call ends (`Result`, `Failure`), and the JSI getters and C++ numeric casts.
- `lz4.dfy` (module `Lz4`): the LZ4 block codec as three uninterpreted function values. `compress` gives the block written, so its length is the returned size. `decompress(src, n)` gives the content of the `n`-byte destination after the call.
- `host.dfy` (module `Host`): the Java host object (`Provider`, three function values; `None` is a null return), and the log of calls made to it (`Call`, `Run`).
- `buffers.dfy` (module `Buffers`): the byte copy used for `std::copy`, `TypedArray::update` and `SetByteArrayRegion`.
- `read_pipeline.dfy` (module `ReadPipeline`): the native `readFile`. The method `ReadFile` reassigns its locals step by step as the C++ does. It is proved equal to the stage-wise `ReadFileSpec`, and the lemmas state what a call does.
- `write_pipeline.dfy` (module `WritePipeline`): the native `writeFile`, built the same way (`WriteFile`, `WriteFileSpec`). It also holds the decoding the guards evidently intend (see Findings).
- `facade.dfy` (module `Facade`): the TypeScript wrappers, as functions from the caller's arguments to the forwarded arguments.
- `end_to_end.dfy` (module `EndToEnd`): the wrappers composed with the native functions, including the example application's read-then-write round trip.

Where the C++ has no defined behaviour, the model stops with a `Fault` outcome. This covers:

- reading `arguments[i]` past `count`;
- a JSI getter applied to a value of another kind;
- a double cast to an integer type that cannot hold it, or a length of 2^31 or more (see `JsValues.GetSize` under "Left out");
- a null array from the host;
- a copy past the end of a buffer.

Errors thrown to JavaScript are `JsError` outcomes, and they carry the source's messages.

Facts about the code that the model keeps:

- The code checks the argument count, that the locator is a string and the scheme before it asks whether the file exists.
- A one-argument ("read all") call returns empty data, because the typed array is sized by the zero chunk size (`ReadPipeline.ReadAllReturnsNothing`).
- The return value of `LZ4_decompress_safe` is ignored, so there is no corrupt-data error. The bytes handed to the host are whatever the destination buffer holds.
- The compression test compares the block size with the requested `chunkSize`. In the model, a host array shorter than `chunkSize` is a fault (the C++ would read past it), so the compared length is always the length of the chunk that was compressed.

## Model

| member | source | states |
|---|---|---|
| `JsValues.Trunc` | android/cpp-adapter.cpp:144 | the double-to-integer cast truncates toward zero: the result is within one of the input, on the zero side |
| `JsValues.GetString` | android/cpp-adapter.cpp:123 | a string argument gives its text; an index past the count is an out-of-range fault |
| `JsValues.GetBool` | android/cpp-adapter.cpp:156 | a boolean argument gives its value; an index past the count is an out-of-range fault |
| `JsValues.GetArrayBuffer` | android/cpp-adapter.cpp:205 | an ArrayBuffer argument gives its bytes; an index past the count is an out-of-range fault |
| `JsValues.GetInt` | android/cpp-adapter.cpp:144-149 | succeeds exactly for a number whose truncation fits a 32-bit int, and gives that truncation |
| `JsValues.GetSize` | android/cpp-adapter.cpp:206-216 | succeeds exactly for a number whose truncation is a non-negative 32-bit length, and gives that truncation |
| `Buffers.CopyBytes` | android/cpp-adapter.cpp:176-177 | the new buffer holds exactly the first `n` source bytes |
| `ReadPipeline.ContentSchemeIsPrefix` | android/cpp-adapter.cpp:124 | the `substr(0, 10)` test holds iff the locator has at least ten characters and starts with `content://` |
| `ReadPipeline.UrlOf` | android/cpp-adapter.cpp:119-126 | no arguments gives the "need at least the file URL" error; success iff the first argument is a string with the scheme; a string without it gives the scheme error |
| `ReadPipeline.ReadOptionsOf` | android/cpp-adapter.cpp:136-157 | one argument gives chunk size 0, read-all, offset 0, no compression; otherwise the chunk size is the 2nd argument and read-all is false; the offset is the 3rd argument if present, else 0; the compression flag is the 4th argument if present, else false; fails iff one of those reads fails |
| `ReadPipeline.ChunkOf` | android/cpp-adapter.cpp:165-166 | a null array is a fault; otherwise succeeds iff `0 <= chunkSize <= length`, giving a prefix of exactly `chunkSize` bytes |
| `ReadPipeline.KeepIfSmaller` | android/cpp-adapter.cpp:169-186 | the data never grows; it is compressed iff it is strictly shorter than the chunk, iff the LZ4 block is shorter than the chunk; the data is then the block, else the chunk unchanged |
| `ReadPipeline.KeepIfSmallerRestores` | android/cpp-adapter.cpp:172-178 | if LZ4 round-trips on the chunk, undoing the reported compression gives the chunk back |
| `ReadPipeline.ReadFile` | android/cpp-adapter.cpp:114-194 | the step-by-step lambda ends with the same outcome and the same provider calls as the stage-wise specification |
| `ReadPipeline.ReadWithoutArgumentsFails` | android/cpp-adapter.cpp:119-121 | zero arguments fail with the URL error and no provider call |
| `ReadPipeline.ReadRejectsOtherSchemes` | android/cpp-adapter.cpp:123-126 | a string locator whose first ten characters are not `content://` fails with the scheme error and no provider call |
| `ReadPipeline.ReadChecksExistenceFirst` | android/cpp-adapter.cpp:127-135 | the first provider call is always the existence check; when it answers false the call fails with "Could not open file" and the provider's `readFile` is never called |
| `ReadPipeline.ReadFetchesDecodedChunk` | android/cpp-adapter.cpp:158-172 | a successful call made exactly the existence check and `readFile(url, chunkSize, offset, readAll)` with the decoded values, and its result encodes the first `chunkSize` bytes returned |
| `ReadPipeline.ReadUncompressedReturnsChunk` | android/cpp-adapter.cpp:184-192 | without compression requested, the result is not compressed and its data is the provider's first `chunkSize` bytes |
| `ReadPipeline.ReadCompressedIffSmaller` | android/cpp-adapter.cpp:169-183 | with compression requested, the result is compressed iff the LZ4 block is shorter than `chunkSize`; its data is then the block, else the chunk unchanged |
| `ReadPipeline.ReadAllReturnsNothing` | android/cpp-adapter.cpp:138-141 | a successful one-argument call returns empty, uncompressed data |
| `ReadPipeline.ReadOptionsRoundTrip` | android/cpp-adapter.cpp:143-157 | decoding four arguments built from a chunk size, an offset and a flag gives those values back |
| `WritePipeline.WriteRequestOf` | android/cpp-adapter.cpp:200-218 | the count error occurs iff there are fewer than 3 arguments; name, buffer and size are the first three; append is the 4th argument if present, else true; with more than three arguments `isCompressed` is read from `arguments[4]`, otherwise it is false; `compressedSize` is read from `arguments[5]` only when compressed, else it is 0; succeeds exactly when each of those reads succeeds |
| `WritePipeline.PayloadOf` | android/cpp-adapter.cpp:219-225 | the bytes are always `originalSize` long: the decompression of the first `compressedSize` buffer bytes when compressed, else the buffer's first `originalSize` bytes; a buffer too short for that is an overread fault |
| `WritePipeline.StoreSpec` | android/cpp-adapter.cpp:229-237 | on success, exactly one provider call with the payload and the append flag, and the provider's string is returned unchanged (empty for null); on failure, no call |
| `WritePipeline.WriteFile` | android/cpp-adapter.cpp:195-238 | the step-by-step lambda ends with the same outcome and the same provider calls as the specification |
| `WritePipeline.WriteNeedsThreeArguments` | android/cpp-adapter.cpp:200-202 | fewer than three arguments fail with the count error and no provider call |
| `WritePipeline.WriteStoresOriginalBytes` | android/cpp-adapter.cpp:219-237 | a successful call passes the provider `originalSize` bytes (decompressed, or the buffer prefix) and the append flag, and returns its string unchanged |
| `WritePipeline.WriteIgnoresSizeWhenUncompressed` | android/cpp-adapter.cpp:211-218 | when `isCompressed` is false, the 6th argument has no effect on the decoded request |
| `WritePipeline.FourArgumentsOverrun` | android/cpp-adapter.cpp:208-218 | every well-typed four-argument call reads `arguments[4]`, past the argument array |
| `WritePipeline.FourArgumentCallExample` | android/cpp-adapter.cpp:213-214 | `writeFile("a.bin", [1,2,3,4], 4, false)` reads `arguments[4]` out of range |
| `WritePipeline.IntendedWriteRequestOf` | android/cpp-adapter.cpp:207-218 | the corrected decoding never reads past the argument array; append and `isCompressed` are the 4th and 5th arguments if present, else true and false; `compressedSize` comes from the 6th argument only when compressed and present; the count error occurs iff there are fewer than 3 arguments, name, buffer and size are the first three, and decoding succeeds exactly when each read it makes succeeds |
| `WritePipeline.IntendedAgreesWhereDefined` | android/cpp-adapter.cpp:207-218 | wherever the code as written stays inside the argument array, the corrected decoding gives the same result |
| `WritePipeline.WriteRequestRoundTrip` | android/cpp-adapter.cpp:204-218 | decoding six arguments built from a request gives the request back |
| `Facade.ForwardRead` | src/index.tsx:7-26 | throws iff called with no arguments; otherwise forwards exactly the first min(n, 4) arguments, in order |
| `Facade.ForwardWrite` | src/index.tsx:28-64 | throws iff there are fewer than 3 arguments; 3 or 4 arguments are forwarded as they are; 5 with a falsy `isCompressed` are forwarded as they are; 5 with a truthy one gain an `undefined` 6th; more than 5 are cut to 6 |
| `EndToEnd.FacadeReadIsTransparent` | src/index.tsx:16-25 | reading through the wrapper has the same outcome and provider calls as calling the native function with the caller's arguments |
| `EndToEnd.FacadeFourArgumentWriteOverruns` | src/index.tsx:44-45 | the wrapper's four-argument write makes the native code read `arguments[4]` out of range, and nothing is stored |
| `EndToEnd.FacadeFourArgumentWriteIntended` | src/index.tsx:44-45 | with the corrected decoding, that call stores the buffer's first `originalSize` bytes with the caller's append flag |
| `EndToEnd.ReadThenWriteStoresChunk` | example/App.js:40-52 | reading a file with compression requested, then writing the result back through the six-argument call the code handles as written, passing its reported flag and length, stores exactly the chunk read, given that LZ4 round-trips on it |

## Left out

- The `isFileAvailable` host function (android/cpp-adapter.cpp:99-113) and its wrapper (src/index.tsx:3-5) are not modelled. Each is one provider call, and the same check appears inside `readFile`.
- Thread attachment to the Java VM (`DeferThreadDetach`, `GetJniEnv`), the process globals, `nativeInstall`, and the publication of the functions on the JavaScript global object are runtime plumbing. The host object is a parameter instead.
- Conversions between JavaScript strings, modified-UTF-8 JNI strings and C++ strings are left out, as is building the returned JSI object and typed array. Strings are `seq<char>` throughout. A null string from the host becomes the empty string, as `jstring2string` makes it.
- Allocation, freeing and the leaked buffers and objects are left out: buffers are sequences.
- LZ4 is uninterpreted. Its round trip is an assumption (`Lz4.RoundTripsOn`), stated only as a precondition of the lemmas that need it. The code never checks it.
- The Java host's I/O (content resolver, streams, files) is left out. The host is an arbitrary `Provider`. Exceptions left pending by JNI calls into it are not modelled.
- NaN and infinite numbers are not modelled. Numbers are reals, truncated toward zero when cast.
- JsValues.GetSize: follows a 32-bit `size_t`, so a size of 2^31 or more is a `NumberOutOfRange` fault. A 64-bit build accepts such a size in the `(size_t)` cast (android/cpp-adapter.cpp:206, 216). It then narrows it by wrapping to the 32-bit `int` and `jsize` that LZ4 and JNI take (lines 221, 224-225). Those wrapped lengths are not modelled.
- Undefined behaviour is not explored beyond the point where it happens. The model stops with a `Fault` and records the calls made so far.
- A negative chunk size that reaches the copy is treated as a buffer overread fault. The C++ would hand it to LZ4 and to the typed-array constructor instead. The repository's host returns null for it anyway, which is a fault already.
- Arguments that are objects other than ArrayBuffers (a `Uint8Array` passed as the write data, say) are a wrong-kind fault when read as a buffer. They are not modelled as values.

## Findings

| source | as written | input that shows it | evidently intended | confidence | as-written member | corrected member |
|---|---|---|---|---|---|---|
| android/cpp-adapter.cpp:213-217 | under `count > 3` the code reads `arguments[4]` and, when that is true, `arguments[5]` | `writeFile("a.bin", buffer, 4, false)`: four arguments, exactly what the wrapper forwards at src/index.tsx:44-45 | read `arguments[4]` only when `count > 4`, and `arguments[5]` only when `count > 5` | high; not executed | `WritePipeline.FourArgumentCallExample` | `WritePipeline.IntendedWriteRequestOf` |
