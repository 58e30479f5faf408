/** The Java host object the adapter calls through JNI, and the log of those calls. */
module Host {
  import opened JsValues

  /** `isFileAvailable(String)`, `readFile(String, int, int, boolean)` and
      `writeFile(String, byte[], boolean)` of the host module; `None` is a null return. */
  datatype Provider = Provider(
    isFileAvailable: string -> bool,
    readFile: (string, int, int, bool) -> Option<seq<Byte>>,
    writeFile: (string, seq<Byte>, bool) -> Option<string>)

  /** One call the adapter makes into the provider, with its arguments. */
  datatype Call =
    | IsFileAvailable(url: string)
    | ReadFile(url: string, chunkSize: int, offset: int, readAllBytes: bool)
    | WriteFile(fileName: string, data: seq<Byte>, append: bool)

  /** How a host function call ends, and the provider calls it made, in order. */
  datatype Run<T> = Run(outcome: Result<T>, calls: seq<Call>)
}
