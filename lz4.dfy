/** The LZ4 block codec the adapter links against, kept uninterpreted. */
module Lz4 {
  import opened JsValues

  /** `LZ4_decompress_safe(src, dst, compressedSize, n)` into a freshly allocated
      `n`-byte destination: the function gives the destination's content after the
      call, which is always `n` bytes long. Its return value is not part of the model,
      because the adapter ignores it. */
  type Decompressor = f: (seq<Byte>, nat) -> seq<Byte> | forall src, n :: |f(src, n)| == n
    witness (src: seq<Byte>, n: nat) => seq(n, _ => 0 as Byte)

  /** `compressBound` is `LZ4_compressBound`; `compress(src, capacity)` is the block
      `LZ4_compress_default` writes into a destination of that capacity, so its length
      is the size the call returns (0 when the call fails). */
  datatype Codec = Codec(
    compressBound: int -> int,
    compress: (seq<Byte>, int) -> seq<Byte>,
    decompress: Decompressor)

  /** The block the read pipeline obtains for `chunk`, sized by `LZ4_compressBound`. */
  function Packed(chunk: seq<Byte>, codec: Codec): seq<Byte> {
    codec.compress(chunk, codec.compressBound(|chunk|))
  }

  /** Assumption about LZ4, never checked by the adapter: decompressing the block of
      `chunk` into `|chunk|` bytes gives `chunk` back. */
  ghost predicate RoundTripsOn(codec: Codec, chunk: seq<Byte>) {
    codec.decompress(Packed(chunk, codec), |chunk|) == chunk
  }
}
