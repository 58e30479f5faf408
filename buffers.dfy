/** Byte copies between native buffers. */
module Buffers {
  import opened JsValues

  /** Copies the first `n` bytes of `src` into a new `n`-byte buffer, one byte at a
      time, as `std::copy`, `TypedArray::update` and `SetByteArrayRegion` do. */
  method CopyBytes(src: seq<Byte>, n: nat) returns (dst: seq<Byte>)
    requires n <= |src|
    ensures dst == src[..n]
  {
    var a := new Byte[n];
    for i := 0 to n
      invariant forall k :: 0 <= k < i ==> a[k] == src[k]
    {
      a[i] := src[i];
    }
    dst := a[..];
  }
}
