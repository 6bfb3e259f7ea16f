/** Bytes and the two memory operations the sources use: zero filling and `memcpy`. */
module Bytes {
  type byte = b: int | 0 <= b < 256

  function Min(a: int, b: int): int {
    if a <= b then a else b
  }

  function Zeros(n: nat): (z: seq<byte>)
    ensures |z| == n
    ensures forall i | 0 <= i < n :: z[i] == 0
  {
    seq(n, i => 0)
  }

  /** `memcpy(dst + at, src, |src|)`: the bytes of `dst` outside the copied range stay as they were. */
  function Overwrite(dst: seq<byte>, at: nat, src: seq<byte>): (out: seq<byte>)
    requires at + |src| <= |dst|
    ensures |out| == |dst|
    ensures forall i | 0 <= i < |out| ::
              out[i] == if at <= i < at + |src| then src[i - at] else dst[i]
  {
    dst[..at] + src + dst[at + |src|..]
  }
}
