/** Machine-level value types shared by the whole model: bytes, unsigned 32-bit
    integers, zero-filled buffers and the slice copy (`copy_from_slice`) that the
    row codec and the statement parser both use. */
module Bytes {

  /** One byte of a page buffer or of the database file (`u8`). */
  type byte = b: int | 0 <= b < 256

  /** The row id type (`u32`). */
  type u32 = x: int | 0 <= x < 0x1_0000_0000

  /** A freshly allocated buffer, `vec![0; n]`. */
  function Zeros(n: nat): (z: seq<byte>)
    ensures |z| == n
    ensures forall i :: 0 <= i < n ==> z[i] == 0
  {
    seq(n, _ => 0)
  }

  /** `buf.iter().all(|&x| x == 0)`. */
  predicate AllZero(s: seq<byte>)
  {
    forall i :: 0 <= i < |s| ==> s[i] == 0
  }

  /** An all-zero buffer is the zero buffer of its length. */
  lemma AllZeroIsZeros(s: seq<byte>)
    requires AllZero(s)
    ensures s == Zeros(|s|)
  {
  }

  /** `dst[at..at + data.len()].copy_from_slice(data)`: the bytes at
      [at, at + |data|) become `data`; every other byte keeps its value. */
  function CopyInto(dst: seq<byte>, at: nat, data: seq<byte>): (r: seq<byte>)
    requires at + |data| <= |dst|
    ensures |r| == |dst|
    ensures r[at..at + |data|] == data
    ensures forall i :: 0 <= i < |dst| && !(at <= i < at + |data|) ==> r[i] == dst[i]
  {
    dst[..at] + data + dst[at + |data|..]
  }
}
