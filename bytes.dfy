/** Bytes and the little-endian fixed-width integers of the wire format
    (`encoding/binary` with `binary.LittleEndian`). */
module Bytes {

  type byte = b: int | 0 <= b < 256

  type Bytes = seq<byte>

  /** 256^n */
  function Pow256(n: nat): (r: nat)
    ensures r >= 1
  {
    if n == 0 then 1 else 256 * Pow256(n - 1)
  }

  const Two32: int := 0x1_0000_0000
  const Two31: int := 0x8000_0000
  const Two64: int := 0x1_0000_0000_0000_0000
  const Two63: int := 0x8000_0000_0000_0000

  lemma Pow256Values()
    ensures Pow256(4) == Two32 && Pow256(8) == Two64
  {
  }

  /** The unsigned value of a little-endian byte string. */
  function FromLE(bs: Bytes): nat
  {
    if bs == [] then 0 else bs[0] + 256 * FromLE(bs[1..])
  }

  /** The `n` low-order bytes of `u`, least significant first. */
  function ToLE(u: nat, n: nat): (r: Bytes)
    ensures |r| == n
  {
    if n == 0 then [] else [u % 256] + ToLE(u / 256, n - 1)
  }

  lemma {:induction false} FromLEBound(bs: Bytes)
    ensures FromLE(bs) < Pow256(|bs|)
  {
    if bs != [] {
      FromLEBound(bs[1..]);
    }
  }

  /** Encoding then decoding an in-range value gives it back. */
  lemma {:induction false} FromToLE(u: nat, n: nat)
    requires u < Pow256(n)
    ensures FromLE(ToLE(u, n)) == u
  {
    if n > 0 {
      assert u / 256 < Pow256(n - 1);
      FromToLE(u / 256, n - 1);
    }
  }

  /** Decoding then encoding at the same width gives the bytes back. */
  lemma {:induction false} ToFromLE(bs: Bytes)
    ensures ToLE(FromLE(bs), |bs|) == bs
  {
    if bs != [] {
      var u := FromLE(bs);
      assert u % 256 == bs[0] && u / 256 == FromLE(bs[1..]);
      ToFromLE(bs[1..]);
    }
  }

  /** `binary.Read` of an int32: two's complement of the 4 little-endian bytes. */
  function Int32LE(b: Bytes): (r: int)
    requires |b| == 4
  {
    var u := FromLE(b);
    if u >= Two31 then u - Two32 else u
  }

  /** `binary.Write` of `int32(x)`: the 4 low-order bytes of x, so values are truncated modulo 2^32. */
  function PutInt32LE(x: int): (r: Bytes)
    ensures |r| == 4
  {
    ToLE(x % Two32, 4)
  }

  /** An int32 written and read back is unchanged. */
  lemma Int32RoundTrip(x: int)
    requires -Two31 <= x < Two31
    ensures Int32LE(PutInt32LE(x)) == x
  {
    Pow256Values();
    FromToLE(x % Two32, 4);
  }

  /** Four bytes read as an int32 and written back are unchanged. */
  lemma Int32BytesRoundTrip(b: Bytes)
    requires |b| == 4
    ensures PutInt32LE(Int32LE(b)) == b
  {
    Pow256Values();
    FromLEBound(b);
    ToFromLE(b);
  }

  /** The low byte of the written int32 is x modulo 256; for an empty document (x = 5) the prefix is 05 00 00 00. */
  lemma PutInt32Five()
    ensures PutInt32LE(5) == [5, 0, 0, 0]
  {
  }
}
