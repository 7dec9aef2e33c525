/** Octets and the little-endian 16-bit fields of the YTKJ wire format. */
module Bytes {

  /** An unsigned octet, as C's `unsigned char` and as a byte on the wire. */
  type byte = b: int | 0 <= b < 256

  /** `x & 0xff` on a two's-complement integer. */
  function LowByte(x: int): byte
  {
    x % 256
  }

  /** `(x >> 8) & 0xff` on a two's-complement integer (arithmetic shift). */
  function HighByte(x: int): byte
  {
    (x / 256) % 256
  }

  /** A 16-bit field written low byte first, as every YTKJ offset and length is. */
  function LE16(x: int): (r: seq<byte>)
    ensures |r| == 2
  {
    [LowByte(x), HighByte(x)]
  }

  /** Reads a 16-bit little-endian field from its two octets. */
  function ReadLE16(lo: byte, hi: byte): (x: int)
    ensures 0 <= x < 65536
  {
    lo + 256 * hi
  }

  /** Writing then reading a 16-bit field gives the value back exactly when it fits. */
  lemma LE16RoundTrip(x: int)
    ensures ReadLE16(LE16(x)[0], LE16(x)[1]) == x <==> 0 <= x < 65536
  {
    if 0 <= x < 65536 {
      assert x / 256 < 256;
      assert HighByte(x) == x / 256;
    }
  }

  /** `n` zero octets, as `memset(p, 0, n)` or a freshly allocated Java array. */
  function Zeros(n: nat): (r: seq<byte>)
    ensures |r| == n
    ensures forall i :: 0 <= i < n ==> r[i] == 0
  {
    seq(n, _ => 0)
  }
}
