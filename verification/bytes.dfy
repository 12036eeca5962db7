/** Byte strings and their two bit-level readings: the per-byte concatenation
    `PhpEncoder` builds with `sprintf("%08b", ord($c))`, and the big-endian
    integer `GmpEncoder` obtains with `gmp_import`. */
module Bytes {
  import opened Bits

  type Byte = b: int | 0 <= b < 256

  /** `sprintf("%08b", ord($c))`. */
  function ByteBits(b: Byte): (r: Bits)
    ensures |r| == 8
  {
    FromNat(b, 8)
  }

  /** The big-endian bit string of a byte string, one 8-bit group per byte. */
  function ToBits(d: seq<Byte>): (r: Bits)
    ensures |r| == 8 * |d|
  {
    if |d| == 0 then [] else ToBits(d[..|d| - 1]) + ByteBits(d[|d| - 1])
  }

  /** `gmp_import($data)`: the bytes read as one big-endian unsigned integer. */
  function BigEndian(d: seq<Byte>): (n: nat)
    ensures n < Pow2(8 * |d|)
  {
    if |d| == 0 then 0
    else
      var k := |d| - 1;
      Pow2Byte(8 * k);
      256 * BigEndian(d[..k]) + d[k]
  }

  /** One more byte multiplies the range by 256. */
  lemma Pow2Byte(k: nat)
    ensures Pow2(k + 8) == 256 * Pow2(k)
  {
    assert Pow2(k + 8) == 2 * Pow2(k + 7) == 4 * Pow2(k + 6) == 8 * Pow2(k + 5) == 16 * Pow2(k + 4);
    assert Pow2(k + 4) == 2 * Pow2(k + 3) == 4 * Pow2(k + 2) == 8 * Pow2(k + 1) == 16 * Pow2(k);
  }

  /** Bits 8i..8i+7 of the per-byte bit string are byte i. */
  lemma {:induction false} ToBitsByte(d: seq<Byte>, i: nat)
    requires i < |d|
    ensures 8 * i + 8 <= |ToBits(d)| && ToBits(d)[8 * i .. 8 * i + 8] == ByteBits(d[i])
  {
    var n := |d| - 1;
    var p := ToBits(d[..n]);
    assert ToBits(d) == p + ByteBits(d[n]);
    if i < n {
      ToBitsByte(d[..n], i);
      assert ToBits(d)[8 * i .. 8 * i + 8] == p[8 * i .. 8 * i + 8];
    }
  }

  /** Reading an 8-bit group back gives the byte. */
  lemma ByteBitsValue(b: Byte)
    ensures ToNat(ByteBits(b)) == b
  {
    Pow2Values();
    ToNatFromNat(b, 8);
  }

  /** The per-byte bit string is the binary numeral of the big-endian integer. */
  lemma {:induction false} ToBitsValue(d: seq<Byte>)
    ensures ToNat(ToBits(d)) == BigEndian(d)
  {
    if |d| > 0 {
      var n := |d| - 1;
      var front, last := ToBits(d[..n]), ByteBits(d[n]);
      assert ToNat(front + last) == ToNat(front) * 256 + d[n] by {
        ToNatAppend(front, last);
        ByteBitsValue(d[n]);
        Pow2Values();
      }
      ToBitsValue(d[..n]);
    }
  }

  /** The GMP byte path: `str_pad(gmp_strval(gmp_import($data), 2), 8 * strlen($data),
      "0", STR_PAD_LEFT)` is exactly the per-byte bit string, for every
      non-empty byte string (leading zero bytes included). */
  lemma GmpBitsArePerByteBits(d: seq<Byte>)
    requires |d| > 0
    ensures PadLeft(Minimal(BigEndian(d)), 8 * |d|) == ToBits(d)
  {
    var bits := ToBits(d);
    ToBitsValue(d);
    PadLeftMinimal(BigEndian(d), 8 * |d|);
    FromNatToNat(bits);
  }

  /** `str_pad(gmp_strval(gmp_import($data), 2), 8 * strlen($data), "0",
      STR_PAD_LEFT)`, the bit string `GmpEncoder::encode` splits into groups. The
      encoder only reaches it for non-empty input. */
  function GmpBits(d: seq<Byte>): (r: Bits)
    requires |d| > 0
    ensures r == ToBits(d)
  {
    GmpBitsArePerByteBits(d);
    PadLeft(Minimal(BigEndian(d)), 8 * |d|)
  }
}
