/** The GMP encoder's byte path: the input read as one big-endian integer,
    written in binary and left-filled to eight bits per byte. */
module Gmp {
  import opened Bits
  import opened Bytes
  import opened Config
  import opened Codec
  import opened Results
  import opened RoundTrip

  /** `GmpEncoder::encode` with `$integer = false` (GmpEncoder.php:66-104). The
      right-fill of the last group is unconditional here, and the result is the
      text `PhpEncoder::encode` gives for the same configuration and bytes. */
  function Encode(cfg: Config, data: seq<Byte>): (r: string)
    requires cfg.Valid()
    ensures r == Codec.Encode(cfg, data)
  {
    if PhpEmptyBytes(data) then
      ""
    else
      var bits := GmpBits(data);
      var groups := PadLastRight(Split(bits, 5), 5);
      assert groups == EncodeGroups(ToBits(data));
      AddPadding(cfg, Symbols(cfg.alphabet, groups))
  }

  /** Leading zero bytes survive the GMP path: the integer `gmp_import` reads
      is blind to them, yet the text decodes back to every byte. */
  lemma LeadingZeroBytes(cfg: Config, k: nat, data: seq<Byte>)
    requires Reversible(cfg) && k > 0
    ensures BigEndian(ZeroBytes(k) + data) == BigEndian(data)
    ensures Decode(cfg, Encode(cfg, ZeroBytes(k) + data)) == Success(ZeroBytes(k) + data)
  {
    BigEndianLeadingZeros(k, data);
    var d := ZeroBytes(k) + data;
    assert d[0] == 0;
    EncodeDecode(cfg, d);
  }

  /** k zero bytes. */
  function ZeroBytes(k: nat): (r: seq<Byte>)
    ensures |r| == k && forall i :: 0 <= i < k ==> r[i] == 0
  {
    seq(k, i => 0)
  }

  lemma {:induction false} BigEndianLeadingZeros(k: nat, data: seq<Byte>)
    ensures BigEndian(ZeroBytes(k) + data) == BigEndian(data)
    decreases |data|
  {
    var z := ZeroBytes(k);
    if |data| == 0 {
      assert z + data == z;
      BigEndianZeros(k);
    } else {
      var n := |data| - 1;
      assert (z + data)[..|z + data| - 1] == z + data[..n];
      BigEndianLeadingZeros(k, data[..n]);
    }
  }

  lemma {:induction false} BigEndianZeros(k: nat)
    ensures BigEndian(ZeroBytes(k)) == 0
  {
    if k > 0 {
      assert ZeroBytes(k)[..k - 1] == ZeroBytes(k - 1);
      BigEndianZeros(k - 1);
    }
  }
}
