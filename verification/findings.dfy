/** Where PHP's `empty()` makes the codec lose or invent data: `empty("0")` is
    true, so the one-byte string "0" and the text "0" are treated as if they were
    the empty string. Each discrepancy is shown on the code as written (module
    Codec) and paired with a corrected definition that tests for the empty
    string only, with the property the discrepancy breaks proved about it. */
module Findings {
  import opened Results
  import opened Bits
  import opened Bytes
  import opened Config
  import opened Codec
  import opened RoundTrip
  import opened Arithmetic

  /** The byte 0x30, the PHP string "0". */
  const ZERO_BYTE: Byte := 48

  // ---------------------------------------------------------------------------
  // encode("0") returns "" (PhpEncoder.php:46, GmpEncoder.php:68)
  // ---------------------------------------------------------------------------

  /** As written: encoding the one-byte string "0" yields "", which decodes to
      no bytes at all, under every configuration. */
  lemma ZeroByteLost(cfg: Config)
    requires cfg.Valid()
    ensures Encode(cfg, [ZERO_BYTE]) == ""
    ensures Decode(cfg, Encode(cfg, [ZERO_BYTE])) == Success([])
  {
  }

  /** `encode` with the check for an empty string only. Every non-empty byte
      string gets the text the code builds past the check, so the byte string
      "0" now encodes like any other byte. */
  function EncodeIntended(cfg: Config, data: seq<Byte>): (r: string)
    requires cfg.Valid()
    ensures data == [] <==> r == ""
    ensures !PhpEmptyBytes(data) ==> r == Encode(cfg, data)
  {
    if data == [] then "" else EncodeText(cfg, data)
  }

  /** With the corrected check every byte string survives the round trip. */
  lemma EncodeIntendedRoundTrip(cfg: Config, data: seq<Byte>)
    requires Reversible(cfg)
    ensures Decode(cfg, EncodeIntended(cfg, data)) == Success(data)
  {
    if data != [] {
      DecodeEncodedBytes(cfg, data);
    }
  }

  /** The byte string "0" itself, under the default configuration: "GA======". */
  lemma ZeroByteIntended(data: seq<Byte>)
    requires data == [ZERO_BYTE]
    ensures EncodeIntended(Default(), data) == "GA======"
  {
    SymbolFromBytes(data, 0, 0, 0, 48, 0);
    SymbolFromBytes(data, 1, 0, 5, 48, 0);
    ZeroByteText(data, "GA======");
  }

  lemma ZeroByteText(data: seq<Byte>, t: string)
    requires |data| == 1 && t == "GA======"
    requires SymbolValue(data, 0) == 6 && SymbolValue(data, 1) == 0
    ensures EncodeText(Default(), data) == t
  {
    assert Spells(RFC4648, data, t, 1, 2);
    assert Spells(RFC4648, data, t, 0, 2);
    assert PaddedTo(Default(), 2, t);
    SpelledText(Default(), data, t, 2);
  }

  // ---------------------------------------------------------------------------
  // decode("0") returns "" even where '0' is not a symbol (PhpEncoder.php:85)
  // ---------------------------------------------------------------------------

  /** As written: under the default RFC 4648 configuration the text "0" decodes
      to no bytes although '0' is not a symbol there, while "00" is rejected. */
  lemma InvalidZeroAccepted()
    ensures var cfg := Default();
      && !AllAccepted(cfg, "0")
      && Decode(cfg, "0") == Success([])
      && Decode(cfg, "00") == Failure(InvalidCharacters)
  {
    var cfg := Default();
    NoZeroInRfc4648();
    assert !Accepted(cfg, "0"[0]);
    assert !Accepted(cfg, "00"[0]);
  }

  lemma NoZeroInRfc4648()
    ensures '0' !in RFC4648
  {
    assert forall i :: 0 <= i < 32 ==> RFC4648[i] != '0';
  }

  /** `decode` with the check for an empty string only: every non-empty text is
      rejected exactly when a (normalised) character is neither a symbol nor the
      padding character. */
  function DecodeIntended(cfg: Config, s: string): (r: Result<seq<Byte>>)
    requires cfg.Valid()
    ensures s == "" ==> r == Success([])
    ensures s != "" ==> (r.Success? <==> AllAccepted(cfg, Prepare(cfg, s)))
    ensures s != "0" ==> r == Decode(cfg, s)
  {
    if s == "" then Success([]) else DecodeText(cfg, s)
  }

  /** The corrected pair round-trips every byte string, and the corrected decode
      rejects the stray "0" the code as written accepts. */
  lemma DecodeIntendedRoundTrip(cfg: Config, data: seq<Byte>)
    requires Reversible(cfg)
    ensures DecodeIntended(cfg, EncodeIntended(cfg, data)) == Success(data)
    ensures '0' !in cfg.alphabet && cfg.padding != Some('0') ==>
      DecodeIntended(cfg, "0").Failure?
  {
    EncodeIntendedRoundTrip(cfg, data);
    if data != [] {
      DecodeEncodedBytes(cfg, data);
    }
    if '0' !in cfg.alphabet && cfg.padding != Some('0') {
      ZeroTextRejected(cfg, "0");
    }
  }

  /** '0' is left alone by normalisation, so it is checked as it stands. */
  lemma ZeroTextRejected(cfg: Config, s: string)
    requires cfg.Valid() && s == "0" && '0' !in cfg.alphabet && cfg.padding != Some('0')
    ensures !AllAccepted(cfg, Prepare(cfg, s))
  {
    assert Prepare(cfg, s) == s by {
      assert Normalize(s) == NormalizeChar(s[0]) + Normalize(s[1..]);
    }
    assert !Accepted(cfg, s[0]);
  }

  // ---------------------------------------------------------------------------
  // decodeInteger("0") throws on encodeInteger's own output (PhpEncoder.php:169)
  // ---------------------------------------------------------------------------

  /** As written: with the GMP character set and no padding, zero encodes to "0",
      and decoding "0" throws instead of giving zero back. */
  lemma ZeroIntegerUndecodable()
    ensures var cfg := Config(GMP, None, false);
      && cfg.Valid()
      && EncodeInteger(cfg, 0) == "0"
      && DecodeInteger(cfg, EncodeInteger(cfg, 0)) == Failure(EmptyInput)
  {
    PresetsAreValid();
    ZeroIntegerText(Config(GMP, None, false), 0);
  }

  /** `decodeInteger` with the check for an empty string only. */
  function DecodeIntegerIntended(cfg: Config, s: string): (r: Result<nat>)
    requires cfg.Valid()
    ensures s == "" <==> r == Failure(EmptyInput)
    ensures s != "0" ==> r == DecodeInteger(cfg, s)
  {
    if s == "" then Failure(EmptyInput) else ReadInteger(cfg, s)
  }

  /** With the corrected check every integer `encodeInteger` accepts comes back. */
  lemma DecodeIntegerIntendedRoundTrip(cfg: Config, n: nat)
    requires Reversible(cfg) && n <= PHP_INT_MAX
    ensures DecodeIntegerIntended(cfg, EncodeInteger(cfg, n)) == Success(n)
  {
    var r := EncodeInteger(cfg, n);
    var body := IntegerDigits(cfg, n);
    assert r == AddPadding(cfg, body);
    PaddedText(cfg, body);
  }
}
