/** Round trips of the reference codec: decoding what `encode` and
    `encodeInteger` produce. */
module RoundTrip {
  import opened Results
  import opened Bits
  import opened Bytes
  import opened Config
  import opened Codec

  /** A configuration whose encoder output decodes back: the padding character
      is not a symbol, and with Crockford normalisation on, normalisation leaves
      every symbol and the emitted padding character as they are. */
  predicate Reversible(cfg: Config)
  {
    && cfg.Valid()
    && (cfg.padding.Some? ==> cfg.padding.value !in cfg.alphabet)
    && (cfg.crockford ==>
          && (forall i :: 0 <= i < |cfg.alphabet| ==> Stable(cfg.alphabet[i]))
          && (cfg.PadsOutput() ==> Stable(cfg.padding.value)))
  }

  /** Bytes survive `encode` then `decode`, unless PHP's `empty()` swallowed them
      on the way in (no bytes, or the single byte "0"). */
  lemma EncodeDecode(cfg: Config, data: seq<Byte>)
    requires Reversible(cfg)
    ensures Decode(cfg, Encode(cfg, data)) == if PhpEmptyBytes(data) then Success([]) else Success(data)
  {
    if !PhpEmptyBytes(data) {
      DecodeEncodedBytes(cfg, data);
    }
  }

  /** The text the encoder builds for any non-empty byte string, once past the
      `empty()` check, decodes back to those bytes. */
  lemma DecodeEncodedBytes(cfg: Config, data: seq<Byte>)
    requires Reversible(cfg) && |data| > 0
    ensures var r := EncodeText(cfg, data);
      |r| >= 2 && DecodeText(cfg, r) == Success(data)
  {
    var bits := ToBits(data);
    var body := EncodeBits(cfg, bits);
    var r := AddPadding(cfg, body);
    EncodeBitsDigits(cfg, bits);
    PaddedText(cfg, body);
    SymbolBitsSkipPadding(cfg, r);
    assert SymbolBits(cfg, Prepare(cfg, r)) == ZeroFill(bits);
    ZeroFillBytes(data);
  }

  /** What the padding step appends is skipped on decode, and it is accepted
      and left as it is by normalisation. */
  lemma PaddedText(cfg: Config, body: string)
    requires Reversible(cfg)
    requires forall i :: 0 <= i < |body| ==> body[i] in cfg.alphabet
    ensures var r := AddPadding(cfg, body);
      && Prepare(cfg, r) == r
      && AllAccepted(cfg, r)
      && Unpadded(cfg, r) == body
  {
    var r := AddPadding(cfg, body);
    var tail := r[|body|..];
    assert r == body + tail;
    assert forall i :: 0 <= i < |tail| ==> cfg.PadsOutput() && tail[i] == cfg.padding.value by {
      if !cfg.PadsOutput() {
        assert |tail| == 0;
      }
    }
    assert Unpadded(cfg, r) == body by {
      UnpaddedAppend(cfg, body, tail);
      UnpaddedSymbols(cfg, body);
      UnpaddedPads(cfg, tail);
      assert body + "" == body;
    }
    if cfg.crockford {
      NormalizeStable(r);
    }
  }

  /** A string of symbols has nothing to skip. */
  lemma {:induction false} UnpaddedSymbols(cfg: Config, u: string)
    requires Reversible(cfg)
    requires forall i :: 0 <= i < |u| ==> u[i] in cfg.alphabet
    ensures Unpadded(cfg, u) == u
  {
    if |u| > 0 {
      UnpaddedSymbols(cfg, u[1..]);
      assert [u[0]] + u[1..] == u;
    }
  }

  /** A run of padding characters is skipped entirely. */
  lemma {:induction false} UnpaddedPads(cfg: Config, t: string)
    requires forall i :: 0 <= i < |t| ==> cfg.padding == Some(t[i])
    ensures Unpadded(cfg, t) == ""
  {
    if |t| > 0 {
      UnpaddedPads(cfg, t[1..]);
    }
  }

  /** The symbols `encode` writes are alphabet entries whose indexes, read back
      as 5-bit groups, are the zero-filled bit string. */
  lemma EncodeBitsDigits(cfg: Config, bits: Bits)
    requires cfg.Valid() && |bits| > 0
    ensures var body := EncodeBits(cfg, bits);
      && (forall i :: 0 <= i < |body| ==> body[i] in cfg.alphabet)
      && DigitBits(cfg.alphabet, body) == ZeroFill(bits)
  {
    var groups := EncodeGroups(bits);
    var body := EncodeBits(cfg, bits);
    assert forall i :: 0 <= i < |groups| ==> |groups[i]| == 5;
    DigitBitsOfSymbols(cfg.alphabet, groups);
    PadLastIsZeroFill(bits);
    SplitFlatten(ZeroFill(bits), 5);
    assert forall i :: 0 <= i < |body| ==> body[i] in cfg.alphabet by {
      forall i | 0 <= i < |body| ensures body[i] in cfg.alphabet {
        Pow2Values();
        assert ToNat(groups[i]) < 32;
      }
    }
  }

  /** Cutting the zero-filled bit string of n bytes into whole bytes gives the
      n bytes back: the fill is shorter than a byte. */
  lemma ZeroFillBytes(data: seq<Byte>)
    requires |data| > 0
    ensures BitsToBytes(ZeroFill(ToBits(data))) == data
  {
    var bits := ToBits(data);
    var z := ZeroFill(bits);
    var r := BitsToBytes(z);
    assert |r| == |data| by {
      assert |bits| <= |z| < |bits| + 5;
      DivRange(|z|, |data|);
    }
    forall i | 0 <= i < |r|
      ensures r[i] == data[i]
    {
      ZeroFillByte(data, i);
    }
  }

  lemma ZeroFillByte(data: seq<Byte>, i: nat)
    requires i < |data|
    ensures 8 * i + 8 <= |ZeroFill(ToBits(data))|
    ensures ToNat(ZeroFill(ToBits(data))[8 * i .. 8 * i + 8]) == data[i]
  {
    var bits := ToBits(data);
    var z := ZeroFill(bits);
    ToBitsByte(data, i);
    assert z[8 * i .. 8 * i + 8] == bits[8 * i .. 8 * i + 8] by {
      assert z[..|bits|] == bits;
    }
    ByteBitsValue(data[i]);
  }

  lemma DivRange(a: nat, n: nat)
    requires 8 * n <= a < 8 * n + 8
    ensures a / 8 == n
  {
  }

  /** The integer round trip: `decodeInteger(encodeInteger(n))` is n exactly when
      the encoded text is not PHP-empty; otherwise `decodeInteger` throws. */
  lemma EncodeDecodeInteger(cfg: Config, n: nat)
    requires Reversible(cfg) && n <= PHP_INT_MAX
    ensures var r := EncodeInteger(cfg, n);
      DecodeInteger(cfg, r) == if PhpEmpty(r) then Failure(EmptyInput) else Success(n)
  {
    var r := EncodeInteger(cfg, n);
    if !PhpEmpty(r) {
      var body := IntegerDigits(cfg, n);
      assert r == AddPadding(cfg, body);
      PaddedText(cfg, body);
    }
  }

  /** `encodeInteger` yields the PHP-empty text "0" exactly for a value below 32
      whose symbol is the character '0', with padding off: the value 0 under the
      GMP character set, for instance. */
  lemma IntegerTextEmpty(cfg: Config, n: nat)
    requires cfg.Valid() && n <= PHP_INT_MAX
    ensures PhpEmpty(EncodeInteger(cfg, n)) <==> n < 32 && cfg.alphabet[n] == '0' && !cfg.PadsOutput()
  {
    var r := EncodeInteger(cfg, n);
    var body := IntegerDigits(cfg, n);
    assert r == AddPadding(cfg, body);
    if PhpEmpty(r) {
      EmptyIntegerText(cfg, n);
    }
    if n < 32 && cfg.alphabet[n] == '0' && !cfg.PadsOutput() {
      ZeroIntegerText(cfg, n);
    }
  }

  lemma EmptyIntegerText(cfg: Config, n: nat)
    requires cfg.Valid() && n <= PHP_INT_MAX && PhpEmpty(EncodeInteger(cfg, n))
    ensures n < 32 && cfg.alphabet[n] == '0' && !cfg.PadsOutput()
  {
    var r := EncodeInteger(cfg, n);
    var body := IntegerDigits(cfg, n);
    assert r == AddPadding(cfg, body);
    assert |r| == 1;
    OneCharPadded(cfg, body);
    OneSymbolWidth(|Minimal(n)|);
    MinimalBound(n, 5);
    Pow2Values();
    SingleDigit(cfg.alphabet, body);
  }

  lemma ZeroIntegerText(cfg: Config, n: nat)
    requires cfg.Valid() && n <= PHP_INT_MAX
    requires n < 32 && cfg.alphabet[n] == '0' && !cfg.PadsOutput()
    ensures EncodeInteger(cfg, n) == "0"
  {
    var r := EncodeInteger(cfg, n);
    var body := IntegerDigits(cfg, n);
    assert r == AddPadding(cfg, body);
    Pow2Values();
    MinimalBound(n, 5);
    OneSymbolWidth(|Minimal(n)|);
    assert |body| == 1;
    SingleDigit(cfg.alphabet, body);
    assert r == body;
  }

  /** With padding on, no padded text is one character long. */
  lemma OneCharPadded(cfg: Config, body: string)
    requires |AddPadding(cfg, body)| == 1
    ensures !cfg.PadsOutput() && AddPadding(cfg, body) == body
  {
  }

  /** A numeral of 1 to 5 bits makes one 5-bit group. */
  lemma OneSymbolWidth(a: nat)
    requires a >= 1
    ensures CeilDiv(a, 5) == 1 <==> a <= 5
  {
  }

  /** A one-symbol numeral is worth its symbol's index. */
  lemma SingleDigit(alphabet: string, u: string)
    requires |alphabet| == 32 && Distinct(alphabet) && |u| == 1 && u[0] in alphabet
    ensures DigitsValue(alphabet, u) < 32
    ensures u[0] == alphabet[DigitsValue(alphabet, u)]
  {
    assert u[..0] == [];
  }

  /** The minimal numeral fits in w bits exactly when the value is below 2^w. */
  lemma {:induction false} MinimalBound(n: nat, w: nat)
    requires w >= 1
    ensures |Minimal(n)| <= w <==> n < Pow2(w)
  {
    var m := Minimal(n);
    if n < Pow2(w) && |m| > w {
      ToNatLeadingOne(m);
      Pow2Monotone(w, |m| - 1);
    }
    if |m| <= w {
      Pow2Monotone(|m|, w);
    }
  }
}
