/** The reference codec (`PhpEncoder`): byte strings and integers to Base32
    text and back, for a validated configuration. */
module Codec {
  import opened Results
  import opened Bits
  import opened Bytes
  import opened Config

  /** `PHP_INT_MAX` on 64-bit builds. */
  const PHP_INT_MAX: nat := 0x7FFF_FFFF_FFFF_FFFF

  /** `empty()` on a byte string: no byte, or the single byte 0x30 ('0'). */
  function PhpEmptyBytes(d: seq<Byte>): (r: bool)
    ensures r <==> |d| <= 1 && forall i :: 0 <= i < |d| ==> d[i] == 48
  {
    d == [] || d == [48]
  }

  /** `if ($last)` on a binary string: "" and "0" are false. */
  function PhpEmptyBits(b: Bits): (r: bool)
    ensures r <==> |b| <= 1 && forall i :: 0 <= i < |b| ==> !b[i]
  {
    b == [] || b == [false]
  }

  function CeilDiv(a: nat, k: nat): nat
    requires k > 0
  {
    (a + k - 1) / k
  }

  /** Rounding up to a multiple of 5 adds `5 - a % 5` unless `a` is one already. */
  lemma RoundUpFive(a: nat)
    ensures 5 * CeilDiv(a, 5) == if a % 5 != 0 then a + (5 - a % 5) else a
  {
  }

  // ---------------------------------------------------------------------------
  // Encoding
  // ---------------------------------------------------------------------------

  /** The bit string zero-filled on the right to a whole number of 5-bit groups. */
  function ZeroFill(bits: Bits): (r: Bits)
    ensures |r| == 5 * CeilDiv(|bits|, 5) && |r| - |bits| < 5
    ensures r[..|bits|] == bits
  {
    bits + Zeros(5 * CeilDiv(|bits|, 5) - |bits|)
  }

  /** The value of the i-th 5-bit group of the zero-filled bit string. */
  function GroupValue(bits: Bits, i: nat): (v: nat)
    requires i < CeilDiv(|bits|, 5)
    ensures v < 32
  {
    Pow2Values();
    ToNat(ZeroFill(bits)[5 * i .. 5 * i + 5])
  }

  /** Every padding rule on encoded text `r` whose first `n` characters are symbols:
      with padding on, the fewest padding characters that make the length a
      multiple of 8; with padding off, nothing at all. */
  predicate PaddedTo(cfg: Config, n: nat, r: string)
    requires n <= |r|
  {
    if cfg.PadsOutput() then
      |r| % 8 == 0 && |r| - n < 8 && forall i :: n <= i < |r| ==> r[i] == cfg.padding.value
    else
      |r| == n
  }

  function Repeat(c: char, k: nat): (r: string)
    ensures |r| == k && forall i :: 0 <= i < k ==> r[i] == c
  {
    seq(k, i => c)
  }

  /** PhpEncoder.php:69-75: append padding up to the next multiple of 8. */
  function AddPadding(cfg: Config, s: string): (r: string)
    ensures |s| <= |r| && r[..|s|] == s
    ensures PaddedTo(cfg, |s|, r)
  {
    if cfg.PadsOutput() && |s| % 8 != 0 then
      var r := s + Repeat(cfg.padding.value, 8 - |s| % 8);
      assert r[..|s|] == s;
      r
    else
      s
  }

  /** Lines 56-61: split into 5-bit chunks and right-fill the last one. The
      groups are exactly the 5-bit windows of the zero-filled bit string. */
  function EncodeGroups(bits: Bits): (groups: seq<Bits>)
    requires |bits| > 0
    ensures |groups| == CeilDiv(|bits|, 5)
    ensures forall i :: 0 <= i < |groups| ==> groups[i] == ZeroFill(bits)[5 * i .. 5 * i + 5]
  {
    PadLastIsZeroFill(bits);
    FiveBitGroups(ZeroFill(bits));
    PadLastRight(Split(bits, 5), 5)
  }

  /** Right-filling the last chunk of a split is splitting the zero-filled string. */
  lemma {:induction false} PadLastIsZeroFill(bits: Bits)
    requires |bits| > 0
    ensures PadLastRight(Split(bits, 5), 5) == Split(ZeroFill(bits), 5)
    decreases |bits|
  {
    var zf := ZeroFill(bits);
    if |bits| <= 5 {
      assert Split(bits, 5) == [bits];
      assert |zf| == 5;
      assert PadRight(bits, 5) == zf;
    } else {
      var rest := bits[5..];
      PadLastIsZeroFill(rest);
      assert CeilDiv(|bits|, 5) == CeilDiv(|rest|, 5) + 1;
      assert zf == bits[..5] + ZeroFill(rest);
      assert zf[..5] == bits[..5] && zf[5..] == ZeroFill(rest);
      var s := Split(rest, 5);
      assert Split(bits, 5) == [bits[..5]] + s;
      assert Split(zf, 5) == [bits[..5]] + Split(ZeroFill(rest), 5);
      assert ([bits[..5]] + s)[..|s|] == [bits[..5]] + s[..|s| - 1];
    }
  }

  /** A bit string of whole 5-bit groups splits into exactly those groups. */
  lemma FiveBitGroups(b: Bits)
    requires |b| > 0 && |b| % 5 == 0
    ensures |Split(b, 5)| == |b| / 5
    ensures forall i :: 0 <= i < |b| / 5 ==> |Split(b, 5)[i]| == 5
    ensures forall i :: 0 <= i < |b| / 5 ==> Split(b, 5)[i] == b[5 * i .. 5 * i + 5]
  {
    var r := Split(b, 5);
    SplitCount(b, 5);
    SplitLast(b, 5);
    forall i | 0 <= i < |b| / 5
      ensures 5 * i + 5 <= |b| && r[i] == b[5 * i .. 5 * i + 5]
    {
      if i < |r| - 1 {
        SplitChunk(b, 5, i);
      }
    }
  }

  /** Lines 63-67: each 5-bit group becomes `characters()[bindec(group)]`. */
  function Symbols(alphabet: string, groups: seq<Bits>): (r: string)
    requires |alphabet| == 32
    requires forall i :: 0 <= i < |groups| ==> |groups[i]| == 5
    ensures |r| == |groups|
    ensures forall i :: 0 <= i < |groups| ==> r[i] == alphabet[ToNat(groups[i])]
  {
    if |groups| == 0 then
      ""
    else
      Pow2Values();
      [alphabet[ToNat(groups[0])]] + Symbols(alphabet, groups[1..])
  }

  /** The symbols of a non-empty bit string, before padding. */
  function EncodeBits(cfg: Config, bits: Bits): (r: string)
    requires cfg.Valid() && |bits| > 0
    ensures |r| == CeilDiv(|bits|, 5)
    ensures forall i :: 0 <= i < |r| ==> r[i] in cfg.alphabet
  {
    Symbols(cfg.alphabet, EncodeGroups(bits))
  }

  /** `PhpEncoder::encode` (PhpEncoder.php:44-78): PHP-empty input gives "";
      anything else gets the text built past that check. */
  function Encode(cfg: Config, data: seq<Byte>): (r: string)
    requires cfg.Valid()
    ensures PhpEmptyBytes(data) ==> r == ""
    ensures !PhpEmptyBytes(data) ==>
      var n := CeilDiv(8 * |data|, 5);
      && n <= |r|
      && (forall i :: 0 <= i < n ==> r[i] == cfg.alphabet[GroupValue(ToBits(data), i)])
      && PaddedTo(cfg, n, r)
  {
    if PhpEmptyBytes(data) then "" else EncodeText(cfg, data)
  }

  /** Lines 50-77, what `encode` does past the `empty()` check. Symbol i is the
      alphabet entry for bits 5i..5i+4 of the big-endian bit string, zero-filled
      on the right, followed by the padding rule. */
  function EncodeText(cfg: Config, data: seq<Byte>): (r: string)
    requires cfg.Valid() && |data| > 0
    ensures var n := CeilDiv(8 * |data|, 5);
      && n <= |r|
      && (forall i :: 0 <= i < n ==> r[i] == cfg.alphabet[GroupValue(ToBits(data), i)])
      && PaddedTo(cfg, n, r)
  {
    var bits := ToBits(data);
    EncodedSymbols(cfg, bits);
    AddPadding(cfg, EncodeBits(cfg, bits))
  }

  /** Symbol i of the unpadded text is the entry for group i. */
  lemma EncodedSymbols(cfg: Config, bits: Bits)
    requires cfg.Valid() && |bits| > 0
    ensures var body := EncodeBits(cfg, bits);
      && |body| == CeilDiv(|bits|, 5)
      && forall i :: 0 <= i < |body| ==> body[i] == cfg.alphabet[GroupValue(bits, i)]
  {
  }

  // ---------------------------------------------------------------------------
  // Decoding
  // ---------------------------------------------------------------------------

  /** `strtoupper` on one character (ASCII letters only). */
  function Upper(c: char): char
  {
    if 'a' <= c <= 'z' then (c as int - 32) as char else c
  }

  /** `strtoupper` maps each lower-case ASCII letter to the same letter in upper
      case and leaves every other character alone; no lower-case letter remains. */
  lemma UpperCases(c: char)
    ensures !('a' <= Upper(c) <= 'z')
    ensures 'a' <= c <= 'z' ==> 'A' <= Upper(c) <= 'Z' && Upper(c) as int - 'A' as int == c as int - 'a' as int
    ensures !('a' <= c <= 'z') ==> Upper(c) == c
  {
  }

  /** PhpEncoder.php:90-91 on one character: uppercase, then O to 0, L and I to 1,
      and '-' removed. */
  function NormalizeChar(c: char): string
  {
    var u := Upper(c);
    if u == 'O' then "0"
    else if u == 'L' || u == 'I' then "1"
    else if u == '-' then ""
    else [u]
  }

  /** The replacement of lines 90-91 character by character: a dash vanishes,
      'o' and 'O' become '0', 'i', 'I', 'l' and 'L' become '1', and every other
      character becomes its upper case. */
  lemma NormalizeCharCases(c: char)
    ensures NormalizeChar(c) == "" <==> c == '-'
    ensures c == 'o' || c == 'O' ==> NormalizeChar(c) == "0"
    ensures c == 'i' || c == 'I' || c == 'l' || c == 'L' ==> NormalizeChar(c) == "1"
    ensures c != 'o' && c != 'O' && c != 'i' && c != 'I' && c != 'l' && c != 'L' && c != '-' ==>
      NormalizeChar(c) == [Upper(c)]
  {
  }

  /** A character Crockford normalisation leaves as it is. */
  predicate Stable(c: char)
  {
    NormalizeChar(c) == [c]
  }

  /** Crockford normalisation of a whole string; every character it keeps is stable. */
  function Normalize(s: string): (r: string)
    ensures |r| <= |s|
    ensures forall i :: 0 <= i < |r| ==> Stable(r[i])
  {
    if |s| == 0 then "" else NormalizeChar(s[0]) + Normalize(s[1..])
  }

  /** The text decode validates: normalised when the Crockford flag is set. */
  function Prepare(cfg: Config, s: string): (t: string)
    ensures !cfg.crockford ==> t == s
    ensures cfg.crockford ==> |t| <= |s| && forall i :: 0 <= i < |t| ==> Stable(t[i])
    ensures cfg.crockford ==> forall i :: 0 <= i < |t| ==> t[i] != '-' && !('a' <= t[i] <= 'z')
  {
    if cfg.crockford then Normalize(s) else s
  }

  /** Lines 95-96: a character the validity check lets through. */
  function Accepted(cfg: Config, c: char): (r: bool)
    ensures r <==> IndexOf(cfg.alphabet, c) < |cfg.alphabet| || cfg.padding == Some(c)
  {
    c in cfg.alphabet || cfg.padding == Some(c)
  }

  predicate AllAccepted(cfg: Config, t: string)
  {
    forall i :: 0 <= i < |t| ==> Accepted(cfg, t[i])
  }

  /** `strpos`: the first position of `c`, or |s| when it is absent. */
  function IndexOf(s: string, c: char): (i: nat)
    ensures i <= |s|
    ensures i < |s| <==> c in s
    ensures i < |s| ==> s[i] == c
    ensures forall j :: 0 <= j < i ==> s[j] != c
  {
    if |s| == 0 then 0
    else if s[0] == c then 0
    else 1 + IndexOf(s[1..], c)
  }

  /** In an alphabet without repeats, the position of the i-th symbol is i. */
  lemma IndexOfDistinct(s: string, i: nat)
    requires Distinct(s) && i < |s|
    ensures IndexOf(s, s[i]) == i
  {
  }

  /** Lines 106-111 on one character: nothing for the padding character, else the
      5-bit index of the symbol. */
  function CharBits(cfg: Config, c: char): (b: Bits)
    ensures cfg.padding == Some(c) ==> b == []
    ensures cfg.padding != Some(c) ==> |b| == 5
    ensures cfg.padding != Some(c) && IndexOf(cfg.alphabet, c) < 32 ==> ToNat(b) == IndexOf(cfg.alphabet, c)
  {
    if cfg.padding == Some(c) then []
    else
      var k := IndexOf(cfg.alphabet, c);
      if k < 32 then
        Pow2Values();
        ToNatFromNat(k, 5);
        FromNat(k, 5)
      else FromNat(k, 5)
  }

  /** Lines 105-112: the concatenated bit string of a validated text. */
  function SymbolBits(cfg: Config, t: string): (b: Bits)
    ensures |b| == 5 * |Unpadded(cfg, t)|
  {
    if |t| == 0 then [] else CharBits(cfg, t[0]) + SymbolBits(cfg, t[1..])
  }

  /** The text with every padding character removed. */
  function Unpadded(cfg: Config, t: string): (u: string)
    ensures |u| <= |t|
    ensures forall i :: 0 <= i < |u| ==> cfg.padding != Some(u[i])
    ensures AllAccepted(cfg, t) ==> forall i :: 0 <= i < |u| ==> u[i] in cfg.alphabet
  {
    if |t| == 0 then ""
    else (if cfg.padding == Some(t[0]) then "" else [t[0]]) + Unpadded(cfg, t[1..])
  }

  /** The 5-bit indexes of symbols, concatenated. */
  function DigitBits(alphabet: string, u: string): (r: Bits)
    ensures |r| == 5 * |u|
  {
    if |u| == 0 then [] else FromNat(IndexOf(alphabet, u[0]), 5) + DigitBits(alphabet, u[1..])
  }

  /** The symbols read as base-32 digits, most significant first. */
  function DigitsValue(alphabet: string, u: string): nat
  {
    if |u| == 0 then 0
    else 32 * DigitsValue(alphabet, u[..|u| - 1]) + IndexOf(alphabet, u[|u| - 1])
  }

  /** One 8-bit chunk as a byte (`chr(bindec($byte))`). */
  function ByteOf(c: Bits): (b: Byte)
    requires |c| == 8
    ensures b == ToNat(c)
    ensures ByteBits(b) == c
  {
    Pow2Values();
    FromNatToNat(c);
    ToNat(c)
  }

  function ChunkBytes(chunks: seq<Bits>): (r: seq<Byte>)
    requires forall i :: 0 <= i < |chunks| ==> |chunks[i]| == 8
    ensures |r| == |chunks| && forall i :: 0 <= i < |r| ==> r[i] == ToNat(chunks[i])
  {
    seq(|chunks|, i requires 0 <= i < |chunks| => ByteOf(chunks[i]))
  }

  /** Lines 114-125: 8-bit chunks, the incomplete last chunk dropped. Byte i is
      bits 8i..8i+7, and there are floor(|bits| / 8) bytes. */
  function BitsToBytes(bits: Bits): (r: seq<Byte>)
    ensures |r| == |bits| / 8
    ensures forall i :: 0 <= i < |r| ==> 8 * i + 8 <= |bits| && r[i] == ToNat(bits[8 * i .. 8 * i + 8])
  {
    var whole := WholeChunks(bits);
    WholeChunksCount(bits);
    forall i | 0 <= i < |whole|
      ensures 8 * i + 8 <= |bits| && whole[i] == bits[8 * i .. 8 * i + 8]
    {
      WholeChunksWindow(bits, i);
    }
    ChunkBytes(whole)
  }

  /** The complete chunks of `str_split($bits, 8)`. */
  function WholeChunks(bits: Bits): (r: seq<Bits>)
    ensures forall i :: 0 <= i < |r| ==> |r[i]| == 8
    ensures |Split(bits, 8)| - 1 <= |r| <= |Split(bits, 8)| && r == Split(bits, 8)[..|r|]
  {
    var chunks := Split(bits, 8);
    var n := |chunks|;
    if |chunks[n - 1]| == 8 then chunks else chunks[..n - 1]
  }

  /** There are floor(|bits| / 8) complete chunks. */
  lemma WholeChunksCount(bits: Bits)
    ensures |WholeChunks(bits)| == |bits| / 8
  {
    var chunks := Split(bits, 8);
    var n := |chunks|;
    var last := chunks[n - 1];
    SplitCount(bits, 8);
    if |last| == 8 {
      DivEight(n, 0);
    } else {
      DivEight(n - 1, |last|);
    }
  }

  /** Complete chunk i is the 8-bit window at 8i. */
  lemma WholeChunksWindow(bits: Bits, i: nat)
    requires i < |WholeChunks(bits)|
    ensures 8 * i + 8 <= |bits| && WholeChunks(bits)[i] == bits[8 * i .. 8 * i + 8]
  {
    var chunks := Split(bits, 8);
    var n := |chunks|;
    if i < n - 1 {
      SplitChunk(bits, 8, i);
    } else {
      assert i == n - 1 && |chunks[i]| == 8;
      assert 8 * i + 8 == |bits| by {
        SplitCount(bits, 8);
      }
      assert chunks[i] == bits[8 * i..] by {
        SplitLast(bits, 8);
      }
    }
  }

  lemma DivEight(q: nat, r: nat)
    requires r < 8
    ensures (8 * q + r) / 8 == q
  {
  }

  /** `PhpEncoder::decode` (PhpEncoder.php:83-126). PHP-empty text gives no bytes;
      otherwise it fails exactly when a (normalised) character is neither a symbol
      nor the padding character, and on success byte i is bits 8i..8i+7 of the
      symbols' bit string, an incomplete last byte dropped. */
  function Decode(cfg: Config, s: string): (r: Result<seq<Byte>>)
    requires cfg.Valid()
    ensures PhpEmpty(s) ==> r == Success([])
    ensures !PhpEmpty(s) ==> (r.Success? <==> AllAccepted(cfg, Prepare(cfg, s)))
    ensures r.Failure? ==> r.error == InvalidCharacters
    ensures !PhpEmpty(s) && r.Success? ==>
      var bits := SymbolBits(cfg, Prepare(cfg, s));
      && |r.value| == |bits| / 8
      && forall i :: 0 <= i < |r.value| ==> 8 * i + 8 <= |bits| && r.value[i] == ToNat(bits[8 * i .. 8 * i + 8])
  {
    if PhpEmpty(s) then Success([]) else DecodeText(cfg, s)
  }

  /** Lines 89-125, what `decode` does past the `empty()` check. */
  function DecodeText(cfg: Config, s: string): (r: Result<seq<Byte>>)
    requires cfg.Valid()
    ensures r.Success? <==> AllAccepted(cfg, Prepare(cfg, s))
    ensures r.Failure? ==> r.error == InvalidCharacters
    ensures r.Success? ==>
      var bits := SymbolBits(cfg, Prepare(cfg, s));
      && |r.value| == |bits| / 8
      && forall i :: 0 <= i < |r.value| ==> 8 * i + 8 <= |bits| && r.value[i] == ToNat(bits[8 * i .. 8 * i + 8])
  {
    var t := Prepare(cfg, s);
    if !AllAccepted(cfg, t) then
      Failure(InvalidCharacters)
    else
      Success(BitsToBytes(SymbolBits(cfg, t)))
  }

  // ---------------------------------------------------------------------------
  // Integers
  // ---------------------------------------------------------------------------

  /** Lines 134-138: `decbin(n)` left-filled with zeros to a multiple of 5 bits. */
  function IntegerBits(n: nat): (r: Bits)
    ensures |r| == 5 * CeilDiv(|Minimal(n)|, 5) && |r| > 0
    ensures r == Zeros(|r| - |Minimal(n)|) + Minimal(n)
    ensures ToNat(r) == n
  {
    var bits := Minimal(n);
    RoundUpFive(|bits|);
    ToNatLeadingZeros(5 * CeilDiv(|bits|, 5) - |bits|, bits);
    if |bits| % 5 != 0 then PadLeft(bits, |bits| + (5 - |bits| % 5)) else bits
  }

  /** `PhpEncoder::encodeInteger` (PhpEncoder.php:131-162) for 0 <= n <= PHP_INT_MAX:
      the symbols spell n in base 32 with no leading zero digit (one digit for
      zero), followed by the padding rule. */
  function EncodeInteger(cfg: Config, n: nat): (r: string)
    requires cfg.Valid() && n <= PHP_INT_MAX
    ensures var g := CeilDiv(|Minimal(n)|, 5);
      && g <= |r|
      && (forall i :: 0 <= i < g ==> r[i] in cfg.alphabet)
      && DigitsValue(cfg.alphabet, r[..g]) == n
      && (n > 0 ==> r[0] != cfg.alphabet[0])
      && PaddedTo(cfg, g, r)
  {
    var body := IntegerDigits(cfg, n);
    AddPadding(cfg, body)
  }

  /** Lines 134-154: the symbols of the zero-filled numeral's 5-bit groups; the
      right-fill of the last group never applies, as every group is whole. */
  function IntegerDigits(cfg: Config, n: nat): (body: string)
    requires cfg.Valid()
    ensures |body| == CeilDiv(|Minimal(n)|, 5)
    ensures forall i :: 0 <= i < |body| ==> body[i] in cfg.alphabet
    ensures DigitsValue(cfg.alphabet, body) == n
    ensures n > 0 ==> body[0] != cfg.alphabet[0]
  {
    var padded := IntegerBits(n);
    var chunks := Split(padded, 5);
    IntegerChunks(n);
    var last, kept := chunks[|chunks| - 1], chunks[..|chunks| - 1];
    var groups := if !PhpEmptyBits(last) then PadLastRight(chunks, 5) else kept;
    PadLastWhole(chunks, 5);
    var body := Symbols(cfg.alphabet, groups);
    IntegerSymbols(cfg, n, groups, body);
    body
  }

  /** Right-filling a last chunk that is already whole changes nothing. */
  lemma PadLastWhole(chunks: seq<Bits>, k: nat)
    requires |chunks| > 0 && forall i :: 0 <= i < |chunks| ==> |chunks[i]| == k
    ensures PadLastRight(chunks, k) == chunks
  {
    assert PadRight(chunks[|chunks| - 1], k) == chunks[|chunks| - 1];
  }

  /** The zero-filled numeral splits into CeilDiv(|decbin(n)|, 5) whole 5-bit groups. */
  lemma IntegerChunks(n: nat)
    ensures var chunks := Split(IntegerBits(n), 5);
      && |chunks| == CeilDiv(|Minimal(n)|, 5)
      && (forall i :: 0 <= i < |chunks| ==> |chunks[i]| == 5)
      && Flatten(chunks) == IntegerBits(n)
  {
    var padded := IntegerBits(n);
    FiveBitGroups(padded);
    SplitFlatten(padded, 5);
  }

  /** The symbols of `encodeInteger`, before padding, are the base-32 numeral. */
  lemma IntegerSymbols(cfg: Config, n: nat, groups: seq<Bits>, body: string)
    requires cfg.Valid()
    requires forall i :: 0 <= i < |groups| ==> |groups[i]| == 5
    requires Flatten(groups) == IntegerBits(n) && |groups| > 0
    requires body == Symbols(cfg.alphabet, groups)
    ensures forall i :: 0 <= i < |body| ==> body[i] in cfg.alphabet
    ensures DigitsValue(cfg.alphabet, body) == n
    ensures n > 0 ==> body[0] != cfg.alphabet[0]
  {
    DigitBitsOfSymbols(cfg.alphabet, groups);
    DigitBitsValue(cfg.alphabet, body);
    if n > 0 {
      IntegerLeadingGroup(n, groups);
      assert body[0] == cfg.alphabet[ToNat(groups[0])];
    }
  }

  /** The first 5-bit group of a positive integer holds its leading one bit, so the
      first digit is not the zero digit. */
  lemma IntegerLeadingGroup(n: nat, groups: seq<Bits>)
    requires n > 0 && |groups| > 0 && |groups[0]| == 5
    requires Flatten(groups) == IntegerBits(n)
    ensures 0 < ToNat(groups[0]) < 32
  {
    var m := Minimal(n);
    var padded := IntegerBits(n);
    var p := |padded| - |m|;
    assert padded == Zeros(p) + m;
    assert p < 5;
    assert groups[0] == padded[..5] by {
      assert groups[0] + Flatten(groups[1..]) == padded;
    }
    assert groups[0][p] == m[0];
    ToNatBitSet(groups[0], p);
    Pow2Values();
  }

  /** A bit string with some bit set has a positive value. */
  lemma {:induction false} ToNatBitSet(b: Bits, j: nat)
    requires j < |b| && b[j]
    ensures ToNat(b) > 0
  {
    var p := b[..|b| - 1];
    if j < |b| - 1 {
      ToNatBitSet(p, j);
    }
  }

  /** `PhpEncoder::decodeInteger` (PhpEncoder.php:167-201): PHP-empty text throws;
      otherwise it fails exactly when a (normalised) character is neither a symbol
      nor the padding character, and on success reads every symbol, padding
      skipped, as a base-32 digit with no bit dropped. */
  function DecodeInteger(cfg: Config, s: string): (r: Result<nat>)
    requires cfg.Valid()
    ensures PhpEmpty(s) ==> r == Failure(EmptyInput)
    ensures !PhpEmpty(s) ==> (r.Success? <==> AllAccepted(cfg, Prepare(cfg, s)))
    ensures !PhpEmpty(s) && r.Failure? ==> r.error == InvalidCharacters
    ensures r.Success? ==> r.value == DigitsValue(cfg.alphabet, Unpadded(cfg, Prepare(cfg, s)))
  {
    if PhpEmpty(s) then Failure(EmptyInput) else ReadInteger(cfg, s)
  }

  /** Lines 175-200, what `decodeInteger` does past the `empty()` check. */
  function ReadInteger(cfg: Config, s: string): (r: Result<nat>)
    requires cfg.Valid()
    ensures r.Success? <==> AllAccepted(cfg, Prepare(cfg, s))
    ensures r.Failure? ==> r.error == InvalidCharacters
    ensures r.Success? ==> r.value == DigitsValue(cfg.alphabet, Unpadded(cfg, Prepare(cfg, s)))
  {
    var t := Prepare(cfg, s);
    if !AllAccepted(cfg, t) then
      Failure(InvalidCharacters)
    else
      SymbolBitsSkipPadding(cfg, t);
      DigitBitsValue(cfg.alphabet, Unpadded(cfg, t));
      Success(ToNat(SymbolBits(cfg, t)))
  }

  // ---------------------------------------------------------------------------
  // Lemmas about the pieces
  // ---------------------------------------------------------------------------

  /** The decoder's bit string is the symbols' indexes with every padding
      character skipped, wherever it stands. */
  lemma {:induction false} SymbolBitsSkipPadding(cfg: Config, t: string)
    ensures SymbolBits(cfg, t) == DigitBits(cfg.alphabet, Unpadded(cfg, t))
  {
    if |t| > 0 {
      SymbolBitsSkipPadding(cfg, t[1..]);
      var rest := Unpadded(cfg, t[1..]);
      if cfg.padding == Some(t[0]) {
        assert Unpadded(cfg, t) == rest;
        assert SymbolBits(cfg, t) == SymbolBits(cfg, t[1..]);
      } else {
        var u := [t[0]] + rest;
        assert Unpadded(cfg, t) == u;
        assert u[1..] == rest;
        assert DigitBits(cfg.alphabet, u) == FromNat(IndexOf(cfg.alphabet, t[0]), 5) + DigitBits(cfg.alphabet, rest);
      }
    }
  }

  lemma {:induction false} DigitBitsAppend(alphabet: string, a: string, b: string)
    ensures DigitBits(alphabet, a + b) == DigitBits(alphabet, a) + DigitBits(alphabet, b)
  {
    if |a| > 0 {
      assert (a + b)[1..] == a[1..] + b;
      DigitBitsAppend(alphabet, a[1..], b);
    } else {
      assert a + b == b;
    }
  }

  /** Reading the index bits as one binary number is reading the symbols as
      base-32 digits. */
  lemma {:induction false} DigitBitsValue(alphabet: string, u: string)
    requires |alphabet| == 32
    requires forall i :: 0 <= i < |u| ==> u[i] in alphabet
    ensures ToNat(DigitBits(alphabet, u)) == DigitsValue(alphabet, u)
  {
    if |u| > 0 {
      var n := |u| - 1;
      var c := u[n];
      var idx := IndexOf(alphabet, c);
      var front := DigitBits(alphabet, u[..n]);
      var last := FromNat(idx, 5);
      assert DigitBits(alphabet, u) == front + last by {
        assert u == u[..n] + [c];
        DigitBitsAppend(alphabet, u[..n], [c]);
        assert DigitBits(alphabet, [c]) == last + DigitBits(alphabet, []);
      }
      assert ToNat(front + last) == ToNat(front) * 32 + idx by {
        ToNatAppend(front, last);
        Pow2Values();
        ToNatFromNat(idx, 5);
      }
      DigitBitsValue(alphabet, u[..n]);
    }
  }

  /** Decoding the symbols of 5-bit groups gives the groups back. */
  lemma {:induction false} DigitBitsOfSymbols(alphabet: string, groups: seq<Bits>)
    requires |alphabet| == 32 && Distinct(alphabet)
    requires forall i :: 0 <= i < |groups| ==> |groups[i]| == 5
    ensures DigitBits(alphabet, Symbols(alphabet, groups)) == Flatten(groups)
  {
    if |groups| > 0 {
      var s := Symbols(alphabet, groups);
      var v := ToNat(groups[0]);
      assert v < 32 by {
        Pow2Values();
      }
      assert s[1..] == Symbols(alphabet, groups[1..]);
      IndexOfDistinct(alphabet, v);
      FromNatToNat(groups[0]);
      DigitBitsOfSymbols(alphabet, groups[1..]);
    }
  }

  lemma {:induction false} UnpaddedAppend(cfg: Config, a: string, b: string)
    ensures Unpadded(cfg, a + b) == Unpadded(cfg, a) + Unpadded(cfg, b)
  {
    if |a| > 0 {
      assert (a + b)[1..] == a[1..] + b;
      UnpaddedAppend(cfg, a[1..], b);
    } else {
      assert a + b == b;
    }
  }

  lemma {:induction false} SymbolBitsAppend(cfg: Config, a: string, b: string)
    ensures SymbolBits(cfg, a + b) == SymbolBits(cfg, a) + SymbolBits(cfg, b)
  {
    if |a| > 0 {
      assert (a + b)[1..] == a[1..] + b;
      SymbolBitsAppend(cfg, a[1..], b);
    } else {
      assert a + b == b;
    }
  }

  lemma {:induction false} NormalizeAppend(a: string, b: string)
    ensures Normalize(a + b) == Normalize(a) + Normalize(b)
  {
    if |a| > 0 {
      assert (a + b)[1..] == a[1..] + b;
      NormalizeAppend(a[1..], b);
    } else {
      assert a + b == b;
    }
  }

  /** Normalisation leaves a string of stable characters unchanged. */
  lemma {:induction false} NormalizeStable(s: string)
    requires forall i :: 0 <= i < |s| ==> Stable(s[i])
    ensures Normalize(s) == s
  {
    if |s| > 0 {
      NormalizeStable(s[1..]);
    }
  }

  /** Crockford normalisation is idempotent. */
  lemma NormalizeIdempotent(s: string)
    ensures Normalize(Normalize(s)) == Normalize(s)
  {
    NormalizeStable(Normalize(s));
  }

  /** Each non-padding symbol contributes 5 bits, so decode emits floor(5k/8)
      bytes for k non-padding symbols. */
  lemma DecodeLength(cfg: Config, s: string)
    requires cfg.Valid() && !PhpEmpty(s) && Decode(cfg, s).Success?
    ensures |Decode(cfg, s).value| == 5 * |Unpadded(cfg, Prepare(cfg, s))| / 8
  {
    SymbolBitsSkipPadding(cfg, Prepare(cfg, s));
  }

  /** Decode accepts a padding character anywhere and ignores it. */
  lemma DecodeIgnoresPadding(cfg: Config, s: string, j: nat, p: char)
    requires cfg.Valid() && !PhpEmpty(s) && j <= |s|
    requires cfg.padding == Some(p) && (cfg.crockford ==> Stable(p))
    ensures Decode(cfg, s[..j] + [p] + s[j..]) == Decode(cfg, s)
  {
    var a, b := s[..j], s[j..];
    assert s == a + b;
    PrepareInsert(cfg, a, b, p);
    var ta, tb := Prepare(cfg, a), Prepare(cfg, b);
    AcceptedInsert(cfg, ta, tb, p);
    SymbolBitsInsert(cfg, ta, tb, p);
    DecodeSamePrepared(cfg, a + [p] + b, s);
  }

  lemma PrepareInsert(cfg: Config, a: string, b: string, p: char)
    requires cfg.crockford ==> Stable(p)
    ensures Prepare(cfg, a + b) == Prepare(cfg, a) + Prepare(cfg, b)
    ensures Prepare(cfg, a + [p] + b) == Prepare(cfg, a) + [p] + Prepare(cfg, b)
  {
    assert Prepare(cfg, [p]) == [p] by {
      if cfg.crockford {
        assert Normalize([p]) == NormalizeChar(p) + Normalize([]);
      }
    }
    PrepareAppend(cfg, a, b);
    PrepareAppend(cfg, a, [p]);
    PrepareAppend(cfg, a + [p], b);
  }

  lemma AcceptedInsert(cfg: Config, x: string, y: string, p: char)
    requires cfg.padding == Some(p)
    ensures AllAccepted(cfg, x + [p] + y) <==> AllAccepted(cfg, x + y)
  {
    assert AllAccepted(cfg, [p]);
    AllAcceptedAppend(cfg, x, y);
    AllAcceptedAppend(cfg, x, [p]);
    AllAcceptedAppend(cfg, x + [p], y);
  }

  lemma SymbolBitsInsert(cfg: Config, x: string, y: string, p: char)
    requires cfg.padding == Some(p)
    ensures SymbolBits(cfg, x + [p] + y) == SymbolBits(cfg, x + y)
  {
    assert SymbolBits(cfg, x + [p]) == SymbolBits(cfg, x) by {
      SymbolBitsAppend(cfg, x, [p]);
      assert SymbolBits(cfg, [p]) == CharBits(cfg, p) + SymbolBits(cfg, []);
      assert SymbolBits(cfg, x) + [] == SymbolBits(cfg, x);
    }
    SymbolBitsAppend(cfg, x + [p], y);
    SymbolBitsAppend(cfg, x, y);
  }

  /** Two non-empty texts whose prepared forms are accepted alike and carry the
      same bits decode alike. */
  lemma DecodeSamePrepared(cfg: Config, s1: string, s2: string)
    requires cfg.Valid() && !PhpEmpty(s1) && !PhpEmpty(s2)
    requires AllAccepted(cfg, Prepare(cfg, s1)) <==> AllAccepted(cfg, Prepare(cfg, s2))
    requires SymbolBits(cfg, Prepare(cfg, s1)) == SymbolBits(cfg, Prepare(cfg, s2))
    ensures Decode(cfg, s1) == Decode(cfg, s2)
  {
  }

  lemma PrepareAppend(cfg: Config, a: string, b: string)
    ensures Prepare(cfg, a + b) == Prepare(cfg, a) + Prepare(cfg, b)
  {
    if cfg.crockford {
      NormalizeAppend(a, b);
    }
  }

  lemma AllAcceptedAppend(cfg: Config, x: string, y: string)
    ensures AllAccepted(cfg, x + y) <==> AllAccepted(cfg, x) && AllAccepted(cfg, y)
  {
    var z := x + y;
    if AllAccepted(cfg, z) {
      forall i | 0 <= i < |y| ensures Accepted(cfg, y[i]) {
        assert z[|x| + i] == y[i];
      }
      forall i | 0 <= i < |x| ensures Accepted(cfg, x[i]) {
        assert z[i] == x[i];
      }
    }
  }
}
