/** Test vectors of the repository's test suite and of section 10 of RFC 4648,
    proved on the model. Byte strings are written as their byte values. */
module Vectors {
  import opened Results
  import opened Bytes
  import opened Config
  import opened Codec
  import opened RoundTrip
  import opened Arithmetic
  import Gmp

  /** The default configuration pads its output and round-trips. */
  lemma DefaultReversible()
    ensures Reversible(Default())
  {
    assert forall i :: 0 <= i < 32 ==> RFC4648[i] != '=';
  }

  /** The Crockford configuration of the test suite: Crockford character set,
      no padding, normalisation on. */
  function CrockfordConfig(): (cfg: Config)
    ensures cfg.Valid() && !cfg.PadsOutput() && cfg.crockford
  {
    PresetsAreValid();
    Config(CROCKFORD, None, true)
  }

  /** Normalisation leaves every Crockford symbol as it is. */
  lemma CrockfordReversible()
    ensures Reversible(CrockfordConfig())
  {
    forall i | 0 <= i < 32
      ensures Stable(CROCKFORD[i])
    {
      var c := CROCKFORD[i];
      assert '0' <= c <= 'Z' && c != 'O' && c != 'L' && c != 'I';
    }
  }

  /** Section 10 of RFC 4648: "f". */
  lemma EncodeF(data: seq<Byte>)
    requires data == [102]
    ensures Encode(Default(), data) == "MY======"
    ensures Gmp.Encode(Default(), data) == "MY======"
    ensures Decode(Default(), "MY======") == Success(data)
  {
    SymbolFromBytes(data, 0, 0, 0, 102, 0);
    SymbolFromBytes(data, 1, 0, 5, 102, 0);
    EncodeFSpelled(data, "MY======");
    EncodeFText(data, "MY======");
    DefaultReversible();
    EncodeDecode(Default(), data);
  }

  lemma EncodeFSpelled(data: seq<Byte>, t: string)
    requires |data| == 1 && t == "MY======"
    requires SymbolValue(data, 0) == 12 && SymbolValue(data, 1) == 24
    ensures Spells(RFC4648, data, t, 0, 2)
    ensures forall i :: 2 <= i < |t| ==> t[i] == '='
  {
    EncodeFChars0(t);
    EncodeFSpells0(data, t);
    EncodeFPadding(t);
  }

  lemma EncodeFChars0(t: string)
    requires t == "MY======"
    ensures |t| == 8 && t[0] == 'M' && t[1] == 'Y'
  {
  }

  lemma EncodeFPadding(t: string)
    requires t == "MY======"
    ensures forall i :: 2 <= i < |t| ==> t[i] == '='
  {
  }

  lemma EncodeFSpells0(data: seq<Byte>, t: string)
    requires |data| == 1 && |t| == 8
    requires t[0] == 'M' && t[1] == 'Y'
    requires SymbolValue(data, 0) == 12 && SymbolValue(data, 1) == 24
    ensures Spells(RFC4648, data, t, 0, 2)
  {
    assert Spells(RFC4648, data, t, 1, 2);
  }

  lemma EncodeFText(data: seq<Byte>, t: string)
    requires |data| == 1 && |t| == 8
    requires Spells(RFC4648, data, t, 0, 2)
    requires forall i :: 2 <= i < |t| ==> t[i] == '='
    ensures EncodeText(Default(), data) == t
  {
    assert Default().alphabet == RFC4648 && CeilDiv(8 * |data|, 5) == 2;
    assert PaddedTo(Default(), 2, t);
    SpelledText(Default(), data, t, 2);
  }

  /** Section 10 of RFC 4648: "fo". */
  lemma EncodeFo(data: seq<Byte>)
    requires data == [102, 111]
    ensures Encode(Default(), data) == "MZXQ===="
    ensures Gmp.Encode(Default(), data) == "MZXQ===="
    ensures Decode(Default(), "MZXQ====") == Success(data)
  {
    SymbolFromBytes(data, 0, 0, 0, 102, 111);
    SymbolFromBytes(data, 1, 0, 5, 102, 111);
    SymbolFromBytes(data, 2, 1, 2, 111, 0);
    SymbolFromBytes(data, 3, 1, 7, 111, 0);
    EncodeFoSpelled(data, "MZXQ====");
    EncodeFoText(data, "MZXQ====");
    DefaultReversible();
    EncodeDecode(Default(), data);
  }

  lemma EncodeFoSpelled(data: seq<Byte>, t: string)
    requires |data| == 2 && t == "MZXQ===="
    requires SymbolValue(data, 0) == 12 && SymbolValue(data, 1) == 25 && SymbolValue(data, 2) == 23 && SymbolValue(data, 3) == 16
    ensures Spells(RFC4648, data, t, 0, 4)
    ensures forall i :: 4 <= i < |t| ==> t[i] == '='
  {
    EncodeFoChars2(t);
    EncodeFoSpells2(data, t);
    EncodeFoChars0(t);
    EncodeFoSpells0(data, t);
    EncodeFoPadding(t);
  }

  lemma EncodeFoChars0(t: string)
    requires t == "MZXQ===="
    ensures |t| == 8 && t[0] == 'M' && t[1] == 'Z'
  {
  }

  lemma EncodeFoChars2(t: string)
    requires t == "MZXQ===="
    ensures |t| == 8 && t[2] == 'X' && t[3] == 'Q'
  {
  }

  lemma EncodeFoPadding(t: string)
    requires t == "MZXQ===="
    ensures forall i :: 4 <= i < |t| ==> t[i] == '='
  {
  }

  lemma EncodeFoSpells0(data: seq<Byte>, t: string)
    requires |data| == 2 && |t| == 8
    requires t[0] == 'M' && t[1] == 'Z'
    requires SymbolValue(data, 0) == 12 && SymbolValue(data, 1) == 25
    requires Spells(RFC4648, data, t, 2, 4)
    ensures Spells(RFC4648, data, t, 0, 4)
  {
    assert Spells(RFC4648, data, t, 1, 4);
  }

  lemma EncodeFoSpells2(data: seq<Byte>, t: string)
    requires |data| == 2 && |t| == 8
    requires t[2] == 'X' && t[3] == 'Q'
    requires SymbolValue(data, 2) == 23 && SymbolValue(data, 3) == 16
    ensures Spells(RFC4648, data, t, 2, 4)
  {
    assert Spells(RFC4648, data, t, 3, 4);
  }

  lemma EncodeFoText(data: seq<Byte>, t: string)
    requires |data| == 2 && |t| == 8
    requires Spells(RFC4648, data, t, 0, 4)
    requires forall i :: 4 <= i < |t| ==> t[i] == '='
    ensures EncodeText(Default(), data) == t
  {
    assert Default().alphabet == RFC4648 && CeilDiv(8 * |data|, 5) == 4;
    assert PaddedTo(Default(), 4, t);
    SpelledText(Default(), data, t, 4);
  }

  /** Section 10 of RFC 4648: "foo". */
  lemma EncodeFoo(data: seq<Byte>)
    requires data == [102, 111, 111]
    ensures Encode(Default(), data) == "MZXW6==="
    ensures Gmp.Encode(Default(), data) == "MZXW6==="
    ensures Decode(Default(), "MZXW6===") == Success(data)
  {
    EncodeFooFields0(data);
    EncodeFooFields1(data);
    EncodeFooSpelled(data, "MZXW6===");
    EncodeFooText(data, "MZXW6===");
    DefaultReversible();
    EncodeDecode(Default(), data);
  }

  lemma EncodeFooFields0(data: seq<Byte>)
    requires data == [102, 111, 111]
    ensures SymbolValue(data, 0) == 12 && SymbolValue(data, 1) == 25 && SymbolValue(data, 2) == 23 && SymbolValue(data, 3) == 22
  {
    SymbolFromBytes(data, 0, 0, 0, 102, 111);
    SymbolFromBytes(data, 1, 0, 5, 102, 111);
    SymbolFromBytes(data, 2, 1, 2, 111, 111);
    SymbolFromBytes(data, 3, 1, 7, 111, 111);
  }

  lemma EncodeFooFields1(data: seq<Byte>)
    requires data == [102, 111, 111]
    ensures SymbolValue(data, 4) == 30
  {
    SymbolFromBytes(data, 4, 2, 4, 111, 0);
  }

  lemma EncodeFooSpelled(data: seq<Byte>, t: string)
    requires |data| == 3 && t == "MZXW6==="
    requires SymbolValue(data, 0) == 12 && SymbolValue(data, 1) == 25 && SymbolValue(data, 2) == 23 && SymbolValue(data, 3) == 22
    requires SymbolValue(data, 4) == 30
    ensures Spells(RFC4648, data, t, 0, 5)
    ensures forall i :: 5 <= i < |t| ==> t[i] == '='
  {
    EncodeFooChars4(t);
    EncodeFooSpells4(data, t);
    EncodeFooChars2(t);
    EncodeFooSpells2(data, t);
    EncodeFooChars0(t);
    EncodeFooSpells0(data, t);
    EncodeFooPadding(t);
  }

  lemma EncodeFooChars0(t: string)
    requires t == "MZXW6==="
    ensures |t| == 8 && t[0] == 'M' && t[1] == 'Z'
  {
  }

  lemma EncodeFooChars2(t: string)
    requires t == "MZXW6==="
    ensures |t| == 8 && t[2] == 'X' && t[3] == 'W'
  {
  }

  lemma EncodeFooChars4(t: string)
    requires t == "MZXW6==="
    ensures |t| == 8 && t[4] == '6'
  {
  }

  lemma EncodeFooPadding(t: string)
    requires t == "MZXW6==="
    ensures forall i :: 5 <= i < |t| ==> t[i] == '='
  {
  }

  lemma EncodeFooSpells0(data: seq<Byte>, t: string)
    requires |data| == 3 && |t| == 8
    requires t[0] == 'M' && t[1] == 'Z'
    requires SymbolValue(data, 0) == 12 && SymbolValue(data, 1) == 25
    requires Spells(RFC4648, data, t, 2, 5)
    ensures Spells(RFC4648, data, t, 0, 5)
  {
    assert Spells(RFC4648, data, t, 1, 5);
  }

  lemma EncodeFooSpells2(data: seq<Byte>, t: string)
    requires |data| == 3 && |t| == 8
    requires t[2] == 'X' && t[3] == 'W'
    requires SymbolValue(data, 2) == 23 && SymbolValue(data, 3) == 22
    requires Spells(RFC4648, data, t, 4, 5)
    ensures Spells(RFC4648, data, t, 2, 5)
  {
    assert Spells(RFC4648, data, t, 3, 5);
  }

  lemma EncodeFooSpells4(data: seq<Byte>, t: string)
    requires |data| == 3 && |t| == 8
    requires t[4] == '6'
    requires SymbolValue(data, 4) == 30
    ensures Spells(RFC4648, data, t, 4, 5)
  {
  }

  lemma EncodeFooText(data: seq<Byte>, t: string)
    requires |data| == 3 && |t| == 8
    requires Spells(RFC4648, data, t, 0, 5)
    requires forall i :: 5 <= i < |t| ==> t[i] == '='
    ensures EncodeText(Default(), data) == t
  {
    assert Default().alphabet == RFC4648 && CeilDiv(8 * |data|, 5) == 5;
    assert PaddedTo(Default(), 5, t);
    SpelledText(Default(), data, t, 5);
  }

  /** Section 10 of RFC 4648: "foob". */
  lemma EncodeFoob(data: seq<Byte>)
    requires data == [102, 111, 111, 98]
    ensures Encode(Default(), data) == "MZXW6YQ="
    ensures Gmp.Encode(Default(), data) == "MZXW6YQ="
    ensures Decode(Default(), "MZXW6YQ=") == Success(data)
  {
    EncodeFoobFields0(data);
    EncodeFoobFields1(data);
    EncodeFoobSpelled(data, "MZXW6YQ=");
    EncodeFoobText(data, "MZXW6YQ=");
    DefaultReversible();
    EncodeDecode(Default(), data);
  }

  lemma EncodeFoobFields0(data: seq<Byte>)
    requires data == [102, 111, 111, 98]
    ensures SymbolValue(data, 0) == 12 && SymbolValue(data, 1) == 25 && SymbolValue(data, 2) == 23 && SymbolValue(data, 3) == 22
  {
    SymbolFromBytes(data, 0, 0, 0, 102, 111);
    SymbolFromBytes(data, 1, 0, 5, 102, 111);
    SymbolFromBytes(data, 2, 1, 2, 111, 111);
    SymbolFromBytes(data, 3, 1, 7, 111, 111);
  }

  lemma EncodeFoobFields1(data: seq<Byte>)
    requires data == [102, 111, 111, 98]
    ensures SymbolValue(data, 4) == 30 && SymbolValue(data, 5) == 24 && SymbolValue(data, 6) == 16
  {
    SymbolFromBytes(data, 4, 2, 4, 111, 98);
    SymbolFromBytes(data, 5, 3, 1, 98, 0);
    SymbolFromBytes(data, 6, 3, 6, 98, 0);
  }

  lemma EncodeFoobSpelled(data: seq<Byte>, t: string)
    requires |data| == 4 && t == "MZXW6YQ="
    requires SymbolValue(data, 0) == 12 && SymbolValue(data, 1) == 25 && SymbolValue(data, 2) == 23 && SymbolValue(data, 3) == 22
    requires SymbolValue(data, 4) == 30 && SymbolValue(data, 5) == 24 && SymbolValue(data, 6) == 16
    ensures Spells(RFC4648, data, t, 0, 7)
    ensures forall i :: 7 <= i < |t| ==> t[i] == '='
  {
    EncodeFoobChars6(t);
    EncodeFoobSpells6(data, t);
    EncodeFoobChars4(t);
    EncodeFoobSpells4(data, t);
    EncodeFoobChars2(t);
    EncodeFoobSpells2(data, t);
    EncodeFoobChars0(t);
    EncodeFoobSpells0(data, t);
    EncodeFoobPadding(t);
  }

  lemma EncodeFoobChars0(t: string)
    requires t == "MZXW6YQ="
    ensures |t| == 8 && t[0] == 'M' && t[1] == 'Z'
  {
  }

  lemma EncodeFoobChars2(t: string)
    requires t == "MZXW6YQ="
    ensures |t| == 8 && t[2] == 'X' && t[3] == 'W'
  {
  }

  lemma EncodeFoobChars4(t: string)
    requires t == "MZXW6YQ="
    ensures |t| == 8 && t[4] == '6' && t[5] == 'Y'
  {
  }

  lemma EncodeFoobChars6(t: string)
    requires t == "MZXW6YQ="
    ensures |t| == 8 && t[6] == 'Q'
  {
  }

  lemma EncodeFoobPadding(t: string)
    requires t == "MZXW6YQ="
    ensures forall i :: 7 <= i < |t| ==> t[i] == '='
  {
  }

  lemma EncodeFoobSpells0(data: seq<Byte>, t: string)
    requires |data| == 4 && |t| == 8
    requires t[0] == 'M' && t[1] == 'Z'
    requires SymbolValue(data, 0) == 12 && SymbolValue(data, 1) == 25
    requires Spells(RFC4648, data, t, 2, 7)
    ensures Spells(RFC4648, data, t, 0, 7)
  {
    assert Spells(RFC4648, data, t, 1, 7);
  }

  lemma EncodeFoobSpells2(data: seq<Byte>, t: string)
    requires |data| == 4 && |t| == 8
    requires t[2] == 'X' && t[3] == 'W'
    requires SymbolValue(data, 2) == 23 && SymbolValue(data, 3) == 22
    requires Spells(RFC4648, data, t, 4, 7)
    ensures Spells(RFC4648, data, t, 2, 7)
  {
    assert Spells(RFC4648, data, t, 3, 7);
  }

  lemma EncodeFoobSpells4(data: seq<Byte>, t: string)
    requires |data| == 4 && |t| == 8
    requires t[4] == '6' && t[5] == 'Y'
    requires SymbolValue(data, 4) == 30 && SymbolValue(data, 5) == 24
    requires Spells(RFC4648, data, t, 6, 7)
    ensures Spells(RFC4648, data, t, 4, 7)
  {
    assert Spells(RFC4648, data, t, 5, 7);
  }

  lemma EncodeFoobSpells6(data: seq<Byte>, t: string)
    requires |data| == 4 && |t| == 8
    requires t[6] == 'Q'
    requires SymbolValue(data, 6) == 16
    ensures Spells(RFC4648, data, t, 6, 7)
  {
  }

  lemma EncodeFoobText(data: seq<Byte>, t: string)
    requires |data| == 4 && |t| == 8
    requires Spells(RFC4648, data, t, 0, 7)
    requires forall i :: 7 <= i < |t| ==> t[i] == '='
    ensures EncodeText(Default(), data) == t
  {
    assert Default().alphabet == RFC4648 && CeilDiv(8 * |data|, 5) == 7;
    assert PaddedTo(Default(), 7, t);
    SpelledText(Default(), data, t, 7);
  }

  /** Section 10 of RFC 4648: "fooba". */
  lemma EncodeFooba(data: seq<Byte>)
    requires data == [102, 111, 111, 98, 97]
    ensures Encode(Default(), data) == "MZXW6YTB"
    ensures Gmp.Encode(Default(), data) == "MZXW6YTB"
    ensures Decode(Default(), "MZXW6YTB") == Success(data)
  {
    EncodeFoobaFields0(data);
    EncodeFoobaFields1(data);
    EncodeFoobaSpelled(data, "MZXW6YTB");
    EncodeFoobaText(data, "MZXW6YTB");
    DefaultReversible();
    EncodeDecode(Default(), data);
  }

  lemma EncodeFoobaFields0(data: seq<Byte>)
    requires data == [102, 111, 111, 98, 97]
    ensures SymbolValue(data, 0) == 12 && SymbolValue(data, 1) == 25 && SymbolValue(data, 2) == 23 && SymbolValue(data, 3) == 22
  {
    SymbolFromBytes(data, 0, 0, 0, 102, 111);
    SymbolFromBytes(data, 1, 0, 5, 102, 111);
    SymbolFromBytes(data, 2, 1, 2, 111, 111);
    SymbolFromBytes(data, 3, 1, 7, 111, 111);
  }

  lemma EncodeFoobaFields1(data: seq<Byte>)
    requires data == [102, 111, 111, 98, 97]
    ensures SymbolValue(data, 4) == 30 && SymbolValue(data, 5) == 24 && SymbolValue(data, 6) == 19 && SymbolValue(data, 7) == 1
  {
    SymbolFromBytes(data, 4, 2, 4, 111, 98);
    SymbolFromBytes(data, 5, 3, 1, 98, 97);
    SymbolFromBytes(data, 6, 3, 6, 98, 97);
    SymbolFromBytes(data, 7, 4, 3, 97, 0);
  }

  lemma EncodeFoobaSpelled(data: seq<Byte>, t: string)
    requires |data| == 5 && t == "MZXW6YTB"
    requires SymbolValue(data, 0) == 12 && SymbolValue(data, 1) == 25 && SymbolValue(data, 2) == 23 && SymbolValue(data, 3) == 22
    requires SymbolValue(data, 4) == 30 && SymbolValue(data, 5) == 24 && SymbolValue(data, 6) == 19 && SymbolValue(data, 7) == 1
    ensures Spells(RFC4648, data, t, 0, 8)
  {
    EncodeFoobaChars6(t);
    EncodeFoobaSpells6(data, t);
    EncodeFoobaChars4(t);
    EncodeFoobaSpells4(data, t);
    EncodeFoobaChars2(t);
    EncodeFoobaSpells2(data, t);
    EncodeFoobaChars0(t);
    EncodeFoobaSpells0(data, t);
  }

  lemma EncodeFoobaChars0(t: string)
    requires t == "MZXW6YTB"
    ensures |t| == 8 && t[0] == 'M' && t[1] == 'Z'
  {
  }

  lemma EncodeFoobaChars2(t: string)
    requires t == "MZXW6YTB"
    ensures |t| == 8 && t[2] == 'X' && t[3] == 'W'
  {
  }

  lemma EncodeFoobaChars4(t: string)
    requires t == "MZXW6YTB"
    ensures |t| == 8 && t[4] == '6' && t[5] == 'Y'
  {
  }

  lemma EncodeFoobaChars6(t: string)
    requires t == "MZXW6YTB"
    ensures |t| == 8 && t[6] == 'T' && t[7] == 'B'
  {
  }

  lemma EncodeFoobaSpells0(data: seq<Byte>, t: string)
    requires |data| == 5 && |t| == 8
    requires t[0] == 'M' && t[1] == 'Z'
    requires SymbolValue(data, 0) == 12 && SymbolValue(data, 1) == 25
    requires Spells(RFC4648, data, t, 2, 8)
    ensures Spells(RFC4648, data, t, 0, 8)
  {
    assert Spells(RFC4648, data, t, 1, 8);
  }

  lemma EncodeFoobaSpells2(data: seq<Byte>, t: string)
    requires |data| == 5 && |t| == 8
    requires t[2] == 'X' && t[3] == 'W'
    requires SymbolValue(data, 2) == 23 && SymbolValue(data, 3) == 22
    requires Spells(RFC4648, data, t, 4, 8)
    ensures Spells(RFC4648, data, t, 2, 8)
  {
    assert Spells(RFC4648, data, t, 3, 8);
  }

  lemma EncodeFoobaSpells4(data: seq<Byte>, t: string)
    requires |data| == 5 && |t| == 8
    requires t[4] == '6' && t[5] == 'Y'
    requires SymbolValue(data, 4) == 30 && SymbolValue(data, 5) == 24
    requires Spells(RFC4648, data, t, 6, 8)
    ensures Spells(RFC4648, data, t, 4, 8)
  {
    assert Spells(RFC4648, data, t, 5, 8);
  }

  lemma EncodeFoobaSpells6(data: seq<Byte>, t: string)
    requires |data| == 5 && |t| == 8
    requires t[6] == 'T' && t[7] == 'B'
    requires SymbolValue(data, 6) == 19 && SymbolValue(data, 7) == 1
    ensures Spells(RFC4648, data, t, 6, 8)
  {
    assert Spells(RFC4648, data, t, 7, 8);
  }

  lemma EncodeFoobaText(data: seq<Byte>, t: string)
    requires |data| == 5 && |t| == 8
    requires Spells(RFC4648, data, t, 0, 8)
    ensures EncodeText(Default(), data) == t
  {
    assert Default().alphabet == RFC4648 && CeilDiv(8 * |data|, 5) == 8;
    assert PaddedTo(Default(), 8, t);
    SpelledText(Default(), data, t, 8);
  }

  /** Section 10 of RFC 4648: "foobar". */
  lemma EncodeFoobar(data: seq<Byte>)
    requires data == [102, 111, 111, 98, 97, 114]
    ensures Encode(Default(), data) == "MZXW6YTBOI======"
    ensures Gmp.Encode(Default(), data) == "MZXW6YTBOI======"
    ensures Decode(Default(), "MZXW6YTBOI======") == Success(data)
  {
    EncodeFoobarFields0(data);
    EncodeFoobarFields1(data);
    EncodeFoobarFields2(data);
    EncodeFoobarSpelled(data, "MZXW6YTBOI======");
    EncodeFoobarText(data, "MZXW6YTBOI======");
    DefaultReversible();
    EncodeDecode(Default(), data);
  }

  lemma EncodeFoobarFields0(data: seq<Byte>)
    requires data == [102, 111, 111, 98, 97, 114]
    ensures SymbolValue(data, 0) == 12 && SymbolValue(data, 1) == 25 && SymbolValue(data, 2) == 23 && SymbolValue(data, 3) == 22
  {
    SymbolFromBytes(data, 0, 0, 0, 102, 111);
    SymbolFromBytes(data, 1, 0, 5, 102, 111);
    SymbolFromBytes(data, 2, 1, 2, 111, 111);
    SymbolFromBytes(data, 3, 1, 7, 111, 111);
  }

  lemma EncodeFoobarFields1(data: seq<Byte>)
    requires data == [102, 111, 111, 98, 97, 114]
    ensures SymbolValue(data, 4) == 30 && SymbolValue(data, 5) == 24 && SymbolValue(data, 6) == 19 && SymbolValue(data, 7) == 1
  {
    SymbolFromBytes(data, 4, 2, 4, 111, 98);
    SymbolFromBytes(data, 5, 3, 1, 98, 97);
    SymbolFromBytes(data, 6, 3, 6, 98, 97);
    SymbolFromBytes(data, 7, 4, 3, 97, 114);
  }

  lemma EncodeFoobarFields2(data: seq<Byte>)
    requires data == [102, 111, 111, 98, 97, 114]
    ensures SymbolValue(data, 8) == 14 && SymbolValue(data, 9) == 8
  {
    SymbolFromBytes(data, 8, 5, 0, 114, 0);
    SymbolFromBytes(data, 9, 5, 5, 114, 0);
  }

  lemma EncodeFoobarSpelled(data: seq<Byte>, t: string)
    requires |data| == 6 && t == "MZXW6YTBOI======"
    requires SymbolValue(data, 0) == 12 && SymbolValue(data, 1) == 25 && SymbolValue(data, 2) == 23 && SymbolValue(data, 3) == 22
    requires SymbolValue(data, 4) == 30 && SymbolValue(data, 5) == 24 && SymbolValue(data, 6) == 19 && SymbolValue(data, 7) == 1
    requires SymbolValue(data, 8) == 14 && SymbolValue(data, 9) == 8
    ensures Spells(RFC4648, data, t, 0, 10)
    ensures forall i :: 10 <= i < |t| ==> t[i] == '='
  {
    EncodeFoobarChars8(t);
    EncodeFoobarSpells8(data, t);
    EncodeFoobarChars6(t);
    EncodeFoobarSpells6(data, t);
    EncodeFoobarChars4(t);
    EncodeFoobarSpells4(data, t);
    EncodeFoobarChars2(t);
    EncodeFoobarSpells2(data, t);
    EncodeFoobarChars0(t);
    EncodeFoobarSpells0(data, t);
    EncodeFoobarPadding(t);
  }

  lemma EncodeFoobarChars0(t: string)
    requires t == "MZXW6YTBOI======"
    ensures |t| == 16 && t[0] == 'M' && t[1] == 'Z'
  {
  }

  lemma EncodeFoobarChars2(t: string)
    requires t == "MZXW6YTBOI======"
    ensures |t| == 16 && t[2] == 'X' && t[3] == 'W'
  {
  }

  lemma EncodeFoobarChars4(t: string)
    requires t == "MZXW6YTBOI======"
    ensures |t| == 16 && t[4] == '6' && t[5] == 'Y'
  {
  }

  lemma EncodeFoobarChars6(t: string)
    requires t == "MZXW6YTBOI======"
    ensures |t| == 16 && t[6] == 'T' && t[7] == 'B'
  {
  }

  lemma EncodeFoobarChars8(t: string)
    requires t == "MZXW6YTBOI======"
    ensures |t| == 16 && t[8] == 'O' && t[9] == 'I'
  {
  }

  lemma EncodeFoobarPadding(t: string)
    requires t == "MZXW6YTBOI======"
    ensures forall i :: 10 <= i < |t| ==> t[i] == '='
  {
  }

  lemma EncodeFoobarSpells0(data: seq<Byte>, t: string)
    requires |data| == 6 && |t| == 16
    requires t[0] == 'M' && t[1] == 'Z'
    requires SymbolValue(data, 0) == 12 && SymbolValue(data, 1) == 25
    requires Spells(RFC4648, data, t, 2, 10)
    ensures Spells(RFC4648, data, t, 0, 10)
  {
    assert Spells(RFC4648, data, t, 1, 10);
  }

  lemma EncodeFoobarSpells2(data: seq<Byte>, t: string)
    requires |data| == 6 && |t| == 16
    requires t[2] == 'X' && t[3] == 'W'
    requires SymbolValue(data, 2) == 23 && SymbolValue(data, 3) == 22
    requires Spells(RFC4648, data, t, 4, 10)
    ensures Spells(RFC4648, data, t, 2, 10)
  {
    assert Spells(RFC4648, data, t, 3, 10);
  }

  lemma EncodeFoobarSpells4(data: seq<Byte>, t: string)
    requires |data| == 6 && |t| == 16
    requires t[4] == '6' && t[5] == 'Y'
    requires SymbolValue(data, 4) == 30 && SymbolValue(data, 5) == 24
    requires Spells(RFC4648, data, t, 6, 10)
    ensures Spells(RFC4648, data, t, 4, 10)
  {
    assert Spells(RFC4648, data, t, 5, 10);
  }

  lemma EncodeFoobarSpells6(data: seq<Byte>, t: string)
    requires |data| == 6 && |t| == 16
    requires t[6] == 'T' && t[7] == 'B'
    requires SymbolValue(data, 6) == 19 && SymbolValue(data, 7) == 1
    requires Spells(RFC4648, data, t, 8, 10)
    ensures Spells(RFC4648, data, t, 6, 10)
  {
    assert Spells(RFC4648, data, t, 7, 10);
  }

  lemma EncodeFoobarSpells8(data: seq<Byte>, t: string)
    requires |data| == 6 && |t| == 16
    requires t[8] == 'O' && t[9] == 'I'
    requires SymbolValue(data, 8) == 14 && SymbolValue(data, 9) == 8
    ensures Spells(RFC4648, data, t, 8, 10)
  {
    assert Spells(RFC4648, data, t, 9, 10);
  }

  lemma EncodeFoobarText(data: seq<Byte>, t: string)
    requires |data| == 6 && |t| == 16
    requires Spells(RFC4648, data, t, 0, 10)
    requires forall i :: 10 <= i < |t| ==> t[i] == '='
    ensures EncodeText(Default(), data) == t
  {
    assert Default().alphabet == RFC4648 && CeilDiv(8 * |data|, 5) == 10;
    assert PaddedTo(Default(), 10, t);
    SpelledText(Default(), data, t, 10);
  }

  /** "Hello world!" under the defaults. */
  lemma EncodeHelloWorld(data: seq<Byte>)
    requires data == [72, 101, 108, 108, 111, 32, 119, 111, 114, 108, 100, 33]
    ensures Encode(Default(), data) == "JBSWY3DPEB3W64TMMQQQ===="
    ensures Gmp.Encode(Default(), data) == "JBSWY3DPEB3W64TMMQQQ===="
    ensures Decode(Default(), "JBSWY3DPEB3W64TMMQQQ====") == Success(data)
  {
    EncodeHelloWorldFields0(data);
    EncodeHelloWorldFields1(data);
    EncodeHelloWorldFields2(data);
    EncodeHelloWorldFields3(data);
    EncodeHelloWorldFields4(data);
    EncodeHelloWorldSpelled(data, "JBSWY3DPEB3W64TMMQQQ====");
    EncodeHelloWorldText(data, "JBSWY3DPEB3W64TMMQQQ====");
    DefaultReversible();
    EncodeDecode(Default(), data);
  }

  lemma EncodeHelloWorldFields0(data: seq<Byte>)
    requires data == [72, 101, 108, 108, 111, 32, 119, 111, 114, 108, 100, 33]
    ensures SymbolValue(data, 0) == 9 && SymbolValue(data, 1) == 1 && SymbolValue(data, 2) == 18 && SymbolValue(data, 3) == 22
  {
    SymbolFromBytes(data, 0, 0, 0, 72, 101);
    SymbolFromBytes(data, 1, 0, 5, 72, 101);
    SymbolFromBytes(data, 2, 1, 2, 101, 108);
    SymbolFromBytes(data, 3, 1, 7, 101, 108);
  }

  lemma EncodeHelloWorldFields1(data: seq<Byte>)
    requires data == [72, 101, 108, 108, 111, 32, 119, 111, 114, 108, 100, 33]
    ensures SymbolValue(data, 4) == 24 && SymbolValue(data, 5) == 27 && SymbolValue(data, 6) == 3 && SymbolValue(data, 7) == 15
  {
    SymbolFromBytes(data, 4, 2, 4, 108, 108);
    SymbolFromBytes(data, 5, 3, 1, 108, 111);
    SymbolFromBytes(data, 6, 3, 6, 108, 111);
    SymbolFromBytes(data, 7, 4, 3, 111, 32);
  }

  lemma EncodeHelloWorldFields2(data: seq<Byte>)
    requires data == [72, 101, 108, 108, 111, 32, 119, 111, 114, 108, 100, 33]
    ensures SymbolValue(data, 8) == 4 && SymbolValue(data, 9) == 1 && SymbolValue(data, 10) == 27 && SymbolValue(data, 11) == 22
  {
    SymbolFromBytes(data, 8, 5, 0, 32, 119);
    SymbolFromBytes(data, 9, 5, 5, 32, 119);
    SymbolFromBytes(data, 10, 6, 2, 119, 111);
    SymbolFromBytes(data, 11, 6, 7, 119, 111);
  }

  lemma EncodeHelloWorldFields3(data: seq<Byte>)
    requires data == [72, 101, 108, 108, 111, 32, 119, 111, 114, 108, 100, 33]
    ensures SymbolValue(data, 12) == 30 && SymbolValue(data, 13) == 28 && SymbolValue(data, 14) == 19 && SymbolValue(data, 15) == 12
  {
    SymbolFromBytes(data, 12, 7, 4, 111, 114);
    SymbolFromBytes(data, 13, 8, 1, 114, 108);
    SymbolFromBytes(data, 14, 8, 6, 114, 108);
    SymbolFromBytes(data, 15, 9, 3, 108, 100);
  }

  lemma EncodeHelloWorldFields4(data: seq<Byte>)
    requires data == [72, 101, 108, 108, 111, 32, 119, 111, 114, 108, 100, 33]
    ensures SymbolValue(data, 16) == 12 && SymbolValue(data, 17) == 16 && SymbolValue(data, 18) == 16 && SymbolValue(data, 19) == 16
  {
    SymbolFromBytes(data, 16, 10, 0, 100, 33);
    SymbolFromBytes(data, 17, 10, 5, 100, 33);
    SymbolFromBytes(data, 18, 11, 2, 33, 0);
    SymbolFromBytes(data, 19, 11, 7, 33, 0);
  }

  lemma EncodeHelloWorldSpelled(data: seq<Byte>, t: string)
    requires |data| == 12 && t == "JBSWY3DPEB3W64TMMQQQ===="
    requires SymbolValue(data, 0) == 9 && SymbolValue(data, 1) == 1 && SymbolValue(data, 2) == 18 && SymbolValue(data, 3) == 22
    requires SymbolValue(data, 4) == 24 && SymbolValue(data, 5) == 27 && SymbolValue(data, 6) == 3 && SymbolValue(data, 7) == 15
    requires SymbolValue(data, 8) == 4 && SymbolValue(data, 9) == 1 && SymbolValue(data, 10) == 27 && SymbolValue(data, 11) == 22
    requires SymbolValue(data, 12) == 30 && SymbolValue(data, 13) == 28 && SymbolValue(data, 14) == 19 && SymbolValue(data, 15) == 12
    requires SymbolValue(data, 16) == 12 && SymbolValue(data, 17) == 16 && SymbolValue(data, 18) == 16 && SymbolValue(data, 19) == 16
    ensures Spells(RFC4648, data, t, 0, 20)
    ensures forall i :: 20 <= i < |t| ==> t[i] == '='
  {
    EncodeHelloWorldChars18(t);
    EncodeHelloWorldSpells18(data, t);
    EncodeHelloWorldChars16(t);
    EncodeHelloWorldSpells16(data, t);
    EncodeHelloWorldChars14(t);
    EncodeHelloWorldSpells14(data, t);
    EncodeHelloWorldChars12(t);
    EncodeHelloWorldSpells12(data, t);
    EncodeHelloWorldChars10(t);
    EncodeHelloWorldSpells10(data, t);
    EncodeHelloWorldChars8(t);
    EncodeHelloWorldSpells8(data, t);
    EncodeHelloWorldChars6(t);
    EncodeHelloWorldSpells6(data, t);
    EncodeHelloWorldChars4(t);
    EncodeHelloWorldSpells4(data, t);
    EncodeHelloWorldChars2(t);
    EncodeHelloWorldSpells2(data, t);
    EncodeHelloWorldChars0(t);
    EncodeHelloWorldSpells0(data, t);
    EncodeHelloWorldPadding(t);
  }

  lemma EncodeHelloWorldChars0(t: string)
    requires t == "JBSWY3DPEB3W64TMMQQQ===="
    ensures |t| == 24 && t[0] == 'J' && t[1] == 'B'
  {
  }

  lemma EncodeHelloWorldChars2(t: string)
    requires t == "JBSWY3DPEB3W64TMMQQQ===="
    ensures |t| == 24 && t[2] == 'S' && t[3] == 'W'
  {
  }

  lemma EncodeHelloWorldChars4(t: string)
    requires t == "JBSWY3DPEB3W64TMMQQQ===="
    ensures |t| == 24 && t[4] == 'Y' && t[5] == '3'
  {
  }

  lemma EncodeHelloWorldChars6(t: string)
    requires t == "JBSWY3DPEB3W64TMMQQQ===="
    ensures |t| == 24 && t[6] == 'D' && t[7] == 'P'
  {
  }

  lemma EncodeHelloWorldChars8(t: string)
    requires t == "JBSWY3DPEB3W64TMMQQQ===="
    ensures |t| == 24 && t[8] == 'E' && t[9] == 'B'
  {
  }

  lemma EncodeHelloWorldChars10(t: string)
    requires t == "JBSWY3DPEB3W64TMMQQQ===="
    ensures |t| == 24 && t[10] == '3' && t[11] == 'W'
  {
  }

  lemma EncodeHelloWorldChars12(t: string)
    requires t == "JBSWY3DPEB3W64TMMQQQ===="
    ensures |t| == 24 && t[12] == '6' && t[13] == '4'
  {
  }

  lemma EncodeHelloWorldChars14(t: string)
    requires t == "JBSWY3DPEB3W64TMMQQQ===="
    ensures |t| == 24 && t[14] == 'T' && t[15] == 'M'
  {
  }

  lemma EncodeHelloWorldChars16(t: string)
    requires t == "JBSWY3DPEB3W64TMMQQQ===="
    ensures |t| == 24 && t[16] == 'M' && t[17] == 'Q'
  {
  }

  lemma EncodeHelloWorldChars18(t: string)
    requires t == "JBSWY3DPEB3W64TMMQQQ===="
    ensures |t| == 24 && t[18] == 'Q' && t[19] == 'Q'
  {
  }

  lemma EncodeHelloWorldPadding(t: string)
    requires t == "JBSWY3DPEB3W64TMMQQQ===="
    ensures forall i :: 20 <= i < |t| ==> t[i] == '='
  {
  }

  lemma EncodeHelloWorldSpells0(data: seq<Byte>, t: string)
    requires |data| == 12 && |t| == 24
    requires t[0] == 'J' && t[1] == 'B'
    requires SymbolValue(data, 0) == 9 && SymbolValue(data, 1) == 1
    requires Spells(RFC4648, data, t, 2, 20)
    ensures Spells(RFC4648, data, t, 0, 20)
  {
    assert Spells(RFC4648, data, t, 1, 20);
  }

  lemma EncodeHelloWorldSpells2(data: seq<Byte>, t: string)
    requires |data| == 12 && |t| == 24
    requires t[2] == 'S' && t[3] == 'W'
    requires SymbolValue(data, 2) == 18 && SymbolValue(data, 3) == 22
    requires Spells(RFC4648, data, t, 4, 20)
    ensures Spells(RFC4648, data, t, 2, 20)
  {
    assert Spells(RFC4648, data, t, 3, 20);
  }

  lemma EncodeHelloWorldSpells4(data: seq<Byte>, t: string)
    requires |data| == 12 && |t| == 24
    requires t[4] == 'Y' && t[5] == '3'
    requires SymbolValue(data, 4) == 24 && SymbolValue(data, 5) == 27
    requires Spells(RFC4648, data, t, 6, 20)
    ensures Spells(RFC4648, data, t, 4, 20)
  {
    assert Spells(RFC4648, data, t, 5, 20);
  }

  lemma EncodeHelloWorldSpells6(data: seq<Byte>, t: string)
    requires |data| == 12 && |t| == 24
    requires t[6] == 'D' && t[7] == 'P'
    requires SymbolValue(data, 6) == 3 && SymbolValue(data, 7) == 15
    requires Spells(RFC4648, data, t, 8, 20)
    ensures Spells(RFC4648, data, t, 6, 20)
  {
    assert Spells(RFC4648, data, t, 7, 20);
  }

  lemma EncodeHelloWorldSpells8(data: seq<Byte>, t: string)
    requires |data| == 12 && |t| == 24
    requires t[8] == 'E' && t[9] == 'B'
    requires SymbolValue(data, 8) == 4 && SymbolValue(data, 9) == 1
    requires Spells(RFC4648, data, t, 10, 20)
    ensures Spells(RFC4648, data, t, 8, 20)
  {
    assert Spells(RFC4648, data, t, 9, 20);
  }

  lemma EncodeHelloWorldSpells10(data: seq<Byte>, t: string)
    requires |data| == 12 && |t| == 24
    requires t[10] == '3' && t[11] == 'W'
    requires SymbolValue(data, 10) == 27 && SymbolValue(data, 11) == 22
    requires Spells(RFC4648, data, t, 12, 20)
    ensures Spells(RFC4648, data, t, 10, 20)
  {
    assert Spells(RFC4648, data, t, 11, 20);
  }

  lemma EncodeHelloWorldSpells12(data: seq<Byte>, t: string)
    requires |data| == 12 && |t| == 24
    requires t[12] == '6' && t[13] == '4'
    requires SymbolValue(data, 12) == 30 && SymbolValue(data, 13) == 28
    requires Spells(RFC4648, data, t, 14, 20)
    ensures Spells(RFC4648, data, t, 12, 20)
  {
    assert Spells(RFC4648, data, t, 13, 20);
  }

  lemma EncodeHelloWorldSpells14(data: seq<Byte>, t: string)
    requires |data| == 12 && |t| == 24
    requires t[14] == 'T' && t[15] == 'M'
    requires SymbolValue(data, 14) == 19 && SymbolValue(data, 15) == 12
    requires Spells(RFC4648, data, t, 16, 20)
    ensures Spells(RFC4648, data, t, 14, 20)
  {
    assert Spells(RFC4648, data, t, 15, 20);
  }

  lemma EncodeHelloWorldSpells16(data: seq<Byte>, t: string)
    requires |data| == 12 && |t| == 24
    requires t[16] == 'M' && t[17] == 'Q'
    requires SymbolValue(data, 16) == 12 && SymbolValue(data, 17) == 16
    requires Spells(RFC4648, data, t, 18, 20)
    ensures Spells(RFC4648, data, t, 16, 20)
  {
    assert Spells(RFC4648, data, t, 17, 20);
  }

  lemma EncodeHelloWorldSpells18(data: seq<Byte>, t: string)
    requires |data| == 12 && |t| == 24
    requires t[18] == 'Q' && t[19] == 'Q'
    requires SymbolValue(data, 18) == 16 && SymbolValue(data, 19) == 16
    ensures Spells(RFC4648, data, t, 18, 20)
  {
    assert Spells(RFC4648, data, t, 19, 20);
  }

  lemma EncodeHelloWorldText(data: seq<Byte>, t: string)
    requires |data| == 12 && |t| == 24
    requires Spells(RFC4648, data, t, 0, 20)
    requires forall i :: 20 <= i < |t| ==> t[i] == '='
    ensures EncodeText(Default(), data) == t
  {
    assert Default().alphabet == RFC4648 && CeilDiv(8 * |data|, 5) == 20;
    assert PaddedTo(Default(), 20, t);
    SpelledText(Default(), data, t, 20);
  }

  /** Bytes 00 00 01 02 03 04 05 06: leading zero bytes are kept. */
  lemma EncodeLeadingZeros(data: seq<Byte>)
    requires data == [0, 0, 1, 2, 3, 4, 5, 6]
    ensures Encode(Default(), data) == "AAAACAQDAQCQM==="
    ensures Gmp.Encode(Default(), data) == "AAAACAQDAQCQM==="
    ensures Decode(Default(), "AAAACAQDAQCQM===") == Success(data)
  {
    EncodeLeadingZerosFields0(data);
    EncodeLeadingZerosFields1(data);
    EncodeLeadingZerosFields2(data);
    EncodeLeadingZerosFields3(data);
    EncodeLeadingZerosSpelled(data, "AAAACAQDAQCQM===");
    EncodeLeadingZerosText(data, "AAAACAQDAQCQM===");
    DefaultReversible();
    EncodeDecode(Default(), data);
  }

  lemma EncodeLeadingZerosFields0(data: seq<Byte>)
    requires data == [0, 0, 1, 2, 3, 4, 5, 6]
    ensures SymbolValue(data, 0) == 0 && SymbolValue(data, 1) == 0 && SymbolValue(data, 2) == 0 && SymbolValue(data, 3) == 0
  {
    SymbolFromBytes(data, 0, 0, 0, 0, 0);
    SymbolFromBytes(data, 1, 0, 5, 0, 0);
    SymbolFromBytes(data, 2, 1, 2, 0, 1);
    SymbolFromBytes(data, 3, 1, 7, 0, 1);
  }

  lemma EncodeLeadingZerosFields1(data: seq<Byte>)
    requires data == [0, 0, 1, 2, 3, 4, 5, 6]
    ensures SymbolValue(data, 4) == 2 && SymbolValue(data, 5) == 0 && SymbolValue(data, 6) == 16 && SymbolValue(data, 7) == 3
  {
    SymbolFromBytes(data, 4, 2, 4, 1, 2);
    SymbolFromBytes(data, 5, 3, 1, 2, 3);
    SymbolFromBytes(data, 6, 3, 6, 2, 3);
    SymbolFromBytes(data, 7, 4, 3, 3, 4);
  }

  lemma EncodeLeadingZerosFields2(data: seq<Byte>)
    requires data == [0, 0, 1, 2, 3, 4, 5, 6]
    ensures SymbolValue(data, 8) == 0 && SymbolValue(data, 9) == 16 && SymbolValue(data, 10) == 2 && SymbolValue(data, 11) == 16
  {
    SymbolFromBytes(data, 8, 5, 0, 4, 5);
    SymbolFromBytes(data, 9, 5, 5, 4, 5);
    SymbolFromBytes(data, 10, 6, 2, 5, 6);
    SymbolFromBytes(data, 11, 6, 7, 5, 6);
  }

  lemma EncodeLeadingZerosFields3(data: seq<Byte>)
    requires data == [0, 0, 1, 2, 3, 4, 5, 6]
    ensures SymbolValue(data, 12) == 12
  {
    SymbolFromBytes(data, 12, 7, 4, 6, 0);
  }

  lemma EncodeLeadingZerosSpelled(data: seq<Byte>, t: string)
    requires |data| == 8 && t == "AAAACAQDAQCQM==="
    requires SymbolValue(data, 0) == 0 && SymbolValue(data, 1) == 0 && SymbolValue(data, 2) == 0 && SymbolValue(data, 3) == 0
    requires SymbolValue(data, 4) == 2 && SymbolValue(data, 5) == 0 && SymbolValue(data, 6) == 16 && SymbolValue(data, 7) == 3
    requires SymbolValue(data, 8) == 0 && SymbolValue(data, 9) == 16 && SymbolValue(data, 10) == 2 && SymbolValue(data, 11) == 16
    requires SymbolValue(data, 12) == 12
    ensures Spells(RFC4648, data, t, 0, 13)
    ensures forall i :: 13 <= i < |t| ==> t[i] == '='
  {
    EncodeLeadingZerosChars12(t);
    EncodeLeadingZerosSpells12(data, t);
    EncodeLeadingZerosChars10(t);
    EncodeLeadingZerosSpells10(data, t);
    EncodeLeadingZerosChars8(t);
    EncodeLeadingZerosSpells8(data, t);
    EncodeLeadingZerosChars6(t);
    EncodeLeadingZerosSpells6(data, t);
    EncodeLeadingZerosChars4(t);
    EncodeLeadingZerosSpells4(data, t);
    EncodeLeadingZerosChars2(t);
    EncodeLeadingZerosSpells2(data, t);
    EncodeLeadingZerosChars0(t);
    EncodeLeadingZerosSpells0(data, t);
    EncodeLeadingZerosPadding(t);
  }

  lemma EncodeLeadingZerosChars0(t: string)
    requires t == "AAAACAQDAQCQM==="
    ensures |t| == 16 && t[0] == 'A' && t[1] == 'A'
  {
  }

  lemma EncodeLeadingZerosChars2(t: string)
    requires t == "AAAACAQDAQCQM==="
    ensures |t| == 16 && t[2] == 'A' && t[3] == 'A'
  {
  }

  lemma EncodeLeadingZerosChars4(t: string)
    requires t == "AAAACAQDAQCQM==="
    ensures |t| == 16 && t[4] == 'C' && t[5] == 'A'
  {
  }

  lemma EncodeLeadingZerosChars6(t: string)
    requires t == "AAAACAQDAQCQM==="
    ensures |t| == 16 && t[6] == 'Q' && t[7] == 'D'
  {
  }

  lemma EncodeLeadingZerosChars8(t: string)
    requires t == "AAAACAQDAQCQM==="
    ensures |t| == 16 && t[8] == 'A' && t[9] == 'Q'
  {
  }

  lemma EncodeLeadingZerosChars10(t: string)
    requires t == "AAAACAQDAQCQM==="
    ensures |t| == 16 && t[10] == 'C' && t[11] == 'Q'
  {
  }

  lemma EncodeLeadingZerosChars12(t: string)
    requires t == "AAAACAQDAQCQM==="
    ensures |t| == 16 && t[12] == 'M'
  {
  }

  lemma EncodeLeadingZerosPadding(t: string)
    requires t == "AAAACAQDAQCQM==="
    ensures forall i :: 13 <= i < |t| ==> t[i] == '='
  {
  }

  lemma EncodeLeadingZerosSpells0(data: seq<Byte>, t: string)
    requires |data| == 8 && |t| == 16
    requires t[0] == 'A' && t[1] == 'A'
    requires SymbolValue(data, 0) == 0 && SymbolValue(data, 1) == 0
    requires Spells(RFC4648, data, t, 2, 13)
    ensures Spells(RFC4648, data, t, 0, 13)
  {
    assert Spells(RFC4648, data, t, 1, 13);
  }

  lemma EncodeLeadingZerosSpells2(data: seq<Byte>, t: string)
    requires |data| == 8 && |t| == 16
    requires t[2] == 'A' && t[3] == 'A'
    requires SymbolValue(data, 2) == 0 && SymbolValue(data, 3) == 0
    requires Spells(RFC4648, data, t, 4, 13)
    ensures Spells(RFC4648, data, t, 2, 13)
  {
    assert Spells(RFC4648, data, t, 3, 13);
  }

  lemma EncodeLeadingZerosSpells4(data: seq<Byte>, t: string)
    requires |data| == 8 && |t| == 16
    requires t[4] == 'C' && t[5] == 'A'
    requires SymbolValue(data, 4) == 2 && SymbolValue(data, 5) == 0
    requires Spells(RFC4648, data, t, 6, 13)
    ensures Spells(RFC4648, data, t, 4, 13)
  {
    assert Spells(RFC4648, data, t, 5, 13);
  }

  lemma EncodeLeadingZerosSpells6(data: seq<Byte>, t: string)
    requires |data| == 8 && |t| == 16
    requires t[6] == 'Q' && t[7] == 'D'
    requires SymbolValue(data, 6) == 16 && SymbolValue(data, 7) == 3
    requires Spells(RFC4648, data, t, 8, 13)
    ensures Spells(RFC4648, data, t, 6, 13)
  {
    assert Spells(RFC4648, data, t, 7, 13);
  }

  lemma EncodeLeadingZerosSpells8(data: seq<Byte>, t: string)
    requires |data| == 8 && |t| == 16
    requires t[8] == 'A' && t[9] == 'Q'
    requires SymbolValue(data, 8) == 0 && SymbolValue(data, 9) == 16
    requires Spells(RFC4648, data, t, 10, 13)
    ensures Spells(RFC4648, data, t, 8, 13)
  {
    assert Spells(RFC4648, data, t, 9, 13);
  }

  lemma EncodeLeadingZerosSpells10(data: seq<Byte>, t: string)
    requires |data| == 8 && |t| == 16
    requires t[10] == 'C' && t[11] == 'Q'
    requires SymbolValue(data, 10) == 2 && SymbolValue(data, 11) == 16
    requires Spells(RFC4648, data, t, 12, 13)
    ensures Spells(RFC4648, data, t, 10, 13)
  {
    assert Spells(RFC4648, data, t, 11, 13);
  }

  lemma EncodeLeadingZerosSpells12(data: seq<Byte>, t: string)
    requires |data| == 8 && |t| == 16
    requires t[12] == 'M'
    requires SymbolValue(data, 12) == 12
    ensures Spells(RFC4648, data, t, 12, 13)
  {
  }

  lemma EncodeLeadingZerosText(data: seq<Byte>, t: string)
    requires |data| == 8 && |t| == 16
    requires Spells(RFC4648, data, t, 0, 13)
    requires forall i :: 13 <= i < |t| ==> t[i] == '='
    ensures EncodeText(Default(), data) == t
  {
    assert Default().alphabet == RFC4648 && CeilDiv(8 * |data|, 5) == 13;
    assert PaddedTo(Default(), 13, t);
    SpelledText(Default(), data, t, 13);
  }

  /** "Hello world! xx" under the Crockford configuration. */
  lemma EncodeCrockford(data: seq<Byte>)
    requires data == [72, 101, 108, 108, 111, 32, 119, 111, 114, 108, 100, 33, 32, 120, 120]
    ensures Encode(CrockfordConfig(), data) == "91JPRV3F41VPYWKCCGGJ0Y3R"
    ensures Gmp.Encode(CrockfordConfig(), data) == "91JPRV3F41VPYWKCCGGJ0Y3R"
    ensures Decode(CrockfordConfig(), "91JPRV3F41VPYWKCCGGJ0Y3R") == Success(data)
  {
    EncodeCrockfordFields0(data);
    EncodeCrockfordFields1(data);
    EncodeCrockfordFields2(data);
    EncodeCrockfordFields3(data);
    EncodeCrockfordFields4(data);
    EncodeCrockfordFields5(data);
    EncodeCrockfordSpelled(data, "91JPRV3F41VPYWKCCGGJ0Y3R");
    EncodeCrockfordText(data, "91JPRV3F41VPYWKCCGGJ0Y3R");
    CrockfordReversible();
    EncodeDecode(CrockfordConfig(), data);
  }

  lemma EncodeCrockfordFields0(data: seq<Byte>)
    requires data == [72, 101, 108, 108, 111, 32, 119, 111, 114, 108, 100, 33, 32, 120, 120]
    ensures SymbolValue(data, 0) == 9 && SymbolValue(data, 1) == 1 && SymbolValue(data, 2) == 18 && SymbolValue(data, 3) == 22
  {
    SymbolFromBytes(data, 0, 0, 0, 72, 101);
    SymbolFromBytes(data, 1, 0, 5, 72, 101);
    SymbolFromBytes(data, 2, 1, 2, 101, 108);
    SymbolFromBytes(data, 3, 1, 7, 101, 108);
  }

  lemma EncodeCrockfordFields1(data: seq<Byte>)
    requires data == [72, 101, 108, 108, 111, 32, 119, 111, 114, 108, 100, 33, 32, 120, 120]
    ensures SymbolValue(data, 4) == 24 && SymbolValue(data, 5) == 27 && SymbolValue(data, 6) == 3 && SymbolValue(data, 7) == 15
  {
    SymbolFromBytes(data, 4, 2, 4, 108, 108);
    SymbolFromBytes(data, 5, 3, 1, 108, 111);
    SymbolFromBytes(data, 6, 3, 6, 108, 111);
    SymbolFromBytes(data, 7, 4, 3, 111, 32);
  }

  lemma EncodeCrockfordFields2(data: seq<Byte>)
    requires data == [72, 101, 108, 108, 111, 32, 119, 111, 114, 108, 100, 33, 32, 120, 120]
    ensures SymbolValue(data, 8) == 4 && SymbolValue(data, 9) == 1 && SymbolValue(data, 10) == 27 && SymbolValue(data, 11) == 22
  {
    SymbolFromBytes(data, 8, 5, 0, 32, 119);
    SymbolFromBytes(data, 9, 5, 5, 32, 119);
    SymbolFromBytes(data, 10, 6, 2, 119, 111);
    SymbolFromBytes(data, 11, 6, 7, 119, 111);
  }

  lemma EncodeCrockfordFields3(data: seq<Byte>)
    requires data == [72, 101, 108, 108, 111, 32, 119, 111, 114, 108, 100, 33, 32, 120, 120]
    ensures SymbolValue(data, 12) == 30 && SymbolValue(data, 13) == 28 && SymbolValue(data, 14) == 19 && SymbolValue(data, 15) == 12
  {
    SymbolFromBytes(data, 12, 7, 4, 111, 114);
    SymbolFromBytes(data, 13, 8, 1, 114, 108);
    SymbolFromBytes(data, 14, 8, 6, 114, 108);
    SymbolFromBytes(data, 15, 9, 3, 108, 100);
  }

  lemma EncodeCrockfordFields4(data: seq<Byte>)
    requires data == [72, 101, 108, 108, 111, 32, 119, 111, 114, 108, 100, 33, 32, 120, 120]
    ensures SymbolValue(data, 16) == 12 && SymbolValue(data, 17) == 16 && SymbolValue(data, 18) == 16 && SymbolValue(data, 19) == 18
  {
    SymbolFromBytes(data, 16, 10, 0, 100, 33);
    SymbolFromBytes(data, 17, 10, 5, 100, 33);
    SymbolFromBytes(data, 18, 11, 2, 33, 32);
    SymbolFromBytes(data, 19, 11, 7, 33, 32);
  }

  lemma EncodeCrockfordFields5(data: seq<Byte>)
    requires data == [72, 101, 108, 108, 111, 32, 119, 111, 114, 108, 100, 33, 32, 120, 120]
    ensures SymbolValue(data, 20) == 0 && SymbolValue(data, 21) == 30 && SymbolValue(data, 22) == 3 && SymbolValue(data, 23) == 24
  {
    SymbolFromBytes(data, 20, 12, 4, 32, 120);
    SymbolFromBytes(data, 21, 13, 1, 120, 120);
    SymbolFromBytes(data, 22, 13, 6, 120, 120);
    SymbolFromBytes(data, 23, 14, 3, 120, 0);
  }

  lemma EncodeCrockfordSpelled(data: seq<Byte>, t: string)
    requires |data| == 15 && t == "91JPRV3F41VPYWKCCGGJ0Y3R"
    requires SymbolValue(data, 0) == 9 && SymbolValue(data, 1) == 1 && SymbolValue(data, 2) == 18 && SymbolValue(data, 3) == 22
    requires SymbolValue(data, 4) == 24 && SymbolValue(data, 5) == 27 && SymbolValue(data, 6) == 3 && SymbolValue(data, 7) == 15
    requires SymbolValue(data, 8) == 4 && SymbolValue(data, 9) == 1 && SymbolValue(data, 10) == 27 && SymbolValue(data, 11) == 22
    requires SymbolValue(data, 12) == 30 && SymbolValue(data, 13) == 28 && SymbolValue(data, 14) == 19 && SymbolValue(data, 15) == 12
    requires SymbolValue(data, 16) == 12 && SymbolValue(data, 17) == 16 && SymbolValue(data, 18) == 16 && SymbolValue(data, 19) == 18
    requires SymbolValue(data, 20) == 0 && SymbolValue(data, 21) == 30 && SymbolValue(data, 22) == 3 && SymbolValue(data, 23) == 24
    ensures Spells(CROCKFORD, data, t, 0, 24)
  {
    EncodeCrockfordChars22(t);
    EncodeCrockfordSpells22(data, t);
    EncodeCrockfordChars20(t);
    EncodeCrockfordSpells20(data, t);
    EncodeCrockfordChars18(t);
    EncodeCrockfordSpells18(data, t);
    EncodeCrockfordChars16(t);
    EncodeCrockfordSpells16(data, t);
    EncodeCrockfordChars14(t);
    EncodeCrockfordSpells14(data, t);
    EncodeCrockfordChars12(t);
    EncodeCrockfordSpells12(data, t);
    EncodeCrockfordChars10(t);
    EncodeCrockfordSpells10(data, t);
    EncodeCrockfordChars8(t);
    EncodeCrockfordSpells8(data, t);
    EncodeCrockfordChars6(t);
    EncodeCrockfordSpells6(data, t);
    EncodeCrockfordChars4(t);
    EncodeCrockfordSpells4(data, t);
    EncodeCrockfordChars2(t);
    EncodeCrockfordSpells2(data, t);
    EncodeCrockfordChars0(t);
    EncodeCrockfordSpells0(data, t);
  }

  lemma EncodeCrockfordChars0(t: string)
    requires t == "91JPRV3F41VPYWKCCGGJ0Y3R"
    ensures |t| == 24 && t[0] == '9' && t[1] == '1'
  {
  }

  lemma EncodeCrockfordChars2(t: string)
    requires t == "91JPRV3F41VPYWKCCGGJ0Y3R"
    ensures |t| == 24 && t[2] == 'J' && t[3] == 'P'
  {
  }

  lemma EncodeCrockfordChars4(t: string)
    requires t == "91JPRV3F41VPYWKCCGGJ0Y3R"
    ensures |t| == 24 && t[4] == 'R' && t[5] == 'V'
  {
  }

  lemma EncodeCrockfordChars6(t: string)
    requires t == "91JPRV3F41VPYWKCCGGJ0Y3R"
    ensures |t| == 24 && t[6] == '3' && t[7] == 'F'
  {
  }

  lemma EncodeCrockfordChars8(t: string)
    requires t == "91JPRV3F41VPYWKCCGGJ0Y3R"
    ensures |t| == 24 && t[8] == '4' && t[9] == '1'
  {
  }

  lemma EncodeCrockfordChars10(t: string)
    requires t == "91JPRV3F41VPYWKCCGGJ0Y3R"
    ensures |t| == 24 && t[10] == 'V' && t[11] == 'P'
  {
  }

  lemma EncodeCrockfordChars12(t: string)
    requires t == "91JPRV3F41VPYWKCCGGJ0Y3R"
    ensures |t| == 24 && t[12] == 'Y' && t[13] == 'W'
  {
  }

  lemma EncodeCrockfordChars14(t: string)
    requires t == "91JPRV3F41VPYWKCCGGJ0Y3R"
    ensures |t| == 24 && t[14] == 'K' && t[15] == 'C'
  {
  }

  lemma EncodeCrockfordChars16(t: string)
    requires t == "91JPRV3F41VPYWKCCGGJ0Y3R"
    ensures |t| == 24 && t[16] == 'C' && t[17] == 'G'
  {
  }

  lemma EncodeCrockfordChars18(t: string)
    requires t == "91JPRV3F41VPYWKCCGGJ0Y3R"
    ensures |t| == 24 && t[18] == 'G' && t[19] == 'J'
  {
  }

  lemma EncodeCrockfordChars20(t: string)
    requires t == "91JPRV3F41VPYWKCCGGJ0Y3R"
    ensures |t| == 24 && t[20] == '0' && t[21] == 'Y'
  {
  }

  lemma EncodeCrockfordChars22(t: string)
    requires t == "91JPRV3F41VPYWKCCGGJ0Y3R"
    ensures |t| == 24 && t[22] == '3' && t[23] == 'R'
  {
  }

  lemma EncodeCrockfordSpells0(data: seq<Byte>, t: string)
    requires |data| == 15 && |t| == 24
    requires t[0] == '9' && t[1] == '1'
    requires SymbolValue(data, 0) == 9 && SymbolValue(data, 1) == 1
    requires Spells(CROCKFORD, data, t, 2, 24)
    ensures Spells(CROCKFORD, data, t, 0, 24)
  {
    assert Spells(CROCKFORD, data, t, 1, 24);
  }

  lemma EncodeCrockfordSpells2(data: seq<Byte>, t: string)
    requires |data| == 15 && |t| == 24
    requires t[2] == 'J' && t[3] == 'P'
    requires SymbolValue(data, 2) == 18 && SymbolValue(data, 3) == 22
    requires Spells(CROCKFORD, data, t, 4, 24)
    ensures Spells(CROCKFORD, data, t, 2, 24)
  {
    assert Spells(CROCKFORD, data, t, 3, 24);
  }

  lemma EncodeCrockfordSpells4(data: seq<Byte>, t: string)
    requires |data| == 15 && |t| == 24
    requires t[4] == 'R' && t[5] == 'V'
    requires SymbolValue(data, 4) == 24 && SymbolValue(data, 5) == 27
    requires Spells(CROCKFORD, data, t, 6, 24)
    ensures Spells(CROCKFORD, data, t, 4, 24)
  {
    assert Spells(CROCKFORD, data, t, 5, 24);
  }

  lemma EncodeCrockfordSpells6(data: seq<Byte>, t: string)
    requires |data| == 15 && |t| == 24
    requires t[6] == '3' && t[7] == 'F'
    requires SymbolValue(data, 6) == 3 && SymbolValue(data, 7) == 15
    requires Spells(CROCKFORD, data, t, 8, 24)
    ensures Spells(CROCKFORD, data, t, 6, 24)
  {
    assert Spells(CROCKFORD, data, t, 7, 24);
  }

  lemma EncodeCrockfordSpells8(data: seq<Byte>, t: string)
    requires |data| == 15 && |t| == 24
    requires t[8] == '4' && t[9] == '1'
    requires SymbolValue(data, 8) == 4 && SymbolValue(data, 9) == 1
    requires Spells(CROCKFORD, data, t, 10, 24)
    ensures Spells(CROCKFORD, data, t, 8, 24)
  {
    assert Spells(CROCKFORD, data, t, 9, 24);
  }

  lemma EncodeCrockfordSpells10(data: seq<Byte>, t: string)
    requires |data| == 15 && |t| == 24
    requires t[10] == 'V' && t[11] == 'P'
    requires SymbolValue(data, 10) == 27 && SymbolValue(data, 11) == 22
    requires Spells(CROCKFORD, data, t, 12, 24)
    ensures Spells(CROCKFORD, data, t, 10, 24)
  {
    assert Spells(CROCKFORD, data, t, 11, 24);
  }

  lemma EncodeCrockfordSpells12(data: seq<Byte>, t: string)
    requires |data| == 15 && |t| == 24
    requires t[12] == 'Y' && t[13] == 'W'
    requires SymbolValue(data, 12) == 30 && SymbolValue(data, 13) == 28
    requires Spells(CROCKFORD, data, t, 14, 24)
    ensures Spells(CROCKFORD, data, t, 12, 24)
  {
    assert Spells(CROCKFORD, data, t, 13, 24);
  }

  lemma EncodeCrockfordSpells14(data: seq<Byte>, t: string)
    requires |data| == 15 && |t| == 24
    requires t[14] == 'K' && t[15] == 'C'
    requires SymbolValue(data, 14) == 19 && SymbolValue(data, 15) == 12
    requires Spells(CROCKFORD, data, t, 16, 24)
    ensures Spells(CROCKFORD, data, t, 14, 24)
  {
    assert Spells(CROCKFORD, data, t, 15, 24);
  }

  lemma EncodeCrockfordSpells16(data: seq<Byte>, t: string)
    requires |data| == 15 && |t| == 24
    requires t[16] == 'C' && t[17] == 'G'
    requires SymbolValue(data, 16) == 12 && SymbolValue(data, 17) == 16
    requires Spells(CROCKFORD, data, t, 18, 24)
    ensures Spells(CROCKFORD, data, t, 16, 24)
  {
    assert Spells(CROCKFORD, data, t, 17, 24);
  }

  lemma EncodeCrockfordSpells18(data: seq<Byte>, t: string)
    requires |data| == 15 && |t| == 24
    requires t[18] == 'G' && t[19] == 'J'
    requires SymbolValue(data, 18) == 16 && SymbolValue(data, 19) == 18
    requires Spells(CROCKFORD, data, t, 20, 24)
    ensures Spells(CROCKFORD, data, t, 18, 24)
  {
    assert Spells(CROCKFORD, data, t, 19, 24);
  }

  lemma EncodeCrockfordSpells20(data: seq<Byte>, t: string)
    requires |data| == 15 && |t| == 24
    requires t[20] == '0' && t[21] == 'Y'
    requires SymbolValue(data, 20) == 0 && SymbolValue(data, 21) == 30
    requires Spells(CROCKFORD, data, t, 22, 24)
    ensures Spells(CROCKFORD, data, t, 20, 24)
  {
    assert Spells(CROCKFORD, data, t, 21, 24);
  }

  lemma EncodeCrockfordSpells22(data: seq<Byte>, t: string)
    requires |data| == 15 && |t| == 24
    requires t[22] == '3' && t[23] == 'R'
    requires SymbolValue(data, 22) == 3 && SymbolValue(data, 23) == 24
    ensures Spells(CROCKFORD, data, t, 22, 24)
  {
    assert Spells(CROCKFORD, data, t, 23, 24);
  }

  lemma EncodeCrockfordText(data: seq<Byte>, t: string)
    requires |data| == 15 && |t| == 24
    requires Spells(CROCKFORD, data, t, 0, 24)
    ensures EncodeText(CrockfordConfig(), data) == t
  {
    assert CrockfordConfig().alphabet == CROCKFORD && CeilDiv(8 * |data|, 5) == 24;
    assert PaddedTo(CrockfordConfig(), 24, t);
    SpelledText(CrockfordConfig(), data, t, 24);
  }
  /** The upper-case text is already normalised: every character is a stable
      Crockford symbol. */
  lemma UpperCaseSpelling(s: string, t: string)
    requires s == "91JPRV3F41VPYWKCCGGJ0Y3R" && t == s
    ensures Normalize(s) == t
  {
    forall i | 0 <= i < |s|
      ensures Stable(s[i])
    {
      var c := s[i];
      assert '0' <= c <= 'Z' && c != 'O' && c != 'L' && c != 'I';
    }
    NormalizeStable(s);
  }

  /** The lower-case spelling normalises to the upper-case text, character by
      character: it holds no 'o', 'i' or 'l'. */
  lemma LowerCaseSpelling(s: string, t: string)
    requires s == "91jprv3f41vpywkccggj0y3r" && t == "91JPRV3F41VPYWKCCGGJ0Y3R"
    ensures Normalize(s) == t
  {
    forall i | 0 <= i < |s|
      ensures NormalizeChar(s[i]) == [t[i]]
    {
      var c := s[i];
      assert t[i] == Upper(c) && c != 'o' && c != 'i' && c != 'l' && c != '-';
    }
    Charwise(s, t);
  }

  /** The dashed spelling with 'l' for '1' and 'o' for '0' normalises to the upper-case text. */
  lemma DashedSpelling(s: string, t: string)
    requires s == "9ljp-rv3f4-1vpyw-kccgg-joy3r" && t == "91JPRV3F41VPYWKCCGGJ0Y3R"
    ensures Normalize(s) == t
  {
    DashedSpellingFrom20(s, t);
    DashedSpellingFrom10(s, t);
    DashedSpellingFrom0(s, t);
    NormalizesSound(s, t, 0, 0);
  }

  lemma DashedSpellingFrom0(s: string, t: string)
    requires s == "9ljp-rv3f4-1vpyw-kccgg-joy3r" && t == "91JPRV3F41VPYWKCCGGJ0Y3R"
    requires Normalizes(s, t, 10, 9)
    ensures Normalizes(s, t, 0, 0)
  {
    assert Normalizes(s, t, 9, 8);
    assert Normalizes(s, t, 8, 7);
    assert Normalizes(s, t, 7, 6);
    assert Normalizes(s, t, 6, 5);
    assert Normalizes(s, t, 5, 4);
    assert Normalizes(s, t, 4, 4);
    assert Normalizes(s, t, 3, 3);
    assert Normalizes(s, t, 2, 2);
    assert Normalizes(s, t, 1, 1);
  }

  lemma DashedSpellingFrom10(s: string, t: string)
    requires s == "9ljp-rv3f4-1vpyw-kccgg-joy3r" && t == "91JPRV3F41VPYWKCCGGJ0Y3R"
    requires Normalizes(s, t, 20, 17)
    ensures Normalizes(s, t, 10, 9)
  {
    assert Normalizes(s, t, 19, 16);
    assert Normalizes(s, t, 18, 15);
    assert Normalizes(s, t, 17, 14);
    assert Normalizes(s, t, 16, 14);
    assert Normalizes(s, t, 15, 13);
    assert Normalizes(s, t, 14, 12);
    assert Normalizes(s, t, 13, 11);
    assert Normalizes(s, t, 12, 10);
    assert Normalizes(s, t, 11, 9);
  }

  lemma DashedSpellingFrom20(s: string, t: string)
    requires s == "9ljp-rv3f4-1vpyw-kccgg-joy3r" && t == "91JPRV3F41VPYWKCCGGJ0Y3R"
    ensures Normalizes(s, t, 20, 17)
  {
    assert Normalizes(s, t, 27, 23);
    assert Normalizes(s, t, 26, 22);
    assert Normalizes(s, t, 25, 21);
    assert Normalizes(s, t, 24, 20);
    assert Normalizes(s, t, 23, 19);
    assert Normalizes(s, t, 22, 19);
    assert Normalizes(s, t, 21, 18);
  }

  /** `Normalize(s[i..]) == t[j..]`, checked one character of s at a time:
      each character of s is dropped or becomes the next character of t. */
  predicate Normalizes(s: string, t: string, i: nat, j: nat)
    decreases |s| - i
  {
    if i >= |s| then j == |t|
    else
      var c := NormalizeChar(s[i]);
      if c == "" then Normalizes(s, t, i + 1, j)
      else j < |t| && c == [t[j]] && Normalizes(s, t, i + 1, j + 1)
  }

  lemma {:induction false} NormalizesSound(s: string, t: string, i: nat, j: nat)
    requires i <= |s| && j <= |t| && Normalizes(s, t, i, j)
    ensures Normalize(s[i..]) == t[j..]
    decreases |s| - i
  {
    if i < |s| {
      var c := NormalizeChar(s[i]);
      assert s[i..][1..] == s[i + 1..];
      if c == "" {
        NormalizesSound(s, t, i + 1, j);
      } else {
        NormalizesSound(s, t, i + 1, j + 1);
        assert t[j..] == [t[j]] + t[j + 1..];
      }
    }
  }

  /** A text whose characters normalise one by one to those of `t`. */
  lemma {:induction false} Charwise(s: string, t: string)
    requires |s| == |t| && forall i :: 0 <= i < |s| ==> NormalizeChar(s[i]) == [t[i]]
    ensures Normalize(s) == t
  {
    if |s| > 0 {
      Charwise(s[1..], t[1..]);
      assert t == [t[0]] + t[1..];
    }
  }

  /** All three spellings of the Crockford vector decode to "Hello world! xx". */
  lemma DecodeCrockfordSpellings(data: seq<Byte>, upper: string, lower: string, dashed: string)
    requires data == [72, 101, 108, 108, 111, 32, 119, 111, 114, 108, 100, 33, 32, 120, 120]
    requires upper == "91JPRV3F41VPYWKCCGGJ0Y3R"
    requires lower == "91jprv3f41vpywkccggj0y3r"
    requires dashed == "9ljp-rv3f4-1vpyw-kccgg-joy3r"
    ensures Decode(CrockfordConfig(), upper) == Success(data)
    ensures Decode(CrockfordConfig(), lower) == Success(data)
    ensures Decode(CrockfordConfig(), dashed) == Success(data)
  {
    assert Decode(CrockfordConfig(), upper) == Success(data) by {
      EncodeCrockford(data);
    }
    SpellingDecodesAlike(lower, upper);
    SpellingDecodesAlike(dashed, upper);
  }

  /** A spelling that normalises to the upper-case text decodes like it. */
  lemma SpellingDecodesAlike(s: string, upper: string)
    requires upper == "91JPRV3F41VPYWKCCGGJ0Y3R"
    requires s == "91jprv3f41vpywkccggj0y3r" || s == "9ljp-rv3f4-1vpyw-kccgg-joy3r"
    ensures Decode(CrockfordConfig(), s) == Decode(CrockfordConfig(), upper)
  {
    var cfg := CrockfordConfig();
    assert Prepare(cfg, upper) == upper by {
      UpperCaseSpelling(upper, upper);
    }
    assert Prepare(cfg, s) == upper by {
      if s == "91jprv3f41vpywkccggj0y3r" {
        LowerCaseSpelling(s, upper);
      } else {
        DashedSpelling(s, upper);
      }
    }
    DecodeSamePrepared(cfg, s, upper);
  }

  /** Text with characters outside the alphabet is rejected. */
  lemma InvalidDataRejected(s: string)
    requires s == "invalid~data-%@#!@*#-foo"
    ensures Decode(Default(), s) == Failure(InvalidCharacters)
  {
    assert !Accepted(Default(), s[0]) by {
      assert forall i :: 0 <= i < 32 ==> RFC4648[i] != 'i';
    }
  }

  /** A custom character set: the GMP set with 'X' in place of 'J'. */
  const NO_J: string := "0123456789ABCDEFGHIXKLMNOPQRSTUV"

  /** Its decoding table. */
  function NoJValue(c: char): int
  {
    if '0' <= c <= '9' then c as int - '0' as int
    else if c == 'X' then 19
    else c as int - 'A' as int + 10
  }

  lemma NoJDistinct()
    ensures Distinct(NO_J)
  {
    assert forall i :: 0 <= i < 32 ==> NoJValue(NO_J[i]) == i;
  }

  /** The constructor accepts the set. */
  lemma MissingCharacterAccepted(chars: string)
    requires chars == NO_J
    ensures Configure(Options(Some(chars), None, None)) == Success(Config(chars, Some('='), false))
  {
    NoJDistinct();
  }

  /** Decoding valid RFC 4648 text with the set fails on the 'J' it lacks. */
  lemma MissingCharacterRejected(s: string)
    requires s == "JBSWY3DPEB3W64TMMQQQ===="
    ensures var cfg := Config(NO_J, Some('='), false);
      cfg.Valid() && Decode(cfg, s) == Failure(InvalidCharacters)
  {
    NoJDistinct();
    assert !Accepted(Config(NO_J, Some('='), false), s[0]) by {
      assert forall i :: 0 <= i < 32 ==> NO_J[i] != 'J';
    }
  }

  // ---------------------------------------------------------------------------
  // The configurations the round-trip tests run under
  // ---------------------------------------------------------------------------

  /** A character set of the round-trip tests: RFC 4648 with its letters first. */
  const LETTERS_FIRST: string := "ABCDEFGHIJKLMNOPQRSTUV0123456789"

  function LettersFirstValue(c: char): int
  {
    if 'A' <= c <= 'V' then c as int - 'A' as int else c as int - '0' as int + 22
  }

  lemma LettersFirstDistinct()
    ensures Distinct(LETTERS_FIRST)
  {
    assert forall i :: 0 <= i < 32 ==> LettersFirstValue(LETTERS_FIRST[i]) == i;
  }

  /** The five configurations: RFC 4648 and its hex alphabet padded with '=',
      GMP, Crockford and the letters-first set unpadded. The Crockford entry
      spells its flag "crocford", so normalisation stays off there. */
  predicate Tested(cfg: Config)
  {
    || cfg == Config(RFC4648, Some('='), false)
    || cfg == Config(HEX, Some('='), false)
    || cfg == Config(GMP, None, false)
    || cfg == Config(CROCKFORD, None, false)
    || cfg == Config(LETTERS_FIRST, None, false)
  }

  lemma TestedReversible(cfg: Config)
    requires Tested(cfg)
    ensures Reversible(cfg)
  {
    PresetsAreValid();
    LettersFirstDistinct();
    if cfg.padding.Some? {
      assert forall i :: 0 <= i < 32 ==> cfg.alphabet[i] != '=';
    }
  }

  /** Under every tested configuration the PHP and GMP byte encoders agree and
      decode back, for any bytes but the PHP-empty ones (the zero-byte tests'
      "\x00", "\x00\x00\x00", "\x00\x01\x02" and "\x00\x00\x00\x01\x02"
      among them), and every integer from 32 up to `PHP_INT_MAX` (987654321 and
      `PHP_INT_MAX` among them) survives `encodeInteger` then `decodeInteger`. */
  lemma TestedRoundTrips(cfg: Config, data: seq<Byte>, n: nat)
    requires Tested(cfg) && !PhpEmptyBytes(data) && 32 <= n <= PHP_INT_MAX
    ensures Reversible(cfg)
    ensures Gmp.Encode(cfg, data) == Encode(cfg, data)
    ensures Decode(cfg, Encode(cfg, data)) == Success(data)
    ensures DecodeInteger(cfg, EncodeInteger(cfg, n)) == Success(n)
  {
    TestedReversible(cfg);
    EncodeDecode(cfg, data);
    IntegerTextEmpty(cfg, n);
    EncodeDecodeInteger(cfg, n);
  }

  // ---------------------------------------------------------------------------
  // Where the round trip is not claimed: Crockford normalisation over an
  // alphabet that holds a letter the normalisation rewrites
  // ---------------------------------------------------------------------------

  /** With the RFC 4648 alphabet and the Crockford flag set, the byte 0x70 encodes
      to "OA======", and decoding rewrites that 'O' to '0', which the alphabet
      lacks: the encoder's own output is rejected, and the configuration is not
      Reversible. */
  lemma CrockfordBreaksRfcRoundTrip(data: seq<Byte>)
    requires data == [112]
    ensures var cfg := Config(RFC4648, Some('='), true);
      && cfg.Valid()
      && !Reversible(cfg)
      && Encode(cfg, data) == "OA======"
      && Decode(cfg, Encode(cfg, data)) == Failure(InvalidCharacters)
  {
    var cfg := Config(RFC4648, Some('='), true);
    PresetsAreValid();
    assert RFC4648[14] == 'O' && !Stable('O');
    SymbolFromBytes(data, 0, 0, 0, 112, 0);
    SymbolFromBytes(data, 1, 0, 5, 112, 0);
    CrockfordRfcText(cfg, data, "OA======");
    CrockfordRfcRejects(cfg, "OA======");
  }

  lemma CrockfordRfcText(cfg: Config, data: seq<Byte>, t: string)
    requires cfg == Config(RFC4648, Some('='), true) && cfg.Valid()
    requires |data| == 1 && data != [48] && t == "OA======"
    requires SymbolValue(data, 0) == 14 && SymbolValue(data, 1) == 0
    ensures Encode(cfg, data) == t
  {
    assert Spells(RFC4648, data, t, 1, 2);
    assert Spells(RFC4648, data, t, 0, 2);
    assert PaddedTo(cfg, 2, t);
    SpelledText(cfg, data, t, 2);
  }

  lemma CrockfordRfcRejects(cfg: Config, t: string)
    requires cfg == Config(RFC4648, Some('='), true) && cfg.Valid()
    requires t == "OA======"
    ensures Decode(cfg, t) == Failure(InvalidCharacters)
  {
    assert Normalize(t) == NormalizeChar(t[0]) + Normalize(t[1..]);
    assert Prepare(cfg, t)[0] == '0';
    assert forall i :: 0 <= i < 32 ==> RFC4648[i] != '0';
    assert !Accepted(cfg, Prepare(cfg, t)[0]);
  }
}
