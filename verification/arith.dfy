/** An independent, arithmetic reading of `encode`: symbol i is the 5-bit field
    at bit offset 5i of the byte string, cut out of the 16-bit big-endian word
    formed by the two bytes that hold it (zero past the end of the input). */
module Arithmetic {
  import opened Bits
  import opened Bytes
  import opened Config
  import opened Codec

  /** Byte k of the input, zero past its end (the encoder's zero fill). */
  function ByteAt(data: seq<Byte>, k: nat): Byte
  {
    if k < |data| then data[k] else 0
  }

  /** 2^k for the shifts a 5-bit field can need inside a 16-bit word. */
  function Shift(k: nat): (r: nat)
    requires 4 <= k <= 11
    ensures r == Pow2(k)
  {
    Pow2Values();
    if k == 4 then 16 else if k == 5 then 32 else if k == 6 then 64 else if k == 7 then 128
    else if k == 8 then 256 else if k == 9 then 512 else if k == 10 then 1024 else 2048
  }

  /** The value of symbol i: `((b[k] << 8 | b[k + 1]) >> (11 - r)) & 31` with
      k = 5i div 8 and r = 5i mod 8. */
  function SymbolValue(data: seq<Byte>, i: nat): (v: nat)
    ensures v < 32
  {
    Field(data, 5 * i / 8, 5 * i % 8)
  }

  /** Bits r..r+4 of the 16-bit big-endian word at byte k. */
  function Field(data: seq<Byte>, k: nat, r: nat): (v: nat)
    requires r < 8
    ensures v < 32
  {
    ((256 * (ByteAt(data, k) as int) + ByteAt(data, k + 1) as int) / Shift(11 - r)) % 32
  }

  /** The group the encoder maps to symbol i is the arithmetic field. */
  lemma GroupValueIsField(data: seq<Byte>, i: nat)
    requires |data| > 0 && i < CeilDiv(8 * |data|, 5)
    ensures GroupValue(ToBits(data), i) == SymbolValue(data, i)
  {
    GroupWindow(data, i);
    PaddedWord(data, 5 * i, 5 * i / 8, 5 * i % 8);
  }

  /** Group i is read from the bit string of the data followed by two zero
      bytes, which covers the right-fill of the last group. */
  lemma GroupWindow(data: seq<Byte>, i: nat)
    requires |data| > 0 && i < CeilDiv(8 * |data|, 5)
    ensures 5 * i / 8 < |data| && 5 * i + 5 <= |ToBits(data + [0, 0])|
    ensures GroupValue(ToBits(data), i) == ToNat(ToBits(data + [0, 0])[5 * i .. 5 * i + 5])
  {
    BitsLength(data, i);
    FillAgrees(data, 5 * i);
  }

  lemma BitsLength(data: seq<Byte>, i: nat)
    requires |data| > 0 && i < CeilDiv(8 * |data|, 5)
    ensures 5 * i + 5 <= |ZeroFill(ToBits(data))| && 5 * i / 8 < |data|
  {
    var n := CeilDiv(8 * |data|, 5);
    assert |ZeroFill(ToBits(data))| == 5 * n;
  }

  /** The 5 bits at offset 8k + r of the input followed by two zero bytes are
      bits r..r+4 of the 16-bit word at byte k. */
  lemma PaddedWord(data: seq<Byte>, p: nat, k: nat, r: nat)
    requires k < |data| && k == p / 8 && r == p % 8
    ensures p + 5 <= |ToBits(data + [0, 0])|
    ensures ToNat(ToBits(data + [0, 0])[p .. p + 5]) == Field(data, k, r)
  {
    var d2 := data + [0, 0];
    var o := 8 * k;
    assert o + r == p;
    assert Field(data, k, r) == ((256 * (d2[k] as int) + d2[k + 1] as int) / Shift(11 - r)) % 32 by {
      assert d2[k] == ByteAt(data, k) && d2[k + 1] == ByteAt(data, k + 1);
    }
    WordField(d2, k, o, r);
  }

  /** The zero fill agrees with two appended zero bytes. */
  lemma FillAgrees(data: seq<Byte>, p: nat)
    requires p + 5 <= |ZeroFill(ToBits(data))|
    ensures p + 5 <= |ToBits(data + [0, 0])|
    ensures ZeroFill(ToBits(data))[p .. p + 5] == ToBits(data + [0, 0])[p .. p + 5]
  {
    var bits := ToBits(data);
    var z := ZeroFill(bits);
    var ext := ToBits(data + [0, 0]);
    ExtendedBits(data);
    forall j | p <= j < p + 5
      ensures z[j] == ext[j]
    {
      if j < |bits| {
        assert z[..|bits|] == bits;
        assert z[j] == bits[j] == ext[j];
      } else {
        assert z[j] == false && ext[j] == false;
      }
    }
  }

  /** Bits r..r+4 of the 16-bit word at byte k, read as a number. */
  lemma WordField(d: seq<Byte>, k: nat, o: nat, r: nat)
    requires k + 1 < |d| && o == 8 * k && r < 8
    ensures o + r + 5 <= |ToBits(d)|
    ensures ToNat(ToBits(d)[o + r .. o + r + 5]) == ((256 * (d[k] as int) + d[k + 1] as int) / Shift(11 - r)) % 32
  {
    var ext := ToBits(d);
    var word := ext[o .. o + 16];
    WordValue(d, k, o);
    assert word[r .. r + 5] == ext[o + r .. o + r + 5] by {
      SliceOfSlice(ext, o, o + 16, r, r + 5);
    }
    assert |word| == 16;
    ToNatSlice(word, r, r + 5);
    Pow2Values();
  }

  lemma SliceOfSlice(s: Bits, a: nat, b: nat, c: nat, d: nat)
    requires a <= b <= |s| && c <= d <= b - a
    ensures s[a..b][c..d] == s[a + c .. a + d]
  {
    var x, y := s[a..b][c..d], s[a + c .. a + d];
    assert |x| == |y|;
    forall j | 0 <= j < |x|
      ensures x[j] == y[j]
    {
      assert x[j] == s[a..b][c + j] == s[a + c + j];
    }
  }

  /** Two zero bytes appended add sixteen zero bits. */
  lemma ExtendedBits(data: seq<Byte>)
    ensures ToBits(data + [0, 0]) == ToBits(data) + Zeros(16)
  {
    var d1 := data + [0];
    var d2 := data + [0, 0];
    assert d2[..|d2| - 1] == d1 && d1[..|d1| - 1] == data;
    assert ByteBits(0) == Zeros(8);
    assert Zeros(8) + Zeros(8) == Zeros(16);
  }

  /** Bits o..o+15 (o = 8k) read as a number are the 16-bit word of bytes k
      and k+1. */
  lemma WordValue(d: seq<Byte>, k: nat, o: nat)
    requires k + 1 < |d| && o == 8 * k
    ensures o + 16 <= |ToBits(d)|
    ensures ToNat(ToBits(d)[o .. o + 16]) == 256 * (d[k] as int) + d[k + 1] as int
  {
    var b := ToBits(d);
    var hi, lo := ByteBits(d[k]), ByteBits(d[k + 1]);
    assert b[o .. o + 16] == hi + lo by {
      ToBitsByte(d, k);
      ToBitsByte(d, k + 1);
      assert b[o .. o + 8] == hi && b[o + 8 .. o + 16] == lo;
      assert b[o .. o + 16] == b[o .. o + 8] + b[o + 8 .. o + 16];
    }
    assert ToNat(hi + lo) == ToNat(hi) * 256 + ToNat(lo) by {
      ToNatAppend(hi, lo);
      Pow2Values();
    }
    ByteBitsValue(d[k]);
    ByteBitsValue(d[k + 1]);
  }

  /** Bits a..b-1 of a bit string, read as a number, are its value shifted right
      by |w| - b and masked to b - a bits. */
  lemma ToNatSlice(w: Bits, a: nat, b: nat)
    requires a <= b <= |w|
    ensures ToNat(w[a..b]) == (ToNat(w) / Pow2(|w| - b)) % Pow2(b - a)
  {
    var head, tail := w[..b], w[b..];
    assert w == head + tail;
    ToNatAppend(head, tail);
    DivUnique(ToNat(w), Pow2(|w| - b), ToNat(head), ToNat(tail));
    var front, mid := head[..a], head[a..];
    assert head == front + mid && mid == w[a..b];
    ToNatAppend(front, mid);
    ModUnique(ToNat(head), Pow2(b - a), ToNat(front), ToNat(mid));
  }

  lemma DivUnique(n: nat, d: nat, q: nat, r: nat)
    requires d > 0 && r < d && n == q * d + r
    ensures n / d == q
  {
    var q', r' := n / d, n % d;
    assert n == q' * d + r';
    if q > q' {
      var k := q - q';
      assert q * d == q' * d + k * d;
      MulAtLeast(d, k);
      assert false;
    } else if q < q' {
      var k := q' - q;
      assert q' * d == q * d + k * d;
      MulAtLeast(d, k);
      assert false;
    }
  }

  lemma ModUnique(n: nat, d: nat, q: nat, r: nat)
    requires d > 0 && r < d && n == q * d + r
    ensures n % d == r
  {
    DivUnique(n, d, q, r);
  }

  lemma MulAtLeast(d: nat, k: nat)
    requires k >= 1
    ensures k * d >= d
  {
  }

  /** `encode` symbol by symbol, from the arithmetic fields. */
  lemma EncodeFields(cfg: Config, data: seq<Byte>)
    requires cfg.Valid() && |data| > 0
    ensures var r := EncodeText(cfg, data); var n := CeilDiv(8 * |data|, 5);
      && n <= |r|
      && (forall i :: 0 <= i < n ==> r[i] == cfg.alphabet[SymbolValue(data, i)])
      && PaddedTo(cfg, n, r)
  {
    var r := EncodeText(cfg, data);
    forall i | 0 <= i < CeilDiv(8 * |data|, 5)
      ensures r[i] == cfg.alphabet[SymbolValue(data, i)]
    {
      GroupValueIsField(data, i);
    }
  }

  /** The padding rule fixes the length, so the symbols and the padding rule
      determine the encoded text completely. */
  lemma PaddedTextUnique(cfg: Config, n: nat, r: string, t: string)
    requires n <= |r| && n <= |t| && PaddedTo(cfg, n, r) && PaddedTo(cfg, n, t)
    requires forall i :: 0 <= i < n ==> r[i] == t[i]
    ensures r == t
  {
    assert |r| == |t|;
    forall i | 0 <= i < |r|
      ensures r[i] == t[i]
    {
    }
  }

  /** `encode` yields text t when t holds the field symbols and the padding. */
  lemma EncodeIs(cfg: Config, data: seq<Byte>, t: string)
    requires cfg.Valid() && |data| > 0
    requires CeilDiv(8 * |data|, 5) <= |t| && PaddedTo(cfg, CeilDiv(8 * |data|, 5), t)
    requires Spells(cfg.alphabet, data, t, 0, CeilDiv(8 * |data|, 5))
    ensures EncodeText(cfg, data) == t
    ensures !PhpEmptyBytes(data) ==> Encode(cfg, data) == t
  {
    var n, r := CeilDiv(8 * |data|, 5), EncodeText(cfg, data);
    SpellsAll(cfg.alphabet, data, t, 0, n);
    assert n <= |r| && PaddedTo(cfg, n, r) && forall i :: 0 <= i < n ==> r[i] == t[i] by {
      EncodeFields(cfg, data);
    }
    PaddedTextUnique(cfg, n, r, t);
  }

  /** The encoder's text, from a check of its symbols and padding. */
  lemma SpelledText(cfg: Config, data: seq<Byte>, t: string, n: nat)
    requires cfg.Valid() && |data| > 0 && n == CeilDiv(8 * |data|, 5)
    requires n <= |t| && PaddedTo(cfg, n, t) && Spells(cfg.alphabet, data, t, 0, n)
    ensures EncodeText(cfg, data) == t
    ensures !PhpEmptyBytes(data) ==> Encode(cfg, data) == t
  {
    EncodeIs(cfg, data, t);
  }

  /** Symbol i from the two bytes that hold it. */
  lemma SymbolFromBytes(data: seq<Byte>, i: nat, k: nat, r: nat, hi: Byte, lo: Byte)
    requires k == 5 * i / 8 && r == 5 * i % 8
    requires ByteAt(data, k) == hi && ByteAt(data, k + 1) == lo
    ensures SymbolValue(data, i) == ((256 * (hi as int) + lo as int) / Shift(11 - r)) % 32
  {
  }

  /** Characters i..n-1 of t are the symbols of fields i..n-1 of the input. */
  predicate Spells(alphabet: string, data: seq<Byte>, t: string, i: nat, n: nat)
    requires |alphabet| == 32 && n <= |t|
    decreases n - i
  {
    i >= n || (t[i] == alphabet[SymbolValue(data, i)] && Spells(alphabet, data, t, i + 1, n))
  }

  lemma {:induction false} SpellsAll(alphabet: string, data: seq<Byte>, t: string, i: nat, n: nat)
    requires |alphabet| == 32 && n <= |t| && Spells(alphabet, data, t, i, n)
    ensures forall j :: i <= j < n ==> t[j] == alphabet[SymbolValue(data, j)]
    decreases n - i
  {
    if i < n {
      SpellsAll(alphabet, data, t, i + 1, n);
    }
  }
}
