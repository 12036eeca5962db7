/** Bit strings, most significant bit first, and the conversions the encoders
    perform with `bindec`, `decbin`, `gmp_strval(_, 2)`, `sprintf("%0Nb")`,
    `str_pad` and `str_split`. A PHP binary string "0110" is the bit string
    [false, true, true, false]. */
module Bits {

  type Bits = seq<bool>

  function Pow2(n: nat): (r: nat)
    ensures r >= 1
  {
    if n == 0 then 1 else 2 * Pow2(n - 1)
  }

  lemma Pow2Values()
    ensures Pow2(5) == 32 && Pow2(8) == 256
  {
    assert Pow2(5) == 32;
  }

  lemma {:induction false} Pow2Monotone(a: nat, b: nat)
    requires a <= b
    ensures Pow2(a) <= Pow2(b)
    decreases b - a
  {
    if a < b {
      Pow2Monotone(a + 1, b);
    }
  }

  function Bit(b: bool): nat
  {
    if b then 1 else 0
  }

  function Zeros(k: nat): (r: Bits)
    ensures |r| == k
    ensures forall i :: 0 <= i < k ==> !r[i]
  {
    seq(k, i => false)
  }

  /** The unsigned value of a bit string (`bindec`). */
  function ToNat(b: Bits): (n: nat)
    ensures n < Pow2(|b|)
  {
    if |b| == 0 then 0 else 2 * ToNat(b[..|b| - 1]) + Bit(b[|b| - 1])
  }

  /** The low `w` bits of `n`, left-filled with zeros (`sprintf("%0wb", n)` when n < 2^w). */
  function FromNat(n: nat, w: nat): (r: Bits)
    ensures |r| == w
  {
    if w == 0 then [] else FromNat(n / 2, w - 1) + [n % 2 == 1]
  }

  /** The minimal binary numeral of `n` (`decbin`, `gmp_strval(_, 2)`): "0" for
      zero, otherwise no leading zero bit. */
  function Minimal(n: nat): (r: Bits)
    ensures |r| >= 1 && ToNat(r) == n
    ensures n == 0 ==> r == [false]
    ensures n > 0 ==> r[0]
  {
    if n < 2 then
      [n == 1]
    else
      var p := Minimal(n / 2);
      assert (p + [n % 2 == 1])[..|p|] == p;
      p + [n % 2 == 1]
  }

  /** `str_pad($b, $w, "0", STR_PAD_LEFT)`: never truncates. */
  function PadLeft(b: Bits, w: nat): (r: Bits)
    ensures |r| == if |b| >= w then |b| else w
    ensures forall i :: 0 <= i < |r| ==> r[i] == (i >= |r| - |b| && b[i - (|r| - |b|)])
  {
    if |b| >= w then b else Zeros(w - |b|) + b
  }

  /** `str_pad($b, $w, "0", STR_PAD_RIGHT)`: never truncates. */
  function PadRight(b: Bits, w: nat): (r: Bits)
    ensures |r| == if |b| >= w then |b| else w
    ensures r[..|b|] == b && forall i :: |b| <= i < |r| ==> !r[i]
  {
    if |b| >= w then b else b + Zeros(w - |b|)
  }

  function Flatten(chunks: seq<Bits>): (r: Bits)
  {
    if |chunks| == 0 then [] else chunks[0] + Flatten(chunks[1..])
  }

  /** `str_split($b, $k)` as in PHP before 8.2: the empty string splits into one
      empty chunk; otherwise chunks of `k` bits and a last chunk of 1..k bits. */
  function Split(b: Bits, k: nat): (r: seq<Bits>)
    requires k > 0
    ensures |r| >= 1
    ensures forall i :: 0 <= i < |r| - 1 ==> |r[i]| == k
    ensures |b| > 0 ==> 0 < |r[|r| - 1]| <= k
    ensures |b| == 0 ==> r == [[]]
    decreases |b|
  {
    if |b| <= k then
      [b]
    else
      [b[..k]] + Split(b[k..], k)
  }

  /** Lines like `$binary[] = str_pad(array_pop($binary), $k, "0", STR_PAD_RIGHT)`. */
  function PadLastRight(chunks: seq<Bits>, k: nat): (r: seq<Bits>)
    requires |chunks| > 0
    ensures |r| == |chunks|
    ensures forall i :: 0 <= i < |r| - 1 ==> r[i] == chunks[i]
    ensures var last, p := chunks[|chunks| - 1], r[|r| - 1];
      && |p| == (if |last| >= k then |last| else k)
      && p[..|last|] == last
      && forall j :: |last| <= j < |p| ==> !p[j]
  {
    chunks[..|chunks| - 1] + [PadRight(chunks[|chunks| - 1], k)]
  }

  lemma {:induction false} ToNatAppend(a: Bits, b: Bits)
    ensures ToNat(a + b) == ToNat(a) * Pow2(|b|) + ToNat(b)
    decreases |b|
  {
    if |b| == 0 {
      assert a + b == a;
    } else {
      var b' := b[..|b| - 1];
      assert (a + b)[..|a + b| - 1] == a + b';
      assert (a + b)[|a + b| - 1] == b[|b| - 1];
      ToNatAppend(a, b');
      var x, y, p := ToNat(a), ToNat(b'), Pow2(|b'|);
      var c := Bit(b[|b| - 1]);
      assert ToNat(a + b) == 2 * ToNat(a + b') + c;
      assert ToNat(b) == 2 * y + c;
      assert Pow2(|b|) == 2 * p;
      MulDouble(x, p);
    }
  }

  lemma MulDouble(x: nat, p: nat)
    ensures 2 * (x * p) == x * (2 * p)
  {
  }

  lemma {:induction false} ToNatZeros(k: nat)
    ensures ToNat(Zeros(k)) == 0
  {
    if k > 0 {
      assert Zeros(k)[..k - 1] == Zeros(k - 1);
      ToNatZeros(k - 1);
    }
  }

  /** Leading zero bits do not change the value. */
  lemma ToNatLeadingZeros(k: nat, b: Bits)
    ensures ToNat(Zeros(k) + b) == ToNat(b)
  {
    ToNatAppend(Zeros(k), b);
    ToNatZeros(k);
  }

  /** A bit string whose first bit is set is worth at least 2^(|b|-1). */
  lemma {:induction false} ToNatLeadingOne(b: Bits)
    requires |b| > 0 && b[0]
    ensures ToNat(b) >= Pow2(|b| - 1)
  {
    assert b == [b[0]] + b[1..];
    ToNatAppend([b[0]], b[1..]);
    assert ToNat([b[0]]) == 2 * ToNat([]) + Bit(b[0]);
  }

  lemma {:induction false} ToNatFromNat(n: nat, w: nat)
    requires n < Pow2(w)
    ensures ToNat(FromNat(n, w)) == n
  {
    if w > 0 {
      ToNatFromNat(n / 2, w - 1);
      var r := FromNat(n, w);
      assert r[..w - 1] == FromNat(n / 2, w - 1);
    }
  }

  lemma {:induction false} FromNatToNat(b: Bits)
    ensures FromNat(ToNat(b), |b|) == b
  {
    if |b| > 0 {
      var p := b[..|b| - 1];
      FromNatToNat(p);
      assert b == p + [b[|b| - 1]];
    }
  }

  /** Two bit strings of one length with one value are the same string. */
  lemma ToNatInjective(a: Bits, b: Bits)
    requires |a| == |b| && ToNat(a) == ToNat(b)
    ensures a == b
  {
    FromNatToNat(a);
    FromNatToNat(b);
  }

  /** `str_pad(decbin(n), w, "0", STR_PAD_LEFT)` is the fixed-width numeral of `n`
      whenever `n` fits in `w >= 1` bits. */
  lemma {:induction false} PadLeftMinimal(n: nat, w: nat)
    requires w >= 1 && n < Pow2(w)
    ensures PadLeft(Minimal(n), w) == FromNat(n, w)
  {
    var m := Minimal(n);
    if n > 0 && |m| > w {
      ToNatLeadingOne(m);
      Pow2Monotone(w, |m| - 1);
      assert false;
    }
    assert |m| <= w;
    ToNatLeadingZeros(w - |m|, m);
    ToNatFromNat(n, w);
    ToNatInjective(PadLeft(m, w), FromNat(n, w));
  }

  lemma {:induction false} FlattenAppend(a: seq<Bits>, b: seq<Bits>)
    ensures Flatten(a + b) == Flatten(a) + Flatten(b)
  {
    if |a| == 0 {
      assert a + b == b;
    } else {
      assert (a + b)[1..] == a[1..] + b;
      FlattenAppend(a[1..], b);
    }
  }

  /** Joining the chunks of `str_split` gives back the string. */
  lemma {:induction false} SplitFlatten(b: Bits, k: nat)
    requires k > 0
    ensures Flatten(Split(b, k)) == b
    decreases |b|
  {
    var r := Split(b, k);
    if |b| > k {
      var rest := Split(b[k..], k);
      assert r == [b[..k]] + rest;
      assert r[1..] == rest;
      assert Flatten(r) == b[..k] + Flatten(rest);
      SplitFlatten(b[k..], k);
      SliceJoin(b, k);
    } else {
      assert r == [b];
      assert Flatten(r) == b + Flatten([]);
      assert b + [] == b;
    }
  }

  lemma SliceJoin(b: Bits, k: nat)
    requires k <= |b|
    ensures b[..k] + b[k..] == b
  {
  }

  /** Every chunk of `str_split` but the last is the k-bit window at k*i. */
  lemma SplitChunk(b: Bits, k: nat, i: nat)
    requires k > 0 && i < |Split(b, k)| - 1
    ensures k * i + k <= |b| && Split(b, k)[i] == b[k * i .. k * i + k]
  {
    SplitChunkAt(b, k, i, k * i);
  }

  lemma {:induction false} SplitChunkAt(b: Bits, k: nat, i: nat, off: nat)
    requires k > 0 && i < |Split(b, k)| - 1 && off == k * i
    ensures off + k <= |b| && Split(b, k)[i] == b[off .. off + k]
    decreases i
  {
    var r := Split(b, k);
    assert |b| > k;
    var b' := b[k..];
    assert r == [b[..k]] + Split(b', k);
    if i == 0 {
      assert off == 0;
    } else {
      var j := off - k;
      assert j == k * (i - 1) && j >= 0 by {
        MulPred(k, i);
      }
      SplitChunkAt(b', k, i - 1, j);
      assert r[i] == Split(b', k)[i - 1];
      assert b'[j .. j + k] == b[off .. off + k];
    }
  }

  lemma MulPred(k: nat, i: nat)
    requires i > 0
    ensures k + k * (i - 1) == k * i && k * (i - 1) >= 0
  {
  }

  /** `str_split` yields |r|-1 full chunks and a last chunk holding the rest. */
  lemma {:induction false} SplitCount(b: Bits, k: nat)
    requires k > 0
    ensures var r := Split(b, k); |b| == k * (|r| - 1) + |r[|r| - 1]|
    decreases |b|
  {
    var r := Split(b, k);
    if |b| > k {
      var r' := Split(b[k..], k);
      assert r == [b[..k]] + r';
      assert r[|r| - 1] == r'[|r'| - 1];
      SplitCount(b[k..], k);
      var n := |r'|;
      assert k + k * (n - 1) == k * n by {
        MulPred(k, n);
      }
    } else {
      assert r == [b];
    }
  }

  /** The last chunk of `str_split` is the tail after all full chunks. */
  lemma {:induction false} SplitLast(b: Bits, k: nat)
    requires k > 0
    ensures var r := Split(b, k); k * (|r| - 1) <= |b| && r[|r| - 1] == b[k * (|r| - 1)..]
    decreases |b|
  {
    if |b| > k {
      SplitLast(b[k..], k);
      var r' := Split(b[k..], k);
      MulPred(k, |r'|);
    }
  }
}
