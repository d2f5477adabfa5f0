/**
 * The 8-byte record header: the JSON byte length written with
 * `writeDoubleBE` and read back with `readDoubleBE`, that is, as a big-endian
 * IEEE 754 binary64 number. Only what the codec needs is modelled: the bit
 * pattern of a non-negative integer, and the recognition of bit patterns that
 * denote non-negative integers.
 */
module LengthHeader {
  import opened Wrappers
  import Octets

  type Bytes = Octets.Bytes

  const HeaderSize: nat := 8
  /** Width of the fraction field of a binary64 number. */
  const FractionBits: nat := 52
  /** Width of the exponent field of a binary64 number. */
  const ExponentBits: nat := 11
  /** The exponent bias of binary64. */
  const Bias: nat := 1023
  /** The all-ones exponent field, used for infinities and NaN. */
  const SpecialExponent: nat := 2047

  function Pow2(e: nat): (r: nat)
    ensures r >= 1
  {
    if e == 0 then 1 else 2 * Pow2(e - 1)
  }

  lemma {:induction false} Pow2Add(a: nat, b: nat)
    ensures Pow2(a + b) == Pow2(a) * Pow2(b)
  {
    if a > 0 {
      Pow2Add(a - 1, b);
      assert Pow2(a + b) == 2 * Pow2(a - 1 + b);
    }
  }

  lemma {:induction false} Pow2Monotone(a: nat, b: nat)
    requires a <= b
    ensures Pow2(a) <= Pow2(b)
  {
    if a < b {
      Pow2Monotone(a, b - 1);
    }
  }

  /** The exponent of the highest set bit of `n`. */
  function Log2(n: nat): nat
    requires n >= 1
  {
    if n < 2 then 0 else 1 + Log2(n / 2)
  }

  lemma {:induction false} Log2Bounds(n: nat)
    requires n >= 1
    ensures Pow2(Log2(n)) <= n < Pow2(Log2(n) + 1)
  {
    if n >= 2 {
      Log2Bounds(n / 2);
    }
  }

  /** Below 2^53 every natural number is a binary64 number exactly. */
  ghost predicate Exact(n: nat) {
    n < Pow2(FractionBits + 1)
  }

  lemma Log2Exact(n: nat)
    requires 1 <= n && Exact(n)
    ensures Log2(n) <= FractionBits
  {
    Log2Bounds(n);
    if Log2(n) > FractionBits {
      Pow2Monotone(FractionBits + 1, Log2(n));
    }
  }

  // ---------------------------------------------------------------------------
  // Shifting right by whole bits

  lemma DivNonnegative(x: nat, d: nat)
    requires d >= 1
    ensures 0 <= x / d && x % d < d
  {
  }

  /** `x` shifted right by `e` bits. */
  function Quot(x: nat, e: nat): nat {
    DivNonnegative(x, Pow2(e));
    x / Pow2(e)
  }

  /** The `e` low-order bits of `x`. */
  function Rem(x: nat, e: nat): (r: nat)
    ensures r < Pow2(e)
  {
    DivNonnegative(x, Pow2(e));
    x % Pow2(e)
  }

  lemma QuotRem(x: nat, e: nat)
    ensures x == Quot(x, e) * Pow2(e) + Rem(x, e)
  {
  }

  lemma MulNonnegative(a: nat, b: nat)
    ensures 0 <= a * b
  {
  }

  lemma MulAtLeast(k: nat, d: nat)
    requires k >= 1
    ensures k * d >= d
  {
  }

  lemma DivModOfSum(a: nat, b: nat, d: nat)
    requires b < d
    ensures (a * d + b) / d == a && (a * d + b) % d == b
  {
    var q := (a * d + b) / d;
    if q > a {
      MulAtLeast(q - a, d);
      assert false;
    } else if q < a {
      MulAtLeast(a - q, d);
      assert false;
    }
  }

  lemma DivBelow(x: nat, d: nat, m: nat)
    requires d >= 1 && x < m * d
    ensures x / d < m
  {
    var q := x / d;
    if q >= m {
      MulAtLeast(1, d);
      MulMonotone(m, q, d);
      assert false;
    }
  }

  lemma MulMonotone(a: nat, b: nat, d: nat)
    requires a <= b
    ensures a * d <= b * d
  {
  }

  /** Shifting `a * 2^e + b` right by `e` bits leaves `a`, and drops `b`. */
  lemma QuotOfSum(a: nat, b: nat, e: nat)
    requires b < Pow2(e)
    ensures Quot(a * Pow2(e) + b, e) == a && Rem(a * Pow2(e) + b, e) == b
  {
    DivModOfSum(a, b, Pow2(e));
  }

  /** A number below `2^e` shifted right by `e` bits is 0. */
  lemma QuotSmall(x: nat, e: nat)
    requires x < Pow2(e)
    ensures Quot(x, e) == 0
  {
    DivModOfSum(0, x, Pow2(e));
  }

  lemma QuotBound(x: nat, e: nat, b: nat)
    requires x < Pow2(e + b)
    ensures Quot(x, e) < Pow2(b)
  {
    Pow2Add(b, e);
    DivBelow(x, Pow2(e), Pow2(b));
  }

  // ---------------------------------------------------------------------------
  // Big-endian bytes

  /** The `k` low-order bytes of `x`, most significant first. */
  function ToBigEndian(x: nat, k: nat): (r: Bytes)
    ensures |r| == k
  {
    if k == 0 then []
    else
      assert Pow2(8) == 256;
      ToBigEndian(Quot(x, 8), k - 1) + [Rem(x, 8) as Octets.byte]
  }

  /** The number whose big-endian bytes are `s`. */
  function FromBigEndian(s: Bytes): nat {
    if |s| == 0 then 0 else FromBigEndian(s[..|s| - 1]) * 256 + s[|s| - 1] as nat
  }

  lemma {:induction false} BigEndianRoundTrip(x: nat, k: nat)
    requires x < Pow2(8 * k)
    ensures FromBigEndian(ToBigEndian(x, k)) == x
  {
    if k > 0 {
      var q, r := Quot(x, 8), Rem(x, 8);
      var s := ToBigEndian(x, k);
      assert Pow2(8) == 256;
      assert s == ToBigEndian(q, k - 1) + [r as Octets.byte];
      assert s[..k - 1] == ToBigEndian(q, k - 1);
      assert s[k - 1] as nat == r;
      assert 8 * k == 8 + 8 * (k - 1);
      QuotBound(x, 8, 8 * (k - 1));
      BigEndianRoundTrip(q, k - 1);
      QuotRem(x, 8);
      assert FromBigEndian(s) == q * 256 + r;
    }
  }

  // ---------------------------------------------------------------------------
  // binary64 bit patterns

  /** The fraction field of the binary64 number equal to `n`, for 1 <= n < 2^53. */
  function FractionOf(n: nat): (f: nat)
    requires 1 <= n && Exact(n)
    ensures f < Pow2(FractionBits)
  {
    var e := Log2(n);
    Log2Bounds(n);
    Log2Exact(n);
    ShiftedBelow(n - Pow2(e), e, FractionBits - e);
    assert e + (FractionBits - e) == FractionBits;
    (n - Pow2(e)) * Pow2(FractionBits - e)
  }

  /** An `e`-bit number shifted left by `k` bits has at most `e + k` bits. */
  lemma ShiftedBelow(a: nat, e: nat, k: nat)
    requires a < Pow2(e)
    ensures 0 <= a * Pow2(k) < Pow2(e + k)
  {
    Pow2Add(e, k);
    MulBelow(a, Pow2(e), Pow2(k));
  }

  lemma MulBelow(a: nat, b: nat, d: nat)
    requires a < b && d >= 1
    ensures 0 <= a * d < b * d
  {
  }

  /** The bit pattern of the binary64 number equal to `n`. */
  function DoubleBits(n: nat): nat
    requires Exact(n)
  {
    if n == 0 then 0
    else
      MulNonnegative(Bias + Log2(n), Pow2(FractionBits));
      (Bias + Log2(n)) * Pow2(FractionBits) + FractionOf(n)
  }

  /**
   * The non-negative integer a binary64 bit pattern denotes, or None when it
   * denotes a negative number, a number with a fractional part, an infinity
   * or NaN. Both zeros denote 0.
   */
  function IntegerOfBits(x: nat): Option<nat> {
    var sign := Quot(x, FractionBits + ExponentBits);
    var exponent := Rem(Quot(x, FractionBits), ExponentBits);
    var fraction := Rem(x, FractionBits);
    if exponent == 0 && fraction == 0 then Some(0)
    else if sign != 0 || exponent < Bias || exponent == SpecialExponent then None
    else if exponent - Bias <= FractionBits then
      var shift := FractionBits - (exponent - Bias);
      if Rem(fraction, shift) == 0 then Some(Pow2(exponent - Bias) + Quot(fraction, shift)) else None
    else
      MulNonnegative(fraction, Pow2(exponent - Bias - FractionBits));
      Some(Pow2(exponent - Bias) + fraction * Pow2(exponent - Bias - FractionBits))
  }

  lemma SumBelow(a: nat, f: nat, d: nat, m: nat)
    requires f < d && a < m
    ensures a * d + f < m * d
  {
    MulMonotone(a + 1, m, d);
  }

  /** Between 2^(e+w) and 2^(e+w+1), the `e + w` low-order bits are not all zero. */
  lemma LowBitsNonzero(x: nat, e: nat, w: nat)
    requires Pow2(e + w) < x < 2 * Pow2(e + w)
    ensures Quot(x, e + w) != 0
    ensures Rem(Quot(x, e), w) != 0 || Rem(x, e) != 0
  {
    var top := Pow2(e + w);
    QuotRem(x, e + w);
    var a := Quot(x, e);
    QuotRem(x, e);
    QuotRem(a, w);
    if Rem(a, w) == 0 && Rem(x, e) == 0 {
      var m := Quot(a, w);
      Pow2Add(w, e);
      assert x == m * top by {
        assert x == (m * Pow2(w)) * Pow2(e);
        assert w + e == e + w;
      }
      if m <= 1 {
        MulMonotone(m, 1, top);
      } else {
        MulMonotone(2, m, top);
      }
      assert false;
    }
  }

  /** In 2^(e+w) alone, the `e + w` low-order bits are all zero. */
  lemma TopBitFields(e: nat, w: nat)
    ensures Rem(Quot(Pow2(e + w), e), w) == 0 && Rem(Pow2(e + w), e) == 0
  {
    Pow2Add(w, e);
    assert w + e == e + w;
    assert Pow2(e + w) == Pow2(w) * Pow2(e) + 0;
    QuotOfSum(Pow2(w), 0, e);
    assert Pow2(w) == 1 * Pow2(w) + 0;
    QuotOfSum(1, 0, w);
  }

  /**
   * A pattern with the sign bit set denotes no length, except negative zero,
   * which denotes 0.
   */
  lemma SignedPattern(x: nat)
    requires x < Pow2(FractionBits + ExponentBits + 1)
    ensures x == Pow2(FractionBits + ExponentBits) ==> IntegerOfBits(x) == Some(0)
    ensures x > Pow2(FractionBits + ExponentBits) ==> IntegerOfBits(x).None?
  {
    if x == Pow2(FractionBits + ExponentBits) {
      TopBitFields(FractionBits, ExponentBits);
    } else if x > Pow2(FractionBits + ExponentBits) {
      LowBitsNonzero(x, FractionBits, ExponentBits);
    }
  }

  /** `k` bytes, big-endian, are a number below 2^(8k). */
  lemma {:induction false} BigEndianBound(s: Bytes)
    ensures FromBigEndian(s) < Pow2(8 * |s|)
    decreases |s|
  {
    if |s| > 0 {
      var k := |s| - 1;
      BigEndianBound(s[..k]);
      assert Pow2(8) == 256;
      SumBelow(FromBigEndian(s[..k]), s[k] as nat, 256, Pow2(8 * k));
      Pow2Add(8 * k, 8);
      assert 8 * |s| == 8 * k + 8;
    }
  }

  lemma DoubleBitsBelowSign(n: nat)
    requires Exact(n)
    ensures DoubleBits(n) < Pow2(FractionBits + ExponentBits)
  {
    Pow2Add(ExponentBits, FractionBits);
    assert Pow2(ExponentBits) == 2048;
    if n > 0 {
      Log2Exact(n);
      SumBelow(Bias + Log2(n), FractionOf(n), Pow2(FractionBits), 2048);
    }
  }

  /** The middle field of `hi * 2^e + f`, for an `e`-bit `f` and a `w`-bit `hi`, is `hi`. */
  lemma HighField(hi: nat, f: nat, e: nat, w: nat)
    requires f < Pow2(e) && hi < Pow2(w)
    ensures Rem(Quot(hi * Pow2(e) + f, e), w) == hi
  {
    QuotOfSum(hi, f, e);
    QuotOfSum(0, hi, w);
    assert 0 * Pow2(w) + hi == hi;
  }

  /** `hi * 2^e + f`, for an `e`-bit `f` and a `w`-bit `hi`, has nothing above bit `e + w`. */
  lemma NothingAbove(hi: nat, f: nat, e: nat, w: nat)
    requires f < Pow2(e) && hi < Pow2(w)
    ensures Quot(hi * Pow2(e) + f, e + w) == 0
  {
    MulNonnegative(hi, Pow2(e));
    var x := hi * Pow2(e) + f;
    assert x < Pow2(w + e) by {
      SumBelow(hi, f, Pow2(e), Pow2(w));
      Pow2Add(w, e);
    }
    assert w + e == e + w;
    QuotSmall(x, e + w);
  }

  /** The three fields of `x == hi * 2^e + f`, for an `e`-bit `f` and a `w`-bit `hi`. */
  lemma FieldsOf(x: nat, hi: nat, f: nat, e: nat, w: nat)
    requires f < Pow2(e) && hi < Pow2(w) && x == hi * Pow2(e) + f
    ensures Quot(x, e + w) == 0
    ensures Rem(Quot(x, e), w) == hi
    ensures Rem(x, e) == f
  {
    NothingAbove(hi, f, e, w);
    HighField(hi, f, e, w);
    QuotOfSum(hi, f, e);
  }

  /** The sign, exponent and fraction fields of the bit pattern of `n`. */
  lemma DoubleBitsFields(n: nat)
    requires 1 <= n && Exact(n)
    ensures Quot(DoubleBits(n), FractionBits + ExponentBits) == 0
    ensures Rem(Quot(DoubleBits(n), FractionBits), ExponentBits) == Bias + Log2(n)
    ensures Rem(DoubleBits(n), FractionBits) == FractionOf(n)
  {
    Log2Exact(n);
    assert Pow2(ExponentBits) == 2048;
    FieldsOf(DoubleBits(n), Bias + Log2(n), FractionOf(n), FractionBits, ExponentBits);
  }

  /** The fraction field of `n` holds the bits of `n` below its leading one. */
  lemma FractionFields(n: nat)
    requires 1 <= n && Exact(n)
    ensures Log2(n) <= FractionBits
    ensures Rem(FractionOf(n), FractionBits - Log2(n)) == 0
    ensures Pow2(Log2(n)) + Quot(FractionOf(n), FractionBits - Log2(n)) == n
  {
    Log2Bounds(n);
    Log2Exact(n);
    QuotOfSum(n - Pow2(Log2(n)), 0, FractionBits - Log2(n));
  }

  lemma DoubleBitsDenote(n: nat)
    requires Exact(n)
    ensures IntegerOfBits(DoubleBits(n)) == Some(n)
  {
    var x := DoubleBits(n);
    if n == 0 {
      QuotOfSum(0, 0, FractionBits);
      QuotOfSum(0, 0, ExponentBits);
    } else {
      DoubleBitsFields(n);
      FractionFields(n);
      var exponent := Rem(Quot(x, FractionBits), ExponentBits);
      assert exponent - Bias == Log2(n);
    }
  }

  // ---------------------------------------------------------------------------
  // The header

  /** `writeDoubleBE(n, 0)`: the header that records the length `n`. */
  function EncodeLength(n: nat): (h: Bytes)
    requires Exact(n)
    ensures |h| == HeaderSize
  {
    ToBigEndian(DoubleBits(n), HeaderSize)
  }

  /** `readDoubleBE(0)`, kept only when it yields a non-negative integer. */
  function DecodeLength(h: Bytes): (r: Option<nat>)
    requires |h| == HeaderSize
    ensures FromBigEndian(h) == Pow2(FractionBits + ExponentBits) ==> r == Some(0)
    ensures FromBigEndian(h) > Pow2(FractionBits + ExponentBits) ==> r.None?
  {
    BigEndianBound(h);
    assert 8 * |h| == FractionBits + ExponentBits + 1;
    SignedPattern(FromBigEndian(h));
    IntegerOfBits(FromBigEndian(h))
  }

  /** A header written for any length below 2^53 reads back as that length. */
  lemma LengthRoundTrip(n: nat)
    requires Exact(n)
    ensures DecodeLength(EncodeLength(n)) == Some(n)
  {
    DoubleBitsBelowSign(n);
    Pow2Add(FractionBits + ExponentBits, 1);
    BigEndianRoundTrip(DoubleBits(n), HeaderSize);
    DoubleBitsDenote(n);
  }
}
