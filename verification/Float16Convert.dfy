/** Conversion to integers, and the round trip through a half. */
module Float16Convert {
  import opened Powers
  import opened Half
  import opened Float16Product

  /** f16_int without the sign: the significand shifted by the raw exponent field, in 16 bits. */
  function Shifted(h: Word): nat {
    var m := if h < 1024 then h else h % 1024 + 1024;
    var shift := h / 1024 - 25;
    if shift > 0 then m * Pow2(shift) % 0x1_0000 else Shr(m, -shift)
  }

  function ToInt(a: Word): int {
    var value: int := Shifted(Abs(a));
    if Negative(a) then -value else value
  }

  /** The integer part of a / 2^24, rounded toward zero. */
  function Truncated(v: int): int {
    if v < 0 then -(-v / ONE) else v / ONE
  }

  /** Every finite half converts to its integer part. */
  lemma ToIntTruncates(a: Word)
    requires IsFinite(a)
    ensures ToInt(a) == Truncated(Val(a))
  {
    MagnitudeTruncates(Abs(a));
    SignedTruncates(Mag(Abs(a)), Negative(a));
  }

  lemma SignedTruncates(m: nat, negative: bool)
    ensures Truncated(if negative then -(m as int) else m) == if negative then -(m / ONE) else m / ONE
  {
  }

  lemma MagnitudeTruncates(h: Word)
    requires h < INF
    ensures Shifted(h) == Mag(h) / ONE
  {
    if h < 1024 {
      SubnormalHalf(h);
    } else if h / 1024 > 25 {
      IntegralHalf(h);
      Wide(Significand(h) * Pow2(h / 1024 - 25));
    } else {
      FractionalHalf(h);
    }
  }

  lemma Wide(m: int)
    requires 0 <= m < 0x1_0000
    ensures m % 0x1_0000 == m
  {
  }

  lemma SubnormalHalf(h: Word)
    requires h < 1024
    ensures Shr(h, 25) == 0 && Mag(h) / ONE == 0
  {
    Pow2Values();
    assert Pow2(25) == 2 * Pow2(24);
    ZeroQuotient(Shr(h, 25), Pow2(25), h);
  }

  lemma ZeroQuotient(w: int, p: int, m: int)
    requires w >= 0 && p > 0 && w * p <= m < p
    ensures w == 0
  {
    if w >= 1 {
      MulMono(1, w, p);
    }
  }

  lemma IntegralHalf(h: Word)
    requires 1024 <= h < INF && h / 1024 > 25
    ensures var m := Significand(h) * Pow2(h / 1024 - 25);
            m < 0x1_0000 && Mag(h) == m * ONE && Mag(h) / ONE == m
  {
    var shift := h / 1024 - 25;
    Pow2Monotone(shift, 5);
    Pow2Values();
    MulMono(Pow2(shift), 32, Significand(h));
    Pow2By24(shift);
    assert shift + 24 == h / 1024 - 1;
    assert Significand(h) * (Pow2(shift) * ONE) == Significand(h) * Pow2(shift) * ONE;
  }

  lemma FractionalHalf(h: Word)
    requires 1024 <= h < INF && h / 1024 <= 25
    ensures Mag(h) / ONE == Shr(Significand(h), 25 - h / 1024)
  {
    var n := 25 - h / 1024;
    Pow2Values();
    Pow2Add(n, h / 1024 - 1);
    assert n + (h / 1024 - 1) == 24;
    ScaledQuotient(Significand(h), Shr(Significand(h), n), Pow2(n), Ulp(h));
  }

  lemma ScaledQuotient(m: int, w: int, s: int, u: int)
    requires u > 0 && s * u == ONE && w * s <= m < (w + 1) * s
    ensures m * u / ONE == w
  {
    MulMono(w * s, m, u);
    MulStrict(m, (w + 1) * s, u);
    assert w * s * u == w * (s * u) && (w + 1) * s * u == (w + 1) * (s * u);
    DivUnique(m * u, ONE, w);
  }

  /** n cut down to its 11 leading bits. */
  function Leading11(n: nat): nat {
    if n < 2048 then n else 2 * Leading11(n / 2)
  }

  /** The leading bits of n are a significand shifted by k. */
  lemma {:induction false} LeadingBits(n: nat) returns (m: nat, k: nat)
    requires n >= 1024
    ensures 1024 <= m < 2048
    ensures Leading11(n) == m * Pow2(k) <= n < (m + 1) * Pow2(k)
  {
    if n < 2048 {
      m, k := n, 0;
    } else {
      m, k := LeadingBits(n / 2);
      DoubleProducts(m, Pow2(k));
      k := k + 1;
    }
  }

  lemma DoubleProducts(m: int, s: int)
    ensures m * (2 * s) == 2 * (m * s) && (m + 1) * (2 * s) == 2 * ((m + 1) * s)
  {
  }

  lemma SmallShift(n: nat, m: nat, k: nat)
    requires m >= 1024 && m * Pow2(k) <= n < 0x1_0000
    ensures k <= 5
  {
    if k > 5 {
      Pow2Values();
      Pow2Monotone(6, k);
      MulMono(64, Pow2(k), m);
    }
  }

  /** The half of a small integer, normalized up. */
  lemma SmallHalf(n: nat, m: nat, e: nat)
    requires 0 < n && 0 < m < 2048 && 1 <= e <= 25 && IsExact(m, e, n * ONE)
    ensures exists k: Word :: k < INF && Mag(k) == n * ONE
    decreases e
  {
    if m >= 1024 {
      PackMag(m, e);
      assert Pack(m, e) < INF && Mag(Pack(m, e)) == n * ONE;
    } else {
      SmallExponent(m, e, n * ONE);
      SmallHalf(n, m * 2, e - 1);
    }
  }

  /** f16_from_int is exact up to 2048. */
  lemma FromIntExact(n: nat, h: Word)
    requires 0 < n <= 2048 && Truncates(h, n * ONE, 1)
    ensures h < INF && Mag(h) == n * ONE
  {
    if n == 2048 {
      PackInteger(1024, 1, n);
      TruncatesUnique(h, Pack(1024, 26), n * ONE, 1);
    } else {
      IntegerBrackets(n);
      SmallHalf(n, n, 25);
      var k: Word :| k < INF && Mag(k) == n * ONE;
      TruncatesExact(h, k, 1);
    }
  }

  /** For |n| < 2^16, f16_int(f16_from_int(n)) is n cut down to its 11 leading bits. */
  lemma IntRoundTrip(n: int, r: Word)
    requires -0x1_0000 < n < 0x1_0000 && IsFromInt(n, r)
    ensures IsFinite(r)
    ensures n >= 0 ==> ToInt(r) == Leading11(n)
    ensures n < 0 ==> ToInt(r) == 0 - Leading11(-n)
  {
    if n > 0 {
      LeadingShifted(n, Abs(r));
    } else if n < 0 {
      LeadingShifted(-n, Abs(r));
    } else {
      SubnormalHalf(0);
    }
  }

  lemma LeadingShifted(n: nat, h: Word)
    requires 0 < n < 0x1_0000 && Truncates(h, n * ONE, 1)
    ensures h < INF && Shifted(h) == Leading11(n)
  {
    LeadingMag(n, h);
    MagnitudeTruncates(h);
  }

  lemma LeadingMag(n: nat, h: Word)
    requires 0 < n < 0x1_0000 && Truncates(h, n * ONE, 1)
    ensures h < INF && Mag(h) == Leading11(n) * ONE
  {
    if n < 2048 {
      FromIntExact(n, h);
    } else {
      var m, k := LeadingBits(n);
      SmallShift(n, m, k);
      PackInteger(m, k, n);
      TruncatesUnique(h, Pack(m, k + 25), n * ONE, 1);
    }
  }

  lemma PackInteger(m: nat, k: nat, n: nat)
    requires 1024 <= m < 2048 && k <= 5 && m * Pow2(k) <= n < (m + 1) * Pow2(k)
    ensures Pack(m, k + 25) < INF
    ensures Mag(Pack(m, k + 25)) == m * Pow2(k) * ONE
    ensures Truncates(Pack(m, k + 25), n * ONE, 1)
  {
    Pow2By24(k);
    LeadingBracket(m, Pow2(k), n);
    PackMag(m, k + 25);
    PackBracket(m, k + 25, n * ONE, 1);
  }

  lemma LeadingBracket(m: int, s: int, n: int)
    requires m * s <= n < (m + 1) * s
    ensures m * (s * ONE) == m * s * ONE
    ensures m * (s * ONE) <= n * ONE < (m + 1) * (s * ONE)
  {
    assert m * (s * ONE) == m * s * ONE && (m + 1) * (s * ONE) == (m + 1) * s * ONE;
  }
}
