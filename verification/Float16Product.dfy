/** Multiplication, division and conversion to and from integers (demo/float16.c). */
module Float16Product {
  import opened Powers
  import opened Half

  /** r is a * b truncated toward zero; a zero product loses its sign. */
  ghost predicate IsProduct(a: Word, b: Word, r: Word) {
    if IsNan(a) || IsNan(b) || (IsInf(a) && IsZero(b)) || (IsZero(a) && IsInf(b)) then
      r == 0x7FFF
    else if IsInf(a) || IsInf(b) then
      r == Signed(Negative(a) != Negative(b), INF)
    else if IsZero(a) || IsZero(b) then
      r == 0
    else
      && Negative(r) == (Negative(a) != Negative(b))
      && Truncates(Abs(r), Mag(Abs(a)) * Mag(Abs(b)), ONE)
  }

  /** r is a / b truncated toward zero; zero and finite-by-infinite quotients lose their sign. */
  ghost predicate IsQuotient(a: Word, b: Word, r: Word) {
    if IsNan(a) || IsNan(b) || (IsInf(a) && IsInf(b)) || (IsZero(a) && IsZero(b)) then
      r == 0x7FFF
    else if IsInf(a) || IsZero(b) then
      r == Signed(Negative(a) != Negative(b), INF)
    else if IsInf(b) || IsZero(a) then
      r == 0
    else
      && Negative(r) == (Negative(a) != Negative(b))
      && Truncates(Abs(r), Mag(Abs(a)) * ONE, Mag(Abs(b)))
  }

  /** r is the integer n truncated toward zero. */
  ghost predicate IsFromInt(n: int, r: Word) {
    if n == 0 then
      r == 0
    else
      && Negative(r) == (n < 0)
      && Truncates(Abs(r), (if n < 0 then -n else n) * ONE, 1)
  }

  /** The tail shared by f16_mul and f16_div: denormalize, overflow, or assemble. */
  method Assemble(negative: bool, v: nat, newExp: int, ghost p: int, ghost q: int) returns (res: Word)
    requires q > 0 && v < 2048 && newExp >= -31 && (newExp > 0 ==> v >= 1024)
    requires Brackets(v, newExp, p, q)
    ensures Negative(res) == negative && Truncates(Abs(res), p, q)
  {
    if newExp <= 0 {
      DenormTruncates(v, newExp, p, q);
      return Signed(negative, Shr(v, 1 - newExp) % 1024);
    }
    PackTruncates(v, newExp, p, q);
    if newExp >= 31 {
      return Signed(negative, INF);
    }
    return Signed(negative, newExp * 1024 + v % 1024);
  }

  lemma BracketsShift(v: nat, e: int, n: nat, p: int, q: int)
    requires q >= 0 && e >= -31 && Brackets(v, e, p, q)
    ensures Brackets(Shr(v, n), e + n, p, q)
  {
    var s, u, w := Pow2(n), Pow2(e + 31) * q, Shr(v, n);
    Pow2Add(e + 31, n);
    assert e + n + 31 == (e + 31) + n;
    assert Pow2(e + 31) * s * q == s * u;
    ShiftedBracket(v, w, s, u, p * 0x1_0000_0000);
  }

  lemma ShiftedBracket(v: nat, w: nat, s: nat, u: int, x: int)
    requires u >= 0 && w * s <= v < (w + 1) * s
    requires v * u <= x < (v + 1) * u
    ensures w * (s * u) <= x < (w + 1) * (s * u)
  {
    MulMono(w * s, v, u);
    MulMono(v + 1, (w + 1) * s, u);
    assert w * s * u == w * (s * u) && (w + 1) * s * u == (w + 1) * (s * u);
  }

  /** The unshifted product of significands, at the exponent where it is exact. */
  lemma ProductBrackets(x: Word, y: Word)
    requires 0 < x < INF && 0 < y < INF
    ensures Brackets(Significand(x) * Significand(y), Scale(x) + Scale(y) - 25, Mag(x) * Mag(y), ONE)
  {
    var u := Ulp(x) * Ulp(y);
    Pow2Add(Scale(x) - 1, Scale(y) - 1);
    assert Scale(x) - 1 + (Scale(y) - 1) + 8 == Scale(x) + Scale(y) - 25 + 31;
    Pow2Add(Scale(x) - 1 + (Scale(y) - 1), 8);
    assert Pow2(8) == 256;
    ProductRegroup(Significand(x), Significand(y), Ulp(x), Ulp(y));
    ExactBracket(Significand(x) * Significand(y), u);
  }

  lemma ProductRegroup(m1: int, m2: int, u1: int, u2: int)
    ensures (m1 * u1) * (m2 * u2) == (m1 * m2) * (u1 * u2)
  {
  }

  lemma ExactBracket(v: int, u: int)
    requires u > 0
    ensures v * (u * 256 * ONE) <= v * u * 0x1_0000_0000 < (v + 1) * (u * 256 * ONE)
  {
    assert v * (u * 0x1_0000_0000) == v * u * 0x1_0000_0000;
    assert (v + 1) * (u * 0x1_0000_0000) == v * (u * 0x1_0000_0000) + u * 0x1_0000_0000;
  }

  /** f16_mul */
  method Mul(a: Word, b: Word) returns (res: Word)
    ensures IsProduct(a, b, res)
  {
    var negative := Negative(a) != Negative(b);
    if Abs(a) >= INF || Abs(b) >= INF {
      if IsNan(a) || IsNan(b) || IsZero(a) || IsZero(b) {
        return NAN;
      }
      return Signed(negative, INF);
    }
    if IsZero(a) || IsZero(b) {
      return 0;
    }
    var x, y := Abs(a), Abs(b);
    res := MulMagnitudes(negative, x, y);
  }

  /** The rest of f16_mul, on nonzero finite magnitudes. */
  method MulMagnitudes(negative: bool, x: Word, y: Word) returns (res: Word)
    requires 0 < x < INF && 0 < y < INF
    ensures Negative(res) == negative && Truncates(Abs(res), Mag(x) * Mag(y), ONE)
  {
    var m1, m2 := Significand(x), Significand(y);
    var v := m1 * m2;
    SignificandProduct(m1, m2);
    ghost var p, q := Mag(x) * Mag(y), ONE;
    ProductBrackets(x, y);
    var newExp := Scale(x) + Scale(y) - 15;
    v, newExp := NormalizeProduct(v, newExp, p, q);
    res := Assemble(negative, v, newExp, p, q);
  }

  /** A product of significands brought to 11 bits, its exponent along with it. */
  method NormalizeProduct(v0: nat, exp: int, ghost p: int, ghost q: int) returns (v: nat, newExp: int)
    requires 0 < v0 < 0x40_0000 && exp >= -13 && (exp > 10 ==> v0 >= 1024)
    requires q >= 0 && Brackets(v0, exp - 10, p, q)
    ensures v < 2048 && newExp >= -31 && (newExp > 0 ==> v >= 1024) && Brackets(v, newExp, p, q)
  {
    TopBits(v0);
    if v0 / 0x20_0000 % 2 == 1 {
      v := ShiftTop(v0, exp - 10, 11, p, q);
      return v, exp + 1;
    } else if v0 / 0x10_0000 % 2 == 1 {
      v := ShiftTop(v0, exp - 10, 10, p, q);
      return v, exp;
    }
    v, newExp := ShiftLow(v0, exp - 10, p, q);
  }

  lemma TopBits(v: nat)
    requires v < 0x40_0000
    ensures v / 0x20_0000 % 2 == 1 <==> v >= 0x20_0000
    ensures v < 0x20_0000 ==> (v / 0x10_0000 % 2 == 1 <==> v >= 0x10_0000)
  {
  }

  method ShiftTop(v0: nat, e: int, n: nat, ghost p: int, ghost q: int) returns (v: nat)
    requires 10 <= n <= 11 && e >= -31 && q >= 0 && Brackets(v0, e, p, q)
    requires if n == 11 then 0x20_0000 <= v0 < 0x40_0000 else 0x10_0000 <= v0 < 0x20_0000
    ensures 1024 <= v < 2048 && Brackets(v, e + n, p, q)
  {
    BracketsShift(v0, e, n, p, q);
    ShrTop(v0, n);
    v := Shr(v0, n);
  }

  method ShiftLow(v0: nat, e: int, ghost p: int, ghost q: int) returns (v: nat, newExp: int)
    requires v0 > 0 && e >= -31 && (e > 0 ==> v0 >= 1024) && Brackets(v0, e, p, q)
    ensures v < 2048 && newExp >= e && (newExp > 0 ==> v >= 1024) && Brackets(v, newExp, p, q)
  {
    v, newExp := v0, e;
    while v >= 2048
      invariant newExp >= e && Brackets(v, newExp, p, q)
      invariant v >= 1024 || (v == v0 && newExp == e)
    {
      BracketsHalve(v, newExp, p, q);
      v := v / 2;
      newExp := newExp + 1;
    }
  }

  lemma SignificandProduct(m1: nat, m2: nat)
    requires 0 < m1 < 2048 && 0 < m2 < 2048
    ensures 0 < m1 * m2 < 0x40_0000
    ensures m1 >= 1024 || m2 >= 1024 ==> m1 * m2 >= 1024
  {
    MulStrict(m1, 2048, m2);
    MulStrict(0, m1, m2);
    if m1 >= 1024 {
      MulMono(1024, m1, m2);
    }
    if m2 >= 1024 {
      MulMono(1024, m2, m1);
    }
  }

  /** A product with its top bit at position n + 10 shifts down to a normalized significand. */
  lemma ShrTop(v: nat, n: nat)
    requires 10 <= n <= 11
    requires if n == 11 then 0x20_0000 <= v < 0x40_0000 else 0x10_0000 <= v < 0x20_0000
    ensures 1024 <= Shr(v, n) < 2048
  {
    assert Pow2(10) == 1024;
    assert Pow2(11) == 2048;
  }

  /** f16_div */
  method Div(a: Word, b: Word) returns (res: Word)
    ensures IsQuotient(a, b, res)
  {
    var negative := Negative(a) != Negative(b);
    if IsNan(a) || IsNan(b) || (Abs(a) >= INF && Abs(b) >= INF) || (IsZero(a) && IsZero(b)) {
      return NAN;
    }
    if Abs(a) >= INF || IsZero(b) {
      return Signed(negative, INF);
    }
    if Abs(b) >= INF {
      return 0;
    }
    if IsZero(a) {
      return 0;
    }
    var x, y := Abs(a), Abs(b);
    res := DivMagnitudes(negative, x, y);
  }

  /** The rest of f16_div, on nonzero finite magnitudes. */
  method DivMagnitudes(negative: bool, x: Word, y: Word) returns (res: Word)
    requires 0 < x < INF && 0 < y < INF
    ensures Negative(res) == negative && Truncates(Abs(res), Mag(x) * ONE, Mag(y))
  {
    var m1, m2 := Significand(x), Significand(y);
    var shifted := m1 * 1024;
    var v: nat, rem: nat := shifted / m2, shifted % m2;
    DivBracket(shifted, m2);
    var newExp := Scale(x) - Scale(y) + 15;
    ghost var k: nat := 0;
    // v and rem cannot both be zero here: the dividend is not.
    while v < 1024 && newExp > 0
      invariant newExp == Scale(x) - Scale(y) + 15 - k && (k == 0 || newExp >= 0)
      invariant v * m2 + rem == m1 * 1024 * Pow2(k) && rem < m2
      decreases newExp
    {
      DoubleDividend(v, rem, m2, m1 * 1024, k);
      v := v * 2;
      rem := rem * 2;
      if rem >= m2 {
        v := v + 1;
        rem := rem - m2;
      }
      newExp := newExp - 1;
      k := k + 1;
    }
    ghost var p, q := Mag(x) * ONE, Mag(y);
    QuotientBrackets(x, y, v, rem, k);
    assert q > 0 by {
      MulStrict(0, Significand(y), Ulp(y));
    }
    while v >= 2048
      invariant newExp >= -31 && Brackets(v, newExp, p, q)
      invariant newExp > 0 ==> v >= 1024
      invariant v >= 1024 || newExp <= 0
    {
      BracketsHalve(v, newExp, p, q);
      v := v / 2;
      newExp := newExp + 1;
    }
    res := Assemble(negative, v, newExp, p, q);
  }

  lemma DoubleDividend(v: nat, rem: nat, m2: nat, n: nat, k: nat)
    requires v * m2 + rem == n * Pow2(k)
    ensures (v * 2) * m2 + rem * 2 == n * Pow2(k + 1)
    ensures (v * 2 + 1) * m2 + (rem * 2 - m2) == n * Pow2(k + 1)
  {
    assert Pow2(k + 1) == 2 * Pow2(k);
    assert n * (2 * Pow2(k)) == 2 * (n * Pow2(k));
    assert (v * 2) * m2 == 2 * (v * m2);
    assert (v * 2 + 1) * m2 == 2 * (v * m2) + m2;
  }

  /** The quotient with k extra bits, at the exponent that weighs it. */
  lemma QuotientBrackets(x: Word, y: Word, v: nat, rem: nat, k: nat)
    requires 0 < x < INF && 0 < y < INF
    requires v * Significand(y) + rem == Significand(x) * 1024 * Pow2(k) && rem < Significand(y)
    requires k == 0 || k <= Scale(x) - Scale(y) + 15
    ensures Brackets(v, Scale(x) - Scale(y) + 15 - k, Mag(x) * ONE, Mag(y))
  {
    var m1, m2, u1, u2 := Significand(x), Significand(y), Ulp(x), Ulp(y);
    var e, c := Scale(x) - Scale(y) + 15 - k, Scale(x) + 45 - k;
    Pow2Add(e + 31, Scale(y) - 1);
    assert e + 31 + (Scale(y) - 1) == c;
    QuotientScale(Scale(x) - 1, k, c);
    RemainderBracket(v, rem, m2, m1 * 1024 * Pow2(k), Pow2(c));
    QuotientRegroup(m1, u1, m2, u2, Pow2(e + 31), Pow2(k), Pow2(c));
  }

  lemma QuotientScale(n: nat, k: nat, c: nat)
    requires k + c == n + 46
    ensures Pow2(n) * ONE * 0x1_0000_0000 == 1024 * (Pow2(k) * Pow2(c))
  {
    Pow2By24(n);
    Pow2By32(n + 24);
    Pow2By10(k + c);
    Pow2Add(k, c);
    assert n + 24 + 32 == k + c + 10;
  }

  lemma QuotientRegroup(m1: int, u1: int, m2: int, u2: int, w: int, k: int, c: int)
    requires w * u2 == c && u1 * ONE * 0x1_0000_0000 == 1024 * (k * c)
    ensures w * (m2 * u2) == m2 * c
    ensures m1 * u1 * ONE * 0x1_0000_0000 == m1 * 1024 * k * c
  {
    assert w * (m2 * u2) == m2 * (w * u2);
    assert m1 * (u1 * 0x100_0000_0000_0000) == m1 * (1024 * (k * c));
    assert m1 * (1024 * (k * c)) == m1 * 1024 * k * c;
    assert m1 * (u1 * 0x100_0000_0000_0000) == m1 * u1 * 0x100_0000_0000_0000;
  }

  lemma RemainderBracket(v: int, rem: int, m: int, n: int, c: int)
    requires v * m + rem == n && 0 <= rem < m && c > 0
    ensures v * (m * c) <= n * c < (v + 1) * (m * c)
  {
    assert (v + 1) * m == v * m + m;
    MulMono(v * m, n, c);
    MulStrict(n, (v + 1) * m, c);
    assert v * m * c == v * (m * c) && (v + 1) * m * c == (v + 1) * (m * c);
  }

  /** f16_from_int */
  method FromInt(sv: int) returns (res: Word)
    requires -0x8000_0000 <= sv < 0x8000_0000
    ensures IsFromInt(sv, res)
  {
    var v: nat := if sv < 0 then -sv else sv;
    var negative := sv < 0;
    if v == 0 {
      return 0;
    }
    ghost var p := v * ONE;
    IntegerBrackets(v);
    var e;
    v, e := NormalizeDown(v, p);
    v, e := NormalizeUp(v, e, p);
    PackTruncates(v, e, p, 1);
    if e >= 31 {
      return Signed(negative, INF);
    }
    return Signed(negative, e * 1024 + v % 1024);
  }

  /** A large integer shifted down to 11 bits. */
  method NormalizeDown(v0: nat, ghost p: int) returns (v: nat, e: int)
    requires v0 > 0 && Brackets(v0, 25, p, 1) && IsExact(v0, 25, p)
    ensures 0 < v < 2048 && e >= 25 && Brackets(v, e, p, 1) && (v < 1024 ==> e == 25 && IsExact(v, e, p))
  {
    v, e := v0, 25;
    while v >= 2048
      invariant e >= 25 && Brackets(v, e, p, 1)
      invariant v >= 1024 || (e == 25 && v > 0 && IsExact(v, 25, p))
    {
      BracketsHalve(v, e, p, 1);
      v := v / 2;
      e := e + 1;
    }
  }

  /** A small integer shifted up to 11 bits. */
  method NormalizeUp(v0: nat, e0: int, ghost p: int) returns (v: nat, e: int)
    requires 0 < v0 < 2048 && e0 >= 25 && p >= ONE && Brackets(v0, e0, p, 1)
    requires v0 < 1024 ==> e0 == 25 && IsExact(v0, e0, p)
    ensures 1024 <= v < 2048 && e >= 1 && Brackets(v, e, p, 1)
  {
    v, e := v0, e0;
    while v < 1024
      invariant 0 < v < 2048 && e >= 1 && Brackets(v, e, p, 1)
      invariant v < 1024 ==> IsExact(v, e, p)
      decreases 2048 - v
    {
      SmallExponent(v, e, p);
      v := v * 2;
      e := e - 1;
    }
  }

  /** v at exponent e is exactly p units. */
  ghost predicate IsExact(v: nat, e: nat, p: int)
    requires e >= 1
  {
    v * Pow2(e - 1) == p
  }

  lemma IntegerBrackets(v: nat)
    ensures Brackets(v, 25, v * ONE, 1)
    ensures IsExact(v, 25, v * ONE)
  {
    Pow2Values();
    ScaledBrackets(v, 25, v * ONE);
  }

  lemma ScaledBrackets(v: nat, e: nat, p: int)
    requires e >= 1 && IsExact(v, e, p)
    ensures Brackets(v, e, p, 1)
  {
    Pow2Values();
    Pow2Add(e - 1, 32);
    assert e - 1 + 32 == e + 31;
    var u := Pow2(e - 1);
    assert v * (u * 0x1_0000_0000) == v * u * 0x1_0000_0000;
    assert (v + 1) * (u * 0x1_0000_0000) == v * (u * 0x1_0000_0000) + u * 0x1_0000_0000;
  }

  /** A positive integer normalizes before its exponent runs out. */
  lemma SmallExponent(v: nat, e: nat, p: int)
    requires 0 < v < 1024 && e >= 1 && p >= ONE && IsExact(v, e, p)
    ensures e > 1 && IsExact(v * 2, e - 1, p) && Brackets(v * 2, e - 1, p, 1)
  {
    if e > 1 {
      assert Pow2(e - 1) == 2 * Pow2(e - 2);
      assert v * (2 * Pow2(e - 2)) == (v * 2) * Pow2(e - 2);
      ScaledBrackets(v * 2, e - 1, p);
    }
  }
}
