/** Addition and subtraction of halves (demo/float16.c), each calling the other when the signs ask for it. */
module Float16Sum {
  import opened Powers
  import opened Half

  /** The effective subtraction of the source, stated on magnitudes: the difference d is rounded UP to the
      guard bit (half an ulp, u/2, of the larger operand), and the guard bit is then dropped if the result
      keeps the larger operand's exponent. */
  ghost predicate GuardRounds(h: Word, d: nat, u: nat)
    requires u > 0
  {
    var c := GuardUnits(d, u);
    h < INF && 2 * Mag(h) == if c >= 2048 then c / 2 * 2 * u else c * u
  }

  /** The least number of guard units that reaches d. */
  function GuardUnits(d: nat, u: nat): (c: nat)
    requires u > 0
  {
    var n: int := 2 * d + u - 1;
    n / u
  }

  /** What both operations compute: r is a + b. */
  ghost predicate IsSum(a: Word, b: Word, r: Word) {
    if IsNan(a) || IsNan(b) then
      r == 0x7FFF
    else if IsInf(a) || IsInf(b) then
      if IsInf(a) && IsInf(b) && Negative(a) != Negative(b) then r == 0x7FFF
      else r == (if IsInf(a) then a else b)
    else
      IsFiniteSum(a, b, r)
  }

  ghost predicate IsFiniteSum(a: Word, b: Word, r: Word)
    requires IsFinite(a) && IsFinite(b)
  {
    var (x, y) := (Abs(a), Abs(b));
    if Negative(a) == Negative(b) then
      Negative(r) == Negative(a) && Truncates(Abs(r), Mag(x) + Mag(y), 1)
    else if x == y then
      r == 0
    else if x > y then
      Negative(r) == Negative(a) && Mag(x) >= Mag(y) && GuardRounds(Abs(r), Mag(x) - Mag(y), Ulp(x))
    else
      Negative(r) == Negative(b) && Mag(y) >= Mag(x) && GuardRounds(Abs(r), Mag(y) - Mag(x), Ulp(y))
  }

  /** The smaller operand's significand (with g guard bits, g being 1 or 2 to scale it) shifted to the
      larger operand's exponent is the floor of its magnitude in units of the larger ulp. */
  function Aligned(x: Word, y: Word, g: nat): (b: nat)
    requires y <= x < INF
  {
    if x < 1024 then g * y
    else if y < 1024 then Shr(g * y, x / 1024 - 1)
    else Shr(g * (1024 + y % 1024), x / 1024 - y / 1024)
  }

  lemma ShiftedQuotient(m: nat, e: nat, f: nat)
    requires f <= e
    ensures (m * Pow2(f)) / Pow2(e) == m / Pow2(e - f)
  {
    Pow2Add(e - f, f);
    QuotientScales(m, Pow2(e - f), Pow2(f));
  }

  lemma AlignedIsFloor(x: Word, y: Word, g: nat)
    requires y <= x < INF
    ensures Aligned(x, y, g) == (g * Mag(y)) / Ulp(x)
  {
    var e, f := Scale(x) - 1, Scale(y) - 1;
    var m := g * Significand(y);
    assert g * Mag(y) == m * Pow2(f);
    ShiftedQuotient(m, e, f);
    if x >= 1024 {
      assert f <= e by {
        if y >= 1024 {
          assert y / 1024 <= x / 1024;
        }
      }
    }
  }

  lemma SumFloor(s: nat, m: nat, u: nat)
    requires u > 0
    ensures (s + m / u) * u <= s * u + m < (s + m / u + 1) * u
  {
    var b := m / u;
    DivBracket(m, u);
    assert (s + b) * u == s * u + b * u;
    assert (s + b + 1) * u == s * u + (b + 1) * u;
  }

  /** The sum, in whole ulps of the larger operand. */
  lemma SumBracket(x: Word, y: Word)
    requires y <= x < INF
    ensures var t := Significand(x) + Aligned(x, y, 1);
            t * Ulp(x) <= Mag(x) + Mag(y) < (t + 1) * Ulp(x)
  {
    AlignedIsFloor(x, y, 1);
    SumFloor(Significand(x), Mag(y), Ulp(x));
  }

  lemma ShiftBound(v: nat, n: nat, k: nat, bound: nat)
    requires 1 <= k <= Pow2(n) && v < k * bound
    ensures Shr(v, n) < bound
  {
    if Shr(v, n) >= bound {
      MulMono(bound, Shr(v, n), Pow2(n));
      MulMono(k, Pow2(n), bound);
    }
  }

  /** The aligned operand has g * 2048 values, half of them if it was shifted or is subnormal. */
  lemma AlignedBound(x: Word, y: Word, g: nat)
    requires y <= x < INF && x >= 1024 && 1 <= g <= 2
    ensures Aligned(x, y, g) < 2048 * g
    ensures x / 1024 != y / 1024 ==> Aligned(x, y, g) < 1024 * g
  {
    if y < 1024 {
      ShiftBound(g * y, x / 1024 - 1, 1, 1024 * g);
    } else {
      var m, shift := g * (1024 + y % 1024), x / 1024 - y / 1024;
      if shift == 0 {
        ShiftBound(m, shift, 1, 2048 * g);
      } else {
        assert Pow2(shift) >= 2;
        ShiftBound(m, shift, 2, 1024 * g);
      }
    }
  }

  lemma AddWithoutCarry(x: Word, y: Word, b: nat)
    requires y <= x < INF && x >= 1024 && b == Aligned(x, y, 1) && x % 1024 + b < 1024
    ensures x + b < INF && Truncates(x + b, Mag(x) + Mag(y), 1)
  {
    SumBracket(x, y);
    var r, u := x + b, Ulp(x);
    assert r / 1024 == x / 1024 && r % 1024 == x % 1024 + b;
    NextMag(r);
    assert (Significand(x) + b + 1) * u == (Significand(x) + b) * u + u;
  }

  lemma AddWithCarry(x: Word, y: Word, b: nat, n: nat)
    requires y <= x < INF && x >= 1024 && b == Aligned(x, y, 1) && x % 1024 + b >= 1024
    requires n == (1024 + x % 1024 + b) / 2
    ensures 1024 <= n < 2048
    ensures x / 1024 < 30 ==> Truncates(Pack(n, x / 1024 + 1), Mag(x) + Mag(y), 1)
    ensures x / 1024 == 30 ==> Truncates(INF, Mag(x) + Mag(y), 1)
  {
    AlignedBound(x, y, 1);
    SumBracket(x, y);
    HalveBracket(1024 + x % 1024 + b, Ulp(x), Mag(x) + Mag(y));
    var e := x / 1024 + 1;
    assert Pow2(e - 1) == 2 * Ulp(x);
    PackBracket(n, e, Mag(x) + Mag(y), 1);
  }

  /** Same-sign addition of two subnormals is addition of their encodings. */
  lemma AddSubnormals(x: Word, y: Word)
    requires x < 1024 && y < 1024
    ensures x + y < INF && Truncates(x + y, Mag(x) + Mag(y), 1)
  {
    NextMag(x + y);
    assert Ulp(x) == 1 && Ulp(y) == 1 && Ulp(x + y) == 1;
    if x + y >= 1024 {
      assert (x + y) / 1024 == 1 && (x + y) % 1024 == x + y - 1024;
    }
  }

  /** f16_add */
  method Add(ain: Word, bin: Word) returns (res: Word)
    ensures IsSum(ain, bin, res)
    decreases if Negative(ain) == Negative(bin) then 0 else 1
  {
    if Negative(ain) != Negative(bin) {
      res := Sub(ain, Flip(bin));
      return;
    }
    var sign := Negative(ain);
    var a, b := Abs(ain), Abs(bin);
    if a < b {
      a, b := b, a;
    }
    if a >= INF || b >= INF {
      if a > INF || b > INF {
        return NAN;
      }
      return Signed(sign, INF);
    }
    var r := AddMagnitudes(a, b);
    return Signed(sign, r);
  }

  /** The rest of f16_add, on ordered finite magnitudes. */
  method AddMagnitudes(a: Word, y: Word) returns (r: Word)
    requires y <= a < INF
    ensures Truncates(r, Mag(a) + Mag(y), 1)
  {
    var ax := a / 1024;
    var b, subnormals := AlignAddend(ax, a, y);
    if subnormals {
      AddSubnormals(a, y);
      return a + b;
    }
    AlignedBound(a, y, 1);
    CarryTest(a, b);
    r := (a + b) % 0x1_0000;
    if r / 1024 % 32 != ax {
      var newM := (a % 1024 + 1024 + b) / 2;
      AddWithCarry(a, y, b, newM);
      r := (ax + 1) * 1024 + newM % 1024;
    } else {
      AddWithoutCarry(a, y, b);
    }
    if r >= INF {
      return INF;
    }
  }

  /** The smaller addend brought to the exponent of the larger, unless both are subnormal. */
  method AlignAddend(ax: nat, ghost a: Word, y: Word) returns (b: nat, subnormals: bool)
    requires y <= a < INF && ax == a / 1024
    ensures subnormals <==> a < 1024
    ensures b == if subnormals then y else Aligned(a, y, 1)
  {
    b, subnormals := y, false;
    var bx := b / 1024;
    var shift := ax - bx;
    if shift != 0 {
      if bx != 0 {
        b := Shr(b % 1024 + 1024, shift);
      } else {
        b := Shr(b, shift - 1);
      }
    } else if bx == 0 {
      subnormals := true;
    } else {
      b := b % 1024 + 1024;
    }
  }

  /** The exponent field of the 16-bit sum tells whether the significands carried. */
  lemma CarryTest(a: Word, b: nat)
    requires a < INF && b < 2048
    ensures (a + b) % 0x1_0000 / 1024 % 32 != a / 1024 <==> a % 1024 + b >= 1024
    ensures a % 1024 + b < 1024 ==> (a + b) % 0x1_0000 == a + b
  {
  }

  /** Doubling a magnitude shifts its fields up by one bit. */
  lemma Doubled(x: Word)
    requires x < 0x8000
    ensures 2 * x / 2048 == x / 1024 && 2 * x % 2048 == 2 * (x % 1024)
  {
  }

  lemma DropSign(x: Word)
    ensures x * 2 % 0x1_0000 == 2 * Abs(x)
  {
  }

  /** f16_sub, whose operands are doubled to make room for the guard bit. */
  method Sub(ain: Word, bin: Word) returns (res: Word)
    ensures IsSum(ain, Flip(bin), res)
    decreases if Negative(ain) == Negative(bin) then 0 else 1
  {
    if Negative(ain) != Negative(bin) {
      res := Add(ain, Flip(bin));
      return;
    }
    var sign := Negative(ain);
    var a: Word, b: Word := ain * 2 % 0x1_0000, bin * 2 % 0x1_0000;
    DropSign(ain);
    DropSign(bin);
    if a < b {
      a, b := b, a;
      sign := !sign;
    }
    if a >= 0xF800 || b >= 0xF800 {
      if a > 0xF800 || b > 0xF800 || a == b {
        return NAN;
      }
      // The source also handles an infinite b under a finite a, which the swap has ruled out.
      return Signed(sign, INF);
    }
    var r := SubMagnitudes(a, b, if Abs(ain) < Abs(bin) then Abs(bin) else Abs(ain),
                           if Abs(ain) < Abs(bin) then Abs(ain) else Abs(bin));
    if r == 0 {
      return 0;
    }
    return Signed(sign, r);
  }

  /** The rest of f16_sub, on ordered finite doubled magnitudes. */
  method SubMagnitudes(a: Word, y2: Word, ghost x: Word, ghost y: Word) returns (r: Word)
    requires y <= x < INF && a == 2 * x && y2 == 2 * y
    ensures Mag(y) <= Mag(x)
    ensures GuardRounds(r, Mag(x) - Mag(y), Ulp(x))
    ensures r == 0 <==> x == y
  {
    Doubled(x);
    var ax := a / 2048;
    var b, subnormals := AlignSmaller(ax, y2, x, y);
    if subnormals {
      SubSubnormals(x, y);
      return (a - b) / 2;
    }
    SubUnits(x, y);
    AlignedBound(x, y, 2);
    var d := a - b;
    BorrowTest(x, b);
    if d / 2048 == ax {
      SubKeepsExponent(x, y, d / 2);
      return d / 2;
    }
    r := Renormalize(a % 2048 + 2048 - b, ax);
  }

  /** The smaller operand, doubled, brought to the exponent of the larger, unless both are subnormal. */
  method AlignSmaller(ax: nat, y2: nat, ghost x: Word, ghost y: Word) returns (b: nat, subnormals: bool)
    requires y <= x < INF && ax == x / 1024 && y2 == 2 * y
    ensures subnormals <==> x < 1024
    ensures b == if subnormals then y2 else Aligned(x, y, 2)
  {
    Doubled(y);
    b, subnormals := y2, false;
    var bx := b / 2048;
    var shift := ax - bx;
    if shift != 0 {
      if bx != 0 {
        b := Shr(b % 2048 + 2048, shift);
      } else {
        b := Shr(b, shift - 1);
      }
    } else if bx == 0 {
      subnormals := true;
    } else {
      b := b % 2048 + 2048;
    }
  }

  /** The exponent field of the doubled difference tells whether the significands borrowed. */
  lemma BorrowTest(x: Word, b: nat)
    requires x < INF && b < 4096
    ensures (2 * x - b) / 2048 == x / 1024 <==> b <= 2 * (x % 1024)
  {
  }

  /** The tail of f16_sub: a significand that lost its leading bit at exponent ax is shifted back up. The
      result keeps the value of m guard units. */
  method Renormalize(m: nat, ax: nat) returns (r: Word)
    requires 1 <= ax <= 30 && m < 2048 && (ax == 1 ==> m % 2 == 0)
    ensures r < INF && 2 * Mag(r) == m * Pow2(ax - 1)
    ensures r == 0 <==> m == 0
  {
    if m == 0 {
      return 0;
    }
    var newM, exp := m, ax;
    while exp != 0 && newM < 2048
      invariant 0 <= exp <= ax && 0 < newM < 4096
      invariant exp == ax ==> newM < 2048
      invariant exp < ax || ax == 1 ==> newM % 2 == 0
      invariant Weight(newM, exp) == Weight(m, ax)
      invariant exp == 0 ==> newM < 2048
    {
      WeightStep(newM, exp);
      exp := exp - 1;
      if exp != 0 {
        newM := newM * 2;
      }
    }
    SubNormalized(newM, exp);
    WeightIs(m, ax);
    r := (newM % 2048 + exp * 2048) / 2;
  }

  /** Twice the value of a significand with a guard bit; exponent 0 scales like exponent 1. */
  ghost function Weight(m: nat, exp: nat): nat {
    if exp <= 1 then m else 2 * Weight(m, exp - 1)
  }

  lemma {:induction false} WeightIs(m: nat, exp: nat)
    ensures Weight(m, exp) == m * Pow2(if exp == 0 then 0 else exp - 1)
  {
    if exp > 1 {
      WeightIs(m, exp - 1);
      assert Pow2(exp - 1) == 2 * Pow2(exp - 2);
      assert m * (2 * Pow2(exp - 2)) == 2 * (m * Pow2(exp - 2));
    }
  }

  lemma {:induction false} WeightStep(m: nat, exp: nat)
    requires exp >= 1
    ensures Weight(if exp == 1 then m else m * 2, exp - 1) == Weight(m, exp)
  {
    if exp > 2 {
      WeightStep(m, exp - 1);
    }
  }

  lemma SubSubnormals(x: Word, y: Word)
    requires y <= x < 1024
    ensures Mag(x) == x && Mag(y) == y && Ulp(x) == 1
    ensures GuardRounds(x - y, x - y, 1)
  {
  }

  lemma DifferenceCeiling(s: nat, m: nat, u: nat)
    requires u > 0 && m <= s * u
    ensures GuardUnits(s * u - m, u) == 2 * s - 2 * m / u
  {
    var b, c := 2 * m / u, 2 * s - 2 * m / u;
    DivBracket(2 * m, u);
    assert c * u == 2 * (s * u) - b * u;
    assert (c + 1) * u == c * u + u;
    assert (b + 1) * u == b * u + u;
    DivUnique(2 * (s * u - m) + u - 1, u, c);
  }

  /** The aligned difference of significands counts guard units. */
  lemma SubUnits(x: Word, y: Word)
    requires y <= x < INF
    ensures Mag(y) <= Mag(x)
    ensures GuardUnits(Mag(x) - Mag(y), Ulp(x)) == 2 * Significand(x) - Aligned(x, y, 2)
    ensures y < x ==> GuardUnits(Mag(x) - Mag(y), Ulp(x)) > 0
    ensures x / 1024 == 1 ==> Aligned(x, y, 2) % 2 == 0
  {
    MagMonotoneWeak(y, x);
    AlignedIsFloor(x, y, 2);
    DifferenceCeiling(Significand(x), Mag(y), Ulp(x));
    var d, u := Mag(x) - Mag(y), Ulp(x);
    DivBracket(2 * d + u - 1, u);
  }

  lemma SubKeepsExponent(x: Word, y: Word, h: Word)
    requires y <= x < INF && x >= 1024 && Aligned(x, y, 2) <= 2 * (x % 1024)
    requires h == (2 * x - Aligned(x, y, 2)) / 2
    ensures Mag(y) <= Mag(x) && GuardRounds(h, Mag(x) - Mag(y), Ulp(x))
  {
    SubUnits(x, y);
    var c, u := GuardUnits(Mag(x) - Mag(y), Ulp(x)), Ulp(x);
    assert c == 2048 + 2 * (x % 1024) - Aligned(x, y, 2);
    assert h / 1024 == x / 1024 && h % 1024 == c / 2 - 1024;
    DoubleProduct(c / 2, u);
  }

  lemma DoubleProduct(k: nat, u: nat)
    ensures 2 * (k * u) == k * 2 * u
  {
  }

  lemma SubNormalized(m: nat, exp: nat)
    requires 0 < m < 4096 && m % 2 == 0 && exp <= 30
    requires exp == 0 <==> m < 2048
    ensures var h := (m % 2048 + exp * 2048) / 2;
            0 < h < INF && 2 * Mag(h) == Weight(m, exp)
  {
    var h := (m % 2048 + exp * 2048) / 2;
    assert h == exp * 1024 + m % 2048 / 2;
    assert h / 1024 == exp && h % 1024 == m % 2048 / 2;
    assert Significand(h) == m / 2;
    DoubleProduct(m / 2, Ulp(h));
    WeightIs(m, exp);
  }
}
