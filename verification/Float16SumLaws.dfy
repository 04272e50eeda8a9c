/** What the sums computed by Float16Sum amount to: error bounds and exactness. */
module Float16SumLaws {
  import opened Powers
  import opened Half
  import opened Float16Sum

  /** The larger of the two magnitudes sets the scale of an effective subtraction. */
  function Larger(a: Word, b: Word): Word {
    if Abs(a) >= Abs(b) then Abs(a) else Abs(b)
  }

  function Smaller(a: Word, b: Word): Word {
    if Abs(a) >= Abs(b) then Abs(b) else Abs(a)
  }

  ghost predicate Subtracts(a: Word, b: Word) {
    IsFinite(a) && IsFinite(b) && Negative(a) != Negative(b)
  }

  /** Same-sign addition truncates, and overflows to infinity exactly at 2^16. */
  lemma SameSignTruncates(a: Word, b: Word, r: Word)
    requires IsFinite(a) && IsFinite(b) && Negative(a) == Negative(b) && IsSum(a, b, r)
    ensures Negative(r) == Negative(a)
    ensures Truncates(Abs(r), Mag(Abs(a)) + Mag(Abs(b)), 1)
    ensures IsInf(r) <==> Mag(Abs(a)) + Mag(Abs(b)) >= 0x100_0000_0000
  {
    TruncatesInfinite(Abs(r), Mag(Abs(a)) + Mag(Abs(b)), 1);
  }

  lemma GuardUnitsBracket(d: nat, u: nat)
    requires u > 0
    ensures (GuardUnits(d, u) - 1) * u < 2 * d <= GuardUnits(d, u) * u
  {
    var c := GuardUnits(d, u);
    DivBracket(2 * d + u - 1, u);
    assert (c + 1) * u == c * u + u;
    assert (c - 1) * u == c * u - u;
  }

  /** The error of an effective subtraction, up to sign, is that of the magnitudes. */
  lemma SubtractionError(a: Word, b: Word, r: Word) returns (e: int)
    requires Subtracts(a, b) && IsSum(a, b, r) && Abs(a) != Abs(b)
    ensures IsFinite(r) && Mag(Larger(a, b)) >= Mag(Smaller(a, b))
    ensures GuardRounds(Abs(r), Mag(Larger(a, b)) - Mag(Smaller(a, b)), Ulp(Larger(a, b)))
    ensures e == Mag(Abs(r)) - (Mag(Larger(a, b)) - Mag(Smaller(a, b)))
    ensures Val(r) - (Val(a) + Val(b)) == e || Val(r) - (Val(a) + Val(b)) == -e
  {
    e := Mag(Abs(r)) - (Mag(Larger(a, b)) - Mag(Smaller(a, b)));
  }

  lemma EqualMagnitudes(a: Word, b: Word, r: Word)
    requires Subtracts(a, b) && IsSum(a, b, r) && Abs(a) == Abs(b)
    ensures IsFinite(r) && Val(r) == Val(a) + Val(b)
  {
  }

  /** Effective subtraction of finite halves stays finite and within half an ulp of the larger operand. */
  lemma SubtractionWithinHalfUlp(a: Word, b: Word, r: Word)
    requires Subtracts(a, b) && IsSum(a, b, r)
    ensures IsFinite(r)
    ensures 0 - Ulp(Larger(a, b)) <= 2 * (Val(r) - (Val(a) + Val(b))) <= Ulp(Larger(a, b))
  {
    if Abs(a) == Abs(b) {
      EqualMagnitudes(a, b, r);
    } else {
      var x, y := Larger(a, b), Smaller(a, b);
      var e := SubtractionError(a, b, r);
      GuardError(Abs(r), Mag(x) - Mag(y), Ulp(x));
    }
  }

  lemma GuardError(h: Word, d: nat, u: nat)
    requires u > 0 && GuardRounds(h, d, u)
    ensures 0 - u <= 2 * Mag(h) - 2 * d <= u
  {
    GuardUnitsBracket(d, u);
    var c := GuardUnits(d, u);
    assert (c - 1) * u == c * u - u;
    if c >= 2048 && c % 2 == 1 {
      assert c / 2 * 2 == c - 1;
    }
  }

  /** A difference that is a whole number of guard units is exact, unless an odd one has to drop its guard. */
  lemma GuardExact(h: Word, d: nat, u: nat, n: nat)
    requires u > 0 && GuardRounds(h, d, u)
    requires 2 * d == n * u && (n < 2048 || n % 2 == 0)
    ensures Mag(h) == d
  {
    var c := GuardUnits(d, u);
    assert (n + 1) * u == n * u + u;
    DivUnique(2 * d + u - 1, u, n);
    assert n >= 2048 ==> c / 2 * 2 == n;
  }

  /** Operands whose exponents differ by at most one differ by a whole number of guard units. */
  lemma NearScales(x: Word, y: Word) returns (n: nat)
    requires y <= x < INF && Scale(y) + 1 >= Scale(x)
    ensures Mag(y) <= Mag(x)
    ensures 2 * (Mag(x) - Mag(y)) == n * Ulp(x)
    ensures Scale(y) == Scale(x) ==> n % 2 == 0
  {
    MagMonotoneWeak(y, x);
    ScaleMonotone(y, x);
    if Scale(y) == Scale(x) {
      n := WholeUnits(Significand(x), Significand(y), Ulp(x));
    } else {
      UlpDoubles(y, x);
      n := HalfUnits(Significand(x), Significand(y), Ulp(x), Ulp(y));
    }
  }

  lemma WholeUnits(sx: int, sy: int, u: int) returns (n: nat)
    requires u > 0 && sy * u <= sx * u
    ensures 2 * (sx * u - sy * u) == n * u && n % 2 == 0
  {
    var k := sx - sy;
    assert k * u == sx * u - sy * u;
    NonNegative(k, u);
    assert (2 * k) * u == 2 * (k * u);
    n := 2 * k;
  }

  lemma HalfUnits(sx: int, sy: int, u: int, w: int) returns (n: nat)
    requires u > 0 && u == 2 * w && sy * w <= sx * u
    ensures 2 * (sx * u - sy * w) == n * u
  {
    HalfScale(sx, sy, u, w);
    NonNegative(2 * sx - sy, u);
    n := 2 * sx - sy;
  }

  lemma HalfScale(sx: int, sy: int, u: int, w: int)
    requires u == 2 * w
    ensures 2 * (sx * u - sy * w) == (2 * sx - sy) * u
    ensures 2 * (sy * w) == sy * u
  {
  }

  lemma NonNegative(k: int, u: int)
    requires u > 0 && k * u >= 0
    ensures k >= 0
  {
    if k < 0 {
      MulMono(k + 1, 0, u);
    }
  }

  lemma ScaleMonotone(y: Word, x: Word)
    requires y <= x <= INF
    ensures Scale(y) <= Scale(x)
  {
  }

  /** A magnitude of at least half the larger operand's is at most one exponent away. */
  lemma ScaleOfHalf(x: Word, y: Word)
    requires y <= x < INF && Mag(x) <= 2 * Mag(y)
    ensures Scale(y) + 1 >= Scale(x)
  {
    if Scale(y) + 2 <= Scale(x) {
      Pow2Monotone(Scale(y) + 1, Scale(x) - 1);
      assert Pow2(Scale(y) + 1) == 4 * Ulp(y) by {
        assert Pow2(Scale(y) + 1) == 2 * Pow2(Scale(y));
      }
      MulMono(4 * Ulp(y), Ulp(x), 1024);
      MulMono(1024, Significand(x), Ulp(x));
      MulMono(Significand(y), 2047, Ulp(y));
    }
  }

  lemma LowerScaleBound(x: Word, y: Word)
    requires y < INF && x < INF && Scale(y) < Scale(x)
    ensures Mag(y) < 1024 * Ulp(x)
  {
    Pow2Monotone(Scale(y), Scale(x) - 1);
    assert Pow2(Scale(y)) == 2 * Ulp(y);
    MulMono(Significand(y), 2047, Ulp(y));
  }

  /** Subtraction is exact between operands within a factor of two (Sterbenz), subnormals included. */
  lemma SterbenzExact(a: Word, b: Word, r: Word)
    requires Subtracts(a, b) && IsSum(a, b, r)
    requires Mag(Abs(a)) <= 2 * Mag(Abs(b)) && Mag(Abs(b)) <= 2 * Mag(Abs(a))
    ensures IsFinite(r) && Val(r) == Val(a) + Val(b)
  {
    if Abs(a) == Abs(b) {
      EqualMagnitudes(a, b, r);
    } else {
      var x, y := Larger(a, b), Smaller(a, b);
      var e := SubtractionError(a, b, r);
      ScaleOfHalf(x, y);
      var n := NearScales(x, y);
      ScaleMonotone(y, x);
      if Scale(y) != Scale(x) {
        LowerScaleBound(x, y);
        if n >= 2048 {
          MulMono(2048, n, Ulp(x));
        }
      }
      GuardExact(Abs(r), Mag(x) - Mag(y), Ulp(x), n);
    }
  }

  /** Subtraction is exact between operands of equal effective exponents. */
  lemma EqualExponentsExact(a: Word, b: Word, r: Word)
    requires Subtracts(a, b) && IsSum(a, b, r)
    requires Scale(Abs(a)) == Scale(Abs(b))
    ensures IsFinite(r) && Val(r) == Val(a) + Val(b)
  {
    if Abs(a) == Abs(b) {
      EqualMagnitudes(a, b, r);
    } else {
      var x, y := Larger(a, b), Smaller(a, b);
      var e := SubtractionError(a, b, r);
      var n := NearScales(x, y);
      GuardExact(Abs(r), Mag(x) - Mag(y), Ulp(x), n);
    }
  }

  /** Subtraction returns the exact difference whenever some half holds it: the only error is the one the
      format forces. */
  lemma RepresentableExact(a: Word, b: Word, r: Word, k: Word)
    requires Subtracts(a, b) && IsSum(a, b, r)
    requires IsFinite(k) && Val(k) == Val(a) + Val(b)
    ensures IsFinite(r) && Val(r) == Val(a) + Val(b)
  {
    if Abs(a) == Abs(b) {
      EqualMagnitudes(a, b, r);
    } else {
      var x, y := Larger(a, b), Smaller(a, b);
      var e := SubtractionError(a, b, r);
      DifferenceMag(a, b, k);
      var n := RepresentableUnits(x, y, Abs(k));
      GuardExact(Abs(r), Mag(x) - Mag(y), Ulp(x), n);
    }
  }

  lemma DifferenceMag(a: Word, b: Word, k: Word)
    requires Subtracts(a, b) && IsFinite(k) && Val(k) == Val(a) + Val(b)
    ensures Mag(Abs(k)) + Mag(Smaller(a, b)) == Mag(Larger(a, b))
  {
    MagMonotoneWeak(Smaller(a, b), Larger(a, b));
  }

  lemma RepresentableUnits(x: Word, y: Word, k: Word) returns (n: nat)
    requires y <= x < INF && k < INF && Mag(k) + Mag(y) == Mag(x)
    ensures 2 * Mag(k) == n * Ulp(x) && (n < 2048 || n % 2 == 0)
  {
    if k > x {
      MagMonotone(x, k);
    }
    ScaleMonotone(k, x);
    if Scale(k) == Scale(x) {
      n := 2 * Significand(k);
    } else if Scale(k) + 1 == Scale(x) {
      HalfScale(0, Significand(k), Ulp(x), Ulp(k));
      n := Significand(k);
    } else {
      n := FarUnits(x, y, k);
    }
  }

  /** A difference two exponents below the larger operand comes from operands within a factor of two. */
  lemma FarUnits(x: Word, y: Word, k: Word) returns (n: nat)
    requires y <= x < INF && k < INF && Mag(k) + Mag(y) == Mag(x)
    requires Scale(k) + 1 < Scale(x)
    ensures 2 * Mag(k) == n * Ulp(x) && n < 2048
  {
    if Mag(x) > 2 * Mag(y) {
      if k > x {
        ScaleMonotone(x, k);
      }
      ScaleOfHalf(x, k);
    }
    ScaleOfHalf(x, y);
    n := NearScales(x, y);
    LowerScaleBound(x, k);
    if n >= 2048 {
      MulMono(2048, n, Ulp(x));
    }
  }

  /** The condition for an effective subtraction to truncate, from the operands alone: with the difference d in units
      u of the larger operand's last place, the part of d below u is at most half of it, or, where the result drops
      below that exponent, the difference is a whole number of guard units. */
  predicate Truncated(d: nat, u: nat)
    requires u > 0
  {
    if d >= 1024 * u then 2 * (d % u) <= u else 2 * d % u == 0
  }

  /** Effective subtraction truncates if and only if that condition holds. */
  lemma SubtractionTruncatesIff(a: Word, b: Word, r: Word)
    requires Subtracts(a, b) && IsSum(a, b, r)
    ensures Mag(Larger(a, b)) >= Mag(Smaller(a, b))
    ensures var d := Mag(Larger(a, b)) - Mag(Smaller(a, b));
            Truncates(Abs(r), d, 1) <==> Truncated(d, Ulp(Larger(a, b)))
  {
    var x, y := Larger(a, b), Smaller(a, b);
    if Abs(a) == Abs(b) {
      EqualGivesZero(a, b, r);
      ZeroIsTruncated(Ulp(x));
    } else {
      var e := SubtractionError(a, b, r);
      GuardTruncatesIff(Abs(r), x, Mag(x) - Mag(y));
    }
  }

  lemma EqualGivesZero(a: Word, b: Word, r: Word)
    requires Subtracts(a, b) && IsSum(a, b, r) && Abs(a) == Abs(b)
    ensures r == 0
  {
  }

  lemma ZeroIsTruncated(u: nat)
    requires u > 0
    ensures Truncates(0, 0, 1) && Truncated(0, u)
  {
    assert Mag(0) == 0 && Mag(1) == 1;
    DivUnique(0, u, 0);
    assert 0 == 0 / u * u + 0 % u;
  }

  lemma GuardTruncatesIff(h: Word, x: Word, d: nat)
    requires x < INF && d <= Mag(x) && GuardRounds(h, d, Ulp(x))
    ensures Truncates(h, d, 1) <==> Truncated(d, Ulp(x))
  {
    if d >= 1024 * Ulp(x) {
      var k, t := Parts(d, Ulp(x));
      HighTruncatesIff(h, x, d, k, t);
    } else {
      var k, t := Parts(2 * d, Ulp(x));
      LowTruncatesIff(h, d, Ulp(x), k, t);
    }
  }

  lemma Parts(n: int, u: int) returns (k: int, t: int)
    requires u > 0
    ensures n == k * u + t && 0 <= t < u && t == n % u
  {
    k, t := n / u, n % u;
  }

  lemma LowTruncatesIff(h: Word, d: nat, u: nat, k: int, t: int)
    requires u > 0 && d < 1024 * u && GuardRounds(h, d, u) && 2 * d == k * u + t && 0 <= t < u
    ensures Truncates(h, d, 1) <==> t == 0
  {
    if t == 0 {
      LowExact(h, d, u, k);
      MagMonotone(h, h + 1);
    } else {
      LowInexact(h, d, u, k, t);
    }
  }

  lemma HighTruncatesIff(h: Word, x: Word, d: nat, k: int, t: int)
    requires x < INF && d <= Mag(x) && GuardRounds(h, d, Ulp(x)) && d >= 1024 * Ulp(x)
    requires d == k * Ulp(x) + t && 0 <= t < Ulp(x)
    ensures Truncates(h, d, 1) <==> 2 * t <= Ulp(x)
  {
    HighGuardUnits(d, Ulp(x), k, t);
    DoubleProduct(GuardUnits(d, Ulp(x)) / 2, Ulp(x));
    if 2 * t <= Ulp(x) {
      SameScale(h, x, k, d, t);
    }
  }

  /** A difference that keeps the exponent: k whole units, and one more if what is left exceeds half a unit. */
  lemma HighGuardUnits(d: nat, u: nat, k: int, t: int)
    requires u > 0 && d >= 1024 * u && d == k * u + t && 0 <= t < u
    ensures k >= 1024 && GuardUnits(d, u) >= 2048
    ensures GuardUnits(d, u) / 2 == if 2 * t <= u then k else k + 1
    ensures 2 * t > u ==> GuardUnits(d, u) / 2 * u > d
  {
    assert (k + 1) * u == k * u + u;
    BelowUnits(1024, k + 1, u);
    var c := if t == 0 then 2 * k else if 2 * t <= u then 2 * k + 1 else 2 * k + 2;
    Multiples(k, u);
    DivUnique(2 * d + u - 1, u, c);
  }

  lemma Multiples(k: int, u: int)
    ensures (2 * k) * u == 2 * (k * u) && (2 * k + 1) * u == 2 * (k * u) + u
    ensures (2 * k + 2) * u == 2 * (k * u) + 2 * u && (2 * k + 3) * u == 2 * (k * u) + 3 * u
  {
  }

  /** k units of the larger operand's last place, if not fewer than 1024, have that last place. */
  lemma SameScale(h: Word, x: Word, k: nat, d: nat, t: nat)
    requires h < INF && x < INF && k >= 1024 && Mag(h) == k * Ulp(x)
    requires d == k * Ulp(x) + t && t < Ulp(x) && d <= Mag(x)
    ensures Truncates(h, d, 1)
  {
    if h > x {
      MagMonotone(x, h);
    }
    ScaleMonotone(h, x);
    MulMono(1024, k, Ulp(x));
    if Scale(h) < Scale(x) {
      LowerScaleBound(x, h);
    }
    NextMag(h);
  }

  /** A difference that loses the exponent is exact in guard units, or rounded up past the difference. */
  lemma LowExact(h: Word, d: nat, u: nat, q: int)
    requires u > 0 && d < 1024 * u && GuardRounds(h, d, u) && 2 * d == q * u
    ensures Mag(h) == d
  {
    BelowUnits(q, 2048, u);
    NonNegative(q, u);
    GuardExact(h, d, u, q);
  }

  lemma BelowUnits(q: int, n: int, u: int)
    requires u > 0 && q * u < n * u
    ensures q < n
  {
    if q >= n {
      MulMono(n, q, u);
    }
  }

  lemma LowInexact(h: Word, d: nat, u: nat, q: int, t: int)
    requires u > 0 && d < 1024 * u && GuardRounds(h, d, u) && 2 * d == q * u + t && 0 < t < u
    ensures Mag(h) > d
  {
    BelowUnits(q, 2048, u);
    NextUnit(d, u, q, t);
    assert q + 1 == 2048 ==> (q + 1) / 2 * 2 == q + 1;
  }

  lemma NextUnit(d: nat, u: nat, q: int, t: int)
    requires u > 0 && 2 * d == q * u + t && 0 < t < u
    ensures GuardUnits(d, u) == q + 1 && 2 * d < (q + 1) * u
  {
    assert (q + 1) * u == q * u + u && (q + 2) * u == q * u + 2 * u;
    DivUnique(2 * d + u - 1, u, q + 1);
  }

  /** One (0x3C00) minus the least half (0x0001) returns one, and truncation would give the half below one. */
  lemma SubtractionMayRoundUp(a: Word, b: Word, r: Word)
    requires !Negative(a) && Abs(a) == 0x3C00 && Negative(b) && Abs(b) == 0x0001 && IsSum(a, b, r)
    ensures !Negative(r) && Abs(r) == 0x3C00
    ensures Mag(Abs(b)) <= Mag(Abs(a)) && Truncates(0x3BFF, Mag(Abs(a)) - Mag(Abs(b)), 1)
  {
    OneMinusLeast(a, b, r, Abs(a), Abs(b));
    BelowOne(Abs(a), Abs(b), 0x3BFF);
  }

  lemma LargerLeads(a: Word, b: Word, r: Word)
    requires Subtracts(a, b) && IsSum(a, b, r) && Abs(a) > Abs(b)
    ensures Negative(r) == Negative(a) && Mag(Abs(b)) <= Mag(Abs(a))
    ensures GuardRounds(Abs(r), Mag(Abs(a)) - Mag(Abs(b)), Ulp(Abs(a)))
  {
  }

  lemma OneMinusLeast(a: Word, b: Word, r: Word, x: Word, y: Word)
    requires Subtracts(a, b) && IsSum(a, b, r) && Abs(a) == x == 0x3C00 && Abs(b) == y == 1
    ensures Abs(r) == 0x3C00 && Negative(r) == Negative(a)
  {
    LargerLeads(a, b, r);
    AroundOne();
    RoundsUpToOne(Abs(r), Mag(x) - Mag(y), Ulp(x));
  }

  lemma BelowOne(x: Word, y: Word, t: Word)
    requires x == 0x3C00 && y == 1 && t == 0x3BFF
    ensures Mag(y) <= Mag(x) && Truncates(t, Mag(x) - Mag(y), 1)
  {
    AroundOne();
  }

  lemma AroundOne()
    ensures Ulp(0x3C00) == 0x4000 && Mag(0x3C00) == ONE && Mag(0x3BFF) == ONE - 0x2000 && Mag(1) == 1
  {
    assert Pow2(10) == 1024;
    assert Pow2(14) == 0x4000 && Pow2(13) == 0x2000;
  }

  lemma RoundsUpToOne(h: Word, d: nat, u: nat)
    requires d == ONE - 1 && u == 0x4000 && GuardRounds(h, d, u)
    ensures h == 0x3C00
  {
    AroundOne();
    DivUnique(2 * d + u - 1, u, 2048);
    assert Mag(h) == ONE;
    if h < 0x3C00 {
      MagMonotone(h, 0x3C00);
    } else if h > 0x3C00 {
      MagMonotone(0x3C00, h);
    }
  }
}
