/** Powers of two, and the few facts about shifts that the arithmetic below needs. */
module Powers {

  function Pow2(n: nat): (r: nat)
    ensures r >= 1
  {
    if n == 0 then 1 else 2 * Pow2(n - 1)
  }

  lemma {:induction false} Pow2Add(m: nat, n: nat)
    ensures Pow2(m + n) == Pow2(m) * Pow2(n)
  {
    if n > 0 {
      Pow2Add(m, n - 1);
      assert Pow2(m) * Pow2(n) == 2 * (Pow2(m) * Pow2(n - 1));
    }
  }

  lemma {:induction false} Pow2Monotone(m: nat, n: nat)
    requires m <= n
    ensures Pow2(m) <= Pow2(n)
  {
    if m < n {
      Pow2Monotone(m, n - 1);
    }
  }

  lemma Pow2Values()
    ensures Pow2(0) == 1 && Pow2(1) == 2 && Pow2(2) == 4 && Pow2(3) == 8 && Pow2(4) == 16
    ensures Pow2(5) == 32 && Pow2(6) == 64 && Pow2(10) == 1024 && Pow2(12) == 0x1000 && Pow2(13) == 0x2000
    ensures Pow2(16) == 0x1_0000 && Pow2(24) == 0x100_0000 && Pow2(32) == 0x1_0000_0000
  {
    assert Pow2(5) == 32;
    assert Pow2(10) == 1024;
    assert Pow2(15) == 0x8000;
    assert Pow2(20) == 0x10_0000;
    assert Pow2(25) == 0x200_0000;
    assert Pow2(30) == 0x4000_0000;
  }

  /** The quotient is pinned down by the bracket around it. */
  lemma DivUnique(x: int, d: int, q: int)
    requires d > 0
    requires q * d <= x < (q + 1) * d
    ensures x / d == q
  {
    var r := x - q * d;
    assert 0 <= r < d;
    var k := x / d;
    assert x == k * d + x % d;
    assert (k + 1) * d == k * d + d && (q + 1) * d == q * d + d;
    if k < q {
      MulMono(k + 1, q, d);
    } else if k > q {
      MulMono(q + 1, k, d);
    }
  }

  lemma MulMono(a: int, b: int, c: int)
    requires a <= b && c >= 0
    ensures a * c <= b * c
  {
  }

  lemma MulStrict(a: int, b: int, c: int)
    requires a < b && c > 0
    ensures a * c < b * c
  {
  }

  lemma MulCancel(a: int, b: int, c: int)
    requires c > 0 && a * c <= b * c
    ensures a <= b
  {
    if b < a {
      MulStrict(b, a, c);
    }
  }

  lemma DivBracket(x: int, d: int)
    requires d > 0
    ensures x / d * d <= x < (x / d + 1) * d
  {
    assert x == x / d * d + x % d;
    assert (x / d + 1) * d == x / d * d + d;
  }

  lemma QuotientScales(m: int, s: int, t: int)
    requires s > 0 && t > 0
    ensures s * t > 0 && (m * t) / (s * t) == m / s
  {
    var q := m / s;
    DivBracket(m, s);
    MulStrict(0, s, t);
    assert (q * s) * t == q * (s * t) && ((q + 1) * s) * t == (q + 1) * (s * t);
    MulMono(q * s, m, t);
    MulStrict(m, (q + 1) * s, t);
    DivUnique(m * t, s * t, q);
  }

  /** Halving the quotient doubles the step of its bracket. */
  lemma HalveBracket(t: nat, u: int, x: int)
    requires u >= 0
    requires t * u <= x < (t + 1) * u
    ensures t / 2 * (2 * u) <= x < (t / 2 + 1) * (2 * u)
  {
    var n := t / 2;
    assert n * (2 * u) == (2 * n) * u && (n + 1) * (2 * u) == (2 * n + 2) * u;
    MulMono(2 * n, t, u);
    MulMono(t + 1, 2 * n + 2, u);
  }

  /** The logical right shift `v >> n`. */
  function Shr(v: nat, n: nat): (r: nat)
    ensures r * Pow2(n) <= v < (r + 1) * Pow2(n)
  {
    DivBracket(v, Pow2(n));
    var r: int := v / Pow2(n);
    assert r >= 0 by {
      if r < 0 {
        MulMono(r + 1, 0, Pow2(n));
      }
    }
    r
  }

  lemma Pow2By10(n: nat)
    ensures Pow2(n + 10) == Pow2(n) * 1024
  {
    Pow2Add(n, 10);
    assert Pow2(10) == 1024;
  }

  lemma Pow2By24(n: nat)
    ensures Pow2(n + 24) == Pow2(n) * 0x100_0000
  {
    Pow2Values();
    Pow2Add(n, 24);
  }

  lemma Pow2By32(n: nat)
    ensures Pow2(n + 32) == Pow2(n) * 0x1_0000_0000
  {
    Pow2Values();
    Pow2Add(n, 32);
  }

  /** The remainder is pinned down as well. */
  lemma ModUnique(x: int, d: int, q: int, r: int)
    requires d > 0 && x == q * d + r && 0 <= r < d
    ensures x % d == r
  {
    assert (q + 1) * d == q * d + d;
    DivUnique(x, d, q);
    assert x == x / d * d + x % d;
  }
}
