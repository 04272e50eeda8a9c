/** The binary16 interchange format (IEEE 754-2019, section 3.6) read as integers.

    Every finite half is an integer multiple of 2^-24, so a magnitude is a natural number of
    those units and every claim about rounding is a claim about integers. */
module Half {
  import opened Powers

  /** A 16-bit word: the bit pattern of a C `short` or `unsigned short`. */
  type Word = x: int | 0 <= x < 0x1_0000

  /** The number of units of 2^-24 in 1.0. */
  const ONE := 0x100_0000

  const INF := 0x7C00
  const NAN := 0x7FFF

  predicate Negative(x: Word) { x >= 0x8000 }

  /** The word without its sign bit. */
  function Abs(x: Word): (h: Word)
    ensures h < 0x8000
  {
    x % 0x8000
  }

  /** Flips the sign bit, as `x ^ 0x8000`. */
  function Flip(x: Word): (r: Word)
    ensures Abs(r) == Abs(x) && Negative(r) != Negative(x)
  {
    if x >= 0x8000 then x - 0x8000 else x + 0x8000
  }

  /** Sign and magnitude put together, as `sign | h`. */
  function Signed(negative: bool, h: Word): (r: Word)
    requires h < 0x8000
    ensures Abs(r) == h && Negative(r) == negative
  {
    if negative then h + 0x8000 else h
  }

  predicate IsNan(x: Word) { Abs(x) > INF }
  predicate IsInf(x: Word) { Abs(x) == INF }
  predicate IsFinite(x: Word) { Abs(x) < INF }
  predicate IsZero(x: Word) { Abs(x) == 0 }

  /** The exponent that scales the significand: subnormals share exponent 1. */
  function Scale(h: Word): (e: nat)
    requires h <= INF
    ensures 1 <= e <= 31
  {
    if h < 1024 then 1 else h / 1024
  }

  /** The significand, hidden bit included. */
  function Significand(h: Word): (m: nat)
    requires h <= INF
    ensures m < 2048
  {
    if h < 1024 then h else 1024 + h % 1024
  }

  /** The spacing of halves around h, in units of 2^-24. */
  function Ulp(h: Word): (u: nat)
    requires h <= INF
    ensures u >= 1
  {
    Pow2(Scale(h) - 1)
  }

  /** The magnitude of h in units of 2^-24. Infinity stands at 2^16, that is 2^40 units. */
  function Mag(h: Word): (m: nat)
    requires h <= INF
  {
    Significand(h) * Ulp(h)
  }

  function Val(x: Word): int
    requires !IsNan(x)
  {
    var m: int := Mag(Abs(x));
    if Negative(x) then -m else m
  }

  /** h is p/q (in units of 2^-24) rounded toward zero (section 4.3.2), except that what reaches 2^16
      becomes infinity: h is the largest encoding whose magnitude does not exceed p/q. */
  ghost predicate Truncates(h: Word, p: int, q: int) {
    && h <= INF
    && Mag(h) * q <= p
    && (h < INF ==> p < Mag(h + 1) * q)
  }

  /** Neighbouring encodings are one ulp apart, across binade boundaries too. */
  lemma NextMag(h: Word)
    requires h < INF
    ensures Mag(h + 1) == Mag(h) + Ulp(h)
  {
    var s, u := Significand(h), Ulp(h);
    assert (s + 1) * u == s * u + u;
    if h >= 1024 && h % 1024 == 1023 {
      NextBinade(h);
      UlpDoubles(h, h + 1);
    } else {
      NextInBinade(h);
    }
  }

  lemma NextBinade(h: Word)
    requires 1024 <= h < INF && h % 1024 == 1023
    ensures Scale(h + 1) == Scale(h) + 1 && Significand(h) == 2047 && Significand(h + 1) == 1024
  {
    assert (h + 1) / 1024 == h / 1024 + 1 && (h + 1) % 1024 == 0;
  }

  lemma UlpDoubles(h: Word, k: Word)
    requires h <= INF && k <= INF && Scale(k) == Scale(h) + 1
    ensures Ulp(k) == 2 * Ulp(h)
  {
  }

  lemma NextInBinade(h: Word)
    requires h < INF && (h < 1024 || h % 1024 != 1023)
    ensures Scale(h + 1) == Scale(h) && Significand(h + 1) == Significand(h) + 1
  {
    if h >= 1024 {
      assert (h + 1) / 1024 == h / 1024 && (h + 1) % 1024 == h % 1024 + 1;
    }
  }

  lemma {:induction false} MagMonotone(h: Word, k: Word)
    requires h < k <= INF
    ensures Mag(h) < Mag(k)
    decreases k - h
  {
    NextMag(h);
    if h + 1 < k {
      MagMonotone(h + 1, k);
    }
  }

  lemma MagMonotoneWeak(y: Word, x: Word)
    requires y <= x <= INF
    ensures Mag(y) <= Mag(x)
    ensures y < x ==> Mag(y) < Mag(x)
  {
    if y < x {
      MagMonotone(y, x);
    }
  }

  lemma InfMag()
    ensures Mag(INF) == 0x100_0000_0000
  {
    Pow2Values();
    Pow2Add(24, 6);
    assert Pow2(30) == 0x4000_0000;
  }

  /** An encoding below one that fits is not the largest that fits. */
  lemma NotLargest(h: Word, k: Word, p: int, q: int)
    requires q >= 0 && h < k <= INF && Mag(k) * q <= p
    ensures !Truncates(h, p, q)
  {
    if h + 1 < k {
      MagMonotone(h + 1, k);
    }
    MulMono(Mag(h + 1), Mag(k), q);
  }

  /** Truncation determines the encoding, so any two computations that truncate agree. */
  lemma TruncatesUnique(h: Word, k: Word, p: int, q: int)
    requires q >= 0 && Truncates(h, p, q) && Truncates(k, p, q)
    ensures h == k
  {
    if h < k {
      NotLargest(h, k, p, q);
    } else if k < h {
      NotLargest(k, h, p, q);
    }
  }

  /** Truncation is exact on what a half can hold. */
  lemma TruncatesExact(h: Word, k: Word, q: nat)
    requires q > 0 && k <= INF && Truncates(h, Mag(k) * q, q)
    ensures h == k
  {
    if k < INF {
      MagMonotone(k, k + 1);
      MulStrict(Mag(k), Mag(k + 1), q);
    }
    TruncatesUnique(h, k, Mag(k) * q, q);
  }

  /** A truncated result is infinite exactly when the magnitude is at least 2^16. */
  lemma TruncatesInfinite(h: Word, p: int, q: int)
    requires q >= 0 && Truncates(h, p, q)
    ensures h == INF <==> p >= 0x100_0000_0000 * q
  {
    InfMag();
    if h < INF && p >= 0x100_0000_0000 * q {
      NotLargest(h, INF, p, q);
    }
  }

  /** v at exponent e brackets p/q: v * 2^(e-25) <= p/q * 2^-24 < (v+1) * 2^(e-25). The exponent of an
      intermediate result can be negative, so both sides are scaled by 2^32. */
  ghost predicate Brackets(v: nat, e: int, p: int, q: int)
    requires e >= -31
  {
    v * (Pow2(e + 31) * q) <= p * 0x1_0000_0000 < (v + 1) * (Pow2(e + 31) * q)
  }

  /** One step of `v >>= 1, e++` keeps the bracket. */
  lemma BracketsHalve(v: nat, e: int, p: int, q: int)
    requires e >= -31 && Brackets(v, e, p, q)
    ensures Brackets(v / 2, e + 1, p, q)
  {
    var u := Pow2(e + 31) * q;
    assert Pow2(e + 32) * q == 2 * u;
    HalveBracket(v, u, p * 0x1_0000_0000);
  }

  /** The encoding of a significand at an exponent, as the operations assemble it. */
  function Pack(v: nat, e: nat): Word
    requires v < 2048 && e <= 30
  {
    e * 1024 + v % 1024
  }

  lemma PackMag(v: nat, e: nat)
    requires v < 2048 && e <= 30
    requires (e >= 1 && v >= 1024) || (e == 0 && v < 1024)
    ensures Pack(v, e) < INF
    ensures Mag(Pack(v, e)) == v * Ulp(Pack(v, e))
    ensures Ulp(Pack(v, e)) == Pow2((if e == 0 then 1 else e) - 1)
  {
    var h := Pack(v, e);
    assert h / 1024 == e && h % 1024 == v % 1024;
  }

  /** A bracket between multiples of a common factor survives the removal of the factor. */
  lemma CancelBracket(lo: int, x: int, hi: int, c: int)
    requires c > 0 && lo * c <= x * c < hi * c
    ensures lo <= x < hi
  {
    MulCancel(lo, x, c);
    if hi <= x {
      MulMono(hi, x, c);
    }
  }

  lemma Regroup(a: int, b: int, c: int, d: int)
    ensures a * (b * c * d) == (a * b * d) * c
  {
    assert a * (b * c * d) == (a * b) * (c * d);
    assert (a * b * d) * c == (a * b) * (d * c);
  }

  /** At an exponent of at least 1 the scaling cancels. */
  lemma UnscaleBracket(v: nat, e: nat, p: int, q: int)
    requires 1 <= e && Brackets(v, e, p, q)
    ensures v * Pow2(e - 1) * q <= p < (v + 1) * Pow2(e - 1) * q
  {
    var u, c := Pow2(e - 1), 0x1_0000_0000;
    Pow2Values();
    Pow2Add(e - 1, 32);
    assert e - 1 + 32 == e + 31;
    Regroup(v, u, c, q);
    Regroup(v + 1, u, c, q);
    CancelBracket(v * u * q, p, (v + 1) * u * q, c);
  }

  /** A normalized significand packs to the truncated half of anything it brackets. */
  lemma PackBracket(v: nat, e: nat, p: int, q: int)
    requires q >= 0 && 1024 <= v < 2048 && 1 <= e
    requires v * Pow2(e - 1) * q <= p < (v + 1) * Pow2(e - 1) * q
    ensures e <= 30 ==> Truncates(Pack(v, e), p, q)
    ensures e >= 31 ==> Truncates(INF, p, q)
  {
    var u := Pow2(e - 1);
    if e <= 30 {
      PackMag(v, e);
      NextMag(Pack(v, e));
      assert (v + 1) * u == v * u + u;
    } else {
      assert Significand(INF) == 1024 && Ulp(INF) == Pow2(30);
      Pow2Monotone(30, e - 1);
      MulMono(Pow2(30), u, 1024);
      MulMono(1024, v, u);
      MulMono(Mag(INF), v * u, q);
    }
  }

  lemma PackTruncates(v: nat, e: nat, p: int, q: int)
    requires q >= 0 && 1024 <= v < 2048 && 1 <= e
    requires Brackets(v, e, p, q)
    ensures e <= 30 ==> Truncates(Pack(v, e), p, q)
    ensures e >= 31 ==> Truncates(INF, p, q)
  {
    UnscaleBracket(v, e, p, q);
    PackBracket(v, e, p, q);
  }

  /** The shift that denormalizes: `v >>= 1 - e` at an exponent that is not positive. */
  lemma DenormTruncates(v: nat, e: int, p: int, q: int)
    requires v < 2048 && -31 <= e <= 0 && q > 0
    requires Brackets(v, e, p, q)
    ensures Shr(v, 1 - e) < 1024
    ensures Truncates(Pack(Shr(v, 1 - e), 0), p, q)
  {
    var s, t, w := Pow2(1 - e), Pow2(e + 31), Shr(v, 1 - e);
    assert s == 2 * Pow2(-e);
    MulMono(2, s, w);
    Pow2Values();
    Pow2Add(1 - e, e + 31);
    assert 1 - e + (e + 31) == 32;
    DenormBracket(v, w, s, t, p, q);
    SubnormalTruncates(w, p, q);
  }

  lemma SubnormalTruncates(w: nat, p: int, q: int)
    requires w < 1024
    requires w * q <= p < (w + 1) * q
    ensures Truncates(Pack(w, 0), p, q)
  {
    PackMag(w, 0);
    NextMag(Pack(w, 0));
  }

  lemma Cross(w: int, s: int, t: int, q: int)
    ensures (w * s) * (t * q) == (w * q) * (s * t)
  {
    assert (w * s) * (t * q) == w * (s * t) * q;
    assert (w * q) * (s * t) == w * (s * t) * q;
  }

  lemma DenormBracket(v: nat, w: nat, s: nat, t: nat, p: int, q: int)
    requires w * s <= v < (w + 1) * s
    requires s > 0 && t > 0 && q > 0
    requires v * (t * q) <= p * (s * t) < (v + 1) * (t * q)
    ensures w * q <= p < (w + 1) * q
  {
    var u, c := t * q, s * t;
    Cross(w, s, t, q);
    Cross(w + 1, s, t, q);
    MulMono(w * s, v, u);
    MulMono(v + 1, (w + 1) * s, u);
    MulStrict(0, s, t);
    CancelBracket(w * q, p, (w + 1) * q, c);
  }
}
