/** Decimal literals to halves (parse_fp16 of demo/util.c). */
module Float16Parse {
  import opened Options
  import opened Powers
  import opened Half
  import opened Float16Product
  import opened Float16Convert

  predicate IsDigit(c: char) { '0' <= c <= '9' }

  function DigitValue(c: char): (d: nat)
    requires IsDigit(c)
    ensures d < 10
  {
    c as int - '0' as int
  }

  /** The literal without its sign. */
  function Body(token: seq<char>): seq<char> {
    if token != [] && token[0] == '-' then token[1..] else token
  }

  predicate IsNegative(token: seq<char>) { token != [] && token[0] == '-' }

  /** Digits with at most one point; the source accepts a point with no digit at all. */
  predicate WellFormed(s: seq<char>) {
    && s != []
    && (forall i :: 0 <= i < |s| ==> s[i] == '.' || IsDigit(s[i]))
    && (forall i, j :: 0 <= i < j < |s| ==> s[i] != '.' || s[j] != '.')
  }

  /** The integer that all the digits spell, the point ignored. */
  function Digits(s: seq<char>): nat {
    if s == [] then 0
    else
      var n, c := Digits(s[..|s| - 1]), s[|s| - 1];
      if IsDigit(c) then n * 10 + DigitValue(c) else n
  }

  /** Ten to the number of digits after the point. */
  function Denominator(s: seq<char>): (d: nat)
    ensures d >= 1
  {
    if s == [] then 1
    else
      var d := Denominator(s[..|s| - 1]);
      if IsDigit(s[|s| - 1]) && '.' in s[..|s| - 1] then d * 10 else d
  }

  const INT_LIMIT := 0x8000_0000

  /** A 32-bit signed result, as the compiled code wraps it. */
  function Wrap32(n: int): (r: int)
    ensures -INT_LIMIT <= r < INT_LIMIT
    ensures -INT_LIMIT <= n < INT_LIMIT ==> r == n
  {
    (n + INT_LIMIT) % 0x1_0000_0000 - INT_LIMIT
  }

  /** q is the quotient of the two integers converted to halves. */
  ghost predicate IsRatio(num: int, denom: int, n: Word, d: Word, q: Word) {
    IsFromInt(num, n) && IsFromInt(denom, d) && IsQuotient(n, d, q)
  }

  /** The value parsed is the ratio that the digits spell, with the sign put back. */
  ghost predicate IsParse(token: seq<char>, r: Word) {
    exists n: Word, d: Word, q: Word ::
      && IsRatio(Digits(Body(token)), Denominator(Body(token)), n, d, q)
      && r == if IsNegative(token) then Flip(q) else q
  }

  /** The character a C string holds at i; the token ends with a NUL. */
  function At(token: seq<char>, i: nat): char {
    if i < |token| then token[i] else '\0'
  }

  /** parse_fp16 on the token that strtok_input returned (never empty, never holding a NUL). */
  method ParseFp16(token: seq<char>) returns (r: Option<Word>)
    requires token != [] && '\0' !in token
    ensures r.Some? <==> WellFormed(Body(token))
    ensures r.Some? && Digits(Body(token)) < INT_LIMIT && Denominator(Body(token)) < INT_LIMIT
            ==> IsParse(token, r.value)
  {
    var neg := At(token, 0) == '-';
    ghost var s := Body(token);
    var ok, num, denom := ReadLiteral(token, if neg then 1 else 0);
    if !ok {
      return None;
    }
    var fp, n, d := Ratio(num, denom);
    r := Some(if neg then Flip(fp) else fp);
    if num == Digits(s) && denom == Denominator(s) {
      ParseIs(token, n, d, fp);
    }
  }

  /** What the literal's first characters amount to, unless they overflow. */
  predicate ReadSoFar(num: int, denom: int, inDenom: bool, front: seq<char>) {
    && -INT_LIMIT <= num < INT_LIMIT && -INT_LIMIT <= denom < INT_LIMIT
    && inDenom == ('.' in front)
    && (Digits(front) < INT_LIMIT ==> num == Digits(front))
    && (Denominator(front) < INT_LIMIT ==> denom == Denominator(front))
  }

  /** The loop over the characters from start on. */
  method ReadLiteral(token: seq<char>, start: nat) returns (ok: bool, num: int, denom: int)
    requires start <= |token| && '\0' !in token
    ensures ok <==> WellFormed(token[start..])
    ensures ok ==> ReadSoFar(num, denom, '.' in token[start..], token[start..])
  {
    ghost var s := token[start..];
    var i := start;
    var inDenom := false;
    num, denom := 0, 1;
    var more := true;
    while more
      invariant start <= i <= |token| && more == (i == start || i < |token|)
      invariant i > start ==> WellFormed(s[..i - start])
      invariant ReadSoFar(num, denom, inDenom, s[..i - start])
      decreases |token| + 1 - i
    {
      var c := At(token, i);
      ghost var k := i - start;
      NextChar(s, k, c);
      if c == '.' {
        if inDenom {
          return false, num, denom;
        }
        inDenom := true;
      } else if !IsDigit(c) {
        return false, num, denom;
      } else {
        num := Append(num, DigitValue(c), Digits(s[..k]));
        if inDenom {
          denom := Append(denom, 0, Denominator(s[..k]));
        }
      }
      i := i + 1;
      more := At(token, i) != '\0';
    }
    assert s[..i - start] == s;
    ok := true;
  }

  lemma ParseIs(token: seq<char>, n: Word, d: Word, q: Word)
    requires IsRatio(Digits(Body(token)), Denominator(Body(token)), n, d, q)
    ensures IsParse(token, if IsNegative(token) then Flip(q) else q)
  {
  }

  /** One more digit, right as long as the number n so far and with it fits. */
  method Append(v: int, digit: nat, ghost n: nat) returns (r: int)
    requires digit < 10 && (n < INT_LIMIT ==> v == n)
    ensures -INT_LIMIT <= r < INT_LIMIT
    ensures 10 * n + digit < INT_LIMIT ==> r == 10 * n + digit
  {
    r := Wrap32(v * 10 + digit);
  }

  /** The last step of parse_fp16: both integers to halves, then their quotient. */
  method Ratio(num: int, denom: int) returns (q: Word, ghost n: Word, ghost d: Word)
    requires -INT_LIMIT <= num < INT_LIMIT && -INT_LIMIT <= denom < INT_LIMIT
    ensures IsRatio(num, denom, n, d, q)
  {
    var top := FromInt(num);
    var bottom := FromInt(denom);
    q := Float16Product.Div(top, bottom);
    n, d := top, bottom;
  }

  /** What one more character does to the literal read so far; past the end it is a NUL. */
  lemma NextChar(s: seq<char>, k: nat, c: char)
    requires k <= |s| && '\0' !in s && c == At(s, k)
    requires k > 0 ==> WellFormed(s[..k])
    ensures k == |s| ==> c == '\0'
    ensures k < |s| ==> s[..k + 1] == s[..k] + [c] && (('.' in s[..k + 1]) == (c == '.' || '.' in s[..k]))
    ensures k < |s| && ((c == '.' && '.' !in s[..k]) || IsDigit(c)) ==> WellFormed(s[..k + 1])
    ensures k < |s| && !((c == '.' && '.' !in s[..k]) || IsDigit(c)) ==> !WellFormed(s)
    ensures k < |s| && IsDigit(c) ==> Digits(s[..k + 1]) == Digits(s[..k]) * 10 + DigitValue(c)
    ensures k < |s| && !IsDigit(c) ==> Digits(s[..k + 1]) == Digits(s[..k])
    ensures k < |s| ==>
              Denominator(s[..k + 1]) == Denominator(s[..k]) * if IsDigit(c) && '.' in s[..k] then 10 else 1
  {
    if k < |s| {
      assert s[..k + 1][..k] == s[..k];
      if c == '.' && '.' in s[..k] {
        var j :| 0 <= j < k && s[j] == '.';
        assert s[k] == '.';
      }
    }
  }

  /** The condition for the parse to be the truncated decimal, which needs only the two integers that the literal
      spells. From five decimals on the denominator has no half, and the parse is zero or a NaN; from 2^16 on the
      digits have none, and it is infinite. Otherwise no half may lie above the decimal whose digits are cut to
      their 11 leading bits and not above the decimal itself. */
  ghost predicate ParsesExactly(num: nat, denom: nat) {
    if denom >= 0x1_0000 then num < 0x1_0000 && num * ONE < denom
    else if num >= 0x1_0000 then num >= 0x1_0000 * denom
    else NoHalfBetween(Leading11(num), num, denom)
  }

  ghost predicate NoHalfBetween(cut: nat, num: nat, denom: nat) {
    forall k: Word :: k <= INF ==> !(cut * ONE < Mag(k) * denom <= num * ONE)
  }

  /** Every literal whose digits and decimals fit 32 bits parses to its decimal value truncated to a half, with its
      sign, if and only if the condition holds. */
  lemma ParsesDecimal(token: seq<char>, r: Word)
    requires IsParse(token, r)
    requires Digits(Body(token)) < INT_LIMIT && Denominator(Body(token)) < INT_LIMIT
    ensures Truncates(Abs(r), Digits(Body(token)) * ONE, Denominator(Body(token)))
            <==> ParsesExactly(Digits(Body(token)), Denominator(Body(token)))
    ensures !IsNan(r) ==> Negative(r) == IsNegative(token)
  {
    var num, denom := Digits(Body(token)), Denominator(Body(token));
    var n: Word, d: Word, q: Word :|
      && IsRatio(num, denom, n, d, q)
      && r == if IsNegative(token) then Flip(q) else q;
    DenominatorCases(Body(token));
    RatioTruncates(num, denom, n, d, q);
  }

  /** The literals that the condition is sure to let through: those with at most four decimals whose digits a half
      holds, as it holds all integers up to 2048. */
  lemma HeldDigitsParse(num: nat, denom: nat)
    requires num <= 2048 && denom < 0x1_0000
    ensures ParsesExactly(num, denom)
  {
    assert Leading11(2048) == 2048 by { assert Leading11(1024) == 1024; }
  }

  lemma {:induction false} DenominatorCases(s: seq<char>)
    ensures Denominator(s) in {1, 10, 100, 1000, 10000} || Denominator(s) >= 0x1_0000
  {
    if s != [] {
      DenominatorCases(s[..|s| - 1]);
    }
  }

  lemma RatioTruncates(num: nat, denom: nat, n: Word, d: Word, q: Word)
    requires IsRatio(num, denom, n, d, q) && (denom in {1, 10, 100, 1000, 10000} || denom >= 0x1_0000)
    ensures Truncates(Abs(q), num * ONE, denom) <==> ParsesExactly(num, denom)
    ensures !IsNan(q) ==> !Negative(q)
  {
    if denom >= 0x1_0000 {
      LargeInt(denom, d);
      OverInfinity(num, denom, n, d, q);
    } else if num >= 0x1_0000 {
      LargeInt(num, n);
      LeadingTen(denom);
      FromNat(denom, d);
      TruncatesAtInfinity(num, denom);
    } else {
      ExactRatio(num, denom, n, d, q);
      LeadingBound(num);
      CutTruncates(Abs(q), Leading11(num), num, denom);
    }
  }

  lemma LargeInt(n: nat, h: Word)
    requires n >= 0x1_0000 && IsFromInt(n, h)
    ensures IsInf(h) && !Negative(h)
  {
    TruncatesInfinite(Abs(h), n * ONE, 1);
  }

  lemma OverInfinity(num: nat, denom: nat, n: Word, d: Word, q: Word)
    requires IsFromInt(num, n) && IsInf(d) && !Negative(d) && IsQuotient(n, d, q) && denom >= 0x1_0000
    ensures Truncates(Abs(q), num * ONE, denom) <==> num < 0x1_0000 && num * ONE < denom
    ensures num < 0x1_0000 ==> q == 0
  {
    if num >= 0x1_0000 {
      LargeInt(num, n);
      InfOverInf(n, d, q);
    } else {
      if num > 0 {
        FromNat(num, n);
      }
      FiniteOverInf(n, d, q);
      TruncatesAtZero(num, denom);
    }
  }

  lemma InfOverInf(n: Word, d: Word, q: Word)
    requires IsInf(n) && IsInf(d) && IsQuotient(n, d, q)
    ensures Abs(q) > INF
  {
  }

  lemma FiniteOverInf(n: Word, d: Word, q: Word)
    requires IsFinite(n) && IsInf(d) && IsQuotient(n, d, q)
    ensures q == 0
  {
  }

  lemma TruncatesAtZero(num: nat, denom: nat)
    ensures Truncates(0, num * ONE, denom) <==> num * ONE < denom
  {
    assert Mag(0) == 0 && Mag(1) == 1;
  }

  lemma TruncatesAtInfinity(num: nat, denom: nat)
    ensures Truncates(INF, num * ONE, denom) <==> num >= 0x1_0000 * denom
  {
    InfMag();
  }

  /** The truncation of the cut decimal is that of the decimal if and only if no half lies between. */
  lemma CutTruncates(h: Word, cut: nat, num: nat, denom: nat)
    requires cut <= num && Truncates(h, cut * ONE, denom)
    ensures Truncates(h, num * ONE, denom) <==> NoHalfBetween(cut, num, denom)
  {
    if Truncates(h, num * ONE, denom) {
      forall k: Word | k <= INF
        ensures !(cut * ONE < Mag(k) * denom <= num * ONE)
      {
        AtMostTruncated(h, k, cut * ONE, num * ONE, denom);
      }
    } else {
      assert h < INF && Mag(h + 1) * denom <= num * ONE;
    }
  }

  lemma AtMostTruncated(h: Word, k: Word, c: int, p: int, q: nat)
    requires k <= INF && Truncates(h, c, q) && Truncates(h, p, q)
    ensures !(c < Mag(k) * q <= p)
  {
    if h < k {
      if Mag(k) * q <= p {
        NotLargest(h, k, p, q);
      }
    } else {
      MagMonotoneWeak(k, h);
      MulMono(Mag(k), Mag(h), q);
    }
  }

  lemma ExactRatio(num: nat, denom: nat, n: Word, d: Word, q: Word)
    requires IsRatio(num, denom, n, d, q)
    requires num < 0x1_0000 && denom in {1, 10, 100, 1000, 10000}
    ensures IsFinite(q) && !Negative(q) && Truncates(Abs(q), Leading11(num) * ONE, denom)
  {
    LeadingTen(denom);
    FromNat(denom, d);
    if num == 0 {
      ZeroRatio(denom, d, q);
    } else {
      FromNat(num, n);
      LeadingBound(num);
      RatioOfMagnitudes(Leading11(num), denom, n, d, q);
    }
  }

  /** A small positive integer as a half. */
  lemma FromNat(n: nat, h: Word)
    requires 0 < n < 0x1_0000 && IsFromInt(n, h)
    ensures IsFinite(h) && !Negative(h) && !IsZero(h) && Mag(Abs(h)) == Leading11(n) * ONE
  {
    LeadingMag(n, Abs(h));
    LeadingBound(n);
    assert Mag(0) == 0;
  }

  lemma ZeroRatio(denom: nat, d: Word, q: Word)
    requires denom > 0 && IsFinite(d) && !IsZero(d) && IsQuotient(0, d, q)
    ensures q == 0 && Truncates(0, 0, denom)
  {
    assert Mag(0) == 0 && Mag(1) == 1;
  }

  lemma RatioOfMagnitudes(num: nat, denom: nat, n: Word, d: Word, q: Word)
    requires 0 < num < 0x1_0000 && denom > 0 && IsQuotient(n, d, q)
    requires IsFinite(n) && IsFinite(d) && !Negative(n) && !Negative(d) && !IsZero(n) && !IsZero(d)
    requires Mag(Abs(n)) == num * ONE && Mag(Abs(d)) == denom * ONE
    ensures IsFinite(q) && !Negative(q) && Truncates(Abs(q), num * ONE, denom)
  {
    CancelOne(Abs(q), num, denom);
    TruncatesInfinite(Abs(q), num * ONE, denom);
    SmallRatio(num, denom);
  }

  lemma SmallRatio(num: int, denom: int)
    requires 0 < num < 0x1_0000 && denom > 0
    ensures num * ONE < 0x100_0000_0000 * denom
  {
  }

  lemma LeadingBound(n: nat)
    ensures n > 0 ==> 0 < Leading11(n) <= n
  {
  }

  lemma LeadingTen(d: nat)
    requires d in {1, 10, 100, 1000, 10000}
    ensures Leading11(d) == d
  {
    if d == 10000 {
      assert Leading11(1250) == 1250;
      assert Leading11(2500) == 2500;
      assert Leading11(5000) == 5000;
    }
  }

  lemma CancelOne(h: Word, n: nat, d: nat)
    requires Truncates(h, n * ONE * ONE, d * ONE)
    ensures Truncates(h, n * ONE, d)
  {
    CancelFactor(Mag(h), n, d);
    if h < INF {
      CancelFactor(Mag(h + 1), n, d);
    }
  }

  lemma CancelFactor(x: int, n: int, d: int)
    ensures x * (d * ONE) <= n * ONE * ONE <==> x * d <= n * ONE
  {
    assert x * (d * ONE) == x * d * ONE;
  }

  /** An instance that fails: the digits of 204.9 form 2049, which is cut to 2048, and 204.875 lies between. */
  lemma LiteralNotTruncated(token: seq<char>, r: Word)
    requires token == "204.9" && IsParse(token, r)
    ensures Digits(Body(token)) == 2049 && Denominator(Body(token)) == 10
    ensures !Truncates(Abs(r), 2049 * ONE, 10)
  {
    TokenValue();
    HalfBetween();
    ParsesDecimal(token, r);
  }

  lemma HalfBetween()
    ensures Leading11(2049) == 2048 && !NoHalfBetween(2048, 2049, 10)
  {
    assert Leading11(1024) == 1024;
    var k: Word := 23143;
    assert Mag(k) == 1639 * 0x20_0000 by {
      Pow2Values();
      Pow2Add(5, 16);
      assert k / 1024 == 22 && k % 1024 == 615;
    }
    assert 2048 * ONE < Mag(k) * 10 <= 2049 * ONE;
  }

  /** An instance that holds although no half holds the digits: 2049 parses to 2048. */
  lemma CutDigitsMayParse()
    ensures Leading11(2049) != 2049 && ParsesExactly(2049, 1)
  {
    HalfBetween();
    forall k: Word | k <= INF
      ensures !(2048 * ONE < Mag(k) * 1 <= 2049 * ONE)
    {
      NextAfter2048(k);
    }
  }

  lemma TwiceOne()
    ensures Pow2(25) == 2 * ONE
  {
    Pow2Values();
    assert Pow2(25) == 2 * Pow2(24);
  }

  lemma NextAfter2048(k: Word)
    requires k <= INF
    ensures Mag(k) <= 2048 * ONE || Mag(k) >= 2050 * ONE
  {
    var h: Word := 26 * 1024;
    TwiceOne();
    PackMag(1024, 26);
    PackMag(1025, 26);
    if k <= h {
      MagMonotoneWeak(k, h);
    } else {
      MagMonotoneWeak(h + 1, k);
    }
  }

  lemma DigitNext(s: seq<char>, c: char)
    ensures Digits(s + [c]) == if IsDigit(c) then Digits(s) * 10 + DigitValue(c) else Digits(s)
    ensures Denominator(s + [c]) == if IsDigit(c) && '.' in s then Denominator(s) * 10 else Denominator(s)
  {
    assert (s + [c])[..|s|] == s;
  }

  lemma TokenValue()
    ensures Body("204.9") == "204.9" && Digits("204.9") == 2049 && Denominator("204.9") == 10
  {
    DigitNext("", '2');
    DigitNext("2", '0');
    DigitNext("20", '4');
    DigitNext("204", '.');
    DigitNext("204.", '9');
    assert "" + ['2'] == "2" && "2" + ['0'] == "20" && "20" + ['4'] == "204";
    assert "204" + ['.'] == "204." && "204." + ['9'] == "204.9";
    assert "204."[3] == '.';
  }
}
