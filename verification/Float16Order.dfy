/** The six comparisons of demo/float16.c, as the source writes them, and the order they compute. */
module Float16Order {
  import opened Half

  function Gte(a: Word, b: Word): bool {
    if IsZero(a) && IsZero(b) then true
    else if IsNan(a) || IsNan(b) then false
    else if !Negative(a) then Negative(b) || a >= b
    else Negative(b) && Abs(a) <= Abs(b)
  }

  function Gt(a: Word, b: Word): bool {
    if IsNan(a) || IsNan(b) then false
    else if IsZero(a) && IsZero(b) then false
    else if !Negative(a) then Negative(b) || a > b
    else Negative(b) && Abs(a) < Abs(b)
  }

  function Eq(a: Word, b: Word): bool {
    if IsNan(a) || IsNan(b) then false
    else if IsZero(a) && IsZero(b) then true
    else a == b
  }

  function Lte(a: Word, b: Word): bool {
    !IsNan(a) && !IsNan(b) && Gte(b, a)
  }

  function Lt(a: Word, b: Word): bool {
    !IsNan(a) && !IsNan(b) && Gt(b, a)
  }

  function Neq(a: Word, b: Word): bool {
    !Eq(a, b)
  }

  /** Between numbers (infinities included) the comparisons are those of the values. */
  lemma ComparesValues(a: Word, b: Word)
    requires !IsNan(a) && !IsNan(b)
    ensures Gte(a, b) <==> Val(a) >= Val(b)
    ensures Gt(a, b) <==> Val(a) > Val(b)
    ensures Eq(a, b) <==> Val(a) == Val(b)
    ensures Lte(a, b) <==> Val(a) <= Val(b)
    ensures Lt(a, b) <==> Val(a) < Val(b)
    ensures Neq(a, b) <==> Val(a) != Val(b)
  {
    PositiveMag(a);
    PositiveMag(b);
    if Abs(a) < Abs(b) {
      MagMonotone(Abs(a), Abs(b));
    } else if Abs(b) < Abs(a) {
      MagMonotone(Abs(b), Abs(a));
    }
  }

  lemma PositiveMag(a: Word)
    requires !IsNan(a)
    ensures Mag(Abs(a)) == 0 <==> IsZero(a)
  {
    assert Mag(0) == 0;
    if Abs(a) > 0 {
      MagMonotone(0, Abs(a));
    }
  }

  /** A NaN is unordered: every comparison but Neq is false. */
  lemma NanIsUnordered(a: Word, b: Word)
    requires IsNan(a) || IsNan(b)
    ensures !Gte(a, b) && !Gt(a, b) && !Eq(a, b) && !Lte(a, b) && !Lt(a, b) && Neq(a, b)
  {
  }
}
