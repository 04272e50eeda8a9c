/** Hexadecimal numbers: print_hex (demo/console.c) and parse_hex (demo/util.c). */
module Hex {
  import opened Options
  import opened Powers
  import opened CStrings
  import opened Tokens

  const WORD := 0x1_0000_0000
  const HEX_DIGITS := "0123456789abcdef"

  /** The value of a digit; anything else counts as zero. */
  function Digit(c: char): (d: nat)
    ensures d < 16
  {
    if '0' <= c <= '9' then c as int - '0' as int
    else if 'a' <= c <= 'f' then c as int - 'a' as int + 10
    else if 'A' <= c <= 'F' then c as int - 'A' as int + 10
    else 0
  }

  /** The value of a string of digits in a 32-bit word. */
  function Value(s: string): (v: nat)
    ensures v < WORD
  {
    if s == [] then 0 else (16 * Value(s[..|s| - 1]) + Digit(s[|s| - 1])) % WORD
  }

  datatype Parsed = Eof | Bad | Ok(val: nat)

  function ParseWord(w: string): Parsed {
    if |w| < 2 || w[0] != '0' || w[1] != 'x' then Bad
    else if |w| == 2 || |w| > 10 then Bad
    else Ok(Value(w[2..]))
  }

  method ParseHex(buf: array<char>, pos: nat) returns (r: Parsed, next: nat)
    requires pos <= buf.Length && Terminated(buf[pos..])
    modifies buf
    ensures pos <= next < buf.Length && Terminated(buf[next..])
    ensures var words := Words(old(StringAt(buf[..], pos)));
            if words == [] then r == Eof
            else r == ParseWord(words[0]) && Words(StringAt(buf[..], next)) == words[1..]
  {
    ghost var words := Words(StringAt(buf[..], pos));
    var token: Option<nat>;
    token, next := StrtokInput(buf, pos);
    if token == None {
      return Eof, next;
    }
    ghost var w := words[0];
    var t := token.value;
    HoldsAt(buf[..], t, w, 0);
    if |w| > 1 {
      HoldsAt(buf[..], t, w, 1);
    }
    if buf[t] != '0' || buf[t + 1] != 'x' {
      return Bad, next;
    }
    var val, nibbles := ReadDigits(buf, t + 2, t, w);
    r := if nibbles == 0 || nibbles > 8 then Bad else Ok(val);
  }

  lemma HoldsAt(s: string, start: nat, w: string, i: nat)
    requires Holds(s, start, w) && i < |w|
    ensures s[start + i] == w[i] != NUL
  {
    assert s[start..start + |w|][i] == w[i];
  }

  /** The loop over the digits of the word w at start. */
  method ReadDigits(buf: array<char>, from: nat, ghost start: nat, ghost w: string) returns (val: nat, nibbles: nat)
    requires Holds(buf[..], start, w) && start + 2 == from && |w| >= 2
    ensures nibbles == |w| - 2 && val == Value(w[2..])
  {
    var c := from;
    val, nibbles := 0, 0;
    while buf[c] != NUL
      invariant c == start + 2 + nibbles && nibbles <= |w| - 2
      invariant val == Value(w[2..2 + nibbles])
      decreases start + |w| - c
    {
      HoldsAt(buf[..], start, w, 2 + nibbles);
      val := AddDigit(val, buf[c]);
      assert w[2..2 + nibbles + 1][..nibbles] == w[2..2 + nibbles];
      c, nibbles := c + 1, nibbles + 1;
    }
    assert w[2..2 + nibbles] == w[2..];
  }

  /** One digit: the low four bits are free after the shift. */
  method AddDigit(v: nat, c: char) returns (val: nat)
    ensures val == (16 * v + Digit(c)) % WORD
  {
    val := v * 16 % WORD;
    if '0' <= c <= '9' {
      val := val + (c as int - '0' as int);
    } else if 'a' <= c <= 'f' {
      val := val + (c as int - 'a' as int + 10);
    } else if 'A' <= c <= 'F' {
      val := val + (c as int - 'A' as int + 10);
    }
    ShiftsIn(v, Digit(c));
  }

  /** The low four bits are free after the shift. */
  lemma ShiftsIn(v: nat, d: nat)
    requires d < 16
    ensures v * 16 % WORD + d == (16 * v + d) % WORD
  {
    assert v * 16 % WORD % 16 == 0;
    assert v * 16 % WORD + 16 <= WORD;
  }

  /** The digits that print_hex writes for a width. */
  function Nibbles(bits: nat): (n: nat)
    ensures 1 <= n <= 8
  {
    ((if bits < 4 then 4 else if bits > 32 then 32 else bits) + 3) / 4
  }

  function Digits(val: nat, n: nat): (s: string)
    ensures |s| == n
  {
    if n == 0 then [] else Digits(val / 16, n - 1) + [HEX_DIGITS[val % 16]]
  }

  method PrintHex(val: nat, bits: nat) returns (s: string)
    requires val < WORD
    ensures s == "0x" + Digits(val, Nibbles(bits))
  {
    s := "0x";
    var width: nat := bits;
    if width < 4 {
      width := 4;
    }
    if width > 32 {
      width := 32;
    }
    width := (width + 3) / 4 * 4;
    ghost var left := Nibbles(bits);
    while width != 0
      invariant width == 4 * left && left <= Nibbles(bits)
      invariant s == "0x" + Digits(Above(val, left), Nibbles(bits) - left)
    {
      width := width - 4;
      left := left - 1;
      var c := HexDigit(val, width, left);
      s := s + [c];
    }
  }

  /** The value without its lowest k digits. */
  function Above(val: nat, k: nat): nat {
    if k == 0 then val else Above(val, k - 1) / 16
  }

  method HexDigit(val: nat, width: nat, ghost k: nat) returns (c: char)
    requires width == 4 * k
    ensures c == HEX_DIGITS[Above(val, k) % 16]
  {
    ShrIsAbove(val, k);
    c := HEX_DIGITS[Shr(val, width) % 16];
  }

  lemma {:induction false} ShrIsAbove(val: nat, k: nat)
    ensures Shr(val, 4 * k) == Above(val, k)
  {
    if k > 0 {
      ShrIsAbove(val, k - 1);
      ShrNibble(val, 4 * (k - 1));
    }
  }

  lemma ShrNibble(val: nat, bits: nat)
    ensures Shr(val, bits + 4) == Shr(val, bits) / 16
  {
    var p, r, q := Pow2(bits), Shr(val, bits), Shr(val, bits) / 16;
    Pow2Add(bits, 4);
    assert Pow2(bits + 4) == 16 * p;
    MulMono(16 * q, r, p);
    MulMono(r + 1, 16 * (q + 1), p);
    DivUnique(val, Pow2(bits + 4), q);
  }

  lemma Width(n: nat)
    requires n <= 8
    ensures Pow2(4 * n) <= WORD
    ensures n > 0 ==> Pow2(4 * n) == 16 * Pow2(4 * (n - 1))
  {
    Pow2Values();
    Pow2Monotone(4 * n, 32);
    if n > 0 {
      Pow2Add(4 * (n - 1), 4);
    }
  }

  lemma DigitOfHexDigit(d: nat)
    requires d < 16
    ensures Digit(HEX_DIGITS[d]) == d
  {
  }

  function Lower(c: char): char {
    if 'A' <= c <= 'F' then (c as int - 'A' as int + 'a' as int) as char else c
  }

  predicate IsHexDigit(c: char) { '0' <= c <= '9' || 'a' <= c <= 'f' || 'A' <= c <= 'F' }

  lemma HexDigitOfDigit(c: char)
    requires IsHexDigit(c)
    ensures HEX_DIGITS[Digit(c)] == Lower(c)
  {
  }

  lemma DigitsLast(val: nat, n: nat)
    requires n > 0
    ensures Digits(val, n)[..n - 1] == Digits(val / 16, n - 1)
    ensures Digits(val, n)[n - 1] == HEX_DIGITS[val % 16]
  {
  }

  lemma ValueLast(s: string)
    requires s != []
    ensures Value(s) == (16 * Value(s[..|s| - 1]) + Digit(s[|s| - 1])) % WORD
  {
  }

  /** A printed number is its value modulo 2^(4n). */
  lemma {:induction false} ValueOfDigits(val: nat, n: nat)
    requires n <= 8
    ensures Value(Digits(val, n)) == val % Pow2(4 * n)
  {
    if n > 0 {
      ValueOfDigits(val / 16, n - 1);
      Width(n);
      DigitsLast(val, n);
      DigitOfHexDigit(val % 16);
      ValueLast(Digits(val, n));
      LowDigits(val, Pow2(4 * (n - 1)));
    }
  }

  lemma LowDigits(val: nat, p: nat)
    requires p > 0 && 16 * p <= WORD
    ensures (16 * (val / 16 % p) + val % 16) % WORD == val % (16 * p)
  {
    var h := val / 16;
    var q, r := h / p, h % p;
    assert h == q * p + r;
    var x := 16 * r + val % 16;
    assert val == q * (16 * p) + x;
    assert 0 <= x < 16 * p;
    assert (q + 1) * (16 * p) == q * (16 * p) + 16 * p;
    DivUnique(val, 16 * p, q);
    assert val == val / (16 * p) * (16 * p) + val % (16 * p);
  }

  lemma {:induction false} DigitsAreDigits(val: nat, n: nat, i: nat)
    requires i < n
    ensures Digits(val, n)[i] in HEX_DIGITS
  {
    if i < n - 1 {
      DigitsAreDigits(val / 16, n - 1, i);
    }
  }

  lemma PrintedIsWord(val: nat, n: nat)
    requires n > 0
    ensures IsWord("0x" + Digits(val, n)) && NUL !in "0x" + Digits(val, n)
  {
    var w := "0x" + Digits(val, n);
    forall i | 0 <= i < |w|
      ensures w[i] != ' ' && w[i] != NUL
    {
      if i >= 2 {
        DigitsAreDigits(val, n, i - 2);
      }
    }
  }

  lemma WordAmong(before: string, w: string, after: string)
    requires IsWord(w) && (after == [] || after[0] == ' ') && Blank(before)
    ensures Words(before + w + after) == [w] + Words(after)
  {
    FirstWord(before, w, after);
    assert before + w + after == before + (w + after);
  }

  lemma PrintedParses(val: nat, n: nat)
    requires 0 < n <= 8
    ensures ParseWord("0x" + Digits(val, n)) == Ok(val % Pow2(4 * n))
  {
    var w := "0x" + Digits(val, n);
    ValueOfDigits(val, n);
    assert w[2..] == Digits(val, n);
  }

  lemma NibblesRoundUp(bits: nat)
    ensures 4 * Nibbles(bits) == if bits <= 4 then 4 else if bits >= 32 then 32 else (bits + 3) / 4 * 4
  {
  }

  /** What print_hex writes is one word of the line it is in, and parse_hex reads it as the value modulo
      2^(bits), the width taken between 4 and 32 and rounded up to whole digits. */
  lemma HexRoundTrip(val: nat, bits: nat, w: string, before: string, after: string)
    requires val < WORD && w == "0x" + Digits(val, Nibbles(bits))
    requires Blank(before)
    requires after == [] || after[0] == ' '
    ensures NUL !in w && Words(before + w + after) == [w] + Words(after)
    ensures ParseWord(w) == Ok(val % Pow2(if bits <= 4 then 4 else if bits >= 32 then 32 else (bits + 3) / 4 * 4))
  {
    PrintedIsWord(val, Nibbles(bits));
    WordAmong(before, w, after);
    PrintedParses(val, Nibbles(bits));
    NibblesRoundUp(bits);
  }

  function LowerCase(s: string): (t: string) {
    if s == [] then [] else LowerCase(s[..|s| - 1]) + [Lower(s[|s| - 1])]
  }

  lemma SmallStep(h: nat, d: nat, p: nat)
    requires h < p && d < 16 && 16 * p <= WORD
    ensures var v := (16 * h + d) % WORD; v < 16 * p && v / 16 == h && v % 16 == d
  {
  }

  lemma DigitsStep(v: nat, h: nat, c: char, n: nat)
    requires v / 16 == h && v % 16 == Digit(c) && IsHexDigit(c)
    ensures Digits(v, n + 1) == Digits(h, n) + [Lower(c)]
  {
    HexDigitOfDigit(c);
  }

  /** Conversely, up to eight digits that were read are written back, in lower case. */
  lemma {:induction false} DigitsOfValue(s: string)
    requires |s| <= 8 && forall i :: 0 <= i < |s| ==> IsHexDigit(s[i])
    ensures Value(s) < Pow2(4 * |s|)
    ensures Digits(Value(s), |s|) == LowerCase(s)
  {
    if s != [] {
      var t, c := s[..|s| - 1], s[|s| - 1];
      DigitsOfValue(t);
      Width(|t| + 1);
      ValueLast(s);
      SmallStep(Value(t), Digit(c), Pow2(4 * |t|));
      DigitsStep(Value(s), Value(t), c, |t|);
    }
  }
}
