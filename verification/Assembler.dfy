/** The shader assembler (gfx_asm/assembler.py): instructions to bit strings to a little-endian image. */
module Bits {
  import opened Options
  import opened Powers

  predicate IsBits(s: string) { forall i :: 0 <= i < |s| ==> s[i] == '0' || s[i] == '1' }

  function Bit(b: nat): char { if b == 0 then '0' else '1' }

  /** int(s, 2). */
  function Value(s: string): nat {
    if s == [] then 0 else 2 * Value(s[..|s| - 1]) + if s[|s| - 1] == '1' then 1 else 0
  }

  /** The n low bits of a number, the highest first. */
  function Low(v: nat, n: nat): (s: string)
    ensures |s| == n && IsBits(s)
  {
    if n == 0 then [] else Low(v / 2, n - 1) + [Bit(v % 2)]
  }

  lemma {:induction false} ValueOfLow(v: nat, n: nat)
    requires v < Pow2(n)
    ensures Value(Low(v, n)) == v
  {
    if n > 0 {
      ValueOfLow(v / 2, n - 1);
      assert Low(v, n)[..n - 1] == Low(v / 2, n - 1);
    }
  }

  lemma {:induction false} LowOfValue(s: string)
    requires IsBits(s)
    ensures Value(s) < Pow2(|s|) && Low(Value(s), |s|) == s
  {
    if s != [] {
      var t := s[..|s| - 1];
      assert forall i :: 0 <= i < |t| ==> t[i] == s[i];
      LowOfValue(t);
      assert Value(s) / 2 == Value(t);
      assert s == t + [s[|s| - 1]];
    }
  }

  /** bin(v)[2:]. */
  function Bin(v: nat): string {
    if v < 2 then [Bit(v)] else Bin(v / 2) + [Bit(v % 2)]
  }

  function Zeros(n: nat): (s: string)
    ensures |s| == n && IsBits(s)
  {
    seq(n, i => '0')
  }

  function Zfill(s: string, n: nat): string {
    if |s| >= n then s else Zeros(n - |s|) + s
  }

  lemma {:induction false} LowOfZero(n: nat)
    ensures Low(0, n) == Zeros(n)
  {
    if n > 0 {
      LowOfZero(n - 1);
    }
  }

  /** Filled up, the digits of a number that fits are its low bits. */
  lemma {:induction false} ZfillIsLow(v: nat, n: nat)
    requires n > 0 && v < Pow2(n)
    ensures |Bin(v)| <= n && Zfill(Bin(v), n) == Low(v, n)
  {
    if v < 2 {
      LowOfZero(n - 1);
      assert v / 2 == 0;
    } else {
      ZfillIsLow(v / 2, n - 1);
    }
  }

  /** encode_unsigned; None is its error exit. */
  function EncodeUnsigned(val: int, size: nat): Option<string> {
    if 0 <= val <= Pow2(size) - 1 then Some(Zfill(Bin(val), size)) else None
  }

  function EncodeSigned(val: int, size: nat): Option<string>
    requires size > 0
  {
    var top: int := Pow2(size - 1);
    if !(-top <= val <= top - 1) then None
    else EncodeUnsigned(if val < 0 then val + Pow2(size) else val, size)
  }

  /** Reading the bits in two's complement. */
  function TwosComplement(s: string): int
    requires s != []
  {
    if s[0] == '1' then Value(s) - Pow2(|s|) else Value(s)
  }

  lemma EncodesUnsigned(val: int, size: nat)
    requires size > 0
    ensures EncodeUnsigned(val, size).Some? <==> 0 <= val < Pow2(size)
    ensures EncodeUnsigned(val, size).Some? ==>
              EncodeUnsigned(val, size) == Some(Low(val, size)) && Value(Low(val, size)) == val
  {
    if 0 <= val < Pow2(size) {
      ZfillIsLow(val, size);
      ValueOfLow(val, size);
    }
  }

  /** The first bit is the sign bit. */
  lemma {:induction false} FirstBit(v: nat, n: nat)
    requires n > 0 && v < Pow2(n)
    ensures Low(v, n)[0] == '1' <==> v >= Pow2(n - 1)
  {
    if n > 1 {
      FirstBit(v / 2, n - 1);
    }
  }

  /** Every value in range is encoded in the given size, and two's complement reads it back; others are refused. */
  lemma SignedRoundTrip(val: int, size: nat)
    requires size > 0
    ensures var top: int := Pow2(size - 1);
            EncodeSigned(val, size).Some? <==> -top <= val < top
    ensures var s := EncodeSigned(val, size);
            s.Some? ==> |s.value| == size && IsBits(s.value) && TwosComplement(s.value) == val
  {
    var top: int := Pow2(size - 1);
    if -top <= val < top {
      var v := if val < 0 then val + Pow2(size) else val;
      assert Pow2(size) == 2 * Pow2(size - 1);
      EncodesUnsigned(v, size);
      FirstBit(v, size);
    }
  }
}

module Assembler {
  import opened Options
  import opened Powers
  import opened Bits

  /** An instruction, its operands parsed: registers by number, the select mask by its bits, the swizzle mask by
      its component numbers, the immediate as a 16-bit word. */
  datatype Insn =
    | Select(dst: nat, srcA: nat, srcB: nat, select: seq<bool>)
    | Swizzle(dst: nat, src: nat, masks: seq<nat>)
    | Broadcast(dst: nat, imm: nat)
    | MatVec(dst: nat, srcA: nat, srcB: nat)
    | Send(src: nat)
    | Recv(dst: nat)

  /** What the parser lets through. */
  predicate Parsed(i: Insn) {
    match i
    case Select(dst, a, b, select) => dst < 8 && a < 8 && b < 8 && |select| == 4
    case Swizzle(dst, src, masks) => dst < 8 && src < 8 && |masks| == 4 && forall k :: 0 <= k < 4 ==> masks[k] < 4
    case Broadcast(dst, imm) => dst < 8 && imm < 0x1_0000
    case MatVec(dst, a, b) => dst < 8 && a < 8 && b < 8
    case Send(src) => src < 8
    case Recv(dst) => dst < 8
  }

  function EncodeReg(reg: nat): (s: string)
    requires reg < 8
    ensures |s| == 3 && IsBits(s) && Value(s) == reg
  {
    EncodesUnsigned(reg, 3);
    assert Pow2(3) == 8;
    EncodeUnsigned(reg, 3).value
  }

  function EncodeMask(mask: nat): (s: string)
    requires mask < 4
    ensures |s| == 2 && IsBits(s) && Value(s) == mask
  {
    EncodesUnsigned(mask, 2);
    assert Pow2(2) == 4;
    EncodeUnsigned(mask, 2).value
  }

  function EncodeImm(imm: nat): (s: string)
    requires imm < 0x1_0000
    ensures |s| == 16 && IsBits(s) && Value(s) == imm
  {
    Pow2Values();
    EncodesUnsigned(imm, 16);
    EncodeUnsigned(imm, 16).value
  }

  function SelectBit(b: bool): string { if b then "1" else "0" }

  function SelectMask(select: seq<bool>): (s: string)
    requires |select| == 4
    ensures |s| == 4 && IsBits(s) && select == [s[0] == '1', s[1] == '1', s[2] == '1', s[3] == '1']
  {
    SelectBit(select[0]) + SelectBit(select[1]) + SelectBit(select[2]) + SelectBit(select[3])
  }

  function SwizzleMask(masks: seq<nat>): (s: string)
    requires |masks| == 4 && forall k :: 0 <= k < 4 ==> masks[k] < 4
    ensures |s| == 8 && IsBits(s) && masks == [Value(s[0..2]), Value(s[2..4]), Value(s[4..6]), Value(s[6..8])]
  {
    var (a, b, c, d) := (EncodeMask(masks[0]), EncodeMask(masks[1]), EncodeMask(masks[2]), EncodeMask(masks[3]));
    FourParts(a, b, c, d);
    a + b + c + d
  }

  lemma FourParts(a: string, b: string, c: string, d: string)
    requires |a| == 2 && |b| == 2 && |c| == 2 && |d| == 2
    ensures var s := a + b + c + d; s[0..2] == a && s[2..4] == b && s[4..6] == c && s[6..8] == d
    ensures IsBits(a) && IsBits(b) && IsBits(c) && IsBits(d) ==> IsBits(a + b + c + d)
  {
  }

  /** encode: the fields of the word, from the highest bits down. */
  function Fields(i: Insn): (f: seq<string>)
    requires Parsed(i)
  {
    match i
    case Select(dst, a, b, select) =>
      [Zeros(8), SelectMask(select), "0", EncodeReg(b), "0", EncodeReg(a), "0", EncodeReg(dst), "00000001"]
    case Swizzle(dst, src, masks) =>
      [SwizzleMask(masks), Zeros(9), EncodeReg(src), "0", EncodeReg(dst), "00000010"]
    case Broadcast(dst, imm) => [EncodeImm(imm), Zeros(5), EncodeReg(dst), "00000100"]
    case MatVec(dst, a, b) =>
      [Zeros(13), EncodeReg(b), "0", EncodeReg(a), "0", EncodeReg(dst), "00001000"]
    case Send(src) => [Zeros(17), EncodeReg(src), Zeros(4) + "00010000"]
    case Recv(dst) => [Zeros(21), EncodeReg(dst), "00100000"]
  }

  /** "".join(fields). */
  function Join(f: seq<string>): string {
    if f == [] then [] else f[0] + Join(f[1..])
  }

  /** Where field n starts. */
  function Pos(f: seq<string>, n: nat): nat
    requires n <= |f|
  {
    if n == 0 then 0 else Pos(f, n - 1) + |f[n - 1]|
  }

  lemma {:induction false} FieldsFrom(f: seq<string>, n: nat)
    requires n <= |f|
    ensures Pos(f, n) <= |Join(f)| && Join(f)[Pos(f, n)..] == Join(f[n..])
  {
    if n == 0 {
      assert f[0..] == f;
    } else {
      FieldsFrom(f, n - 1);
      assert f[n - 1..][1..] == f[n..];
      var rest := Join(f)[Pos(f, n - 1)..];
      assert rest == f[n - 1] + Join(f[n..]);
      assert rest[|f[n - 1]|..] == Join(f)[Pos(f, n)..];
    }
  }

  lemma FieldAt(f: seq<string>, n: nat)
    requires n < |f|
    ensures Pos(f, n) + |f[n]| <= |Join(f)|
    ensures Join(f)[Pos(f, n)..Pos(f, n) + |f[n]|] == f[n]
  {
    FieldsFrom(f, n);
    var rest := Join(f)[Pos(f, n)..];
    assert rest == f[n] + Join(f[n..][1..]);
    assert rest[..|f[n]|] == f[n];
    assert rest[..|f[n]|] == Join(f)[Pos(f, n)..Pos(f, n) + |f[n]|];
  }

  lemma WidthIs(f: seq<string>)
    ensures |Join(f)| == Pos(f, |f|)
  {
    FieldsFrom(f, |f|);
    assert f[|f|..] == [];
  }

  /** The registers and the opcode of a word. */
  function Dst(s: string): nat requires |s| == 32 { Value(s[21..24]) }
  function SrcA(s: string): nat requires |s| == 32 { Value(s[17..20]) }
  function SrcB(s: string): nat requires |s| == 32 { Value(s[13..16]) }
  function Opcode(s: string): string requires |s| == 32 { s[24..32] }

  /** The instruction that a word stands for; none if a bit that no operand uses is not zero. */
  function Decode(s: string): Option<Insn>
    requires |s| == 32
  {
    var op := Opcode(s);
    if op == "00000001" && s[0..8] == Zeros(8) && s[12..13] == s[16..17] == s[20..21] == "0" then
      Some(Select(Dst(s), SrcA(s), SrcB(s), [s[8] == '1', s[9] == '1', s[10] == '1', s[11] == '1']))
    else if op == "00000010" && s[8..17] == Zeros(9) && s[20..21] == "0" then
      Some(Swizzle(Dst(s), SrcA(s), [Value(s[0..2]), Value(s[2..4]), Value(s[4..6]), Value(s[6..8])]))
    else if op == "00000100" && s[16..21] == Zeros(5) then
      Some(Broadcast(Dst(s), Value(s[0..16])))
    else if op == "00001000" && s[0..13] == Zeros(13) && s[16..17] == s[20..21] == "0" then
      Some(MatVec(Dst(s), SrcA(s), SrcB(s)))
    else if op == "00010000" && s[0..17] == Zeros(17) && s[20..24] == Zeros(4) then
      Some(Send(SrcA(s)))
    else if op == "00100000" && s[0..21] == Zeros(21) then
      Some(Recv(Dst(s)))
    else None
  }

  lemma NextThree(f: seq<string>, n: nat)
    requires n + 3 <= |f|
    ensures Pos(f, n + 1) == Pos(f, n) + |f[n]|
    ensures Pos(f, n + 2) == Pos(f, n) + |f[n]| + |f[n + 1]|
    ensures Pos(f, n + 3) == Pos(f, n) + |f[n]| + |f[n + 1]| + |f[n + 2]|
  {
    assert Pos(f, n + 1) == Pos(f, n) + |f[n]|;
    assert Pos(f, n + 2) == Pos(f, n + 1) + |f[n + 1]|;
  }

  lemma LayoutSelect(f: seq<string>, mask: string, b: string, a: string, dst: string)
    requires |mask| == 4 && |b| == 3 && |a| == 3 && |dst| == 3
    requires f == [Zeros(8), mask, "0", b, "0", a, "0", dst, "00000001"]
    ensures |Join(f)| == 32
    ensures var s := Join(f);
            && s[0..8] == Zeros(8) && s[8..12] == mask && s[12..13] == "0" && s[13..16] == b
            && s[16..17] == "0" && s[17..20] == a && s[20..21] == "0" && s[21..24] == dst
            && s[24..32] == "00000001"
  {
    SelectStarts(f);
    WidthIs(f);
    FieldAt(f, 0);
    FieldAt(f, 1);
    FieldAt(f, 2);
    FieldAt(f, 3);
    FieldAt(f, 4);
    FieldAt(f, 5);
    FieldAt(f, 6);
    FieldAt(f, 7);
    FieldAt(f, 8);
  }

  lemma SelectStarts(f: seq<string>)
    requires |f| == 9 && |f[0]| == 8 && |f[1]| == 4 && |f[2]| == 1 && |f[3]| == 3 && |f[4]| == 1
    requires |f[5]| == 3 && |f[6]| == 1 && |f[7]| == 3 && |f[8]| == 8
    ensures Pos(f, 0) == 0 && Pos(f, 1) == 8 && Pos(f, 2) == 12 && Pos(f, 3) == 13 && Pos(f, 4) == 16
    ensures Pos(f, 5) == 17 && Pos(f, 6) == 20 && Pos(f, 7) == 21 && Pos(f, 8) == 24 && Pos(f, 9) == 32
  {
    NextThree(f, 0);
    NextThree(f, 3);
    NextThree(f, 6);
  }

  lemma LayoutSwizzle(f: seq<string>, mask: string, src: string, dst: string)
    requires |mask| == 8 && |src| == 3 && |dst| == 3
    requires f == [mask, Zeros(9), src, "0", dst, "00000010"]
    ensures |Join(f)| == 32
    ensures var s := Join(f);
            && s[0..8] == mask && s[8..17] == Zeros(9) && s[17..20] == src && s[20..21] == "0"
            && s[21..24] == dst && s[24..32] == "00000010"
  {
    WidthIs(f);
    NextThree(f, 0);
    NextThree(f, 3);
    FieldAt(f, 0);
    FieldAt(f, 1);
    FieldAt(f, 2);
    FieldAt(f, 3);
    FieldAt(f, 4);
    FieldAt(f, 5);
  }

  lemma LayoutBroadcast(f: seq<string>, imm: string, dst: string)
    requires |imm| == 16 && |dst| == 3
    requires f == [imm, Zeros(5), dst, "00000100"]
    ensures |Join(f)| == 32
    ensures var s := Join(f);
            && s[0..16] == imm && s[16..21] == Zeros(5) && s[21..24] == dst && s[24..32] == "00000100"
  {
    WidthIs(f);
    NextThree(f, 0);
    NextThree(f, 1);
    FieldAt(f, 0);
    FieldAt(f, 1);
    FieldAt(f, 2);
    FieldAt(f, 3);
  }

  lemma LayoutMatVec(f: seq<string>, b: string, a: string, dst: string)
    requires |b| == 3 && |a| == 3 && |dst| == 3
    requires f == [Zeros(13), b, "0", a, "0", dst, "00001000"]
    ensures |Join(f)| == 32
    ensures var s := Join(f);
            && s[0..13] == Zeros(13) && s[13..16] == b && s[16..17] == "0" && s[17..20] == a
            && s[20..21] == "0" && s[21..24] == dst && s[24..32] == "00001000"
  {
    WidthIs(f);
    NextThree(f, 0);
    NextThree(f, 3);
    NextThree(f, 4);
    FieldAt(f, 0);
    FieldAt(f, 1);
    FieldAt(f, 2);
    FieldAt(f, 3);
    FieldAt(f, 4);
    FieldAt(f, 5);
    FieldAt(f, 6);
  }

  lemma LayoutSend(f: seq<string>, src: string)
    requires |src| == 3
    requires f == [Zeros(17), src, Zeros(4) + "00010000"]
    ensures |Join(f)| == 32
    ensures var s := Join(f);
            && s[0..17] == Zeros(17) && s[17..20] == src && s[20..24] == Zeros(4) && s[24..32] == "00010000"
  {
    WidthIs(f);
    NextThree(f, 0);
    FieldAt(f, 0);
    FieldAt(f, 1);
    FieldAt(f, 2);
    assert |f[2]| == 12 && Pos(f, 2) == 20;
    LastTwelve(Join(f));
  }

  lemma LayoutRecv(f: seq<string>, dst: string)
    requires |dst| == 3
    requires f == [Zeros(21), dst, "00100000"]
    ensures |Join(f)| == 32
    ensures var s := Join(f);
            && s[0..21] == Zeros(21) && s[21..24] == dst && s[24..32] == "00100000"
  {
    WidthIs(f);
    NextThree(f, 0);
    FieldAt(f, 0);
    FieldAt(f, 1);
    FieldAt(f, 2);
  }

  lemma LastTwelve(s: string)
    requires |s| == 32 && s[20..32] == Zeros(4) + "00010000"
    ensures s[20..24] == Zeros(4) && s[24..32] == "00010000"
  {
    assert s[20..32][..4] == s[20..24] && s[20..32][4..] == s[24..32];
  }

  /** A slice of a slice. */
  lemma FourPairs(s: string)
    requires |s| == 32
    ensures s[0..2] == s[0..8][0..2] && s[2..4] == s[0..8][2..4]
    ensures s[4..6] == s[0..8][4..6] && s[6..8] == s[0..8][6..8]
    ensures s[8] == s[8..12][0] && s[9] == s[8..12][1] && s[10] == s[8..12][2] && s[11] == s[8..12][3]
  {
  }

  lemma DecodeSelect(i: Insn)
    requires Parsed(i) && i.Select?
    ensures |Join(Fields(i))| == 32 && Decode(Join(Fields(i))) == Some(i)
  {
    LayoutSelect(Fields(i), SelectMask(i.select), EncodeReg(i.srcB), EncodeReg(i.srcA), EncodeReg(i.dst));
    FourPairs(Join(Fields(i)));
  }

  lemma DecodeSwizzle(i: Insn)
    requires Parsed(i) && i.Swizzle?
    ensures |Join(Fields(i))| == 32 && Decode(Join(Fields(i))) == Some(i)
  {
    LayoutSwizzle(Fields(i), SwizzleMask(i.masks), EncodeReg(i.src), EncodeReg(i.dst));
    FourPairs(Join(Fields(i)));
  }

  lemma DecodeBroadcast(i: Insn)
    requires Parsed(i) && i.Broadcast?
    ensures |Join(Fields(i))| == 32 && Decode(Join(Fields(i))) == Some(i)
  {
    LayoutBroadcast(Fields(i), EncodeImm(i.imm), EncodeReg(i.dst));
  }

  lemma DecodeMatVec(i: Insn)
    requires Parsed(i) && i.MatVec?
    ensures |Join(Fields(i))| == 32 && Decode(Join(Fields(i))) == Some(i)
  {
    LayoutMatVec(Fields(i), EncodeReg(i.srcB), EncodeReg(i.srcA), EncodeReg(i.dst));
    MatVecOf(Join(Fields(i)), i);
  }

  lemma MatVecOf(s: string, i: Insn)
    requires |s| == 32 && Parsed(i) && i.MatVec? && s[24..32] == "00001000"
    requires s[13..16] == EncodeReg(i.srcB) && s[17..20] == EncodeReg(i.srcA) && s[21..24] == EncodeReg(i.dst)
    requires s[0..13] == Zeros(13) && s[16..17] == "0" && s[20..21] == "0"
    ensures Decode(s) == Some(i)
  {
  }

  lemma DecodeSend(i: Insn)
    requires Parsed(i) && i.Send?
    ensures |Join(Fields(i))| == 32 && Decode(Join(Fields(i))) == Some(i)
  {
    LayoutSend(Fields(i), EncodeReg(i.src));
  }

  lemma DecodeRecv(i: Insn)
    requires Parsed(i) && i.Recv?
    ensures |Join(Fields(i))| == 32 && Decode(Join(Fields(i))) == Some(i)
  {
    LayoutRecv(Fields(i), EncodeReg(i.dst));
  }

  /** Every instruction is 32 bits, and no operand of it is lost. */
  lemma DecodeEncode(i: Insn)
    requires Parsed(i)
    ensures |Join(Fields(i))| == 32 && Decode(Join(Fields(i))) == Some(i)
  {
    match i
    case Select(_, _, _, _) => DecodeSelect(i);
    case Swizzle(_, _, _) => DecodeSwizzle(i);
    case Broadcast(_, _) => DecodeBroadcast(i);
    case MatVec(_, _, _) => DecodeMatVec(i);
    case Send(_) => DecodeSend(i);
    case Recv(_) => DecodeRecv(i);
  }

  lemma RegOfValue(x: string)
    requires |x| == 3 && IsBits(x)
    ensures Value(x) < 8 && EncodeReg(Value(x)) == x
  {
    assert Pow2(3) == 8;
    LowOfValue(x);
    EncodesUnsigned(Value(x), 3);
  }

  lemma MaskOfValue(x: string)
    requires |x| == 2 && IsBits(x)
    ensures Value(x) < 4 && EncodeMask(Value(x)) == x
  {
    assert Pow2(2) == 4;
    LowOfValue(x);
    EncodesUnsigned(Value(x), 2);
  }

  lemma ImmOfValue(x: string)
    requires |x| == 16 && IsBits(x)
    ensures Value(x) < 0x1_0000 && EncodeImm(Value(x)) == x
  {
    Pow2Values();
    LowOfValue(x);
    EncodesUnsigned(Value(x), 16);
  }

  lemma SelectMaskOf(x: string)
    requires |x| == 4 && IsBits(x)
    ensures SelectMask([x[0] == '1', x[1] == '1', x[2] == '1', x[3] == '1']) == x
  {
  }

  lemma SwizzleMaskOf(x: string)
    requires |x| == 8 && IsBits(x)
    ensures var masks := [Value(x[0..2]), Value(x[2..4]), Value(x[4..6]), Value(x[6..8])];
            (forall k :: 0 <= k < 4 ==> masks[k] < 4) && SwizzleMask(masks) == x
  {
    MaskOfValue(x[0..2]);
    MaskOfValue(x[2..4]);
    MaskOfValue(x[4..6]);
    MaskOfValue(x[6..8]);
    assert x == x[0..2] + x[2..4] + x[4..6] + x[6..8];
  }

  lemma Grow(s: string, t: string, a: nat, b: nat)
    requires |s| == |t| && a <= b <= |s| && s[..a] == t[..a] && s[a..b] == t[a..b]
    ensures s[..b] == t[..b]
  {
    assert s[..b] == s[..a] + s[a..b] && t[..b] == t[..a] + t[a..b];
  }

  lemma SameSelect(s: string, t: string)
    requires |s| == |t| == 32
    requires s[0..8] == t[0..8] && s[8..12] == t[8..12] && s[12..13] == t[12..13] && s[13..16] == t[13..16]
    requires s[16..17] == t[16..17] && s[17..20] == t[17..20] && s[20..21] == t[20..21] && s[21..24] == t[21..24]
    requires s[24..32] == t[24..32]
    ensures s == t
  {
    Grow(s, t, 0, 8);
    Grow(s, t, 8, 12);
    Grow(s, t, 12, 13);
    Grow(s, t, 13, 16);
    Grow(s, t, 16, 17);
    Grow(s, t, 17, 20);
    Grow(s, t, 20, 21);
    Grow(s, t, 21, 24);
    Grow(s, t, 24, 32);
    assert s[..32] == s && t[..32] == t;
  }

  lemma EncodeSelect(s: string, i: Insn)
    requires |s| == 32 && IsBits(s) && Decode(s) == Some(i) && i.Select?
    ensures Parsed(i) && Join(Fields(i)) == s
  {
    RegOfValue(s[21..24]);
    RegOfValue(s[17..20]);
    RegOfValue(s[13..16]);
    SelectMaskOf(s[8..12]);
    FourPairs(s);
    LayoutSelect(Fields(i), SelectMask(i.select), EncodeReg(i.srcB), EncodeReg(i.srcA), EncodeReg(i.dst));
    SameSelect(s, Join(Fields(i)));
  }

  lemma SameSwizzle(s: string, t: string)
    requires |s| == |t| == 32
    requires s[0..8] == t[0..8] && s[8..17] == t[8..17] && s[17..20] == t[17..20] && s[20..21] == t[20..21]
    requires s[21..24] == t[21..24] && s[24..32] == t[24..32]
    ensures s == t
  {
    Grow(s, t, 0, 8);
    Grow(s, t, 8, 17);
    Grow(s, t, 17, 20);
    Grow(s, t, 20, 21);
    Grow(s, t, 21, 24);
    Grow(s, t, 24, 32);
    assert s[..32] == s && t[..32] == t;
  }

  lemma SwizzleOf(s: string, i: Insn)
    requires |s| == 32 && IsBits(s) && Decode(s) == Some(i) && i.Swizzle?
    ensures Parsed(i) && SwizzleMask(i.masks) == s[0..8]
    ensures EncodeReg(i.src) == s[17..20] && EncodeReg(i.dst) == s[21..24]
  {
    RegOfValue(s[21..24]);
    RegOfValue(s[17..20]);
    SwizzleMaskOf(s[0..8]);
    FourPairs(s);
  }

  lemma EncodeSwizzle(s: string, i: Insn)
    requires |s| == 32 && IsBits(s) && Decode(s) == Some(i) && i.Swizzle?
    ensures Parsed(i) && Join(Fields(i)) == s
  {
    SwizzleOf(s, i);
    LayoutSwizzle(Fields(i), SwizzleMask(i.masks), EncodeReg(i.src), EncodeReg(i.dst));
    SameSwizzle(s, Join(Fields(i)));
  }

  lemma EncodeBroadcast(s: string, i: Insn)
    requires |s| == 32 && IsBits(s) && Decode(s) == Some(i) && i.Broadcast?
    ensures Parsed(i) && Join(Fields(i)) == s
  {
    RegOfValue(s[21..24]);
    ImmOfValue(s[0..16]);
    LayoutBroadcast(Fields(i), EncodeImm(i.imm), EncodeReg(i.dst));
    var t := Join(Fields(i));
    Grow(s, t, 0, 16);
    Grow(s, t, 16, 21);
    Grow(s, t, 21, 24);
    Grow(s, t, 24, 32);
    assert s[..32] == s && t[..32] == t;
  }

  lemma EncodeMatVec(s: string, i: Insn)
    requires |s| == 32 && IsBits(s) && Decode(s) == Some(i) && i.MatVec?
    ensures Parsed(i) && Join(Fields(i)) == s
  {
    RegOfValue(s[21..24]);
    RegOfValue(s[17..20]);
    RegOfValue(s[13..16]);
    LayoutMatVec(Fields(i), EncodeReg(i.srcB), EncodeReg(i.srcA), EncodeReg(i.dst));
    var t := Join(Fields(i));
    Grow(s, t, 0, 13);
    Grow(s, t, 13, 16);
    Grow(s, t, 16, 17);
    Grow(s, t, 17, 20);
    Grow(s, t, 20, 21);
    Grow(s, t, 21, 24);
    Grow(s, t, 24, 32);
    assert s[..32] == s && t[..32] == t;
  }

  lemma EncodeSend(s: string, i: Insn)
    requires |s| == 32 && IsBits(s) && Decode(s) == Some(i) && i.Send?
    ensures Parsed(i) && Join(Fields(i)) == s
  {
    RegOfValue(s[17..20]);
    LayoutSend(Fields(i), EncodeReg(i.src));
    var t := Join(Fields(i));
    Grow(s, t, 0, 17);
    Grow(s, t, 17, 20);
    Grow(s, t, 20, 24);
    Grow(s, t, 24, 32);
    assert s[..32] == s && t[..32] == t;
  }

  lemma EncodeRecv(s: string, i: Insn)
    requires |s| == 32 && IsBits(s) && Decode(s) == Some(i) && i.Recv?
    ensures Parsed(i) && Join(Fields(i)) == s
  {
    RegOfValue(s[21..24]);
    LayoutRecv(Fields(i), EncodeReg(i.dst));
    var t := Join(Fields(i));
    Grow(s, t, 0, 21);
    Grow(s, t, 21, 24);
    Grow(s, t, 24, 32);
    assert s[..32] == s && t[..32] == t;
  }

  /** Conversely, a word of bits that decodes is the encoding of what it decodes to. */
  lemma EncodeDecode(s: string)
    requires |s| == 32 && IsBits(s) && Decode(s).Some?
    ensures Parsed(Decode(s).value) && Join(Fields(Decode(s).value)) == s
  {
    var i := Decode(s).value;
    match i
    case Select(_, _, _, _) => EncodeSelect(s, i);
    case Swizzle(_, _, _) => EncodeSwizzle(s, i);
    case Broadcast(_, _) => EncodeBroadcast(s, i);
    case MatVec(_, _, _) => EncodeMatVec(s, i);
    case Send(_) => EncodeSend(s, i);
    case Recv(_) => EncodeRecv(s, i);
  }

  lemma {:induction false} JoinIsBits(f: seq<string>)
    requires forall k :: 0 <= k < |f| ==> IsBits(f[k])
    ensures IsBits(Join(f))
  {
    if f != [] {
      JoinIsBits(f[1..]);
    }
  }

  lemma WordIsBits(i: Insn)
    requires Parsed(i)
    ensures IsBits(Join(Fields(i)))
  {
    var f := Fields(i);
    forall k | 0 <= k < |f|
      ensures IsBits(f[k])
    {
      FieldIsBits(i, k);
    }
    JoinIsBits(f);
  }

  lemma FieldIsBits(i: Insn, k: nat)
    requires Parsed(i) && k < |Fields(i)|
    ensures IsBits(Fields(i)[k])
  {
    OpcodeBits();
  }

  lemma OpcodeBits()
    ensures IsBits("0") && IsBits("00000001") && IsBits("00000010") && IsBits("00000100")
    ensures IsBits("00001000") && IsBits("00010000") && IsBits("00100000")
  {
  }

  type Byte = x: int | 0 <= x < 256

  /** to_bytes(n, "little"). */
  function ToBytes(v: nat, n: nat): (b: seq<Byte>)
    ensures |b| == n
  {
    if n == 0 then [] else [v % 256] + ToBytes(v / 256, n - 1)
  }

  function FromBytes(b: seq<Byte>): nat {
    if b == [] then 0 else b[0] + 256 * FromBytes(b[1..])
  }

  lemma {:induction false} BytesRoundTrip(v: nat, n: nat)
    requires v < Pow2(8 * n)
    ensures FromBytes(ToBytes(v, n)) == v
  {
    if n > 0 {
      EightBits(n);
      BytesRoundTrip(v / 256, n - 1);
    }
  }

  lemma EightBits(n: nat)
    requires n > 0
    ensures Pow2(8 * n) == 256 * Pow2(8 * (n - 1))
  {
    Pow2Add(8 * (n - 1), 8);
    assert Pow2(8) == 256;
  }

  type Quad = b: seq<Byte> | |b| == 4 witness [0, 0, 0, 0]

  function EncodeWord(i: Insn): Quad
    requires Parsed(i)
  {
    ToBytes(Value(Join(Fields(i))), 4)
  }

  function Words(insns: seq<Insn>): seq<Quad>
    requires forall k :: 0 <= k < |insns| ==> Parsed(insns[k])
  {
    seq<Quad>(|insns|, k requires 0 <= k < |insns| => EncodeWord(insns[k]))
  }

  function Flatten(words: seq<Quad>): (b: seq<Byte>)
    ensures |b| == 4 * |words|
  {
    if words == [] then [] else Flatten(words[..|words| - 1]) + words[|words| - 1]
  }

  function Image(insns: seq<Insn>): (image: seq<Byte>)
    requires forall k :: 0 <= k < |insns| ==> Parsed(insns[k])
    ensures |image| == 4 * |insns|
  {
    Flatten(Words(insns))
  }

  lemma FlattenNext(words: seq<Quad>, n: nat)
    requires n < |words|
    ensures Flatten(words[..n + 1]) == Flatten(words[..n]) + words[n]
  {
    assert words[..n + 1][..n] == words[..n];
  }

  lemma {:induction false} WordAt(words: seq<Quad>, k: nat)
    requires k < |words|
    ensures Flatten(words)[4 * k..4 * k + 4] == words[k]
  {
    var n := |words| - 1;
    var init := Flatten(words[..n]);
    if k < n {
      WordAt(words[..n], k);
      assert Flatten(words)[4 * k..4 * k + 4] == init[4 * k..4 * k + 4];
    }
  }

  /** The last loop of assemble. */
  method Assemble(insns: seq<Insn>) returns (output: seq<Byte>)
    requires forall k :: 0 <= k < |insns| ==> Parsed(insns[k])
    ensures output == Image(insns)
  {
    output := [];
    ghost var words := Words(insns);
    for n := 0 to |insns|
      invariant output == Flatten(words[..n])
    {
      var enc := Join(Fields(insns[n]));
      output := output + ToBytes(Value(enc), 4);
      FlattenNext(words, n);
    }
    assert words[..|insns|] == words;
  }

  /** The instruction in four bytes of the image. */
  function DecodeWord(b: seq<Byte>): Option<Insn>
    requires |b| == 4
  {
    Decode(Low(FromBytes(b), 32))
  }

  lemma WordRoundTrip(i: Insn)
    requires Parsed(i)
    ensures DecodeWord(EncodeWord(i)) == Some(i)
  {
    var s := Join(Fields(i));
    DecodeEncode(i);
    WordIsBits(i);
    LowOfValue(s);
    BytesRoundTrip(Value(s), 4);
  }

  /** The image of n instructions is 4n bytes, and its words, read in little-endian order, are those instructions:
      none is lost, and no two programs have the same image. */
  lemma ImageRoundTrip(insns: seq<Insn>, k: nat)
    requires (forall j :: 0 <= j < |insns| ==> Parsed(insns[j])) && k < |insns|
    ensures |Image(insns)| == 4 * |insns| && DecodeWord(Image(insns)[4 * k..4 * k + 4]) == Some(insns[k])
  {
    WordAt(Words(insns), k);
    WordRoundTrip(insns[k]);
  }
}
