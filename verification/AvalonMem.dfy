/** Lines, words and byte enables (tb/top/conspiracion/avalon.hpp, tb/top/conspiracion/mem.cpp). */
module AvalonLines {

  /** A word as its 32 bits, the lowest first. */
  type Word = w: seq<bool> | |w| == 32 witness seq(32, i => false)

  const ZERO: Word := seq(32, i => false)

  /** A line of four words. */
  type Line = l: seq<Word> | |l| == 4 witness [ZERO, ZERO, ZERO, ZERO]

  const ZEROS: Line := [ZERO, ZERO, ZERO, ZERO]

  /** The byte enables of a line, bit k for its byte k. */
  type Enables = nat

  predicate Enabled(be: Enables, k: nat) {
    if k == 0 then be % 2 == 1 else Enabled(be / 2, k - 1)
  }

  type Byte = seq<bool>

  function ByteOf(w: Word, k: nat): (b: Byte)
    requires k < 4
    ensures |b| == 8
  {
    w[8 * k..8 * k + 8]
  }

  function LineByte(l: Line, k: nat): Byte
    requires k < 16
  {
    ByteOf(l[k / 4], k % 4)
  }

  /** The bitwise operators. */
  function And(a: Word, b: Word): Word { seq(32, i requires 0 <= i < 32 => a[i] && b[i]) }
  function Or(a: Word, b: Word): Word { seq(32, i requires 0 <= i < 32 => a[i] || b[i]) }
  function Not(a: Word): Word { seq(32, i requires 0 <= i < 32 => !a[i]) }

  /** 0xff shifted to byte k. */
  function Ones(k: nat): Word { seq(32, i requires 0 <= i < 32 => i / 8 == k) }

  /** The bits of a word that its four enables let through. */
  predicate IsMask(mask: Word, be: Enables) {
    forall i :: 0 <= i < 32 ==> mask[i] == Enabled(be, i / 8)
  }

  function Merge(data: Word, old_: Word, mask: Word): Word {
    Or(And(data, mask), And(old_, Not(mask)))
  }

  /** One word of a line write: the enabled bytes are new, the others stay. */
  lemma MergeWord(data: Word, old_: Word, mask: Word, be: Enables, k: nat)
    requires k < 4 && IsMask(mask, be)
    ensures ByteOf(Merge(data, old_, mask), k) == if Enabled(be, k) then ByteOf(data, k) else ByteOf(old_, k)
  {
    forall i | 8 * k <= i < 8 * k + 8
      ensures Merge(data, old_, mask)[i] == if Enabled(be, k) then data[i] else old_[i]
    {
      assert i / 8 == k;
    }
  }

  /** The enables shifted past i words. */
  function Past(be: Enables, i: nat): Enables {
    if i == 0 then be else Past(be, i - 1) / 16
  }

  lemma ShiftedEnables(be: Enables, k: nat)
    ensures Enabled(be / 16, k) <==> Enabled(be, k + 4)
  {
    assert be / 2 / 2 / 2 / 2 == be / 16;
    assert Enabled(be, k + 4) == Enabled(be / 2, k + 3) == Enabled(be / 2 / 2, k + 2)
           == Enabled(be / 2 / 2 / 2, k + 1) == Enabled(be / 2 / 2 / 2 / 2, k);
  }

  lemma {:induction false} PastEnables(be: Enables, i: nat, j: nat)
    ensures Enabled(Past(be, i), j) <==> Enabled(be, 4 * i + j)
  {
    if i > 0 {
      ShiftedEnables(Past(be, i - 1), j);
      PastEnables(be, i - 1, j + 4);
    }
  }
}

/** Memories on the simulated bus (tb/top/conspiracion/avalon.impl.hpp, tb/top/conspiracion/mem.cpp). Sizes are
    powers of two and bases multiples of them, so masking an address is taking it modulo the size. */
module AvalonMemory {
  import opened Options
  import opened Powers
  import opened AvalonLines

  const SPACE := 0x1_0000_0000

  /** A memory with its contents. */
  datatype Device = Device(base: nat, size: nat, lines: seq<Line>)

  /** The part of an address that a mask for a power of two leaves. */
  function Offset(addr: nat, size: nat): (r: nat)
    requires size > 0
    ensures r < size
  {
    if addr < size then addr else Offset(addr - size, size)
  }

  lemma {:induction false} OffsetParts(addr: nat, size: nat) returns (q: nat)
    requires size > 0
    ensures addr == q * size + Offset(addr, size)
  {
    if addr < size {
      q := 0;
    } else {
      var n := OffsetParts(addr - size, size);
      assert (n + 1) * size == n * size + size;
      q := n + 1;
    }
  }

  lemma OffsetIsRemainder(addr: nat, size: nat)
    requires size > 0
    ensures Offset(addr, size) == addr % size
  {
    var q := OffsetParts(addr, size);
    ModUnique(addr, size, q, Offset(addr, size));
  }

  predicate DeviceOk(d: Device) {
    d.size > 0 && d.size % 16 == 0 && Offset(d.base, d.size) == 0 && |d.lines| == d.size / 16
  }

  ghost predicate Ok(m: seq<Device>) {
    forall i :: 0 <= i < |m| ==> DeviceOk(m[i])
  }

  predicate Covers(d: Device, addr: nat)
    requires d.size > 0
  {
    addr - Offset(addr, d.size) == d.base
  }

  /** The first device at an address, from a place in the list on. */
  function Resolve(m: seq<Device>, addr: nat, from: nat): (i: Option<nat>)
    requires Ok(m) && from <= |m|
    ensures i.Some? ==> i.value < |m| && Covers(m[i.value], addr)
    decreases |m| - from
  {
    if from == |m| then None else if Covers(m[from], addr) then Some(from) else Resolve(m, addr, from + 1)
  }

  /** What a line write leaves: the enabled bytes of the data, the others of the old line. */
  predicate IsMerged(l: Line, data: Line, old_: Line, be: Enables) {
    forall k :: 0 <= k < 16 ==> LineByte(l, k) == if Enabled(be, k) then LineByte(data, k) else LineByte(old_, k)
  }

  class Mem {
    const base: nat
    const size: nat
    const block: array<Line>

    ghost predicate Valid() {
      block.Length == size / 16 && DeviceOk(Device(base, size, seq<Line>(size / 16, _ => ZEROS)))
    }

    ghost function State(): Device
      reads block
    {
      Device(base, size, block[..])
    }

    constructor (base: nat, size: nat)
      requires size > 0 && size % 16 == 0 && Offset(base, size) == 0
      ensures Valid() && fresh(block)
    {
      this.base, this.size := base, size;
      block := new Line[size / 16](_ => ZEROS);
    }

    method ReadLine(addr: nat) returns (data: Line)
      requires addr < block.Length
      ensures data == block[addr]
    {
      data := block[addr];
    }

    method WriteLine(addr: nat, data: Line, be: Enables)
      requires addr < block.Length
      modifies block
      ensures block[..] == old(block[..])[addr := block[addr]]
      ensures IsMerged(block[addr], data, old(block[addr]), be)
    {
      var left := be;
      ghost var was := block[addr];
      for i := 0 to 4
        invariant block[..] == old(block[..])[addr := block[addr]]
        invariant left == Past(be, i)
        invariant forall j :: i <= j < 4 ==> block[addr][j] == was[j]
        invariant forall j :: 0 <= j < i ==> WordMerged(block[addr][j], data[j], was[j], be, j)
      {
        var bytes := ByteMask(left);
        MergedWord(data[i], was[i], bytes, be, i);
        left := left / 16;
        block[addr] := block[addr][i := Merge(data[i], block[addr][i], bytes)];
      }
      MergedLine(block[addr], data, was, be);
    }

    /** Word j of a line, merged. */
    predicate WordMerged(w: Word, data: Word, old_: Word, be: Enables, j: nat) {
      forall k :: 0 <= k < 4 ==> ByteOf(w, k) == ByteOf(if Enabled(be, 4 * j + k) then data else old_, k)
    }

    lemma MergedLine(l: Line, data: Line, old_: Line, be: Enables)
      requires forall j :: 0 <= j < 4 ==> WordMerged(l[j], data[j], old_[j], be, j)
      ensures IsMerged(l, data, old_, be)
    {
      forall k | 0 <= k < 16
        ensures LineByte(l, k) == if Enabled(be, k) then LineByte(data, k) else LineByte(old_, k)
      {
        MergedAt(l, data, old_, be, k);
      }
    }

    lemma MergedAt(l: Line, data: Line, old_: Line, be: Enables, k: nat)
      requires k < 16 && WordMerged(l[k / 4], data[k / 4], old_[k / 4], be, k / 4)
      ensures LineByte(l, k) == if Enabled(be, k) then LineByte(data, k) else LineByte(old_, k)
    {
      var j, t := k / 4, k % 4;
      assert k == 4 * j + t;
      MergedByte(l[j], data[j], old_[j], be, j, t);
    }

    lemma MergedByte(w: Word, data: Word, old_: Word, be: Enables, j: nat, t: nat)
      requires WordMerged(w, data, old_, be, j) && t < 4
      ensures ByteOf(w, t) == if Enabled(be, 4 * j + t) then ByteOf(data, t) else ByteOf(old_, t)
    {
    }

    lemma MergedWord(data: Word, old_: Word, mask: Word, be: Enables, i: nat)
      requires IsMask(mask, Past(be, i))
      ensures WordMerged(Merge(data, old_, mask), data, old_, be, i)
    {
      forall k | 0 <= k < 4
        ensures ByteOf(Merge(data, old_, mask), k) == ByteOf(if Enabled(be, 4 * i + k) then data else old_, k)
      {
        PastEnables(be, i, k);
        MergeWord(data, old_, mask, Past(be, i), k);
      }
    }

    /** The mask for one word. */
    method ByteMask(be: Enables) returns (bytes: Word)
      ensures IsMask(bytes, be)
    {
      bytes := ZERO;
      if Enabled(be, 3) {
        bytes := Or(bytes, Ones(3));
      }
      if Enabled(be, 2) {
        bytes := Or(bytes, Ones(2));
      }
      if Enabled(be, 1) {
        bytes := Or(bytes, Ones(1));
      }
      if Enabled(be, 0) {
        bytes := Or(bytes, Ones(0));
      }
    }
  }

  /** The byte of a device at an address. */
  function DeviceByte(d: Device, addr: nat): Byte
    requires DeviceOk(d)
  {
    InLines(d.size, addr);
    LineByte(d.lines[Offset(addr, d.size) / 16], Offset(addr, d.size) % 16)
  }

  /** The flat memory that the bus shows: a byte at every address that is not a hole. */
  function Flat(m: seq<Device>, addr: nat): Option<Byte>
    requires Ok(m)
  {
    var i := Resolve(m, addr, 0);
    if i == None then None else Some(DeviceByte(m[i.value], addr))
  }

  lemma InLines(size: nat, addr: nat)
    requires size > 0 && size % 16 == 0
    ensures Offset(addr, size) / 16 < size / 16
  {
  }

  /** The bytes of a line are next to each other. */
  lemma {:induction false} LineIsFlat(size: nat, addr: nat, k: nat)
    requires size > 0 && size % 16 == 0 && addr % 16 == 0 && k < 16
    ensures Offset(addr + k, size) == Offset(addr, size) + k
    ensures Offset(addr, size) % 16 == 0
    ensures Offset(addr + k, size) / 16 == Offset(addr, size) / 16 && Offset(addr + k, size) % 16 == k
  {
    if addr >= size {
      LineIsFlat(size, addr - size, k);
    }
  }

  lemma {:induction false} LineResolves(m: seq<Device>, addr: nat, k: nat, from: nat)
    requires Ok(m) && from <= |m| && addr % 16 == 0 && k < 16
    ensures Resolve(m, addr + k, from) == Resolve(m, addr, from)
    decreases |m| - from
  {
    if from < |m| {
      LineIsFlat(m[from].size, addr, k);
      LineResolves(m, addr, k, from + 1);
    }
  }

  /** The sixteen bytes at an aligned address are one line of one device. */
  lemma FlatLine(m: seq<Device>, addr: nat, k: nat)
    requires Ok(m) && addr % 16 == 0 && k < 16
    ensures var i := Resolve(m, addr, 0);
            Flat(m, addr + k) == if i == None then None
                                 else (InLines(m[i.value].size, addr);
                                       Some(LineByte(m[i.value].lines[Offset(addr, m[i.value].size) / 16], k)))
  {
    var i := Resolve(m, addr, 0);
    LineResolves(m, addr, k, 0);
    if i.Some? {
      LineIsFlat(m[i.value].size, addr, k);
    }
  }

  /** The contents do not matter to where an address goes. */
  lemma {:induction false} SameMap(m: seq<Device>, m': seq<Device>, addr: nat, from: nat)
    requires Ok(m) && Ok(m') && |m| == |m'| && from <= |m|
    requires forall i :: 0 <= i < |m| ==> m[i].base == m'[i].base && m[i].size == m'[i].size
    ensures Resolve(m, addr, from) == Resolve(m', addr, from)
    decreases |m| - from
  {
    if from < |m| {
      SameMap(m, m', addr, from + 1);
    }
  }

  /** Device i has data merged into the line at addr; nothing else changes. */
  predicate LineWritten(m: seq<Device>, m': seq<Device>, i: nat, addr: nat, data: Line, be: Enables)
    requires Ok(m) && i < |m|
  {
    && |m'| == |m| && m'[i].base == m[i].base && m'[i].size == m[i].size
    && (forall j :: 0 <= j < |m| && j != i ==> m'[j] == m[j])
    && var n := Offset(addr, m[i].size) / 16;
       InLines(m[i].size, addr);
       && |m'[i].lines| == |m[i].lines|
       && m'[i].lines == m[i].lines[n := m'[i].lines[n]]
       && IsMerged(m'[i].lines[n], data, m[i].lines[n], be)
  }

  /** A line write changes the enabled bytes of that line of the flat memory, and no byte elsewhere. */
  lemma FlatAfterWrite(m: seq<Device>, m': seq<Device>, i: nat, addr: nat, a: nat, data: Line, be: Enables)
    requires Ok(m) && Ok(m') && addr % 16 == 0
    requires Resolve(m, addr, 0) == Some(i) && LineWritten(m, m', i, addr, data, be)
    ensures Flat(m', a) == if addr <= a < addr + 16 && Enabled(be, a - addr) then Some(LineByte(data, a - addr))
                           else Flat(m, a)
  {
    if addr <= a < addr + 16 {
      var k: nat := a - addr;
      assert addr + k == a;
      WrittenLine(m, m', i, addr, k, data, be);
    } else {
      OtherLines(m, m', i, addr, a, data, be);
    }
  }

  lemma OtherLines(m: seq<Device>, m': seq<Device>, i: nat, addr: nat, a: nat, data: Line, be: Enables)
    requires Ok(m) && Ok(m') && addr % 16 == 0 && !(addr <= a < addr + 16)
    requires Resolve(m, addr, 0) == Some(i) && LineWritten(m, m', i, addr, data, be)
    ensures Flat(m', a) == Flat(m, a)
  {
    SameMap(m, m', a, 0);
    if Resolve(m, a, 0) == Some(i) {
      OtherLine(m[i], addr, a);
      OtherByte(m[i], m'[i], Offset(addr, m[i].size) / 16, a);
    }
  }

  lemma WrittenLine(m: seq<Device>, m': seq<Device>, i: nat, addr: nat, k: nat, data: Line, be: Enables)
    requires Ok(m) && Ok(m') && addr % 16 == 0 && k < 16
    requires Resolve(m, addr, 0) == Some(i) && LineWritten(m, m', i, addr, data, be)
    ensures Flat(m', addr + k) == if Enabled(be, k) then Some(LineByte(data, k)) else Flat(m, addr + k)
  {
    SameMap(m, m', addr, 0);
    FlatLine(m, addr, k);
    FlatLine(m', addr, k);
  }

  lemma OtherByte(d: Device, d': Device, n: int, a: nat)
    requires DeviceOk(d) && DeviceOk(d') && d'.size == d.size && 0 <= n < |d.lines|
    requires forall j :: 0 <= j < |d.lines| && j != n ==> d'.lines[j] == d.lines[j]
    requires Offset(a, d.size) / 16 != n
    ensures DeviceByte(d', a) == DeviceByte(d, a)
  {
    InLines(d.size, a);
  }

  /** Different lines of a device's range are at different places. */
  lemma OtherLine(d: Device, addr: nat, a: nat)
    requires DeviceOk(d) && Covers(d, addr) && Covers(d, a) && addr % 16 == 0 && !(addr <= a < addr + 16)
    ensures Offset(a, d.size) / 16 != Offset(addr, d.size) / 16
  {
    LineIsFlat(d.size, addr, 0);
    assert a - Offset(a, d.size) == addr - Offset(addr, d.size);
  }

  datatype Op =
    | ReadLine(addr: nat)
    | WriteLine(addr: nat, data: Line, be: Enables)
    | Dump(word: nat)
    | Patch(word: nat, value: Word)

  datatype Response = Hole | Unaligned | Line(line: AvalonLines.Line) | Word(value: AvalonLines.Word) | Done

  /** The byte address of a word address, in 32 bits. */
  function Shifted(word: nat): nat { word * 4 % SPACE }

  function Target(op: Op): nat {
    match op
    case ReadLine(addr) => addr
    case WriteLine(addr, _, _) => addr
    case Dump(word) => Shifted(word)
    case Patch(word, _) => Shifted(word)
  }

  /** What an operation leaves at an address of a flat memory, given what is there and whether its target is
      a hole. */
  function Effect(op: Op, a: nat, before: Option<Byte>, hole: bool): Option<Byte> {
    var t := Target(op);
    if hole then before
    else match op
      case WriteLine(_, data, be) =>
        if t % 16 == 0 && t <= a < t + 16 && Enabled(be, a - t) then Some(LineByte(data, a - t)) else before
      case Patch(_, value) => if t <= a < t + 4 then Some(ByteOf(value, a - t)) else before
      case _ => before
  }

  /** The flat memory after a number of operations, on a bus that started as m. */
  function After(ops: seq<Op>, m: seq<Device>, a: nat): Option<Byte>
    requires Ok(m)
  {
    if ops == [] then Flat(m, a)
    else
      var op := ops[|ops| - 1];
      Effect(op, a, After(ops[..|ops| - 1], m, a), Flat(m, Target(op)) == None)
  }

  /** What an operation answers after these: errors at holes and at unaligned lines, and otherwise what the flat
      memory holds. */
  predicate Answers(op: Op, ops: seq<Op>, m: seq<Device>, r: Response)
    requires Ok(m)
  {
    var t := Target(op);
    if Flat(m, t) == None then r == Hole
    else match op
      case ReadLine(_) =>
        if t % 16 != 0 then r == Unaligned
        else r.Line? && forall k :: 0 <= k < 16 ==> After(ops, m, t + k) == Some(LineByte(r.line, k))
      case WriteLine(_, _, _) => r == if t % 16 != 0 then Unaligned else Done
      case Dump(_) => r.Word? && forall k :: 0 <= k < 4 ==> After(ops, m, t + k) == Some(ByteOf(r.value, k))
      case Patch(_, _) => r == Done
  }

  /** The byte enables of word j of a line. */
  function WordEnables(j: nat): Enables
    requires j < 4
  {
    match j case 0 => 0xf case 1 => 0xf0 case 2 => 0xf00 case 3 => 0xf000
  }

  lemma WordEnablesAre(j: nat, k: nat)
    requires j < 4 && k < 16
    ensures Enabled(WordEnables(j), k) <==> k / 4 == j
  {
    PastEnables(WordEnables(j), k / 4, k % 4);
    assert Past(WordEnables(j), 1) == WordEnables(j) / 16;
    assert Past(WordEnables(j), 2) == WordEnables(j) / 16 / 16;
    assert Past(WordEnables(j), 3) == WordEnables(j) / 16 / 16 / 16;
    NibbleEnables(k % 4);
  }

  lemma NibbleEnables(t: nat)
    requires t < 4
    ensures Enabled(0xf, t) && !Enabled(0, t) && !Enabled(0xf0, t) && !Enabled(0xf00, t) && !Enabled(0xf000, t)
  {
  }

  /** Word j of a line: its place among the words of a device. */
  lemma WordPlace(size: nat, start: nat, j: nat)
    requires size > 0 && size % 16 == 0 && start % 16 == 0 && j < 4
    ensures Offset(start + 4 * j, size) / 4 / 4 == Offset(start, size) / 16
    ensures Offset(start + 4 * j, size) / 4 % 4 == j
  {
    LineIsFlat(size, start, 4 * j);
    WordIndex(Offset(start, size), j);
  }

  lemma WordIndex(offset: nat, j: nat)
    requires offset % 16 == 0 && j < 4
    ensures (offset + 4 * j) / 4 / 4 == offset / 16 && (offset + 4 * j) / 4 % 4 == j
  {
    assert (offset + 4 * j) / 4 == offset / 16 * 4 + j;
  }

  /** The four bytes of a word are four bytes of its line. */
  lemma WordBytes(l: Line, j: nat, k: nat)
    requires j < 4 && k < 4
    ensures LineByte(l, 4 * j + k) == ByteOf(l[j], k)
  {
  }

  /** The line of a word. */
  lemma WordLine(m: seq<Device>, i: nat, start: nat, j: nat)
    requires Ok(m) && start % 16 == 0 && j < 4 && Resolve(m, start + 4 * j, 0) == Some(i)
    ensures Resolve(m, start, 0) == Some(i)
    ensures var n := Offset(start + 4 * j, m[i].size) / 4;
            n / 4 == Offset(start, m[i].size) / 16 < |m[i].lines| && n % 4 == j
  {
    InLines(m[i].size, start);
    WordPlace(m[i].size, start, j);
    LineResolves(m, start, 4 * j, 0);
  }

  lemma FlatWord(m: seq<Device>, i: nat, start: nat, j: nat, k: nat)
    requires Ok(m) && start % 16 == 0 && j < 4 && k < 4 && Resolve(m, start, 0) == Some(i)
    ensures var n := Offset(start, m[i].size) / 16;
            n < |m[i].lines| && Flat(m, start + (4 * j + k)) == Some(ByteOf(m[i].lines[n][j], k))
  {
    InLines(m[i].size, start);
    WordBytes(m[i].lines[Offset(start, m[i].size) / 16], j, k);
    FlatLine(m, start, 4 * j + k);
  }

  /** A line write with one word enabled is a word write. */
  lemma FlatAfterWord(m: seq<Device>, m': seq<Device>, i: nat, start: nat, j: nat, l: Line, a: nat)
    requires Ok(m) && Ok(m') && start % 16 == 0 && j < 4 && Resolve(m, start, 0) == Some(i)
    requires LineWritten(m, m', i, start, l, WordEnables(j))
    ensures Flat(m', a) == if start + 4 * j <= a < start + 4 * j + 4 then Some(ByteOf(l[j], a - start - 4 * j))
                           else Flat(m, a)
  {
    if start <= a < start + 16 {
      var k: nat := a - start;
      assert start + k == a;
      WordInLineWritten(m, m', i, start, j, l, k);
    } else {
      OtherLines(m, m', i, start, a, l, WordEnables(j));
    }
  }

  lemma WordInLineWritten(m: seq<Device>, m': seq<Device>, i: nat, start: nat, j: nat, l: Line, k: nat)
    requires Ok(m) && Ok(m') && start % 16 == 0 && j < 4 && k < 16 && Resolve(m, start, 0) == Some(i)
    requires LineWritten(m, m', i, start, l, WordEnables(j))
    ensures Flat(m', start + k) == if 4 * j <= k < 4 * j + 4 then Some(ByteOf(l[j], k - 4 * j)) else Flat(m, start + k)
  {
    WrittenLine(m, m', i, start, k, l, WordEnables(j));
    WordEnablesAre(j, k);
    InWord(k, j);
    if 4 * j <= k < 4 * j + 4 {
      WordBytes(l, j, k - 4 * j);
    }
  }

  lemma InWord(k: nat, j: nat)
    ensures k / 4 == j <==> 4 * j <= k < 4 * j + 4
  {
  }

  /** Holes stay holes. */
  lemma {:induction false} HolesStay(ops: seq<Op>, m: seq<Device>, a: nat)
    requires Ok(m)
    ensures After(ops, m, a) == None <==> Flat(m, a) == None
  {
    if ops != [] {
      HolesStay(ops[..|ops| - 1], m, a);
      var op := ops[|ops| - 1];
      EffectFills(op, m, a, After(ops[..|ops| - 1], m, a));
    }
  }

  /** No write reaches from one device into a hole next to it. */
  lemma EffectFills(op: Op, m: seq<Device>, a: nat, before: Option<Byte>)
    requires Ok(m) && (before == None <==> Flat(m, a) == None)
    ensures Effect(op, a, before, Flat(m, Target(op)) == None) == None <==> Flat(m, a) == None
  {
    var t := Target(op);
    if t - t % 16 <= a < t - t % 16 + 16 {
      SameLine(m, t, a);
    }
    match op
    case Patch(word, value) => ShiftedAligned(word, a);
    case _ =>
  }

  lemma SameLine(m: seq<Device>, t: nat, a: nat)
    requires Ok(m) && t - t % 16 <= a < t - t % 16 + 16
    ensures Flat(m, a) == None <==> Flat(m, t) == None
  {
    var start: nat := t - t % 16;
    HoleOfLine(m, start, a - start);
    HoleOfLine(m, start, t % 16);
  }

  lemma HoleOfLine(m: seq<Device>, start: nat, k: nat)
    requires Ok(m) && start % 16 == 0 && k < 16
    ensures Flat(m, start + k) == None <==> Resolve(m, start, 0) == None
  {
    LineResolves(m, start, k, 0);
  }

  lemma ShiftedAligned(word: nat, a: nat)
    ensures var t := Shifted(word);
            t % 4 == 0 && (t <= a < t + 4 ==> t - t % 16 <= a < t - t % 16 + 16)
  {
  }

  lemma AfterNext(ops: seq<Op>, op: Op, m: seq<Device>, a: nat)
    requires Ok(m)
    ensures After(ops + [op], m, a) == Effect(op, a, After(ops, m, a), Flat(m, Target(op)) == None)
  {
    assert (ops + [op])[..|ops|] == ops;
  }

  /** An operation answers from the flat memory and changes it as it should. */
  ghost predicate Does(op: Op, m: seq<Device>, m': seq<Device>, r: Response)
    requires Ok(m) && Ok(m')
  {
    && Answers(op, [], m, r)
    && forall a: nat :: Flat(m', a) == Effect(op, a, Flat(m, a), Flat(m, Target(op)) == None)
  }

  lemma HoleDoes(op: Op, m: seq<Device>)
    requires Ok(m) && Resolve(m, Target(op), 0) == None
    ensures Does(op, m, m, Hole)
  {
  }

  lemma UnalignedDoes(op: Op, m: seq<Device>)
    requires Ok(m) && (op.ReadLine? || op.WriteLine?) && Resolve(m, Target(op), 0).Some? && Target(op) % 16 != 0
    ensures Does(op, m, m, Unaligned)
  {
  }

  lemma ReadLineDoes(addr: nat, m: seq<Device>, l: AvalonLines.Line)
    requires Ok(m) && addr % 16 == 0
    requires forall k :: 0 <= k < 16 ==> Flat(m, addr + k) == Some(LineByte(l, k))
    ensures Does(ReadLine(addr), m, m, Line(l))
  {
    assert Flat(m, addr + 0) == Some(LineByte(l, 0));
    assert forall a: nat :: After([], m, a) == Flat(m, a);
  }

  lemma DumpDoes(word: nat, m: seq<Device>, value: AvalonLines.Word)
    requires Ok(m) && forall k :: 0 <= k < 4 ==> Flat(m, Shifted(word) + k) == Some(ByteOf(value, k))
    ensures Does(Dump(word), m, m, Word(value))
  {
    assert Flat(m, Shifted(word) + 0) == Some(ByteOf(value, 0));
    assert forall a: nat :: After([], m, a) == Flat(m, a);
  }

  lemma WriteLineDoes(addr: nat, data: AvalonLines.Line, be: Enables, m: seq<Device>, m': seq<Device>)
    requires Ok(m) && Ok(m') && addr % 16 == 0 && Resolve(m, addr, 0).Some?
    requires forall a: nat :: Flat(m', a) == if addr <= a < addr + 16 && Enabled(be, a - addr)
                                             then Some(LineByte(data, a - addr)) else Flat(m, a)
    ensures Does(WriteLine(addr, data, be), m, m', Done)
  {
  }

  lemma PatchDoes(word: nat, value: AvalonLines.Word, m: seq<Device>, m': seq<Device>)
    requires Ok(m) && Ok(m') && Resolve(m, Shifted(word), 0).Some?
    requires var t := Shifted(word);
             forall a: nat :: Flat(m', a) == if t <= a < t + 4 then Some(ByteOf(value, a - t)) else Flat(m, a)
    ensures Does(Patch(word, value), m, m', Done)
  {
  }

  lemma WordOf(word: nat)
    ensures var t := Shifted(word);
            t - t % 16 >= 0 && (t - t % 16) % 16 == 0 && 0 <= t % 16 / 4 < 4 && t == t - t % 16 + 4 * (t % 16 / 4)
  {
    var u := word % (SPACE / 4);
    assert word == word / (SPACE / 4) * (SPACE / 4) + u;
    assert word * 4 == word / (SPACE / 4) * SPACE + 4 * u;
    assert Shifted(word) == 4 * u;
    WordInLine(u);
  }

  lemma WordInLine(u: nat)
    ensures 4 * u % 16 == 4 * (u % 4)
  {
  }

  /** The bus shows what some operations leave. */
  ghost predicate Shows(ops: seq<Op>, m: seq<Device>, now: seq<Device>)
    requires Ok(m) && Ok(now)
  {
    forall a: nat :: Flat(now, a) == After(ops, m, a)
  }

  lemma DoesNext(ops: seq<Op>, op: Op, m: seq<Device>, now: seq<Device>, next: seq<Device>, r: Response)
    requires Ok(m) && Ok(now) && Ok(next) && Shows(ops, m, now) && Does(op, now, next, r)
    ensures Answers(op, ops, m, r) && Shows(ops + [op], m, next)
  {
    AnswersCarry(op, ops, m, now, r);
    HolesStay(ops, m, Target(op));
    forall a: nat
      ensures Flat(next, a) == After(ops + [op], m, a)
    {
      AfterNext(ops, op, m, a);
    }
  }

  /** A bus that shows what some operations leave answers as one that has done them. */
  lemma AnswersCarry(op: Op, ops: seq<Op>, m: seq<Device>, now: seq<Device>, r: Response)
    requires Ok(m) && Ok(now) && Shows(ops, m, now) && Answers(op, [], now, r)
    ensures Answers(op, ops, m, r)
  {
    HolesStay(ops, m, Target(op));
    assert forall a: nat :: After([], now, a) == Flat(now, a);
  }

  /** The address map: the memory at base with size bytes shows byte x of its block at base + x, on addresses that no
      memory attached before it takes, and an address that none has is a hole. */
  lemma {:induction false} AddressMap(m: seq<Device>, a: nat)
    requires Ok(m)
    ensures forall i :: 0 <= i < |m| && m[i].base <= a < m[i].base + m[i].size
                        && (forall j :: 0 <= j < i ==> !(m[j].base <= a < m[j].base + m[j].size)) ==>
              && 0 <= (a - m[i].base) / 16 < |m[i].lines|
              && Flat(m, a) == Some(LineByte(m[i].lines[(a - m[i].base) / 16], (a - m[i].base) % 16))
    ensures (forall i :: 0 <= i < |m| ==> !(m[i].base <= a < m[i].base + m[i].size)) ==> Flat(m, a) == None
  {
    ResolvesFirst(m, a, 0);
    var r := Resolve(m, a, 0);
    if r.Some? {
      InRange(m[r.value], a);
      InLines(m[r.value].size, a);
    }
  }

  lemma {:induction false} ResolvesFirst(m: seq<Device>, a: nat, from: nat)
    requires Ok(m) && from <= |m|
    ensures var r := Resolve(m, a, from);
            if r.Some? then
              && from <= r.value && m[r.value].base <= a < m[r.value].base + m[r.value].size
              && forall j :: from <= j < r.value ==> !(m[j].base <= a < m[j].base + m[j].size)
            else forall j :: from <= j < |m| ==> !(m[j].base <= a < m[j].base + m[j].size)
    decreases |m| - from
  {
    if from < |m| {
      InRange(m[from], a);
      ResolvesFirst(m, a, from + 1);
    }
  }

  /** A device takes the addresses from its base on, and sees its offset. */
  lemma InRange(d: Device, a: nat)
    requires DeviceOk(d)
    ensures Covers(d, a) <==> d.base <= a < d.base + d.size
    ensures Covers(d, a) ==> Offset(a, d.size) == a - d.base
  {
    if d.base <= a < d.base + d.size {
      OffsetWithin(d.base, a, d.size);
    }
  }

  lemma {:induction false} OffsetWithin(base: nat, a: nat, size: nat)
    requires size > 0 && Offset(base, size) == 0 && base <= a < base + size
    ensures Offset(a, size) == a - base
  {
    if base >= size {
      OffsetWithin(base - size, a - size, size);
    }
  }

  /** A dump answers the flat bytes at four times the word number. */
  lemma DumpReadsWord(ops: seq<Op>, m: seq<Device>, word: nat, r: Response)
    requires Ok(m) && word < 0x4000_0000 && Answers(Dump(word), ops, m, r)
    ensures Flat(m, 4 * word) == None ==> r == Hole
    ensures Flat(m, 4 * word) != None ==>
              r.Word? && forall k :: 0 <= k < 4 ==> After(ops, m, 4 * word + k) == Some(ByteOf(r.value, k))
  {
    WordAddress(word);
  }

  lemma WordAddress(word: nat)
    requires word < 0x4000_0000
    ensures Shifted(word) == 4 * word
  {
  }

  /** After a patch the flat bytes at four times the word number are those of the value, all others as before. */
  lemma PatchWritesWord(ops: seq<Op>, m: seq<Device>, word: nat, value: AvalonLines.Word, a: nat)
    requires Ok(m) && word < 0x4000_0000 && Flat(m, 4 * word) != None
    ensures After(ops + [Patch(word, value)], m, a)
            == if 4 * word <= a < 4 * word + 4 then Some(ByteOf(value, a - 4 * word)) else After(ops, m, a)
  {
    WordAddress(word);
    AfterNext(ops, Patch(word, value), m, a);
  }

  /** A patched word 4q + j is word j of what line q then shows: after is the history with the patch at its end. */
  lemma LineShowsPatch(ops: seq<Op>, after: seq<Op>, m: seq<Device>, q: nat, j: nat, value: AvalonLines.Word,
                       l: AvalonLines.Line)
    requires Ok(m) && j < 4 && 4 * q + j < 0x4000_0000 && Flat(m, 4 * (4 * q + j)) != None
    requires after == ops + [Patch(4 * q + j, value)]
    requires forall k :: 0 <= k < 16 ==> After(after, m, 16 * q + k) == Some(LineByte(l, k))
    ensures l[j] == value
  {
    forall k | 0 <= k < 4
      ensures ByteOf(l[j], k) == ByteOf(value, k)
    {
      ShowsByte(ops, after, m, q, j, value, l, k);
    }
    SameBytes(l[j], value);
  }

  lemma ShowsByte(ops: seq<Op>, after: seq<Op>, m: seq<Device>, q: nat, j: nat, value: AvalonLines.Word,
                  l: AvalonLines.Line, k: nat)
    requires Ok(m) && j < 4 && k < 4 && 4 * q + j < 0x4000_0000 && Flat(m, 4 * (4 * q + j)) != None
    requires after == ops + [Patch(4 * q + j, value)]
    requires After(after, m, 16 * q + (4 * j + k)) == Some(LineByte(l, 4 * j + k))
    ensures ByteOf(l[j], k) == ByteOf(value, k)
  {
    PatchWritesWord(ops, m, 4 * q + j, value, 16 * q + (4 * j + k));
    WordBytes(l, j, k);
  }

  /** A line read answers the sixteen flat bytes from its address on. */
  lemma LineAnswers(ops: seq<Op>, m: seq<Device>, start: nat, r: Response)
    requires Ok(m) && start % 16 == 0 && Flat(m, start) != None && Answers(ReadLine(start), ops, m, r)
    ensures r.Line? && forall k :: 0 <= k < 16 ==> After(ops, m, start + k) == Some(LineByte(r.line, k))
  {
  }

  lemma SameBytes(v: AvalonLines.Word, w: AvalonLines.Word)
    requires forall k :: 0 <= k < 4 ==> ByteOf(v, k) == ByteOf(w, k)
    ensures v == w
  {
    forall i | 0 <= i < 32
      ensures v[i] == w[i]
    {
      assert ByteOf(v, i / 8)[i % 8] == v[8 * (i / 8) + i % 8];
      assert ByteOf(w, i / 8)[i % 8] == w[8 * (i / 8) + i % 8];
    }
  }

  /** The interconnect, with memories on it. */
  class Interconnect {
    var devices: seq<Mem>

    ghost predicate Valid()
      reads this
    {
      && (forall i :: 0 <= i < |devices| ==> devices[i].Valid())
      && forall i, j :: 0 <= i < j < |devices| ==> devices[i].block != devices[j].block
    }

    ghost function State(): (m: seq<Device>)
      requires Valid()
      reads this, set d | d in devices :: d.block
      ensures Ok(m) && |m| == |devices|
    {
      var m := seq<Device>(|devices|, i requires 0 <= i < |devices|
                                        reads this, set d | d in devices :: d.block => devices[i].State());
      assert forall i :: 0 <= i < |m| ==> DeviceOk(m[i]) by {
        forall i | 0 <= i < |m| ensures DeviceOk(m[i]) { assert devices[i].Valid(); }
      }
      m
    }

    constructor ()
      ensures Valid() && devices == []
    {
      devices := [];
    }

    method Attach(dev: Mem)
      requires Valid() && dev.Valid() && forall d :: d in devices ==> d.block != dev.block
      modifies this
      ensures Valid() && devices == old(devices) + [dev]
    {
      devices := devices + [dev];
    }

    /** The address without the bits of the mask. */
    method Masked(addr: nat, size: nat) returns (offset: nat)
      requires size > 0
      ensures offset == Offset(addr, size)
    {
      OffsetIsRemainder(addr, size);
      offset := addr % size;
    }

    method ResolveExternal(addr: nat) returns (i: Option<nat>)
      requires Valid()
      ensures i == Resolve(State(), addr, 0)
    {
      var n := 0;
      while n < |devices|
        invariant n <= |devices|
        invariant Resolve(State(), addr, 0) == Resolve(State(), addr, n)
      {
        assert devices[n].Valid() && State()[n] == devices[n].State();
        var offset := Masked(addr, devices[n].size);
        if addr - offset == devices[n].base {
          return Some(n);
        }
        n := n + 1;
      }
      i := None;
    }

    /** A write to line n of a device, which is at some address. */
    method WriteAt(i: nat, n: nat, ghost addr: nat, data: Line, be: Enables)
      requires Valid() && addr % 16 == 0 && Resolve(State(), addr, 0) == Some(i)
      requires n == Offset(addr, State()[i].size) / 16
      modifies set d | d in devices :: d.block
      ensures Valid() && LineWritten(old(State()), State(), i, addr, data, be)
    {
      var d := devices[i];
      assert d.Valid();
      InLines(d.size, addr);
      ghost var m := State();
      assert m[i] == d.State();
      d.WriteLine(n, data, be);
      assert State()[i] == d.State();
      forall j | 0 <= j < |m| && j != i
        ensures State()[j] == m[j]
      {
        assert devices[j].block != d.block;
        assert State()[j] == devices[j].State();
      }
    }
  
    /** The line of a device at an address. */
    method ReadAt(i: nat, addr: nat) returns (l: Line)
      requires Valid() && addr % 16 == 0 && Resolve(State(), addr, 0) == Some(i)
      ensures forall k :: 0 <= k < 16 ==> Flat(State(), addr + k) == Some(LineByte(l, k))
    {
      var d := devices[i];
      assert d.Valid() && State()[i] == d.State();
      InLines(d.size, addr);
      var offset := Masked(addr, d.size);
      l := d.ReadLine(offset / 16);
      forall k | 0 <= k < 16
        ensures Flat(State(), addr + k) == Some(LineByte(l, k))
      {
        FlatLine(State(), addr, k);
      }
    }

    /** slave.read, for a device that knows lines: a word, out of the line that it is in. */
    method ReadWordAt(i: nat, addr: nat, ghost start: nat, ghost j: nat) returns (value: AvalonLines.Word)
      requires Valid() && addr == start + 4 * j && start % 16 == 0 && j < 4 && Resolve(State(), addr, 0) == Some(i)
      ensures forall k :: 0 <= k < 4 ==> Flat(State(), addr + k) == Some(ByteOf(value, k))
    {
      var d := devices[i];
      assert d.Valid() && State()[i] == d.State();
      var offset := Masked(addr, d.size);
      var pos := offset / 4;
      WordLine(State(), i, start, j);
      var l := d.ReadLine(pos / 4);
      value := l[pos % 4];
      forall k | 0 <= k < 4
        ensures Flat(State(), addr + k) == Some(ByteOf(value, k))
      {
        FlatWord(State(), i, start, j, k);
      }
    }

    /** slave.write, for a device that knows lines: a line with one word in it, the others not enabled. */
    method WriteWordAt(i: nat, addr: nat, value: AvalonLines.Word, ghost start: nat, ghost j: nat)
      requires Valid() && addr == start + 4 * j && start % 16 == 0 && j < 4 && Resolve(State(), addr, 0) == Some(i)
      modifies set d | d in devices :: d.block
      ensures Valid()
      ensures forall a: nat :: Flat(State(), a) ==
                if addr <= a < addr + 4 then Some(ByteOf(value, a - addr)) else old(Flat(State(), a))
    {
      ghost var m := State();
      var d := devices[i];
      assert d.Valid() && m[i] == d.State();
      var offset := Masked(addr, d.size);
      var pos := offset / 4;
      WordLine(m, i, start, j);
      var l: Line := ZEROS[pos % 4 := value];
      WriteAt(i, pos / 4, start, l, WordEnables(pos % 4));
      forall a: nat
        ensures Flat(State(), a) == if addr <= a < addr + 4 then Some(ByteOf(value, a - addr)) else Flat(m, a)
      {
        FlatAfterWord(m, State(), i, start, j, l, a);
      }
    }
  
    /** A line of a memory. */
    method WriteLineAt(i: nat, addr: nat, data: Line, be: Enables)
      requires Valid() && addr % 16 == 0 && Resolve(State(), addr, 0) == Some(i)
      modifies set d | d in devices :: d.block
      ensures Valid()
      ensures forall a: nat :: Flat(State(), a) ==
                if addr <= a < addr + 16 && Enabled(be, a - addr) then Some(LineByte(data, a - addr))
                else old(Flat(State(), a))
    {
      ghost var m := State();
      var d := devices[i];
      assert m[i] == d.State();
      var offset := Masked(addr, d.size);
      WriteAt(i, offset / 16, addr, data, be);
      forall a: nat
        ensures Flat(State(), a) ==
                  if addr <= a < addr + 16 && Enabled(be, a - addr) then Some(LineByte(data, a - addr)) else Flat(m, a)
      {
        FlatAfterWrite(m, State(), i, addr, a, data, be);
      }
    }

    /** The device for a master's operation, or the error that it raises. */
    method Accept(op: Op) returns (i: Option<nat>, error: Response)
      requires Valid() && (op.ReadLine? || op.WriteLine?)
      ensures i == None ==> Does(op, State(), State(), error)
      ensures i.Some? ==> op.addr % 16 == 0 && Resolve(State(), op.addr, 0) == i
    {
      i := ResolveExternal(op.addr);
      if i == None {
        HoleDoes(op, State());
        return None, Hole;
      }
      if op.addr % 16 != 0 {
        UnalignedDoes(op, State());
        return None, Unaligned;
      }
      error := Done;
    }

    /** The operations of a master. */
    method Tick(op: Op) returns (r: Response)
      requires Valid() && (op.ReadLine? || op.WriteLine?)
      modifies set d | d in devices :: d.block
      ensures Valid() && Does(op, old(State()), State(), r)
    {
      ghost var m := State();
      var i, error := Accept(op);
      if i == None {
        return error;
      }
      if op.ReadLine? {
        var l := ReadAt(i.value, op.addr);
        ReadLineDoes(op.addr, m, l);
        r := Line(l);
      } else {
        r := WriteTick(i.value, op.addr, op.data, op.be);
      }
    }

    method WriteTick(i: nat, addr: nat, data: AvalonLines.Line, be: Enables) returns (r: Response)
      requires Valid() && addr % 16 == 0 && Resolve(State(), addr, 0) == Some(i)
      modifies set d | d in devices :: d.block
      ensures Valid() && Does(WriteLine(addr, data, be), old(State()), State(), r)
    {
      ghost var m := State();
      WriteLineAt(i, addr, data, be);
      WriteLineDoes(addr, data, be, m, State());
      r := Done;
    }

    /** The operations of the simulation itself. */
    method DumpOrPatch(op: Op) returns (r: Response)
      requires Valid() && (op.Dump? || op.Patch?)
      modifies set d | d in devices :: d.block
      ensures Valid() && Does(op, old(State()), State(), r)
    {
      ghost var m := State();
      var t := Shifted(op.word);
      var i := ResolveExternal(t);
      if i == None {
        HoleDoes(op, m);
        return Hole;
      }
      WordOf(op.word);
      if op.Dump? {
        var value := ReadWordAt(i.value, t, t - t % 16, t % 16 / 4);
        DumpDoes(op.word, m, value);
        r := Word(value);
      } else {
        r := PatchAt(i.value, op.word, op.value);
      }
    }

    method PatchAt(i: nat, word: nat, value: AvalonLines.Word) returns (r: Response)
      requires Valid() && Resolve(State(), Shifted(word), 0) == Some(i)
      modifies set d | d in devices :: d.block
      ensures Valid() && Does(Patch(word, value), old(State()), State(), r)
    {
      ghost var m := State();
      var t := Shifted(word);
      WordOf(word);
      WriteWordAt(i, t, value, t - t % 16, t % 16 / 4);
      PatchDoes(word, value, m, State());
      r := Done;
    }

    method Perform(op: Op) returns (r: Response)
      requires Valid()
      modifies set d | d in devices :: d.block
      ensures Valid() && Does(op, old(State()), State(), r)
    {
      if op.ReadLine? || op.WriteLine? {
        r := Tick(op);
      } else {
        r := DumpOrPatch(op);
      }
    }

    /** One operation after others, on a bus that started as m. */
    method Next(op: Op, ghost ops: seq<Op>, ghost m: seq<Device>) returns (r: Response)
      requires Valid() && Ok(m) && Shows(ops, m, State())
      modifies set d | d in devices :: d.block
      ensures Valid() && Answers(op, ops, m, r) && Shows(ops + [op], m, State())
    {
      ghost var was := State();
      r := Perform(op);
      DoesNext(ops, op, m, was, State(), r);
    }

    /** Any sequence of line reads, byte-enabled line writes, dumps and patches: the memories behave as one flat
        array of bytes. */
    method Run(ops: seq<Op>) returns (rs: seq<Response>)
      requires Valid()
      modifies set d | d in devices :: d.block
      ensures Valid()
      ensures |rs| == |ops| && forall i :: 0 <= i < |ops| ==> Answers(ops[i], ops[..i], old(State()), rs[i])
      ensures Shows(ops, old(State()), State())
    {
      rs := [];
      ghost var m := State();
      for i := 0 to |ops|
        invariant Valid()
        invariant |rs| == i && forall j :: 0 <= j < i ==> Answers(ops[j], ops[..j], m, rs[j])
        invariant Shows(ops[..i], m, State())
      {
        var r := Next(ops[i], ops[..i], m);
        rs := rs + [r];
        assert ops[..i + 1] == ops[..i] + [ops[i]];
      }
      assert ops[..|ops|] == ops;
    }
  }
}

/** Lines for devices that know words only: read_line and write_line of tb/top/conspiracion/avalon.hpp, which pick
    one word of the line by its byte enables. */
module AvalonAdapters {
  import opened Options
  import opened AvalonLines

  /** Some byte of word j is enabled; bits 4j to 4j + 3. */
  predicate Touches(be: Enables, j: nat) { Past(be, j) % 16 != 0 }

  lemma TouchesBytes(be: Enables, j: nat)
    ensures Touches(be, j)
            <==> Enabled(be, 4 * j) || Enabled(be, 4 * j + 1) || Enabled(be, 4 * j + 2) || Enabled(be, 4 * j + 3)
  {
    var n := Past(be, j);
    PastEnables(be, j, 0);
    PastEnables(be, j, 1);
    PastEnables(be, j, 2);
    PastEnables(be, j, 3);
    LowBits(n);
  }

  lemma LowBits(n: nat)
    ensures n % 16 != 0 <==> Enabled(n, 0) || Enabled(n, 1) || Enabled(n, 2) || Enabled(n, 3)
    ensures n % 16 == (if Enabled(n, 0) then 1 else 0) + (if Enabled(n, 1) then 2 else 0)
                      + (if Enabled(n, 2) then 4 else 0) + (if Enabled(n, 3) then 8 else 0)
  {
    var (n1, n2, n3) := (n / 2, n / 2 / 2, n / 2 / 2 / 2);
    assert Enabled(n, 1) == Enabled(n1, 0);
    assert Enabled(n, 2) == Enabled(n1, 1) == Enabled(n2, 0);
    assert Enabled(n, 3) == Enabled(n1, 2) == Enabled(n2, 1) == Enabled(n3, 0);
    FourBits(n, n1, n2, n3, n3 / 2, n % 2, n1 % 2, n2 % 2, n3 % 2);
  }

  lemma FourBits(n: int, n1: int, n2: int, n3: int, n4: int, b0: int, b1: int, b2: int, b3: int)
    requires n == 2 * n1 + b0 && n1 == 2 * n2 + b1 && n2 == 2 * n3 + b2 && n3 == 2 * n4 + b3
    requires 0 <= b0 < 2 && 0 <= b1 < 2 && 0 <= b2 < 2 && 0 <= b3 < 2
    ensures n % 16 == b0 + 2 * b1 + 4 * b2 + 8 * b3
  {
    assert n == 16 * n4 + (b0 + 2 * b1 + 4 * b2 + 8 * b3);
  }

  /** A word access of the device. */
  datatype WordRead = WordRead(addr: nat, offset: nat)
  datatype WordWrite = WordWrite(addr: nat, data: Word, be: Enables)

  /** read_line reads the first word with an enabled byte, none if there is none. */
  function ReadLineAccess(addr: nat, be: Enables): Option<WordRead> {
    if Touches(be, 0) then Some(WordRead(4 * addr, 0))
    else if Touches(be, 1) then Some(WordRead(4 * addr + 1, 1))
    else if Touches(be, 2) then Some(WordRead(4 * addr + 2, 2))
    else if Touches(be, 3) then Some(WordRead(4 * addr + 3, 3))
    else None
  }

  /** write_line looks at words 1, 2 and 3 first, and writes word 0 if none of them has an enabled byte. */
  function WriteLineAccess(addr: nat, data: Line, be: Enables): WordWrite {
    var offset := if Touches(be, 1) then 1 else if Touches(be, 2) then 2 else if Touches(be, 3) then 3 else 0;
    WordWrite(4 * addr + offset, data[offset], Past(be, offset) % 16)
  }

  /** All enabled bytes of the line are in word j. */
  ghost predicate WithinWord(be: Enables, j: nat) {
    forall k :: 0 <= k < 16 && Enabled(be, k) ==> k / 4 == j
  }

  lemma WithinWordTouches(be: Enables, j: nat)
    requires j < 4
    ensures WithinWord(be, j) <==> forall i :: 0 <= i < 4 && i != j ==> !Touches(be, i)
  {
    forall i | 0 <= i < 4
      ensures Touches(be, i) <==> exists k :: 4 * i <= k < 4 * i + 4 && Enabled(be, k)
    {
      TouchesBytes(be, i);
    }
    if forall i :: 0 <= i < 4 && i != j ==> !Touches(be, i) {
      forall k | 0 <= k < 16 && Enabled(be, k)
        ensures k / 4 == j
      {
        assert 4 * (k / 4) <= k < 4 * (k / 4) + 4;
        assert Touches(be, k / 4);
      }
    }
  }

  /** The enables that write_line passes on are those of its word. */
  lemma NibbleEnables(be: Enables, j: nat, t: nat)
    requires t < 4
    ensures Enabled(Past(be, j) % 16, t) <==> Enabled(be, 4 * j + t)
  {
    var n := Past(be, j);
    PastEnables(be, j, t);
    LowBits(n);
    LowBits(n % 16);
  }

  /** A write reaches every enabled byte if and only if they are in one word; then it is that word, with that data
      and those enables. */
  lemma WriteReachesWord(addr: nat, data: Line, be: Enables)
    ensures var w := WriteLineAccess(addr, data, be);
            var j := w.addr - 4 * addr;
            && 0 <= j < 4 && w.data == data[j]
            && (forall t :: 0 <= t < 4 ==> (Enabled(w.be, t) <==> Enabled(be, 4 * j + t)))
            && (WithinWord(be, j) <==> exists i: nat :: i < 4 && WithinWord(be, i))
  {
    var w := WriteLineAccess(addr, data, be);
    var j := w.addr - 4 * addr;
    forall t | 0 <= t < 4
      ensures Enabled(w.be, t) <==> Enabled(be, 4 * j + t)
    {
      NibbleEnables(be, j, t);
    }
    WithinWordTouches(be, j);
    forall i: nat | i < 4 && WithinWord(be, i)
      ensures WithinWord(be, j)
    {
      WithinWordTouches(be, i);
    }
  }

  /** Likewise a read, which asks for nothing if and only if no byte is enabled. */
  lemma ReadReachesWord(addr: nat, be: Enables)
    ensures ReadLineAccess(addr, be) == None <==> forall k :: 0 <= k < 16 ==> !Enabled(be, k)
    ensures var r := ReadLineAccess(addr, be);
            r.Some? ==>
              && r.value.offset < 4 && r.value.addr == 4 * addr + r.value.offset
              && (WithinWord(be, r.value.offset) <==> exists i: nat :: i < 4 && WithinWord(be, i))
  {
    var r := ReadLineAccess(addr, be);
    WithinWordTouches(be, 0);
    WithinWordTouches(be, 1);
    WithinWordTouches(be, 2);
    WithinWordTouches(be, 3);
    TouchesBytes(be, 0);
    if r == None {
      assert WithinWord(be, 0) && WithinWord(be, 1);
    } else {
      TouchesBytes(be, r.value.offset);
    }
  }

  /** A read and a write with the same enables meet in the same word if and only if they do not enable bytes of
      word 0 together with bytes of another word. */
  lemma ReadMeetsWrite(addr: nat, data: Line, be: Enables)
    requires ReadLineAccess(addr, be).Some?
    ensures ReadLineAccess(addr, be).value.addr == WriteLineAccess(addr, data, be).addr
            <==> !(Touches(be, 0) && (Touches(be, 1) || Touches(be, 2) || Touches(be, 3)))
  {
  }
}
