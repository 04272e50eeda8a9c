/** The line editor behind read_line (demo/console.c). */
module LineEditor {
  import opened Options
  import opened CStrings
  import opened Uart

  const DEL: char := 0x7f as char

  predicate Printable(c: char) { ' ' <= c <= '~' }

  /** What the user has typed: nothing is read, a line of less than max characters is being edited, or a line is
      finished and waits for read_line to return it. */
  datatype Input = Idle | Editing(line: string, max: nat) | Done(line: string)

  /** One key on a line with room for max - 1 characters. */
  function Type(line: string, max: nat, c: char): string {
    if c == DEL then (if line == [] then [] else line[..|line| - 1])
    else if |line| + 1 < max && Printable(c) then line + [c]
    else line
  }

  /** The keys by their codes: 0x20 to 0x7e lengthen a line that has room, by themselves; 0x7f takes the last
      character off; newline ends the line; no other key does anything. */
  lemma KeyCodes(line: string, max: nat, c: char)
    ensures var code := c as int;
            Edit(Editing(line, max), c)
            == if code == 0x0a then Done(line)
               else if code == 0x7f then Editing(if line == [] then [] else line[..|line| - 1], max)
               else if 0x20 <= code <= 0x7e && |line| + 1 < max then Editing(line + [c], max)
               else Editing(line, max)
    ensures |Type(line, max, c)| > |line| <==> 0x20 <= c as int <= 0x7e && |line| + 1 < max
  {
  }

  /** The line that a run of keys makes. */
  function Typed(max: nat, keys: string): string {
    if keys == [] then [] else Type(Typed(max, keys[..|keys| - 1]), max, keys[|keys| - 1])
  }

  /** What one character from the serial port does. */
  function Edit(i: Input, c: char): Input {
    match i
    case Editing(line, max) => if c == '\n' then Done(line) else Editing(Type(line, max, c), max)
    case _ => i
  }

  function Text(s: seq<Byte>): (t: string)
    ensures |t| == |s|
  {
    seq(|s|, i requires 0 <= i < |s| => s[i] as char)
  }

  function EditAll(i: Input, s: string): Input {
    if s == [] then i else Edit(EditAll(i, s[..|s| - 1]), s[|s| - 1])
  }

  lemma {:induction false} EditAllConcat(i: Input, s: string, t: string)
    ensures EditAll(i, s + t) == EditAll(EditAll(i, s), t)
  {
    if t == [] {
      assert s + t == s;
    } else {
      var u := t[..|t| - 1];
      EditAllConcat(i, s, u);
      assert (s + t)[..|s + t| - 1] == s + u;
    }
  }

  lemma EditAllText(i: Input, s: seq<Byte>, t: seq<Byte>)
    ensures EditAll(i, Text(s + t)) == EditAll(EditAll(i, Text(s)), Text(t))
  {
    EditAllConcat(i, Text(s), Text(t));
    assert Text(s + t) == Text(s) + Text(t);
  }

  /** Bytes pass through the ring in order. */
  lemma PassedOn(first: seq<Byte>, accepted: seq<Byte>, consumed: seq<Byte>, waiting: seq<Byte>, typed: seq<Byte>,
                 taken: seq<Byte>, rest: seq<Byte>)
    requires first + accepted == consumed + waiting && waiting + typed == taken + rest
    ensures first + (accepted + typed) == (consumed + taken) + rest
  {
    assert first + (accepted + typed) == (first + accepted) + typed;
    assert (consumed + waiting) + typed == consumed + (waiting + typed);
    assert consumed + (taken + rest) == (consumed + taken) + rest;
  }

  /** The fold stops at the first newline: until then a line is edited, from then on it does not change. */
  lemma {:induction false} EditAllIsTyped(max: nat, s: string)
    ensures '\n' !in s ==> EditAll(Editing([], max), s) == Editing(Typed(max, s), max)
    ensures forall n :: 0 <= n < |s| && s[n] == '\n' && '\n' !in s[..n] ==>
              EditAll(Editing([], max), s) == Done(Typed(max, s[..n]))
  {
    if s != [] {
      var t := s[..|s| - 1];
      EditAllIsTyped(max, t);
      forall n | 0 <= n < |s| && s[n] == '\n' && '\n' !in s[..n]
        ensures EditAll(Editing([], max), s) == Done(Typed(max, s[..n]))
      {
        if n < |t| {
          assert t[n] == '\n' && t[..n] == s[..n];
        } else {
          assert t == s[..n];
        }
      }
      assert s[|s| - 1] in s;
      assert forall c :: c in t ==> c in s;
    }
  }

  /** A line is printable and leaves room for its NUL. */
  lemma {:induction false} TypedFits(max: nat, keys: string)
    requires max > 0
    ensures |Typed(max, keys)| < max
    ensures forall i :: 0 <= i < |Typed(max, keys)| ==> 0x20 <= Typed(max, keys)[i] as int <= 0x7e
  {
    if keys != [] {
      TypedFits(max, keys[..|keys| - 1]);
      TypeKeeps(Typed(max, keys[..|keys| - 1]), max, keys[|keys| - 1]);
    }
  }

  lemma TypeKeeps(line: string, max: nat, key: char)
    requires |line| < max && forall i :: 0 <= i < |line| ==> 0x20 <= line[i] as int <= 0x7e
    ensures |Type(line, max, key)| < max
    ensures forall i :: 0 <= i < |Type(line, max, key)| ==> 0x20 <= Type(line, max, key)[i] as int <= 0x7e
  {
    KeyCodes(line, max, key);
  }

  /** Plain text is taken as typed, as far as it fits. */
  lemma {:induction false} PlainText(max: nat, keys: string)
    requires max > 0 && forall i :: 0 <= i < |keys| ==> 0x20 <= keys[i] as int <= 0x7e
    ensures Typed(max, keys) == if |keys| < max then keys else keys[..max - 1]
  {
    if keys != [] {
      var n := |keys| - 1;
      PlainText(max, keys[..n]);
      PlainKey(max, keys[..n], keys[n]);
      assert keys == keys[..n] + [keys[n]];
    }
  }

  lemma PlainKey(max: nat, text: string, c: char)
    requires max > 0 && 0x20 <= c as int <= 0x7e
    ensures var t := text + [c];
            Type(if |text| < max then text else text[..max - 1], max, c) == if |t| < max then t else t[..max - 1]
  {
    KeyCodes(if |text| < max then text else text[..max - 1], max, c);
    if |text| >= max {
      assert (text + [c])[..max - 1] == text[..max - 1];
    } else if |text| == max - 1 {
      assert (text + [c])[..max - 1] == text;
    }
  }

  /** DEL takes back the key before it if and only if that key was added to the line, or there is no line. */
  lemma DelUndoes(max: nat, keys: string, c: char)
    ensures var line := Typed(max, keys);
            Typed(max, keys + [c, DEL]) == line
            <==> (line == [] && (c == DEL || !Printable(c) || max <= 1)) || (|line| + 1 < max && Printable(c))
  {
    var one, two := keys + [c], keys + [c, DEL];
    assert two[..|two| - 1] == one && one[..|one| - 1] == keys;
    assert !Printable(DEL);
  }

  /** The state of console.c. */
  class Console {
    var inputRun: bool
    var inputLen: nat
    var inputMax: nat
    var inputBuf: array?<char>

    ghost predicate Valid()
      reads this, inputBuf
    {
      && (inputBuf == null ==> !inputRun)
      && (inputBuf != null ==>
            && inputMax <= inputBuf.Length
            && Terminated(inputBuf[..inputMax])
            && (!inputRun ==>
                  && inputLen < inputMax && inputBuf[inputLen] == NUL
                  && forall i :: 0 <= i < inputLen ==> Printable(inputBuf[i])))
    }

    /** The line is what a reader of the C string in the buffer sees. */
    ghost function State(): Input
      reads this, inputBuf
      requires Valid()
    {
      if inputBuf == null then Idle
      else if inputRun then Done(CStr(inputBuf[..inputMax]))
      else Editing(CStr(inputBuf[..inputMax]), inputMax)
    }

    lemma LineIs()
      requires Valid() && inputBuf != null && !inputRun
      ensures CStr(inputBuf[..inputMax]) == inputBuf[..inputLen]
    {
      CStrIs(inputBuf[..inputMax], inputLen);
      assert inputBuf[..inputMax][..inputLen] == inputBuf[..inputLen];
    }

    constructor ()
      ensures Valid() && State() == Idle
    {
      inputRun, inputLen, inputMax, inputBuf := false, 0, 0, null;
    }

    /** One character, in the interrupt handler. */
    method Receive(c: char)
      requires Valid()
      modifies this`inputRun, this`inputLen, inputBuf
      ensures Valid() && State() == Edit(old(State()), c)
    {
      if inputRun || inputBuf == null {
        return;
      }
      LineIs();
      if c == DEL {
        Erase();
      } else if c == '\n' {
        inputRun := true;
        inputLen := 0;
      } else if inputLen < inputMax - 1 && Printable(c) {
        Append(c);
      }
    }

    method Erase()
      requires Valid() && inputBuf != null && !inputRun
      modifies this`inputLen, inputBuf
      ensures Valid() && State() == Editing(Type(old(State()).line, inputMax, DEL), inputMax)
    {
      LineIs();
      if inputLen > 0 {
        inputLen := inputLen - 1;
        inputBuf[inputLen] := NUL;
        assert inputBuf[..inputMax][inputLen] == NUL;
        LineIs();
      }
    }

    method Append(c: char)
      requires Valid() && inputBuf != null && !inputRun && inputLen < inputMax - 1 && Printable(c)
      modifies this`inputLen, inputBuf
      ensures Valid() && State() == Editing(old(State()).line + [c], inputMax)
    {
      LineIs();
      inputBuf[inputLen] := c;
      inputLen := inputLen + 1;
      inputBuf[inputLen] := NUL;
      assert inputBuf[..inputMax][inputLen] == NUL;
      LineIs();
    }

    /** The first part of read_line. */
    method BeginLine(buf: array<char>, size: nat)
      requires Valid() && size <= buf.Length && State() == Idle
      modifies this, buf
      ensures Valid() && State() == if size == 0 then Idle else Editing([], size)
      ensures inputBuf == if size > 0 then buf else null
    {
      if size == 0 {
        return;
      }
      buf[0] := NUL;
      inputBuf := buf;
      inputMax := size;
      inputLen := 0;
      assert buf[..size][0] == NUL;
      LineIs();
    }

    /** One turn of the waiting loop of read_line, with the lock held: when it ends the buffer holds the line,
        ended by a NUL within its size. */
    method TakeLine() returns (finished: bool)
      requires Valid()
      modifies this
      ensures finished <==> old(State()).Done?
      ensures Valid() && State() == if finished then Idle else old(State())
      ensures inputBuf == if finished then null else old(inputBuf)
      ensures finished ==> old(inputMax <= inputBuf.Length && Terminated(inputBuf[..inputMax])
                               && State() == Done(CStr(inputBuf[..inputMax])))
    {
      finished := inputRun;
      if finished {
        inputBuf := null;
        inputLen := 0;
        inputMax := 0;
        inputRun := false;
      }
    }

    /** The interrupt handler. ticks says what the keyboard gives on the serial port's ticks before each read:
        whatever the timing, no byte is lost or reordered, and when the handler returns, as it does, the ring
        is empty and everything out of it has been edited. */
    method Irq(uart: JtagUart, ticks: seq<seq<Option<int>>>)
      returns (ghost accepted: seq<Byte>, ghost consumed: seq<Byte>)
      requires Valid() && uart.Ready()
      modifies this`inputRun, this`inputLen, inputBuf, uart, uart.rx
      ensures Valid() && uart.Ready()
      ensures uart.Contents() == []
      ensures old(uart.Contents()) + accepted == consumed
      ensures State() == EditAll(old(State()), Text(consumed))
    {
      accepted, consumed := [], [];
      var i := 0;
      var more := true;
      while more
        invariant Valid() && uart.Ready() && 0 <= i
        invariant !more ==> uart.Contents() == []
        invariant old(uart.Contents()) + accepted == consumed + uart.Contents()
        invariant State() == EditAll(old(State()), Text(consumed))
        decreases if i < |ticks| then |ticks| - i else 0, more, uart.rxAvail
      {
        ghost var waiting := uart.Contents();
        ghost var typed, taken := [], [];
        if i < |ticks| {
          typed := PollAll(uart, ticks[i]);
          i := i + 1;
        }
        more, taken := HandleOne(uart);
        PassedOn(old(uart.Contents()), accepted, consumed, waiting, typed, taken, uart.Contents());
        EditAllText(old(State()), consumed, taken);
        accepted, consumed := accepted + typed, consumed + taken;
      }
    }

    /** One pass of the handler's loop. */
    method HandleOne(uart: JtagUart) returns (more: bool, ghost taken: seq<Byte>)
      requires Valid() && uart.Ready()
      modifies this`inputRun, this`inputLen, inputBuf, uart`rxAvail, uart`rxNext
      ensures Valid() && uart.Ready()
      ensures old(uart.Contents()) == taken + uart.Contents()
      ensures State() == EditAll(old(State()), Text(taken))
      ensures more <==> uart.Contents() != []
      ensures |taken| == if old(uart.Contents()) == [] then 0 else 1
    {
      taken := [];
      var data := uart.ReadData();
      if !Uart.Valid(data) {
        return false, taken;
      }
      taken := [Data(data)];
      assert Text(taken)[..0] == [];
      Receive(Data(data) as char);
      more := Avail(data) > 0;
    }

    /** The serial port's ticks between two reads. */
    method PollAll(uart: JtagUart, inputs: seq<Option<int>>) returns (ghost accepted: seq<Byte>)
      requires uart.Ready()
      modifies uart`countdown, uart`rxAvail, uart`ctrlAc, uart.rx
      ensures uart.Ready() && uart.Contents() == old(uart.Contents()) + accepted
    {
      accepted := [];
      for i := 0 to |inputs|
        invariant uart.Ready() && uart.Contents() == old(uart.Contents()) + accepted
      {
        var polled := uart.Tick(inputs[i]);
        accepted := accepted + if polled && inputs[i].Some? then [inputs[i].value % 256] else [];
      }
    }
  }
}

/** Whole runs: a keyboard, the ring, the interrupt handler and a program that reads lines, in any order. Drive
    shows that the serial port and the console, whatever is done to them, go through such a run. */
module ConsoleRuns {
  import opened Options
  import opened Uart
  import opened LineEditor

  /** A line that read_line returned: the buffer size, and how much had been consumed before and after. */
  datatype Returned = Returned(line: string, max: nat, begun: nat, ended: nat)

  /** The ring and the editor, the size and start of the read in progress, and the history. */
  datatype State = State(ring: seq<Byte>, input: Input, max: nat, begun: nat,
                         accepted: seq<Byte>, consumed: seq<Byte>, lines: seq<Returned>)

  datatype Event = Key(b: Byte) | Handle | Begin(size: nat) | Take

  predicate Enabled(s: State, e: Event) {
    match e
    case Key(b) => |s.ring| < SIZE
    case Handle => s.ring != []
    case Begin(size) => s.input == Idle && size > 0
    case Take => s.input.Done?
  }

  function Apply(s: State, e: Event): State
    requires Enabled(s, e)
  {
    match e
    case Key(b) => s.(ring := s.ring + [b], accepted := s.accepted + [b])
    case Handle => s.(ring := s.ring[1..], input := Edit(s.input, s.ring[0] as char),
                      consumed := s.consumed + [s.ring[0]])
    case Begin(size) => s.(input := Editing([], size), max := size, begun := |s.consumed|)
    case Take => s.(input := Idle, lines := s.lines + [Returned(s.input.line, s.max, s.begun, |s.consumed|)])
  }

  const START := State([], Idle, 0, 0, [], [], [])

  ghost predicate IsRun(events: seq<Event>, run: seq<State>) {
    && |run| == |events| + 1 && run[0] == START
    && forall i :: 0 <= i < |events| ==> Enabled(run[i], events[i]) && run[i + 1] == Apply(run[i], events[i])
  }

  /** What can be done to the two: a clock tick with what the keyboard then gives, a pass of the handler, a call of
      read_line, a turn of its waiting loop. */
  datatype Stimulus = Clock(input: Option<int>) | Interrupt | ReadLine(size: nat) | Wait

  /** The state shows the ring and the editor. */
  ghost predicate Shows(s: State, uart: JtagUart, console: Console)
    reads uart, uart.rx, console, console.inputBuf
  {
    uart.Ready() && console.Valid() && s.ring == uart.Contents() && s.input == console.State()
  }

  /** Whatever is done, the event that happens, if any, is enabled and has its effect. */
  method Respond(uart: JtagUart, console: Console, stimulus: Stimulus, ghost s: State) returns (ghost e: Option<Event>)
    requires Shows(s, uart, console)
    modifies uart, uart.rx, console, console.inputBuf
    ensures console.inputBuf == null || console.inputBuf == old(console.inputBuf) || fresh(console.inputBuf)
    ensures e.Some? ==> Enabled(s, e.value)
    ensures Shows(if e.Some? then Apply(s, e.value) else s, uart, console)
  {
    e := None;
    match stimulus {
      case Clock(input) =>
        var polled := uart.Tick(input);
        if polled && input.Some? {
          e := Some(Key(input.value % 256));
        }
      case Interrupt =>
        var more; ghost var taken;
        more, taken := console.HandleOne(uart);
        if taken != [] {
          e := Some(Handle);
          assert Text(taken)[..0] == [];
        }
      case ReadLine(size) =>
        if console.inputBuf == null {
          var buf := new char[size];
          console.BeginLine(buf, size);
          if size > 0 {
            e := Some(Begin(size));
          }
        }
      case Wait =>
        var finished := console.TakeLine();
        if finished {
          e := Some(Take);
        }
    }
  }

  method Drive(uart: JtagUart, console: Console, stimuli: seq<Stimulus>)
    returns (ghost events: seq<Event>, ghost run: seq<State>)
    requires Shows(START, uart, console)
    modifies uart, uart.rx, console
    ensures IsRun(events, run) && Shows(run[|events|], uart, console)
  {
    events, run := [], [START];
    for i := 0 to |stimuli|
      invariant console.inputBuf == null || fresh(console.inputBuf)
      invariant IsRun(events, run) && Shows(run[|events|], uart, console)
    {
      ghost var s := run[|events|];
      ghost var e := Respond(uart, console, stimuli[i], s);
      if e.Some? {
        events, run := events + [e.value], run + [Apply(s, e.value)];
      }
    }
  }

  /** The keys consumed from a point on. */
  function Since(consumed: seq<Byte>, begun: nat): string
    requires begun <= |consumed|
  {
    Text(consumed[begun..])
  }

  /** A returned line is what the keys up to the first newline make. */
  ghost predicate LineOk(consumed: seq<Byte>, r: Returned) {
    && 0 < r.max && r.begun <= r.ended <= |consumed|
    && exists n :: 0 <= n < r.ended - r.begun && IsLine(Text(consumed[r.begun..r.ended]), n, r.max, r.line)
  }

  predicate IsLine(keys: string, n: nat, max: nat, line: string)
    requires n < |keys|
  {
    keys[n] == '\n' && '\n' !in keys[..n] && line == Typed(max, keys[..n])
  }

  ghost predicate Inv(s: State) {
    && s.accepted == s.consumed + s.ring
    && |s.ring| <= SIZE
    && s.begun <= |s.consumed|
    && (s.input != Idle ==> s.max > 0 && s.input == EditAll(Editing([], s.max), Since(s.consumed, s.begun)))
    && forall i :: 0 <= i < |s.lines| ==> LineOk(s.consumed, s.lines[i])
  }

  /** A finished line has its newline. */
  lemma {:induction false} DoneHasNewline(max: nat, keys: string)
    requires EditAll(Editing([], max), keys).Done?
    ensures exists n :: 0 <= n < |keys| && IsLine(keys, n, max, EditAll(Editing([], max), keys).line)
  {
    EditAllIsTyped(max, keys);
    var n := FirstNewline(keys);
    assert IsLine(keys, n, max, EditAll(Editing([], max), keys).line);
  }

  function FirstNewline(keys: string): (n: nat)
    requires '\n' in keys
    ensures n < |keys| && keys[n] == '\n' && '\n' !in keys[..n]
  {
    if keys[0] == '\n' then 0
    else
      var n := 1 + FirstNewline(keys[1..]);
      assert keys[..n] == [keys[0]] + keys[1..][..n - 1];
      n
  }

  lemma ApplyKeepsInv(s: State, e: Event)
    requires Inv(s) && Enabled(s, e)
    ensures Inv(Apply(s, e))
  {
    var s' := Apply(s, e);
    match e
    case Key(b) =>
    case Handle =>
      assert s.ring == [s.ring[0]] + s.ring[1..];
      HandleKeepsInput(s, s.ring[0]);
      HandleKeepsLines(s, s.ring[0]);
    case Begin(size) =>
      assert s.consumed[|s.consumed|..] == [];
    case Take =>
      var keys := Since(s.consumed, s.begun);
      DoneHasNewline(s.max, keys);
      var r := s'.lines[|s.lines|];
      assert s.consumed[s.begun..] == s.consumed[r.begun..r.ended];
      assert LineOk(s.consumed, r);
  }

  lemma HandleKeepsInput(s: State, b: Byte)
    requires s.begun <= |s.consumed|
    requires s.input == EditAll(Editing([], s.max), Since(s.consumed, s.begun)) || s.input == Idle
    ensures Edit(Idle, b as char) == Idle
    ensures s.input != Idle ==>
              Edit(s.input, b as char) == EditAll(Editing([], s.max), Since(s.consumed + [b], s.begun))
  {
    var keys, keys' := Since(s.consumed, s.begun), Since(s.consumed + [b], s.begun);
    assert (s.consumed + [b])[s.begun..] == s.consumed[s.begun..] + [b];
    assert keys' == keys + [b as char] && keys'[..|keys|] == keys;
  }

  lemma HandleKeepsLines(s: State, b: Byte)
    requires forall i :: 0 <= i < |s.lines| ==> LineOk(s.consumed, s.lines[i])
    ensures forall i :: 0 <= i < |s.lines| ==> LineOk(s.consumed + [b], s.lines[i])
  {
    forall i | 0 <= i < |s.lines|
      ensures LineOk(s.consumed + [b], s.lines[i])
    {
      var r := s.lines[i];
      assert LineOk(s.consumed, r);
      assert (s.consumed + [b])[r.begun..r.ended] == s.consumed[r.begun..r.ended];
    }
  }

  lemma {:induction false} RunKeepsInv(events: seq<Event>, run: seq<State>, i: nat)
    requires IsRun(events, run) && i < |run|
    ensures Inv(run[i])
  {
    if i > 0 {
      RunKeepsInv(events, run, i - 1);
      ApplyKeepsInv(run[i - 1], events[i - 1]);
    }
  }

  /** In every run the keys that the port took are those consumed and then those in the ring, in order: nothing
      is lost or doubled. Every line returned by read_line is what the keys consumed between its call and the
      first newline after it make, is printable, and fits the buffer with its NUL; keys consumed while no line
      is being read, or after the newline, leave no trace. */
  lemma LinesAreTyped(events: seq<Event>, run: seq<State>, i: nat, k: nat) returns (n: nat)
    requires IsRun(events, run) && i < |run| && k < |run[i].lines|
    ensures run[i].accepted == run[i].consumed + run[i].ring
    ensures var r := run[i].lines[k];
            && r.begun + n < r.ended <= |run[i].consumed|
            && run[i].consumed[r.begun + n] == '\n' as int
            && '\n' as int !in run[i].consumed[r.begun..r.begun + n]
            && r.line == Typed(r.max, Text(run[i].consumed[r.begun..r.begun + n]))
            && |r.line| < r.max && forall j :: 0 <= j < |r.line| ==> 0x20 <= r.line[j] as int <= 0x7e
  {
    RunKeepsInv(events, run, i);
    n := LineFromKeys(run[i].consumed, run[i].lines[k]);
  }

  lemma LineFromKeys(consumed: seq<Byte>, r: Returned) returns (n: nat)
    requires LineOk(consumed, r)
    ensures r.begun + n < r.ended <= |consumed|
    ensures consumed[r.begun + n] == '\n' as int && '\n' as int !in consumed[r.begun..r.begun + n]
    ensures r.line == Typed(r.max, Text(consumed[r.begun..r.begun + n]))
    ensures |r.line| < r.max && forall j :: 0 <= j < |r.line| ==> 0x20 <= r.line[j] as int <= 0x7e
  {
    var keys := Text(consumed[r.begun..r.ended]);
    n :| 0 <= n < r.ended - r.begun && IsLine(keys, n, r.max, r.line);
    var typed := consumed[r.begun..r.begun + n];
    var text := keys[..n];
    assert text == Text(typed);
    assert forall j :: 0 <= j < n ==> typed[j] as char == text[j] && text[j] in text;
    TypedFits(r.max, text);
  }

  /** So when the keys before the newline are codes 0x20 to 0x7e, the line returned is exactly those characters, as far
      as they fit. */
  lemma PlainLinesAreReturned(events: seq<Event>, run: seq<State>, i: nat, k: nat) returns (n: nat)
    requires IsRun(events, run) && i < |run| && k < |run[i].lines|
    ensures var r := run[i].lines[k];
            && 0 < r.max && r.begun + n < |run[i].consumed| && run[i].consumed[r.begun + n] == 0x0a
            && (forall j :: r.begun <= j < r.begun + n ==> run[i].consumed[j] != 0x0a)
            && var typed := run[i].consumed[r.begun..r.begun + n];
               (forall j :: 0 <= j < n ==> 0x20 <= typed[j] <= 0x7e) ==>
                 r.line == if n < r.max then Text(typed) else Text(typed)[..r.max - 1]
  {
    n := LinesAreTyped(events, run, i, k);
    PlainLine(run[i].consumed, run[i].lines[k], n);
  }

  lemma PlainLine(consumed: seq<Byte>, r: Returned, n: nat)
    requires r.begun + n < |consumed| && 0 < r.max && 0x0a !in consumed[r.begun..r.begun + n]
    requires r.line == Typed(r.max, Text(consumed[r.begun..r.begun + n]))
    ensures forall j :: r.begun <= j < r.begun + n ==> consumed[j] != 0x0a
    ensures var typed := consumed[r.begun..r.begun + n];
            (forall j :: 0 <= j < n ==> 0x20 <= typed[j] <= 0x7e) ==>
              r.line == if n < r.max then Text(typed) else Text(typed)[..r.max - 1]
  {
    var typed := consumed[r.begun..r.begun + n];
    assert forall j :: r.begun <= j < r.begun + n ==> typed[j - r.begun] == consumed[j];
    assert forall j :: r.begun <= j < r.begun + n ==> consumed[j] in typed;
    if forall j :: 0 <= j < n ==> 0x20 <= typed[j] <= 0x7e {
      PlainText(r.max, Text(typed));
    }
  }
}
