/** The receive side of the serial port (tb/top/conspiracion/jtag_uart.cpp): a ring buffer of 64 bytes. */
module Uart {
  import opened Options
  import opened Powers

  const SIZE := 64
  const COUNTDOWN := 10000

  type Byte = x: int | 0 <= x < 256

  /** Fields of the data register. */
  function Avail(data: nat): nat { data / 0x10000 }
  predicate Valid(data: nat) { data / 0x8000 % 2 == 1 }
  function Data(data: nat): Byte { data % 0x100 }

  lemma DataFields(avail: nat, valid: bool, read: Byte)
    ensures var data := avail * 0x10000 + (if valid then 0x8000 else 0) + read;
            Avail(data) == avail && Valid(data) == valid && Data(data) == read
  {
    var flag := if valid then 1 else 0;
    var data := avail * 0x10000 + flag * 0x8000 + read;
    DivUnique(data, 0x10000, avail);
    DivUnique(data, 0x8000, 2 * avail + flag);
    DivUnique(data, 0x100, 0x100 * avail + 0x80 * flag);
  }

  /** The slot i places after next. */
  function Slot(next: nat, i: nat): nat
    requires next < SIZE && i <= SIZE
    ensures Slot(next, i) < SIZE
  {
    if next + i >= SIZE then next + i - SIZE else next + i
  }

  class JtagUart {
    var countdown: nat
    var rxAvail: nat
    var rxNext: nat
    var ctrlAc: bool
    var tookOver: bool
    const rx: array<Byte>

    ghost predicate Ready()
      reads this
    {
      rx.Length == SIZE && rxAvail <= SIZE && rxNext < SIZE
    }

    /** The bytes in the ring, oldest first. */
    ghost function Contents(): (s: seq<Byte>)
      requires Ready()
      reads this, rx
      ensures |s| == rxAvail
    {
      seq<Byte>(rxAvail, i requires 0 <= i < rxAvail reads this, rx requires Ready() => rx[Slot(rxNext, i)])
    }

    constructor ()
      ensures Ready() && fresh(rx) && Contents() == []
      ensures countdown == 0 && !tookOver && ctrlAc
    {
      rx := new Byte[SIZE];
      countdown, rxAvail, rxNext := 0, 0, 0;
      ctrlAc, tookOver := true, false;
    }

    /** One clock tick. Every so often the keyboard is polled, and what it gives is added to the ring; a full
        ring leaves it alone. */
    method Tick(input: Option<int>) returns (polled: bool)
      requires Ready()
      modifies this`countdown, this`rxAvail, this`ctrlAc, rx
      ensures Ready()
      ensures polled <==> old(tookOver && |Contents()| < 64 && countdown == 0)
      ensures Contents() == if polled && input.Some? then old(Contents()) + [input.value % 256] else old(Contents())
      ensures countdown == if polled then 10000
                           else if tookOver && |Contents()| < 64 then old(countdown) - 1 else old(countdown)
      ensures ctrlAc == (old(ctrlAc) || polled)
    {
      if !tookOver || rxAvail == SIZE {
        return false;
      }
      if countdown > 0 {
        countdown := countdown - 1;
        return false;
      }
      polled := true;
      countdown := COUNTDOWN;
      if input.Some? {
        var index := rxNext + rxAvail;
        if index >= SIZE {
          index := index - SIZE;
        }
        rx[index] := input.value % 256;
        rxAvail := rxAvail + 1;
      }
      ctrlAc := true;
    }

    /** A read of the data register takes the oldest byte out of the ring, if there is one. */
    method ReadData() returns (data: nat)
      requires Ready()
      modifies this`rxAvail, this`rxNext
      ensures Ready()
      ensures Valid(data) <==> old(Contents()) != []
      ensures Valid(data) ==> Data(data) == old(Contents())[0] && Contents() == old(Contents())[1..]
      ensures !Valid(data) ==> Contents() == []
      ensures Avail(data) == |Contents()|
      ensures data / 0x10000 == |Contents()| && (data / 0x8000 % 2 == 1 <==> old(Contents()) != [])
      ensures old(Contents()) != [] ==> data % 0x100 == old(Contents())[0]
    {
      var read := rx[rxNext];
      var validRead := rxAvail > 0;
      if validRead {
        rxAvail := rxAvail - 1;
        rxNext := if rxNext + 1 < SIZE then rxNext + 1 else 0;
      }
      data := rxAvail * 0x10000 + (if validRead then 0x8000 else 0) + read;
      DataFields(rxAvail, validRead, read);
    }
  }
}
