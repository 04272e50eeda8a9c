/** The bridge from the simulated bus to a device in the design (tb/top/conspiracion/sim_slave.cpp), driven by the
    interconnect on both clock edges (tb/top/conspiracion/avalon.impl.hpp). */
module SimSlaves {
  import opened Options

  datatype Op = Read(addr: int) | Write(addr: int, data: int)

  /** The wires to the device and the latch. */
  datatype Slave = Slave(read: bool, write: bool, address: int, writedata: int, latch: bool, latchReaddata: int)

  /** The transfer that the device sees asked for. */
  function Driven(s: Slave): Option<Op> {
    if s.read then Some(Read(s.address)) else if s.write then Some(Write(s.address, s.writedata)) else None
  }

  function Tick(s: Slave): Slave {
    if s.latch then s.(read := false, write := false) else s
  }

  function TickFalling(s: Slave, wait: bool, readdata: int): Slave {
    if (s.read || s.write) && !wait then s.(latch := true, latchReaddata := readdata) else s
  }

  /** A call of read or write; the result is the read data, once there. */
  function Access(s: Slave, op: Op): (Slave, Option<int>) {
    if s.latch then (s.(latch := false), Some(s.latchReaddata))
    else if !s.read && !s.write then
      (match op
       case Read(a) => s.(read := true, address := a)
       case Write(a, d) => s.(write := true, address := a, writedata := d), None)
    else (s, None)
  }

  /** The wires of the device. */
  class Device {
    var avlRead: bool
    var avlWrite: bool
    var avlAddress: int
    var avlWritedata: int
    var avlWaitrequest: bool
    var avlReaddata: int
  }

  class SimSlave {
    const dev: Device
    var latch: bool
    var latchReaddata: int

    ghost function State(): Slave
      reads this, dev
    {
      Slave(dev.avlRead, dev.avlWrite, dev.avlAddress, dev.avlWritedata, latch, latchReaddata)
    }

    constructor (dev: Device)
      modifies dev
      ensures this.dev == dev && Driven(State()) == None && !State().latch
    {
      this.dev := dev;
      latch, latchReaddata := false, 0;
      new;
      dev.avlRead := false;
      dev.avlWrite := false;
    }

    method DoTick()
      modifies dev`avlRead, dev`avlWrite
      ensures State() == Tick(old(State()))
    {
      if latch {
        dev.avlRead := false;
        dev.avlWrite := false;
      }
    }

    method DoTickFalling()
      modifies this
      ensures State() == TickFalling(old(State()), dev.avlWaitrequest, dev.avlReaddata)
    {
      if (dev.avlRead || dev.avlWrite) && !dev.avlWaitrequest {
        latch := true;
        latchReaddata := dev.avlReaddata;
      }
    }

    method DoRead(addr: int) returns (done: bool, data: int)
      modifies this`latch, dev`avlRead, dev`avlAddress
      ensures (State(), if done then Some(data) else None) == Access(old(State()), Read(addr))
      ensures !done ==> data == 0
    {
      data := 0;
      if latch {
        data := latchReaddata;
        latch := false;
        return true, data;
      } else if !dev.avlRead && !dev.avlWrite {
        dev.avlRead := true;
        dev.avlAddress := addr;
      }
      return false, data;
    }

    method DoWrite(addr: int, data: int) returns (done: bool)
      modifies this`latch, dev`avlWrite, dev`avlAddress, dev`avlWritedata
      ensures State() == Access(old(State()), Write(addr, data)).0
      ensures done <==> Access(old(State()), Write(addr, data)).1.Some?
    {
      if latch {
        latch := false;
        return true;
      } else if !dev.avlRead && !dev.avlWrite {
        dev.avlWrite := true;
        dev.avlAddress := addr;
        dev.avlWritedata := data;
      }
      return false;
    }
  }
}

/** Runs of the bus with one such bridge on it, next to other slaves. */
module SimSlaveRuns {
  import opened Options
  import opened SimSlaves

  /** What the masters ask for: a transfer with the device, or one with some other slave. */
  datatype Request = Mine(op: Op) | Other

  /** A transfer, with the data if it is a read. */
  datatype Transfer = Transfer(op: Op, data: Option<int>)

  function TransferOf(op: Op, data: int): Transfer { Transfer(op, if op.Read? then Some(data) else None) }

  /** What the device answers on one edge. */
  datatype Answer = Answer(wait: bool, readdata: int)

  /** One clock cycle of the rest of the world: what the device answers at the falling and at the rising edge, the
      next request of the masters, and whether another slave is done. */
  datatype Inputs = Inputs(falling: Answer, rising: Answer, request: Option<Request>, otherDone: bool)

  /** The bus between a rising and a falling edge, and the history: the transfers that the device accepted, and
      those that were reported back to the masters. */
  datatype State = State(slave: Slave, active: Option<Request>, wait: bool, readdata: int,
                         accepted: seq<Transfer>, completed: seq<Transfer>)

  /** The falling edge: the bridge looks at the device, the interconnect lets go of a transfer that is done. */
  function Falling(s: State, i: Inputs): State {
    var slave := TickFalling(s.slave, i.falling.wait, i.falling.readdata);
    if s.wait then s.(slave := slave)
    else if s.active.Some? && s.active.value.Mine? then
      s.(slave := slave, active := None, completed := s.completed + [TransferOf(s.active.value.op, s.readdata)])
    else s.(slave := slave, active := None)
  }

  /** The device's own rising edge. */
  function Clock(s: State, i: Inputs): State {
    match Driven(s.slave)
    case None => s
    case Some(op) =>
      if i.rising.wait then s else s.(accepted := s.accepted + [TransferOf(op, i.rising.readdata)])
  }

  /** The rising edge: the interconnect takes the next request if it has none, and asks the slave. */
  function Rising(s: State, i: Inputs): State {
    var slave := Tick(s.slave);
    var active := if s.active == None then i.request else s.active;
    match active
    case None => s.(slave := slave)
    case Some(Other) => s.(slave := slave, active := active, wait := !i.otherDone)
    case Some(Mine(op)) =>
      var (slave', data) := Access(slave, op);
      s.(slave := slave', active := active, wait := data == None,
         readdata := if op.Read? && data.Some? then data.value else 0)
  }

  /** The interconnect, as far as the bridge and the choice between it and the others go. */
  class Interconnect {
    const slave: SimSlave
    var active: Option<Request>
    var wait: bool
    var readdata: int
    ghost var completed: seq<Transfer>

    ghost function At(accepted: seq<Transfer>): State
      reads this, slave, slave.dev
    {
      State(slave.State(), active, wait, readdata, accepted, completed)
    }

    constructor (slave: SimSlave)
      ensures this.slave == slave && active == None && completed == []
    {
      this.slave := slave;
      active, wait, readdata, completed := None, false, 0, [];
    }

    method DoTickFalling(ghost i: Inputs)
      requires i.falling == Answer(slave.dev.avlWaitrequest, slave.dev.avlReaddata)
      modifies this, slave
      ensures forall accepted :: At(accepted) == Falling(old(At(accepted)), i)
    {
      slave.DoTickFalling();
      if !wait {
        match active {
          case Some(Mine(op)) => completed := completed + [TransferOf(op, readdata)];
          case _ =>
        }
        active := None;
      }
    }

    method DoTickRising(request: Option<Request>, otherDone: bool, ghost i: Inputs)
      requires i.request == request && i.otherDone == otherDone
      modifies this, slave, slave.dev`avlRead, slave.dev`avlWrite, slave.dev`avlAddress, slave.dev`avlWritedata
      ensures forall accepted :: At(accepted) == Rising(old(At(accepted)), i)
    {
      slave.DoTick();
      if active == None {
        active := request;
      }
      match active {
        case None =>
        case Some(Other) => wait := !otherDone;
        case Some(Mine(Read(a))) =>
          var done, data := slave.DoRead(a);
          wait := !done;
          readdata := data;
        case Some(Mine(Write(a, d))) =>
          var done := slave.DoWrite(a, d);
          wait := !done;
          readdata := 0;
      }
    }
  }

  function Cycle(s: State, i: Inputs): State {
    Rising(Clock(Falling(s, i), i), i)
  }

  ghost predicate IsRun(inputs: seq<Inputs>, run: seq<State>) {
    && |run| == |inputs| + 1
    && run[0].active == None && run[0].accepted == [] && run[0].completed == []
    && Driven(run[0].slave) == None && !run[0].slave.latch
    && forall i :: 0 <= i < |inputs| ==> run[i + 1] == Cycle(run[i], inputs[i])
  }

  /** The device is asked for exactly the transfer in progress. */
  ghost predicate Inv(s: State) {
    && !s.slave.latch && !(s.slave.read && s.slave.write)
    && (match s.active
        case Some(Mine(op)) =>
          if s.wait then Driven(s.slave) == Some(op) && s.accepted == s.completed
          else Driven(s.slave) == None && s.accepted == s.completed + [TransferOf(op, s.readdata)]
        case _ => Driven(s.slave) == None && s.accepted == s.completed)
  }

  /** The device is asked for a transfer. */
  predicate Asked(s: State) {
    s.wait && s.active.Some? && s.active.value.Mine?
  }

  /** If the device is asked, it does not change its mind between the edges of this cycle: it waits on both or on
      none, and the data that it gives with a read are the same. */
  predicate Stable(s: State, i: Inputs) {
    Asked(s) ==>
      && i.falling.wait == i.rising.wait
      && (!i.rising.wait && s.active.value.op.Read? ==> i.falling.readdata == i.rising.readdata)
  }

  /** The exact condition, cycle by cycle: the bookkeeping stays right if and only if the device is stable while it
      is asked. */
  lemma CycleKeepsInv(s: State, i: Inputs)
    requires Inv(s)
    ensures Inv(Cycle(s, i)) <==> Stable(s, i)
  {
    UnstableIsSeen(s, i);
  }

  /** What the device accepted is what was reported to the masters, and one transfer more exactly while that one is
      done and not yet reported. */
  ghost predicate AcceptedOnce(s: State) {
    s.accepted == s.completed
                  + match s.active
                    case Some(Mine(op)) => if s.wait then [] else [TransferOf(op, s.readdata)]
                    case _ => []
  }

  lemma UnstableIsSeen(s: State, i: Inputs)
    requires Inv(s)
    ensures AcceptedOnce(Cycle(s, i)) <==> Stable(s, i)
  {
    if Asked(s) && !i.falling.wait && !i.rising.wait {
      var op := s.active.value.op;
      LastCounts(s.accepted, TransferOf(op, i.rising.readdata), TransferOf(op, i.falling.readdata));
    }
  }

  lemma LastCounts(a: seq<Transfer>, x: Transfer, y: Transfer)
    ensures a + [x] == a + [y] <==> x == y
  {
    assert (a + [x])[|a|] == x && (a + [y])[|a|] == y;
  }

  lemma {:induction false} RunKeepsInv(inputs: seq<Inputs>, run: seq<State>, n: nat)
    requires IsRun(inputs, run) && n < |run| && forall i :: 0 <= i < n ==> Stable(run[i], inputs[i])
    ensures Inv(run[n])
  {
    if n > 0 {
      RunKeepsInv(inputs, run, n - 1);
      assert run[n - 1 + 1] == Cycle(run[n - 1], inputs[n - 1]);
      CycleKeepsInv(run[n - 1], inputs[n - 1]);
    }
  }

  /** Whatever the wait states: all along a run, every transfer reported to the masters was accepted by the device on
      exactly one edge, in the same order, with the same address and data, and a read got what the device gave on
      that edge, if and only if the device was stable on each cycle on which it was asked. What it does on other
      cycles does not matter. */
  lemma {:induction false} AcceptedOnceIffStable(inputs: seq<Inputs>, run: seq<State>, n: nat)
    requires IsRun(inputs, run) && n < |run|
    ensures (forall i :: 0 <= i <= n ==> AcceptedOnce(run[i]))
            <==> (forall i :: 0 <= i < n ==> Stable(run[i], inputs[i]))
  {
    if n > 0 {
      AcceptedOnceIffStable(inputs, run, n - 1);
      if forall i :: 0 <= i < n - 1 ==> Stable(run[i], inputs[i]) {
        RunKeepsInv(inputs, run, n - 1);
        assert run[n - 1 + 1] == Cycle(run[n - 1], inputs[n - 1]);
        UnstableIsSeen(run[n - 1], inputs[n - 1]);
      }
    }
  }

  /** A transfer in progress stays in progress while the device waits, is accepted on the first edge on which it
      does not, and is reported on the next. */
  lemma Progress(s: State, i: Inputs, next: Inputs, op: Op)
    requires Inv(s) && Stable(s, i) && s.active == Some(Mine(op)) && s.wait
    ensures i.rising.wait ==> Cycle(s, i) == s.(readdata := 0)
    ensures !i.rising.wait ==>
              && Cycle(s, i).accepted == s.accepted + [TransferOf(op, i.rising.readdata)]
              && Cycle(s, i).completed == s.completed
              && !Cycle(s, i).wait
              && Cycle(Cycle(s, i), next).completed == s.completed + [TransferOf(op, i.rising.readdata)]
  {
  }

  /** A request for the device reaches it on the next cycle, if the bus is free. */
  lemma Starts(s: State, i: Inputs, op: Op)
    requires Inv(s) && (s.active == None || !s.wait) && i.request == Some(Mine(op))
    ensures Cycle(s, i).active == Some(Mine(op)) && Cycle(s, i).wait && Driven(Cycle(s, i).slave) == Some(op)
  {
  }

  /** One way to fail: a device that withdraws its wait between the edges is asked again, and accepts one transfer
      twice. */
  lemma AcceptedTwice(s: State, op: Op)
    requires Inv(s) && s.active == Some(Mine(op)) && s.wait
    ensures var once := Cycle(s, Inputs(Answer(true, 0), Answer(false, 1), None, false));
            var twice := Cycle(once, Inputs(Answer(false, 2), Answer(false, 2), None, false));
            && twice.accepted == s.accepted + [TransferOf(op, 1), TransferOf(op, 2)]
            && Cycle(twice, Inputs(Answer(true, 0), Answer(true, 0), None, false)).completed
               == s.completed + [TransferOf(op, 2)]
  {
  }
}
