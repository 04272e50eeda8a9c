/** The arbiter between four masters and one memory bus (tb/mem_interconnect.sv). */
module Arbiter {
  const PORTS := 4

  type Index = i: nat | i < PORTS

  /** What a master drives. */
  datatype Request = Request(address: int, read: bool, write: bool, writedata: int, byteenable: int)

  /** What the interconnect sees on one cycle. */
  datatype Inputs = Inputs(ports: seq<Request>, waitrequest: bool)

  /** The two registers. */
  datatype Regs = Regs(lastHold: bool, lastSelect: Index)

  const RESET := Regs(true, 0)

  predicate Wired(i: Inputs) { |i.ports| == PORTS }

  predicate Asks(r: Request) { r.read || r.write }

  /** How many places after `from` master k comes, in the order in which the arbiter looks. */
  function Distance(from: Index, k: Index): nat {
    if k > from then k - from else k + PORTS - from
  }

  /** Round robin, spelled out case by case: the first master after the last one that asks, else the last one. */
  function RoundRobin(last: Index, ports: seq<Request>): (select: Index)
    requires |ports| == PORTS
    ensures forall k: Index :: Asks(ports[k]) ==> Distance(last, select) <= Distance(last, k) && Asks(ports[select])
    ensures !Asks(ports[select]) ==> select == last
  {
    match last
    case 0 => if Asks(ports[1]) then 1 else if Asks(ports[2]) then 2 else if Asks(ports[3]) then 3 else 0
    case 1 => if Asks(ports[2]) then 2 else if Asks(ports[3]) then 3 else if Asks(ports[0]) then 0 else 1
    case 2 => if Asks(ports[3]) then 3 else if Asks(ports[0]) then 0 else if Asks(ports[1]) then 1 else 2
    case 3 => if Asks(ports[0]) then 0 else if Asks(ports[1]) then 1 else if Asks(ports[2]) then 2 else 3
  }

  function Select(r: Regs, i: Inputs): Index
    requires Wired(i)
  {
    if r.lastHold then r.lastSelect else RoundRobin(r.lastSelect, i.ports)
  }

  /** What the memory sees. */
  function Bus(r: Regs, i: Inputs): Request
    requires Wired(i)
  {
    i.ports[Select(r, i)]
  }

  predicate Stalled(r: Regs, i: Inputs)
    requires Wired(i)
  {
    Asks(Bus(r, i)) && i.waitrequest
  }

  function Waitrequest(r: Regs, i: Inputs, k: Index): bool
    requires Wired(i)
  {
    k == Select(r, i) ==> i.waitrequest
  }

  function Latch(r: Regs, i: Inputs): Regs
    requires Wired(i)
  {
    Regs(Stalled(r, i), Select(r, i))
  }

  class MemInterconnect {
    var lastHold: bool
    var lastSelect: Index

    ghost function State(): Regs
      reads this
    {
      Regs(lastHold, lastSelect)
    }

    /** The reset values. */
    constructor ()
      ensures State() == RESET
    {
      lastHold, lastSelect := true, 0;
    }

    /** One clock edge, and what the wires carried before it. */
    method Clock(i: Inputs) returns (bus: Request, waits: seq<bool>)
      requires Wired(i)
      modifies this
      ensures bus == Bus(old(State()), i)
      ensures |waits| == PORTS && forall k: Index :: waits[k] == Waitrequest(old(State()), i, k)
      ensures State() == Latch(old(State()), i)
    {
      var select := RoundRobin(lastSelect, i.ports);
      if lastHold {
        select := lastSelect;
      }
      waits := [true, true, true, true];
      bus := i.ports[select];
      waits := waits[select := i.waitrequest];
      lastHold := (bus.read || bus.write) && i.waitrequest;
      lastSelect := select;
    }
  }

  /** One cycle of a run: the registers and the inputs during it. */
  datatype Cycle = Cycle(regs: Regs, inputs: Inputs)

  ghost predicate IsRun(run: seq<Cycle>) {
    && run != [] && run[0].regs == RESET
    && (forall t :: 0 <= t < |run| ==> Wired(run[t].inputs))
    && (forall t :: 0 <= t < |run| - 1 ==> run[t + 1].regs == Latch(run[t].regs, run[t].inputs))
  }

  predicate StalledAt(c: Cycle) { Wired(c.inputs) && Stalled(c.regs, c.inputs) }

  function SelectAt(c: Cycle): Index
    requires Wired(c.inputs)
  {
    Select(c.regs, c.inputs)
  }

  /** A master's request is taken: it asks and does not see waitrequest. */
  predicate Taken(c: Cycle, k: Index)
    requires Wired(c.inputs)
  {
    Asks(c.inputs.ports[k]) && !Waitrequest(c.regs, c.inputs, k)
  }

  /** The masters see exactly what the memory does: a master's request is taken on a cycle if and only if the
      memory takes one then and it is that master's; so no request is taken twice or by a master's neighbour. */
  lemma TakenByMemory(r: Regs, i: Inputs, k: Index)
    requires Wired(i)
    ensures Taken(Cycle(r, i), k) <==> Asks(Bus(r, i)) && !i.waitrequest && Select(r, i) == k
    ensures !Waitrequest(r, i, k) ==> Bus(r, i) == i.ports[k]
    ensures forall j: Index :: Taken(Cycle(r, i), k) && Taken(Cycle(r, i), j) ==> j == k
  {
  }

  /** A stalled transaction is never preempted: as long as the bus stalls the same master stays selected, and if
      that master holds its request, as the bus requires, then the memory sees one and the same request. */
  lemma {:induction false} NotPreempted(run: seq<Cycle>, t: nat, u: nat)
    requires IsRun(run) && t <= u < |run|
    requires forall v :: t <= v < u ==> StalledAt(run[v])
    ensures SelectAt(run[u]) == SelectAt(run[t])
    ensures (forall v :: t <= v <= u ==> run[v].inputs.ports[SelectAt(run[t])] == run[t].inputs.ports[SelectAt(run[t])])
            ==> Bus(run[u].regs, run[u].inputs) == Bus(run[t].regs, run[t].inputs)
  {
    if t < u {
      NotPreempted(run, t, u - 1);
      assert StalledAt(run[u - 1]);
      assert run[u - 1 + 1].regs == Latch(run[u - 1].regs, run[u - 1].inputs);
    }
  }

  /** The cycles on which the bus did not stall. */
  function Unstalled(run: seq<Cycle>): nat {
    if run == [] then 0
    else Unstalled(run[..|run| - 1]) + if StalledAt(run[|run| - 1]) then 0 else 1
  }

  /** How many more cycles without a stall master k may have to let pass. */
  function Turns(r: Regs, k: Index): nat {
    Distance(r.lastSelect, k) - if r.lastHold then 0 else 1
  }

  /** While k asks in vain, the turns before it go down on every cycle without a stall, and never up. */
  lemma TurnsGoDown(r: Regs, i: Inputs, k: Index)
    requires Wired(i) && Asks(i.ports[k]) && Select(r, i) != k
    ensures Turns(r, k) <= 3
    ensures Turns(Latch(r, i), k) + (if Stalled(r, i) then 0 else 1) <= Turns(r, k)
  {
  }

  /** No master starves: one that asks on each of a stretch of cycles and is selected on none of them has let the
      bus go without a stall on at most three of them. */
  lemma {:induction false} NoStarvation(run: seq<Cycle>, t: nat, u: nat, k: Index)
    requires IsRun(run) && t <= u <= |run|
    requires forall v :: t <= v < u ==> Asks(run[v].inputs.ports[k]) && SelectAt(run[v]) != k
    ensures Unstalled(run[t..u]) <= 3
    ensures u < |run| && t < u ==> Unstalled(run[t..u]) + Turns(run[u].regs, k) <= Turns(run[t].regs, k)
  {
    if t < u {
      NoStarvation(run, t, u - 1, k);
      var c := run[u - 1];
      assert run[t..u][..u - t - 1] == run[t..u - 1];
      assert run[t..u][u - t - 1] == c;
      assert Asks(c.inputs.ports[k]) && SelectAt(c) != k;
      TurnsGoDown(c.regs, c.inputs, k);
      TurnsGoDown(run[t].regs, run[t].inputs, k);
    }
  }

  /** The bound is met: three other masters can each take a turn first. */
  lemma ThreeTurnsHappen(other: Request, mine: Request) returns (run: seq<Cycle>)
    requires Asks(other) && Asks(mine)
    ensures IsRun(run) && |run| == 5
    ensures forall v :: 1 <= v < 4 ==> Asks(run[v].inputs.ports[0]) && SelectAt(run[v]) != 0
    ensures Unstalled(run[1..4]) == 3 && SelectAt(run[4]) == 0
  {
    var i := Inputs([mine, other, other, other], false);
    run := [Cycle(RESET, i), Cycle(Regs(false, 0), i), Cycle(Regs(false, 1), i), Cycle(Regs(false, 2), i),
            Cycle(Regs(false, 3), i)];
    var (a, b, c) := (run[1], run[2], run[3]);
    assert run[1..4] == [] + [a] + [b] + [c];
    UnstalledLast([] + [a] + [b], c);
    UnstalledLast([] + [a], b);
    UnstalledLast([], a);
  }

  lemma UnstalledLast(run: seq<Cycle>, c: Cycle)
    ensures Unstalled(run + [c]) == Unstalled(run) + if StalledAt(c) then 0 else 1
  {
    assert (run + [c])[..|run|] == run;
  }
}
