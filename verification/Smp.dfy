/** Starting and halting CPUs through the control register (demo/smp.c), whose lanes are those of
    rtl/smp/smp_pe.sv. A word is the set of its bits that are one, eight bits to a CPU. */
module Smp {
  const NUM_CPUS := 4

  type Bits = set<nat>

  /** Bits of a lane as read, and as written. */
  const HALTED := 0
  const ALIVE := 2
  const RUN := 0
  const HALT := 1
  const STEP := 2

  predicate Has(word: Bits, cpu: nat, bit: nat) { 8 * cpu + bit in word }

  /** Setting a bit: 1 << bit << 8 * cpu. */
  function With(word: Bits, cpu: nat, bit: nat): (r: Bits)
    requires bit < 8
    ensures forall i: nat, b: nat :: b < 8 ==> (Has(r, i, b) <==> Has(word, i, b) || (i == cpu && b == bit))
  {
    word + {8 * cpu + bit}
  }

  /** What one clock edge with a write does to a lane that is at no breakpoint. */
  function Lane(halt: bool, word: Bits, cpu: nat): bool {
    (halt || Has(word, cpu, HALT)) && !(Has(word, cpu, RUN) || Has(word, cpu, STEP))
  }

  class SmpCtrl {
    const halt: array<bool>
    const alive: seq<bool>

    ghost predicate Valid() {
      halt.Length == NUM_CPUS && |alive| == NUM_CPUS
    }

    /** Only the boot processor runs out of reset. */
    constructor (alive: seq<bool>)
      requires |alive| == NUM_CPUS
      ensures Valid() && this.alive == alive && fresh(halt) && halt[..] == [false, true, true, true]
    {
      this.alive := alive;
      halt := new bool[NUM_CPUS](i => i != 0);
    }

    method Read() returns (word: Bits)
      requires Valid()
      ensures forall i: nat :: i < NUM_CPUS ==>
                (Has(word, i, HALTED) <==> halt[i]) && (Has(word, i, ALIVE) <==> alive[i])
      ensures forall i: nat :: i < 4 ==> (8 * i in word <==> halt[i]) && (8 * i + 2 in word <==> alive[i])
    {
      word := {};
      for i := 0 to NUM_CPUS
        invariant forall j: nat :: j < i ==>
                    (Has(word, j, HALTED) <==> halt[j]) && (Has(word, j, ALIVE) <==> alive[j])
        invariant forall j: nat, b: nat :: i <= j && b < 8 ==> !Has(word, j, b)
      {
        if halt[i] {
          word := With(word, i, HALTED);
        }
        if alive[i] {
          word := With(word, i, ALIVE);
        }
      }
    }

    method Write(word: Bits)
      requires Valid()
      modifies halt
      ensures forall i: nat :: i < NUM_CPUS ==> halt[i] == Lane(old(halt[i]), word, i)
      ensures forall i: nat :: i < 4 ==>
                halt[i] == ((old(halt[i]) || 8 * i + 1 in word) && !(8 * i in word || 8 * i + 2 in word))
    {
      for i := 0 to NUM_CPUS
        invariant forall j: nat :: j < NUM_CPUS ==>
                    halt[j] == if j < i then Lane(old(halt[j]), word, j) else old(halt[j])
      {
        halt[i] := Lane(halt[i], word, i);
      }
    }

    method CpuIsAlive(num: nat) returns (r: bool)
      requires Valid() && num < NUM_CPUS
      ensures r == alive[num]
    {
      var word := Read();
      r := Has(word, num, ALIVE);
    }

    /** Exactly the CPUs in the mask are started; those that ran already, and all others, are left as they are. */
    method RunCpus(mask: Bits)
      requires Valid()
      modifies halt
      ensures forall i: nat :: i < NUM_CPUS ==> halt[i] == (old(halt[i]) && i !in mask)
    {
      var ctrlWord: Bits := {};
      var ctrlRead := Read();
      for cpu := 0 to NUM_CPUS
        invariant forall i: nat :: i < NUM_CPUS ==>
                    && (Has(ctrlWord, i, RUN) <==> i < cpu && i in mask && Has(ctrlRead, i, HALTED))
                    && !Has(ctrlWord, i, HALT) && !Has(ctrlWord, i, STEP)
      {
        if cpu !in mask {
          continue;
        }
        if Has(ctrlRead, cpu, HALTED) {
          ctrlWord := With(ctrlWord, cpu, RUN);
        }
      }
      Write(ctrlWord);
    }

    /** Exactly the CPUs in the mask are halted. */
    method HaltCpus(mask: Bits)
      requires Valid()
      modifies halt
      ensures forall i: nat :: i < NUM_CPUS ==> halt[i] == (old(halt[i]) || i in mask)
    {
      var ctrlWord: Bits := {};
      var ctrlRead := Read();
      for cpu := 0 to NUM_CPUS
        invariant forall i: nat :: i < NUM_CPUS ==>
                    && (Has(ctrlWord, i, HALT) <==> i < cpu && i in mask && !Has(ctrlRead, i, HALTED))
                    && !Has(ctrlWord, i, RUN) && !Has(ctrlWord, i, STEP)
      {
        if cpu !in mask {
          continue;
        }
        if !Has(ctrlRead, cpu, HALTED) {
          ctrlWord := With(ctrlWord, cpu, HALT);
        }
      }
      Write(ctrlWord);
    }
  
    method RunCpu(num: nat)
      requires Valid()
      modifies halt
      ensures forall i: nat :: i < NUM_CPUS ==> halt[i] == (old(halt[i]) && i != num)
    {
      RunCpus({num});
    }

    /** kick_cpus of demo/main.c, with boot_done as its result: if some CPU after num is alive, exactly the first of
        them is started; otherwise nothing is, and the boot is done. */
    method KickCpus(num: nat) returns (bootDone: bool)
      requires Valid()
      modifies halt
      ensures bootDone <==> forall i :: num < i < NUM_CPUS ==> !alive[i]
      ensures bootDone ==> halt[..] == old(halt[..])
      ensures !bootDone ==>
                exists first :: num < first < NUM_CPUS && alive[first] && (forall i :: num < i < first ==> !alive[i])
                  && forall i: nat :: i < NUM_CPUS ==> halt[i] == (old(halt[i]) && i != first)
    {
      var i := num + 1;
      while i < NUM_CPUS
        invariant num < i && forall j :: num < j < i && j < NUM_CPUS ==> !alive[j]
        invariant halt[..] == old(halt[..])
      {
        var isAlive := CpuIsAlive(i);
        if isAlive {
          RunCpu(i);
          return false;
        }
        i := i + 1;
      }
      return true;
    }
  }
}
