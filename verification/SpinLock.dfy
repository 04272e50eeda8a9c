/** The console spin lock (demo/atomic.S), one step per instruction, on any number of CPUs that interleave
    freely and take interrupts whenever their mask lets them. */
module SpinLock {

  /** What decides a store-exclusive. Exclusive is the monitor of section A2.9 of the ARM Architecture
      Reference Manual (DDI 0100I), which remembers marks; ValueCompare is the one of the repository's own
      cache, which compares the data with what the load-exclusive saw. */
  datatype Monitor = Exclusive | ValueCompare

  /** The interrupt mask bits of the control field of the CPSR. */
  datatype Mask = Mask(i: bool, f: bool)

  const MASKED := Mask(true, true)

  /** The next instruction. Outside is any code that leaves the lock alone, Critical the code between the
      return of spin_lock and the call of spin_unlock, Return the end of the interrupt handler. */
  datatype Pc =
    | Outside
    | LockMrs | LockStr | LockOrr | LockMsr | LockMov
    | LockLdrex | LockTeq | LockStrexeq | LockTeqeq | LockBne | LockRet
    | Critical
    | UnlockMov | UnlockStr | UnlockMsr | UnlockRet
    | Return

  /** The registers of one activation: r2 as a word, r2 as a status, the irq_save variable, and (ghost in
      spirit, read by no step) the mask that spin_lock found. */
  datatype Frame = Frame(pc: Pc, r2: int, status: Mask, irqSave: Mask, found: Mask)

  /** What an interrupt saves: the frame, the Z flag and the mask. */
  datatype Suspended = Suspended(frame: Frame, z: bool, mask: Mask)

  datatype Cpu = Cpu(frame: Frame, z: bool, mask: Mask, stack: seq<Suspended>)

  /** The lock word, and the CPUs whose exclusive mark on it stands. */
  datatype Shared = Shared(lock: int, marks: set<nat>)

  datatype State = State(monitor: Monitor, shared: Shared, cpus: seq<Cpu>)

  /** The frame with its next instruction. */
  function Goto(k: Cpu, pc: Pc): Cpu {
    k.(frame := k.frame.(pc := pc))
  }

  /** May a store-exclusive of CPU c succeed? Either monitor may also let it fail. */
  predicate MayStore(monitor: Monitor, c: nat, w: Shared, k: Cpu) {
    match monitor
    case Exclusive => c in w.marks
    case ValueCompare => w.lock == k.frame.r2
  }

  /** One instruction of CPU c. */
  ghost predicate Instruction(monitor: Monitor, c: nat, w: Shared, k: Cpu, w': Shared, k': Cpu) {
    match k.frame.pc
    case Outside =>
      // Other code runs, possibly changing the mask, or calls spin_lock.
      w' == w && exists m: Mask, z: bool ::
        k' == k.(mask := m, z := z) || k' == Goto(k, LockMrs).(z := z)
    case LockMrs =>
      w' == w && k' == k.(frame := k.frame.(pc := LockStr, status := k.mask, found := k.mask))
    case LockStr =>
      w' == w && k' == k.(frame := k.frame.(pc := LockOrr, irqSave := k.frame.status))
    case LockOrr =>
      w' == w && k' == k.(frame := k.frame.(pc := LockMsr, status := MASKED))
    case LockMsr =>
      w' == w && k' == Goto(k, LockMov).(mask := k.frame.status)
    case LockMov =>
      w' == w && k' == Goto(k, LockLdrex)
    case LockLdrex =>
      w' == w.(marks := w.marks + {c}) && k' == k.(frame := k.frame.(pc := LockTeq, r2 := w.lock))
    case LockTeq =>
      w' == w && k' == Goto(k, LockStrexeq).(z := k.frame.r2 == 0)
    case LockStrexeq =>
      if !k.z then
        w' == w && k' == Goto(k, LockTeqeq)
      else
        || (&& MayStore(monitor, c, w, k)
            && w' == Shared(1, {})
            && k' == k.(frame := k.frame.(pc := LockTeqeq, r2 := 0)))
        || (&& w' == w.(marks := w.marks - {c})
            && k' == k.(frame := k.frame.(pc := LockTeqeq, r2 := 1)))
    case LockTeqeq =>
      w' == w && k' == Goto(k, LockBne).(z := k.z && k.frame.r2 == 0)
    case LockBne =>
      w' == w && k' == Goto(k, if k.z then LockRet else LockLdrex)
    case LockRet =>
      w' == w && k' == Goto(k, Critical)
    case Critical =>
      w' == w && exists z: bool :: k' == k.(z := z) || k' == Goto(k, UnlockMov).(z := z)
    case UnlockMov =>
      w' == w && k' == k.(frame := k.frame.(pc := UnlockStr, r2 := 0))
    case UnlockStr =>
      // A store clears the marks of the others; whether it clears its own is implementation defined.
      w'.lock == k.frame.r2 && (w'.marks == {} || w'.marks == w.marks * {c}) && k' == Goto(k, UnlockMsr)
    case UnlockMsr =>
      w' == w && k' == Goto(k, UnlockRet).(mask := k.frame.irqSave)
    case UnlockRet =>
      w' == w && k' == Goto(k, if k.stack == [] then Outside else Return)
    case Return =>
      && w' == w && k.stack != []
      && var top := k.stack[|k.stack| - 1];
         k' == Cpu(top.frame, top.z, top.mask, k.stack[..|k.stack| - 1])
  }

  /** The frame in which the handler starts: it goes straight to spin_lock. */
  const HANDLER := Frame(LockMrs, 0, MASKED, MASKED, MASKED)

  /** An interrupt is taken between two instructions whenever I is clear. It sets I and leaves F. */
  predicate Interrupt(k: Cpu, k': Cpu) {
    && !k.mask.i
    && k' == Cpu(HANDLER, k.z, Mask(true, k.mask.f), k.stack + [Suspended(k.frame, k.z, k.mask)])
  }

  ghost predicate CpuStep(s: State, s': State, c: nat, k': Cpu)
    requires c < |s.cpus|
  {
    && s'.monitor == s.monitor && s'.cpus == s.cpus[c := k']
    && (|| Instruction(s.monitor, c, s.shared, s.cpus[c], s'.shared, k')
        || (s'.shared == s.shared && Interrupt(s.cpus[c], k')))
  }

  ghost predicate Next(s: State, s': State) {
    exists c: nat, k': Cpu :: c < |s.cpus| && CpuStep(s, s', c, k')
  }

  /** Every CPU outside, in any mask; the lock free, as spin_init leaves it. */
  ghost predicate Init(s: State) {
    && s.shared == Shared(0, {})
    && forall c :: 0 <= c < |s.cpus| ==> s.cpus[c].frame.pc == Outside && s.cpus[c].stack == []
  }

  ghost predicate IsRun(run: seq<State>) {
    && run != [] && Init(run[0])
    && forall i :: 0 <= i < |run| - 1 ==> Next(run[i], run[i + 1])
  }

  /** Between the successful store-exclusive and the releasing store. */
  predicate Holds(k: Cpu) {
    match k.frame.pc
    case LockTeqeq => k.z && k.frame.r2 == 0
    case LockBne => k.z
    case LockRet => true
    case Critical => true
    case UnlockMov => true
    case UnlockStr => true
    case _ => false
  }

  /** From the instruction after `msr` in spin_lock to the `msr` of spin_unlock. */
  predicate MaskedPc(pc: Pc) {
    pc in {LockMov, LockLdrex, LockTeq, LockStrexeq, LockTeqeq, LockBne, LockRet, Critical, UnlockMov,
           UnlockStr, UnlockMsr}
  }

  /** What each CPU keeps by itself. */
  predicate CpuOk(k: Cpu) {
    StackOk(k.stack) && RunningOk(k.frame, k.z, k.mask, k.stack != [])
  }

  /** What an interrupt suspended: at most one frame, outside the masked instructions. */
  predicate StackOk(stack: seq<Suspended>) {
    && |stack| <= 1
    && (forall j :: 0 <= j < |stack| ==> !MaskedPc(stack[j].frame.pc) && FrameOk(stack[j].frame, stack[j].mask))
    && (forall j :: 0 <= j < |stack| ==> !stack[j].mask.i && stack[j].frame.pc != Return)
  }

  predicate RunningOk(f: Frame, z: bool, mask: Mask, handler: bool) {
    && (handler ==> mask.i && f.pc != Outside)
    && FrameOk(f, mask)
    && (MaskedPc(f.pc) ==> mask == MASKED)
    && (f.pc == LockStrexeq ==> z == (f.r2 == 0))
    && (handler ==> f.found.i || f.pc == LockMrs)
    && (f.pc == Return ==> handler)
  }

  /** The mask that spin_lock found travels to irq_save, and from there back to the CPSR. */
  predicate FrameOk(f: Frame, mask: Mask) {
    && (f.pc == LockStr ==> f.status == f.found == mask)
    && (f.pc == LockOrr ==> f.irqSave == f.found == mask)
    && (f.pc == LockMsr ==> f.status == MASKED && f.irqSave == f.found)
    && (MaskedPc(f.pc) ==> f.irqSave == f.found)
    && (f.pc == UnlockStr ==> f.r2 == 0)
    && (f.pc == UnlockRet ==> mask == f.found)
  }

  /** A load-exclusive whose mark still stands saw the present value. */
  predicate LoadOk(s: State, c: nat)
    requires c < |s.cpus|
  {
    s.monitor == Exclusive && c in s.shared.marks && s.cpus[c].frame.pc in {LockTeq, LockStrexeq}
    ==> s.shared.lock == s.cpus[c].frame.r2
  }

  ghost predicate Inv(s: State) {
    && (forall c :: 0 <= c < |s.cpus| ==> CpuOk(s.cpus[c]) && LoadOk(s, c))
    && (s.shared.lock == 0 || s.shared.lock == 1)
    && (s.shared.lock == 0 ==> forall c :: 0 <= c < |s.cpus| ==> !Holds(s.cpus[c]))
    && (s.shared.lock == 1 ==> exists c :: 0 <= c < |s.cpus| && Holds(s.cpus[c]))
    && (forall c, d :: 0 <= c < |s.cpus| && 0 <= d < |s.cpus| && Holds(s.cpus[c]) && Holds(s.cpus[d]) ==> c == d)
  }

  lemma InterruptKeepsCpu(k: Cpu, k': Cpu)
    requires CpuOk(k) && Interrupt(k, k')
    ensures CpuOk(k')
  {
    assert k.stack == [];
    assert k'.stack == [Suspended(k.frame, k.z, k.mask)];
  }

  lemma ReturnKeepsCpu(monitor: Monitor, c: nat, w: Shared, k: Cpu, w': Shared, k': Cpu)
    requires CpuOk(k) && Instruction(monitor, c, w, k, w', k') && k.frame.pc == Return
    ensures CpuOk(k')
  {
    assert k.stack == [k.stack[0]];
  }

  lemma InstructionKeepsCpu(monitor: Monitor, c: nat, w: Shared, k: Cpu, w': Shared, k': Cpu)
    requires CpuOk(k) && Instruction(monitor, c, w, k, w', k') && k.frame.pc != Return
    ensures CpuOk(k')
  {
    assert k'.stack == k.stack;
  }

  lemma CpuKept(s: State, s': State, c: nat, k': Cpu)
    requires Inv(s) && c < |s.cpus| && CpuStep(s, s', c, k')
    ensures CpuOk(k')
  {
    var k := s.cpus[c];
    assert CpuOk(k);
    if s'.shared == s.shared && Interrupt(k, k') {
      InterruptKeepsCpu(k, k');
    } else if k.frame.pc == Return {
      ReturnKeepsCpu(s.monitor, c, s.shared, k, s'.shared, k');
    } else {
      InstructionKeepsCpu(s.monitor, c, s.shared, k, s'.shared, k');
    }
  }

  /** A step changes who holds the lock only by a store: taking it when the word is 0, giving it up to 0. */
  lemma HolderKept(s: State, s': State, c: nat, k': Cpu)
    requires Inv(s) && c < |s.cpus| && CpuStep(s, s', c, k')
    ensures Holds(s.cpus[c]) == Holds(k') ==> s'.shared.lock == s.shared.lock
    ensures !Holds(s.cpus[c]) && Holds(k') ==> s.shared.lock == 0 && s'.shared.lock == 1
    ensures Holds(s.cpus[c]) && !Holds(k') ==> s'.shared.lock == 0
  {
    var k := s.cpus[c];
    assert CpuOk(k) && LoadOk(s, c);
  }

  lemma LoadKept(s: State, s': State, c: nat, k': Cpu, d: nat)
    requires Inv(s) && c < |s.cpus| && CpuStep(s, s', c, k') && d < |s.cpus|
    ensures LoadOk(s', d)
  {
    assert CpuOk(s.cpus[c]) && LoadOk(s, c) && LoadOk(s, d) && CpuOk(s.cpus[d]);
  }

  lemma StepKeepsInv(s: State, s': State)
    requires Inv(s) && Next(s, s')
    ensures Inv(s')
  {
    var c: nat, k': Cpu :| c < |s.cpus| && CpuStep(s, s', c, k');
    CpuKept(s, s', c, k');
    HolderKept(s, s', c, k');
    forall d | 0 <= d < |s'.cpus|
      ensures CpuOk(s'.cpus[d]) && LoadOk(s', d)
    {
      assert CpuOk(s.cpus[d]);
      LoadKept(s, s', c, k', d);
    }
    if s'.shared.lock == 1 {
      if Holds(k') {
        assert Holds(s'.cpus[c]);
      } else {
        var h :| 0 <= h < |s.cpus| && Holds(s.cpus[h]);
        assert Holds(s'.cpus[h]);
      }
    }
  }

  lemma {:induction false} RunKeepsInv(run: seq<State>, i: nat)
    requires IsRun(run) && i < |run|
    ensures Inv(run[i])
  {
    if i > 0 {
      RunKeepsInv(run, i - 1);
      assert Next(run[i - 1], run[i - 1 + 1]);
      StepKeepsInv(run[i - 1], run[i]);
    }
  }

  /** In every run, at most one CPU is between its successful strexeq and its releasing store, and the lock
      word says whether there is one. */
  lemma MutualExclusion(run: seq<State>, i: nat, c: nat, d: nat)
    requires IsRun(run) && i < |run| && c < |run[i].cpus| && d < |run[i].cpus|
    ensures Holds(run[i].cpus[c]) && Holds(run[i].cpus[d]) ==> c == d
    ensures Holds(run[i].cpus[c]) ==> run[i].shared.lock == 1
    ensures run[i].shared.lock == 1 ==> exists h :: 0 <= h < |run[i].cpus| && Holds(run[i].cpus[h])
  {
    RunKeepsInv(run, i);
  }

  /** The CPU that holds the lock, or waits for it, has IRQ and FIQ masked, so what its interrupts suspended
      holds nothing: a handler never spins on a lock of its own CPU. Handlers never nest. */
  lemma HolderIsMasked(run: seq<State>, i: nat, c: nat)
    requires IsRun(run) && i < |run| && c < |run[i].cpus|
    ensures var k := run[i].cpus[c];
            && (Holds(k) ==> k.mask == MASKED)
            && |k.stack| <= 1
            && (k.stack != [] ==> !Holds(Cpu(k.stack[0].frame, k.stack[0].z, k.stack[0].mask, [])))
  {
    RunKeepsInv(run, i);
    assert CpuOk(run[i].cpus[c]);
  }

  /** A handler starts with IRQ masked and FIQ as it was, and that is what its spin_lock finds. */
  predicate HandlerOk(k: Cpu) {
    k.stack != [] ==>
      Mask(true, k.stack[0].mask.f) == if k.frame.pc == LockMrs then k.mask else k.frame.found
  }

  lemma HandlerStarts(k: Cpu, k': Cpu)
    requires CpuOk(k) && Interrupt(k, k')
    ensures HandlerOk(k')
  {
    assert k.stack == [];
    assert k'.stack == [Suspended(k.frame, k.z, k.mask)];
  }

  lemma HandlerGoesOn(monitor: Monitor, c: nat, w: Shared, k: Cpu, w': Shared, k': Cpu)
    requires CpuOk(k) && HandlerOk(k) && Instruction(monitor, c, w, k, w', k')
    ensures HandlerOk(k')
  {
    if k.frame.pc == Return {
      assert k'.stack == [];
    } else {
      assert k'.stack == k.stack;
    }
  }

  lemma HandlerNext(s: State, s': State, c: nat)
    requires Inv(s) && Next(s, s') && c < |s.cpus| && c < |s'.cpus| && HandlerOk(s.cpus[c])
    ensures HandlerOk(s'.cpus[c])
  {
    var d: nat, k': Cpu :| d < |s.cpus| && CpuStep(s, s', d, k');
    assert CpuOk(s.cpus[c]);
    if d == c {
      if Interrupt(s.cpus[c], k') {
        HandlerStarts(s.cpus[c], k');
      } else {
        HandlerGoesOn(s.monitor, c, s.shared, s.cpus[c], s'.shared, k');
      }
    }
  }

  lemma NextKeepsCount(s: State, s': State)
    requires Next(s, s')
    ensures |s'.cpus| == |s.cpus|
  {
  }

  lemma {:induction false} HandlersOk(run: seq<State>, i: nat, c: nat)
    requires IsRun(run) && i < |run| && c < |run[i].cpus|
    ensures CpuOk(run[i].cpus[c]) && HandlerOk(run[i].cpus[c])
  {
    RunKeepsInv(run, i);
    if i > 0 {
      assert Next(run[i - 1], run[i - 1 + 1]);
      NextKeepsCount(run[i - 1], run[i]);
      RunKeepsInv(run, i - 1);
      HandlersOk(run, i - 1, c);
      HandlerNext(run[i - 1], run[i], c);
    }
  }

  /** spin_unlock leaves the mask that the matching spin_lock found; in a handler, IRQ masked and FIQ as it was. */
  lemma MaskRestored(run: seq<State>, i: nat, c: nat)
    requires IsRun(run) && i < |run| && c < |run[i].cpus|
    requires run[i].cpus[c].frame.pc == UnlockRet
    ensures run[i].cpus[c].mask == run[i].cpus[c].frame.found
    ensures var k := run[i].cpus[c];
            k.stack != [] ==> k.mask == Mask(true, k.stack[0].mask.f)
  {
    HandlersOk(run, i, c);
  }

  /** Inside spin_lock, and from its return to the return of spin_unlock. */
  predicate InLock(pc: Pc) {
    pc in {LockMrs, LockStr, LockOrr, LockMsr, LockMov, LockLdrex, LockTeq, LockStrexeq, LockTeqeq, LockBne, LockRet}
  }

  predicate Entered(pc: Pc) {
    pc in {Critical, UnlockMov, UnlockStr, UnlockMsr, UnlockRet}
  }

  function One(b: bool): nat { if b then 1 else 0 }

  /** The activations of a CPU, running and suspended, that are inside spin_lock. */
  function Calling(k: Cpu): nat {
    One(InLock(k.frame.pc)) + if k.stack == [] then 0 else One(InLock(k.stack[0].frame.pc))
  }

  function Owning(k: Cpu): nat {
    One(Entered(k.frame.pc)) + if k.stack == [] then 0 else One(Entered(k.stack[0].frame.pc))
  }

  /** What a step of a CPU does to its activations: spin_lock is called, by other code or by a handler that starts;
      it returns into the critical section; or an activation gets back to code that leaves the lock alone. */
  predicate Calls(k: Cpu, k': Cpu) {
    k'.frame.pc == LockMrs && (k.frame.pc == Outside || |k'.stack| > |k.stack|)
  }

  predicate Enters(k: Cpu, k': Cpu) { k'.frame.pc == Critical && k.frame.pc != Critical }

  predicate Leaves(k: Cpu, k': Cpu) {
    k'.frame.pc in {Outside, Return} && k.frame.pc !in {Outside, Return}
  }

  /** No way leads out of spin_lock but into the critical section, and none from there but through spin_unlock. */
  lemma StepBalances(monitor: Monitor, c: nat, w: Shared, k: Cpu, w': Shared, k': Cpu)
    requires CpuOk(k) && CpuOk(k') && (Instruction(monitor, c, w, k, w', k') || Interrupt(k, k'))
    ensures Calling(k') + One(Enters(k, k')) == Calling(k) + One(Calls(k, k'))
    ensures Owning(k') + One(Leaves(k, k')) == Owning(k) + One(Enters(k, k'))
  {
    if Interrupt(k, k') {
      InterruptBalances(k, k');
    } else if k.frame.pc == Return {
      ReturnBalances(monitor, c, w, k, w', k');
    } else {
      InstructionBalances(monitor, c, w, k, w', k');
    }
  }

  lemma InstructionBalances(monitor: Monitor, c: nat, w: Shared, k: Cpu, w': Shared, k': Cpu)
    requires Instruction(monitor, c, w, k, w', k') && k.frame.pc != Return
    ensures Calling(k') + One(Enters(k, k')) == Calling(k) + One(Calls(k, k'))
    ensures Owning(k') + One(Leaves(k, k')) == Owning(k) + One(Enters(k, k'))
  {
    assert k'.stack == k.stack;
  }

  lemma InterruptBalances(k: Cpu, k': Cpu)
    requires CpuOk(k) && CpuOk(k') && Interrupt(k, k')
    ensures Calling(k') == Calling(k) + 1 && Owning(k') == Owning(k)
  {
    assert k.stack == [];
    assert k'.stack == [Suspended(k.frame, k.z, k.mask)];
  }

  lemma ReturnBalances(monitor: Monitor, c: nat, w: Shared, k: Cpu, w': Shared, k': Cpu)
    requires CpuOk(k) && CpuOk(k') && Instruction(monitor, c, w, k, w', k') && k.frame.pc == Return
    ensures Calling(k') == Calling(k) && Owning(k') == Owning(k) && k'.stack == []
    ensures k'.frame == k.stack[0].frame && k'.frame.pc !in {Critical, Return}
  {
    assert k.stack == [k.stack[0]];
  }

  /** The steps of CPU c in a run, up to step n, that call, enter and leave. */
  function CallsOf(run: seq<State>, c: nat, n: nat): nat
    requires n < |run| && forall i :: 0 <= i < |run| ==> c < |run[i].cpus|
  {
    if n == 0 then 0 else CallsOf(run, c, n - 1) + One(Calls(run[n - 1].cpus[c], run[n].cpus[c]))
  }

  function EntriesOf(run: seq<State>, c: nat, n: nat): nat
    requires n < |run| && forall i :: 0 <= i < |run| ==> c < |run[i].cpus|
  {
    if n == 0 then 0 else EntriesOf(run, c, n - 1) + One(Enters(run[n - 1].cpus[c], run[n].cpus[c]))
  }

  function ExitsOf(run: seq<State>, c: nat, n: nat): nat
    requires n < |run| && forall i :: 0 <= i < |run| ==> c < |run[i].cpus|
  {
    if n == 0 then 0 else ExitsOf(run, c, n - 1) + One(Leaves(run[n - 1].cpus[c], run[n].cpus[c]))
  }

  lemma StillBalances(k: Cpu)
    requires CpuOk(k)
    ensures !Calls(k, k) && !Enters(k, k) && !Leaves(k, k)
  {
  }

  lemma NextBalances(s: State, s': State, c: nat)
    requires Inv(s) && Inv(s') && Next(s, s') && c < |s.cpus|
    ensures c < |s'.cpus|
    ensures var (k, k') := (s.cpus[c], s'.cpus[c]);
            && Calling(k') + One(Enters(k, k')) == Calling(k) + One(Calls(k, k'))
            && Owning(k') + One(Leaves(k, k')) == Owning(k) + One(Enters(k, k'))
  {
    var d: nat, k': Cpu :| d < |s.cpus| && CpuStep(s, s', d, k');
    assert CpuOk(s.cpus[c]) && CpuOk(s'.cpus[c]);
    if d == c {
      StepBalances(s.monitor, c, s.shared, s.cpus[c], s'.shared, k');
    } else {
      StillBalances(s.cpus[c]);
    }
  }

  /** In every run, nobody leaves spin_lock without the lock: the calls of each CPU are its entries into the critical
      section and the calls still inside spin_lock; and its entries are its exits and what has not yet left. */
  lemma {:induction false} CallsAreServed(run: seq<State>, c: nat, n: nat)
    requires IsRun(run) && n < |run| && forall i :: 0 <= i < |run| ==> c < |run[i].cpus|
    ensures CallsOf(run, c, n) == EntriesOf(run, c, n) + Calling(run[n].cpus[c])
    ensures EntriesOf(run, c, n) == ExitsOf(run, c, n) + Owning(run[n].cpus[c])
  {
    if n > 0 {
      CallsAreServed(run, c, n - 1);
      StepBalancesInRun(run, c, n);
    }
  }

  lemma StepBalancesInRun(run: seq<State>, c: nat, n: nat)
    requires IsRun(run) && 0 < n < |run| && c < |run[n - 1].cpus| && c < |run[n].cpus|
    ensures var (k, k') := (run[n - 1].cpus[c], run[n].cpus[c]);
            && Calling(k') + One(Enters(k, k')) == Calling(k) + One(Calls(k, k'))
            && Owning(k') + One(Leaves(k, k')) == Owning(k) + One(Enters(k, k'))
  {
    RunKeepsInv(run, n - 1);
    RunKeepsInv(run, n);
    assert Next(run[n - 1], run[n - 1 + 1]);
    NextBalances(run[n - 1], run[n], c);
  }

  /** The next step of CPU c inside spin_lock, when its store-exclusive succeeds if the monitor lets it. */
  function Exec(monitor: Monitor, c: nat, w: Shared, k: Cpu): (Shared, Cpu) {
    var f := k.frame;
    match f.pc
    case LockMrs => (w, k.(frame := f.(pc := LockStr, status := k.mask, found := k.mask)))
    case LockStr => (w, k.(frame := f.(pc := LockOrr, irqSave := f.status)))
    case LockOrr => (w, k.(frame := f.(pc := LockMsr, status := MASKED)))
    case LockMsr => (w, Goto(k, LockMov).(mask := f.status))
    case LockMov => (w, Goto(k, LockLdrex))
    case LockLdrex => (w.(marks := w.marks + {c}), k.(frame := f.(pc := LockTeq, r2 := w.lock)))
    case LockTeq => (w, Goto(k, LockStrexeq).(z := f.r2 == 0))
    case LockStrexeq =>
      if !k.z then (w, Goto(k, LockTeqeq))
      else if MayStore(monitor, c, w, k) then (Shared(1, {}), k.(frame := f.(pc := LockTeqeq, r2 := 0)))
      else (w.(marks := w.marks - {c}), k.(frame := f.(pc := LockTeqeq, r2 := 1)))
    case LockTeqeq => (w, Goto(k, LockBne).(z := k.z && f.r2 == 0))
    case LockBne => (w, Goto(k, if k.z then LockRet else LockLdrex))
    case LockRet => (w, Goto(k, Critical))
    case _ => (w, k)
  }

  lemma ExecIsInstruction(monitor: Monitor, c: nat, w: Shared, k: Cpu)
    requires InLock(k.frame.pc)
    ensures Instruction(monitor, c, w, k, Exec(monitor, c, w, k).0, Exec(monitor, c, w, k).1)
  {
  }

  /** The attempt that is under way is going to succeed. */
  predicate Succeeds(monitor: Monitor, c: nat, w: Shared, k: Cpu) {
    match k.frame.pc
    case LockTeq => k.frame.r2 == w.lock == 0 && (monitor == Exclusive ==> c in w.marks)
    case LockStrexeq => k.z && w.lock == 0 && MayStore(monitor, c, w, k)
    case LockTeqeq => k.z && k.frame.r2 == 0
    case LockBne => k.z
    case _ => true
  }

  /** How many steps are left: an attempt that fails comes back to the load-exclusive. */
  function StepsLeft(monitor: Monitor, c: nat, w: Shared, k: Cpu): nat {
    var retry := if Succeeds(monitor, c, w, k) then 0 else 5;
    match k.frame.pc
    case LockMrs => 11
    case LockStr => 10
    case LockOrr => 9
    case LockMsr => 8
    case LockMov => 7
    case LockLdrex => 6
    case LockTeq => 5 + retry
    case LockStrexeq => 4 + retry
    case LockTeqeq => 3 + retry
    case LockBne => 2 + retry
    case LockRet => 1
    case _ => 0
  }

  /** The lock word says whether CPU c holds the lock. */
  predicate FreeOrMine(w: Shared, k: Cpu) {
    w.lock == if Holds(k) then 1 else 0
  }

  lemma ExecGetsNearer(monitor: Monitor, c: nat, w: Shared, k: Cpu)
    requires InLock(k.frame.pc) && FreeOrMine(w, k)
    ensures var (w', k') := Exec(monitor, c, w, k);
            && FreeOrMine(w', k') && StepsLeft(monitor, c, w', k') == StepsLeft(monitor, c, w, k) - 1
            && (InLock(k'.frame.pc) || k'.frame.pc == Critical)
  {
  }

  ghost predicate AloneStep(s: State, s': State, c: nat) {
    c < |s.cpus| && exists k': Cpu :: CpuStep(s, s', c, k')
  }

  /** Steps of CPU c alone. */
  ghost predicate AlonePath(path: seq<State>, c: nat) {
    path != [] && forall i :: 0 <= i < |path| - 1 ==> AloneStep(path[i], path[i + 1], c)
  }

  lemma PathExtends(s: State, path: seq<State>, c: nat)
    requires AlonePath(path, c) && AloneStep(s, path[0], c)
    ensures AlonePath([s] + path, c)
  {
    var p := [s] + path;
    forall i | 0 <= i < |p| - 1
      ensures AloneStep(p[i], p[i + 1], c)
    {
      if i > 0 {
        assert AloneStep(path[i - 1], path[i - 1 + 1], c);
      }
    }
  }

  lemma Advance(s: State, c: nat) returns (t: State)
    requires c < |s.cpus| && InLock(s.cpus[c].frame.pc) && FreeOrMine(s.shared, s.cpus[c])
    ensures AloneStep(s, t, c) && |t.cpus| == |s.cpus| && FreeOrMine(t.shared, t.cpus[c])
    ensures StepsLeft(t.monitor, c, t.shared, t.cpus[c]) == StepsLeft(s.monitor, c, s.shared, s.cpus[c]) - 1
    ensures InLock(t.cpus[c].frame.pc) || t.cpus[c].frame.pc == Critical
  {
    var (w, k) := Exec(s.monitor, c, s.shared, s.cpus[c]);
    ExecIsInstruction(s.monitor, c, s.shared, s.cpus[c]);
    ExecGetsNearer(s.monitor, c, s.shared, s.cpus[c]);
    t := State(s.monitor, w, s.cpus[c := k]);
    assert CpuStep(s, t, c, k);
  }

  lemma StepsBound(monitor: Monitor, c: nat, w: Shared, k: Cpu)
    ensures StepsLeft(monitor, c, w, k) <= 11
  {
  }

  /** The lock is not a trap: a CPU anywhere in spin_lock, from its call on, whether or not it failed before, gets into
      the critical section in at most eleven steps of its own once the lock is free, under either monitor. */
  lemma {:induction false} FreeLockIsTaken(s: State, c: nat) returns (path: seq<State>)
    requires c < |s.cpus| && InLock(s.cpus[c].frame.pc) && FreeOrMine(s.shared, s.cpus[c])
    ensures AlonePath(path, c) && path[0] == s && |path| <= 12
    ensures |path| <= StepsLeft(s.monitor, c, s.shared, s.cpus[c]) + 1
    ensures var t := path[|path| - 1];
            |t.cpus| == |s.cpus| && t.cpus[c].frame.pc == Critical && t.shared.lock == 1
    decreases StepsLeft(s.monitor, c, s.shared, s.cpus[c])
  {
    StepsBound(s.monitor, c, s.shared, s.cpus[c]);
    var t := Advance(s, c);
    var rest := [t];
    if t.cpus[c].frame.pc != Critical {
      rest := FreeLockIsTaken(t, c);
    }
    PathExtends(s, rest, c);
    path := [s] + rest;
  }
}
