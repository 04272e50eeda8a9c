/** The chained boot of the CPUs (demo/start.S, demo/main.c, demo/smp.c): each CPU numbers itself from the
    shared _boot_num, starts the next one through the control register, and the last one reports. Every step
    is one access to shared memory or to the control register; the CPUs interleave freely. */
module BootChain {

  const NUM_CPUS := 4

  /** Program points, in the order of execution. KickTest(i) is about to ask whether CPU i is alive. */
  datatype Pc =
    | BootLoad | BootStore | BootNumber | BootStack
    | BspClear
    | KickStart | KickTest(i: nat) | RunRead(target: nat) | RunWrite(to: nat, wasHalted: bool) | KickDone
    | BspWait | BspReset | Shell
    | HaltRead | HaltWrite(running: bool) | Receive

  /** r1, the number taken; sp is set once the stack is chosen. */
  datatype Cpu = Cpu(pc: Pc, r1: nat, sp: int)

  /** alive and halted are the two status bits of each CPU in the control register. The history order lists
      the CPUs in the order in which they were started. */
  datatype State = State(alive: seq<bool>, halted: seq<bool>, cpus: seq<Cpu>, nums: seq<nat>,
                         bootNum: nat, bootDone: bool, order: seq<nat>)

  const STACK_SIZE := 0x2000
  const STACK_END := 0x2000_0000
  const STACK_BEGIN := STACK_END - 5 * STACK_SIZE + STACK_SIZE

  /** Reset: the control logic holds every CPU but the first. boot_done may hold anything. */
  predicate Init(s: State) {
    && |s.alive| == |s.halted| == |s.cpus| == |s.nums| == NUM_CPUS
    && s.alive[0] && s.bootNum == 0 && s.order == [0]
    && (forall p :: 0 <= p < NUM_CPUS ==> s.cpus[p].pc == BootLoad && s.halted[p] == (p != 0))
  }

  predicate Sized(s: State) {
    |s.alive| == |s.halted| == |s.cpus| == |s.nums| == NUM_CPUS
  }

  function Goto(s: State, p: nat, pc: Pc): State
    requires p < |s.cpus|
  {
    s.(cpus := s.cpus[p := s.cpus[p].(pc := pc)])
  }

  /** Where a CPU goes after kick_cpus: bsp_main waits, ap_main halts itself. */
  function AfterKick(number: nat): Pc {
    if number == 0 then BspWait else HaltRead
  }

  /** The reads of kick_cpus and run_cpus: find the next alive CPU, then see whether it is halted. */
  function Scan(alive: seq<bool>, halted: seq<bool>, number: nat, pc: Pc): Pc
    requires |alive| == |halted| == NUM_CPUS
  {
    match pc
    case KickStart => KickTest(number + 1)
    case KickTest(i) =>
      if i >= NUM_CPUS then KickDone else if alive[i] then RunRead(i) else KickTest(i + 1)
    case RunRead(i) => RunWrite(i, i < NUM_CPUS && halted[i])
    case _ => pc
  }

  /** CPU p can run, and its next step does not index outside the tables. */
  predicate Enabled(s: State, p: nat) {
    && Sized(s) && p < NUM_CPUS && s.alive[p] && !s.halted[p]
    && (s.cpus[p].pc == BootLoad || s.cpus[p].r1 < NUM_CPUS)
  }

  /** The step of CPU p. A step that returns s is a wait that goes on. */
  function Step(s: State, p: nat): State
    requires Enabled(s, p)
  {
    var k := s.cpus[p];
    var number := if k.pc == BootLoad then 0 else s.nums[k.r1];
    match k.pc
    case BootLoad => s.(cpus := s.cpus[p := Cpu(BootStore, s.bootNum, 0)])
    case BootStore => Goto(s, p, BootNumber).(bootNum := k.r1 + 1)
    case BootNumber => Goto(s, p, BootStack).(nums := s.nums[k.r1 := k.r1])
    case BootStack =>
      s.(cpus := s.cpus[p := Cpu(if number == 0 then BspClear else KickStart, k.r1, STACK_BEGIN + k.r1 * STACK_SIZE)])
    case BspClear => Goto(s, p, KickStart).(bootDone := false)
    case KickStart => Goto(s, p, Scan(s.alive, s.halted, number, k.pc))
    case KickTest(_) => Goto(s, p, Scan(s.alive, s.halted, number, k.pc))
    case RunRead(_) => Goto(s, p, Scan(s.alive, s.halted, number, k.pc))
    case RunWrite(i, wasHalted) =>
      if wasHalted && i < NUM_CPUS then
        Goto(s, p, AfterKick(number)).(halted := s.halted[i := false], order := s.order + [i])
      else
        Goto(s, p, AfterKick(number))
    case KickDone => Goto(s, p, AfterKick(number)).(bootDone := true)
    case BspWait => if s.bootDone then Goto(s, p, BspReset) else s
    case BspReset => Goto(s, p, Shell).(bootNum := 0)
    case Shell => s
    case HaltRead => Goto(s, p, HaltWrite(number < NUM_CPUS && !s.halted[number]))
    case HaltWrite(running) =>
      if running && number < NUM_CPUS then Goto(s, p, Receive).(halted := s.halted[number := true])
      else Goto(s, p, Receive)
    case Receive => s
  }

  ghost predicate Next(s: State, s': State) {
    exists p: nat :: Enabled(s, p) && s' == Step(s, p)
  }

  ghost predicate IsRun(run: seq<State>) {
    && run != [] && Init(run[0])
    && forall i :: 0 <= i < |run| - 1 ==> Next(run[i], run[i + 1])
  }

  /** The alive CPUs are the first ones. */
  predicate IsPrefix(alive: seq<bool>) {
    forall p, q :: 0 <= p < q < |alive| && alive[q] ==> alive[p]
  }

  /** The CPU that number n starts: the next alive one after n, if i is it. */
  predicate NextAlive(alive: seq<bool>, n: nat, i: nat) {
    n < i < |alive| && alive[i] && NoneAlive(alive, n, i)
  }

  /** No CPU strictly between n and i is alive. */
  predicate NoneAlive(alive: seq<bool>, n: nat, i: nat)
    requires i <= |alive|
  {
    forall q :: n < q < i ==> !alive[q]
  }

  predicate Kicked(pc: Pc) {
    pc in {BspWait, BspReset, Shell, HaltRead, Receive} || pc.HaltWrite?
  }

  /** Before bsp_main clears boot_done. */
  predicate Early(pc: Pc) {
    pc in {BootLoad, BootStore, BootNumber, BootStack, BspClear}
  }

  /** The started CPUs, each the next alive one after the number of the one that started it. */
  predicate OrderOk(s: State)
    requires Sized(s)
  {
    && 0 < |s.order| <= NUM_CPUS && s.order[0] == 0
    && (forall j :: 0 <= j < |s.order| ==> s.order[j] < NUM_CPUS && s.alive[s.order[j]])
    && (forall j, m :: 0 <= j < m < |s.order| ==> s.order[j] != s.order[m])
    && (forall j :: 0 < j < |s.order| ==> NextAlive(s.alive, j - 1, s.order[j]))
  }

  /** The last started CPU, which alone is between its first instruction and the end of its kick: it runs,
      and _boot_num counts it once it has stored its increment. */
  predicate LastRuns(s: State)
    requires Sized(s) && OrderOk(s)
  {
    var n := |s.order| - 1;
    var p := s.order[n];
    var pc := s.cpus[p].pc;
    && (!Kicked(pc) ==> !s.halted[p] && (s.bootDone ==> n == 0 && Early(pc)))
    && (if pc in {BootLoad, BootStore} then s.bootNum == n
        else s.bootNum == n + 1 || (s.bootDone && s.bootNum == 0 && s.cpus[0].pc == Shell))
    && (pc == BspClear ==> n == 0)
  }

  /** It took the number n and the stack of that number. */
  predicate LastNumbered(s: State)
    requires Sized(s) && OrderOk(s)
  {
    var n := |s.order| - 1;
    var k := s.cpus[s.order[n]];
    && (k.pc != BootLoad ==> k.r1 == n)
    && (k.pc !in {BootLoad, BootStore, BootNumber} ==> s.nums[n] == n)
    && (k.pc !in {BootLoad, BootStore, BootNumber, BootStack} ==> k.sp == STACK_BEGIN + n * STACK_SIZE)
  }

  /** It looks for the next alive CPU after its number n; p is the CPU that runs, which can differ. */
  predicate KickOk(alive: seq<bool>, halted: seq<bool>, bootDone: bool, n: nat, p: nat, pc: Pc)
    requires |alive| == |halted| == NUM_CPUS
  {
    match pc
    case KickTest(i) => n < i <= NUM_CPUS && NoneAlive(alive, n, i)
    case RunRead(i) => NextAlive(alive, n, i)
    case RunWrite(i, wasHalted) => NextAlive(alive, n, i) && wasHalted == halted[i]
    case KickDone => NoneAlive(alive, n, NUM_CPUS)
    case _ =>
      Kicked(pc) ==> if bootDone then NoneAlive(alive, n, NUM_CPUS) else NextAlive(alive, n, p)
  }

  predicate LastKicks(s: State)
    requires Sized(s) && OrderOk(s)
  {
    var n := |s.order| - 1;
    KickOk(s.alive, s.halted, s.bootDone, n, s.order[n], s.cpus[s.order[n]].pc)
  }

  predicate LastOk(s: State)
    requires Sized(s) && OrderOk(s)
  {
    LastRuns(s) && LastNumbered(s) && LastKicks(s)
  }

  /** The CPUs started before the last one have kicked, and keep their numbers and stacks. */
  predicate EarlierOk(s: State, j: nat)
    requires Sized(s) && OrderOk(s) && j < |s.order| - 1
  {
    var k := s.cpus[s.order[j]];
    Kicked(k.pc) && k.r1 == j && s.nums[j] == j && k.sp == STACK_BEGIN + j * STACK_SIZE
  }

  predicate Started(s: State, j: nat)
    requires Sized(s) && OrderOk(s) && j < |s.order|
  {
    var pc := s.cpus[s.order[j]].pc;
    && (pc in {BspWait, BspReset, Shell} ==> j == 0)
    && (pc in {HaltRead, Receive} || pc.HaltWrite? ==> j > 0)
    && (pc == BspReset || pc == Shell ==> s.bootDone)
    && (pc == Shell ==> s.bootNum == 0)
    && (j == 0 ==> !s.halted[0])
  }

  ghost predicate Inv(s: State) {
    && Sized(s) && s.alive[0] && OrderOk(s) && LastOk(s)
    && (forall j :: 0 <= j < |s.order| - 1 ==> EarlierOk(s, j))
    && (forall j :: 0 <= j < |s.order| ==> Started(s, j))
    && (forall p :: 0 <= p < NUM_CPUS && p !in s.order ==> s.halted[p] && s.cpus[p].pc == BootLoad)
  }

  /** The CPU that the last one would start is new, or the last one itself. */
  lemma TargetIsNew(s: State, i: nat)
    requires Sized(s) && OrderOk(s) && NextAlive(s.alive, |s.order| - 1, i)
    ensures i in s.order ==> i == s.order[|s.order| - 1]
  {
    forall m | 0 <= m < |s.order| - 1
      ensures s.order[m] != i
    {
      var next := s.order[m + 1];
      assert NextAlive(s.alive, m, next);
    }
  }

  /** A CPU that may run has been started. */
  lemma RunnerStarted(s: State, p: nat) returns (j: nat)
    requires Inv(s) && Enabled(s, p)
    ensures j < |s.order| && s.order[j] == p
  {
    j :| 0 <= j < |s.order| && s.order[j] == p;
  }

  /** Does this step start a CPU? */
  predicate Starts(k: Cpu) {
    k.pc.RunWrite? && k.pc.wasHalted
  }

  ghost predicate IsLast(s: State, p: nat) {
    Inv(s) && Enabled(s, p) && p == s.order[|s.order| - 1] && !Kicked(s.cpus[p].pc)
  }

  /** A step of the last CPU that starts nobody leaves all the others alone. */
  predicate LastFrame(s: State, s': State, p: nat)
    requires Sized(s) && OrderOk(s) && p < NUM_CPUS
  {
    var n := |s.order| - 1;
    && s'.alive == s.alive && s'.order == s.order && s'.halted == s.halted
    && |s'.cpus| == NUM_CPUS && s'.cpus == s.cpus[p := s'.cpus[p]]
    && (s'.nums == s.nums || s'.nums == s.nums[n := n])
  }

  lemma StepFrames(s: State, p: nat)
    requires IsLast(s, p) && !Starts(s.cpus[p])
    ensures LastFrame(s, Step(s, p), p)
  {
  }

  lemma FrameKeepsOrder(s: State, s': State, p: nat)
    requires IsLast(s, p) && LastFrame(s, s', p)
    ensures Sized(s') && OrderOk(s')
  {
  }

  /** As much of the invariant as the last CPU's own step depends on. */
  predicate LastFacts(s: State, p: nat) {
    && Enabled(s, p) && OrderOk(s) && LastOk(s)
    && p == s.order[|s.order| - 1] && !Kicked(s.cpus[p].pc) && !Starts(s.cpus[p])
  }

  lemma StaysRunning(s: State, p: nat)
    requires LastFacts(s, p) && Sized(Step(s, p)) && OrderOk(Step(s, p))
    ensures LastRuns(Step(s, p))
  {
    var s' := Step(s, p);
    assert s'.order == s.order && s'.halted == s.halted;
  }

  lemma StaysNumbered(s: State, p: nat)
    requires LastFacts(s, p) && Sized(Step(s, p)) && OrderOk(Step(s, p))
    ensures LastNumbered(Step(s, p))
  {
  }

  lemma ScanKeepsKickOk(alive: seq<bool>, halted: seq<bool>, bootDone: bool, n: nat, p: nat, pc: Pc)
    requires |alive| == |halted| == NUM_CPUS && n < NUM_CPUS
    requires KickOk(alive, halted, bootDone, n, p, pc)
    ensures KickOk(alive, halted, bootDone, n, p, Scan(alive, halted, n, pc))
  {
  }

  /** The reads on the way to the kick. */
  lemma StaysScanning(s: State, p: nat)
    requires LastFacts(s, p) && Sized(Step(s, p)) && OrderOk(Step(s, p))
    requires s.cpus[p].pc == KickStart || s.cpus[p].pc.KickTest? || s.cpus[p].pc.RunRead?
    ensures LastKicks(Step(s, p))
  {
    var n, pc, s' := |s.order| - 1, s.cpus[p].pc, Step(s, p);
    ScanKeepsKickOk(s.alive, s.halted, s.bootDone, n, p, pc);
    assert s'.order == s.order && s'.alive == s.alive && s'.halted == s.halted;
    assert s'.cpus[p].pc == Scan(s.alive, s.halted, n, pc) && s'.bootDone == s.bootDone;
  }

  lemma StaysKicking(s: State, p: nat)
    requires LastFacts(s, p) && !s.cpus[p].pc.RunWrite? && Sized(Step(s, p)) && OrderOk(Step(s, p))
    ensures LastKicks(Step(s, p))
  {
    var pc, s' := s.cpus[p].pc, Step(s, p);
    if pc == KickStart || pc.KickTest? || pc.RunRead? {
      StaysScanning(s, p);
    } else {
      assert s'.order == s.order && s'.alive == s.alive && s'.halted == s.halted;
    }
  }

  lemma SelfKick(s: State, p: nat)
    requires IsLast(s, p) && s.cpus[p].pc.RunWrite? && !s.cpus[p].pc.wasHalted
    requires Sized(Step(s, p)) && OrderOk(Step(s, p))
    ensures LastKicks(Step(s, p))
  {
    TargetIsNew(s, s.cpus[p].pc.to);
    assert Started(s, |s.order| - 1);
  }

  lemma FrameKeepsStarted(s: State, s': State, p: nat, j: nat)
    requires IsLast(s, p) && LastFrame(s, s', p) && Sized(s') && OrderOk(s') && j < |s.order|
    requires Kicked(s'.cpus[p].pc) ==> s'.cpus[p].pc == AfterKick(|s.order| - 1)
    ensures Started(s', j)
    ensures j < |s.order| - 1 ==> EarlierOk(s', j)
  {
    assert Started(s, j);
    if j < |s.order| - 1 {
      assert EarlierOk(s, j) && s.order[j] != p;
    }
  }

  lemma KicksToAfter(s: State, p: nat)
    requires IsLast(s, p) && !Starts(s.cpus[p])
    ensures |Step(s, p).cpus| == NUM_CPUS
    ensures Kicked(Step(s, p).cpus[p].pc) ==> Step(s, p).cpus[p].pc == AfterKick(|s.order| - 1)
  {
  }

  lemma FrameKeepsInv(s: State, s': State, p: nat)
    requires IsLast(s, p) && LastFrame(s, s', p) && Sized(s') && OrderOk(s') && LastOk(s')
    requires Kicked(s'.cpus[p].pc) ==> s'.cpus[p].pc == AfterKick(|s.order| - 1)
    ensures Inv(s')
  {
    forall j | 0 <= j < |s.order|
      ensures Started(s', j) && (j < |s.order| - 1 ==> EarlierOk(s', j))
    {
      FrameKeepsStarted(s, s', p, j);
    }
  }

  lemma LastStepKeepsInv(s: State, p: nat)
    requires IsLast(s, p) && !Starts(s.cpus[p])
    ensures Inv(Step(s, p))
  {
    StepFrames(s, p);
    FrameKeepsOrder(s, Step(s, p), p);
    StaysRunning(s, p);
    StaysNumbered(s, p);
    if s.cpus[p].pc.RunWrite? {
      SelfKick(s, p);
    } else {
      StaysKicking(s, p);
    }
    KicksToAfter(s, p);
    FrameKeepsInv(s, Step(s, p), p);
  }

  lemma StartKeepsOrder(s: State, p: nat)
    requires IsLast(s, p) && Starts(s.cpus[p])
    ensures Sized(Step(s, p)) && OrderOk(Step(s, p)) && LastOk(Step(s, p))
    ensures s.cpus[p].pc.to !in s.order
  {
    var i, s' := s.cpus[p].pc.to, Step(s, p);
    TargetIsNew(s, i);
    assert s'.order[..|s.order|] == s.order && s'.order[|s.order|] == i;
    assert |s.order| < NUM_CPUS;
  }

  lemma StartStepKeepsInv(s: State, p: nat)
    requires IsLast(s, p) && Starts(s.cpus[p])
    ensures Inv(Step(s, p))
  {
    StartKeepsOrder(s, p);
    var s' := Step(s, p);
    forall j | 0 <= j < |s'.order|
      ensures Started(s', j) && (j < |s'.order| - 1 ==> EarlierOk(s', j))
    {
      if j < |s.order| {
        assert Started(s, j) && s'.order[j] == s.order[j];
        if j < |s.order| - 1 {
          assert EarlierOk(s, j);
        }
      }
    }
  }

  ghost predicate IsKicked(s: State, p: nat, j: nat) {
    Inv(s) && Enabled(s, p) && j < |s.order| && p == s.order[j] && Kicked(s.cpus[p].pc)
  }

  /** All that a step after the kick does: move on, clear _boot_num once booted, or halt CPU j. */
  predicate KickEffect(s: State, s': State, p: nat, j: nat)
    requires Sized(s) && p < NUM_CPUS && j < NUM_CPUS && |s'.cpus| == NUM_CPUS
  {
    var pc := s'.cpus[p].pc;
    && s'.alive == s.alive && s'.nums == s.nums && s'.order == s.order && s'.bootDone == s.bootDone
    && s'.cpus == s.cpus[p := s.cpus[p].(pc := pc)]
    && (if j == 0 then pc in {BspWait, BspReset, Shell} && s'.halted == s.halted
        else (pc == Receive || pc.HaltWrite?) && (s'.halted == s.halted || s'.halted == s.halted[j := true]))
    && (pc == BspReset || pc == Shell ==> s.bootDone)
    && (if pc == Shell then s'.bootNum == 0 else s'.bootNum == s.bootNum && s.cpus[p].pc != Shell)
  }

  lemma KickedNumber(s: State, p: nat, j: nat)
    requires IsKicked(s, p, j)
    ensures s.cpus[p].r1 == j && s.nums[j] == j
  {
    if j < |s.order| - 1 {
      assert EarlierOk(s, j);
    }
  }

  lemma KickedStep(s: State, p: nat, j: nat)
    requires IsKicked(s, p, j)
    ensures |Step(s, p).cpus| == NUM_CPUS && KickEffect(s, Step(s, p), p, j)
    ensures Kicked(Step(s, p).cpus[p].pc)
  {
    KickedNumber(s, p, j);
    assert Started(s, j);
  }

  lemma EffectKeepsOthers(s: State, s': State, p: nat, j: nat, m: nat)
    requires IsKicked(s, p, j) && m < |s.order| && |s'.cpus| == NUM_CPUS && KickEffect(s, s', p, j)
    ensures Sized(s') && OrderOk(s') && Started(s', m)
    ensures m < |s.order| - 1 ==> EarlierOk(s', m)
  {
    assert Started(s, m) && Started(s, j);
    if m < |s.order| - 1 {
      assert EarlierOk(s, m);
    }
  }

  lemma EffectKeepsLast(s: State, s': State, p: nat, j: nat)
    requires IsKicked(s, p, j) && |s'.cpus| == NUM_CPUS && KickEffect(s, s', p, j)
    requires Sized(s') && OrderOk(s') && (j == |s.order| - 1 ==> Kicked(s'.cpus[p].pc))
    ensures LastRuns(s') && LastNumbered(s')
  {
    EffectKeepsRuns(s, s', p, j);
    EffectKeepsNumbered(s, s', p, j);
  }

  lemma EffectKeepsRuns(s: State, s': State, p: nat, j: nat)
    requires IsKicked(s, p, j) && |s'.cpus| == NUM_CPUS && KickEffect(s, s', p, j)
    requires Sized(s') && OrderOk(s') && (j == |s.order| - 1 ==> Kicked(s'.cpus[p].pc))
    ensures LastRuns(s')
  {
    var n := |s.order| - 1;
    assert Started(s, j) && Started(s, n);
    assert s.order[j] == p && (p == 0 ==> j == 0);
    assert j < n ==> s.order[n] != p && s.order[n] > j;
  }

  lemma EffectKeepsNumbered(s: State, s': State, p: nat, j: nat)
    requires IsKicked(s, p, j) && |s'.cpus| == NUM_CPUS && KickEffect(s, s', p, j)
    requires Sized(s') && OrderOk(s') && (j == |s.order| - 1 ==> Kicked(s'.cpus[p].pc))
    ensures LastNumbered(s')
  {
    var n := |s.order| - 1;
    assert j < n ==> s.order[n] != p;
  }

  /** A CPU before the last, halting or clearing _boot_num, leaves the last one's kick alone. */
  lemma EarlierKeepsKicks(s: State, s': State, p: nat, j: nat)
    requires Sized(s) && OrderOk(s) && LastOk(s) && j < |s.order| - 1 && p == s.order[j] && Kicked(s.cpus[p].pc)
    requires |s'.cpus| == NUM_CPUS && KickEffect(s, s', p, j) && Sized(s') && OrderOk(s')
    ensures LastKicks(s')
  {
    var n := |s.order| - 1;
    var pc := s.cpus[s.order[n]].pc;
    assert KickOk(s.alive, s.halted, s.bootDone, n, s.order[n], pc);
    assert s'.cpus[s.order[n]].pc == pc;
    assert pc.RunWrite? ==> s'.halted[pc.to] == s.halted[pc.to];
  }

  lemma EffectKeepsKicks(s: State, s': State, p: nat, j: nat)
    requires Sized(s) && OrderOk(s) && LastOk(s) && j < |s.order| && p == s.order[j] && Kicked(s.cpus[p].pc)
    requires |s'.cpus| == NUM_CPUS && KickEffect(s, s', p, j) && Sized(s') && OrderOk(s')
    requires j == |s.order| - 1 ==> Kicked(s'.cpus[p].pc)
    ensures LastKicks(s')
  {
    if j < |s.order| - 1 {
      EarlierKeepsKicks(s, s', p, j);
    } else {
      assert KickOk(s.alive, s.halted, s.bootDone, j, p, s.cpus[p].pc);
    }
  }

  lemma EffectKeepsInv(s: State, s': State, p: nat, j: nat)
    requires IsKicked(s, p, j) && |s'.cpus| == NUM_CPUS && KickEffect(s, s', p, j)
    requires Kicked(s'.cpus[p].pc)
    ensures Inv(s')
  {
    forall m | 0 <= m < |s.order|
      ensures Sized(s') && OrderOk(s')
      ensures Started(s', m) && (m < |s.order| - 1 ==> EarlierOk(s', m))
    {
      EffectKeepsOthers(s, s', p, j, m);
    }
    EffectKeepsOthers(s, s', p, j, 0);
    EffectKeepsLast(s, s', p, j);
    EffectKeepsKicks(s, s', p, j);
  }

  lemma StepKeepsInv(s: State, p: nat)
    requires Inv(s) && Enabled(s, p)
    ensures Inv(Step(s, p))
  {
    var j := RunnerStarted(s, p);
    if Kicked(s.cpus[p].pc) {
      KickedStep(s, p, j);
      EffectKeepsInv(s, Step(s, p), p, j);
    } else {
      assert j < |s.order| - 1 ==> EarlierOk(s, j);
      if Starts(s.cpus[p]) {
        StartStepKeepsInv(s, p);
      } else {
        LastStepKeepsInv(s, p);
      }
    }
  }

  lemma {:induction false} RunKeepsInv(run: seq<State>, i: nat)
    requires IsRun(run) && i < |run|
    ensures Inv(run[i]) && run[i].alive == run[0].alive
  {
    if i > 0 {
      RunKeepsInv(run, i - 1);
      assert Next(run[i - 1], run[i - 1 + 1]);
      var p: nat :| Enabled(run[i - 1], p) && run[i] == Step(run[i - 1], p);
      StepKeepsInv(run[i - 1], p);
      StepKeepsAlive(run[i - 1], p);
    }
  }

  lemma StepKeepsAlive(s: State, p: nat)
    requires Enabled(s, p)
    ensures Step(s, p).alive == s.alive
    ensures |Step(s, p).order| >= |s.order| && Step(s, p).order[..|s.order|] == s.order
  {
  }

  /** The region of the stack that starts at sp and grows down. */
  predicate OnStack(sp: int, address: int) {
    sp - STACK_SIZE <= address < sp
  }

  /** In every run each CPU is started at most once, and the CPUs past their boot code have distinct numbers
      below NUM_CPUS and disjoint stacks, none of which meets the interrupt stack. This needs no assumption on
      which CPUs are alive, although the increment of _boot_num is not atomic. */
  lemma NumbersAndStacksDistinct(run: seq<State>, i: nat, j: nat, m: nat, address: int)
    requires IsRun(run) && i < |run| && j < m < |run[i].order|
    ensures var s := run[i];
            && Sized(s) && s.order[j] < 4 && s.order[m] < 4 && s.order[j] != s.order[m]
            && var (k, l) := (s.cpus[s.order[j]], s.cpus[s.order[m]]);
            l.pc !in {BootLoad, BootStore, BootNumber, BootStack} ==>
            && k.r1 != l.r1 && k.r1 < 4 && l.r1 < 4
            && !(OnStack(k.sp, address) && OnStack(l.sp, address))
            && (OnStack(k.sp, address) || OnStack(l.sp, address) ==> address < 0x1FFF_E000)
            && k.sp == 0x1FFF_8000 + 0x2000 * k.r1 && l.sp == 0x1FFF_8000 + 0x2000 * l.r1
  {
    RunKeepsInv(run, i);
    var s := run[i];
    assert EarlierOk(s, j);
    if m < |s.order| - 1 {
      assert EarlierOk(s, m);
    }
  }

  /** If every CPU after the last number is dead, the chain started exactly the CPUs 0..n, in order. */
  lemma {:induction false} FullChain(s: State, j: nat)
    requires Sized(s) && OrderOk(s) && j < |s.order| && NoneAlive(s.alive, |s.order| - 1, NUM_CPUS)
    ensures s.order[j] == j
    decreases |s.order| - j
  {
    assert j > 0 ==> NextAlive(s.alive, j - 1, s.order[j]);
    assert s.alive[s.order[j]];
    if s.order[j] > j {
      FullChain(s, s.order[j]);
    }
  }

  /** When boot_done is set, after bsp_main cleared it, the alive CPUs are a prefix, each of them was started and
      numbered by its own position, and each has incremented _boot_num: it holds their count until bsp_main clears
      it. */
  lemma DoneMeansAllBooted(run: seq<State>, i: nat)
    requires IsRun(run) && i < |run| && run[i].bootDone
    requires run[i].cpus != [] && !Early(run[i].cpus[0].pc)
    ensures var s := run[i];
            && Sized(s) && |s.order| <= 4 && IsPrefix(s.alive)
            && (forall p :: 0 <= p < 4 ==> (s.alive[p] <==> p < |s.order|))
            && (forall p :: 0 <= p < |s.order| ==> s.order[p] == p && s.cpus[p].r1 == p && Kicked(s.cpus[p].pc))
            && (s.cpus[0].pc != Shell ==> s.bootNum == |s.order|)
  {
    RunKeepsInv(run, i);
    var s := run[i];
    forall p | 0 <= p < |s.order|
      ensures s.order[p] == p && s.alive[p] && s.cpus[p].r1 == p && Kicked(s.cpus[p].pc)
    {
      FullChain(s, p);
      assert s.alive[s.order[p]];
      assert p < |s.order| - 1 ==> EarlierOk(s, p);
    }
  }

  /** A step that goes on waiting changes nothing; every other step brings its CPU nearer to its end. */
  function Rank(pc: Pc): nat {
    match pc
    case BootLoad => 40
    case BootStore => 39
    case BootNumber => 38
    case BootStack => 37
    case BspClear => 36
    case KickStart => 35
    case KickTest(i) => if i <= NUM_CPUS then 21 + NUM_CPUS - i else 20
    case RunRead(_) => 12
    case RunWrite(_, _) => 11
    case KickDone => 11
    case BspWait => 5
    case BspReset => 4
    case Shell => 0
    case HaltRead => 5
    case HaltWrite(_) => 4
    case Receive => 0
  }

  function Work(cpus: seq<Cpu>): nat {
    if cpus == [] then 0 else Work(cpus[..|cpus| - 1]) + Rank(cpus[|cpus| - 1].pc)
  }

  lemma {:induction false} WorkUpdate(cpus: seq<Cpu>, p: nat, k: Cpu)
    requires p < |cpus|
    ensures Work(cpus[p := k]) == Work(cpus) - Rank(cpus[p].pc) + Rank(k.pc)
  {
    var n := |cpus| - 1;
    if p < n {
      WorkUpdate(cpus[..n], p, k);
      assert cpus[p := k][..n] == cpus[..n][p := k];
    } else {
      assert cpus[p := k][..n] == cpus[..n];
    }
  }

  lemma StepRanks(s: State, p: nat)
    requires Enabled(s, p) && Step(s, p) != s
    ensures |Step(s, p).cpus| == |s.cpus|
    ensures Step(s, p).cpus == s.cpus[p := Step(s, p).cpus[p]]
    ensures Rank(Step(s, p).cpus[p].pc) < Rank(s.cpus[p].pc)
  {
  }

  lemma StepsWork(s: State, p: nat)
    requires Enabled(s, p) && Step(s, p) != s
    ensures Work(Step(s, p).cpus) < Work(s.cpus)
  {
    StepRanks(s, p);
    WorkUpdate(s.cpus, p, Step(s, p).cpus[p]);
  }

  lemma NextWorks(s: State, s': State)
    requires Next(s, s') && s != s'
    ensures Work(s'.cpus) < Work(s.cpus)
  {
    var p: nat :| Enabled(s, p) && s' == Step(s, p);
    StepsWork(s, p);
  }

  /** Nothing is left to do but wait. */
  ghost predicate Quiescent(s: State) {
    forall p: nat :: Enabled(s, p) ==> Step(s, p) == s
  }

  lemma {:induction false} WorkAtReset(cpus: seq<Cpu>)
    requires forall p :: 0 <= p < |cpus| ==> cpus[p].pc == BootLoad
    ensures Work(cpus) == 40 * |cpus|
  {
    if cpus != [] {
      WorkAtReset(cpus[..|cpus| - 1]);
    }
  }

  lemma {:induction false} Descends(run: seq<State>, i: nat)
    requires i < |run| && forall j {:trigger run[j]} :: 0 < j < |run| ==> Work(run[j].cpus) < Work(run[j - 1].cpus)
    ensures i + Work(run[i].cpus) <= Work(run[0].cpus)
  {
    if i > 0 {
      Descends(run, i - 1);
    }
  }

  /** The boot ends: a run in which every step does something has at most 160 steps. */
  lemma BootEnds(run: seq<State>)
    requires IsRun(run) && forall i :: 0 <= i < |run| - 1 ==> run[i] != run[i + 1]
    ensures |run| + Work(run[|run| - 1].cpus) <= 161
  {
    forall j | 0 < j < |run|
      ensures Work(run[j].cpus) < Work(run[j - 1].cpus)
    {
      var i := j - 1;
      assert Next(run[i], run[i + 1]) && run[i] != run[i + 1];
      NextWorks(run[i], run[j]);
    }
    Descends(run, |run| - 1);
    WorkAtReset(run[0].cpus);
  }

  /** The exact condition for the boot to complete: when nothing moves any more, boot_done is set if and only
      if the alive CPUs are a prefix. With a dead CPU below an alive one, the latter kicks itself and
      bsp_main waits forever. */
  lemma CompletesIffPrefix(run: seq<State>, i: nat)
    requires IsRun(run) && i < |run| && Quiescent(run[i])
    ensures run[i].bootDone <==> IsPrefix(run[0].alive)
  {
    RunKeepsInv(run, i);
    var s := run[i];
    if s.bootDone {
      NotEarlyAtRest(s);
      DoneMeansAllBooted(run, i);
    } else if IsPrefix(s.alive) {
      var p := s.order[|s.order| - 1];
      PrefixOrder(s, |s.order| - 1);
      assert !Kicked(s.cpus[p].pc);
      LastCanStep(s, p);
    }
  }

  lemma NotEarlyAtRest(s: State)
    requires Inv(s) && Quiescent(s)
    ensures !Early(s.cpus[0].pc)
  {
    assert s.order[0] == 0;
    if |s.order| > 1 {
      assert EarlierOk(s, 0);
    } else if !Kicked(s.cpus[0].pc) {
      LastCanStep(s, 0);
    }
  }

  lemma PrefixOrder(s: State, j: nat)
    requires Sized(s) && OrderOk(s) && IsPrefix(s.alive) && j < |s.order|
    ensures s.order[j] == j
  {
    assert s.alive[s.order[j]];
    if j > 0 {
      assert NextAlive(s.alive, j - 1, s.order[j]);
      assert s.alive[j];
    }
  }

  lemma LastCanStep(s: State, p: nat)
    requires Inv(s) && p == s.order[|s.order| - 1] && !Kicked(s.cpus[p].pc)
    ensures Enabled(s, p) && Step(s, p) != s
  {
    if s.cpus[p].pc != BootLoad {
      assert s.cpus[p].r1 == |s.order| - 1;
    }
  }

  /** A CPU whose number is its position is halted exactly from the write with which it halts itself. */
  predicate HaltsOk(s: State, j: nat)
    requires Sized(s) && OrderOk(s) && j < |s.order|
  {
    var pc := s.cpus[s.order[j]].pc;
    j > 0 && s.order[j] == j ==>
      (pc == Receive <==> s.halted[j]) && (pc.HaltWrite? ==> pc.running)
  }

  ghost predicate AllHaltsOk(s: State)
    requires Sized(s) && OrderOk(s)
  {
    forall j :: 0 <= j < |s.order| ==> HaltsOk(s, j)
  }

  lemma KickedKeepsHalts(s: State, p: nat, j: nat)
    requires IsKicked(s, p, j) && AllHaltsOk(s)
    ensures Sized(Step(s, p)) && OrderOk(Step(s, p)) && AllHaltsOk(Step(s, p))
  {
    KickedNumber(s, p, j);
    KickedStep(s, p, j);
    assert Started(s, j) && HaltsOk(s, j);
    var s' := Step(s, p);
    forall m | 0 <= m < |s'.order|
      ensures HaltsOk(s', m)
    {
      assert HaltsOk(s, m) && s'.order[m] == s.order[m];
      assert m != j ==> s.order[m] != p;
    }
  }

  lemma LastKeepsHalts(s: State, p: nat)
    requires IsLast(s, p) && AllHaltsOk(s) && !Starts(s.cpus[p])
    ensures Sized(Step(s, p)) && OrderOk(Step(s, p)) && AllHaltsOk(Step(s, p))
  {
    StepFrames(s, p);
    var s', n := Step(s, p), |s.order| - 1;
    FrameKeepsOrder(s, s', p);
    forall m | 0 <= m < |s'.order|
      ensures HaltsOk(s', m)
    {
      assert HaltsOk(s, m);
      assert m != n ==> s.order[m] != p;
    }
  }

  lemma StartKeepsHalts(s: State, p: nat)
    requires IsLast(s, p) && AllHaltsOk(s) && Starts(s.cpus[p])
    ensures Sized(Step(s, p)) && OrderOk(Step(s, p)) && AllHaltsOk(Step(s, p))
  {
    StartKeepsOrder(s, p);
    var s', i := Step(s, p), s.cpus[p].pc.to;
    TargetIsNew(s, i);
    forall m | 0 <= m < |s'.order|
      ensures HaltsOk(s', m)
    {
      if m < |s.order| {
        assert HaltsOk(s, m) && s'.order[m] == s.order[m] != i;
      }
    }
  }

  lemma StepKeepsHalts(s: State, p: nat)
    requires Inv(s) && AllHaltsOk(s) && Enabled(s, p)
    ensures Sized(Step(s, p)) && OrderOk(Step(s, p)) && AllHaltsOk(Step(s, p))
  {
    var j := RunnerStarted(s, p);
    if Kicked(s.cpus[p].pc) {
      KickedKeepsHalts(s, p, j);
    } else {
      assert j < |s.order| - 1 ==> EarlierOk(s, j);
      if Starts(s.cpus[p]) {
        StartKeepsHalts(s, p);
      } else {
        LastKeepsHalts(s, p);
      }
    }
  }

  lemma {:induction false} RunKeepsHalts(run: seq<State>, i: nat)
    requires IsRun(run) && i < |run|
    ensures Inv(run[i]) && AllHaltsOk(run[i])
  {
    RunKeepsInv(run, i);
    if i > 0 {
      RunKeepsHalts(run, i - 1);
      assert Next(run[i - 1], run[i - 1 + 1]);
      var p: nat :| Enabled(run[i - 1], p) && run[i] == Step(run[i - 1], p);
      StepKeepsHalts(run[i - 1], p);
    }
  }

  /** After a complete boot, when nothing moves any more, every alive CPU but the first has halted itself on its way to
      receiving commands, and the first runs its shell, _boot_num cleared. */
  lemma ApsHaltThemselves(run: seq<State>, i: nat)
    requires IsRun(run) && i < |run| && Quiescent(run[i]) && run[i].bootDone
    ensures Sized(run[i])
    ensures forall p :: 1 <= p < 4 && run[i].alive[p] ==> run[i].halted[p] && run[i].cpus[p].pc == Receive
    ensures !run[i].halted[0] && run[i].cpus[0].pc == Shell && run[i].bootNum == 0
  {
    var s := run[i];
    RunKeepsHalts(run, i);
    NotEarlyAtRest(s);
    DoneMeansAllBooted(run, i);
    forall p | 0 <= p < |s.order|
      ensures if p == 0 then !s.halted[0] && s.cpus[0].pc == Shell else s.halted[p] && s.cpus[p].pc == Receive
    {
      KickedAtRest(s, p);
    }
    assert Started(s, 0);
  }

  lemma KickedAtRest(s: State, p: nat)
    requires Inv(s) && AllHaltsOk(s) && Quiescent(s) && s.bootDone && p < |s.order|
    requires s.order[p] == p && s.cpus[p].r1 == p && Kicked(s.cpus[p].pc)
    ensures if p == 0 then !s.halted[0] && s.cpus[0].pc == Shell else s.halted[p] && s.cpus[p].pc == Receive
  {
    assert Started(s, p) && HaltsOk(s, p) && s.alive[s.order[p]];
    if s.cpus[p].pc != Shell && s.cpus[p].pc != Receive {
      assert Enabled(s, p);
    }
  }
}
