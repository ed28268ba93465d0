/** The dual-core flash/cache handshake of cache_utils.c, as interleaved statements of the two
    cores.

    One task at a time holds the recursive operation lock; only that task and the two IPC tasks
    have a program counter, because every other task is either outside these functions or
    blocked in the lock. A task moves between the cores at context switches. Context switches
    are unrestricted except where the scheduler of a core is suspended, so what is proved of every
    run holds for all priorities and affinities. Progress is proved for a schedule that respects the
    affinity of the lock owner. */
module CacheUtils {

  datatype CoreId = Pro | App

  function Other(c: CoreId): CoreId {
    if c.Pro? then App else Pro
  }

  /** What a core is executing. */
  datatype Running = Nobody | Task(id: nat) | IpcTask

  /** The one-slot mailbox of a core: a request to run spi_flash_op_block_func with its argument,
      or some other function that ends by itself. */
  datatype Mail = Empty | Block(arg: CoreId) | Foreign

  /** The next statement of the IPC task of a core; all but the first two belong to
      spi_flash_op_block_func. */
  datatype IpcPc =
    | Waiting
    | InForeign
    | BlockSuspend    // vTaskSuspendAll
    | BlockMask       // esp_intr_noniram_disable
    | ClearComplete   // s_flash_op_complete = false
    | SetCanStart     // s_flash_op_can_start = true
    | Spin            // while (!s_flash_op_complete)
    | BlockRestore    // spi_flash_restore_cache
    | BlockUnmask     // esp_intr_noniram_enable
    | BlockResume     // xTaskResumeAll
    | Leave

  datatype Core = Core(
    running: Running,
    schedOff: bool,   // scheduler suspended
    intrOff: bool,    // interrupts outside IRAM disabled
    cacheOn: bool,
    saved: bool,      // s_flash_op_cache_state
    mail: Mail,
    ipc: IpcPc,
    arg: CoreId)      // argument of the running spi_flash_op_block_func

  /** The next statement of the task that holds the lock: Owns while it is outside the two
      functions, then spi_flash_disable_interrupts_caches_and_other_cpu up to FlashOp, then
      spi_flash_enable_interrupts_caches_and_other_cpu. */
  datatype Pc =
    | Owns
    | ReadCore        // cpuid = xPortGetCoreID()
    | CheckNoOp       // assert(s_flash_op_cpu == -1)
    | RecordCore      // s_flash_op_cpu = cpuid
    | CheckScheduler  // xTaskGetSchedulerState()
    | CheckOtherIsApp // assert(other_cpuid == 1)
    | ClearCanStart   // s_flash_op_can_start = false
    | PostBlock       // esp_ipc_call
    | AwaitStart      // while (!s_flash_op_can_start)
    | Suspend         // vTaskSuspendAll
    | CheckCore       // assert(xPortGetCoreID() == cpuid)
    | Mask            // esp_intr_noniram_disable
    | OwnCacheOff     // spi_flash_disable_cache(cpuid)
    | OtherCacheOff   // spi_flash_disable_cache(other_cpuid)
    | FlashOp
    | ReadCoreAgain   // cpuid = xPortGetCoreID()
    | CheckSameCore   // assert(cpuid == s_flash_op_cpu)
    | CheckBootCore   // assert(!(not started && cpuid != 0))
    | ForgetCore      // s_flash_op_cpu = -1
    | OwnCacheOn      // spi_flash_restore_cache(cpuid)
    | OtherCacheOn    // spi_flash_restore_cache(other_cpuid)
    | SetComplete     // s_flash_op_complete = true
    | Unmask          // esp_intr_noniram_enable
    | Resume          // xTaskResumeAll
    | Unlock          // spi_flash_op_unlock

  /** The operation lock; an owner has a recursion depth, its next statement and its local
      variable cpuid. */
  datatype Lock = Free | Held(task: nat, depth: nat, pc: Pc, cpu: CoreId)

  /** s_flash_op_cpu. */
  datatype OpCpu = NoCpu | Cpu(core: CoreId)

  datatype State = State(
    started: bool,       // the scheduler has been started
    pro: Core,
    app: Core,
    canStart: bool,      // s_flash_op_can_start
    complete: bool,      // s_flash_op_complete
    opCpu: OpCpu,
    lock: Lock)
  {
    function At(c: CoreId): Core {
      if c.Pro? then pro else app
    }

    function Put(c: CoreId, v: Core): State {
      if c.Pro? then this.(pro := v) else this.(app := v)
    }
  }

  datatype Step =
    | Switch(core: CoreId, to: Running)
    | StartScheduler
    | TakeLock(core: CoreId)                       // spi_flash_op_lock
    | GiveLock(core: CoreId)                       // spi_flash_op_unlock
    | BeginOp(core: CoreId)                        // calls the disable function
    | Advance(core: CoreId)                        // next statement of the lock owner
    | IpcStep(core: CoreId)                        // next statement of the IPC task
    | PostForeign(core: CoreId, target: CoreId)    // some task uses esp_ipc_call

  predicate OwnerOn(s: State, c: CoreId) {
    s.lock.Held? && s.At(c).running == Task(s.lock.task)
  }

  /** The task on core c can take the lock: it is free, or this task owns it already. */
  predicate LockAvailable(s: State, c: CoreId) {
    s.At(c).running.Task? && (s.lock.Free? || (OwnerOn(s, c) && s.lock.pc == Owns))
  }

  /** The two waits of the lock owner: for room in the mailbox, and for s_flash_op_can_start. */
  predicate CanAdvance(s: State, c: CoreId) {
    && OwnerOn(s, c) && s.lock.pc != Owns
    && (s.lock.pc == PostBlock ==> s.At(Other(s.lock.cpu)).mail.Empty?)
    && (s.lock.pc == AwaitStart ==> s.canStart)
  }

  /** The two waits of an IPC task: for a request, and for s_flash_op_complete. */
  predicate CanIpcStep(s: State, c: CoreId) {
    && s.At(c).running.IpcTask?
    && (s.At(c).ipc == Waiting ==> !s.At(c).mail.Empty?)
    && (s.At(c).ipc == Spin ==> s.complete)
  }

  predicate Enabled(s: State, step: Step) {
    match step
    case Switch(c, to) =>
      && s.started && !s.At(c).schedOff
      && (to.Task? ==> s.At(Other(c)).running != to)
      && (to.IpcTask? ==> s.At(c).ipc != Waiting || !s.At(c).mail.Empty?)
    case StartScheduler => !s.started && s.lock.Free?
    case TakeLock(c) => LockAvailable(s, c)
    case GiveLock(c) => OwnerOn(s, c) && s.lock.pc == Owns
    case BeginOp(c) => LockAvailable(s, c)
    case Advance(c) => CanAdvance(s, c)
    case IpcStep(c) => CanIpcStep(s, c)
    case PostForeign(c, target) => s.started && s.At(c).running.Task? && s.At(target).mail.Empty?
  }

  function Acquire(s: State, c: CoreId, pc: Pc): State
    requires LockAvailable(s, c)
  {
    if s.lock.Free? then
      s.(lock := Held(s.At(c).running.id, 1, pc, c))
    else
      s.(lock := s.lock.(depth := s.lock.depth + 1, pc := pc))
  }

  function Release(s: State): State
    requires s.lock.Held?
  {
    if s.lock.depth <= 1 then s.(lock := Free)
    else s.(lock := s.lock.(depth := s.lock.depth - 1, pc := Owns))
  }

  /** The IPC tasks and their mailboxes are the same. */
  predicate SameIpc(s: State, t: State) {
    && s.pro.ipc == t.pro.ipc && s.pro.mail == t.pro.mail
    && s.app.ipc == t.app.ipc && s.app.mail == t.app.mail
  }

  predicate SameTasks(s: State, t: State) {
    s.pro.running == t.pro.running && s.app.running == t.app.running
  }

  function Goto(s: State, pc: Pc): State
    requires s.lock.Held?
  {
    s.(lock := s.lock.(pc := pc))
  }

  /** vTaskSuspendAll and xTaskResumeAll. */
  function SetSched(s: State, c: CoreId, off: bool): (t: State)
    ensures SameIpc(s, t) && SameTasks(s, t) && t.lock == s.lock
  {
    s.Put(c, s.At(c).(schedOff := off))
  }

  /** esp_intr_noniram_disable and esp_intr_noniram_enable. */
  function SetIntr(s: State, c: CoreId, off: bool): (t: State)
    ensures SameIpc(s, t) && SameTasks(s, t) && t.lock == s.lock
  {
    s.Put(c, s.At(c).(intrOff := off))
  }

  /** spi_flash_disable_cache. */
  function DisableCache(s: State, cpu: CoreId): (t: State)
    ensures SameIpc(s, t) && SameTasks(s, t) && t.lock == s.lock
  {
    s.Put(cpu, s.At(cpu).(saved := s.At(cpu).cacheOn, cacheOn := false))
  }

  /** spi_flash_restore_cache. */
  function RestoreCache(s: State, cpu: CoreId): (t: State)
    ensures SameIpc(s, t) && SameTasks(s, t) && t.lock == s.lock
  {
    s.Put(cpu, s.At(cpu).(cacheOn := s.At(cpu).saved))
  }

  /** Position of a statement of the lock owner in program order. */
  function Ord(pc: Pc): nat {
    match pc
    case Owns => 0
    case ReadCore => 1
    case CheckNoOp => 2
    case RecordCore => 3
    case CheckScheduler => 4
    case ClearCanStart => 5
    case PostBlock => 6
    case AwaitStart => 7
    case Suspend => 8
    case CheckCore => 9
    case CheckOtherIsApp => 9
    case Mask => 10
    case OwnCacheOff => 11
    case OtherCacheOff => 12
    case FlashOp => 13
    case ReadCoreAgain => 14
    case CheckSameCore => 15
    case CheckBootCore => 16
    case ForgetCore => 17
    case OwnCacheOn => 18
    case OtherCacheOn => 19
    case SetComplete => 20
    case Unmask => 21
    case Resume => 22
    case Unlock => 23
  }

  /** Position of the lock owner, 0 when the lock is free. */
  function Position(s: State): nat {
    if s.lock.Free? then 0 else Ord(s.lock.pc)
  }

  /** The statement after pc. */
  function NextPc(pc: Pc, started: bool): (next: Pc)
    requires pc !in {Owns, Unlock}
    ensures Ord(next) > Ord(pc)
  {
    match pc
    case ReadCore => CheckNoOp
    case CheckNoOp => RecordCore
    case RecordCore => CheckScheduler
    case CheckScheduler => if started then ClearCanStart else CheckOtherIsApp
    case CheckOtherIsApp => Mask
    case ClearCanStart => PostBlock
    case PostBlock => AwaitStart
    case AwaitStart => Suspend
    case Suspend => CheckCore
    case CheckCore => Mask
    case Mask => OwnCacheOff
    case OwnCacheOff => OtherCacheOff
    case OtherCacheOff => FlashOp
    case FlashOp => ReadCoreAgain
    case ReadCoreAgain => CheckSameCore
    case CheckSameCore => CheckBootCore
    case CheckBootCore => ForgetCore
    case ForgetCore => OwnCacheOn
    case OwnCacheOn => OtherCacheOn
    case OtherCacheOn => SetComplete
    case SetComplete => Unmask
    case Unmask => Resume
    case Resume => Unlock
  }

  /** What the statement of the lock owner changes, executed on core c. */
  function Effect(s: State, c: CoreId): (t: State)
    requires CanAdvance(s, c)
    ensures t.lock.Held? && t.lock.pc == s.lock.pc
    ensures (s.lock.pc != PostBlock ==> SameIpc(s, t)) && SameTasks(s, t)
  {
    var own := s.lock.cpu;
    var other := Other(own);
    match s.lock.pc
    case ReadCore => s.(lock := s.lock.(cpu := c))
    case RecordCore => s.(opCpu := Cpu(own))
    case ClearCanStart => s.(canStart := false)
    case PostBlock => s.Put(other, s.At(other).(mail := Block(other)))
    case Suspend => SetSched(s, c, true)
    case Mask => SetIntr(s, c, true)
    case OwnCacheOff => DisableCache(s, own)
    case OtherCacheOff => DisableCache(s, other)
    case ReadCoreAgain => s.(lock := s.lock.(cpu := c))
    case ForgetCore => s.(opCpu := NoCpu)
    case OwnCacheOn => RestoreCache(s, own)
    case OtherCacheOn => RestoreCache(s, other)
    case SetComplete => if s.started then s.(complete := true) else s
    case Unmask => SetIntr(s, c, false)
    case Resume => if s.started then SetSched(s, c, false) else s
    case _ => s
  }

  /** The next statement of the lock owner, executed on core c. */
  function AdvanceOn(s: State, c: CoreId): State
    requires CanAdvance(s, c)
  {
    if s.lock.pc == Unlock then Release(s)
    else Goto(Effect(s, c), NextPc(s.lock.pc, s.started))
  }

  /** The statement of the IPC task of core c. */
  function IpcStepOn(s: State, c: CoreId): State
    requires CanIpcStep(s, c)
  {
    var core := s.At(c);
    match core.ipc
    case Waiting =>
      s.Put(c, if core.mail.Block? then core.(mail := Empty, ipc := BlockSuspend, arg := core.mail.arg)
               else core.(mail := Empty, ipc := InForeign))
    case InForeign => s.Put(c, core.(ipc := Waiting))
    case BlockSuspend => s.Put(c, core.(schedOff := true, ipc := BlockMask))
    case BlockMask => s.Put(c, core.(intrOff := true, ipc := ClearComplete))
    case ClearComplete => s.Put(c, core.(ipc := SetCanStart)).(complete := false)
    case SetCanStart => s.Put(c, core.(ipc := Spin)).(canStart := true)
    case Spin => s.Put(c, core.(ipc := BlockRestore))
    case BlockRestore =>
      var t := RestoreCache(s, core.arg);
      t.Put(c, t.At(c).(ipc := BlockUnmask))
    case BlockUnmask => s.Put(c, core.(intrOff := false, ipc := BlockResume))
    case BlockResume => s.Put(c, core.(schedOff := false, ipc := Leave))
    case Leave => s.Put(c, core.(ipc := Waiting))
  }

  function Apply(s: State, step: Step): State
    requires Enabled(s, step)
  {
    match step
    case Switch(c, to) => s.Put(c, s.At(c).(running := to))
    case StartScheduler => s.(started := true)
    case TakeLock(c) => Acquire(s, c, Owns)
    case GiveLock(_) => Release(s)
    case BeginOp(c) => Acquire(s, c, ReadCore)
    case Advance(c) => AdvanceOn(s, c)
    case IpcStep(c) => IpcStepOn(s, c)
    case PostForeign(_, target) => s.Put(target, s.At(target).(mail := Foreign))
  }

  predicate CoreAtBoot(core: Core) {
    !core.schedOff && !core.intrOff && core.cacheOn && core.mail.Empty? && core.ipc == Waiting
  }

  /** Boot: one task on the PRO core, the APP core held, caches on. */
  predicate Init(s: State) {
    && !s.started
    && CoreAtBoot(s.pro) && CoreAtBoot(s.app)
    && s.pro.running.Task? && s.app.running == Nobody
    && !s.canStart && !s.complete && s.opCpu == NoCpu && s.lock == Free
  }

  predicate Leads(s: State, step: Step, t: State) {
    Enabled(s, step) && t == Apply(s, step)
  }

  /** A run: any number of steps from boot, in any interleaving. */
  ghost predicate IsRun(states: seq<State>, steps: seq<Step>) {
    && |states| == |steps| + 1
    && Init(states[0])
    && forall i :: 0 <= i < |steps| ==> Leads(states[i], steps[i], states[i + 1])
  }

  // ---------------------------------------------------------------------------------------
  // The invariant
  // ---------------------------------------------------------------------------------------

  /** Position in the block function, 0 outside it; 2 to 8 run with the scheduler suspended. */
  function IpcOrd(pc: IpcPc): int {
    match pc
    case Waiting => 0
    case InForeign => 0
    case BlockSuspend => 1
    case BlockMask => 2
    case ClearComplete => 3
    case SetCanStart => 4
    case Spin => 5
    case BlockRestore => 6
    case BlockUnmask => 7
    case BlockResume => 8
    case Leave => 0
  }

  /** The shared flags. */
  datatype Flags = Flags(started: bool, canStart: bool, complete: bool)

  function FlagsOf(s: State): Flags {
    Flags(s.started, s.canStart, s.complete)
  }

  /** What is known of a core: k is the position of the lock owner, own says that its round is
      recorded on this core, other that it is recorded on the other core. */
  predicate CoreFacts(f: Flags, core: Core, c: CoreId, k: nat, own: bool, other: bool) {
    var p := IpcOrd(core.ipc);
    // the block function only ever runs on the core named by its argument
    && (1 <= p <= 8 ==> core.arg == c)
    && (2 <= p <= 8 ==> core.running == IpcTask)
    && (core.mail.Block? ==>
          core.mail.arg == c && other && k == 7 && !f.canStart && !(1 <= p <= 4)
          && (p == 5 ==> f.complete))
    // a block function that has not reached its loop belongs to the round in progress
    && (1 <= p <= 4 ==> other && k == 7 && !f.canStart)
    && (p == 4 ==> !f.complete)
    // and so does one that loops with no permission to leave
    && (p == 5 && !f.complete ==> other && 7 <= k <= 20 && f.canStart)
    && (other && 8 <= k <= 20 && f.started ==> p == 5 && !f.complete)
    && (own && 2 <= k ==> !(2 <= p <= 8))
    // who disabled what
    && (core.schedOff <==> 2 <= p <= 8 || (own && 9 <= k <= 22 && f.started))
    && (core.intrOff <==> 3 <= p <= 7 || (own && 11 <= k <= 21))
    && (core.cacheOn <==> !(own && 12 <= k <= 18) && !(other && 13 <= k <= 19))
    && (!core.cacheOn || (other && 13 <= k <= 20) || p == 6 || (p == 5 && f.complete) ==> core.saved)
  }

  predicate CoreInv(s: State, c: CoreId) {
    CoreFacts(FlagsOf(s), s.At(c), c, Position(s), s.lock.Held? && s.lock.cpu == c,
              s.lock.Held? && s.lock.cpu == Other(c))
  }

  /** What is known of the lock owner. */
  predicate OwnerInv(s: State)
    requires s.lock.Held?
  {
    var pc := s.lock.pc;
    var there := s.At(Other(s.lock.cpu));
    && s.lock.depth >= 1
    && (s.started ==> pc != CheckOtherIsApp)
    && (s.started && 9 <= Ord(pc) <= 22 ==> s.At(s.lock.cpu).running == Task(s.lock.task))
    && (!s.started ==>
          && s.pro.running == Task(s.lock.task)
          && (Ord(pc) >= 2 ==> s.lock.cpu == Pro)
          && !(5 <= Ord(pc) <= 8) && pc != CheckCore)
    && (pc == PostBlock ==> !s.canStart)
    && (pc == AwaitStart && !s.canStart ==> there.mail.Block? || 1 <= IpcOrd(there.ipc) <= 4)
    && (pc == AwaitStart && s.canStart ==> there.ipc == Spin && !s.complete)
  }

  predicate GlobalInv(s: State) {
    && (s.pro.running.Task? ==> s.app.running != s.pro.running)
    && !(2 <= IpcOrd(s.pro.ipc) <= 8 && 2 <= IpcOrd(s.app.ipc) <= 8)
    && s.opCpu == (if 4 <= Position(s) <= 17 then Cpu(s.lock.cpu) else NoCpu)
    && (!s.started ==>
          && s.app.running == Nobody && s.pro.running.Task?
          && s.pro.mail.Empty? && s.app.mail.Empty?
          && s.pro.ipc == Waiting && s.app.ipc == Waiting)
  }

  predicate Inv(s: State) {
    && CoreInv(s, Pro) && CoreInv(s, App)
    && (s.lock.Held? ==> OwnerInv(s))
    && GlobalInv(s)
  }

  // ---------------------------------------------------------------------------------------
  // Every step keeps the invariant
  // ---------------------------------------------------------------------------------------

  lemma ReadCoreKeepsInv(s: State, c: CoreId)
    requires Inv(s) && CanAdvance(s, c) && s.lock.pc == ReadCore
    ensures Inv(AdvanceOn(s, c))
  {
  }

  lemma CheckNoOpKeepsInv(s: State, c: CoreId)
    requires Inv(s) && CanAdvance(s, c) && s.lock.pc == CheckNoOp
    ensures Inv(AdvanceOn(s, c))
  {
  }

  lemma RecordCoreKeepsInv(s: State, c: CoreId)
    requires Inv(s) && CanAdvance(s, c) && s.lock.pc == RecordCore
    ensures Inv(AdvanceOn(s, c))
  {
  }

  lemma CheckSchedulerKeepsInv(s: State, c: CoreId)
    requires Inv(s) && CanAdvance(s, c) && s.lock.pc == CheckScheduler
    ensures Inv(AdvanceOn(s, c))
  {
  }

  lemma CheckOtherIsAppKeepsInv(s: State, c: CoreId)
    requires Inv(s) && CanAdvance(s, c) && s.lock.pc == CheckOtherIsApp
    ensures Inv(AdvanceOn(s, c))
  {
  }

  lemma ClearCanStartKeepsInv(s: State, c: CoreId)
    requires Inv(s) && CanAdvance(s, c) && s.lock.pc == ClearCanStart
    ensures Inv(AdvanceOn(s, c))
  {
  }

  lemma PostBlockKeepsInv(s: State, c: CoreId)
    requires Inv(s) && CanAdvance(s, c) && s.lock.pc == PostBlock
    ensures Inv(AdvanceOn(s, c))
  {
  }

  lemma AwaitStartKeepsInv(s: State, c: CoreId)
    requires Inv(s) && CanAdvance(s, c) && s.lock.pc == AwaitStart
    ensures Inv(AdvanceOn(s, c))
  {
  }

  lemma SuspendKeepsInv(s: State, c: CoreId)
    requires Inv(s) && CanAdvance(s, c) && s.lock.pc == Suspend
    ensures Inv(AdvanceOn(s, c))
  {
  }

  lemma CheckCoreKeepsInv(s: State, c: CoreId)
    requires Inv(s) && CanAdvance(s, c) && s.lock.pc == CheckCore
    ensures Inv(AdvanceOn(s, c))
  {
  }

  lemma MaskKeepsInv(s: State, c: CoreId)
    requires Inv(s) && CanAdvance(s, c) && s.lock.pc == Mask
    ensures Inv(AdvanceOn(s, c))
  {
  }

  lemma OwnCacheOffKeepsInv(s: State, c: CoreId)
    requires Inv(s) && CanAdvance(s, c) && s.lock.pc == OwnCacheOff
    ensures Inv(AdvanceOn(s, c))
  {
  }

  lemma OtherCacheOffKeepsInv(s: State, c: CoreId)
    requires Inv(s) && CanAdvance(s, c) && s.lock.pc == OtherCacheOff
    ensures Inv(AdvanceOn(s, c))
  {
  }

  lemma FlashOpKeepsInv(s: State, c: CoreId)
    requires Inv(s) && CanAdvance(s, c) && s.lock.pc == FlashOp
    ensures Inv(AdvanceOn(s, c))
  {
  }

  lemma ReadCoreAgainKeepsInv(s: State, c: CoreId)
    requires Inv(s) && CanAdvance(s, c) && s.lock.pc == ReadCoreAgain
    ensures Inv(AdvanceOn(s, c))
  {
  }

  lemma CheckSameCoreKeepsInv(s: State, c: CoreId)
    requires Inv(s) && CanAdvance(s, c) && s.lock.pc == CheckSameCore
    ensures Inv(AdvanceOn(s, c))
  {
  }

  lemma CheckBootCoreKeepsInv(s: State, c: CoreId)
    requires Inv(s) && CanAdvance(s, c) && s.lock.pc == CheckBootCore
    ensures Inv(AdvanceOn(s, c))
  {
  }

  lemma ForgetCoreKeepsInv(s: State, c: CoreId)
    requires Inv(s) && CanAdvance(s, c) && s.lock.pc == ForgetCore
    ensures Inv(AdvanceOn(s, c))
  {
  }

  lemma OwnCacheOnKeepsInv(s: State, c: CoreId)
    requires Inv(s) && CanAdvance(s, c) && s.lock.pc == OwnCacheOn
    ensures Inv(AdvanceOn(s, c))
  {
  }

  lemma OtherCacheOnKeepsInv(s: State, c: CoreId)
    requires Inv(s) && CanAdvance(s, c) && s.lock.pc == OtherCacheOn
    ensures Inv(AdvanceOn(s, c))
  {
  }

  lemma SetCompleteKeepsInv(s: State, c: CoreId)
    requires Inv(s) && CanAdvance(s, c) && s.lock.pc == SetComplete
    ensures Inv(AdvanceOn(s, c))
  {
  }

  lemma UnmaskKeepsInv(s: State, c: CoreId)
    requires Inv(s) && CanAdvance(s, c) && s.lock.pc == Unmask
    ensures Inv(AdvanceOn(s, c))
  {
  }

  lemma ResumeKeepsInv(s: State, c: CoreId)
    requires Inv(s) && CanAdvance(s, c) && s.lock.pc == Resume
    ensures Inv(AdvanceOn(s, c))
  {
  }

  lemma UnlockKeepsCore(s: State, x: CoreId)
    requires CoreInv(s, x) && s.lock.Held? && s.lock.pc == Unlock
    ensures CoreInv(Release(s), x)
  {
  }

  lemma UnlockKeepsInv(s: State, c: CoreId)
    requires Inv(s) && CanAdvance(s, c) && s.lock.pc == Unlock
    ensures Inv(AdvanceOn(s, c))
  {
    UnlockKeepsCore(s, Pro);
    UnlockKeepsCore(s, App);
  }

  /** A change of a core that no other clause depends on: an IPC function other than the block
      function starts or ends, the block function returns, or a foreign request is posted. */
  predicate QuietChange(a: Core, b: Core) {
    && b == a.(ipc := b.ipc, mail := b.mail)
    && IpcOrd(b.ipc) == IpcOrd(a.ipc)
    && (b.mail == a.mail || (!b.mail.Block? && !a.mail.Block?))
    && (a.ipc == Spin <==> b.ipc == Spin)
  }

  lemma QuietChangeKeepsCore(s: State, c: CoreId, core: Core)
    requires CoreInv(s, c) && QuietChange(s.At(c), core)
    ensures CoreInv(s.Put(c, core), c)
  {
  }

  lemma PutKeepsOtherCore(s: State, c: CoreId, core: Core)
    requires CoreInv(s, Other(c))
    ensures CoreInv(s.Put(c, core), Other(c))
  {
  }

  /** What is known besides of the single cores. */
  predicate RestInv(s: State) {
    (s.lock.Held? ==> OwnerInv(s)) && GlobalInv(s)
  }

  lemma InvFromParts(s: State, c: CoreId)
    requires CoreInv(s, c) && CoreInv(s, Other(c)) && RestInv(s)
    ensures Inv(s)
  {
  }

  lemma InvParts(s: State, c: CoreId)
    requires Inv(s)
    ensures CoreInv(s, c) && CoreInv(s, Other(c)) && RestInv(s)
  {
  }

  /** A change of one core only. */
  lemma PutKeepsInv(s: State, c: CoreId, core: Core)
    requires Inv(s) && CoreInv(s.Put(c, core), c) && RestInv(s.Put(c, core))
    ensures Inv(s.Put(c, core))
  {
    InvParts(s, c);
    PutKeepsOtherCore(s, c, core);
    InvFromParts(s.Put(c, core), c);
  }

  lemma QuietChangeKeepsRest(s: State, c: CoreId, core: Core)
    requires RestInv(s) && s.started && QuietChange(s.At(c), core)
    ensures RestInv(s.Put(c, core))
  {
  }

  lemma QuietChangeKeepsInv(s: State, c: CoreId, core: Core)
    requires Inv(s) && s.started && QuietChange(s.At(c), core)
    ensures Inv(s.Put(c, core))
  {
    InvParts(s, c);
    QuietChangeKeepsCore(s, c, core);
    QuietChangeKeepsRest(s, c, core);
    PutKeepsInv(s, c, core);
  }

  lemma BlockStartKeepsInv(s: State, c: CoreId)
    requires Inv(s) && CanIpcStep(s, c) && s.At(c).ipc == Waiting && s.At(c).mail.Block?
    ensures Inv(IpcStepOn(s, c))
  {
  }

  lemma BlockSuspendKeepsInv(s: State, c: CoreId)
    requires Inv(s) && CanIpcStep(s, c) && s.At(c).ipc == BlockSuspend
    ensures Inv(IpcStepOn(s, c))
  {
  }

  lemma BlockMaskKeepsInv(s: State, c: CoreId)
    requires Inv(s) && CanIpcStep(s, c) && s.At(c).ipc == BlockMask
    ensures Inv(IpcStepOn(s, c))
  {
  }

  lemma ClearCompleteKeepsInv(s: State, c: CoreId)
    requires Inv(s) && CanIpcStep(s, c) && s.At(c).ipc == ClearComplete
    ensures Inv(IpcStepOn(s, c))
  {
  }

  lemma SetCanStartKeepsInv(s: State, c: CoreId)
    requires Inv(s) && CanIpcStep(s, c) && s.At(c).ipc == SetCanStart
    ensures Inv(IpcStepOn(s, c))
  {
  }

  /** The block function goes on or returns, once it may leave its loop. */
  predicate LateMove(complete: bool, a: Core, b: Core) {
    && b.running == a.running && b.mail == a.mail
    && (IpcOrd(a.ipc) >= 6 || (a.ipc == Spin && complete))
    && (IpcOrd(b.ipc) >= 6 || b.ipc == Leave)
  }

  lemma LateMoveKeepsRest(s: State, c: CoreId, core: Core)
    requires RestInv(s) && s.started && LateMove(s.complete, s.At(c), core)
    ensures RestInv(s.Put(c, core))
  {
  }

  lemma LateMoveKeepsInv(s: State, c: CoreId, core: Core)
    requires Inv(s) && s.started && LateMove(s.complete, s.At(c), core)
    requires CoreInv(s.Put(c, core), c)
    ensures Inv(s.Put(c, core))
  {
    LateMoveKeepsRest(s, c, core);
    PutKeepsInv(s, c, core);
  }

  lemma SpinKeepsFacts(f: Flags, core: Core, c: CoreId, k: nat, own: bool, other: bool)
    requires CoreFacts(f, core, c, k, own, other) && core.ipc == Spin && f.complete
    ensures CoreFacts(f, core.(ipc := BlockRestore), c, k, own, other)
  {
  }

  lemma BlockRestoreKeepsFacts(f: Flags, core: Core, c: CoreId, k: nat, own: bool, other: bool)
    requires CoreFacts(f, core, c, k, own, other) && core.ipc == BlockRestore && f.started
    ensures core.arg == c
    ensures CoreFacts(f, core.(cacheOn := core.saved, ipc := BlockUnmask), c, k, own, other)
  {
  }

  lemma BlockUnmaskKeepsFacts(f: Flags, core: Core, c: CoreId, k: nat, own: bool, other: bool)
    requires CoreFacts(f, core, c, k, own, other) && core.ipc == BlockUnmask
    ensures CoreFacts(f, core.(intrOff := false, ipc := BlockResume), c, k, own, other)
  {
  }

  lemma BlockResumeKeepsFacts(f: Flags, core: Core, c: CoreId, k: nat, own: bool, other: bool)
    requires CoreFacts(f, core, c, k, own, other) && core.ipc == BlockResume
    ensures CoreFacts(f, core.(schedOff := false, ipc := Leave), c, k, own, other)
  {
  }

  /** Before the scheduler runs there is no block function. */
  lemma BlockIsStarted(s: State, c: CoreId)
    requires Inv(s) && IpcOrd(s.At(c).ipc) > 0
    ensures s.started
  {
  }

  lemma SpinKeepsInv(s: State, c: CoreId)
    requires Inv(s) && CanIpcStep(s, c) && s.At(c).ipc == Spin
    ensures Inv(IpcStepOn(s, c))
  {
    BlockIsStarted(s, c);
    InvParts(s, c);
    var own, other := s.lock.Held? && s.lock.cpu == c, s.lock.Held? && s.lock.cpu == Other(c);
    SpinKeepsFacts(FlagsOf(s), s.At(c), c, Position(s), own, other);
    LateMoveKeepsInv(s, c, s.At(c).(ipc := BlockRestore));
  }

  lemma BlockRestoreKeepsInv(s: State, c: CoreId)
    requires Inv(s) && CanIpcStep(s, c) && s.At(c).ipc == BlockRestore
    ensures Inv(IpcStepOn(s, c))
  {
    BlockIsStarted(s, c);
    InvParts(s, c);
    var own, other := s.lock.Held? && s.lock.cpu == c, s.lock.Held? && s.lock.cpu == Other(c);
    BlockRestoreKeepsFacts(FlagsOf(s), s.At(c), c, Position(s), own, other);
    LateMoveKeepsInv(s, c, s.At(c).(cacheOn := s.At(c).saved, ipc := BlockUnmask));
  }

  lemma BlockUnmaskKeepsInv(s: State, c: CoreId)
    requires Inv(s) && CanIpcStep(s, c) && s.At(c).ipc == BlockUnmask
    ensures Inv(IpcStepOn(s, c))
  {
    BlockIsStarted(s, c);
    InvParts(s, c);
    var own, other := s.lock.Held? && s.lock.cpu == c, s.lock.Held? && s.lock.cpu == Other(c);
    BlockUnmaskKeepsFacts(FlagsOf(s), s.At(c), c, Position(s), own, other);
    LateMoveKeepsInv(s, c, s.At(c).(intrOff := false, ipc := BlockResume));
  }

  lemma BlockResumeKeepsInv(s: State, c: CoreId)
    requires Inv(s) && CanIpcStep(s, c) && s.At(c).ipc == BlockResume
    ensures Inv(IpcStepOn(s, c))
  {
    BlockIsStarted(s, c);
    InvParts(s, c);
    var own, other := s.lock.Held? && s.lock.cpu == c, s.lock.Held? && s.lock.cpu == Other(c);
    BlockResumeKeepsFacts(FlagsOf(s), s.At(c), c, Position(s), own, other);
    LateMoveKeepsInv(s, c, s.At(c).(schedOff := false, ipc := Leave));
  }

  lemma IpcStepKeepsInv(s: State, c: CoreId)
    requires Inv(s) && CanIpcStep(s, c)
    ensures Inv(IpcStepOn(s, c))
  {
    match s.At(c).ipc
    case Waiting =>
      if s.At(c).mail.Block? {
        BlockStartKeepsInv(s, c);
      } else {
        QuietChangeKeepsInv(s, c, s.At(c).(mail := Empty, ipc := InForeign));
      }
    case InForeign => QuietChangeKeepsInv(s, c, s.At(c).(ipc := Waiting));
    case BlockSuspend => BlockSuspendKeepsInv(s, c);
    case BlockMask => BlockMaskKeepsInv(s, c);
    case ClearComplete => ClearCompleteKeepsInv(s, c);
    case SetCanStart => SetCanStartKeepsInv(s, c);
    case Spin => SpinKeepsInv(s, c);
    case BlockRestore => BlockRestoreKeepsInv(s, c);
    case BlockUnmask => BlockUnmaskKeepsInv(s, c);
    case BlockResume => BlockResumeKeepsInv(s, c);
    case Leave => QuietChangeKeepsInv(s, c, s.At(c).(ipc := Waiting));
  }

  lemma AdvanceKeepsInv(s: State, c: CoreId)
    requires Inv(s) && CanAdvance(s, c)
    ensures Inv(AdvanceOn(s, c))
  {
    match s.lock.pc
    case ReadCore => ReadCoreKeepsInv(s, c);
    case CheckNoOp => CheckNoOpKeepsInv(s, c);
    case RecordCore => RecordCoreKeepsInv(s, c);
    case CheckScheduler => CheckSchedulerKeepsInv(s, c);
    case CheckOtherIsApp => CheckOtherIsAppKeepsInv(s, c);
    case ClearCanStart => ClearCanStartKeepsInv(s, c);
    case PostBlock => PostBlockKeepsInv(s, c);
    case AwaitStart => AwaitStartKeepsInv(s, c);
    case Suspend => SuspendKeepsInv(s, c);
    case CheckCore => CheckCoreKeepsInv(s, c);
    case Mask => MaskKeepsInv(s, c);
    case OwnCacheOff => OwnCacheOffKeepsInv(s, c);
    case OtherCacheOff => OtherCacheOffKeepsInv(s, c);
    case FlashOp => FlashOpKeepsInv(s, c);
    case ReadCoreAgain => ReadCoreAgainKeepsInv(s, c);
    case CheckSameCore => CheckSameCoreKeepsInv(s, c);
    case CheckBootCore => CheckBootCoreKeepsInv(s, c);
    case ForgetCore => ForgetCoreKeepsInv(s, c);
    case OwnCacheOn => OwnCacheOnKeepsInv(s, c);
    case OtherCacheOn => OtherCacheOnKeepsInv(s, c);
    case SetComplete => SetCompleteKeepsInv(s, c);
    case Unmask => UnmaskKeepsInv(s, c);
    case Resume => ResumeKeepsInv(s, c);
    case Unlock => UnlockKeepsInv(s, c);
  }

  lemma SwitchKeepsCore(s: State, c: CoreId, to: Running)
    requires CoreInv(s, c) && !s.At(c).schedOff
    ensures CoreInv(s.Put(c, s.At(c).(running := to)), c)
  {
  }

  lemma SwitchKeepsRest(s: State, c: CoreId, to: Running)
    requires CoreInv(s, c) && RestInv(s) && Enabled(s, Switch(c, to))
    ensures RestInv(s.Put(c, s.At(c).(running := to)))
  {
  }

  lemma SwitchKeepsInv(s: State, c: CoreId, to: Running)
    requires Inv(s) && Enabled(s, Switch(c, to))
    ensures Inv(Apply(s, Switch(c, to)))
  {
    InvParts(s, c);
    SwitchKeepsCore(s, c, to);
    SwitchKeepsRest(s, c, to);
    PutKeepsInv(s, c, s.At(c).(running := to));
  }

  lemma AcquireKeepsCore(s: State, c: CoreId, pc: Pc, x: CoreId)
    requires CoreInv(s, x) && LockAvailable(s, c) && pc in {Owns, ReadCore}
    ensures CoreInv(Acquire(s, c, pc), x)
  {
  }

  lemma AcquireKeepsRest(s: State, c: CoreId, pc: Pc)
    requires RestInv(s) && LockAvailable(s, c) && pc in {Owns, ReadCore}
    ensures RestInv(Acquire(s, c, pc))
  {
  }

  lemma AcquireKeepsInv(s: State, c: CoreId, pc: Pc)
    requires Inv(s) && LockAvailable(s, c) && pc in {Owns, ReadCore}
    ensures Inv(Acquire(s, c, pc))
  {
    AcquireKeepsCore(s, c, pc, Pro);
    AcquireKeepsCore(s, c, pc, App);
    AcquireKeepsRest(s, c, pc);
  }

  lemma GiveLockKeepsInv(s: State, c: CoreId)
    requires Inv(s) && Enabled(s, GiveLock(c))
    ensures Inv(Release(s))
  {
  }

  lemma StepKeepsInv(s: State, step: Step)
    requires Inv(s) && Enabled(s, step)
    ensures Inv(Apply(s, step))
  {
    match step
    case Switch(c, to) => SwitchKeepsInv(s, c, to);
    case Advance(c) => AdvanceKeepsInv(s, c);
    case IpcStep(c) => IpcStepKeepsInv(s, c);
    case PostForeign(_, target) => QuietChangeKeepsInv(s, target, s.At(target).(mail := Foreign));
    case TakeLock(c) => AcquireKeepsInv(s, c, Owns);
    case BeginOp(c) => AcquireKeepsInv(s, c, ReadCore);
    case GiveLock(c) => GiveLockKeepsInv(s, c);
    case StartScheduler =>
  }

  // ---------------------------------------------------------------------------------------
  // Safety in every reachable state
  // ---------------------------------------------------------------------------------------

  /** The assert statements of the source, each at its place. */
  predicate AssertsHold(s: State) {
    s.lock.Held? ==>
      && (s.lock.pc == CheckNoOp ==> s.opCpu == NoCpu)
      && (s.lock.pc == CheckOtherIsApp ==> Other(s.lock.cpu) == App)
      && (s.lock.pc == CheckCore ==> forall c :: OwnerOn(s, c) ==> c == s.lock.cpu)
      && (s.lock.pc == CheckSameCore ==> s.opCpu == Cpu(s.lock.cpu))
      && (s.lock.pc == CheckBootCore ==> s.started || s.lock.cpu == Pro)
  }

  predicate Frozen(core: Core) {
    core.schedOff && core.intrOff
  }

  /** Between disabling and restoring the caches. */
  predicate InWindow(s: State) {
    13 <= Position(s) <= 18
  }

  /** Both caches stay off, the other core loops in the block function without permission to
      leave, and neither core can be interrupted or switch tasks. Before the scheduler has
      started, the other core is the held APP core instead. */
  predicate WindowIsSafe(s: State) {
    s.lock.Held? && InWindow(s) ==>
      var own, there := s.At(s.lock.cpu), s.At(Other(s.lock.cpu));
      && !own.cacheOn && !there.cacheOn
      && own.running == Task(s.lock.task)
      && (s.started ==>
            && Frozen(own) && Frozen(there)
            && there.running == IpcTask && there.ipc == Spin && !s.complete)
      && (!s.started ==> s.lock.cpu == Pro && there.running == Nobody && own.intrOff)
  }

  /** A core whose cache is off runs nothing but the lock owner or the waiting loop. */
  predicate CoreIsSafe(s: State, c: CoreId) {
    !s.At(c).cacheOn && s.started ==>
      Frozen(s.At(c)) && (OwnerOn(s, c) || (s.At(c).running == IpcTask && s.At(c).ipc == Spin))
  }

  predicate InRound(s: State) {
    s.lock.Held? && s.lock.pc != Owns
  }

  predicate Settled(s: State) {
    !InRound(s) && IpcOrd(s.pro.ipc) == 0 && IpcOrd(s.app.ipc) == 0
  }

  predicate FullyRestored(core: Core) {
    !core.schedOff && !core.intrOff && core.cacheOn && !core.mail.Block?
  }

  predicate Safe(s: State) {
    && AssertsHold(s)
    && WindowIsSafe(s)
    && CoreIsSafe(s, Pro) && CoreIsSafe(s, App)
    && (Settled(s) ==> s.opCpu == NoCpu && FullyRestored(s.pro) && FullyRestored(s.app))
  }

  lemma InvIsSafe(s: State)
    requires Inv(s)
    ensures Safe(s)
  {
  }

  lemma {:induction false} RunKeepsInv(states: seq<State>, steps: seq<Step>, i: nat)
    requires IsRun(states, steps) && i < |states|
    ensures Inv(states[i])
  {
    if i > 0 {
      RunKeepsInv(states, steps, i - 1);
      assert Leads(states[i - 1], steps[i - 1], states[i]);
      StepKeepsInv(states[i - 1], steps[i - 1]);
    }
  }

  /** Every state of every run is safe, over any number of rounds started by either core. */
  lemma RunsAreSafe(states: seq<State>, steps: seq<Step>)
    requires IsRun(states, steps)
    ensures forall i :: 0 <= i < |states| ==> Safe(states[i])
  {
    forall i | 0 <= i < |states| ensures Safe(states[i]) {
      RunKeepsInv(states, steps, i);
      InvIsSafe(states[i]);
    }
  }

  /** The blocked core restores its cache once more after the round, possibly when the next round
      has begun: by then both caches are on, no round is past its request for this core to
      stop, and the restore changes neither cache. */
  lemma LateRestoreIsHarmless(states: seq<State>, steps: seq<Step>, i: nat, c: CoreId)
    requires IsRun(states, steps) && i < |steps|
    requires steps[i] == IpcStep(c) && states[i].At(c).ipc == BlockRestore
    ensures Position(states[i]) <= 7 || Position(states[i]) >= 21
    ensures states[i].pro.cacheOn && states[i].app.cacheOn
    ensures states[i + 1].pro.cacheOn && states[i + 1].app.cacheOn
  {
    RunKeepsInv(states, steps, i);
    assert Leads(states[i], steps[i], states[i + 1]);
  }

  /** Interrupts and scheduler are switched off on a core where they are on, and back on on the
      core where they were switched off. */
  lemma DisablingIsPaired(states: seq<State>, steps: seq<Step>, i: nat, c: CoreId)
    requires IsRun(states, steps) && i < |steps|
    ensures steps[i] == Advance(c) ==>
              var s := states[i];
              && s.lock.Held?
              && (s.lock.pc == Suspend ==> c == s.lock.cpu && !s.At(c).schedOff)
              && (s.lock.pc == Mask ==> c == s.lock.cpu && !s.At(c).intrOff)
              && (s.lock.pc == Unmask ==> c == s.lock.cpu && s.At(c).intrOff)
              && (s.lock.pc == Resume ==> c == s.lock.cpu && s.At(c).schedOff == s.started)
    ensures steps[i] == IpcStep(c) ==>
              var core := states[i].At(c);
              && (core.ipc == BlockSuspend ==> core.arg == c && !core.schedOff)
              && (core.ipc == BlockMask ==> !core.intrOff)
              && (core.ipc == BlockUnmask ==> core.intrOff)
              && (core.ipc == BlockResume ==> core.schedOff)
  {
    RunKeepsInv(states, steps, i);
    assert Leads(states[i], steps[i], states[i + 1]);
  }

  lemma IpcStepStaysWoken(s: State, c: CoreId)
    requires CanIpcStep(s, Other(c)) && s.At(c).ipc == Spin && s.complete
    requires s.At(Other(c)).ipc != ClearComplete
    ensures IpcStepOn(s, Other(c)).At(c).ipc == Spin && IpcStepOn(s, Other(c)).complete
  {
    IpcStepKeepsOther(s, Other(c));
  }

  /** What the IPC task of one core does to the other core: at most restore its cache. */
  lemma IpcStepKeepsOther(s: State, c: CoreId)
    requires CanIpcStep(s, c)
    ensures var t := IpcStepOn(s, c);
            && t.At(Other(c)).ipc == s.At(Other(c)).ipc
            && (s.At(c).ipc != BlockRestore || s.At(c).arg == c ==> t.At(Other(c)) == s.At(Other(c)))
  {
    if s.At(c).ipc == BlockRestore {
      assert IpcStepOn(s, c).At(Other(c)).ipc == s.At(Other(c)).ipc;
    }
  }

  lemma StaysWoken(s: State, step: Step, c: CoreId)
    requires Inv(s) && Enabled(s, step) && step != IpcStep(c) && s.At(c).ipc == Spin && s.complete
    ensures Apply(s, step).At(c).ipc == Spin && Apply(s, step).complete
  {
    if step.IpcStep? {
      IpcStepStaysWoken(s, c);
    }
  }

  /** A core that has not yet seen "complete" still sees it, whatever the others do first, even
      if that is starting the next round: only this core clears the flag. */
  lemma NoLostWakeUp(states: seq<State>, steps: seq<Step>, i: nat, c: CoreId)
    requires IsRun(states, steps) && i < |steps|
    requires states[i].At(c).ipc == Spin && states[i].complete
    ensures Enabled(states[i], IpcStep(c))
    ensures steps[i] != IpcStep(c) ==> states[i + 1].At(c).ipc == Spin && states[i + 1].complete
  {
    RunKeepsInv(states, steps, i);
    assert Leads(states[i], steps[i], states[i + 1]);
    InvParts(states[i], c);
    if steps[i] != IpcStep(c) {
      StaysWoken(states[i], steps[i], c);
    }
  }

  // ---------------------------------------------------------------------------------------
  // The operation lock over a run
  // ---------------------------------------------------------------------------------------

  /** Whether a step takes the lock once more or gives it once. */
  function Taken(s: State, step: Step): int {
    match step
    case TakeLock(_) => 1
    case BeginOp(_) => 1
    case GiveLock(_) => -1
    case Advance(_) => if s.lock.Held? && s.lock.pc == Unlock then -1 else 0
    case _ => 0
  }

  /** Takes less gives in the first i steps of a run. */
  function Balance(states: seq<State>, steps: seq<Step>, i: nat): int
    requires |states| == |steps| + 1 && i <= |steps|
  {
    if i == 0 then 0 else Balance(states, steps, i - 1) + Taken(states[i - 1], steps[i - 1])
  }

  function Depth(lock: Lock): nat {
    if lock.Free? then 0 else lock.depth
  }

  /** The lock passes from one task to another only through being free. */
  predicate SameOwner(s: State, step: Step, t: State) {
    && (s.lock.Held? && t.lock.Held? ==> t.lock.task == s.lock.task)
    && (s.lock.Free? && t.lock.Held? ==>
          (step.TakeLock? || step.BeginOp?) && s.At(step.core).running == Task(t.lock.task))
    && (s.lock.Held? && Taken(s, step) != 0 ==> OwnerOn(s, step.core))
  }

  lemma LockMoves(s: State, step: Step)
    requires Inv(s) && Enabled(s, step)
    ensures Depth(Apply(s, step).lock) == Depth(s.lock) + Taken(s, step)
    ensures SameOwner(s, step, Apply(s, step))
  {
    if step.Advance? && s.lock.pc != Unlock {
      EffectKeepsOwner(s, step.core);
    } else if step.IpcStep? {
      IpcStepKeepsLock(s, step.core);
    }
  }

  lemma IpcStepKeepsLock(s: State, c: CoreId)
    requires CanIpcStep(s, c)
    ensures IpcStepOn(s, c).lock == s.lock
  {
  }

  lemma EffectKeepsOwner(s: State, c: CoreId)
    requires CanAdvance(s, c)
    ensures Effect(s, c).lock.task == s.lock.task && Effect(s, c).lock.depth == s.lock.depth
    ensures Effect(s, c).lock.cpu == if s.lock.pc in {ReadCore, ReadCoreAgain} then c else s.lock.cpu
  {
  }

  lemma HeldIsDeep(s: State)
    requires Inv(s)
    ensures s.lock.Free? <==> Depth(s.lock) == 0
  {
  }

  predicate DepthMoves(states: seq<State>, steps: seq<Step>, i: nat)
    requires |states| == |steps| + 1 && i < |steps|
  {
    Depth(states[i + 1].lock) == Depth(states[i].lock) + Taken(states[i], steps[i])
  }

  lemma DepthMovesInRun(states: seq<State>, steps: seq<Step>, i: nat)
    requires IsRun(states, steps) && i < |steps|
    ensures DepthMoves(states, steps, i)
  {
    RunKeepsInv(states, steps, i);
    assert Leads(states[i], steps[i], states[i + 1]);
    LockMoves(states[i], steps[i]);
  }

  lemma {:induction false} DepthIsBalance(states: seq<State>, steps: seq<Step>, i: nat)
    requires |states| == |steps| + 1 && i <= |steps| && Depth(states[0].lock) == 0
    requires forall k: nat :: k < |steps| ==> DepthMoves(states, steps, k)
    ensures Depth(states[i].lock) == Balance(states, steps, i)
  {
    if i > 0 {
      DepthIsBalance(states, steps, i - 1);
      assert DepthMoves(states, steps, i - 1);
    }
  }

  /** In every state of every run the lock is free exactly if it has been given as often as it was
      taken; otherwise its depth is the difference. */
  lemma LockIsCounted(states: seq<State>, steps: seq<Step>, i: nat)
    requires IsRun(states, steps) && i <= |steps|
    ensures states[i].lock.Free? <==> Balance(states, steps, i) == 0
    ensures states[i].lock.Held? ==> states[i].lock.depth == Balance(states, steps, i)
  {
    forall k: nat | k < |steps| ensures DepthMoves(states, steps, k) {
      DepthMovesInRun(states, steps, k);
    }
    DepthIsBalance(states, steps, i);
    RunKeepsInv(states, steps, i);
    HeldIsDeep(states[i]);
  }

  /** Only its owner gives the lock or takes it again, and only a free lock gets another owner. */
  lemma LockHasOneOwner(states: seq<State>, steps: seq<Step>, i: nat)
    requires IsRun(states, steps) && i < |steps|
    ensures SameOwner(states[i], steps[i], states[i + 1])
  {
    RunKeepsInv(states, steps, i);
    assert Leads(states[i], steps[i], states[i + 1]);
    LockMoves(states[i], steps[i]);
  }

  /** The statements follow each other in the order of the source; before the scheduler runs, the
      request to the other core is left out. */
  lemma ProgramOrder(pc: Pc, started: bool)
    requires pc !in {Owns, Unlock}
    ensures NextPc(pc, started) == CheckOtherIsApp <==> pc == CheckScheduler && !started
    ensures Ord(NextPc(pc, started)) == if pc == CheckScheduler && !started then 9 else Ord(pc) + 1
  {
  }

  /** Who writes the two flags, and what; and the scheduler runs from the step that starts it on. */
  predicate FlagsWritten(s: State, step: Step, t: State) {
    && t.canStart == (if step.Advance? && s.lock.Held? && s.lock.pc == ClearCanStart then false
                      else if step.IpcStep? && s.At(step.core).ipc == SetCanStart then true
                      else s.canStart)
    && t.complete == (if step.Advance? && s.lock.Held? && s.lock.pc == SetComplete then s.started || s.complete
                      else if step.IpcStep? && s.At(step.core).ipc == ClearComplete then false
                      else s.complete)
    && t.started == (step.StartScheduler? || s.started)
  }

  lemma EffectWritesFlags(s: State, c: CoreId)
    requires CanAdvance(s, c)
    ensures Effect(s, c).canStart == (s.lock.pc != ClearCanStart && s.canStart)
    ensures Effect(s, c).complete == ((s.lock.pc == SetComplete && s.started) || s.complete)
    ensures Effect(s, c).started == s.started
  {
  }

  lemma IpcStepWritesFlags(s: State, c: CoreId)
    requires CanIpcStep(s, c)
    ensures FlagsWritten(s, IpcStep(c), IpcStepOn(s, c))
  {
  }

  lemma StepWritesFlags(s: State, step: Step)
    requires Enabled(s, step)
    ensures FlagsWritten(s, step, Apply(s, step))
  {
    match step
    case Advance(c) => EffectWritesFlags(s, c);
    case IpcStep(c) => IpcStepWritesFlags(s, c);
    case _ =>
  }

  /** The owner clears "can start" and sets "complete"; the block function does the opposite; nothing
      else writes them. */
  lemma FlagsHaveWriters(states: seq<State>, steps: seq<Step>, i: nat)
    requires IsRun(states, steps) && i < |steps|
    ensures FlagsWritten(states[i], steps[i], states[i + 1])
  {
    assert Leads(states[i], steps[i], states[i + 1]);
    StepWritesFlags(states[i], steps[i]);
  }
}
