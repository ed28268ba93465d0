/** Progress of the dual-core flash/cache handshake: every round can be finished, the lock is given
    back, and every task on either core can have its turn. */
module CacheProgress {
  import opened CacheUtils

  /** Statements left until the IPC task of a core waits for its next request. */
  function PcCost(pc: IpcPc): nat {
    match pc
    case Waiting => 0
    case InForeign => 1
    case Leave => 1
    case BlockResume => 2
    case BlockUnmask => 3
    case BlockRestore => 4
    case Spin => 5
    case SetCanStart => 6
    case ClearComplete => 7
    case BlockMask => 8
    case BlockSuspend => 9
  }

  function MailCost(mail: Mail): nat {
    match mail
    case Empty => 0
    case Foreign => 2
    case Block(_) => 10
  }

  function IpcCost(core: Core): nat {
    MailCost(core.mail) + PcCost(core.ipc)
  }

  /** Statements left to the lock owner; the first six will still request ten of the other core. */
  function OwnerCost(s: State): nat {
    if !InRound(s) then 0
    else 24 - Position(s) + (if Position(s) <= 6 then 12 else 0)
  }

  function Rank(s: State): nat {
    OwnerCost(s) + IpcCost(s.pro) + IpcCost(s.app)
  }

  lemma AdvanceKeepsIpcCost(s: State, c: CoreId, x: CoreId)
    requires CanAdvance(s, c)
    ensures IpcCost(AdvanceOn(s, c).At(x))
            == IpcCost(s.At(x)) + (if s.lock.pc == PostBlock && x == Other(s.lock.cpu) then 10 else 0)
  {
  }

  lemma AdvanceDecreasesOwnerCost(s: State, c: CoreId)
    requires CanAdvance(s, c)
    ensures OwnerCost(AdvanceOn(s, c)) < OwnerCost(s)
    ensures s.lock.pc == PostBlock ==> OwnerCost(AdvanceOn(s, c)) + 10 < OwnerCost(s)
  {
  }

  lemma IpcStepKeepsRest(s: State, c: CoreId)
    requires CanIpcStep(s, c) && (s.At(c).ipc == BlockRestore ==> s.At(c).arg == c)
    ensures IpcStepOn(s, c).lock == s.lock && IpcStepOn(s, c).At(Other(c)) == s.At(Other(c))
  {
    IpcStepKeepsLock(s, c);
    IpcStepKeepsOther(s, c);
  }

  lemma IpcStepDecreasesCost(s: State, c: CoreId)
    requires CanIpcStep(s, c) && (s.At(c).ipc == BlockRestore ==> s.At(c).arg == c)
    ensures IpcCost(IpcStepOn(s, c).At(c)) < IpcCost(s.At(c))
  {
  }

  lemma SameOwnerCost(s: State, t: State)
    requires s.lock == t.lock
    ensures OwnerCost(s) == OwnerCost(t)
  {
  }

  lemma IpcStepDecreasesRank(s: State, c: CoreId)
    requires CanIpcStep(s, c) && (s.At(c).ipc == BlockRestore ==> s.At(c).arg == c)
    ensures Rank(IpcStepOn(s, c)) < Rank(s)
  {
    IpcStepKeepsRest(s, c);
    IpcStepDecreasesCost(s, c);
    SameOwnerCost(s, IpcStepOn(s, c));
  }

  /** Every statement of the handshake brings the end of the round nearer, in any order. */
  lemma HandshakeStepDecreasesRank(s: State, step: Step)
    requires Inv(s) && Enabled(s, step) && (step.Advance? || step.IpcStep?)
    ensures Rank(Apply(s, step)) < Rank(s)
  {
    match step
    case Advance(c) =>
      AdvanceKeepsIpcCost(s, c, Pro);
      AdvanceKeepsIpcCost(s, c, App);
      AdvanceDecreasesOwnerCost(s, c);
    case IpcStep(c) => IpcStepDecreasesRank(s, c);
  }

  lemma SwitchKeepsRank(s: State, c: CoreId, to: Running)
    requires Enabled(s, Switch(c, to))
    ensures Rank(Apply(s, Switch(c, to))) == Rank(s)
  {
  }

  /** The cores on which the lock owner may run: both, or the one it is pinned to. */
  datatype Affinity = Affinity(pro: bool, app: bool) {
    predicate Allows(c: CoreId) {
      if c.Pro? then pro else app
    }
  }

  /** The lock owner has kept to its affinity in this round. */
  predicate Confined(s: State, a: Affinity) {
    && (a.pro || a.app)
    && (InRound(s) ==>
          && (forall c :: OwnerOn(s, c) ==> a.Allows(c))
          && (Position(s) >= 2 ==> a.Allows(s.lock.cpu)))
  }

  /** The core where the lock owner runs or is to run. */
  function OwnerCore(s: State, a: Affinity): CoreId
    requires InRound(s)
  {
    if OwnerOn(s, Pro) then Pro
    else if OwnerOn(s, App) then App
    else if Position(s) >= 2 then s.lock.cpu
    else if a.pro && (!s.pro.schedOff || !a.app) then Pro
    else App
  }

  /** A statement the handshake can always go on with: one of the lock owner, or one of the block function
      that is in its way. */
  function NextStatement(s: State, a: Affinity): Step {
    if InRound(s) then
      var c := OwnerCore(s, a);
      if || (s.lock.pc == AwaitStart && !s.canStart)
         || (s.lock.pc == PostBlock && !s.At(Other(s.lock.cpu)).mail.Empty?) then
        IpcStep(Other(s.lock.cpu))
      else if !OwnerOn(s, c) && s.At(c).schedOff then
        IpcStep(c)
      else
        Advance(c)
    else if IpcOrd(s.pro.ipc) != 0 then IpcStep(Pro)
    else IpcStep(App)
  }

  /** The context switch that NextStatement may need first. */
  function Schedule(s: State, a: Affinity): Step {
    match NextStatement(s, a)
    case Advance(c) => if InRound(s) then Switch(c, Task(s.lock.task)) else StartScheduler
    case IpcStep(c) => Switch(c, IpcTask)
    case _ => StartScheduler
  }

  /** No deadlock: until both cores are back to normal, a statement of the handshake can be
      executed, at once or after one context switch. */
  lemma HandshakeNeverStuck(s: State, a: Affinity)
    requires Inv(s) && !Settled(s) && Confined(s, a)
    ensures || Enabled(s, NextStatement(s, a))
            || (Enabled(s, Schedule(s, a)) && Enabled(Apply(s, Schedule(s, a)), NextStatement(s, a)))
  {
  }

  /** Tasks are only switched to where the affinity allows it. */
  predicate Respects(steps: seq<Step>, a: Affinity) {
    forall i :: 0 <= i < |steps| && steps[i].Switch? && steps[i].to.Task? ==> a.Allows(steps[i].core)
  }

  lemma NextRespects(s: State, a: Affinity)
    requires Confined(s, a)
    ensures !NextStatement(s, a).Switch?
    ensures Respects([Schedule(s, a)], a)
  {
  }

  lemma ScheduleConfined(s: State, a: Affinity)
    requires Confined(s, a) && Enabled(s, Schedule(s, a))
    ensures Confined(Apply(s, Schedule(s, a)), a)
  {
    NextRespects(s, a);
  }

  lemma IpcStepConfined(s: State, c: CoreId, a: Affinity)
    requires CanIpcStep(s, c) && (s.At(c).ipc == BlockRestore ==> s.At(c).arg == c) && Confined(s, a)
    ensures Confined(IpcStepOn(s, c), a)
  {
    IpcStepKeepsRest(s, c);
    assert IpcStepOn(s, c).At(c).running == s.At(c).running;
  }

  lemma AdvanceConfined(s: State, c: CoreId, a: Affinity)
    requires CanAdvance(s, c) && Confined(s, a)
    ensures Confined(AdvanceOn(s, c), a)
  {
    if s.lock.pc != Unlock {
      EffectKeepsOwner(s, c);
      GotoConfined(s, Effect(s, c), c, NextPc(s.lock.pc, s.started), a);
    }
  }

  lemma GotoConfined(s: State, t: State, c: CoreId, pc: Pc, a: Affinity)
    requires CanAdvance(s, c) && Confined(s, a) && t.lock.Held? && t.lock.task == s.lock.task
    requires SameTasks(s, t)
    requires t.lock.cpu == if s.lock.pc in {ReadCore, ReadCoreAgain} then c else s.lock.cpu
    ensures Confined(Goto(t, pc), a)
  {
    assert forall x :: OwnerOn(Goto(t, pc), x) ==> OwnerOn(s, x);
  }

  ghost predicate Executes(s: State, steps: seq<Step>, t: State)
    decreases |steps|
  {
    if steps == [] then s == t
    else Enabled(s, steps[0]) && Executes(Apply(s, steps[0]), steps[1..], t)
  }

  lemma {:induction false} ExecuteAppend(s: State, a: seq<Step>, u: State, b: seq<Step>, t: State)
    requires Executes(s, a, u) && Executes(u, b, t)
    ensures Executes(s, a + b, t)
    decreases |a|
  {
    if a == [] {
      assert a + b == b;
    } else {
      ExecuteAppend(Apply(s, a[0]), a[1..], u, b, t);
      assert (a + b)[1..] == a[1..] + b;
    }
  }

  // ---------------------------------------------------------------------------------------
  // What a round leaves behind
  // ---------------------------------------------------------------------------------------

  /** The lock when the round in progress is over: given, or held by a task once less. */
  datatype Owed = Given | Kept(task: nat, depth: nat)

  function LockAfter(s: State): Owed {
    if s.lock.Free? then Given
    else if !InRound(s) then Kept(s.lock.task, s.lock.depth)
    else if s.lock.depth <= 1 then Given
    else Kept(s.lock.task, s.lock.depth - 1)
  }

  /** Flash operations that the round in progress still has to do. */
  function FlashesLeft(s: State): nat {
    if InRound(s) && Position(s) <= 13 then 1 else 0
  }

  /** Flash operations among the steps. */
  function Flashes(s: State, steps: seq<Step>): nat
    requires Executable(s, steps)
    decreases |steps|
  {
    if steps == [] then 0
    else (if steps[0].Advance? && s.lock.Held? && s.lock.pc == FlashOp then 1 else 0)
         + Flashes(Apply(s, steps[0]), steps[1..])
  }

  predicate Executable(s: State, steps: seq<Step>)
    decreases |steps|
  {
    steps != [] ==> Enabled(s, steps[0]) && Executable(Apply(s, steps[0]), steps[1..])
  }

  lemma {:induction false} ExecutesIsExecutable(s: State, steps: seq<Step>, t: State)
    requires Executes(s, steps, t)
    ensures Executable(s, steps)
    decreases |steps|
  {
    if steps != [] {
      ExecutesIsExecutable(Apply(s, steps[0]), steps[1..], t);
    }
  }

  lemma {:induction false} FlashesAppend(s: State, a: seq<Step>, u: State, b: seq<Step>)
    requires Executes(s, a, u) && Executable(u, b)
    ensures Executable(s, a + b) && Executable(s, a) && Flashes(s, a + b) == Flashes(s, a) + Flashes(u, b)
    decreases |a|
  {
    if a == [] {
      assert a + b == b;
    } else {
      assert (a + b)[0] == a[0] && (a + b)[1..] == a[1..] + b;
      FlashesAppend(Apply(s, a[0]), a[1..], u, b);
    }
  }

  /** A step that leaves the lock and what is owed of the round alone. */
  predicate SameRound(s: State, t: State) {
    LockAfter(t) == LockAfter(s) && t.started == s.started
  }

  lemma UnlockOwes(s: State, c: CoreId)
    requires Inv(s) && CanAdvance(s, c) && s.lock.pc == Unlock
    ensures SameRound(s, AdvanceOn(s, c)) && FlashesLeft(s) == FlashesLeft(AdvanceOn(s, c)) == 0
  {
  }

  lemma GotoOwes(s: State, c: CoreId)
    requires CanAdvance(s, c) && s.lock.pc != Unlock
    ensures SameRound(s, AdvanceOn(s, c))
    ensures FlashesLeft(s) == FlashesLeft(AdvanceOn(s, c)) + (if s.lock.pc == FlashOp then 1 else 0)
  {
    EffectKeepsOwner(s, c);
    EffectKeepsStarted(s, c);
    ProgramOrder(s.lock.pc, s.started);
    var t := AdvanceOn(s, c);
    assert t.lock.pc == NextPc(s.lock.pc, s.started) && InRound(t);
    FlashOpIsThirteenth(s.lock.pc);
  }

  lemma FlashOpIsThirteenth(pc: Pc)
    ensures pc == FlashOp <==> Ord(pc) == 13
  {
  }

  lemma AdvanceOwes(s: State, c: CoreId)
    requires Inv(s) && CanAdvance(s, c)
    ensures SameRound(s, AdvanceOn(s, c))
    ensures FlashesLeft(s) == FlashesLeft(AdvanceOn(s, c)) + (if s.lock.pc == FlashOp then 1 else 0)
  {
    if s.lock.pc == Unlock {
      UnlockOwes(s, c);
    } else {
      GotoOwes(s, c);
    }
  }

  lemma EffectKeepsStarted(s: State, c: CoreId)
    requires CanAdvance(s, c)
    ensures Effect(s, c).started == s.started
  {
  }

  lemma IpcStepOwes(s: State, c: CoreId)
    requires CanIpcStep(s, c)
    ensures SameRound(s, IpcStepOn(s, c)) && FlashesLeft(IpcStepOn(s, c)) == FlashesLeft(s)
  {
    IpcStepKeepsLock(s, c);
  }

  lemma SwitchOwes(s: State, step: Step)
    requires Enabled(s, step) && step.Switch?
    ensures SameRound(s, Apply(s, step)) && FlashesLeft(Apply(s, step)) == FlashesLeft(s)
  {
  }

  lemma NextOwes(s: State, next: Step)
    requires Inv(s) && Enabled(s, next) && (next.Advance? || next.IpcStep?)
    ensures SameRound(s, Apply(s, next))
    ensures FlashesLeft(s) == FlashesLeft(Apply(s, next)) + Flashes(s, [next])
  {
    assert [next][1..] == [];
    if next.Advance? {
      AdvanceOwes(s, next.core);
    } else {
      IpcStepOwes(s, next.core);
    }
  }

  lemma TwoFlashes(s: State, first: Step, second: Step)
    requires Enabled(s, first) && first.Switch? && Enabled(Apply(s, first), second)
    ensures Executable(s, [first, second]) && Executable(Apply(s, first), [second])
    ensures Flashes(s, [first, second]) == Flashes(Apply(s, first), [second])
  {
    assert [first, second][1..] == [second] && [second][1..] == [];
  }

  lemma AppendRespects(a: seq<Step>, b: seq<Step>, affinity: Affinity)
    requires Respects(a, affinity) && Respects(b, affinity)
    ensures Respects(a + b, affinity)
  {
  }

  /** A statement of the handshake that is enabled. */
  lemma NextMoves(s: State, next: Step, a: Affinity)
    requires Inv(s) && Enabled(s, next) && Confined(s, a) && (next.Advance? || next.IpcStep?)
    ensures Inv(Apply(s, next)) && Rank(Apply(s, next)) < Rank(s) && Confined(Apply(s, next), a)
  {
    StepKeepsInv(s, next);
    HandshakeStepDecreasesRank(s, next);
    if next.IpcStep? {
      InvParts(s, next.core);
      IpcStepConfined(s, next.core, a);
    } else {
      AdvanceConfined(s, next.core, a);
    }
  }

  lemma SwitchMoves(s: State, step: Step, a: Affinity)
    requires Inv(s) && Enabled(s, step) && step.Switch?
    ensures Inv(Apply(s, step)) && Rank(Apply(s, step)) == Rank(s)
  {
    StepKeepsInv(s, step);
    SwitchKeepsRank(s, step.core, step.to);
  }

  lemma ScheduleIsSwitch(s: State, a: Affinity)
    requires !Settled(s)
    ensures Schedule(s, a).Switch? && (NextStatement(s, a).Advance? || NextStatement(s, a).IpcStep?)
  {
  }

  lemma OneStep(s: State, step: Step)
    requires Enabled(s, step)
    ensures Executes(s, [step], Apply(s, step))
  {
    assert [step][1..] == [];
    assert Executes(Apply(s, step), [], Apply(s, step));
  }

  lemma TwoSteps(s: State, first: Step, second: Step)
    requires Enabled(s, first) && Enabled(Apply(s, first), second)
    ensures Executes(s, [first, second], Apply(Apply(s, first), second))
  {
    var r := Apply(s, first);
    assert [first, second][1..] == [second] && [second][1..] == [];
    assert Executes(Apply(r, second), [], Apply(r, second));
    assert Executes(r, [second], Apply(r, second));
  }

  /** One statement of the handshake, with the context switch it may need. */
  lemma HandshakeMove(s: State, a: Affinity) returns (steps: seq<Step>, u: State)
    requires Inv(s) && !Settled(s) && Confined(s, a)
    ensures Executes(s, steps, u) && |steps| <= 2 && Inv(u) && Rank(u) < Rank(s)
    ensures Confined(u, a) && Respects(steps, a)
    ensures SameRound(s, u) && Executable(s, steps) && FlashesLeft(s) == FlashesLeft(u) + Flashes(s, steps)
  {
    HandshakeNeverStuck(s, a);
    ScheduleIsSwitch(s, a);
    NextRespects(s, a);
    if Enabled(s, NextStatement(s, a)) {
      steps, u := OneMove(s, NextStatement(s, a), a);
    } else {
      steps, u := TwoMoves(s, a);
    }
  }

  lemma OneMove(s: State, next: Step, a: Affinity) returns (steps: seq<Step>, u: State)
    requires Inv(s) && Confined(s, a) && Enabled(s, next) && (next.Advance? || next.IpcStep?)
    ensures steps == [next] && Executes(s, steps, u) && Inv(u) && Rank(u) < Rank(s) && Confined(u, a)
    ensures Respects(steps, a)
    ensures SameRound(s, u) && Executable(s, steps) && FlashesLeft(s) == FlashesLeft(u) + Flashes(s, steps)
  {
    steps, u := [next], Apply(s, next);
    NextMoves(s, next, a);
    NextOwes(s, next);
    OneStep(s, next);
    ExecutesIsExecutable(s, steps, u);
  }

  lemma TwoMoves(s: State, a: Affinity) returns (steps: seq<Step>, u: State)
    requires Inv(s) && Confined(s, a)
    requires Schedule(s, a).Switch? && (NextStatement(s, a).Advance? || NextStatement(s, a).IpcStep?)
    requires Enabled(s, Schedule(s, a)) && Enabled(Apply(s, Schedule(s, a)), NextStatement(s, a))
    ensures Executes(s, steps, u) && |steps| == 2 && Inv(u) && Rank(u) < Rank(s) && Confined(u, a)
    ensures Respects(steps, a)
    ensures SameRound(s, u) && Executable(s, steps) && FlashesLeft(s) == FlashesLeft(u) + Flashes(s, steps)
  {
    var next, schedule := NextStatement(s, a), Schedule(s, a);
    NextRespects(s, a);
    SwitchMoves(s, schedule, a);
    SwitchOwes(s, schedule);
    ScheduleConfined(s, a);
    var r, rest := Apply(s, schedule), [next];
    rest, u := OneMove(r, next, a);
    steps := [schedule, next];
    TwoSteps(s, schedule, next);
    TwoFlashes(s, schedule, next);
  }

  /** What the end of a round leaves, for whoever has the lock next. */
  predicate Finished(s: State, t: State) {
    && Settled(t) && Safe(t) && t.started == s.started
    && (if s.lock.Held? && (!InRound(s) || s.lock.depth > 1) then
          t.lock.Held? && t.lock.task == s.lock.task && t.lock.pc == Owns
          && t.lock.depth == s.lock.depth - (if InRound(s) then 1 else 0)
        else t.lock.Free?)
  }

  lemma SettledIsFinished(s: State, t: State)
    requires Inv(t) && Settled(t) && SameRound(s, t)
    ensures Finished(s, t)
  {
    InvIsSafe(t);
  }

  lemma {:induction false} RoundCanFinish(s: State, a: Affinity) returns (steps: seq<Step>, t: State)
    requires Inv(s) && Confined(s, a)
    ensures Executes(s, steps, t) && Settled(t) && Safe(t) && |steps| <= 2 * Rank(s) && Respects(steps, a)
    ensures Inv(t) && SameRound(s, t) && Finished(s, t)
    ensures Executable(s, steps) && Flashes(s, steps) == FlashesLeft(s)
    decreases Rank(s)
  {
    if Settled(s) {
      InvIsSafe(s);
      steps, t := [], s;
    } else {
      var first, u := HandshakeMove(s, a);
      var rest, end := RoundCanFinish(u, a);
      ExecuteAppend(s, first, u, rest, end);
      AppendRespects(first, rest, a);
      FlashesAppend(s, first, u, rest);
      steps, t := first + rest, end;
    }
    SettledIsFinished(s, t);
  }

  /** From the end of every run the handshake can be completed, and then both cores are back to
      normal: at most two steps, one of them a context switch, per statement left, and the lock owner is
      only switched to where its affinity allows it. A round begun with the lock taken once gives it back;
      one begun at a greater depth leaves it with the same task, once less. The flash operation is done,
      once, if it has not been yet. */
  lemma NeverDeadlocked(states: seq<State>, steps: seq<Step>, a: Affinity)
    requires IsRun(states, steps) && Confined(states[|steps|], a)
    ensures exists more, t ::
              && Executes(states[|steps|], more, t) && Settled(t) && Safe(t)
              && |more| <= 2 * Rank(states[|steps|]) && Respects(more, a)
              && Finished(states[|steps|], t)
              && Executable(states[|steps|], more) && Flashes(states[|steps|], more) == FlashesLeft(states[|steps|])
  {
    RunKeepsInv(states, steps, |steps|);
    var more, t := RoundCanFinish(states[|steps|], a);
  }

  // ---------------------------------------------------------------------------------------
  // Every task has its turn
  // ---------------------------------------------------------------------------------------

  /** The scheduler runs, no round is in progress and both cores are free to switch. */
  predicate Calm(s: State) {
    Inv(s) && Settled(s) && s.started
  }

  lemma CalmSwitches(s: State, c: CoreId, to: Running)
    requires Calm(s) && !to.IpcTask? && (to.Task? ==> s.At(Other(c)).running != to)
    ensures Enabled(s, Switch(c, to))
    ensures var t := Apply(s, Switch(c, to));
            Calm(t) && t.lock == s.lock && t.At(c).running == to && t.At(Other(c)).running == s.At(Other(c)).running
  {
    InvIsSafe(s);
    StepKeepsInv(s, Switch(c, to));
  }

  /** Any task can be made to run on any core. */
  lemma TaskToCore(s: State, c: CoreId, id: nat) returns (steps: seq<Step>, t: State)
    requires Calm(s)
    ensures Executes(s, steps, t) && Calm(t) && t.lock == s.lock && t.At(c).running == Task(id)
  {
    steps, t := [], s;
    if s.At(c).running != Task(id) {
      if s.At(Other(c)).running == Task(id) {
        var off := Switch(Other(c), Nobody);
        CalmSwitches(s, Other(c), Nobody);
        OneStep(s, off);
        steps, t := [off], Apply(s, off);
      }
      CalmSwitches(t, c, Task(id));
      OneStep(t, Switch(c, Task(id)));
      ExecuteAppend(s, steps, t, [Switch(c, Task(id))], Apply(t, Switch(c, Task(id))));
      steps, t := steps + [Switch(c, Task(id))], Apply(t, Switch(c, Task(id)));
    }
  }

  lemma GiveIsCalm(s: State, c: CoreId)
    requires Calm(s) && OwnerOn(s, c)
    ensures Enabled(s, GiveLock(c))
    ensures var t := Apply(s, GiveLock(c));
            Calm(t) && Depth(t.lock) + 1 == Depth(s.lock) && t.At(c).running == s.At(c).running
            && (t.lock.Held? ==> t.lock.task == s.lock.task)
  {
    StepKeepsInv(s, GiveLock(c));
    LockMoves(s, GiveLock(c));
  }

  /** The owner of the lock, on core c, gives it as often as it took it. */
  lemma {:induction false} GiveAll(s: State, c: CoreId) returns (steps: seq<Step>, t: State)
    requires Calm(s) && (s.lock.Held? ==> OwnerOn(s, c))
    ensures Executes(s, steps, t) && Calm(t) && t.lock.Free?
    decreases Depth(s.lock)
  {
    if s.lock.Free? {
      steps, t := [], s;
    } else {
      GiveIsCalm(s, c);
      OneStep(s, GiveLock(c));
      var rest, end := GiveAll(Apply(s, GiveLock(c)), c);
      ExecuteAppend(s, [GiveLock(c)], Apply(s, GiveLock(c)), rest, end);
      steps, t := [GiveLock(c)] + rest, end;
    }
  }

  lemma FreeLockCanBegin(s: State, c: CoreId)
    requires Calm(s) && s.lock.Free? && s.At(c).running.Task?
    ensures Enabled(s, BeginOp(c))
    ensures var t := Apply(s, BeginOp(c));
            Inv(t) && InRound(t) && t.started && t.lock.task == s.At(c).running.id && t.lock.depth == 1
            && FlashesLeft(t) == 1 && Confined(t, Affinity(c == Pro, c == App))
  {
    StepKeepsInv(s, BeginOp(c));
    LockMoves(s, BeginOp(c));
    BeginConfined(s, c);
  }

  lemma BeginConfined(s: State, c: CoreId)
    requires Inv(s) && s.lock.Free? && s.At(c).running.Task? && s.started
    requires s.At(Other(c)).running != s.At(c).running
    ensures Enabled(s, BeginOp(c)) && Confined(Apply(s, BeginOp(c)), Affinity(c == Pro, c == App))
  {
    var t := Apply(s, BeginOp(c));
    assert forall x :: OwnerOn(t, x) ==> x == c;
  }

  /** From the end of every run in which the scheduler has been started, every task on either core can do a
      flash operation: whatever is in progress is finished and the lock given back (first), the task begins
      on that core, its operation is done once (round), and the lock is free again. */
  lemma EveryTaskHasItsTurn(states: seq<State>, steps: seq<Step>, c: CoreId, id: nat)
    returns (first: seq<Step>, m: State, round: seq<Step>, t: State)
    requires IsRun(states, steps) && states[|steps|].started
    ensures Executes(states[|steps|], first, m)
    ensures && m.At(c).running == Task(id) && Enabled(m, BeginOp(c))
            && Executes(Apply(m, BeginOp(c)), round, t) && Executable(Apply(m, BeginOp(c)), round)
            && Flashes(Apply(m, BeginOp(c)), round) == 1
            && Respects(round, Affinity(c == Pro, c == App))
    ensures Settled(t) && Safe(t) && t.lock.Free?
  {
    var s := states[|steps|];
    RunKeepsInv(states, steps, |steps|);
    var done, calm := RoundCanFinish(s, Affinity(true, true));
    var more, free := LockFreed(calm);
    ExecuteAppend(s, done, calm, more, free);
    var moves, ready := TaskToCore(free, c, id);
    ExecuteAppend(s, done + more, free, moves, ready);
    FreeLockCanBegin(ready, c);
    first, m := done + more + moves, ready;
    round, t := RoundCanFinish(Apply(ready, BeginOp(c)), Affinity(c == Pro, c == App));
  }

  lemma LockFreed(s: State) returns (steps: seq<Step>, t: State)
    requires Calm(s)
    ensures Executes(s, steps, t) && Calm(t) && t.lock.Free?
  {
    if s.lock.Free? {
      steps, t := [], s;
    } else {
      var moves, u := TaskToCore(s, Pro, s.lock.task);
      var gives, end := GiveAll(u, Pro);
      ExecuteAppend(s, moves, u, gives, end);
      steps, t := moves + gives, end;
    }
  }
}
