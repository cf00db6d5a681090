/** Whole runs of the scheduler: timer ticks interleaved with the calls of processes. */
module SchedulerRuns {
  import opened Basics
  import opened Scheduler

  // ---------------------------------------------------------------------------
  // The calls

  /** What a call of the current process makes of it. */
  function SetCurrent(s: Sched, state: State): Sched
    requires s.current < 64
  {
    WithSlots(s, SetState(s.slots, s.current, state))
  }

  function WithSlots(s: Sched, slots: Slots): Sched {
    Sched(slots, s.count, s.current, s.ticks, s.quantum, s.enabled)
  }

  function Yield(s: Sched): Sched
    requires s.current < 64
  {
    WithQuantum(SetCurrent(s, Ready), 0)
  }

  function Unblock(s: Sched, pid: nat): Sched {
    if pid < 64 && s.slots[pid].Some? && s.slots[pid].value.state == Blocked
    then WithSlots(s, SetState(s.slots, pid, Ready)) else s
  }

  function Put(slots: Slots, i: nat, o: Option<Process>): (slots': Slots)
    requires i < 64
    ensures slots'[i] == o && forall j | 0 <= j < 64 && j != i :: slots'[j] == slots[j]
  {
    slots[i := o]
  }

  function Asleep(p: Process, wakeAt: nat): Process {
    Process(p.pid, p.rsp, Sleeping, p.priority, wakeAt)
  }

  /** The ticks for `amount` units of which there are `unit` in a second. */
  function SleepTicks(amount: nat, perSecond: nat, unit: nat): nat
    requires unit > 0
  {
    var t := (amount * perSecond + unit - 1) / unit;
    if t > 1 then t else 1
  }

  function Sleep(s: Sched, ticks: nat): Sched
    requires s.current < 64
  {
    match s.slots[s.current]
    case None => s
    case Some(p) => WithSlots(s, Put(s.slots, s.current, Some(Asleep(p, s.ticks + ticks))))
  }

  /** `create_process` when its stack and address space could be had. */
  function Create(s: Sched, rsp: nat): Sched {
    if s.count >= 64 then s
    else Sched(Put(s.slots, s.count, Some(Process(s.count, rsp, Ready, Normal, 0))),
               s.count + 1, s.current, s.ticks, s.quantum, s.enabled)
  }

  function Destroy(s: Sched, pid: nat): Sched {
    if pid >= 64 || s.slots[pid].None? then s
    else Sched(Put(s.slots, pid, None), s.count, if s.current == pid then 0 else s.current, s.ticks, s.quantum, s.enabled)
  }

  predicate IsTerminated(o: Option<Process>) { o.Some? && o.value.state == Terminated }

  function CleanOne(s: Sched, i: nat): Sched
    requires i < 64
  {
    if IsTerminated(s.slots[i]) then Destroy(s, s.slots[i].value.pid) else s
  }

  function CleanUp(s: Sched, i: nat): Sched
    requires s.count <= 64
    decreases s.count - i
  {
    if i >= s.count then s else CleanUp(CleanOne(s, i), i + 1)
  }

  datatype Step =
    | Timer(rsp: nat) | Enable | Disable
    | YieldCpu | BlockSelf | SleepFor(ticks: nat) | Exit
    | UnblockPid(pid: nat) | CreateWith(rsp: nat) | DestroyPid(pid: nat) | CleanTerminated

  /** Calls made by the current process itself. */
  predicate ByCurrent(step: Step) { step.YieldCpu? || step.BlockSelf? || step.SleepFor? || step.Exit? }

  /** A process that is asleep or has exited makes no calls. */
  predicate Allowed(s: Sched, step: Step)
    requires s.current < 64
  {
    ByCurrent(step) && s.slots[s.current].Some? ==>
      s.slots[s.current].value.state != Sleeping && s.slots[s.current].value.state != Terminated
  }

  function Exec(s: Sched, step: Step): Sched
    requires InTable(s)
  {
    match step
    case Timer(rsp) => Tick(s, rsp)
    case Enable => Sched(s.slots, s.count, s.current, s.ticks, s.quantum, true)
    case Disable => Sched(s.slots, s.count, s.current, s.ticks, s.quantum, false)
    case YieldCpu => Yield(s)
    case BlockSelf => SetCurrent(s, Blocked)
    case SleepFor(ticks) => Sleep(s, ticks)
    case Exit => SetCurrent(s, Terminated)
    case UnblockPid(pid) => Unblock(s, pid)
    case CreateWith(rsp) => Create(s, rsp)
    case DestroyPid(pid) => Destroy(s, pid)
    case CleanTerminated => CleanUp(s, 0)
  }

  // ---------------------------------------------------------------------------
  // What every step keeps

  /** Slot i holds process i, slots past the count are empty, and only the current process runs. */
  predicate Tidy(s: Sched) {
    && InTable(s) && s.quantum <= QUANTUM_TICKS
    && (forall i {:trigger SlotOk(s, i)} | 0 <= i < 64 :: SlotOk(s, i))
  }

  predicate SlotOk(s: Sched, i: nat)
    requires i < 64
  {
    s.slots[i].Some? ==> s.slots[i].value.pid == i && i < s.count && (IsRunning(s, i) ==> i == s.current)
  }

  lemma TickKeepsTidy(s: Sched, rsp: nat)
    requires Tidy(s)
    ensures Tidy(Tick(s, rsp))
  {
    if s.enabled {
      var s' := Tick(s, rsp);
      forall i | 0 <= i < 64 ensures SlotOk(s', i) {
        assert SlotOk(s, i);
        TickSlot(s, rsp, i);
        TickSlot(s, rsp, s.current);
      }
      TickSlot(s, rsp, 0);
    }
  }

  lemma CleanOneKeepsTidy(s: Sched, i: nat)
    requires Tidy(s) && i < s.count
    ensures var s' := CleanOne(s, i);
            && Tidy(s') && s'.count == s.count && s'.ticks == s.ticks && s'.enabled == s.enabled
            && s'.slots == if IsTerminated(s.slots[i]) then Put(s.slots, i, None) else s.slots
  {
    assert SlotOk(s, i);
    var s' := CleanOne(s, i);
    forall j | 0 <= j < 64 ensures SlotOk(s', j) {
      assert SlotOk(s, j);
    }
  }

  /** Cleaning up clears every terminated slot and touches no other. */
  lemma {:induction false} CleanUpClears(s: Sched, i: nat, j: nat)
    requires Tidy(s) && i <= s.count && j < 64
    ensures var s' := CleanUp(s, i);
            && Tidy(s') && s'.count == s.count && s'.ticks == s.ticks && s'.enabled == s.enabled
            && s'.slots[j] == if j >= i && IsTerminated(s.slots[j]) then None else s.slots[j]
    decreases s.count - i
  {
    if i < s.count {
      CleanOneKeepsTidy(s, i);
      CleanUpClears(CleanOne(s, i), i + 1, j);
    } else {
      assert SlotOk(s, j);
    }
  }

  lemma CallKeepsSlot(s: Sched, step: Step, i: nat)
    requires Tidy(s) && !step.Timer? && !step.CleanTerminated? && i < 64
    ensures var s' := Exec(s, step); InTable(s') && s'.quantum <= QUANTUM_TICKS && SlotOk(s', i)
  {
    assert SlotOk(s, i);
  }

  lemma StepKeepsTidy(s: Sched, step: Step)
    requires Tidy(s)
    ensures Tidy(Exec(s, step))
  {
    match step
    case Timer(rsp) => TickKeepsTidy(s, rsp);
    case CleanTerminated => CleanUpClears(s, 0, 0);
    case _ =>
      forall i | 0 <= i < 64 ensures SlotOk(Exec(s, step), i) {
        CallKeepsSlot(s, step, i);
      }
      CallKeepsSlot(s, step, 0);
  }

  // ---------------------------------------------------------------------------
  // Runs

  /** A history from boot; `After` is the state it leads to. */
  datatype Run = Boot(rsp: nat) | Then(before: Run, step: Step)

  /** The kernel process is in slot 0 and running, and nothing else exists. */
  function Booted(rsp: nat): Sched {
    Sched(seq(64, i => if i == 0 then Some(Process(0, rsp, Running, Idle, 0)) else None), 1, 0, 0, QUANTUM_TICKS, false)
  }

  /** In every run any running process is the current one and slot i holds process i. */
  function After(run: Run): (s: Sched)
    ensures Tidy(s)
  {
    match run
    case Boot(rsp) => Booted(rsp)
    case Then(before, step) => StepKeepsTidy(After(before), step); Exec(After(before), step)
  }

  predicate Legal(run: Run) {
    match run
    case Boot(_) => true
    case Then(before, step) => Legal(before) && Allowed(After(before), step)
  }

  predicate Ends(s: Sched, step: Step, p: nat) {
    p < 64 && s.slots[p].Some? && ((step == Exit && p == s.current) || step == DestroyPid(p))
  }

  function WakeAfter(s: Sched, step: Step, p: nat, wake: Option<nat>): Option<nat> {
    if step.SleepFor? && p < 64 && p == s.current && s.slots[p].Some? then Some(s.ticks + step.ticks) else wake
  }

  function SavedAfter(s: Sched, step: Step, p: nat, saved: nat): nat
    requires InTable(s)
  {
    if step.Timer? && p == s.current && Dispatched(s, step.rsp).Some? then step.rsp
    else if step.CreateWith? && p == s.count && s.count < 64 then step.rsp
    else saved
  }

  /** Process p has exited or been destroyed at some point of the run. */
  predicate Ended(run: Run, p: nat) {
    run.Then? && (Ended(run.before, p) || Ends(After(run.before), run.step, p))
  }

  /** The tick until which p last asked to sleep. */
  function WakeTick(run: Run, p: nat): Option<nat> {
    match run
    case Boot(_) => None
    case Then(before, step) => WakeAfter(After(before), step, p, WakeTick(before, p))
  }

  /** The stack pointer with which p was last interrupted and switched out, or its first one. */
  function SavedRsp(run: Run, p: nat): nat {
    match run
    case Boot(rsp) => rsp
    case Then(before, step) => SavedAfter(After(before), step, p, SavedRsp(before, p))
  }

  /** What the three histories say about the slot of p in state s. */
  predicate Agrees(s: Sched, p: nat, ended: bool, wake: Option<nat>, saved: nat)
    requires p < 64
  {
    && (ended ==> p < s.count && (s.slots[p].None? || s.slots[p].value.state == Terminated))
    && (wake.Some? ==> p < s.count && (s.ticks < wake.value ==>
          s.slots[p].None? || (s.slots[p].value.state == Sleeping && s.slots[p].value.wakeAt == wake.value)))
    && (s.slots[p].Some? ==> s.slots[p].value.rsp == saved)
  }

  lemma TickAgrees(s: Sched, rsp: nat, p: nat, ended: bool, wake: Option<nat>, saved: nat)
    requires Tidy(s) && p < 64 && Agrees(s, p, ended, wake, saved)
    ensures Agrees(Tick(s, rsp), p, ended, wake, SavedAfter(s, Timer(rsp), p, saved))
  {
    assert SlotOk(s, p);
    if s.enabled { TickSlot(s, rsp, p); }
  }

  lemma CallAgrees(s: Sched, step: Step, p: nat, ended: bool, wake: Option<nat>, saved: nat)
    requires Tidy(s) && p < 64 && Allowed(s, step) && Agrees(s, p, ended, wake, saved)
    requires !step.Timer? && !step.CleanTerminated?
    ensures Agrees(Exec(s, step), p, ended || Ends(s, step, p), WakeAfter(s, step, p, wake), SavedAfter(s, step, p, saved))
  {
    assert SlotOk(s, p);
  }

  lemma StepAgrees(s: Sched, step: Step, p: nat, ended: bool, wake: Option<nat>, saved: nat)
    requires Tidy(s) && p < 64 && Allowed(s, step) && Agrees(s, p, ended, wake, saved)
    ensures Agrees(Exec(s, step), p, ended || Ends(s, step, p), WakeAfter(s, step, p, wake), SavedAfter(s, step, p, saved))
  {
    match step {
      case Timer(rsp) => TickAgrees(s, rsp, p, ended, wake, saved);
      case CleanTerminated => CleanUpClears(s, 0, p);
      case _ => CallAgrees(s, step, p, ended, wake, saved);
    }
  }

  lemma HistoryAgrees(run: Run, p: nat)
    requires Legal(run) && p < 64
    ensures Agrees(After(run), p, Ended(run, p), WakeTick(run, p), SavedRsp(run, p))
  {
    if run.Then? {
      HistoryAgrees(run.before, p);
      StepAgrees(After(run.before), run.step, p, Ended(run.before, p), WakeTick(run.before, p), SavedRsp(run.before, p));
    }
  }

  /** In every run a process is dispatched only if it never exited and was never destroyed, only
      once the tick until which it slept has come, and with exactly the stack pointer saved when
      it was last switched out, or its first one. That stack pointer is its own, unless it is the
      kernel process and some process was destroyed while it executed. */
  lemma DispatchIsSafe(run: Run, rsp: nat, p: nat)
    requires Legal(run) && Dispatched(After(run), rsp) == Some(p)
    ensures var s := After(run); var s' := Tick(s, rsp);
            && p < s.count && p != s.current && s'.current == p && IsRunning(s', p)
            && !Ended(run, p)
            && (WakeTick(run, p).Some? ==> s'.ticks >= WakeTick(run, p).value)
            && Resumed(s, rsp) == SavedRsp(run, p)
            && (p != 0 || NeverOrphaned(run) ==> SavedBy(run, p) == p)
  {
    var s := After(run);
    TickSlot(s, rsp, 0);
    TickSlot(s, rsp, p);
    HistoryAgrees(run, p);
    if p != 0 {
      OnlyKernelLosesStack(run, p);
    } else if NeverOrphaned(run) {
      EveryoneResumesOwn(run, p);
    }
  }

  // ---------------------------------------------------------------------------
  // Whose stack is saved

  /** The process whose code the processor executes: the one dispatched last, even if it has been
      destroyed since. */
  function Executing(run: Run): nat {
    match run
    case Boot(_) => 0
    case Then(before, step) =>
      if step.Timer? && Dispatched(After(before), step.rsp).Some? then Dispatched(After(before), step.rsp).value
      else Executing(before)
  }

  /** The process on whose stack the stack pointer saved for p lies. */
  function SavedBy(run: Run, p: nat): nat {
    match run
    case Boot(_) => p
    case Then(before, step) =>
      var s := After(before);
      if step.Timer? && p == s.current && Dispatched(s, step.rsp).Some? then Executing(before)
      else if step.CreateWith? && p == s.count && s.count < 64 then p
      else SavedBy(before, p)
  }

  /** The process executing is no longer the current one. */
  predicate Orphaned(run: Run) { Executing(run) != After(run).current }

  /** Destroying the current process makes slot 0 the current one. */
  predicate Orphans(s: Sched, step: Step)
    requires s.current < 64
  {
    && s.current != 0 && s.slots[s.current].Some?
    && (step == DestroyPid(s.current) || (step == CleanTerminated && s.slots[s.current].value.state == Terminated))
  }

  lemma {:induction false} CleanUpCurrent(s: Sched, i: nat)
    requires Tidy(s) && i <= s.count
    ensures CleanUp(s, i).current == if s.current >= i && IsTerminated(s.slots[s.current]) then 0 else s.current
    decreases s.count - i
  {
    if i < s.count {
      assert SlotOk(s, i);
      CleanOneKeepsTidy(s, i);
      CleanUpCurrent(CleanOne(s, i), i + 1);
    }
  }

  lemma CurrentAfter(s: Sched, step: Step)
    requires Tidy(s)
    ensures var s' := Exec(s, step);
            s'.current == if step.Timer? && Dispatched(s, step.rsp).Some? then Dispatched(s, step.rsp).value
                          else if Orphans(s, step) then 0 else s.current
  {
    match step
    case Timer(rsp) => if s.enabled { TickSlot(s, rsp, 0); }
    case CleanTerminated => CleanUpCurrent(s, 0);
    case _ =>
  }

  lemma EmptyStays(s: Sched, step: Step, p: nat)
    requires Tidy(s) && p < s.count && s.slots[p].None?
    ensures Exec(s, step).slots[p].None?
  {
    match step
    case Timer(rsp) => if s.enabled { TickSlot(s, rsp, p); }
    case CleanTerminated => CleanUpClears(s, 0, p);
    case _ =>
  }

  lemma OrphanIsGone(s: Sched, step: Step)
    requires Tidy(s) && Orphans(s, step)
    ensures Exec(s, step).slots[s.current].None?
  {
    if step.CleanTerminated? { CleanUpClears(s, 0, s.current); }
  }

  lemma CountGrows(s: Sched, step: Step)
    requires Tidy(s)
    ensures Exec(s, step).count >= s.count
  {
    match step
    case Timer(rsp) => if s.enabled { TickSlot(s, rsp, 0); }
    case CleanTerminated => CleanUpClears(s, 0, 0);
    case _ =>
  }

  /** In every run the executing process is the current one, or it is gone and slot 0 is current. */
  lemma {:induction false} ExecutingIsCurrent(run: Run)
    ensures var s := After(run);
            && Executing(run) < s.count
            && (Orphaned(run) ==> s.current == 0 && s.slots[Executing(run)].None?)
  {
    if run.Then? {
      var s := After(run.before);
      ExecutingIsCurrent(run.before);
      CurrentAfter(s, run.step);
      CountGrows(s, run.step);
      if Orphaned(run.before) {
        EmptyStays(s, run.step, Executing(run.before));
      } else if Orphans(s, run.step) {
        OrphanIsGone(s, run.step);
      }
    }
  }

  /** The current process was destroyed, or cleaned up after its exit, since the last dispatch. */
  predicate LostCurrent(run: Run) {
    match run
    case Boot(_) => false
    case Then(before, step) =>
      !(step.Timer? && Dispatched(After(before), step.rsp).Some?) && (LostCurrent(before) || Orphans(After(before), step))
  }

  /** Exactly one thing separates the two, in every run: the current process, unless it is the
      kernel's, was destroyed since the last dispatch. */
  lemma {:induction false} OrphanedIff(run: Run)
    ensures Orphaned(run) <==> LostCurrent(run)
  {
    if run.Then? {
      OrphanedIff(run.before);
      ExecutingIsCurrent(run.before);
      CurrentAfter(After(run.before), run.step);
    }
  }

  /** A switch saves the stack pointer of the process it is saved for exactly if the current process
      was not destroyed since the last dispatch; otherwise the kernel's slot gets that of the
      destroyed process. */
  lemma SwitchSavesOwnIff(run: Run, rsp: nat)
    requires Dispatched(After(run), rsp).Some?
    ensures var p := After(run).current;
            && (SavedBy(Then(run, Timer(rsp)), p) == p <==> !LostCurrent(run))
            && Executing(run) < 64
            && (LostCurrent(run) ==> p == 0 && After(run).slots[Executing(run)].None?)
  {
    ExecutingIsCurrent(run);
    OrphanedIff(run);
  }

  /** Every process but the kernel's only ever resumes on a stack of its own. */
  lemma {:induction false} OnlyKernelLosesStack(run: Run, p: nat)
    requires p != 0
    ensures SavedBy(run, p) == p
  {
    if run.Then? {
      OnlyKernelLosesStack(run.before, p);
      ExecutingIsCurrent(run.before);
    }
  }

  /** No step destroys the current process, unless it is the kernel's. */
  predicate NeverOrphaned(run: Run) {
    run.Then? ==> NeverOrphaned(run.before) && !Orphans(After(run.before), run.step)
  }

  /** In every run that never destroys the current process, a dispatched process resumes with its
      own stack pointer: its first one, or the one it was interrupted with. */
  lemma {:induction false} EveryoneResumesOwn(run: Run, p: nat)
    requires NeverOrphaned(run)
    ensures SavedBy(run, p) == p && !LostCurrent(run)
  {
    if run.Then? {
      EveryoneResumesOwn(run.before, p);
      OrphanedIff(run.before);
    }
  }

  /** The kernel process creates two others and blocks; the next tick dispatches the first. */
  function BlockedKernelRun(rsp: nat, first: nat, second: nat): Run {
    Then(Then(Then(Then(Boot(rsp), CreateWith(first)), CreateWith(second)), Enable), BlockSelf)
  }

  lemma FirstIsDispatched(rsp: nat, first: nat, second: nat, at: nat)
    ensures var run := Then(BlockedKernelRun(rsp, first, second), Timer(at)); var s := After(run);
            && Executing(run) == 1 && s.current == 1 && s.count == 3 && s.enabled
            && s.slots[0] == Some(Process(0, at, Blocked, Idle, 0)) && s.slots[1].Some? && IsReady(s.slots, 2)
  {
    var booted := Boot(rsp);
    var one := Then(booted, CreateWith(first));
    var two := Then(one, CreateWith(second));
    var enabled := Then(two, Enable);
    var blocked := BlockedKernelRun(rsp, first, second);
    assert After(booted) == Booted(rsp);
    assert After(one) == Exec(After(booted), CreateWith(first));
    assert After(two) == Exec(After(one), CreateWith(second));
    assert After(enabled) == Exec(After(two), Enable);
    assert After(blocked) == Exec(After(enabled), BlockSelf);
    var s := After(blocked);
    assert s.current == 0 && s.count == 3 && s.slots[0] == Some(Process(0, rsp, Blocked, Idle, 0));
    assert s.slots[1] == Some(Process(1, first, Ready, Normal, 0)) && s.slots[2] == Some(Process(2, second, Ready, Normal, 0));
    AroundIsShift(0, 1, 3);
    assert Eligible(Awake(s).slots, 1);
    TickSlot(s, at, 0);
    TickSlot(s, at, 1);
    TickSlot(s, at, 2);
  }

  /** Process 1 is destroyed while it executes: the next tick saves its stack pointer for the
      kernel process. */
  lemma KernelLosesStack(rsp: nat, first: nat, second: nat, at: nat, later: nat)
    ensures var gone := Then(Then(BlockedKernelRun(rsp, first, second), Timer(at)), DestroyPid(1));
            Dispatched(After(gone), later).Some? && SavedBy(Then(gone, Timer(later)), 0) == 1
  {
    var run := Then(BlockedKernelRun(rsp, first, second), Timer(at));
    FirstIsDispatched(rsp, first, second, at);
    var s := After(run);
    var gone := Destroy(s, 1);
    assert After(Then(run, DestroyPid(1))) == gone;
    assert IsReady(Awake(gone).slots, 2);
    AroundIsShift(0, 2, 3);
    ScanIsFirst(Awake(gone).slots, 0, 3, 1);
  }

  /** Nothing else ever makes a process run: if it runs after a step, it ran before or the step
      dispatched it. */
  lemma OnlyDispatchRuns(run: Run, step: Step, p: nat)
    requires p < 64 && IsRunning(After(Then(run, step)), p)
    ensures IsRunning(After(run), p) || (step.Timer? && Dispatched(After(run), step.rsp) == Some(p))
  {
    var s := After(run);
    match step
    case Timer(rsp) => if s.enabled { TickSlot(s, rsp, p); }
    case CleanTerminated => CleanUpClears(s, 0, p);
    case _ =>
  }

  /** The wait bound, from every state a run can reach. */
  lemma RunBoundedWait(run: Run, rsps: seq<nat>, t: nat, d: nat)
    requires Waiting(After(run), t, d) && |rsps| >= 5 * d
    ensures (exists n :: 0 <= n <= |rsps| && IsRunning(Ticks(After(run), rsps[..n]), t)) <==> Switches(After(run))
    ensures CurrentIs(After(run), Running) ==>
      exists n :: 0 < n <= 5 * d && IsRunning(Ticks(After(run), rsps[..n]), t)
  {
    RunsIffSwitches(After(run), rsps, t, d);
    if CurrentIs(After(run), Running) {
      BoundedWait(After(run), rsps, t, d);
    }
  }

  /** The kernel process creates another and yields: no number of ticks ever runs the other. */
  function YieldedRun(rsp: nat, first: nat): Run {
    Then(Then(Then(Boot(rsp), CreateWith(first)), Enable), YieldCpu)
  }

  lemma YieldStarves(rsp: nat, first: nat, rsps: seq<nat>)
    ensures Waiting(After(YieldedRun(rsp, first)), 1, 1)
    ensures !IsRunning(Ticks(After(YieldedRun(rsp, first)), rsps), 1)
  {
    var booted := Boot(rsp);
    var created := Then(booted, CreateWith(first));
    var enabled := Then(created, Enable);
    var s := After(YieldedRun(rsp, first));
    assert After(booted) == Booted(rsp);
    assert After(created) == Exec(After(booted), CreateWith(first));
    assert After(enabled) == Exec(After(created), Enable);
    assert s == Exec(After(enabled), YieldCpu);
    assert s.current == 0 && s.count == 2 && s.enabled;
    assert s.slots[0] == Some(Process(0, rsp, Ready, Idle, 0)) && s.slots[1] == Some(Process(1, first, Ready, Normal, 0));
    AroundIsShift(0, 1, 2);
    NeverSwitches(s, rsps, 1);
  }

  /** A sleep lasts at least the time asked for, and less than one tick longer unless it is the
      shortest sleep there is. */
  lemma SleepIsLongEnough(amount: nat, perSecond: nat, unit: nat)
    requires unit > 0
    ensures var t := SleepTicks(amount, perSecond, unit);
            t * unit >= amount * perSecond && (t > 1 ==> (t - 1) * unit < amount * perSecond)
  {
  }
}
