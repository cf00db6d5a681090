/** The process table and the scheduler's counters, updated in place. */
module ProcessTable {
  import opened Basics
  import opened Scheduler
  import opened SchedulerRuns

  class Table {
    const slots: array<Option<Process>>
    var count: nat
    var current: nat
    var ticks: nat
    var quantum: nat
    var enabled: bool

    ghost predicate Valid()
      reads this, slots
    {
      slots.Length == 64 && current < count <= 64
    }

    ghost function S(): Sched
      requires slots.Length == 64
      reads this, slots
    {
      Sched(slots[..], count, current, ticks, quantum, enabled)
    }

    /** The kernel process, made current and running. */
    constructor (rsp: nat)
      ensures Valid() && S() == Booted(rsp) && fresh(slots)
    {
      slots := new Option<Process>[64](i => if i == 0 then Some(Process(0, rsp, Running, Idle, 0)) else None);
      count, current, ticks, quantum, enabled := 1, 0, 0, QUANTUM_TICKS, false;
    }

    method FindNextReady() returns (next: Option<nat>)
      requires Valid()
      ensures next == FindNext(S())
    {
      var idle: Option<nat> := None;
      var offset := 1;
      while offset <= count
        invariant 1 <= offset <= count + 1
        invariant Scan(slots[..], current, count, offset, idle) == FindNext(S())
      {
        AroundIsShift(current, offset, count);
        var i := (current + offset) % count;
        if slots[i].Some? && slots[i].value.state == Ready {
          if slots[i].value.priority != Idle {
            return Some(i);
          }
          if idle.None? {
            idle := Some(i);
          }
        }
        offset := offset + 1;
      }
      return idle;
    }

    method Dispatch(rsp: nat, next: nat) returns (newRsp: nat)
      requires Valid() && next < count && next != current && slots[next].Some?
      modifies this`current, slots
      ensures Valid() && S() == Scheduler.SwitchTo(old(S()), rsp, next)
      ensures newRsp == old(slots[next].value.rsp)
    {
      if slots[current].Some? {
        slots[current] := Some(Parked(slots[current].value, rsp));
      }
      assert slots[..] == Park(old(slots[..]), current, rsp);
      slots[next] := Some(slots[next].value.(state := Running));
      assert slots[..] == SetState(Park(old(slots[..]), current, rsp), next, Running);
      current := next;
      newRsp := slots[next].value.rsp;
    }

    /** `schedule`: switches out a process that used up its quantum or cannot go on. */
    method Schedule(rsp: nat) returns (newRsp: nat)
      requires Valid()
      modifies this`quantum, this`current, slots
      ensures Valid() && S() == Scheduler.Schedule(old(S()), rsp).0
      ensures var d := Scheduler.Schedule(old(S()), rsp).1;
              newRsp == if d.Some? && d.value < 64 && S().slots[d.value].Some? then S().slots[d.value].value.rsp else rsp
    {
      NextIsReady(S());
      if slots[current].None? || slots[current].value.state == Ready {
        return rsp;
      }
      var running := slots[current].value.state == Running;
      if running {
        if quantum > 0 {
          quantum := quantum - 1;
        }
        if quantum > 0 {
          return rsp;
        }
      }
      var next := FindNextReady();
      assert next == FindNext(old(S()));
      if next.Some? {
        quantum := QUANTUM_TICKS;
        newRsp := Dispatch(rsp, next.value);
      } else {
        if running {
          quantum := QUANTUM_TICKS;
        }
        newRsp := rsp;
      }
    }

    /** Wakes the sleepers whose time has come. */
    method WakeSleepers()
      requires Valid()
      modifies slots
      ensures Valid() && S() == WithSlots(old(S()), WakeUp(old(slots[..]), count, ticks))
    {
      var i := 0;
      while i < count
        invariant i <= count
        invariant forall j | 0 <= j < 64 :: slots[j] == if j < i then Woken(old(slots[j]), ticks) else old(slots[j])
      {
        if slots[i].Some? && slots[i].value.state == Sleeping && ticks >= slots[i].value.wakeAt {
          slots[i] := Some(slots[i].value.(state := Ready));
        }
        i := i + 1;
      }
      assert slots[..] == WakeUp(old(slots[..]), count, ticks);
    }

    method HandleTimerInterrupt(rsp: nat) returns (newRsp: nat)
      requires Valid()
      modifies this, slots
      ensures Valid() && S() == Tick(old(S()), rsp) && newRsp == Resumed(old(S()), rsp)
    {
      if !enabled {
        return rsp;
      }
      ticks := ticks + 1;
      WakeSleepers();
      assert S() == Awake(old(S()));
      newRsp := Schedule(rsp);
    }

    method SetCurrentState(state: State)
      requires Valid()
      modifies slots
      ensures Valid() && S() == SetCurrent(old(S()), state)
    {
      if slots[current].Some? {
        slots[current] := Some(slots[current].value.(state := state));
      }
      assert slots[..] == SetState(old(slots[..]), current, state);
    }

    method YieldProcess()
      requires Valid()
      modifies this`quantum, slots
      ensures Valid() && S() == Exec(old(S()), YieldCpu)
    {
      SetCurrentState(Ready);
      quantum := 0;
    }

    method BlockCurrent()
      requires Valid()
      modifies slots
      ensures Valid() && S() == Exec(old(S()), BlockSelf)
    {
      SetCurrentState(Blocked);
    }

    method ExitCurrentProcess()
      requires Valid()
      modifies slots
      ensures Valid() && S() == Exec(old(S()), Exit)
    {
      SetCurrentState(Terminated);
    }

    method UnblockProcess(pid: nat)
      requires Valid()
      modifies slots
      ensures Valid() && S() == Exec(old(S()), UnblockPid(pid))
    {
      if pid < 64 && slots[pid].Some? && slots[pid].value.state == Blocked {
        slots[pid] := Some(slots[pid].value.(state := Ready));
        assert slots[..] == SetState(old(slots[..]), pid, Ready);
      }
    }

    method SleepProc(amount: nat, perSecond: nat, unit: nat)
      requires Valid() && unit > 0
      modifies slots
      ensures Valid() && S() == Exec(old(S()), SleepFor(SleepTicks(amount, perSecond, unit)))
    {
      var t := SleepTicks(amount, perSecond, unit);
      if slots[current].Some? {
        slots[current] := Some(Asleep(slots[current].value, ticks + t));
        assert slots[..] == Put(old(slots[..]), current, slots[current]);
      }
    }

    /** `stack` is the initial stack pointer, or None if the stack or the address space for the
        new process could not be allocated. */
    method CreateProcess(stack: Option<nat>) returns (pid: Option<nat>)
      requires Valid()
      modifies this`count, slots
      ensures Valid()
      ensures S() == if stack.Some? then Exec(old(S()), CreateWith(stack.value)) else old(S())
      ensures pid == if old(count) < 64 && stack.Some? then Some(old(count)) else None
    {
      if count >= 64 || stack.None? {
        return None;
      }
      pid := Some(count);
      slots[count] := Some(Process(count, stack.value, Ready, Normal, 0));
      assert slots[..] == Put(old(slots[..]), count, slots[count]);
      count := count + 1;
    }

    method DestroyProcess(pid: nat) returns (destroyed: bool)
      requires Valid()
      modifies this`current, slots
      ensures Valid() && S() == Exec(old(S()), DestroyPid(pid))
      ensures destroyed == (pid < 64 && old(slots[..])[pid].Some?)
    {
      if pid >= 64 || slots[pid].None? {
        return false;
      }
      slots[pid] := None;
      assert slots[..] == Put(old(slots[..]), pid, None);
      if current == pid {
        current := 0;
      }
      return true;
    }

    method CleanupTerminatedProcesses()
      requires Valid()
      modifies this`current, slots
      ensures Valid() && S() == Exec(old(S()), CleanTerminated)
    {
      var i := 0;
      while i < count
        invariant i <= count && Valid()
        invariant CleanUp(S(), i) == CleanUp(old(S()), 0)
      {
        if slots[i].Some? && slots[i].value.state == Terminated {
          var _ := DestroyProcess(slots[i].value.pid);
        }
        i := i + 1;
      }
    }
  }
}
