/** The process table and the round-robin scheduler, as a machine over timer ticks and the calls
    of the processes. */
module Scheduler {
  import opened Basics

  const MAX_PROCESSES: nat := 64
  const QUANTUM_TICKS: nat := 5

  datatype Priority = Idle | Normal | High | Realtime
  datatype State = Ready | Running | Blocked | Sleeping | Terminated
  datatype Process = Process(pid: nat, rsp: nat, state: State, priority: Priority, wakeAt: nat)

  type Slots = s: seq<Option<Process>> | |s| == 64 witness seq(64, _ => None)

  datatype Sched = Sched(slots: Slots, count: nat, current: nat, ticks: nat, quantum: nat, enabled: bool)

  /** The table never has more processes than slots, and `current` is one of them. */
  predicate InTable(s: Sched) { s.current < s.count <= MAX_PROCESSES }

  // ---------------------------------------------------------------------------
  // Choosing and dispatching

  predicate IsReady(slots: Slots, i: nat) {
    i < 64 && slots[i].Some? && slots[i].value.state == Ready
  }

  /** Ready, and preferred over the idle process. */
  predicate Eligible(slots: Slots, i: nat) {
    IsReady(slots, i) && slots[i].value.priority != Idle
  }

  /** The slot `offset` places after `current`, going round the table. */
  function Around(current: nat, offset: nat, count: nat): nat
    requires count > 0
  {
    (current + offset) % count
  }

  /** The search of `find_next_ready` from `offset` on, with the idle candidate found so far. */
  function Scan(slots: Slots, current: nat, count: nat, offset: nat, idle: Option<nat>): (r: Option<nat>)
    requires count > 0
    decreases count + 1 - offset
  {
    if offset > count then idle
    else
      var i := Around(current, offset, count);
      if !IsReady(slots, i) then Scan(slots, current, count, offset + 1, idle)
      else if slots[i].value.priority != Idle then Some(i)
      else Scan(slots, current, count, offset + 1, if idle.None? then Some(i) else idle)
  }

  function FindNext(s: Sched): Option<nat>
    requires InTable(s)
  {
    Scan(s.slots, s.current, s.count, 1, None)
  }

  function SetState(slots: Slots, i: nat, state: State): (slots': Slots)
    requires i < 64
    ensures forall j | 0 <= j < 64 && j != i :: slots'[j] == slots[j]
    ensures slots[i].None? ==> slots'[i].None?
    ensures slots[i].Some? ==> slots'[i] == Some(slots[i].value.(state := state))
  {
    if slots[i].None? then slots else slots[i := Some(slots[i].value.(state := state))]
  }

  /** What the current process looks like once it is switched out. */
  function Parked(p: Process, rsp: nat): Process {
    p.(rsp := rsp, state := if p.state == Running then Ready else p.state)
  }

  function Park(slots: Slots, i: nat, rsp: nat): (slots': Slots)
    requires i < 64
    ensures forall j | 0 <= j < 64 && j != i :: slots'[j] == slots[j]
    ensures slots[i].None? ==> slots'[i].None?
    ensures slots[i].Some? ==> slots'[i] == Some(Parked(slots[i].value, rsp))
  {
    if slots[i].None? then slots else slots[i := Some(Parked(slots[i].value, rsp))]
  }

  function SwitchTo(s: Sched, rsp: nat, next: nat): Sched
    requires s.current < 64 && next < 64
  {
    Sched(SetState(Park(s.slots, s.current, rsp), next, Running), s.count, next, s.ticks, s.quantum, s.enabled)
  }

  /** Sleepers whose time has come. */
  predicate Due(o: Option<Process>, ticks: nat) {
    o.Some? && o.value.state == Sleeping && ticks >= o.value.wakeAt
  }

  function Woken(o: Option<Process>, ticks: nat): Option<Process> {
    if Due(o, ticks) then Some(o.value.(state := Ready)) else o
  }

  function WakeUp(slots: Slots, count: nat, ticks: nat): (slots': Slots)
    ensures forall i | 0 <= i < 64 :: slots'[i] == if i < count then Woken(slots[i], ticks) else slots[i]
  {
    seq(64, i requires 0 <= i < 64 => if i < count then Woken(slots[i], ticks) else slots[i])
  }

  function WithQuantum(s: Sched, quantum: nat): Sched {
    Sched(s.slots, s.count, s.current, s.ticks, quantum, s.enabled)
  }

  /** `schedule`: the state after it, and the process dispatched, if any. */
  function Schedule(s: Sched, rsp: nat): (r: (Sched, Option<nat>))
    requires InTable(s)
  {
    if s.slots[s.current].None? then (s, None)
    else
      match s.slots[s.current].value.state
      case Running =>
        var q := if s.quantum > 0 then s.quantum - 1 else 0;
        if q > 0 then (WithQuantum(s, q), None)
        else
          var next := FindNext(s);
          var s1 := WithQuantum(s, QUANTUM_TICKS);
          if next.Some? && next.value < 64 then (SwitchTo(s1, rsp, next.value), next) else (s1, None)
      case Ready => (s, None)
      case _ =>
        var next := FindNext(s);
        if next.Some? && next.value < 64 then (SwitchTo(WithQuantum(s, QUANTUM_TICKS), rsp, next.value), next)
        else (s, None)
  }

  function Awake(s: Sched): Sched {
    Sched(WakeUp(s.slots, s.count, s.ticks + 1), s.count, s.current, s.ticks + 1, s.quantum, s.enabled)
  }

  function Tick(s: Sched, rsp: nat): Sched
    requires InTable(s)
  {
    if s.enabled then Schedule(Awake(s), rsp).0 else s
  }

  function Dispatched(s: Sched, rsp: nat): Option<nat>
    requires InTable(s)
  {
    if s.enabled then Schedule(Awake(s), rsp).1 else None
  }

  /** The stack pointer the interrupt handler returns to. */
  function Resumed(s: Sched, rsp: nat): nat
    requires InTable(s)
  {
    var next := Dispatched(s, rsp);
    if next.Some? && next.value < 64 && Tick(s, rsp).slots[next.value].Some? then Tick(s, rsp).slots[next.value].value.rsp
    else rsp
  }

  // ---------------------------------------------------------------------------
  // The search

  lemma AroundIsShift(current: nat, offset: nat, count: nat)
    requires current < count && offset <= count
    ensures Around(current, offset, count) == if current + offset < count then current + offset else current + offset - count
    ensures Around(current, offset, count) < count
  {
    var x := current + offset;
    if x >= count {
      assert x == 1 * count + (x - count);
      ModOnce(x, count);
    }
  }

  lemma ModOnce(x: nat, m: nat)
    requires 0 < m <= x < 2 * m
    ensures x % m == x - m
  {
  }

  /** `o` is the first place going round at which `i` is found, with nothing eligible before it. */
  predicate FirstFound(slots: Slots, current: nat, count: nat, from: nat, o: nat, i: nat)
    requires count > 0
  {
    && from <= o <= count && i == Around(current, o, count) && IsReady(slots, i)
    && (forall d | from <= d < o :: !Eligible(slots, Around(current, d, count)))
    && (!Eligible(slots, i) ==>
          && (forall d | from <= d < o :: !IsReady(slots, Around(current, d, count)))
          && (forall d | from <= d <= count :: !Eligible(slots, Around(current, d, count))))
  }

  /** With an idle candidate in hand the rest of the search only looks for eligible processes. */
  lemma {:induction false} ScanPastIdle(slots: Slots, current: nat, count: nat, offset: nat, idle: nat)
    requires current < count <= 64 && 0 < offset
    ensures var r := Scan(slots, current, count, offset, Some(idle));
            && r.Some?
            && ((r.value == idle && forall d | offset <= d <= count :: !Eligible(slots, Around(current, d, count)))
                || (Eligible(slots, r.value) && exists o :: FirstFound(slots, current, count, offset, o, r.value)))
    decreases count + 1 - offset
  {
    if offset <= count {
      var i := Around(current, offset, count);
      if Eligible(slots, i) {
        assert FirstFound(slots, current, count, offset, offset, i);
      } else {
        var after := offset + 1;
        ScanPastIdle(slots, current, count, after, idle);
        var r := Scan(slots, current, count, after, Some(idle)).value;
        if o :| FirstFound(slots, current, count, after, o, r) && Eligible(slots, r) {
          assert FirstFound(slots, current, count, offset, o, r);
        }
      }
    }
  }

  /** The search returns the first ready process of more than idle priority going round from
      `current`; failing that the first ready idle one; and nothing only if nothing is ready. */
  lemma {:induction false} ScanIsFirst(slots: Slots, current: nat, count: nat, offset: nat)
    requires current < count <= 64 && 0 < offset
    ensures var r := Scan(slots, current, count, offset, None);
            && (r.None? <==> forall d | offset <= d <= count :: !IsReady(slots, Around(current, d, count)))
            && (r.Some? ==> exists o :: FirstFound(slots, current, count, offset, o, r.value))
    decreases count + 1 - offset
  {
    if offset <= count {
      var i := Around(current, offset, count);
      var r := Scan(slots, current, count, offset, None);
      if Eligible(slots, i) {
        assert FirstFound(slots, current, count, offset, offset, i);
      } else if IsReady(slots, i) {
        var after := offset + 1;
        ScanPastIdle(slots, current, count, after, i);
        if o :| FirstFound(slots, current, count, after, o, r.value) && Eligible(slots, r.value) {
          assert FirstFound(slots, current, count, offset, o, r.value);
        } else {
          assert FirstFound(slots, current, count, offset, offset, i);
        }
      } else {
        ScanIsFirst(slots, current, count, offset + 1);
        if r.Some? {
          var o :| FirstFound(slots, current, count, offset + 1, o, r.value);
          assert FirstFound(slots, current, count, offset, o, r.value);
        }
      }
    }
  }

  /** What is found is ready and in the table, and no eligible process is nearer. */
  lemma NextIsReady(s: Sched)
    requires InTable(s)
    ensures var r := FindNext(s); r.Some? ==> r.value < s.count && IsReady(s.slots, r.value)
  {
    var r := FindNext(s);
    ScanIsFirst(s.slots, s.current, s.count, 1);
    if r.Some? {
      var o :| FirstFound(s.slots, s.current, s.count, 1, o, r.value);
      AroundIsShift(s.current, o, s.count);
    }
  }

  lemma FoundIsNearest(slots: Slots, current: nat, count: nat, o: nat, i: nat, d: nat, t: nat)
    requires count > 0 && FirstFound(slots, current, count, 1, o, i)
    requires 0 < d <= count && t == Around(current, d, count) && Eligible(slots, t)
    ensures o <= d
  {
    assert Eligible(slots, Around(current, d, count));
  }

  lemma NextIsNear(s: Sched, t: nat, d: nat) returns (o: nat)
    requires InTable(s) && 0 < d < s.count && t == Around(s.current, d, s.count) && Eligible(s.slots, t)
    ensures 0 < o <= d && FindNext(s) == Some(Around(s.current, o, s.count))
  {
    ScanIsFirst(s.slots, s.current, s.count, 1);
    assert IsReady(s.slots, Around(s.current, d, s.count));
    assert FindNext(s).Some?;
    o :| FirstFound(s.slots, s.current, s.count, 1, o, FindNext(s).value);
    FoundIsNearest(s.slots, s.current, s.count, o, FindNext(s).value, d, t);
  }

  /** Everything a tick does to one slot: a due sleeper wakes, and if some process is dispatched
      it was ready, it was not the current one, and it and the process it replaces are the only
      slots touched. */
  lemma TickSlot(s: Sched, rsp: nat, p: nat)
    requires InTable(s) && s.enabled && p < 64
    ensures var s' := Tick(s, rsp); var d := Dispatched(s, rsp); var w := Awake(s).slots[p];
            && InTable(s') && s'.count == s.count && s'.ticks == s.ticks + 1 && s'.enabled
            && (d.None? ==> s'.current == s.current && s'.slots[p] == w)
            && (d.Some? ==>
                  && d.value < s.count && d.value != s.current && IsReady(Awake(s).slots, d.value)
                  && s'.current == d.value && s'.quantum == QUANTUM_TICKS
                  && s.slots[s.current].Some?
                  && s'.slots[p] == (if p == d.value then Some(w.value.(state := Running))
                                     else if p == s.current then Some(Parked(w.value, rsp))
                                     else w))
  {
    NextIsReady(Awake(s));
  }

  // ---------------------------------------------------------------------------
  // Bounded waiting under timer ticks

  /** The state after one tick for each interrupted stack pointer in `rsps`. */
  function Ticks(s: Sched, rsps: seq<nat>): (s': Sched)
    requires InTable(s)
    ensures InTable(s')
    decreases |rsps|
  {
    if rsps == [] then s
    else
      assert InTable(Tick(s, rsps[0])) by { if s.enabled { TickSlot(s, rsps[0], 0); } }
      Ticks(Tick(s, rsps[0]), rsps[1..])
  }

  /** A ready process of more than idle priority, `d` places after the current one. */
  predicate Waiting(s: Sched, t: nat, d: nat) {
    InTable(s) && s.enabled && 0 < d < s.count && t == Around(s.current, d, s.count) && Eligible(s.slots, t)
  }

  predicate CurrentIs(s: Sched, state: State)
    requires InTable(s)
  {
    s.slots[s.current].Some? && s.slots[s.current].value.state == state
  }

  predicate IsRunning(s: Sched, t: nat) {
    t < 64 && s.slots[t].Some? && s.slots[t].value.state == Running
  }

  /** The states of the current process from which `schedule` ever switches away. A current
      process that is Ready (it yielded, or was woken or unblocked in place), or that a tick
      will wake before it looks, keeps the processor. */
  predicate Switches(s: Sched)
    requires InTable(s)
  {
    s.slots[s.current].Some? &&
    var p := s.slots[s.current].value;
    p.state != Ready && (p.state == Sleeping ==> s.ticks + 1 < p.wakeAt)
  }

  /** Ticks that the current process may still use up before it is switched out. */
  function Patience(s: Sched): nat
    requires InTable(s)
  {
    if CurrentIs(s, Running) && s.quantum > 1 then s.quantum else 1
  }

  lemma AroundAgain(current: nat, o: nat, d: nat, count: nat)
    requires current < count && 0 < o <= d < count
    ensures var next := Around(current, o, count);
            next < count && Around(next, d - o, count) == Around(current, d, count)
  {
    AroundIsShift(current, o, count);
    AroundIsShift(current, d, count);
    AroundIsShift(Around(current, o, count), d - o, count);
  }

  /** A tick that does not exhaust the quantum changes nothing but the quantum and the sleepers. */
  lemma TickCountsDown(s: Sched, rsp: nat, t: nat, d: nat)
    requires Waiting(s, t, d) && CurrentIs(s, Running) && s.quantum > 1
    ensures var s' := Tick(s, rsp);
            && s' == WithQuantum(Awake(s), s.quantum - 1) && s'.current == s.current
            && Waiting(s', t, d) && CurrentIs(s', Running)
  {
    TickSlot(s, rsp, t);
    TickSlot(s, rsp, s.current);
  }

  lemma DispatchesNext(s: Sched, rsp: nat)
    requires InTable(s) && s.enabled && Switches(s) && Patience(s) == 1
    ensures Dispatched(s, rsp) == FindNext(Awake(s))
  {
    NextIsReady(Awake(s));
  }

  /** A tick that switches hands the processor to a process no further away than the waiting one. */
  lemma TickSwitches(s: Sched, rsp: nat, t: nat, d: nat)
    requires Waiting(s, t, d) && Switches(s) && Patience(s) == 1
    ensures var s' := Tick(s, rsp);
            && InTable(s') && CurrentIs(s', Running) && s'.quantum == QUANTUM_TICKS && s'.count == s.count
            && (IsRunning(s', t) || exists o :: 0 < o < d && Waiting(s', t, o))
  {
    var o := NextIsNear(Awake(s), t, d);
    DispatchesNext(s, rsp);
    var next := Around(s.current, o, s.count);
    AroundIsShift(s.current, d, s.count);
    AroundIsShift(s.current, o, s.count);
    AroundAgain(s.current, o, d, s.count);
    TickSlot(s, rsp, t);
    TickSlot(s, rsp, next);
    if o < d {
      assert Waiting(Tick(s, rsp), t, d - o);
    }
  }

  lemma OneMoreTick(s: Sched, rsps: seq<nat>, n: nat)
    requires InTable(s) && n < |rsps|
    ensures InTable(Tick(s, rsps[0]))
    ensures Ticks(s, rsps[..n + 1]) == Ticks(Tick(s, rsps[0]), rsps[1..][..n])
  {
    var first := rsps[..n + 1];
    assert first[0] == rsps[0] && first[1..] == rsps[1..][..n];
    if s.enabled { TickSlot(s, rsps[0], 0); }
  }

  lemma WaitFor(s: Sched, rsps: seq<nat>, t: nat, d: nat)
    requires Waiting(s, t, d) && Switches(s) && s.quantum <= QUANTUM_TICKS
    requires |rsps| >= Patience(s) + 5 * (d - 1)
    ensures exists n :: 0 < n <= Patience(s) + 5 * (d - 1) && IsRunning(Ticks(s, rsps[..n]), t)
    decreases d, s.quantum
  {
    var s' := Tick(s, rsps[0]);
    if Patience(s) > 1 {
      TickCountsDown(s, rsps[0], t, d);
      WaitFor(s', rsps[1..], t, d);
      var n :| 0 < n <= Patience(s') + 5 * (d - 1) && IsRunning(Ticks(s', rsps[1..][..n]), t);
      OneMoreTick(s, rsps, n);
    } else {
      TickSwitches(s, rsps[0], t, d);
      OneMoreTick(s, rsps, 0);
      if !IsRunning(s', t) {
        var o :| 0 < o < d && Waiting(s', t, o);
        WaitFor(s', rsps[1..], t, o);
        var n :| 0 < n <= Patience(s') + 5 * (o - 1) && IsRunning(Ticks(s', rsps[1..][..n]), t);
        OneMoreTick(s, rsps, n);
      }
    }
  }

  /** A ready process of more than idle priority at distance `d` runs within `5 * d` ticks,
      whatever sleepers wake meanwhile, if the current process is Running. */
  lemma BoundedWait(s: Sched, rsps: seq<nat>, t: nat, d: nat)
    requires Waiting(s, t, d) && CurrentIs(s, Running) && s.quantum <= QUANTUM_TICKS
    requires |rsps| >= 5 * d
    ensures exists n :: 0 < n <= 5 * d && IsRunning(Ticks(s, rsps[..n]), t)
  {
    WaitFor(s, rsps, t, d);
  }

  /** Once the current process keeps the processor it keeps it for good. */
  lemma {:induction false} NeverSwitches(s: Sched, rsps: seq<nat>, t: nat)
    requires InTable(s) && s.enabled && !Switches(s) && t < 64 && t != s.current && !IsRunning(s, t)
    ensures var s' := Ticks(s, rsps); s'.current == s.current && !IsRunning(s', t)
    decreases |rsps|
  {
    if rsps != [] {
      TickSlot(s, rsps[0], t);
      TickSlot(s, rsps[0], s.current);
      NeverSwitches(Tick(s, rsps[0]), rsps[1..], t);
    }
  }

  /** Exactly when a waiting process gets the processor under timer ticks alone. */
  lemma RunsIffSwitches(s: Sched, rsps: seq<nat>, t: nat, d: nat)
    requires Waiting(s, t, d) && s.quantum <= QUANTUM_TICKS && |rsps| >= 5 * d
    ensures (exists n :: 0 <= n <= |rsps| && IsRunning(Ticks(s, rsps[..n]), t)) <==> Switches(s)
  {
    if Switches(s) {
      WaitFor(s, rsps, t, d);
    } else {
      AroundIsShift(s.current, d, s.count);
      forall n | 0 <= n <= |rsps| ensures !IsRunning(Ticks(s, rsps[..n]), t) {
        NeverSwitches(s, rsps[..n], t);
      }
    }
  }
}
