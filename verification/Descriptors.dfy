/** The table of open nodes and the descriptor tables of the processes, as the open, close and
    destroy calls change them. */
module Descriptors {
  import opened Basics

  const MAX_NODES: nat := 64
  const STDERR_NODE: nat := 3
  const ID_LIMIT: nat := 0x1_0000_0000

  /** Node 0 marks an empty slot; nodes 1 to 3 are the standard streams. */
  datatype Fd = Fd(node: nat, flags: nat, refs: nat)

  const EMPTY: Fd := Fd(0, 0, 0)

  type Fds = t: seq<Fd> | |t| == 1024 witness seq(1024, _ => Fd(0, 0, 0))
  type Tables = t: seq<Option<Fds>> | |t| == 64 witness seq(64, _ => None)

  predicate IsSpecial(fd: Fd) { 1 <= fd.node <= STDERR_NODE }

  /** `nodes` are the ids in the node table, `nextId` the id counter, a 32-bit word. */
  datatype Files = Files(nodes: seq<nat>, nextId: nat, tables: Tables, count: nat, current: nat)

  // ---------------------------------------------------------------------------
  // The node table

  /** `retain`: every occurrence of the id goes. */
  function Dropped(nodes: seq<nat>, id: nat): (r: seq<nat>)
    ensures |r| <= |nodes|
    ensures forall x :: x in r <==> x in nodes && x != id
  {
    if nodes == [] then []
    else
      var rest := Dropped(nodes[1..], id);
      assert nodes == [nodes[0]] + nodes[1..];
      if nodes[0] == id then rest else [nodes[0]] + rest
  }

  lemma {:induction false} DroppedDistinct(nodes: seq<nat>, id: nat)
    requires Distinct(nodes)
    ensures Distinct(Dropped(nodes, id))
  {
    if nodes != [] {
      DroppedDistinct(nodes[1..], id);
      var rest := Dropped(nodes[1..], id);
      assert nodes[0] !in rest;
    }
  }

  /** The id of a new node, unless the table is full or the file system refused. */
  function VfsOpen(s: Files, allowed: bool): (Files, Option<nat>) {
    if |s.nodes| >= MAX_NODES || !allowed then (s, None)
    else (Files(s.nodes + [s.nextId], (s.nextId + 1) % ID_LIMIT, s.tables, s.count, s.current), Some(s.nextId))
  }

  function VfsClose(s: Files, id: nat): Files {
    Files(Dropped(s.nodes, id), s.nextId, s.tables, s.count, s.current)
  }

  // ---------------------------------------------------------------------------
  // Descriptor tables

  /** The first empty slot from `i` on, or the length of the table. */
  function FirstFree(t: Fds, i: nat): (r: nat)
    requires i <= 1024
    ensures i <= r <= 1024
    ensures r < 1024 ==> t[r].node == 0
    ensures forall j | i <= j < r :: t[j].node != 0
    decreases 1024 - i
  {
    if i == 1024 || t[i].node == 0 then i else FirstFree(t, i + 1)
  }

  function PutFd(t: Fds, i: nat, fd: Fd): (r: Fds)
    requires i < 1024
    ensures r[i] == fd && forall j | 0 <= j < 1024 && j != i :: r[j] == t[j]
  {
    t[i := fd]
  }

  function PutTable(tables: Tables, p: nat, t: Option<Fds>): (r: Tables)
    requires p < 64
    ensures r[p] == t && forall q | 0 <= q < 64 && q != p :: r[q] == tables[q]
  {
    tables[p := t]
  }

  function WithTable(s: Files, p: nat, t: Option<Fds>): Files
    requires p < 64
  {
    Files(s.nodes, s.nextId, PutTable(s.tables, p, t), s.count, s.current)
  }

  /** A descriptor with one reference less. */
  function Released(fd: Fd): Fd { Fd(fd.node, fd.flags, if fd.refs > 0 then fd.refs - 1 else 0) }

  /** Closing one used descriptor: what is left of it, and of the node table. */
  function Release(nodes: seq<nat>, fd: Fd): (seq<nat>, Fd) {
    var less := Released(fd);
    if less.refs > 0 then (nodes, less)
    else (if IsSpecial(fd) then nodes else Dropped(nodes, fd.node), EMPTY)
  }

  function CloseFd(s: Files, p: nat, fd: nat): (Files, bool)
    requires p < 64 && s.tables[p].Some?
  {
    var t := s.tables[p].value;
    if fd >= 1024 || t[fd].node == 0 then (s, false)
    else
      var (nodes, left) := Release(s.nodes, t[fd]);
      (Files(nodes, s.nextId, PutTable(s.tables, p, Some(PutFd(t, fd, left))), s.count, s.current), true)
  }

  /** The node table after every used descriptor from `i` on has been closed. */
  function CloseAll(nodes: seq<nat>, t: Fds, i: nat): seq<nat>
    requires i <= 1024
    decreases 1024 - i
  {
    if i == 1024 then nodes
    else CloseAll(if t[i].node == 0 then nodes else Release(nodes, t[i]).0, t, i + 1)
  }

  // ---------------------------------------------------------------------------
  // The calls

  function StdFds(): (t: Fds)
    ensures t[0] == Fd(1, 0, 1) && t[1] == Fd(2, 1, 1) && t[2] == Fd(3, 1, 1)
    ensures forall i | 3 <= i < 1024 :: t[i] == EMPTY
  {
    seq(1024, i => if i == 0 then Fd(1, 0, 1) else if i == 1 then Fd(2, 1, 1) else if i == 2 then Fd(3, 1, 1) else EMPTY)
  }

  /** The result is the descriptor, or -1. */
  function Open(s: Files, allowed: bool, flags: nat): (Files, int) {
    match VfsOpen(s, allowed)
    case (s1, None) => (s1, -1)
    case (s1, Some(id)) =>
      if s.current >= 64 || s.tables[s.current].None? then (VfsClose(s1, id), -1)
      else
        var t := s.tables[s.current].value;
        var i: int := FirstFree(t, 3);
        if i < 1024 then (WithTable(s1, s.current, Some(PutFd(t, i, Fd(id, flags, 1)))), i)
        else (VfsClose(s1, id), -1)
  }

  const EBADF: int := -9

  function Close(s: Files, fd: int): (Files, int) {
    if fd < 0 || fd > 1023 then (s, EBADF)
    else if s.current >= 64 || s.tables[s.current].None? then (s, -1)
    else
      var (s', ok) := CloseFd(s, s.current, fd);
      (s', if ok then 0 else EBADF)
  }

  function Create(s: Files): Files {
    if s.count >= 64 then s
    else Files(s.nodes, s.nextId, PutTable(s.tables, s.count, Some(StdFds())), s.count + 1, s.current)
  }

  function Destroy(s: Files, pid: nat): Files {
    if pid >= 64 || s.tables[pid].None? then s
    else Files(CloseAll(s.nodes, s.tables[pid].value, 0), s.nextId, PutTable(s.tables, pid, None), s.count,
               if s.current == pid then 0 else s.current)
  }

  // ---------------------------------------------------------------------------
  // Nodes and descriptors correspond

  /** Descriptor `i` of process `p` is backed by node `id`. */
  predicate Holds(s: Files, p: nat, i: nat, id: nat) {
    p < 64 && i < 1024 && s.tables[p].Some? && s.tables[p].value[i].node == id && id > STDERR_NODE
  }

  /** A slot is empty, a standard stream, or the one reference to an open node. */
  predicate SlotOk(s: Files, p: nat, i: nat)
    requires p < 64 && i < 1024 && s.tables[p].Some?
  {
    var fd := s.tables[p].value[i];
    || fd.node == 0
    || (IsSpecial(fd) && i < 3 && fd.refs == 1)
    || (fd.node > STDERR_NODE && fd.node in s.nodes && fd.refs == 1)
  }

  ghost predicate Owned(s: Files, id: nat) { exists p, i :: Holds(s, p, i, id) }

  /** Every node is held by exactly one descriptor and every descriptor holds a node that exists. */
  ghost predicate Matched(s: Files) {
    && Distinct(s.nodes) && |s.nodes| <= MAX_NODES
    && (forall p | s.count <= p < 64 :: s.tables[p].None?)
    && (forall id {:trigger Owned(s, id)} | id in s.nodes :: id > STDERR_NODE && Owned(s, id))
    && (forall p, i {:trigger SlotOk(s, p, i)} | 0 <= p < 64 && 0 <= i < 1024 && s.tables[p].Some? :: SlotOk(s, p, i))
    && (forall p, i, q, j, id {:trigger Holds(s, p, i, id), Holds(s, q, j, id)} ::
          Holds(s, p, i, id) && Holds(s, q, j, id) ==> p == q && i == j)
  }

  // ---------------------------------------------------------------------------
  // Opening

  lemma HolderIsNode(s: Files, p: nat, i: nat, id: nat)
    requires Matched(s) && Holds(s, p, i, id)
    ensures id in s.nodes && s.tables[p].value[i].refs == 1
  {
    assert SlotOk(s, p, i);
  }

  /** A new node in an empty slot keeps the correspondence. */
  lemma NodeAdded(s: Files, s': Files, id: nat, p: nat, i: nat, flags: nat)
    requires Matched(s) && |s.nodes| < MAX_NODES && id > STDERR_NODE && id !in s.nodes
    requires p < 64 && s.tables[p].Some? && 3 <= i < 1024 && s.tables[p].value[i].node == 0
    requires s'.nodes == s.nodes + [id] && s'.count == s.count
    requires s'.tables == PutTable(s.tables, p, Some(PutFd(s.tables[p].value, i, Fd(id, flags, 1))))
    ensures Matched(s')
  {
    assert Holds(s', p, i, id);
    assert Owned(s', id);
    forall x | x in s.nodes ensures Owned(s', x) {
      assert Owned(s, x);
      var q, j :| Holds(s, q, j, x);
      assert Holds(s', q, j, x);
    }
    forall q, j | 0 <= q < 64 && 0 <= j < 1024 && s'.tables[q].Some? ensures SlotOk(s', q, j) {
      assert (q, j) != (p, i) ==> SlotOk(s, q, j);
    }
    forall q, j, r, k, x | Holds(s', q, j, x) && Holds(s', r, k, x) ensures q == r && j == k {
      OldHolder(s, s', id, p, i, q, j, x);
      OldHolder(s, s', id, p, i, r, k, x);
    }
  }

  lemma OldHolder(s: Files, s': Files, id: nat, p: nat, i: nat, q: nat, j: nat, x: nat)
    requires Matched(s) && id !in s.nodes && p < 64 && s.tables[p].Some? && i < 1024
    requires exists flags :: s'.tables == PutTable(s.tables, p, Some(PutFd(s.tables[p].value, i, Fd(id, flags, 1))))
    requires Holds(s', q, j, x)
    ensures if (q, j) == (p, i) then x == id else x != id && Holds(s, q, j, x)
  {
    if (q, j) != (p, i) {
      assert Holds(s, q, j, x);
      HolderIsNode(s, q, j, x);
    }
  }

  lemma {:induction false} NoMoreThan(a: seq<nat>, b: seq<nat>)
    requires Distinct(a) && forall i | 0 <= i < |a| :: a[i] in b
    ensures |a| <= |b|
  {
    if a != [] {
      var b' := Dropped(b, a[0]);
      DroppedShorter(b, a[0]);
      forall i | 0 <= i < |a[1..]| ensures a[1..][i] in b' {
        assert a[i + 1] in b;
      }
      NoMoreThan(a[1..], b');
    }
  }

  lemma {:induction false} DroppedShorter(nodes: seq<nat>, id: nat)
    requires id in nodes
    ensures |Dropped(nodes, id)| < |nodes|
  {
    if nodes[0] != id {
      assert nodes == [nodes[0]] + nodes[1..];
      DroppedShorter(nodes[1..], id);
    }
  }

  /** With at most 64 nodes a descriptor table never runs out of slots. */
  lemma SlotLeft(s: Files, p: nat)
    requires Matched(s) && p < 64 && s.tables[p].Some?
    ensures FirstFree(s.tables[p].value, 3) < 1024
  {
    var t := s.tables[p].value;
    if FirstFree(t, 3) == 1024 {
      var ids := seq(1021, i requires 0 <= i < 1021 => t[i + 3].node);
      forall i | 0 <= i < 1021 ensures ids[i] in s.nodes && Holds(s, p, i + 3, ids[i]) {
        assert t[i + 3].node != 0 && SlotOk(s, p, i + 3);
      }
      forall i, j | 0 <= i < j < 1021 ensures ids[i] != ids[j] {
        assert Holds(s, p, i + 3, ids[i]) && Holds(s, p, j + 3, ids[j]);
      }
      NoMoreThan(ids, s.nodes);
    }
  }

  predicate CanOpen(s: Files, allowed: bool) {
    allowed && |s.nodes| < MAX_NODES && s.current < 64 && s.tables[s.current].Some?
  }

  /** Where the node table has room and a process asks, opening succeeds. */
  lemma OpenSucceeds(s: Files, allowed: bool, flags: nat)
    requires Matched(s) && CanOpen(s, allowed)
    ensures var (s', fd) := Open(s, allowed, flags);
            && 3 <= fd < 1024 && s.tables[s.current].value[fd].node == 0
            && s'.tables == PutTable(s.tables, s.current, Some(PutFd(s.tables[s.current].value, fd, Fd(s.nextId, flags, 1))))
            && s'.nodes == s.nodes + [s.nextId] && s'.count == s.count && s'.current == s.current
  {
    SlotLeft(s, s.current);
  }

  /** Opening keeps the correspondence exactly if the id counter gives an id that is not
      reserved and not in use. */
  lemma OpenKeepsMatchedIff(s: Files, allowed: bool, flags: nat)
    requires Matched(s) && CanOpen(s, allowed)
    ensures Matched(Open(s, allowed, flags).0) <==> s.nextId > STDERR_NODE && s.nextId !in s.nodes
  {
    var (s', fd) := Open(s, allowed, flags);
    OpenSucceeds(s, allowed, flags);
    if s.nextId > STDERR_NODE && s.nextId !in s.nodes {
      NodeAdded(s, s', s.nextId, s.current, fd, flags);
    } else {
      var n := |s.nodes|;
      assert s'.nodes[n] == s.nextId;
      if s.nextId in s.nodes {
        var i :| 0 <= i < n && s.nodes[i] == s.nextId;
        assert s'.nodes[i] == s'.nodes[n];
        assert !Distinct(s'.nodes);
      } else {
        assert s.nextId in s'.nodes;
        assert Matched(s') ==> Owned(s', s.nextId);
      }
    }
  }

  /** An open that fails leaves both tables as they were, and moves the counter if it got that far. */
  lemma FailedOpenKeeps(s: Files, allowed: bool, flags: nat)
    requires Matched(s) && !CanOpen(s, allowed) && s.nextId !in s.nodes
    ensures var (s', fd) := Open(s, allowed, flags);
            fd == -1 && s'.nodes == s.nodes && s'.tables == s.tables && s'.count == s.count && Matched(s')
  {
    var s' := Open(s, allowed, flags).0;
    if |s.nodes| < MAX_NODES && allowed {
      DroppedLast(s.nodes, s.nextId);
    }
    SameMatched(s, s');
  }

  lemma {:induction false} DroppedLast(nodes: seq<nat>, id: nat)
    requires id !in nodes
    ensures Dropped(nodes + [id], id) == nodes
  {
    var all := nodes + [id];
    if nodes != [] {
      assert all[1..] == nodes[1..] + [id];
      DroppedLast(nodes[1..], id);
    }
  }

  lemma SameMatched(s: Files, s': Files)
    requires Matched(s) && s'.nodes == s.nodes && s'.tables == s.tables && s'.count == s.count
    ensures Matched(s')
  {
    forall id | id in s'.nodes ensures Owned(s', id) {
      assert Owned(s, id);
      var p, i :| Holds(s, p, i, id);
      assert Holds(s', p, i, id);
    }
    forall p, i | 0 <= p < 64 && 0 <= i < 1024 && s'.tables[p].Some? ensures SlotOk(s', p, i) {
      assert SlotOk(s, p, i);
    }
    forall p, i, q, j, id | Holds(s', p, i, id) && Holds(s', q, j, id) ensures p == q && i == j {
      assert Holds(s, p, i, id) && Holds(s, q, j, id);
    }
  }

  // ---------------------------------------------------------------------------
  // Closing

  /** One descriptor emptied and, if it held a node, that node gone. */
  lemma NodeRemoved(s: Files, s': Files, p: nat, i: nat)
    requires Matched(s) && p < 64 && s.tables[p].Some? && i < 1024 && s.tables[p].value[i].node != 0
    requires s'.tables == PutTable(s.tables, p, Some(PutFd(s.tables[p].value, i, EMPTY))) && s'.count == s.count
    requires s'.nodes == if IsSpecial(s.tables[p].value[i]) then s.nodes else Dropped(s.nodes, s.tables[p].value[i].node)
    ensures Matched(s')
  {
    var x := s.tables[p].value[i].node;
    assert SlotOk(s, p, i);
    DroppedDistinct(s.nodes, x);
    forall id | id in s'.nodes ensures id > STDERR_NODE && Owned(s', id) {
      assert Owned(s, id);
      var q, j :| Holds(s, q, j, id);
      assert Holds(s', q, j, id);
    }
    forall q, j | 0 <= q < 64 && 0 <= j < 1024 && s'.tables[q].Some? ensures SlotOk(s', q, j) {
      assert SlotOk(s, q, j);
      if (q, j) != (p, i) && s.tables[q].value[j].node == x && x > STDERR_NODE {
        assert Holds(s, q, j, x) && Holds(s, p, i, x);
      }
    }
    forall q, j, r, k, id | Holds(s', q, j, id) && Holds(s', r, k, id) ensures q == r && j == k {
      assert Holds(s, q, j, id) && Holds(s, r, k, id);
    }
  }

  lemma CloseKeepsMatched(s: Files, fd: int)
    requires Matched(s)
    ensures Matched(Close(s, fd).0)
  {
    if 0 <= fd < 1024 && s.current < 64 && s.tables[s.current].Some? && s.tables[s.current].value[fd].node != 0 {
      assert SlotOk(s, s.current, fd);
      NodeRemoved(s, Close(s, fd).0, s.current, fd);
    }
  }

  lemma CloseOneDrops(nodes: seq<nat>, fd: Fd, id: nat)
    requires Distinct(nodes) && (fd.node != 0 ==> fd.refs == 1)
    ensures var r := if fd.node == 0 then nodes else Release(nodes, fd).0;
            && Distinct(r) && |r| <= |nodes|
            && (id in r <==> id in nodes && (fd.node == id ==> id <= STDERR_NODE))
  {
    DroppedDistinct(nodes, fd.node);
  }

  /** Closing every descriptor of a table drops exactly the nodes they held. */
  lemma {:induction false} CloseAllDrops(nodes: seq<nat>, t: Fds, i: nat, id: nat)
    requires i <= 1024 && Distinct(nodes)
    requires forall j | i <= j < 1024 :: t[j].node != 0 ==> t[j].refs == 1
    ensures var r := CloseAll(nodes, t, i);
            && Distinct(r) && |r| <= |nodes|
            && (id in r <==> id in nodes && (forall j | i <= j < 1024 :: t[j].node == id ==> id <= STDERR_NODE))
    decreases 1024 - i
  {
    if i < 1024 {
      var rest := if t[i].node == 0 then nodes else Release(nodes, t[i]).0;
      CloseOneDrops(nodes, t[i], id);
      CloseAllDrops(rest, t, i + 1, id);
    }
  }

  lemma DestroyKeepsMatched(s: Files, pid: nat)
    requires Matched(s)
    ensures Matched(Destroy(s, pid))
  {
    if pid < 64 && s.tables[pid].Some? {
      var t := s.tables[pid].value;
      var s' := Destroy(s, pid);
      forall j | 0 <= j < 1024 ensures t[j].node != 0 ==> t[j].refs == 1 {
        assert SlotOk(s, pid, j);
      }
      CloseAllDrops(s.nodes, t, 0, 0);
      forall id | id in s'.nodes ensures id > STDERR_NODE && Owned(s', id) {
        CloseAllDrops(s.nodes, t, 0, id);
        assert Owned(s, id);
        var q, j :| Holds(s, q, j, id);
        assert Holds(s', q, j, id);
      }
      forall q, j | 0 <= q < 64 && 0 <= j < 1024 && s'.tables[q].Some? ensures SlotOk(s', q, j) {
        assert SlotOk(s, q, j);
        DestroyKeepsOthers(s, pid, q, j);
      }
      forall q, j, r, k, id | Holds(s', q, j, id) && Holds(s', r, k, id) ensures q == r && j == k {
        assert Holds(s, q, j, id) && Holds(s, r, k, id);
      }
    }
  }

  /** Destroying one process closes no node of another. */
  lemma DestroyKeepsOthers(s: Files, pid: nat, q: nat, j: nat)
    requires Matched(s) && pid < 64 && s.tables[pid].Some? && q < 64 && q != pid && s.tables[q].Some? && j < 1024
    ensures var id := s.tables[q].value[j].node; id > STDERR_NODE ==> id in Destroy(s, pid).nodes
  {
    var t, id := s.tables[pid].value, s.tables[q].value[j].node;
    if id > STDERR_NODE {
      HolderIsNode(s, q, j, id);
      forall i | 0 <= i < 1024 ensures t[i].node != id && (t[i].node != 0 ==> t[i].refs == 1) {
        assert SlotOk(s, pid, i);
        assert Holds(s, q, j, id);
        assert t[i].node == id ==> Holds(s, pid, i, id);
      }
      CloseAllDrops(s.nodes, t, 0, id);
    }
  }

  lemma CreateKeepsMatched(s: Files)
    requires Matched(s)
    ensures Matched(Create(s))
  {
    if s.count < 64 {
      var s' := Create(s);
      forall id | id in s'.nodes ensures Owned(s', id) {
        assert Owned(s, id);
        var q, j :| Holds(s, q, j, id);
        assert Holds(s', q, j, id);
      }
      forall q, j | 0 <= q < 64 && 0 <= j < 1024 && s'.tables[q].Some? ensures SlotOk(s', q, j) {
        assert q != s.count ==> SlotOk(s, q, j);
      }
      forall q, j, r, k, id | Holds(s', q, j, id) && Holds(s', r, k, id) ensures q == r && j == k {
        assert Holds(s, q, j, id) && Holds(s, r, k, id);
      }
    }
  }

  // ---------------------------------------------------------------------------
  // Runs

  datatype Step =
    | DoOpen(allowed: bool, flags: nat) | DoClose(fd: int) | DoCreate | DoDestroy(pid: nat) | DoSwitch(to: nat)

  function Exec(s: Files, step: Step): Files {
    match step
    case DoOpen(allowed, flags) => Open(s, allowed, flags).0
    case DoClose(fd) => Close(s, fd).0
    case DoCreate => Create(s)
    case DoDestroy(pid) => Destroy(s, pid)
    case DoSwitch(to) => Files(s.nodes, s.nextId, s.tables, s.count, to)
  }

  datatype Run = Boot | Then(before: Run, step: Step)

  /** The kernel process with its standard streams and no open node. */
  function Booted(nextId: nat): Files {
    Files([], nextId, seq(64, i => if i == 0 then Some(StdFds()) else None), 1, 0)
  }

  function After(run: Run): Files {
    match run
    case Boot => Booted(4)
    case Then(before, step) => Exec(After(before), step)
  }

  predicate TakesId(s: Files, step: Step) { step.DoOpen? && step.allowed && |s.nodes| < MAX_NODES }

  /** How many ids the run has taken. */
  function Opens(run: Run): nat {
    match run
    case Boot => 0
    case Then(before, step) => Opens(before) + if TakesId(After(before), step) then 1 else 0
  }

  /** The ids in use were all given out, and the next one was not yet. */
  predicate Counted(s: Files, opens: nat) {
    s.nextId == (4 + opens) % ID_LIMIT && forall i | 0 <= i < |s.nodes| :: s.nodes[i] < 4 + opens
  }

  lemma StepKeepsMatched(s: Files, step: Step, opens: nat)
    requires Matched(s) && Counted(s, opens) && (TakesId(s, step) ==> 4 + opens < ID_LIMIT)
    ensures Matched(Exec(s, step)) && Counted(Exec(s, step), opens + if TakesId(s, step) then 1 else 0)
  {
    match step
    case DoOpen(allowed, flags) =>
      if CanOpen(s, allowed) {
        OpenSucceeds(s, allowed, flags);
        OpenKeepsMatchedIff(s, allowed, flags);
      } else if TakesId(s, step) {
        FailedOpenKeeps(s, allowed, flags);
      }
    case DoClose(fd) => CloseKeepsMatched(s, fd); CloseOnlyDrops(s, step);
    case DoCreate => CreateKeepsMatched(s);
    case DoDestroy(pid) => DestroyKeepsMatched(s, pid); CloseOnlyDrops(s, step);
    case DoSwitch(to) => SameMatched(s, Exec(s, step));
  }

  lemma CloseOnlyDrops(s: Files, step: Step)
    requires Matched(s) && (step.DoClose? || step.DoDestroy?)
    ensures Exec(s, step).nextId == s.nextId
    ensures forall i | 0 <= i < |Exec(s, step).nodes| :: Exec(s, step).nodes[i] in s.nodes
  {
    if step.DoDestroy? && step.pid < 64 && s.tables[step.pid].Some? {
      var t := s.tables[step.pid].value;
      forall j | 0 <= j < 1024 ensures t[j].node != 0 ==> t[j].refs == 1 {
        assert SlotOk(s, step.pid, j);
      }
      forall i | 0 <= i < |Exec(s, step).nodes| ensures Exec(s, step).nodes[i] in s.nodes {
        CloseAllDrops(s.nodes, t, 0, Exec(s, step).nodes[i]);
      }
    }
  }

  lemma BootMatched()
    ensures Matched(Booted(4))
  {
    var s := Booted(4);
    forall p, i | 0 <= p < 64 && 0 <= i < 1024 && s.tables[p].Some? ensures SlotOk(s, p, i) {
      assert p == 0 && s.tables[0].value == StdFds();
    }
    forall p: nat, i: nat, id: nat ensures !Holds(s, p, i, id) {
      assert 0 <= p < 64 && 0 <= i < 1024 && s.tables[p].Some? ==> s.tables[p].value == StdFds();
    }
  }

  /** In every run that takes at most 2^32 - 4 ids, the node table and the descriptors of all
      processes correspond one to one. */
  lemma {:induction false} RunsStayMatched(run: Run)
    requires Opens(run) <= ID_LIMIT - 4
    ensures Matched(After(run)) && Counted(After(run), Opens(run))
  {
    match run
    case Boot => BootMatched();
    case Then(before, step) =>
      RunsStayMatched(before);
      StepKeepsMatched(After(before), step, Opens(before));
  }

  /** In every such run no descriptor dangles, no node is lost, and an open by a process fails
      only if the file system refuses or the node table is full. */
  lemma OpenFailsOnlyIfFull(run: Run, allowed: bool, flags: nat)
    requires Opens(run) <= ID_LIMIT - 4
    requires After(run).current < 64 && After(run).tables[After(run).current].Some?
    ensures Open(After(run), allowed, flags).1 == -1 <==> !allowed || |After(run).nodes| == MAX_NODES
  {
    var s := After(run);
    RunsStayMatched(run);
    if CanOpen(s, allowed) {
      OpenSucceeds(s, allowed, flags);
    }
  }

  // ---------------------------------------------------------------------------
  // The run in which the counter wraps

  /** `n` times a file is opened and closed again. */
  function OpenClose(n: nat, flags: nat): Run {
    if n == 0 then Boot else Then(Then(OpenClose(n - 1, flags), DoOpen(true, flags)), DoClose(3))
  }

  lemma FdPutBack(t: Fds, i: nat, fd: Fd)
    requires i < 1024
    ensures PutFd(PutFd(t, i, fd), i, t[i]) == t
  {
    var back := PutFd(PutFd(t, i, fd), i, t[i]);
    assert forall j | 0 <= j < 1024 :: back[j] == t[j];
  }

  lemma TablePutBack(tables: Tables, p: nat, t: Option<Fds>)
    requires p < 64
    ensures PutTable(PutTable(tables, p, t), p, tables[p]) == tables
  {
    var back := PutTable(PutTable(tables, p, t), p, tables[p]);
    assert forall q | 0 <= q < 64 :: back[q] == tables[q];
  }

  lemma OpenThenClose(id: nat, flags: nat)
    requires id > STDERR_NODE
    ensures Close(Open(Booted(id), true, flags).0, 3).0 == Booted((id + 1) % ID_LIMIT)
  {
    var s, t := Booted(id), StdFds();
    assert FirstFree(t, 3) == 3;
    var held := Some(PutFd(t, 3, Fd(id, flags, 1)));
    assert Open(s, true, flags).0.tables == PutTable(s.tables, 0, held);
    FdPutBack(t, 3, Fd(id, flags, 1));
    TablePutBack(s.tables, 0, held);
    assert Dropped([id], id) == [];
  }

  lemma {:induction false} OpenCloseReturns(n: nat, flags: nat)
    requires 4 + n <= ID_LIMIT
    ensures After(OpenClose(n, flags)) == Booted((4 + n) % ID_LIMIT) && Opens(OpenClose(n, flags)) == n
  {
    if n > 0 {
      OpenCloseReturns(n - 1, flags);
      OneMorePair(OpenClose(n - 1, flags), 3 + n, flags);
    }
  }

  lemma {:induction false} OneMorePair(run: Run, id: nat, flags: nat)
    requires After(run) == Booted(id) && id > STDERR_NODE
    ensures var longer := Then(Then(run, DoOpen(true, flags)), DoClose(3));
            After(longer) == Booted((id + 1) % ID_LIMIT) && Opens(longer) == Opens(run) + 1
  {
    OpenThenClose(id, flags);
    var half := Then(run, DoOpen(true, flags));
    assert After(half) == Open(Booted(id), true, flags).0;
    assert Opens(half) == Opens(run) + 1;
  }

  /** After 2^32 - 4 times open and close the counter has wrapped to 0: the next open gives out a
      descriptor that counts as closed, and no close ever removes its node. So the bound of
      `RunsStayMatched` is exact. */
  lemma WrappedIdLeaks(run: Run, flags: nat)
    requires run == Then(OpenClose(ID_LIMIT - 4, flags), DoOpen(true, flags))
    ensures Opens(run) == ID_LIMIT - 3 && !Matched(After(run))
    ensures forall fd :: 0 in Close(After(run), fd).0.nodes
    ensures Close(After(run), 3) == (After(run), EBADF)
  {
    var n, s := ID_LIMIT - 4, After(run);
    OpenCloseReturns(n, flags);
    assert After(run.before) == Booted(0);
    assert FirstFree(StdFds(), 3) == 3;
    assert s.nodes == [0] && s.nodes[0] == 0;
    var owned := Owned(s, 0);
  }
}
