/** Every run of page-table operations over several roots. */
module AddressSpaceRuns {
  import opened Basics
  import opened FrameAllocator
  import opened PageTables
  import opened VirtualPages
  import opened AddressSpaces

  datatype Machine = Machine(mem: Memory, kernel: nat, roots: set<nat>)

  datatype Op =
    | Map(root: nat, virt: nat, phys: nat, flags: nat)
    | Unmap(root: nat, virt: nat)
    | NewRoot
    | TakeFrame  // a frame for data
    | FreeFrame(frame: nat)

  ghost predicate Labelled(s: Machine, lab: Labels) {
    && Wf(s.mem, lab)
    && s.kernel in s.roots
    && (forall r :: IsRoot(lab, r) <==> r in s.roots)
  }

  ghost predicate WellFormed(s: Machine) { exists lab :: Labelled(s, lab) }

  /** A caller names only existing roots and frees no table. */
  predicate Legal(s: Machine, op: Op) {
    match op
    case Map(root, _, _, _) => root in s.roots
    case Unmap(root, _) => root in s.roots
    case FreeFrame(frame) => frame < FRAME_LIMIT && frame !in s.mem.tables
    case _ => true
  }

  ghost predicate Succeeds(s: Machine, op: Op)
    requires WellFormed(s) && Legal(s, op)
  {
    match op
    case Map(root, virt, phys, flags) =>
      root in s.mem.tables && MapPage(s.mem, root, PathOf(virt), LeafEntry(phys, flags)).1
    case Unmap(root, virt) => Translate(s.mem, root, PathOf(virt)).Some?
    case NewRoot => s.mem.free != {}
    case TakeFrame => s.mem.free != {}
    case FreeFrame(_) => true
  }

  ghost function Exec(s: Machine, op: Op): (s': Machine)
    requires WellFormed(s) && Legal(s, op)
    ensures WellFormed(s') && s.roots <= s'.roots && s'.kernel == s.kernel
  {
    var lab :| Labelled(s, lab);
    ExecKeepsLabels(s, op, lab);
    Apply(s, op)
  }

  ghost function Apply(s: Machine, op: Op): Machine {
    match op
    case Map(root, virt, phys, flags) =>
      if root in s.mem.tables
      then s.(mem := MapPage(s.mem, root, PathOf(virt), LeafEntry(phys, flags)).0) else s
    case Unmap(root, virt) => s.(mem := UnmapPage(s.mem, root, PathOf(virt)).0)
    case NewRoot =>
      if s.kernel !in s.mem.tables then s
      else
        var (m, root) := CreateUserPml4(s.mem, s.kernel);
        s.(mem := m, roots := if root.Some? then s.roots + {root.value} else s.roots)
    case TakeFrame => s.(mem := Memory(s.mem.tables, if s.mem.free == {} then {} else s.mem.free - {Least(s.mem.free)}))
    case FreeFrame(frame) => s.(mem := Memory(s.mem.tables, s.mem.free + {frame}))
  }

  lemma ExecKeepsLabels(s: Machine, op: Op, lab: Labels)
    requires Labelled(s, lab) && Legal(s, op)
    ensures WellFormed(Apply(s, op))
  {
    match op
    case Map(root, virt, phys, flags) =>
      LeafEntryIsPresent(phys, flags);
      var lab' := MapPageRefines(s.mem, lab, root, PathOf(virt), LeafEntry(phys, flags));
      assert Labelled(Apply(s, op), lab');
    case Unmap(root, virt) =>
      UnmapPageRefines(s.mem, lab, root, PathOf(virt));
      assert Labelled(Apply(s, op), lab);
    case NewRoot =>
      var lab' := CreateUserPml4Refines(s.mem, lab, s.kernel);
      assert Labelled(Apply(s, op), lab');
    case _ =>
      FramesKeepWf(s.mem, lab, Apply(s, op).mem);
      assert Labelled(Apply(s, op), lab);
  }

  /** Taking and freeing frames for data touches no table. */
  lemma FramesKeepWf(m: Memory, lab: Labels, m': Memory)
    requires Wf(m, lab) && m'.tables == m.tables
    requires forall f | f in m'.free :: f in m.free || (f < FRAME_LIMIT && f !in m.tables)
    ensures Wf(m', lab)
  {
    assert forall t, i: Index :: Entry(m', t, i) == Entry(m, t, i);
    forall t, i: Index | t in lab && |lab[t].path| < 3 && IsPresent(Entry(m', t, i)) ensures LinkOk(m', lab, t, i) {
      assert LinkOk(m, lab, t, i);
    }
  }

  lemma {:induction false} SameTablesReach(m: Memory, m': Memory, r: nat, path: seq<Index>)
    requires m'.tables == m.tables
    ensures Reach(m', r, path) == Reach(m, r, path)
  {
    if path != [] { SameTablesReach(m, m', r, path[..|path| - 1]); }
  }

  // ---------------------------------------------------------------------------
  // Single steps, seen from one root

  /** No other root reaches a table that `r` reaches through slot `i`. */
  ghost predicate OwnSlot(s: Machine, r: nat, i: Index) {
    forall q, path | q in s.roots && q != r && 0 < |path| <= 3 && path[0] == i && Reach(s.mem, r, path).Some? ::
      Reach(s.mem, r, path) != Reach(s.mem, q, path)
  }

  lemma LowerSlotsAreOwn(s: Machine, r: nat, i: Index)
    requires WellFormed(s) && r in s.roots && i < KERNEL_HALF
    ensures OwnSlot(s, r, i)
  {
    var lab :| Labelled(s, lab);
    assert IsRoot(lab, r);
    forall q, path | q in s.roots && q != r && 0 < |path| <= 3 && path[0] == i && Reach(s.mem, r, path).Some?
      ensures Reach(s.mem, r, path) != Reach(s.mem, q, path)
    {
      LowerHalvesAreDisjoint(s.mem, lab, r, q, path, path);
    }
  }

  /** Roots with no common table below a slot get none when tables are created. */
  lemma {:induction false} StillApart(m: Memory, lab: Labels, m': Memory, r: nat, q: nat, path: seq<Index>)
    requires SharesOnlyNew(m, lab, m') && IsRoot(lab, r) && IsRoot(lab, q) && r != q && 0 < |path| <= 3
    requires forall a | 0 < |a| <= 3 && a[0] == path[0] && Reach(m, r, a).Some? :: Reach(m, r, a) != Reach(m, q, a)
    ensures Reach(m', r, path).Some? ==> Reach(m', r, path) != Reach(m', q, path)
  {
    if Reach(m', r, path).Some? && Reach(m', r, path) == Reach(m', q, path) {
      assert MeetAbove(m', r, q, path);
      if |path| > 1 { StillApart(m, lab, m', r, q, path[..|path| - 1]); }
    }
  }

  /** A slot of its own stays so: a root other than the kernel's is never copied. */
  lemma StepKeepsOwnSlot(s: Machine, op: Op, r: nat, i: Index)
    requires WellFormed(s) && Legal(s, op) && r in s.roots && OwnSlot(s, r, i) && (i < KERNEL_HALF || r != s.kernel)
    ensures OwnSlot(Exec(s, op), r, i)
  {
    var lab :| Labelled(s, lab);
    assert IsRoot(lab, r);
    var s' := Exec(s, op);
    if op.NewRoot? {
      NewRootKeepsOwnSlot(s, lab, r, i);
    } else {
      StepSharesOnlyNew(s, op, lab);
      forall q, path | q in s'.roots && q != r && 0 < |path| <= 3 && path[0] == i && Reach(s'.mem, r, path).Some?
        ensures Reach(s'.mem, r, path) != Reach(s'.mem, q, path)
      {
        StillApart(s.mem, lab, s'.mem, r, q, path);
      }
    }
  }

  lemma StepSharesOnlyNew(s: Machine, op: Op, lab: Labels)
    requires Labelled(s, lab) && WellFormed(s) && Legal(s, op) && !op.NewRoot?
    ensures SharesOnlyNew(s.mem, lab, Exec(s, op).mem) && Exec(s, op).roots == s.roots
  {
    if op.Map? {
      LeafEntryIsPresent(op.phys, op.flags);
      var lab' := MapPageRefines(s.mem, lab, op.root, PathOf(op.virt), LeafEntry(op.phys, op.flags));
    } else if op.Unmap? {
      UnmapPageRefines(s.mem, lab, op.root, PathOf(op.virt));
    } else {
      forall r, path ensures Reach(Exec(s, op).mem, r, path) == Reach(s.mem, r, path) {
        SameTablesReach(s.mem, Exec(s, op).mem, r, path);
      }
    }
  }

  lemma NewRootKeepsOwnSlot(s: Machine, lab: Labels, r: nat, i: Index)
    requires Labelled(s, lab) && WellFormed(s) && r in s.roots && OwnSlot(s, r, i) && (i < KERNEL_HALF || r != s.kernel)
    ensures OwnSlot(Exec(s, NewRoot), r, i)
  {
    var lab' := CreateUserPml4Refines(s.mem, lab, s.kernel);
    var s' := Exec(s, NewRoot);
    ZeroIsAbsent();
    assert IsRoot(lab, r) && IsRoot(lab, s.kernel);
    forall q, path | q in s'.roots && q != r && 0 < |path| <= 3 && path[0] == i && Reach(s'.mem, r, path).Some?
      ensures Reach(s'.mem, r, path) != Reach(s'.mem, q, path)
    {
      if q in s.roots {
        assert IsRoot(lab, q);
      } else if i < KERNEL_HALF {
        AbsentSlot(s'.mem, q, path);
      } else {
        SameSlotSameReach(s'.mem, q, s.kernel, path);
      }
    }
  }

  /** The effect of a step below a root's own slot, as an update of a finite map. */
  lemma StepOnOwnSlot(s: Machine, op: Op, r: nat, p: Path)
    requires WellFormed(s) && Legal(s, op) && r in s.roots && OwnSlot(s, r, p.i4) && (p.i4 < KERNEL_HALF || r != s.kernel)
    ensures Translate(Exec(s, op).mem, r, p) ==
            if op.Map? && op.root == r && PathOf(op.virt) == p && Succeeds(s, op) then Some(LeafEntry(op.phys, op.flags))
            else if op.Unmap? && op.root == r && PathOf(op.virt) == p then None
            else Translate(s.mem, r, p)
  {
    var lab :| Labelled(s, lab);
    assert IsRoot(lab, r);
    match op
    case Map(root, virt, phys, flags) =>
      LeafEntryIsPresent(phys, flags);
      var lab' := MapPageRefines(s.mem, lab, root, PathOf(virt), LeafEntry(phys, flags));
      StepKeepsOwnSlot(s, op, r, p.i4);
    case Unmap(root, virt) => UnmapPageRefines(s.mem, lab, root, PathOf(virt));
    case NewRoot => var lab' := CreateUserPml4Refines(s.mem, lab, s.kernel);
    case _ => SameTablesReach(s.mem, Exec(s, op).mem, r, Leaf(p));
  }

  /** A slot shared by two roots stays shared. */
  lemma StepKeepsSharedSlot(s: Machine, op: Op, r: nat, q: nat, i: Index)
    requires WellFormed(s) && Legal(s, op) && r in s.roots && q in s.roots
    requires IsPresent(Entry(s.mem, r, i)) && Entry(s.mem, r, i) == Entry(s.mem, q, i)
    ensures var m' := Exec(s, op).mem;
            IsPresent(Entry(m', r, i)) && Entry(m', r, i) == Entry(m', q, i)
  {
    var lab :| Labelled(s, lab);
    assert IsRoot(lab, r) && IsRoot(lab, q);
    match op
    case Map(root, virt, phys, flags) =>
      LeafEntryIsPresent(phys, flags);
      var lab' := MapPageRefines(s.mem, lab, root, PathOf(virt), LeafEntry(phys, flags));
    case Unmap(root, virt) => UnmapPageRefines(s.mem, lab, root, PathOf(virt));
    case NewRoot => var lab' := CreateUserPml4Refines(s.mem, lab, s.kernel);
    case _ =>
  }

  // ---------------------------------------------------------------------------
  // Runs

  ghost predicate LegalRun(s: Machine, ops: seq<Op>)
    requires WellFormed(s)
    decreases |ops|
  {
    ops == [] || (Legal(s, ops[0]) && LegalRun(Exec(s, ops[0]), ops[1..]))
  }

  ghost function ExecAll(s: Machine, ops: seq<Op>): (s': Machine)
    requires WellFormed(s) && LegalRun(s, ops)
    ensures WellFormed(s') && s.roots <= s'.roots
    decreases |ops|
  {
    if ops == [] then s else ExecAll(Exec(s, ops[0]), ops[1..])
  }

  /** After any run, two different paths from one root reach two different tables. */
  lemma RunNeverSharesTables(s: Machine, ops: seq<Op>, r: nat, a: seq<Index>, b: seq<Index>)
    requires WellFormed(s) && LegalRun(s, ops) && r in ExecAll(s, ops).roots
    requires |a| <= 3 && |b| <= 3 && Reach(ExecAll(s, ops).mem, r, a).Some?
    requires a != b
    ensures Reach(ExecAll(s, ops).mem, r, a) != Reach(ExecAll(s, ops).mem, r, b)
  {
    var s' := ExecAll(s, ops);
    var lab :| Labelled(s', lab);
    if Reach(s'.mem, r, a) == Reach(s'.mem, r, b) {
      NoTableReachedTwice(s'.mem, lab, r, a, b);
    }
  }

  type Mappings = map<(nat, Path), nat>

  ghost function Updated(s: Machine, op: Op, maps: Mappings): Mappings
    requires WellFormed(s) && Legal(s, op)
  {
    match op
    case Map(root, virt, phys, flags) =>
      if Succeeds(s, op) then maps[(root, PathOf(virt)) := LeafEntry(phys, flags)] else maps
    case Unmap(root, virt) => maps - {(root, PathOf(virt))}
    case _ => maps
  }

  /** The intended meaning of the operations on a root's own pages: a finite map from root and page
      to entry. */
  ghost function Intended(s: Machine, ops: seq<Op>, maps: Mappings): Mappings
    requires WellFormed(s) && LegalRun(s, ops)
    decreases |ops|
  {
    if ops == [] then maps else Intended(Exec(s, ops[0]), ops[1..], Updated(s, ops[0], maps))
  }

  ghost predicate Agrees(s: Machine, maps: Mappings, r: nat, i: Index) {
    forall p: Path | p.i4 == i ::
      Translate(s.mem, r, p) == if (r, p) in maps then Some(maps[(r, p)]) else None
  }

  /** Every run refines the finite map below a root's own slots: its translations there are exactly
      its own successful mappings minus its own removals. */
  lemma {:induction false} RunRefinesOwnSlot(s: Machine, ops: seq<Op>, maps: Mappings, r: nat, i: Index)
    requires WellFormed(s) && LegalRun(s, ops) && r in s.roots && Agrees(s, maps, r, i)
    requires OwnSlot(s, r, i) && (i < KERNEL_HALF || r != s.kernel)
    ensures Agrees(ExecAll(s, ops), Intended(s, ops, maps), r, i) && OwnSlot(ExecAll(s, ops), r, i)
    decreases |ops|
  {
    if ops != [] {
      var op, s' := ops[0], Exec(s, ops[0]);
      var maps' := Updated(s, op, maps);
      forall p: Path | p.i4 == i
        ensures Translate(s'.mem, r, p) == if (r, p) in maps' then Some(maps'[(r, p)]) else None
      {
        StepOnOwnSlot(s, op, r, p);
      }
      StepKeepsOwnSlot(s, op, r, i);
      RunRefinesOwnSlot(s', ops[1..], maps', r, i);
    }
  }

  /** Every run over the lower halves refines the finite map: each root's translations are
      exactly its own successful mappings minus its own removals. */
  lemma RunRefinesMappings(s: Machine, ops: seq<Op>, maps: Mappings, r: nat)
    requires WellFormed(s) && LegalRun(s, ops) && r in s.roots
    requires forall i: Index | i < KERNEL_HALF :: Agrees(s, maps, r, i)
    ensures forall i: Index | i < KERNEL_HALF :: Agrees(ExecAll(s, ops), Intended(s, ops, maps), r, i)
  {
    forall i: Index | i < KERNEL_HALF ensures Agrees(ExecAll(s, ops), Intended(s, ops, maps), r, i) {
      LowerSlotsAreOwn(s, r, i);
      RunRefinesOwnSlot(s, ops, maps, r, i);
    }
  }

  /** Operations on other roots never change a root's lower half. */
  lemma {:induction false} RunIsolatesRoots(s: Machine, ops: seq<Op>, r: nat, p: Path)
    requires WellFormed(s) && LegalRun(s, ops) && r in s.roots && p.i4 < KERNEL_HALF
    requires forall k | 0 <= k < |ops| :: (ops[k].Map? || ops[k].Unmap?) ==> ops[k].root != r
    ensures Translate(ExecAll(s, ops).mem, r, p) == Translate(s.mem, r, p)
    decreases |ops|
  {
    if ops != [] {
      LowerSlotsAreOwn(s, r, p.i4);
      StepOnOwnSlot(s, ops[0], r, p);
      RunIsolatesRoots(Exec(s, ops[0]), ops[1..], r, p);
    }
  }

  /** Mappings below a slot that two roots share are seen identically by both after any run. */
  lemma {:induction false} RunKeepsSharedSlot(s: Machine, ops: seq<Op>, r: nat, q: nat, p: Path)
    requires WellFormed(s) && LegalRun(s, ops) && r in s.roots && q in s.roots
    requires IsPresent(Entry(s.mem, r, p.i4)) && Entry(s.mem, r, p.i4) == Entry(s.mem, q, p.i4)
    ensures Translate(ExecAll(s, ops).mem, r, p) == Translate(ExecAll(s, ops).mem, q, p)
    decreases |ops|
  {
    if ops == [] {
      SameSlotSameTranslation(s.mem, r, q, p);
    } else {
      StepKeepsSharedSlot(s, ops[0], r, q, p.i4);
      RunKeepsSharedSlot(Exec(s, ops[0]), ops[1..], r, q, p);
    }
  }

  // ---------------------------------------------------------------------------
  // Slots shared by all

  /** Every root has the kernel's entry in this slot. */
  ghost predicate SharedByAll(s: Machine, i: Index) {
    IsPresent(Entry(s.mem, s.kernel, i)) && forall r | r in s.roots :: Entry(s.mem, r, i) == Entry(s.mem, s.kernel, i)
  }

  lemma StepKeepsSharedByAll(s: Machine, op: Op, i: Index)
    requires WellFormed(s) && Legal(s, op) && i >= KERNEL_HALF && SharedByAll(s, i)
    ensures SharedByAll(Exec(s, op), i)
  {
    var lab :| Labelled(s, lab);
    var s' := Exec(s, op);
    forall r | r in s'.roots ensures IsPresent(Entry(s'.mem, s.kernel, i)) && Entry(s'.mem, r, i) == Entry(s'.mem, s.kernel, i) {
      StepKeepsSharedSlot(s, op, if r in s.roots then r else s.kernel, s.kernel, i);
    }
  }

  /** The effect of a step below such a slot on any root: whichever root it is made through, all
      roots see it. */
  lemma StepBelowSharedSlot(s: Machine, op: Op, r: nat, p: Path)
    requires WellFormed(s) && Legal(s, op) && r in s.roots && SharedByAll(s, p.i4)
    ensures Translate(Exec(s, op).mem, r, p) ==
            if op.Map? && PathOf(op.virt) == p && Succeeds(s, op) then Some(LeafEntry(op.phys, op.flags))
            else if op.Unmap? && PathOf(op.virt) == p then None
            else Translate(s.mem, r, p)
  {
    var lab :| Labelled(s, lab);
    var m' := Exec(s, op).mem;
    assert IsRoot(lab, r);
    match op
    case Map(root, virt, phys, flags) =>
      LeafEntryIsPresent(phys, flags);
      var lab' := MapPageRefines(s.mem, lab, root, PathOf(virt), LeafEntry(phys, flags));
      StepKeepsSharedSlot(s, op, r, root, p.i4);
      SameSlotSameTranslation(m', r, root, p);
    case Unmap(root, virt) =>
      UnmapPageRefines(s.mem, lab, root, PathOf(virt));
      SameSlotSameTranslation(s.mem, r, root, p);
    case NewRoot => var lab' := CreateUserPml4Refines(s.mem, lab, s.kernel);
    case _ => SameTablesReach(s.mem, m', r, Leaf(p));
  }

  /** The intended meaning of the operations below a shared slot: one map from page to entry for
      all roots. */
  ghost function UpdatedBelow(s: Machine, op: Op, maps: map<Path, nat>): map<Path, nat>
    requires WellFormed(s) && Legal(s, op)
  {
    match op
    case Map(_, virt, phys, flags) => if Succeeds(s, op) then maps[PathOf(virt) := LeafEntry(phys, flags)] else maps
    case Unmap(_, virt) => maps - {PathOf(virt)}
    case _ => maps
  }

  ghost function IntendedBelow(s: Machine, ops: seq<Op>, maps: map<Path, nat>): map<Path, nat>
    requires WellFormed(s) && LegalRun(s, ops)
    decreases |ops|
  {
    if ops == [] then maps else IntendedBelow(Exec(s, ops[0]), ops[1..], UpdatedBelow(s, ops[0], maps))
  }

  /** Every root translates the pages below slot `i` as the map says. */
  ghost predicate AgreeBelow(s: Machine, maps: map<Path, nat>, i: Index) {
    forall r, p: Path | r in s.roots && p.i4 == i :: Translate(s.mem, r, p) == if p in maps then Some(maps[p]) else None
  }

  lemma StepAgreesBelow(s: Machine, op: Op, maps: map<Path, nat>, i: Index)
    requires WellFormed(s) && Legal(s, op) && i >= KERNEL_HALF && SharedByAll(s, i) && AgreeBelow(s, maps, i)
    ensures AgreeBelow(Exec(s, op), UpdatedBelow(s, op, maps), i)
  {
    var s', maps' := Exec(s, op), UpdatedBelow(s, op, maps);
    StepKeepsSharedByAll(s, op, i);
    forall r, p: Path | r in s'.roots && p.i4 == i
      ensures Translate(s'.mem, r, p) == if p in maps' then Some(maps'[p]) else None
    {
      var lab :| Labelled(s, lab);
      StepBelowSharedSlot(s, op, s.kernel, p);
      SameSlotSameTranslation(s'.mem, r, s.kernel, p);
    }
  }

  /** After any run every root, also one created in it, translates the pages below a slot that all
      roots share to exactly the mappings made through any root, less the removals made through
      any root. */
  lemma {:induction false} RunRefinesSharedSlot(s: Machine, ops: seq<Op>, maps: map<Path, nat>, i: Index)
    requires WellFormed(s) && LegalRun(s, ops) && i >= KERNEL_HALF && SharedByAll(s, i) && AgreeBelow(s, maps, i)
    ensures AgreeBelow(ExecAll(s, ops), IntendedBelow(s, ops, maps), i)
    decreases |ops|
  {
    if ops != [] {
      StepAgreesBelow(s, ops[0], maps, i);
      StepKeepsSharedByAll(s, ops[0], i);
      RunRefinesSharedSlot(Exec(s, ops[0]), ops[1..], UpdatedBelow(s, ops[0], maps), i);
    }
  }

  lemma NewRootStartsBare(s: Machine, i: Index)
    requires WellFormed(s) && s.mem.free != {} && Legal(s, NewRoot) && !InKernel(s, i)
    ensures var s1, root := Exec(s, NewRoot), Least(s.mem.free);
            OwnSlot(s1, root, i) && Agrees(s1, map[], root, i)
  {
    var lab :| Labelled(s, lab);
    var lab' := CreateUserPml4Refines(s.mem, lab, s.kernel);
    var s1, root := Exec(s, NewRoot), Least(s.mem.free);
    ZeroIsAbsent();
    forall path | 0 < |path| && path[0] == i ensures Reach(s1.mem, root, path).None? {
      AbsentSlot(s1.mem, root, path);
    }
  }

  predicate InKernel(s: Machine, i: Index) { i >= KERNEL_HALF && IsPresent(Entry(s.mem, s.kernel, i)) }

  /** A user root created at some point sees, after any later run, exactly the kernel's mappings
      below the slots the kernel half had at that point. Below every other slot, of the lower half
      or absent from the kernel half at creation, it never shares a table with any root, whatever is
      mapped there later, and sees exactly its own mappings. */
  lemma NewRootFollowsKernel(s: Machine, ops: seq<Op>, p: Path)
    requires WellFormed(s) && s.mem.free != {} && Legal(s, NewRoot)
    requires LegalRun(Exec(s, NewRoot), ops)
    ensures var s1 := Exec(s, NewRoot);
            var s2 := ExecAll(s1, ops);
            var root := Least(s.mem.free);
            && s1.roots == s.roots + {root} && root !in s.roots
            && (InKernel(s, p.i4) ==> Translate(s2.mem, root, p) == Translate(s2.mem, s.kernel, p))
            && (!InKernel(s, p.i4) ==> OwnSlot(s2, root, p.i4) && Agrees(s2, Intended(s1, ops, map[]), root, p.i4))
  {
    var lab :| Labelled(s, lab);
    var lab' := CreateUserPml4Refines(s.mem, lab, s.kernel);
    var s1 := Exec(s, NewRoot);
    var root := Least(s.mem.free);
    if InKernel(s, p.i4) {
      assert Entry(s1.mem, root, p.i4) == Entry(s.mem, s.kernel, p.i4) == Entry(s1.mem, s.kernel, p.i4);
      RunKeepsSharedSlot(s1, ops, root, s.kernel, p);
    } else {
      NewRootStartsBare(s, p.i4);
      RunRefinesOwnSlot(s1, ops, map[], root, p.i4);
    }
  }
}
