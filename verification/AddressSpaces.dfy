/** Page-table trees over the frame pool, seen as translation functions from pages to entries.
    Several roots may share the tables below their upper-half slots. */
module AddressSpaces {
  import opened Basics
  import opened FrameAllocator
  import opened PageTables
  import opened VirtualPages

  type Table = t: seq<nat> | |t| == 512 witness seq(512, _ => 0)

  const KERNEL_HALF: nat := 256

  function ZeroTable(): (t: Table)
    ensures forall i: Index :: t[i] == 0
  {
    seq(512, _ => 0)
  }

  datatype Memory = Memory(tables: map<nat, Table>, free: set<nat>)

  // ---------------------------------------------------------------------------
  // Walking the tables

  function Entry(m: Memory, t: nat, i: Index): nat {
    if t in m.tables then m.tables[t][i] else 0
  }

  function Next(m: Memory, t: Option<nat>, i: Index): Option<nat> {
    if t.Some? && IsPresent(Entry(m, t.value, i)) then Some(FrameOf(Entry(m, t.value, i))) else None
  }

  /** The table reached from `root` by following the entries at the given indices. */
  function Reach(m: Memory, root: nat, path: seq<Index>): Option<nat> {
    if path == [] then Some(root)
    else Next(m, Reach(m, root, path[..|path| - 1]), path[|path| - 1])
  }

  function Leaf(p: Path): seq<Index> { [p.i4, p.i3, p.i2] }

  /** What the hardware walk of a page finds: its entry, if every level is present. */
  function Translate(m: Memory, root: nat, p: Path): Option<nat> {
    match Reach(m, root, Leaf(p))
    case Some(t) => if IsPresent(Entry(m, t, p.i1)) then Some(Entry(m, t, p.i1)) else None
    case None => None
  }

  // ---------------------------------------------------------------------------
  // The operations

  function WriteEntry(m: Memory, t: nat, i: Index, word: nat): Memory
    requires t in m.tables
  {
    m.(tables := m.tables[t := m.tables[t][i := word]])
  }

  /** `get_or_create_table` on entry `i` of table `t`. */
  ghost function GetOrCreate(m: Memory, t: nat, i: Index): (r: (Memory, Option<nat>))
    requires t in m.tables
  {
    if IsPresent(Entry(m, t, i)) then (m, Some(FrameOf(Entry(m, t, i))))
    else if m.free == {} then (m, None)
    else
      var f := Least(m.free);
      var zeroed := Memory(m.tables[f := ZeroTable()], m.free - {f});
      (WriteEntry(zeroed, t, i, TableEntry(f)), Some(f))
  }

  /** Creates what is missing along `path`; `None` when the frames run out. */
  ghost function Ensure(m: Memory, root: nat, path: seq<Index>): (r: (Memory, Option<nat>))
    requires root in m.tables
    decreases |path|
  {
    if path == [] then (m, Some(root))
    else
      var (m1, t) := Ensure(m, root, path[..|path| - 1]);
      if t.None? || t.value !in m1.tables then (m1, None)
      else GetOrCreate(m1, t.value, path[|path| - 1])
  }

  /** A path that cannot be built up to some table cannot be built beyond it either. */
  lemma EnsureStops(m: Memory, root: nat, path: seq<Index>)
    requires root in m.tables && path != [] && Ensure(m, root, path[..|path| - 1]).1.None?
    ensures Ensure(m, root, path) == Ensure(m, root, path[..|path| - 1])
  {
  }

  ghost function MapPage(m: Memory, root: nat, p: Path, word: nat): (r: (Memory, bool))
    requires root in m.tables
  {
    var (m1, t) := Ensure(m, root, Leaf(p));
    if t.None? || t.value !in m1.tables then (m1, false)
    else (WriteEntry(m1, t.value, p.i1, word), true)
  }

  function UnmapPage(m: Memory, root: nat, p: Path): (r: (Memory, Option<nat>)) {
    match Translate(m, root, p)
    case None => (m, None)
    case Some(word) =>
      var t := Reach(m, root, Leaf(p)).value;
      if t !in m.tables then (m, None) else (WriteEntry(m, t, p.i1, 0), Some(GetAddr(word)))
  }

  function UserTable(kernel: Table): (t: Table) {
    seq(512, i requires 0 <= i < 512 => if i < KERNEL_HALF then 0 else kernel[i])
  }

  ghost function CreateUserPml4(m: Memory, kernel: nat): (r: (Memory, Option<nat>))
    requires kernel in m.tables
  {
    if m.free == {} then (m, None)
    else
      var f := Least(m.free);
      (Memory(m.tables[f := UserTable(m.tables[kernel])], m.free - {f}), Some(f))
  }

  // ---------------------------------------------------------------------------
  // Well-formed memory: every table has one place in the trees

  /** Where a table hangs: the indices leading to it, and the root that created it. */
  datatype Label = Label(owner: nat, path: seq<Index>)
  type Labels = map<nat, Label>

  predicate IsRoot(lab: Labels, r: nat) { r in lab && lab[r].path == [] }

  predicate LinkOk(m: Memory, lab: Labels, t: nat, i: Index)
    requires t in lab
  {
    var c := FrameOf(Entry(m, t, i));
    && c in lab
    && lab[c].path == lab[t].path + [i]
    && (if lab[t].path == [] then i < KERNEL_HALF ==> lab[c].owner == t
        else lab[c].owner == lab[t].owner)
  }

  ghost predicate Wf(m: Memory, lab: Labels) {
    && lab.Keys <= m.tables.Keys
    && m.free !! lab.Keys
    && (forall f | f in m.free :: f < FRAME_LIMIT)
    && (forall t | t in lab :: |lab[t].path| <= 3 && (lab[t].path == [] ==> lab[t].owner == t))
    && (forall t, i: Index | t in lab && |lab[t].path| < 3 && IsPresent(Entry(m, t, i)) ::
          LinkOk(m, lab, t, i))
  }

  /** Following a path leads to the table labelled with that path. */
  lemma {:induction false} ReachIsLabelled(m: Memory, lab: Labels, r: nat, path: seq<Index>)
    requires Wf(m, lab) && IsRoot(lab, r) && |path| <= 3
    ensures var t := Reach(m, r, path);
            t.Some? ==> && t.value in lab
                        && lab[t.value].path == path
                        && (path != [] && path[0] < KERNEL_HALF ==> lab[t.value].owner == r)
  {
    if path != [] {
      var front := path[..|path| - 1];
      ReachIsLabelled(m, lab, r, front);
      if Reach(m, r, path).Some? {
        var t := Reach(m, r, front).value;
        assert LinkOk(m, lab, t, path[|path| - 1]);
        assert front + [path[|path| - 1]] == path;
      }
    }
  }

  /** Two paths from one root never reach the same table. */
  lemma NoTableReachedTwice(m: Memory, lab: Labels, r: nat, a: seq<Index>, b: seq<Index>)
    requires Wf(m, lab) && IsRoot(lab, r) && |a| <= 3 && |b| <= 3
    requires Reach(m, r, a).Some? && Reach(m, r, a) == Reach(m, r, b)
    ensures a == b
  {
    ReachIsLabelled(m, lab, r, a);
    ReachIsLabelled(m, lab, r, b);
  }

  /** The lower halves of two roots have no table in common. */
  lemma LowerHalvesAreDisjoint(m: Memory, lab: Labels, r: nat, s: nat, a: seq<Index>, b: seq<Index>)
    requires Wf(m, lab) && IsRoot(lab, r) && IsRoot(lab, s) && r != s
    requires 0 < |a| <= 3 && 0 < |b| <= 3 && a[0] < KERNEL_HALF
    requires Reach(m, r, a).Some?
    ensures Reach(m, r, a) != Reach(m, s, b)
  {
    ReachIsLabelled(m, lab, r, a);
    ReachIsLabelled(m, lab, s, b);
  }

  // ---------------------------------------------------------------------------
  // One table created

  function ExtendLabels(lab: Labels, t: nat, i: Index, f: nat): Labels
    requires t in lab
  {
    lab[f := Label(lab[t].owner, lab[t].path + [i])]
  }

  ghost function Linked(m: Memory, t: nat, i: Index, f: nat): Memory
    requires t in m.tables
  {
    WriteEntry(Memory(m.tables[f := ZeroTable()], m.free - {f}), t, i, TableEntry(f))
  }

  lemma ZeroIsAbsent()
    ensures !IsPresent(0)
  {
  }

  lemma LinkedEntries(m: Memory, lab: Labels, t: nat, i: Index, f: nat)
    requires Wf(m, lab) && t in lab && f in m.free
    ensures forall u, j: Index :: Entry(Linked(m, t, i, f), u, j)
              == if u == t && j == i then TableEntry(f) else if u == f then 0 else Entry(m, u, j)
  {
  }

  lemma LinkKeepsWf(m: Memory, lab: Labels, t: nat, i: Index, f: nat)
    requires Wf(m, lab) && t in lab && |lab[t].path| < 3 && f in m.free
    requires !IsPresent(Entry(m, t, i))
    ensures Wf(Linked(m, t, i, f), ExtendLabels(lab, t, i, f))
  {
    var m', lab' := Linked(m, t, i, f), ExtendLabels(lab, t, i, f);
    LinkedEntries(m, lab, t, i, f);
    TableEntryPointsToFrame(f);
    ZeroIsAbsent();
    forall u, j: Index | u in lab' && |lab'[u].path| < 3 && IsPresent(Entry(m', u, j))
      ensures LinkOk(m', lab', u, j)
    {
      if !(u == t && j == i) {
        assert u in lab && IsPresent(Entry(m, u, j));
        assert LinkOk(m, lab, u, j);
      }
    }
  }

  /** A new table appears only where nothing was reached before. */
  lemma {:induction false} ReachAfterLink(m: Memory, lab: Labels, t: nat, i: Index, f: nat, r: nat, path: seq<Index>)
    requires Wf(m, lab) && t in lab && |lab[t].path| < 3 && f in m.free
    requires !IsPresent(Entry(m, t, i)) && IsRoot(lab, r) && |path| <= 3
    ensures var before, after := Reach(m, r, path), Reach(Linked(m, t, i, f), r, path);
            after == before || (before == None && after == Some(f))
  {
    if path != [] {
      var front, last := path[..|path| - 1], path[|path| - 1];
      ReachAfterLink(m, lab, t, i, f, r, front);
      ReachIsLabelled(m, lab, r, front);
      LinkedEntries(m, lab, t, i, f);
      TableEntryPointsToFrame(f);
      ZeroIsAbsent();
    }
  }

  lemma LinkKeepsTranslation(m: Memory, lab: Labels, t: nat, i: Index, f: nat, r: nat, p: Path)
    requires Wf(m, lab) && t in lab && |lab[t].path| < 3 && f in m.free
    requires !IsPresent(Entry(m, t, i)) && IsRoot(lab, r)
    ensures Translate(Linked(m, t, i, f), r, p) == Translate(m, r, p)
  {
    ReachAfterLink(m, lab, t, i, f, r, Leaf(p));
    ReachIsLabelled(m, lab, r, Leaf(p));
    LinkedEntries(m, lab, t, i, f);
    ZeroIsAbsent();
  }

  // ---------------------------------------------------------------------------
  // A whole path created

  /** How many tables along `path` do not exist yet. */
  function Missing(m: Memory, root: nat, path: seq<Index>): nat {
    if path == [] then 0
    else Missing(m, root, path[..|path| - 1]) + (if Reach(m, root, path).None? then 1 else 0)
  }

  /** Links between tables are never changed once present. */
  ghost predicate LinksPersist(m: Memory, lab: Labels, m': Memory) {
    forall t, i: Index | t in lab && |lab[t].path| < 3 && IsPresent(Entry(m, t, i)) ::
      Entry(m', t, i) == Entry(m, t, i)
  }

  ghost predicate SameTranslations(m: Memory, lab: Labels, m': Memory) {
    forall r, p | IsRoot(lab, r) :: Translate(m', r, p) == Translate(m, r, p)
  }

  predicate MeetAbove(m: Memory, r: nat, s: nat, path: seq<Index>) {
    path != [] && Reach(m, r, path[..|path| - 1]) == Reach(m, s, path[..|path| - 1])
  }

  /** Tables stay reachable, and two roots come to share a table only where they had the same or both
      had none; then they share the table above it. */
  ghost predicate SharesOnlyNew(m: Memory, lab: Labels, m': Memory) {
    && (forall r, path | IsRoot(lab, r) && |path| <= 3 && Reach(m, r, path).Some? :: Reach(m', r, path) == Reach(m, r, path))
    && (forall r, s, path {:trigger Reach(m', r, path), Reach(m', s, path)} |
          IsRoot(lab, r) && IsRoot(lab, s) && |path| <= 3 && Reach(m', r, path).Some? && Reach(m', r, path) == Reach(m', s, path) ::
          Reach(m, r, path) == Reach(m, s, path))
    && (forall r, s, path {:trigger MeetAbove(m', r, s, path)} |
          && IsRoot(lab, r) && IsRoot(lab, s) && |path| <= 3 && Reach(m', r, path).Some? && Reach(m', r, path) == Reach(m', s, path)
          && Reach(m, r, path).None? :: MeetAbove(m', r, s, path))
  }

  lemma SharesOnlyNewTwice(m: Memory, lab: Labels, m1: Memory, lab1: Labels, m2: Memory)
    requires SharesOnlyNew(m, lab, m1) && SharesOnlyNew(m1, lab1, m2) && Grows(lab, lab1)
    ensures SharesOnlyNew(m, lab, m2)
  {
    forall r, s, path | IsRoot(lab, r) && IsRoot(lab, s) && |path| <= 3 && Reach(m2, r, path).Some? && Reach(m2, r, path) == Reach(m2, s, path)
      ensures Reach(m, r, path) == Reach(m, s, path)
    {
      assert Reach(m1, r, path) == Reach(m1, s, path);
      if Reach(m1, r, path).None? { assert Reach(m, r, path).None? && Reach(m, s, path).None?; }
    }
    forall r, s, path |
      && IsRoot(lab, r) && IsRoot(lab, s) && |path| <= 3 && Reach(m2, r, path).Some? && Reach(m2, r, path) == Reach(m2, s, path)
      && Reach(m, r, path).None?
      ensures MeetAbove(m2, r, s, path)
    {
      if Reach(m1, r, path).Some? {
        assert MeetAbove(m1, r, s, path);
        assert Reach(m1, r, path[..|path| - 1]).Some?;
      }
    }
  }

  lemma LinkSharesOnlyNew(m: Memory, lab: Labels, t: nat, i: Index, f: nat)
    requires Wf(m, lab) && t in lab && |lab[t].path| < 3 && f in m.free
    requires !IsPresent(Entry(m, t, i))
    ensures SharesOnlyNew(m, lab, Linked(m, t, i, f))
  {
    var m' := Linked(m, t, i, f);
    forall r, path | IsRoot(lab, r) && |path| <= 3 && Reach(m, r, path).Some? ensures Reach(m', r, path) == Reach(m, r, path) {
      ReachAfterLink(m, lab, t, i, f, r, path);
    }
    forall r, s, path | IsRoot(lab, r) && IsRoot(lab, s) && |path| <= 3 && Reach(m', r, path).Some? && Reach(m', r, path) == Reach(m', s, path)
      ensures Reach(m, r, path) == Reach(m, s, path)
    {
      ReachAfterLink(m, lab, t, i, f, r, path);
      ReachAfterLink(m, lab, t, i, f, s, path);
      ReachIsLabelled(m, lab, r, path);
      ReachIsLabelled(m, lab, s, path);
    }
    LinkedEntries(m, lab, t, i, f);
    TableEntryPointsToFrame(f);
    forall r, s, path |
      && IsRoot(lab, r) && IsRoot(lab, s) && |path| <= 3 && Reach(m', r, path).Some? && Reach(m', r, path) == Reach(m', s, path)
      && Reach(m, r, path).None?
      ensures MeetAbove(m', r, s, path)
    {
      NewTableHangsAt(m, lab, t, i, f, r, path);
      NewTableHangsAt(m, lab, t, i, f, s, path);
    }
  }

  lemma NewTableHangsAt(m: Memory, lab: Labels, t: nat, i: Index, f: nat, r: nat, path: seq<Index>)
    requires Wf(m, lab) && t in lab && |lab[t].path| < 3 && f in m.free
    requires !IsPresent(Entry(m, t, i)) && IsRoot(lab, r) && |path| <= 3
    requires Reach(m, r, path).None? && Reach(Linked(m, t, i, f), r, path).Some?
    ensures path != [] && Reach(Linked(m, t, i, f), r, path[..|path| - 1]) == Some(t)
  {
    var front := path[..|path| - 1];
    ReachAfterLink(m, lab, t, i, f, r, front);
    LinkedEntries(m, lab, t, i, f);
    ZeroIsAbsent();
  }

  ghost predicate Grows(lab: Labels, lab': Labels) {
    && (forall t | t in lab :: t in lab' && lab'[t] == lab[t])
    && (forall t | t in lab' && t !in lab :: lab'[t].path != [])
  }

  lemma {:induction false} EnsurePath(m: Memory, lab: Labels, root: nat, path: seq<Index>) returns (lab': Labels)
    requires Wf(m, lab) && IsRoot(lab, root) && |path| <= 3
    ensures var (m', t) := Ensure(m, root, path);
            && Wf(m', lab') && Grows(lab, lab')
            && SameTranslations(m, lab, m') && LinksPersist(m, lab, m')
            && (t.Some? ==> Reach(m', root, path) == t)
            && (t.Some? <==> |m.free| >= Missing(m, root, path))
            && (t.Some? ==> |m'.free| == |m.free| - Missing(m, root, path))
            && (Reach(m, root, path).Some? ==> m' == m)
            && (Reach(m, root, path).None? && t.Some? ==> forall j: Index :: Entry(m', t.value, j) == 0)
  {
    if path == [] {
      lab' := lab;
    } else {
      var front, last := path[..|path| - 1], path[|path| - 1];
      var lab1 := EnsurePath(m, lab, root, front);
      var (m1, t) := Ensure(m, root, front);
      lab' := lab1;
      if t.Some? {
        ReachIsLabelled(m1, lab1, root, front);
        ZeroIsAbsent();
        if !IsPresent(Entry(m1, t.value, last)) && m1.free != {} {
          var f := Least(m1.free);
          assert Ensure(m, root, path).0 == Linked(m1, t.value, last, f);
          lab' := ExtendLabels(lab1, t.value, last, f);
          LinkStep(m1, lab1, t.value, last, f);
          ReachAfterLink(m1, lab1, t.value, last, f, root, front);
          LinkedEntries(m1, lab1, t.value, last, f);
          TableEntryPointsToFrame(f);
        }
      }
    }
  }

  lemma {:induction false} EnsureSharesOnlyNew(m: Memory, lab: Labels, root: nat, path: seq<Index>)
    requires Wf(m, lab) && IsRoot(lab, root) && |path| <= 3
    ensures SharesOnlyNew(m, lab, Ensure(m, root, path).0)
  {
    if path != [] {
      var front, last := path[..|path| - 1], path[|path| - 1];
      EnsureSharesOnlyNew(m, lab, root, front);
      var lab1 := EnsurePath(m, lab, root, front);
      var (m1, t) := Ensure(m, root, front);
      if t.Some? {
        ReachIsLabelled(m1, lab1, root, front);
        if !IsPresent(Entry(m1, t.value, last)) && m1.free != {} {
          var f := Least(m1.free);
          assert Ensure(m, root, path).0 == Linked(m1, t.value, last, f);
          LinkSharesOnlyNew(m1, lab1, t.value, last, f);
          SharesOnlyNewTwice(m, lab, m1, lab1, Linked(m1, t.value, last, f));
        }
      }
    }
  }

  lemma LinkStep(m: Memory, lab: Labels, t: nat, i: Index, f: nat)
    requires Wf(m, lab) && t in lab && |lab[t].path| < 3 && f in m.free
    requires !IsPresent(Entry(m, t, i))
    ensures Wf(Linked(m, t, i, f), ExtendLabels(lab, t, i, f))
    ensures Grows(lab, ExtendLabels(lab, t, i, f))
    ensures SameTranslations(m, lab, Linked(m, t, i, f))
    ensures LinksPersist(m, lab, Linked(m, t, i, f))
  {
    LinkKeepsWf(m, lab, t, i, f);
    LinkedEntries(m, lab, t, i, f);
    forall r, p | IsRoot(lab, r) ensures Translate(Linked(m, t, i, f), r, p) == Translate(m, r, p) {
      LinkKeepsTranslation(m, lab, t, i, f, r, p);
    }
  }

  // ---------------------------------------------------------------------------
  // One leaf entry written

  lemma {:induction false} ReachAfterLeafWrite(m: Memory, lab: Labels, t: nat, i: Index, word: nat, r: nat, path: seq<Index>)
    requires Wf(m, lab) && t in lab && |lab[t].path| == 3 && IsRoot(lab, r) && |path| <= 3
    ensures Reach(WriteEntry(m, t, i, word), r, path) == Reach(m, r, path)
  {
    if path != [] {
      var front := path[..|path| - 1];
      ReachAfterLeafWrite(m, lab, t, i, word, r, front);
      ReachIsLabelled(m, lab, r, front);
    }
  }

  /** Writing entry `i` of a leaf table changes one page of the roots that reach the table. */
  lemma LeafWrite(m: Memory, lab: Labels, t: nat, i: Index, word: nat, r: nat, p: Path)
    requires Wf(m, lab) && t in lab && |lab[t].path| == 3 && IsRoot(lab, r)
    ensures Wf(WriteEntry(m, t, i, word), lab)
    ensures LinksPersist(m, lab, WriteEntry(m, t, i, word))
    ensures Translate(WriteEntry(m, t, i, word), r, p)
         == if Reach(m, r, Leaf(p)) == Some(t) && p.i1 == i
            then (if IsPresent(word) then Some(word) else None)
            else Translate(m, r, p)
  {
    var m' := WriteEntry(m, t, i, word);
    ReachAfterLeafWrite(m, lab, t, i, word, r, Leaf(p));
    forall u, j: Index | u in lab && |lab[u].path| < 3 && IsPresent(Entry(m', u, j))
      ensures LinkOk(m', lab, u, j)
    {
      assert Entry(m', u, j) == Entry(m, u, j);
      assert LinkOk(m, lab, u, j);
    }
  }

  // ---------------------------------------------------------------------------
  // map_page, unmap_page and create_user_pml4 as updates of translation functions

  /** A root sees the page `p` of `root` when both reach the same leaf table for it. */
  predicate Sees(m: Memory, root: nat, r: nat, p: Path) {
    Reach(m, r, Leaf(p)).Some? && Reach(m, r, Leaf(p)) == Reach(m, root, Leaf(p))
  }

  /** `map_page` is an update of one page: in the given root, and in the roots that share its
      leaf table. It fails exactly when the missing tables outnumber the free frames, and then
      no translation changes. */
  lemma MapPageRefines(m: Memory, lab: Labels, root: nat, p: Path, word: nat) returns (lab': Labels)
    requires Wf(m, lab) && IsRoot(lab, root) && IsPresent(word)
    ensures var (m', ok) := MapPage(m, root, p, word);
            && Wf(m', lab') && Grows(lab, lab') && LinksPersist(m, lab, m') && SharesOnlyNew(m, lab, m')
            && (ok <==> |m.free| >= Missing(m, root, Leaf(p)))
            && (ok ==> |m'.free| == |m.free| - Missing(m, root, Leaf(p)))
            && (ok ==> forall q :: Translate(m', root, q) == if q == p then Some(word) else Translate(m, root, q))
            && (!ok ==> SameTranslations(m, lab, m'))
            && (forall r, q | IsRoot(lab, r) ::
                  Translate(m', r, q) == if ok && q == p && Sees(m', root, r, p) then Some(word) else Translate(m, r, q))
  {
    lab' := EnsurePath(m, lab, root, Leaf(p));
    EnsureSharesOnlyNew(m, lab, root, Leaf(p));
    var (m1, t) := Ensure(m, root, Leaf(p));
    ReachIsLabelled(m1, lab', root, Leaf(p));
    if t.Some? {
      var m' := WriteEntry(m1, t.value, p.i1, word);
      LeafWrite(m1, lab', t.value, p.i1, word, root, p);
      ReachAfterLeafWrite(m1, lab', t.value, p.i1, word, root, Leaf(p));
      forall r, q | IsRoot(lab, r)
        ensures Translate(m', r, q) == if q == p && Sees(m', root, r, p) then Some(word) else Translate(m, r, q)
      {
        LeafWrite(m1, lab', t.value, p.i1, word, r, q);
        ReachAfterLeafWrite(m1, lab', t.value, p.i1, word, r, Leaf(q));
        ReachIsLabelled(m1, lab', r, Leaf(q));
        if Reach(m1, r, Leaf(q)) == t { assert Leaf(q) == Leaf(p); }
      }
      assert Sees(m', root, root, p);
      WriteSharesNothing(m1, lab', t.value, p.i1, word);
      SharesOnlyNewTwice(m, lab, m1, lab', m');
    }
  }

  lemma WriteSharesNothing(m: Memory, lab: Labels, t: nat, i: Index, word: nat)
    requires Wf(m, lab) && t in lab && |lab[t].path| == 3
    ensures SharesOnlyNew(m, lab, WriteEntry(m, t, i, word))
  {
    forall r, path | IsRoot(lab, r) && |path| <= 3 ensures Reach(WriteEntry(m, t, i, word), r, path) == Reach(m, r, path) {
      ReachAfterLeafWrite(m, lab, t, i, word, r, path);
    }
  }

  /** `unmap_page` removes one page and returns its address; it fails exactly on an unmapped page. */
  lemma UnmapPageRefines(m: Memory, lab: Labels, root: nat, p: Path)
    requires Wf(m, lab) && IsRoot(lab, root)
    ensures var (m', phys) := UnmapPage(m, root, p);
            && Wf(m', lab) && LinksPersist(m, lab, m') && m'.free == m.free
            && (forall r, path | IsRoot(lab, r) && |path| <= 3 :: Reach(m', r, path) == Reach(m, r, path))
            && (phys.None? <==> Translate(m, root, p).None?)
            && (phys.Some? ==> phys.value == GetAddr(Translate(m, root, p).value))
            && (phys.None? ==> m' == m)
            && (forall q :: Translate(m', root, q) == if q == p then None else Translate(m, root, q))
            && (forall r, q | IsRoot(lab, r) ::
                  Translate(m', r, q) == if q == p && Sees(m, root, r, p) then None else Translate(m, r, q))
  {
    ReachIsLabelled(m, lab, root, Leaf(p));
    ZeroIsAbsent();
    var m' := UnmapPage(m, root, p).0;
    if Translate(m, root, p).Some? {
      var t := Reach(m, root, Leaf(p)).value;
      LeafWrite(m, lab, t, p.i1, 0, root, p);
      forall r, path | IsRoot(lab, r) && |path| <= 3 ensures Reach(m', r, path) == Reach(m, r, path) {
        ReachAfterLeafWrite(m, lab, t, p.i1, 0, r, path);
      }
    }
    forall r, q | IsRoot(lab, r)
      ensures Translate(m', r, q) == if q == p && Sees(m, root, r, p) then None else Translate(m, r, q)
    {
      ReachIsLabelled(m, lab, r, Leaf(q));
      if Translate(m, root, p).Some? {
        var t := Reach(m, root, Leaf(p)).value;
        LeafWrite(m, lab, t, p.i1, 0, r, q);
        if Reach(m, r, Leaf(q)) == Some(t) { assert Leaf(q) == Leaf(p); }
      }
    }
    assert Reach(m, root, Leaf(p)).Some? ==> Sees(m, root, root, p);
  }

  /** Roots whose slot holds the same entry reach the same tables below that slot. */
  lemma {:induction false} SameSlotSameReach(m: Memory, r: nat, s: nat, path: seq<Index>)
    requires path != [] && Entry(m, r, path[0]) == Entry(m, s, path[0])
    ensures Reach(m, r, path) == Reach(m, s, path)
  {
    if |path| > 1 { SameSlotSameReach(m, r, s, path[..|path| - 1]); }
  }

  /** Nothing hangs below an absent slot. */
  lemma {:induction false} AbsentSlot(m: Memory, r: nat, path: seq<Index>)
    requires path != [] && !IsPresent(Entry(m, r, path[0]))
    ensures Reach(m, r, path).None?
  {
    if |path| > 1 { AbsentSlot(m, r, path[..|path| - 1]); }
  }

  /** Roots whose slot holds the same entry translate the pages below that slot alike. */
  lemma SameSlotSameTranslation(m: Memory, r: nat, s: nat, p: Path)
    requires Entry(m, r, p.i4) == Entry(m, s, p.i4)
    ensures Reach(m, r, Leaf(p)) == Reach(m, s, Leaf(p)) && Translate(m, r, p) == Translate(m, s, p)
  {
    SameSlotSameReach(m, r, s, Leaf(p));
  }

  /** A new user root maps nothing below the kernel half and has the kernel root's entries in the
      kernel half, so it agrees with the kernel root there; no existing root changes. */
  lemma CreateUserPml4Refines(m: Memory, lab: Labels, kernel: nat) returns (lab': Labels)
    requires Wf(m, lab) && IsRoot(lab, kernel)
    ensures var (m', root) := CreateUserPml4(m, kernel);
            && Wf(m', lab') && SameTranslations(m, lab, m') && LinksPersist(m, lab, m')
            && (forall r, path | IsRoot(lab, r) && |path| <= 3 :: Reach(m', r, path) == Reach(m, r, path))
            && (root.None? <==> m.free == {})
            && (root.None? ==> m' == m && lab' == lab)
            && (root.Some? ==>
                  && root.value !in lab && lab' == lab[root.value := Label(root.value, [])]
                  && (forall i: Index :: Entry(m', root.value, i) == if i < KERNEL_HALF then 0 else Entry(m', kernel, i))
                  && forall p :: Translate(m', root.value, p)
                       == if p.i4 < KERNEL_HALF then None else Translate(m', kernel, p))
  {
    lab' := lab;
    if m.free != {} {
      var (m', root) := CreateUserPml4(m, kernel);
      var f := root.value;
      lab' := lab[f := Label(f, [])];
      ZeroIsAbsent();
      assert forall u, j: Index | u != f :: Entry(m', u, j) == Entry(m, u, j);
      forall u, j: Index | u in lab' && |lab'[u].path| < 3 && IsPresent(Entry(m', u, j))
        ensures LinkOk(m', lab', u, j)
      {
        if u == f {
          assert Entry(m, kernel, j) == Entry(m', f, j);
          assert LinkOk(m, lab, kernel, j);
        } else {
          assert LinkOk(m, lab, u, j);
        }
      }
      forall r, path | IsRoot(lab, r) && |path| <= 3 ensures Reach(m', r, path) == Reach(m, r, path) {
        ReachAfterNewRoot(m, lab, m', f, r, path);
      }
      forall r, p | IsRoot(lab, r) ensures Translate(m', r, p) == Translate(m, r, p) {
        ReachIsLabelled(m, lab, r, Leaf(p));
      }
      forall p
        ensures Translate(m', f, p) == if p.i4 < KERNEL_HALF then None else Translate(m', kernel, p)
      {
        if p.i4 < KERNEL_HALF {
          AbsentSlot(m', f, Leaf(p));
        } else {
          SameSlotSameTranslation(m', f, kernel, p);
        }
      }
    }
  }

  lemma {:induction false} ReachAfterNewRoot(m: Memory, lab: Labels, m': Memory, f: nat, r: nat, path: seq<Index>)
    requires Wf(m, lab) && IsRoot(lab, r) && |path| <= 3 && f !in lab
    requires forall u, j: Index | u != f :: Entry(m', u, j) == Entry(m, u, j)
    ensures Reach(m', r, path) == Reach(m, r, path)
  {
    if path != [] {
      ReachAfterNewRoot(m, lab, m', f, r, path[..|path| - 1]);
      ReachIsLabelled(m, lab, r, path[..|path| - 1]);
    }
  }
}
