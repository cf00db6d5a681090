/** Calls made one after the other on one driver are a run, and so refine the file map. */
module Fat12Sessions {
  import opened Basics
  import opened FatTable
  import opened DirectoryEntries
  import opened FatVolume
  import opened FatSteps
  import opened Fat12Driver
  import opened FailedWrites
  import opened Fat12Runs

  /** What a caller may ask for. */
  type Call = op: Op | !op.Refused? witness Delete([])

  predicate HidesFollowing(op: Op) { op.Rename? && StartsWithZero(op.to) }

  /** The results after which the file map cannot be told from the calls: a file was stored under the
      key of another one, a renaming hid all files behind the renamed one, or a file that could not
      be overwritten did not survive. `es` is the root directory before the call. */
  predicate Breaks(g: Geometry, es: seq<Entry>, op: Op, r: Result<()>) {
    match op
    case Create(name, _) => r.Ok? && Shows(name) && |es| < g.rootCount && StoredKey(name) in Keys(es)
    case Rename(from, to) =>
      r.Ok? && (StartsWithZero(to) || (Shows(to) && StoredKey(to) != Key(from) && StoredKey(to) in Keys(es)))
    case Delete(_) => false
    case Write(name, _) => r.Err? && Loses(g, es, name, r.error)
    case Append(name, _) => r.Err? && Loses(g, es, name, r.error)
    case Refused => false
  }

  /** A file of that name does not survive the error. */
  predicate Loses(g: Geometry, es: seq<Entry>, name: Name, error: Error) {
    exists k | 0 <= k < |es| :: Keys(es)[k] == Key(name) && !Survives(g, es[k], error)
  }

  // ---------------------------------------------------------------------------
  // What each call amounts to

  /** A call has its effect on the file map, or is refused without any, as long as it does not break
      it. If it does there is none any more, except that a renaming which hides the files that follow
      leaves the others. */
  ghost predicate CallDone(v: Volume, files: Files, op: Op, r: Result<()>, v': Volume) {
    var breaks := Breaks(v.geo, RootEntries(v), op, r);
    && v'.disk.Keys == v.disk.Keys
    && (!breaks ==> Effect(v, files, if r.Ok? then op else Refused, v'))
    && (breaks && r.Err? && r.error != WriteFailed ==> v'.disk == v.disk)
    && (breaks && !HidesFollowing(op) && (r == Err(WriteFailed) ==> Solid(v.disk)) ==> !HasMap(v'))
    && (breaks && HidesFollowing(op) ==> exists names :: Holds(v', Only(files, names)))
  }

  lemma RefusedBy(v: Volume, files: Files, v': Volume)
    requires Harmless(v, v')
    ensures Effect(v, files, Refused, v')
  {
  }

  lemma SparedBy(v: Volume, files: Files, i: nat, v': Volume)
    requires Spared(v, v', i)
    ensures Effect(v, files, Refused, v')
  {
  }

  lemma CreateEffect(v: Volume, files: Files, name: Name, data: seq<Byte>, v': Volume)
    requires Flushed(v')
    requires if Appears(v, name) then Created(v, v', name, data) && StoredKey(name) !in Keys(RootEntries(v))
             else Hidden(v, v', data)
    ensures Effect(v, files, Create(name, data), v')
  {
  }

  lemma WriteEffect(v: Volume, files: Files, name: Name, data: seq<Byte>, i: nat, v': Volume)
    requires Named(v, i, name) && Overwritten(v, v', i, data) && Flushed(v')
    ensures Effect(v, files, Write(name, data), v')
  {
  }

  lemma AppendEffect(v: Volume, files: Files, name: Name, data: seq<Byte>, i: nat, v': Volume)
    requires Key(name) in files && Named(v, i, name) && Overwritten(v, v', i, files[Key(name)] + data) && Flushed(v')
    ensures Effect(v, files, Append(name, data), v')
  {
  }

  lemma RenameEffect(v: Volume, files: Files, from: Name, to: Name, i: nat, v': Volume)
    requires Named(v, i, from) && !StartsWithZero(to) && RenameStep(v, v', i, to) && !Clashes(v, i, to)
    ensures Effect(v, files, Rename(from, to), v')
  {
  }

  lemma DeleteEffect(v: Volume, files: Files, name: Name, i: nat, v': Volume)
    requires Named(v, i, name) && DeleteStep(v, v', i) && Flushed(v')
    ensures Effect(v, files, Delete(name), v')
  {
  }

  // ---------------------------------------------------------------------------
  // Creating

  lemma CreateDone(v: Volume, files: Files, name: Name, data: seq<Byte>, r: Result<()>, v': Volume)
    requires data == [] ==> r == Err(EmptyFile) && v' == v
    requires data != [] ==> CreateResult(v, name, data, r, v')
    ensures CallDone(v, files, Create(name, data), r, v')
  {
    if data == [] {
      HarmlessToItself(v);
      RefusedBy(v, files, v');
    } else if r.Err? {
      RefusedBy(v, files, v');
    } else if Appears(v, name) && StoredKey(name) in Keys(RootEntries(v)) {
      ClashLeavesNoMap(v, v', name, data);
    } else {
      CreateEffect(v, files, name, data, v');
    }
  }

  // ---------------------------------------------------------------------------
  // Overwriting

  /** Only one entry has the name, so its fate decides. */
  lemma LosesAt(g: Geometry, es: seq<Entry>, i: nat, name: Name, error: Error)
    requires AllDifferent(Keys(es)) && i < |es| && Keys(es)[i] == Key(name)
    ensures Loses(g, es, name, error) <==> !Survives(g, es[i], error)
  {
    if Loses(g, es, name, error) {
      var k :| 0 <= k < |es| && Keys(es)[k] == Key(name) && !Survives(g, es[k], error);
      assert k == i;
    }
  }

  lemma NamesDiffer(v: Volume, files: Files)
    requires Holds(v, files)
    ensures AllDifferent(Keys(RootEntries(v)))
  {
    var chains, contents :| Represents(v, chains, contents, files);
  }

  lemma FailedOverwrite(v: Volume, files: Files, i: nat, n: nat, error: Error, v': Volume)
    requires Holds(v, files) && i < |RootEntries(v)| && Abandoned(v, v', i, n, error)
    ensures Survives(v.geo, RootEntries(v)[i], error) ==> Effect(v, files, Refused, v')
    ensures !Survives(v.geo, RootEntries(v)[i], error) && (error == WriteFailed ==> Solid(v.disk)) ==> !HasMap(v')
  {
    var e := RootEntries(v)[i];
    var v1 := Freeing(v, v', i, n, error);
    if !InRange(e.first) {
      EmptyFileSurvives(v, v1, v', i);
      RefusedBy(v, files, v');
    } else if Survives(v.geo, e, error) {
      assert Spared(v, v', i);
      SparedBy(v, files, i, v');
    } else if error == WriteFailed ==> Solid(v.disk) {
      LostFileLeavesNoMap(v, v', files, i, n, error);
    }
  }

  lemma MissingDone(v: Volume, files: Files, op: Op, r: Result<()>)
    requires Holds(v, files) && (op.Write? || op.Append?) && Key(op.name) !in files && r == Err(NotFound)
    ensures CallDone(v, files, op, r, v)
  {
    NamesAgree(v, files, Key(op.name));
    assert forall k | 0 <= k < |RootEntries(v)| :: Keys(RootEntries(v))[k] in Keys(RootEntries(v));
    HarmlessToItself(v);
    RefusedBy(v, files, v);
  }

  lemma FailedDone(v: Volume, files: Files, op: Op, data: seq<Byte>, r: Result<()>, i: nat, v': Volume)
    requires Holds(v, files) && (op.Write? || op.Append?) && r.Err? && WriteResult(v, i, op.name, data, r, v')
    ensures CallDone(v, files, op, r, v')
  {
    ChainsCanBeFreed(v, files);
    NamesDiffer(v, files);
    LosesAt(v.geo, RootEntries(v), i, op.name, r.error);
    FailedOverwrite(v, files, i, ClustersFor(v.geo, |data|), r.error, v');
  }

  lemma OkDone(v: Volume, files: Files, op: Op, r: Result<()>, v': Volume)
    requires r.Ok? && (op.Write? || op.Append? || op.Delete?) && Effect(v, files, op, v')
    ensures CallDone(v, files, op, r, v')
  {
    StepKeepsBoot(v, files, op, v');
  }

  lemma WriteDone(v: Volume, files: Files, name: Name, data: seq<Byte>, r: Result<()>, i: nat, v': Volume)
    requires Holds(v, files)
    requires Key(name) !in files ==> r == Err(NotFound) && v' == v
    requires Key(name) in files ==> WriteResult(v, i, name, data, r, v')
    ensures CallDone(v, files, Write(name, data), r, v')
  {
    if Key(name) !in files {
      MissingDone(v, files, Write(name, data), r);
    } else if r.Err? {
      FailedDone(v, files, Write(name, data), data, r, i, v');
    } else {
      WriteEffect(v, files, name, data, i, v');
      OkDone(v, files, Write(name, data), r, v');
    }
  }

  lemma AppendDone(v: Volume, files: Files, name: Name, data: seq<Byte>, r: Result<()>, i: nat, existing: Result<seq<Byte>>, v': Volume)
    requires Holds(v, files) && AppendResult(v, i, name, data, existing, r, v')
    ensures CallDone(v, files, Append(name, data), r, v')
  {
    ReadsFileMap(v, files, name, existing);
    if Key(name) !in files {
      MissingDone(v, files, Append(name, data), r);
    } else {
      ExistingAppendDone(v, files, name, data, existing.value + data, r, i, v');
    }
  }

  lemma ExistingAppendDone(v: Volume, files: Files, name: Name, data: seq<Byte>, all: seq<Byte>, r: Result<()>, i: nat, v': Volume)
    requires Holds(v, files) && Key(name) in files && all == files[Key(name)] + data && WriteResult(v, i, name, all, r, v')
    ensures CallDone(v, files, Append(name, data), r, v')
  {
    if r.Err? {
      FailedDone(v, files, Append(name, data), all, r, i, v');
    } else {
      AppendEffect(v, files, name, data, i, v');
      OkDone(v, files, Append(name, data), r, v');
    }
  }

  // ---------------------------------------------------------------------------
  // Renaming and deleting

  lemma ClashesAt(v: Volume, files: Files, i: nat, from: Name, to: Name)
    requires Holds(v, files) && Named(v, i, from)
    ensures Clashes(v, i, to) <==> Shows(to) && StoredKey(to) != Key(from) && StoredKey(to) in Keys(RootEntries(v))
  {
    NamesDiffer(v, files);
    InOthers(Keys(RootEntries(v)), i, StoredKey(to));
  }

  lemma InOthers(keys: seq<Name>, i: nat, key: Name)
    requires AllDifferent(keys) && i < |keys|
    ensures key in Remove(keys, i) <==> key in keys && key != keys[i]
  {
    if key in keys && key != keys[i] {
      var k :| 0 <= k < |keys| && keys[k] == key;
      assert Remove(keys, i)[if k < i then k else k - 1] == key;
    }
  }

  lemma RenameDone(v: Volume, files: Files, from: Name, to: Name, r: Result<()>, i: nat, v': Volume)
    requires Holds(v, files) && (r.Err? ==> v' == v)
    requires r.Ok? ==> Named(v, i, from) && RenameStep(v, v', i, to)
    ensures CallDone(v, files, Rename(from, to), r, v')
  {
    if r.Err? {
      HarmlessToItself(v);
      RefusedBy(v, files, v');
    } else {
      ClashesAt(v, files, i, from, to);
      RenamedOk(v, files, from, to, i, v');
    }
  }

  lemma RenamedOk(v: Volume, files: Files, from: Name, to: Name, i: nat, v': Volume)
    requires Holds(v, files) && Named(v, i, from) && RenameStep(v, v', i, to)
    ensures StartsWithZero(to) ==> exists names :: Holds(v', Only(files, names))
    ensures !StartsWithZero(to) && Clashes(v, i, to) ==> !HasMap(v')
    ensures !StartsWithZero(to) && !Clashes(v, i, to) ==> Effect(v, files, Rename(from, to), v')
  {
    if StartsWithZero(to) {
      TruncationHolds(v, v', files, i, to);
    } else if Clashes(v, i, to) {
      RenameClashLeavesNoMap(v, v', i, to);
    } else {
      RenameEffect(v, files, from, to, i, v');
    }
  }

  lemma DeleteDone(v: Volume, files: Files, name: Name, r: Result<()>, i: nat, v': Volume)
    requires r.Err? ==> v' == v
    requires r.Ok? ==> Named(v, i, name) && DeleteStep(v, v', i) && Flushed(v')
    ensures CallDone(v, files, Delete(name), r, v')
  {
    if r.Err? {
      HarmlessToItself(v);
      RefusedBy(v, files, v');
    } else {
      DeleteEffect(v, files, name, i, v');
    }
  }

  // ---------------------------------------------------------------------------
  // The calls

  method PerformCreate(d: Driver, name: Name, data: seq<Byte>, ghost files: Files) returns (r: Result<()>)
    requires d.initialized && Holds(d.V(), files)
    modifies d`cache, d`disk
    ensures CallDone(old(d.V()), files, Create(name, data), r, d.V())
  {
    ghost var v := d.V();
    NamesAgree(v, files, Key(name));
    r := d.CreateFile(name, data);
    CreateDone(v, files, name, data, r, d.V());
  }

  method PerformWrite(d: Driver, name: Name, data: seq<Byte>, ghost files: Files) returns (r: Result<()>)
    requires d.initialized && Holds(d.V(), files)
    modifies d`cache, d`disk
    ensures CallDone(old(d.V()), files, Write(name, data), r, d.V())
  {
    ghost var v := d.V();
    NamesAgree(v, files, Key(name));
    ghost var i;
    r, i := d.WriteFile(name, data);
    WriteDone(v, files, name, data, r, i, d.V());
  }

  method PerformAppend(d: Driver, name: Name, data: seq<Byte>, ghost files: Files) returns (r: Result<()>)
    requires d.initialized && Holds(d.V(), files)
    modifies d`cache, d`disk
    ensures CallDone(old(d.V()), files, Append(name, data), r, d.V())
  {
    ghost var v := d.V();
    FilesEnd(v, files, name);
    ghost var i, existing;
    r, i, existing := d.AppendFile(name, data);
    AppendDone(v, files, name, data, r, i, existing, d.V());
  }

  method PerformRename(d: Driver, from: Name, to: Name, ghost files: Files) returns (r: Result<()>)
    requires d.initialized && Holds(d.V(), files)
    modifies d`disk
    ensures CallDone(old(d.V()), files, Rename(from, to), r, d.V())
  {
    ghost var v := d.V();
    NamesAgree(v, files, Key(from));
    ghost var i;
    r, i := d.RenameFile(from, to);
    RenameDone(v, files, from, to, r, i, d.V());
  }

  method PerformDelete(d: Driver, name: Name, ghost files: Files) returns (r: Result<()>)
    requires Holds(d.V(), files)
    modifies d`cache, d`disk
    ensures r.Ok? <==> Key(name) in files
    ensures CallDone(old(d.V()), files, Delete(name), r, d.V())
  {
    ghost var v := d.V();
    NamesAgree(v, files, Key(name));
    ChainsCanBeFreed(v, files);
    ghost var i;
    r, i := d.DeleteFile(name);
    DeleteDone(v, files, name, r, i, d.V());
  }

  /** One call of the driver's interface. */
  method Perform(d: Driver, op: Call, ghost files: Files) returns (r: Result<()>)
    requires d.initialized && Holds(d.V(), files)
    modifies d`cache, d`disk
    ensures CallDone(old(d.V()), files, op, r, d.V())
  {
    match op
    case Create(name, data) => r := PerformCreate(d, name, data, files);
    case Write(name, data) => r := PerformWrite(d, name, data, files);
    case Append(name, data) => r := PerformAppend(d, name, data, files);
    case Rename(from, to) => r := PerformRename(d, from, to, files);
    case Delete(name) => r := PerformDelete(d, name, files);
  }

  // ---------------------------------------------------------------------------
  // Sessions

  /** The file map after the calls whose results are given: the successful ones count. */
  function Outcome(room: nat, files: Files, ops: seq<Call>, results: seq<Result<()>>): Files
    requires |ops| == |results|
  {
    if ops == [] then files
    else
      var n := |ops| - 1;
      var before := Outcome(room, files, ops[..n], results[..n]);
      if results[n].Ok? then Intended(room, before, ops[n]) else before
  }

  lemma {:induction false} OutcomeNext(room: nat, files: Files, ops: seq<Call>, results: seq<Result<()>>, k: nat, r: Result<()>)
    requires k < |ops| && |results| == k
    ensures var before := Outcome(room, files, ops[..k], results);
            Outcome(room, files, ops[..k + 1], results + [r]) == if r.Ok? then Intended(room, before, ops[k]) else before
  {
    assert ops[..k + 1][..k] == ops[..k] && (results + [r])[..k] == results;
  }

  /** The run so far is the session so far. */
  ghost predicate InStep(v: Volume, files: Files, ops: seq<Call>, results: seq<Result<()>>, run: Run, v': Volume)
    requires |ops| == |results|
  {
    && IsRun(run) && First(run) == v && Last(run) == v' && v'.geo == v.geo
    && Expected(run) == Outcome(v.geo.rootCount, files, ops, results)
    && (Synced(v, files) ==> Saved(run))
  }

  /** What a mount of the disk finds. */
  ghost predicate FoundOnDisk(disk: Disk, files: Files) {
    Mount(disk).Ok? && Holds(Mount(disk).value, files)
  }

  lemma OnDiskInStep(v: Volume, files: Files, ops: seq<Call>, results: seq<Result<()>>, run: Run, v': Volume)
    requires |ops| == |results| && InStep(v, files, ops, results, run, v')
    ensures Holds(v', Outcome(v.geo.rootCount, files, ops, results))
    ensures Bootable(v) && Synced(v, files) ==> FoundOnDisk(v'.disk, Outcome(v.geo.rootCount, files, ops, results))
  {
    RunRefinesFileMap(run);
    if Bootable(v) && Synced(v, files) { RunSurvivesRemount(run); }
  }

  lemma {:induction false} ExtendRun(run: Run, op: Op, v: Volume)
    requires IsRun(run) && Effect(Last(run), Expected(run), op, v)
    ensures IsRun(Then(run, op, v)) && First(Then(run, op, v)) == First(run) && v.geo == Last(run).geo
    ensures Saved(run) ==> Saved(Then(run, op, v))
  {
    StepKeepsBoot(Last(run), Expected(run), op, v);
  }

  lemma NextInStep(v: Volume, files: Files, ops: seq<Call>, results: seq<Result<()>>, run: Run, r: Result<()>, op: Op, v2: Volume)
    requires |results| < |ops| && InStep(v, files, ops[..|results|], results, run, Last(run))
    requires op == (if r.Ok? then ops[|results|] else Refused) && Effect(Last(run), Expected(run), op, v2)
    ensures InStep(v, files, ops[..|results + [r]|], results + [r], Then(run, op, v2), v2)
  {
    ExtendRun(run, op, v2);
    NextExpected(v.geo.rootCount, files, ops, results, run, r, op, v2);
  }

  lemma {:induction false} NextExpected(room: nat, files: Files, ops: seq<Call>, results: seq<Result<()>>, run: Run, r: Result<()>, op: Op, v2: Volume)
    requires |results| < |ops| && Expected(run) == Outcome(room, files, ops[..|results|], results)
    requires op == (if r.Ok? then ops[|results|] else Refused) && Last(run).geo.rootCount == room
    ensures Expected(Then(run, op, v2)) == Outcome(room, files, ops[..|results + [r]|], results + [r])
  {
    OutcomeNext(room, files, ops, results, |results|, r);
  }

  /** What is left after the call that follows `results` broke the file map: none, or only some of
      the files from before the call; and on the disk, if the call failed for want of clusters, the
      files from before it. */
  ghost predicate Broken(v: Volume, files: Files, ops: seq<Call>, results: seq<Result<()>>, last: Result<()>, v': Volume) {
    && |results| < |ops|
    && BrokenBy(Outcome(v.geo.rootCount, files, ops[..|results|], results), ops[|results|], last, v',
                Bootable(v) && Synced(v, files))
  }

  ghost predicate BrokenBy(before: Files, op: Op, r: Result<()>, v': Volume, synced: bool) {
    && (!HidesFollowing(op) && (r == Err(WriteFailed) ==> Solid(v'.disk)) ==> !HasMap(v'))
    && (HidesFollowing(op) ==> exists names :: Holds(v', Only(before, names)))
    && (r.Err? && r.error != WriteFailed && synced ==> FoundOnDisk(v'.disk, before))
  }

  lemma StartsInStep(v: Volume, files: Files, ops: seq<Call>, results: seq<Result<()>>, run: Run)
    requires Holds(v, files) && ops == [] && results == [] && run == Start(v, files)
    ensures InStep(v, files, ops, results, run, v)
  {
  }

  lemma SameSectors(v: Volume, v': Volume)
    requires v'.disk.Keys == v.disk.Keys
    ensures Solid(v'.disk) <==> Solid(v.disk)
  {
  }

  lemma EndsAt(v: Volume, files: Files, ops: seq<Call>, results: seq<Result<()>>, run: Run, v1: Volume, r: Result<()>, v2: Volume)
    requires |results| < |ops| && InStep(v, files, ops[..|results|], results, run, v1)
    requires CallDone(v1, Expected(run), ops[|results|], r, v2) && Breaks(v1.geo, RootEntries(v1), ops[|results|], r)
    ensures Broken(v, files, ops, results, r, v2)
  {
    OnDiskInStep(v, files, ops[..|results|], results, run, v1);
    CallBreaks(v1, Expected(run), ops[|results|], r, v2, Bootable(v) && Synced(v, files));
  }

  lemma CallBreaks(v: Volume, files: Files, op: Op, r: Result<()>, v': Volume, synced: bool)
    requires CallDone(v, files, op, r, v') && Breaks(v.geo, RootEntries(v), op, r)
    requires synced ==> FoundOnDisk(v.disk, files)
    ensures BrokenBy(files, op, r, v', synced)
  {
    SameSectors(v, v');
  }

  lemma RunHolds(v: Volume, files: Files, ops: seq<Call>, results: seq<Result<()>>, run: Run, v': Volume)
    requires |results| <= |ops| && InStep(v, files, ops[..|results|], results, run, v')
    ensures Holds(v', Expected(run))
    ensures |results| == |ops| ==> InStep(v, files, ops, results, run, v')
  {
    RunRefinesFileMap(run);
    if |results| == |ops| { assert ops[..|results|] == ops; }
  }

  lemma CallEffect(v: Volume, files: Files, op: Op, r: Result<()>, v': Volume)
    requires CallDone(v, files, op, r, v') && !Breaks(v.geo, RootEntries(v), op, r)
    ensures Effect(v, files, if r.Ok? then op else Refused, v')
  {
  }

  /** A call, and whether it broke the file map. */
  method PerformAndLook(d: Driver, op: Call, ghost files: Files) returns (r: Result<()>, broke: bool)
    requires d.initialized && Holds(d.V(), files)
    modifies d`cache, d`disk
    ensures CallDone(old(d.V()), files, op, r, d.V())
    ensures broke == Breaks(old(d.V()).geo, old(RootEntries(d.V())), op, r)
  {
    NamesAgree(d.V(), files, []);
    RootOnDisk(d.V());
    var es := d.ReadRootDirectory();
    r := Perform(d, op, files);
    broke := Breaks(d.geo, es.value, op, r);
  }

  /** Makes the calls; what they were is a run. */
  method CallAll(d: Driver, ops: seq<Call>, ghost files: Files)
      returns (results: seq<Result<()>>, last: Option<Result<()>>, ghost run: Run)
    requires d.initialized && Holds(d.V(), files)
    modifies d`cache, d`disk
    ensures last.Some? ==> Broken(old(d.V()), files, ops, results, last.value, d.V())
    ensures last.None? ==> |results| == |ops| && InStep(old(d.V()), files, ops, results, run, d.V())
  {
    results, last := [], None;
    ghost var v := d.V();
    run := Start(v, files);
    StartsInStep(v, files, ops[..|results|], results, run);
    while |results| < |ops|
      invariant |results| <= |ops| && d.initialized && InStep(v, files, ops[..|results|], results, run, d.V())
    {
      ghost var v1 := d.V();
      RunHolds(v, files, ops, results, run, v1);
      var op := ops[|results|];
      var r, broke := PerformAndLook(d, op, Expected(run));
      if broke {
        EndsAt(v, files, ops, results, run, v1, r, d.V());
        return results, Some(r), run;
      }
      CallEffect(v1, Expected(run), op, r, d.V());
      ghost var step: Op := if r.Ok? then op else Refused;
      NextInStep(v, files, ops, results, run, r, step, d.V());
      run := Then(run, step, d.V());
      results := results + [r];
    }
    RunHolds(v, files, ops, results, run, d.V());
  }

  /** Calls on one driver, until one breaks the file map. As long as none does, the driver's volume
      holds the contents last written under each name, and so does the disk for the next mount,
      although failed calls may have taken clusters and renames do not flush. The result of the call
      that breaks it is the last one. */
  method Session(d: Driver, ops: seq<Call>, ghost files: Files) returns (results: seq<Result<()>>, last: Option<Result<()>>)
    requires d.initialized && Holds(d.V(), files)
    modifies d`cache, d`disk
    ensures last.Some? ==> Broken(old(d.V()), files, ops, results, last.value, d.V())
    ensures last.None? ==> |results| == |ops| && Holds(d.V(), Outcome(old(d.geo.rootCount), files, ops, results))
    ensures last.None? && Bootable(old(d.V())) && Synced(old(d.V()), files) ==>
              FoundOnDisk(d.disk, Outcome(old(d.geo.rootCount), files, ops, results))
  {
    ghost var v := d.V();
    ghost var run;
    results, last, run := CallAll(d, ops, files);
    if last.None? { OnDiskInStep(v, files, ops, results, run, d.V()); }
  }
}
