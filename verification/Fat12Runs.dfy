/** Every run of file operations refines a map from names to contents. */
module Fat12Runs {
  import opened Basics
  import opened FatTable
  import opened DirectoryEntries
  import opened FatVolume
  import opened FatSteps
  import opened Fat12Driver
  import opened FailedWrites

  /** A mounted volume with an empty root directory holds the empty file map: runs start there. */
  lemma EmptyVolumeHolds(v: Volume)
    requires LayoutOk(v) && RootEntries(v) == []
    ensures Holds(v, map[])
    ensures Flushed(v) ==> Synced(v, map[])
  {
    assert Represents(v, [], [], map[]);
    if Flushed(v) { FlushedIsSynced(v, map[]); }
  }

  // ---------------------------------------------------------------------------
  // Single operations

  lemma RefusedHolds(v: Volume, v': Volume, files: Files)
    requires Holds(v, files) && Harmless(v, v')
    ensures Holds(v', files)
  {
    var chains, contents :| Represents(v, chains, contents, files);
    HarmlessKeeps(v, v', chains, contents, files);
    HoldsBy(v', chains, contents, files);
  }

  lemma SparedHolds(v: Volume, v': Volume, files: Files, i: nat)
    requires Holds(v, files) && Spared(v, v', i)
    ensures Holds(v', files)
  {
    var chains, contents :| Represents(v, chains, contents, files);
    SparedRefines(v, v', chains, contents, files, i);
    HoldsBy(v', chains[i := Shortened(chains[i])], contents, files);
  }

  lemma CreateHolds(v: Volume, v': Volume, files: Files, name: Name, data: seq<Byte>)
    requires Holds(v, files) && Created(v, v', name, data) && StoredKey(name) !in Keys(RootEntries(v))
    ensures Holds(v', files[StoredKey(name) := data])
  {
    var chains, contents :| Represents(v, chains, contents, files);
    var cs :| CreateStep(v, v', name, data, ATTR_ARCHIVE, cs);
    CreateRefines(v, v', chains, contents, files, name, data, ATTR_ARCHIVE, cs);
    HoldsBy(v', chains + [cs], contents + [data], files[StoredKey(name) := data]);
  }

  lemma ClashHoldsNot(v: Volume, v': Volume, name: Name, data: seq<Byte>, m: Files)
    requires Created(v, v', name, data) && StoredKey(name) in Keys(RootEntries(v))
    ensures !Holds(v', m)
  {
    var cs :| CreateStep(v, v', name, data, ATTR_ARCHIVE, cs);
    SameKeyAdded(RootEntries(v), NewEntry(EncodeName(name).value, ATTR_ARCHIVE, cs[0], |data|));
  }

  lemma SameKeyAdded(es: seq<Entry>, e: Entry)
    requires EntryKey(e) in Keys(es)
    ensures !AllDifferent(Keys(es + [e]))
  {
    KeysAppend(es, e);
    var k :| 0 <= k < |es| && Keys(es)[k] == EntryKey(e);
    assert Keys(es + [e])[k] == Keys(es + [e])[|es|];
  }

  lemma ClashLeavesNoMap(v: Volume, v': Volume, name: Name, data: seq<Byte>)
    requires Created(v, v', name, data) && StoredKey(name) in Keys(RootEntries(v))
    ensures !HasMap(v')
  {
    if HasMap(v') {
      var m :| Holds(v', m);
      ClashHoldsNot(v, v', name, data, m);
    }
  }

  /** A creation that appears in the directory leaves a file map exactly if no file is found under
      the key its name is stored with, and then adds the file under that key. */
  lemma CreateHoldsIff(v: Volume, v': Volume, files: Files, name: Name, data: seq<Byte>)
    requires Holds(v, files) && Created(v, v', name, data)
    ensures HasMap(v') <==> StoredKey(name) !in files
    ensures StoredKey(name) !in files ==> Holds(v', files[StoredKey(name) := data])
  {
    var key := StoredKey(name);
    NamesAgree(v, files, key);
    if key !in files {
      CreateHolds(v, v', files, name, data);
      HasMapBy(v', files[key := data]);
    } else {
      ClashLeavesNoMap(v, v', name, data);
    }
  }

  /** "A B" is created beside "A": both are found as "A", and there is no file map any more. */
  lemma SpacedNameBesideA(v: Volume, v': Volume, files: Files, data: seq<Byte>)
    requires Holds(v, files) && Key([65]) in files && Created(v, v', [65, SPACE, 66], data)
    ensures !HasMap(v')
  {
    SpacedNameClashes();
    CreateHoldsIff(v, v', files, [65, SPACE, 66], data);
  }

  lemma HiddenHolds(v: Volume, v': Volume, files: Files, data: seq<Byte>)
    requires Holds(v, files) && Hidden(v, v', data)
    ensures Holds(v', files)
  {
    var chains, contents :| Represents(v, chains, contents, files);
    var cs :| HiddenStep(v, v', data, cs);
    HiddenRefines(v, v', chains, contents, files, data, cs);
    HoldsBy(v', chains, contents, files);
  }

  lemma OverwriteHolds(v: Volume, v': Volume, files: Files, i: nat, data: seq<Byte>)
    requires Holds(v, files) && i < |RootEntries(v)| && Overwritten(v, v', i, data)
    ensures Holds(v', files[Keys(RootEntries(v))[i] := data])
  {
    var chains, contents :| Represents(v, chains, contents, files);
    if data == [] {
      TruncateRefines(v, v', chains, contents, files, i);
      HoldsBy(v', chains[i := []], contents[i := []], files[Keys(RootEntries(v))[i] := []]);
    } else {
      var cs :| WriteStep(v, v', i, data, cs);
      WriteRefines(v, v', chains, contents, files, i, data, cs);
      HoldsBy(v', chains[i := cs], contents[i := data], files[Keys(RootEntries(v))[i] := data]);
    }
  }

  /** The file map after file `gone` got another name: found under the key of that name if it is
      shown, lost otherwise. */
  function RenamedMap(files: Files, gone: Name, name: Name): Files
    requires gone in files
  {
    if Shows(name) then (files - {gone})[StoredKey(name) := files[gone]] else files - {gone}
  }

  /** Another file is found under the key of the name. */
  predicate Clashes(v: Volume, i: nat, name: Name)
    requires i < |RootEntries(v)|
  {
    Shows(name) && StoredKey(name) in Remove(Keys(RootEntries(v)), i)
  }

  lemma RenameHolds(v: Volume, v': Volume, files: Files, i: nat, name: Name)
    requires Holds(v, files) && RenameStep(v, v', i, name) && !StartsWithZero(name) && !Clashes(v, i, name)
    ensures var gone := Keys(RootEntries(v))[i];
            gone in files && Holds(v', RenamedMap(files, gone, name))
  {
    var chains, contents :| Represents(v, chains, contents, files);
    var gone := Keys(RootEntries(v))[i];
    if Shows(name) {
      RenameRefines(v, v', chains, contents, files, i, name);
      HoldsBy(v', chains, contents, RenamedMap(files, gone, name));
    } else {
      RenameLoses(v, v', chains, contents, files, i, name);
      HoldsBy(v', Remove(chains, i), Remove(contents, i), RenamedMap(files, gone, name));
    }
  }

  lemma TruncationHolds(v: Volume, v': Volume, files: Files, i: nat, name: Name)
    requires Holds(v, files) && RenameStep(v, v', i, name) && StartsWithZero(name)
    ensures Holds(v', Only(files, Keys(RootEntries(v))[..i]))
  {
    var chains, contents :| Represents(v, chains, contents, files);
    RenameTruncates(v, v', chains, contents, files, i, name);
    HoldsBy(v', chains[..i], contents[..i], Only(files, Keys(RootEntries(v))[..i]));
  }

  lemma RenameClashHoldsNot(v: Volume, v': Volume, i: nat, name: Name, m: Files)
    requires RenameStep(v, v', i, name) && Clashes(v, i, name)
    ensures !Holds(v', m)
  {
    var es, e := RootEntries(v), WithName(RootEntries(v)[i], EncodeName(name).value);
    assert RootEntries(v') == es[i := e];
    SameKeyTwice(es, i, e);
  }

  lemma SameKeyTwice(es: seq<Entry>, i: nat, e: Entry)
    requires i < |es| && EntryKey(e) in Remove(Keys(es), i)
    ensures !AllDifferent(Keys(es[i := e]))
  {
    KeysUpdate(es, i, e);
    TwiceInUpdate(Keys(es), i, EntryKey(e));
  }

  lemma TwiceInUpdate(keys: seq<Name>, i: nat, key: Name)
    requires i < |keys| && key in Remove(keys, i)
    ensures !AllDifferent(keys[i := key])
  {
    var k :| 0 <= k < |Remove(keys, i)| && Remove(keys, i)[k] == key;
    var j := Skip(i, k);
    assert keys[i := key][j] == key == keys[i := key][i];
  }

  lemma RenameClashLeavesNoMap(v: Volume, v': Volume, i: nat, name: Name)
    requires RenameStep(v, v', i, name) && Clashes(v, i, name)
    ensures !HasMap(v')
  {
    if HasMap(v') {
      var m :| Holds(v', m);
      RenameClashHoldsNot(v, v', i, name, m);
    }
  }

  /** A renaming leaves a file map exactly if no other file is found under the key of the new name:
      then the file has moved to that key, or is lost if the name is not shown, with all files
      behind it if the name starts with a zero byte. */
  lemma RenameHoldsIff(v: Volume, v': Volume, files: Files, i: nat, name: Name)
    requires Holds(v, files) && RenameStep(v, v', i, name)
    ensures HasMap(v') <==> !Clashes(v, i, name)
    ensures StartsWithZero(name) ==> Holds(v', Only(files, Keys(RootEntries(v))[..i]))
    ensures var gone := Keys(RootEntries(v))[i];
            !StartsWithZero(name) && !Clashes(v, i, name) ==> gone in files && Holds(v', RenamedMap(files, gone, name))
  {
    if StartsWithZero(name) {
      TruncationHolds(v, v', files, i, name);
      HasMapBy(v', Only(files, Keys(RootEntries(v))[..i]));
    } else if Clashes(v, i, name) {
      RenameClashLeavesNoMap(v, v', i, name);
    } else {
      RenameHolds(v, v', files, i, name);
      HasMapBy(v', RenamedMap(files, Keys(RootEntries(v))[i], name));
    }
  }

  lemma DeleteHolds(v: Volume, v': Volume, files: Files, i: nat)
    requires Holds(v, files) && DeleteStep(v, v', i)
    ensures Holds(v', files - {Keys(RootEntries(v))[i]})
  {
    var chains, contents :| Represents(v, chains, contents, files);
    DeleteRefines(v, v', chains, contents, files, i);
    HoldsBy(v', Remove(chains, i), Remove(contents, i), files - {Keys(RootEntries(v))[i]});
  }

  lemma {:induction false} IndexedSize<K, V>(keys: seq<K>, values: seq<V>, m: map<K, V>)
    requires Indexed(keys, values, m) && AllDifferent(keys)
    ensures |m| == |keys|
  {
    if keys == [] {
      assert m == map[];
    } else {
      var i := |keys| - 1;
      IndexedRemove(keys, values, m, i);
      IndexedSize(Remove(keys, i), Remove(values, i), m - {keys[i]});
      assert (m - {keys[i]}).Keys == m.Keys - {keys[i]};
    }
  }

  lemma MapSize(v: Volume, files: Files)
    requires Holds(v, files)
    ensures |files| == |RootEntries(v)|
  {
    var chains, contents :| Represents(v, chains, contents, files);
    IndexedSize(Keys(RootEntries(v)), contents, files);
  }

  // ---------------------------------------------------------------------------
  // Operations

  datatype Op =
    | Create(name: Name, data: seq<Byte>)
    | Write(name: Name, data: seq<Byte>)
    | Append(name: Name, data: seq<Byte>)
    | Rename(from: Name, to: Name)
    | Delete(name: Name)
    | Refused  // an operation that failed and lost no file

  /** What an operation should do to the file map of a directory that lists at most `room` files. */
  function Intended(room: nat, files: Files, op: Op): Files {
    match op
    case Create(name, data) => if Shows(name) && |files| < room then files[StoredKey(name) := data] else files
    case Write(name, data) => files[Key(name) := data]
    case Append(name, data) =>
      if Key(name) in files then files[Key(name) := files[Key(name)] + data] else files
    case Rename(from, to) => if Key(from) in files then RenamedMap(files, Key(from), to) else files
    case Delete(name) => files - {Key(name)}
    case Refused => files
  }

  /** What the driver guarantees of a successful operation, and of one that was refused, as far as
      a file map is left. */
  ghost predicate Effect(v: Volume, files: Files, op: Op, v': Volume) {
    match op
    case Create(name, data) =>
      && Flushed(v')
      && if Appears(v, name) then Created(v, v', name, data) && StoredKey(name) !in Keys(RootEntries(v))
         else Hidden(v, v', data)
    case Write(name, data) => exists i :: Named(v, i, name) && Overwritten(v, v', i, data) && Flushed(v')
    case Append(name, data) =>
      && Key(name) in files
      && exists i :: Named(v, i, name) && Overwritten(v, v', i, files[Key(name)] + data) && Flushed(v')
    case Rename(from, to) =>
      !StartsWithZero(to) && exists i :: Named(v, i, from) && RenameStep(v, v', i, to) && !Clashes(v, i, to)
    case Delete(name) => exists i :: Named(v, i, name) && DeleteStep(v, v', i) && Flushed(v')
    case Refused => Harmless(v, v') || exists i :: Spared(v, v', i)
  }

  lemma StepRefines(v: Volume, files: Files, op: Op, v': Volume)
    requires Holds(v, files) && Effect(v, files, op, v')
    ensures Holds(v', Intended(v.geo.rootCount, files, op))
  {
    match op
    case Create(name, data) =>
      MapSize(v, files);
      if Appears(v, name) { CreateHolds(v, v', files, name, data); } else { HiddenHolds(v, v', files, data); }
    case Write(name, data) =>
      var i :| Named(v, i, name) && Overwritten(v, v', i, data) && Flushed(v');
      OverwriteHolds(v, v', files, i, data);
    case Append(name, data) =>
      var i :| Named(v, i, name) && Overwritten(v, v', i, files[Key(name)] + data) && Flushed(v');
      OverwriteHolds(v, v', files, i, files[Key(name)] + data);
    case Rename(from, to) =>
      var i :| Named(v, i, from) && RenameStep(v, v', i, to) && !Clashes(v, i, to);
      RenameHolds(v, v', files, i, to);
    case Delete(name) =>
      var i :| Named(v, i, name) && DeleteStep(v, v', i) && Flushed(v');
      DeleteHolds(v, v', files, i);
    case Refused => RefusedRefines(v, v', files);
  }

  lemma RefusedRefines(v: Volume, v': Volume, files: Files)
    requires Holds(v, files) && (Harmless(v, v') || exists i :: Spared(v, v', i))
    ensures Holds(v', files)
  {
    if Harmless(v, v') {
      RefusedHolds(v, v', files);
    } else {
      var i :| Spared(v, v', i);
      SparedHolds(v, v', files, i);
    }
  }

  /** The operations that end by writing the table to every copy on disk. */
  predicate Flushes(op: Op) { !op.Rename? && !op.Refused? }

  lemma StepKeepsBoot(v: Volume, files: Files, op: Op, v': Volume)
    requires Effect(v, files, op, v')
    ensures v'.geo == v.geo && v'.disk.Keys == v.disk.Keys && (Bootable(v) ==> Bootable(v'))
    ensures Flushes(op) ==> Flushed(v')
  {
  }

  // ---------------------------------------------------------------------------
  // What is on disk

  /** The volume and what a mount of its disk would find hold the same files. A file that ran out of
      clusters has kept only its first one in memory. */
  ghost predicate InSync(v: Volume, chains: seq<seq<nat>>, onDisk: seq<seq<nat>>, contents: seq<seq<Byte>>, files: Files) {
    && Represents(v, chains, contents, files) && Represents(Remounted(v), onDisk, contents, files)
    && |chains| == |onDisk| && forall i | 0 <= i < |chains| :: chains[i] <= onDisk[i]
  }

  ghost predicate Synced(v: Volume, files: Files) {
    exists chains, onDisk, contents :: InSync(v, chains, onDisk, contents, files)
  }

  lemma SyncedBy(v: Volume, chains: seq<seq<nat>>, onDisk: seq<seq<nat>>, contents: seq<seq<Byte>>, files: Files)
    requires InSync(v, chains, onDisk, contents, files)
    ensures Synced(v, files)
  {
  }

  lemma SyncedHolds(v: Volume, files: Files)
    requires Synced(v, files)
    ensures Holds(v, files) && Holds(Remounted(v), files)
  {
    var chains, onDisk, contents :| InSync(v, chains, onDisk, contents, files);
    HoldsBy(v, chains, contents, files);
    HoldsBy(Remounted(v), onDisk, contents, files);
  }

  lemma FlushedIsSynced(v: Volume, files: Files)
    requires Holds(v, files) && Flushed(v)
    ensures Synced(v, files)
  {
    var chains, contents :| Represents(v, chains, contents, files);
    RemountRecovers(v);
    SyncedBy(v, chains, chains, contents, files);
  }

  lemma SameTableOnDisk(v: Volume, v': Volume)
    requires v'.geo == v.geo && v.geo.numFats >= 1 && CopiesKept(v, v')
    ensures Remounted(v').cache == Remounted(v).cache
  {
    FirstCopy(v.geo);
    assert ReadRange(v'.disk, CopyStart(v.geo, 0), v.geo.fatSize) == ReadRange(v.disk, CopyStart(v.geo, 0), v.geo.fatSize);
  }

  /** The data of the first clusters of a chain. */
  lemma {:induction false} ChainDataPrefix(v: Volume, cs: seq<nat>, k: nat)
    requires AllClusters(cs) && k <= |cs|
    ensures k * ClusterSize(v.geo) <= |ChainData(v, cs)|
    ensures ChainData(v, cs)[..k * ClusterSize(v.geo)] == ChainData(v, cs[..k])
  {
    if k == |cs| {
      assert cs[..k] == cs;
    } else {
      var n := |cs| - 1;
      ChainDataPrefix(v, cs[..n], k);
      assert cs[..n][..k] == cs[..k];
    }
  }

  /** The contents of a file lie in the clusters of any prefix of its chain that is long enough. */
  lemma ContentInPrefix(v: Volume, e: Entry, cs: seq<nat>, ds: seq<nat>)
    requires AllClusters(ds) && cs <= ds && e.size <= |cs| * ClusterSize(v.geo)
    ensures e.size <= |ds| * ClusterSize(v.geo) && AllClusters(cs) && Content(v, e, ds) == Content(v, e, cs)
  {
    assert ds[..|cs|] == cs;
    ChainDataPrefix(v, ds, |cs|);
  }

  lemma ContentKept(v: Volume, v': Volume, e: Entry, cs: seq<nat>)
    requires AllClusters(cs) && e.size <= |cs| * ClusterSize(v.geo) && v'.geo == v.geo
    requires forall c | c in cs :: ClusterData(v', c) == ClusterData(v, c)
    ensures Content(v', e, cs) == Content(v, e, cs)
  {
    ChainDataKept(v, v', cs);
  }

  /** A refused operation may have taken clusters in the cache; on disk their table entries are
      still free, and no cluster that a file needs was touched. */
  lemma RefusedFileOnDisk(v: Volume, v': Volume, e: Entry, cs: seq<nat>, ds: seq<nat>, bytes: seq<Byte>)
    requires FileAt(v, e, cs, bytes) && FileAt(Remounted(v), e, ds, bytes) && cs <= ds
    requires Harmless(v, v') && v.geo.numFats >= 1
    ensures FileAt(Remounted(v'), e, ds, bytes)
  {
    SameTableOnDisk(v, v');
    ChainInTable(v, e, cs, bytes);
    forall c | c in cs ensures ClusterData(Remounted(v'), c) == ClusterData(Remounted(v), c) {
      assert ClusterData(v', c) == ClusterData(v, c);
    }
    ContentInPrefix(Remounted(v), e, cs, ds);
    ContentKept(Remounted(v), Remounted(v'), e, cs);
    ContentInPrefix(Remounted(v'), e, cs, ds);
  }

  lemma RefusedOnDisk(v: Volume, v': Volume, chains: seq<seq<nat>>, onDisk: seq<seq<nat>>, contents: seq<seq<Byte>>, files: Files)
    requires InSync(v, chains, onDisk, contents, files) && Harmless(v, v')
    ensures Represents(Remounted(v'), onDisk, contents, files)
  {
    var es := RootEntries(v);
    assert LayoutOk(Remounted(v')) && RootEntries(Remounted(v')) == es == RootEntries(Remounted(v));
    assert FilesAt(Remounted(v'), es, onDisk, contents) by {
      forall i | 0 <= i < |es| ensures FileAt(Remounted(v'), es[i], onDisk[i], contents[i]) {
        RefusedFileOnDisk(v, v', es[i], chains[i], onDisk[i], contents[i]);
      }
    }
  }

  lemma RenameOnDisk(v: Volume, v': Volume, i: nat, name: Name)
    requires RenameStep(v, v', i, name) && v.geo.numFats >= 1
    ensures RenameStep(Remounted(v), Remounted(v'), i, name)
  {
    SameTableOnDisk(v, v');
    forall c | c >= 2 ensures ClusterData(Remounted(v'), c) == ClusterData(Remounted(v), c) {
      assert ClusterData(v', c) == ClusterData(v, c);
    }
  }

  lemma RefusedSynced(v: Volume, v': Volume, files: Files)
    requires Synced(v, files) && Harmless(v, v')
    ensures Synced(v', files)
  {
    var chains, onDisk, contents :| InSync(v, chains, onDisk, contents, files);
    HarmlessKeeps(v, v', chains, contents, files);
    RefusedOnDisk(v, v', chains, onDisk, contents, files);
    SyncedBy(v', chains, onDisk, contents, files);
  }

  lemma SparedSynced(v: Volume, v': Volume, files: Files, i: nat)
    requires Synced(v, files) && Spared(v, v', i)
    ensures Synced(v', files)
  {
    var chains, onDisk, contents :| InSync(v, chains, onDisk, contents, files);
    SparedRefines(v, v', chains, contents, files, i);
    SparedOnDisk(v, v', i);
    ShorterPrefix(chains, onDisk, i);
    SyncedBy(v', chains[i := Shortened(chains[i])], onDisk, contents, files);
  }

  lemma SparedOnDisk(v: Volume, v': Volume, i: nat)
    requires Spared(v, v', i)
    ensures Remounted(v') == Remounted(v)
  {
  }

  lemma ShorterPrefix(chains: seq<seq<nat>>, onDisk: seq<seq<nat>>, i: nat)
    requires |chains| == |onDisk| && i < |chains| && forall k | 0 <= k < |chains| :: chains[k] <= onDisk[k]
    ensures var ch := chains[i := Shortened(chains[i])]; forall k | 0 <= k < |ch| :: ch[k] <= onDisk[k]
  {
  }

  lemma ShownRenameSynced(v: Volume, v': Volume, files: Files, i: nat, name: Name)
    requires Synced(v, files) && RenameStep(v, v', i, name) && Shows(name) && !Clashes(v, i, name)
    ensures var gone := Keys(RootEntries(v))[i];
            gone in files && Synced(v', (files - {gone})[StoredKey(name) := files[gone]])
  {
    var chains, onDisk, contents :| InSync(v, chains, onDisk, contents, files);
    RenameRefines(v, v', chains, contents, files, i, name);
    RenameOnDisk(v, v', i, name);
    RenameRefines(Remounted(v), Remounted(v'), onDisk, contents, files, i, name);
    var gone := Keys(RootEntries(v))[i];
    SyncedBy(v', chains, onDisk, contents, (files - {gone})[StoredKey(name) := files[gone]]);
  }

  lemma HiddenRenameSynced(v: Volume, v': Volume, files: Files, i: nat, name: Name)
    requires Synced(v, files) && RenameStep(v, v', i, name) && !Shows(name) && !StartsWithZero(name)
    ensures Synced(v', files - {Keys(RootEntries(v))[i]})
  {
    var chains, onDisk, contents :| InSync(v, chains, onDisk, contents, files);
    RenameLoses(v, v', chains, contents, files, i, name);
    RenameOnDisk(v, v', i, name);
    RenameLoses(Remounted(v), Remounted(v'), onDisk, contents, files, i, name);
    RemovePrefix(chains, onDisk, i);
    SyncedBy(v', Remove(chains, i), Remove(onDisk, i), Remove(contents, i), files - {Keys(RootEntries(v))[i]});
  }

  lemma RemovePrefix(chains: seq<seq<nat>>, onDisk: seq<seq<nat>>, i: nat)
    requires |chains| == |onDisk| && i < |chains| && forall k | 0 <= k < |chains| :: chains[k] <= onDisk[k]
    ensures forall k | 0 <= k < |Remove(chains, i)| :: Remove(chains, i)[k] <= Remove(onDisk, i)[k]
  {
  }

  lemma RenameSynced(v: Volume, v': Volume, files: Files, i: nat, name: Name)
    requires Synced(v, files) && RenameStep(v, v', i, name) && !StartsWithZero(name) && !Clashes(v, i, name)
    ensures var gone := Keys(RootEntries(v))[i]; gone in files && Synced(v', RenamedMap(files, gone, name))
  {
    SyncedHolds(v, files);
    RenameHolds(v, v', files, i, name);
    if Shows(name) { ShownRenameSynced(v, v', files, i, name); } else { HiddenRenameSynced(v, v', files, i, name); }
  }

  /** Every operation that does not flush keeps memory and disk in step. */
  lemma StepStaysSynced(v: Volume, files: Files, op: Op, v': Volume)
    requires Synced(v, files) && Effect(v, files, op, v') && !Flushes(op)
    ensures Synced(v', Intended(v.geo.rootCount, files, op))
  {
    match op
    case Rename(from, to) =>
      var i :| Named(v, i, from) && RenameStep(v, v', i, to) && !Clashes(v, i, to);
      RenameSynced(v, v', files, i, to);
    case Refused =>
      if Harmless(v, v') {
        RefusedSynced(v, v', files);
      } else {
        var i :| Spared(v, v', i);
        SparedSynced(v, v', files, i);
      }
  }

  // ---------------------------------------------------------------------------
  // Runs

  /** A run from a volume that holds `files`, one operation after the other. */
  datatype Run = Start(first: Volume, files: Files) | Then(before: Run, op: Op, after: Volume)

  function Last(run: Run): Volume {
    match run
    case Start(v, _) => v
    case Then(_, _, v) => v
  }

  /** The file map the run should have produced. */
  function Expected(run: Run): Files {
    match run
    case Start(_, files) => files
    case Then(before, op, _) => Intended(Last(before).geo.rootCount, Expected(before), op)
  }

  ghost predicate IsRun(run: Run) {
    match run
    case Start(v, files) => Holds(v, files)
    case Then(before, op, v) => IsRun(before) && Effect(Last(before), Expected(before), op, v)
  }

  function First(run: Run): Volume {
    match run
    case Start(v, _) => v
    case Then(before, _, _) => First(before)
  }

  /** The run has flushed the table at least once, or started with memory and disk in step. */
  ghost predicate Saved(run: Run) {
    match run
    case Start(v, files) => Synced(v, files)
    case Then(before, op, _) => Flushes(op) || Saved(before)
  }

  /** Every run refines the file map: at its end the volume holds exactly the contents last
      written under each name. */
  lemma {:induction false} RunRefinesFileMap(run: Run)
    requires IsRun(run)
    ensures Holds(Last(run), Expected(run))
  {
    match run
    case Start(_, _) =>
    case Then(before, op, v) =>
      RunRefinesFileMap(before);
      StepRefines(Last(before), Expected(before), op, v);
  }

  lemma {:induction false} RunStaysBootable(run: Run)
    requires IsRun(run) && Bootable(First(run))
    ensures Bootable(Last(run))
  {
    match run
    case Start(_, _) =>
    case Then(before, op, v) =>
      RunStaysBootable(before);
      StepKeepsBoot(Last(before), Expected(before), op, v);
  }

  lemma {:induction false} RunStaysSynced(run: Run)
    requires IsRun(run) && Saved(run)
    ensures Synced(Last(run), Expected(run))
  {
    match run
    case Start(_, _) =>
    case Then(before, op, v) =>
      if Flushes(op) {
        RunRefinesFileMap(run);
        StepKeepsBoot(Last(before), Expected(before), op, v);
        FlushedIsSynced(v, Expected(run));
      } else {
        RunStaysSynced(before);
        StepStaysSynced(Last(before), Expected(before), op, v);
      }
  }

  /** After any run, with refused operations and renames anywhere in it, mounting the disk again
      gives the file map of the run. */
  lemma RunSurvivesRemount(run: Run)
    requires IsRun(run) && Bootable(First(run)) && Saved(run)
    ensures Mount(Last(run).disk).Ok? && Holds(Mount(Last(run).disk).value, Expected(run))
  {
    RunStaysBootable(run);
    RunStaysSynced(run);
    SyncedHolds(Last(run), Expected(run));
    NamesAgree(Last(run), Expected(run), []);
    MountIsRemounted(Last(run));
  }

  /** After a run that ends with a creation, a write, an append or a deletion, mounting the disk
      again gives back the volume itself. */
  lemma FlushedRunIsRecovered(run: Run)
    requires IsRun(run) && Bootable(First(run)) && run.Then? && Flushes(run.op)
    ensures Mount(Last(run).disk) == Ok(Last(run)) && Holds(Last(run), Expected(run))
  {
    RunStaysBootable(run);
    RunRefinesFileMap(run);
    StepKeepsBoot(Last(run.before), Expected(run.before), run.op, Last(run));
    NamesAgree(Last(run), Expected(run), []);
    RemountRecovers(Last(run));
  }

  // ---------------------------------------------------------------------------
  // Cluster accounting

  lemma FreedCount(v: Volume, e: Entry, gone: seq<nat>, bytes: seq<Byte>)
    requires FileAt(v, e, gone, bytes)
    ensures |FreeClusters(ZeroAll(Fat(v), gone))| == |FreeClusters(Fat(v))| + |Scanned(gone)|
    ensures |Scanned(gone)| == |gone| <==> forall c | c in gone :: c < SCAN_END
  {
    if gone == [] { ZeroNothing(Fat(v)); } else { ZeroAllGives(Fat(v), gone); ScannedCount(gone); }
  }

  /** Overwriting builds a strictly ascending chain. The number of free clusters changes by the
      old chain's length minus the new one's, exactly if every old cluster is one the allocator
      counts. */
  lemma OverwriteFreeCount(v: Volume, v': Volume, i: nat, data: seq<Byte>, cs: seq<nat>, gone: seq<nat>, bytes: seq<Byte>)
    requires WriteStep(v, v', i, data, cs) && FileAt(v, RootEntries(v)[i], gone, bytes)
    ensures Ascending(cs) && IsChain(Fat(v'), cs)
    ensures |FreeClusters(Fat(v'))| == |FreeClusters(Fat(v))| + |Scanned(gone)| - |cs|
    ensures |FreeClusters(Fat(v'))| == |FreeClusters(Fat(v))| + |gone| - |cs| <==> forall c | c in gone :: c < SCAN_END
  {
    FreeingAFile(v, RootEntries(v)[i], gone, bytes);
    FreedCount(v, RootEntries(v)[i], gone, bytes);
    ChainBuiltTakes(ZeroAll(Fat(v), gone), cs, Fat(v'));
  }

  /** Creating takes exactly the new chain, all of it from clusters the allocator counts. */
  lemma CreateFreeCount(v: Volume, v': Volume, name: Name, data: seq<Byte>, attr: Byte, cs: seq<nat>)
    requires CreateStep(v, v', name, data, attr, cs)
    ensures |FreeClusters(Fat(v'))| == |FreeClusters(Fat(v))| - |cs| && Ascending(cs)
    ensures forall c | c in cs :: c < SCAN_END
  {
    ChainBuiltTakes(Fat(v), cs, Fat(v'));
  }

  /** Deleting gives back the whole chain, under the same exact condition. */
  lemma DeleteFreeCount(v: Volume, v': Volume, i: nat, gone: seq<nat>, bytes: seq<Byte>)
    requires DeleteStep(v, v', i) && FileAt(v, RootEntries(v)[i], gone, bytes)
    ensures |FreeClusters(Fat(v'))| == |FreeClusters(Fat(v))| + |gone| <==> forall c | c in gone :: c < SCAN_END
  {
    FreeingAFile(v, RootEntries(v)[i], gone, bytes);
    FreedCount(v, RootEntries(v)[i], gone, bytes);
  }

  /** Truncating gives back the whole chain, under the same exact condition. */
  lemma TruncateFreeCount(v: Volume, v': Volume, i: nat, gone: seq<nat>, bytes: seq<Byte>)
    requires TruncateStep(v, v', i) && FileAt(v, RootEntries(v)[i], gone, bytes)
    ensures |FreeClusters(Fat(v'))| == |FreeClusters(Fat(v))| + |Scanned(gone)|
    ensures |FreeClusters(Fat(v'))| == |FreeClusters(Fat(v))| + |gone| <==> forall c | c in gone :: c < SCAN_END
  {
    FreeingAFile(v, RootEntries(v)[i], gone, bytes);
    FreedCount(v, RootEntries(v)[i], gone, bytes);
  }
}
