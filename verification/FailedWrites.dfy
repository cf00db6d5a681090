/** What is left of a file that could not be overwritten. */
module FailedWrites {
  import opened Basics
  import opened FatTable
  import opened DirectoryEntries
  import opened FatVolume
  import opened FatSteps
  import opened Fat12Driver

  /** The first `n` bytes, or all of them. */
  function Head(bytes: seq<Byte>, n: nat): seq<Byte> { if n < |bytes| then bytes[..n] else bytes }

  /** A file without clusters survives every failure; one with clusters survives running out of
      them if its first cluster is one the allocator scans and holds all of it. */
  predicate Survives(g: Geometry, e: Entry, error: Error) {
    !InRange(e.first) || (error != WriteFailed && e.first < SCAN_END && e.size <= ClusterSize(g))
  }

  /** A disk with every sector below its last one. */
  predicate Solid(disk: Disk) { forall l, k | l in disk && 0 <= k < l :: k in disk }

  // ---------------------------------------------------------------------------
  // Out of clusters

  /** The chain was freed and every free cluster taken again, each on its own. */
  lemma ExhaustedTable(v: Volume, v1: Volume, v': Volume, i: nat, cs: seq<nat>, bytes: seq<Byte>)
    requires EntryFreed(v, v1, i) && Exhausted(v1, v') && FileAt(v, RootEntries(v)[i], cs, bytes)
    ensures RootEntries(v') == RootEntries(v) && |Fat(v')| == |Fat(v)|
    ensures cs != [] ==> cs[0] < |Fat(v)| && Fat(v')[cs[0]] == if cs[0] < SCAN_END then EOF else 0
  {
    FreeingAFile(v, RootEntries(v)[i], cs, bytes);
  }

  /** Whatever the chain was, it now ends behind its first cluster. */
  lemma CutWalk(fat: seq<nat>, first: nat)
    requires InRange(first) && first < |fat| && (fat[first] == 0 || fat[first] == EOF)
    ensures IsWalk(fat, first, [first])
  {
    assert [first][1..] == [];
  }

  lemma FirstClusterData(v: Volume, cs: seq<nat>)
    requires AllClusters(cs) && cs != []
    ensures |ChainData(v, cs)| >= ClusterSize(v.geo) && ChainData(v, cs)[..ClusterSize(v.geo)] == ClusterData(v, cs[0])
  {
    ChainDataFirst(v, cs);
  }

  lemma PrefixOfPrefix(data: seq<Byte>, size: nat, n: nat)
    requires size <= |data| && n <= |data|
    ensures Head(data[..size], n) == Head(data[..n], size)
  {
  }

  lemma OneClusterRead(v: Volume, c: nat)
    requires InRange(c) && c < |Fat(v)| && OnDisk(v.disk, ClusterSector(v.geo, c), v.geo.spc)
    ensures WalkData(v, [c]) == Ok(ClusterData(v, c))
  {
    assert [c][1..] == [];
    AfterWalk(ClusterData(v, c));
  }

  /** The file still reads, as its first cluster. */
  lemma ExhaustedReads(v: Volume, v1: Volume, v': Volume, i: nat, name: Name, cs: seq<nat>, bytes: seq<Byte>)
      returns (walk: seq<nat>)
    requires EntryFreed(v, v1, i) && Exhausted(v1, v') && FileAt(v, RootEntries(v)[i], cs, bytes) && Named(v, i, name)
    ensures ReadFrom(v', i, name, walk, Ok(Head(bytes, ClusterSize(v.geo))))
  {
    var e, size := RootEntries(v)[i], ClusterSize(v.geo);
    ExhaustedTable(v, v1, v', i, cs, bytes);
    if cs == [] {
      walk := [];
    } else {
      walk := [e.first];
      CutWalk(Fat(v'), e.first);
      OneClusterRead(v', e.first);
      FirstClusterData(v, cs);
      PrefixOfPrefix(ChainData(v, cs), e.size, size);
      assert ClusterData(v', e.first) == ClusterData(v, e.first);
    }
  }

  lemma ReadsHead(v: Volume, v1: Volume, v': Volume, i: nat, name: Name, cs: seq<nat>, bytes: seq<Byte>)
    requires EntryFreed(v, v1, i) && Exhausted(v1, v') && FileAt(v, RootEntries(v)[i], cs, bytes) && Named(v, i, name)
    ensures exists walk :: ReadFrom(v', i, name, walk, Ok(Head(bytes, ClusterSize(v.geo))))
    ensures forall walk, r | ReadFrom(v', i, name, walk, r) :: r == Ok(Head(bytes, ClusterSize(v.geo)))
  {
    var walk := ExhaustedReads(v, v1, v', i, name, cs, bytes);
    forall other, r | ReadFrom(v', i, name, other, r) ensures r == Ok(Head(bytes, ClusterSize(v.geo))) {
      WalkIsUnique(Fat(v'), RootEntries(v')[i].first, walk, other);
    }
  }

  /** A file that could not be overwritten for want of clusters reads, whatever way it is read, as
      the bytes of its first cluster: as before exactly if it had no more. */
  lemma FailedOverwriteReads(v: Volume, v': Volume, files: Files, i: nat, name: Name, n: nat, error: Error)
    requires Holds(v, files) && Named(v, i, name) && Abandoned(v, v', i, n, error) && error != WriteFailed
    ensures Key(name) in files
    ensures var now := Head(files[Key(name)], ClusterSize(v.geo));
            && (exists walk :: ReadFrom(v', i, name, walk, Ok(now)))
            && (forall walk, r | ReadFrom(v', i, name, walk, r) :: r == Ok(now))
            && (now == files[Key(name)] <==> |files[Key(name)]| <= ClusterSize(v.geo))
  {
    var cs, bytes := FoundEntry(v, files, i);
    var v1 := Freeing(v, v', i, n, error);
    ReadsHead(v, v1, v', i, name, cs, bytes);
  }

  lemma Freeing(v: Volume, v': Volume, i: nat, n: nat, error: Error) returns (v1: Volume)
    requires Abandoned(v, v', i, n, error)
    ensures EntryFreed(v, v1, i) && Harmless(v1, v') && LeftBehind(v1, v', n, error)
  {
    v1 :| EntryFreed(v, v1, i) && Harmless(v1, v') && LeftBehind(v1, v', n, error);
  }

  // ---------------------------------------------------------------------------
  // When the volume still holds a file map

  /** The clusters a surviving file has after running out of clusters. */
  function Shortened(cs: seq<nat>): seq<nat> { if cs == [] then [] else cs[..1] }

  lemma SurvivorAt(v: Volume, v1: Volume, v': Volume, i: nat, cs: seq<nat>, bytes: seq<Byte>)
    requires EntryFreed(v, v1, i) && Exhausted(v1, v') && FileAt(v, RootEntries(v)[i], cs, bytes)
    requires cs != [] ==> cs[0] < SCAN_END && RootEntries(v)[i].size <= ClusterSize(v.geo)
    ensures FileAt(v', RootEntries(v)[i], Shortened(cs), bytes)
  {
    ExhaustedTable(v, v1, v', i, cs, bytes);
    if cs != [] {
      var one := cs[..1];
      assert one == [cs[0]] && IsChain(Fat(v'), one);
      FirstClusterData(v, cs);
      FirstClusterData(v', one);
      assert ChainData(v', one) == ClusterData(v, cs[0]);
    }
  }

  lemma OtherFileSurvives(v: Volume, v1: Volume, v': Volume, i: nat, cs: seq<nat>, bytes: seq<Byte>,
                          e: Entry, mine: seq<nat>, mineBytes: seq<Byte>)
    requires EntryFreed(v, v1, i) && Harmless(v1, v') && FileAt(v, RootEntries(v)[i], cs, bytes)
    requires FileAt(v, e, mine, mineBytes) && Disjoint(mine, cs)
    ensures FileAt(v', e, mine, mineBytes)
  {
    FreeingAFile(v, RootEntries(v)[i], cs, bytes);
    ChainInTable(v, e, mine, mineBytes);
    forall c | c in mine ensures Fat(v1)[c] == Fat(v)[c] && ClusterData(v1, c) == ClusterData(v, c) {
      assert c !in cs;
    }
    FileKept(v, v1, e, mine, mineBytes);
    FileKept(v1, v', e, mine, mineBytes);
  }

  /** A failed overwriting loses no other file: each keeps its entry, its chain and its bytes. */
  lemma AbandonedKeepsOthers(v: Volume, v': Volume, chains: seq<seq<nat>>, contents: seq<seq<Byte>>, files: Files,
                             i: nat, n: nat, error: Error, j: nat)
    requires Represents(v, chains, contents, files) && Abandoned(v, v', i, n, error)
    requires j < |RootEntries(v)| && j != i
    ensures RootEntries(v') == RootEntries(v)
    ensures FileAt(v', RootEntries(v')[j], chains[j], contents[j])
  {
    var es := RootEntries(v);
    var v1 :| EntryFreed(v, v1, i) && Harmless(v1, v') && LeftBehind(v1, v', n, error);
    OtherFileSurvives(v, v1, v', i, chains[i], contents[i], es[j], chains[j], contents[j]);
  }

  lemma SurvivorsAt(v: Volume, v1: Volume, v': Volume, chains: seq<seq<nat>>, contents: seq<seq<Byte>>, i: nat)
    requires FilesAt(v, RootEntries(v), chains, contents) && EntryFreed(v, v1, i) && Exhausted(v1, v') && Harmless(v1, v')
    requires Survives(v.geo, RootEntries(v)[i], NoFreeClusters)
    ensures FilesAt(v', RootEntries(v), chains[i := Shortened(chains[i])], contents)
  {
    var es, ch := RootEntries(v), chains[i := Shortened(chains[i])];
    SurvivorAt(v, v1, v', i, chains[i], contents[i]);
    forall j | 0 <= j < |es| ensures FileAt(v', es[j], ch[j], contents[j]) {
      if j != i {
        OtherFileSurvives(v, v1, v', i, chains[i], contents[i], es[j], chains[j], contents[j]);
      }
    }
    ShorterDisjoint(chains, i);
  }

  /** A surviving file keeps its contents, in its first cluster. */
  lemma SurvivorRefines(v: Volume, v1: Volume, v': Volume, chains: seq<seq<nat>>, contents: seq<seq<Byte>>, files: Files, i: nat)
    requires Represents(v, chains, contents, files) && EntryFreed(v, v1, i) && Exhausted(v1, v') && Harmless(v1, v')
    requires Survives(v.geo, RootEntries(v)[i], NoFreeClusters)
    ensures Represents(v', chains[i := Shortened(chains[i])], contents, files)
  {
    assert LayoutOk(v') && RootEntries(v') == RootEntries(v);
    SurvivorsAt(v, v1, v', chains, contents, i);
  }

  /** Entry `i` could not be overwritten for want of clusters, and survives. */
  ghost predicate Spared(v: Volume, v': Volume, i: nat) {
    && i < |RootEntries(v)| && Survives(v.geo, RootEntries(v)[i], NoFreeClusters)
    && exists v1 :: EntryFreed(v, v1, i) && Exhausted(v1, v') && Harmless(v1, v')
  }

  lemma SparedRefines(v: Volume, v': Volume, chains: seq<seq<nat>>, contents: seq<seq<Byte>>, files: Files, i: nat)
    requires Represents(v, chains, contents, files) && Spared(v, v', i)
    ensures Represents(v', chains[i := Shortened(chains[i])], contents, files)
  {
    var v1 :| EntryFreed(v, v1, i) && Exhausted(v1, v') && Harmless(v1, v');
    SurvivorRefines(v, v1, v', chains, contents, files, i);
  }

  lemma ShorterDisjoint(chains: seq<seq<nat>>, i: nat)
    requires i < |chains|
    requires forall a, b | 0 <= a < |chains| && 0 <= b < |chains| && a != b :: Disjoint(chains[a], chains[b])
    ensures var ch := chains[i := Shortened(chains[i])];
            forall a, b | 0 <= a < |ch| && 0 <= b < |ch| && a != b :: Disjoint(ch[a], ch[b])
  {
    var ch := chains[i := Shortened(chains[i])];
    forall a, b | 0 <= a < |ch| && 0 <= b < |ch| && a != b ensures Disjoint(ch[a], ch[b]) {
      assert forall k | 0 <= k < |ch| :: forall c | c in ch[k] :: c in chains[k];
      assert Disjoint(chains[a], chains[b]);
    }
  }

  /** A file that had more than one cluster of data, or lay above the scanned range, is cut: then the
      volume holds no file map at all. */
  lemma CutFileHoldsNot(v: Volume, v1: Volume, v': Volume, i: nat, cs: seq<nat>, bytes: seq<Byte>,
                        chain: seq<nat>, now: seq<Byte>)
    requires EntryFreed(v, v1, i) && Exhausted(v1, v') && FileAt(v, RootEntries(v)[i], cs, bytes)
    requires !Survives(v.geo, RootEntries(v)[i], NoFreeClusters)
    ensures !FileAt(v', RootEntries(v')[i], chain, now)
  {
    var e := RootEntries(v)[i];
    ExhaustedTable(v, v1, v', i, cs, bytes);
    CutWalk(Fat(v'), e.first);
    if FileAt(v', e, chain, now) {
      ChainNotFree(Fat(v'), chain, e.first);
      ChainIsWalk(Fat(v'), chain);
      WalkIsUnique(Fat(v'), e.first, chain, [e.first]);
    }
  }

  // ---------------------------------------------------------------------------
  // A cluster that is not on the disk

  lemma BelowOnDisk(g: Geometry, disk: Disk, a: nat, b: nat)
    requires Solid(disk) && 2 <= a < b && OnDisk(disk, ClusterSector(g, b), g.spc)
    ensures OnDisk(disk, ClusterSector(g, a), g.spc)
  {
    SlotsInOrder(a - 2, b - 2, g.spc);
    forall l | ClusterSector(g, a) <= l < ClusterSector(g, a) + g.spc ensures l in disk {
      assert ClusterSector(g, b) in disk;
    }
  }

  lemma SuffixOnDisk(g: Geometry, disk: Disk, cs: seq<nat>, k: nat)
    requires Solid(disk) && Ascending(cs) && AllClusters(cs) && k < |cs| && ClustersOnDisk(g, disk, cs[k..])
    ensures ClustersOnDisk(g, disk, cs)
  {
    var rest := cs[k..];
    forall j | 0 <= j < |cs| ensures OnDisk(disk, ClusterSector(g, cs[j]), g.spc) {
      assert rest[0] == cs[k] && OnDisk(disk, ClusterSector(g, rest[0]), g.spc);
      if j < k { BelowOnDisk(g, disk, cs[j], cs[k]); } else { assert rest[j - k] == cs[j]; }
    }
  }

  lemma SameChain(fat: seq<nat>, cs: seq<nat>, k: nat, chain: seq<nat>)
    requires IsChain(fat, cs) && IsChain(fat, chain) && k < |cs| && cs[k] == chain[0]
    ensures chain == cs[k..]
  {
    ChainSuffix(fat, cs, k);
    ChainIsWalk(fat, cs[k..]);
    ChainIsWalk(fat, chain);
    WalkIsUnique(fat, chain[0], chain, cs[k..]);
  }

  /** A cluster of the file is in use again only if the new chain has it. */
  lemma InNewChain(v: Volume, v1: Volume, v': Volume, i: nat, cs: seq<nat>, bytes: seq<Byte>, new_: seq<nat>)
    requires EntryFreed(v, v1, i) && ChainBuilt(Fat(v1), new_, Fat(v')) && FileAt(v, RootEntries(v)[i], cs, bytes)
    ensures forall c | c in cs && c !in new_ :: c < |Fat(v')| && Fat(v')[c] == 0
  {
    FreeingAFile(v, RootEntries(v)[i], cs, bytes);
    ChainInTable(v, RootEntries(v)[i], cs, bytes);
  }

  /** A half-written chain either misses the file's first cluster or leads off the disk. */
  lemma HalfWrittenHoldsNot(v: Volume, v1: Volume, v': Volume, i: nat, cs: seq<nat>, bytes: seq<Byte>,
                            new_: seq<nat>, chain: seq<nat>, now: seq<Byte>)
    requires EntryFreed(v, v1, i) && HalfWritten(v1, v', new_) && FileAt(v, RootEntries(v)[i], cs, bytes)
    requires Solid(v.disk) && InRange(RootEntries(v)[i].first)
    ensures !FileAt(v', RootEntries(v)[i], chain, now)
  {
    var e := RootEntries(v)[i];
    InNewChain(v, v1, v', i, cs, bytes, new_);
    if FileAt(v', e, chain, now) {
      OffTheDisk(v, v', new_, chain);
    }
  }

  lemma OffTheDisk(v: Volume, v': Volume, new_: seq<nat>, chain: seq<nat>)
    requires v'.geo == v.geo && v'.disk.Keys == v.disk.Keys && Solid(v.disk) && AllClusters(new_) && Ascending(new_)
    requires IsChain(Fat(v'), new_) && IsChain(Fat(v'), chain) && chain[0] in new_
    requires !ClustersOnDisk(v.geo, v.disk, new_)
    ensures !ClustersOnDisk(v'.geo, v'.disk, chain)
  {
    var k :| 0 <= k < |new_| && new_[k] == chain[0];
    SameChain(Fat(v'), new_, k, chain);
    if ClustersOnDisk(v'.geo, v'.disk, chain) { SuffixOnDisk(v.geo, v'.disk, new_, k); }
  }

  /** A file without clusters: nothing was freed, and whatever else happened no file notices. */
  lemma EmptyFileSurvives(v: Volume, v1: Volume, v': Volume, i: nat)
    requires EntryFreed(v, v1, i) && Harmless(v1, v') && !InRange(RootEntries(v)[i].first)
    ensures Harmless(v, v')
  {
  }

  /** After a failed overwriting the volume holds a file map exactly if the file survives, and then
      it is the same as before. The condition can be read off the entry before the call; for a
      write error the disk must not have holes. */
  lemma FailedOverwriteHoldsIff(v: Volume, v': Volume, files: Files, i: nat, n: nat, error: Error)
    requires Holds(v, files) && Abandoned(v, v', i, n, error) && (error == WriteFailed ==> Solid(v.disk))
    ensures HasMap(v') <==> Survives(v.geo, RootEntries(v)[i], error)
    ensures Survives(v.geo, RootEntries(v)[i], error) ==> Holds(v', files)
  {
    var e := RootEntries(v)[i];
    if Survives(v.geo, e, error) {
      SurvivorHolds(v, v', files, i, n, error);
      HasMapBy(v', files);
    } else {
      LostFileLeavesNoMap(v, v', files, i, n, error);
    }
  }

  lemma SurvivorHolds(v: Volume, v': Volume, files: Files, i: nat, n: nat, error: Error)
    requires Holds(v, files) && Abandoned(v, v', i, n, error) && Survives(v.geo, RootEntries(v)[i], error)
    ensures Holds(v', files)
  {
    var chains, contents :| Represents(v, chains, contents, files);
    var v1 := Freeing(v, v', i, n, error);
    if InRange(RootEntries(v)[i].first) {
      SurvivorRefines(v, v1, v', chains, contents, files, i);
      HoldsBy(v', chains[i := Shortened(chains[i])], contents, files);
    } else {
      EmptyFileSurvives(v, v1, v', i);
      HarmlessKeeps(v, v', chains, contents, files);
      HoldsBy(v', chains, contents, files);
    }
  }

  lemma LostFileLeavesNoMap(v: Volume, v': Volume, files: Files, i: nat, n: nat, error: Error)
    requires Holds(v, files) && Abandoned(v, v', i, n, error) && (error == WriteFailed ==> Solid(v.disk))
    requires !Survives(v.geo, RootEntries(v)[i], error)
    ensures !HasMap(v')
  {
    if HasMap(v') {
      var m :| Holds(v', m);
      LostFileHoldsNot(v, v', files, i, n, error, m);
    }
  }

  lemma LostFileHoldsNot(v: Volume, v': Volume, files: Files, i: nat, n: nat, error: Error, m: Files)
    requires Holds(v, files) && Abandoned(v, v', i, n, error) && (error == WriteFailed ==> Solid(v.disk))
    requires !Survives(v.geo, RootEntries(v)[i], error)
    ensures !Holds(v', m)
  {
    var cs, bytes := FoundEntry(v, files, i);
    var v1 := Freeing(v, v', i, n, error);
    assert RootEntries(v') == RootEntries(v);
    if Holds(v', m) {
      var chain, now := FoundEntry(v', m, i);
      if error == WriteFailed {
        var new_ :| |new_| == n && HalfWritten(v1, v', new_);
        HalfWrittenHoldsNot(v, v1, v', i, cs, bytes, new_, chain, now);
      } else {
        CutFileHoldsNot(v, v1, v', i, cs, bytes, chain, now);
      }
    }
  }

  /** Overwriting a file without room for the new contents: it fails, the file is cut to its first
      cluster, and the file map is kept exactly if nothing was cut. */
  lemma OverwriteWithoutRoom(v: Volume, v': Volume, files: Files, i: nat, name: Name, data: seq<Byte>, r: Result<()>)
    requires Holds(v, files) && WriteResult(v, i, name, data, r, v')
    requires data != [] && !HasRoom(v, i, ClustersFor(v.geo, |data|))
    ensures r.Err? && v'.disk == v.disk && Key(name) in files
    ensures exists walk :: ReadFrom(v', i, name, walk, Ok(Head(files[Key(name)], ClusterSize(v.geo))))
    ensures HasMap(v') <==> Survives(v.geo, RootEntries(v)[i], r.error)
    ensures Survives(v.geo, RootEntries(v)[i], r.error) ==> Holds(v', files)
  {
    ChainsCanBeFreed(v, files);
    var n := ClustersFor(v.geo, |data|);
    FailedOverwriteReads(v, v', files, i, name, n, r.error);
    FailedOverwriteHoldsIff(v, v', files, i, n, r.error);
  }

  // ---------------------------------------------------------------------------
  // A file that is cut

  /** A disk of five sectors: boot sector, one copy of a table in which only clusters 2 and 3 are
      used by a file and all others are taken, a root directory, and the two clusters. */
  function TinyVolume(full: seq<Byte>, boot: Sector, root: Sector, a: Sector, b: Sector): Volume
    requires |full| == 512
  {
    var cache := Set(full, 2, 3);
    Volume(Geometry(1, 1, 1, 16, 1), cache, map[0 := boot, 1 := cache, 2 := root, 3 := a, 4 := b])
  }

  lemma FullEntry(full: seq<Byte>, c: nat)
    requires |full| == 512 && (forall k | 0 <= k < 512 :: full[k] == 255) && c < 341
    ensures Get(full, c) == 4095
  {
  }

  lemma TinyTable(full: seq<Byte>, fat: seq<nat>)
    requires |full| == 512 && (forall k | 0 <= k < 512 :: full[k] == 255) && fat == Entries(Set(full, 2, 3))
    ensures |fat| == 341 && forall c | 0 <= c < 341 :: fat[c] == if c == 2 then 3 else 4095
  {
    SetIsUpdate(full, 2, 3);
    forall c | 0 <= c < 341 ensures Entries(full)[c] == 4095 { FullEntry(full, c); }
  }

  lemma OneSector(disk: Disk, l: nat)
    requires l in disk
    ensures ReadRange(disk, l, 1) == disk[l]
  {
    assert ReadRange(disk, l, 0) == [];
  }

  lemma TinyRoot(full: seq<Byte>, boot: Sector, root: Sector, a: Sector, b: Sector, e: Entry)
    requires |full| == 512 && LaidOut(root, [e]) && !IsEnd(e) && Visible(e)
    ensures RootEntries(TinyVolume(full, boot, root, a, b)) == [e]
  {
    var v := TinyVolume(full, boot, root, a, b);
    OneSector(v.disk, 2);
    ParseLaidOut(root, [e], 16);
    ListedOne(e);
  }

  lemma TinyFile(full: seq<Byte>, boot: Sector, root: Sector, a: Sector, b: Sector, e: Entry)
    requires |full| == 512 && (forall k | 0 <= k < 512 :: full[k] == 255)
    requires e.first == 2 && 512 < e.size <= 1024
    ensures FileAt(TinyVolume(full, boot, root, a, b), e, [2, 3], (a + b)[..e.size])
  {
    var v, cs := TinyVolume(full, boot, root, a, b), [2, 3];
    TinyTable(full, Fat(v));
    assert ClusterSector(v.geo, 2) == 3 && ClusterSector(v.geo, 3) == 4;
    OneSector(v.disk, 3);
    OneSector(v.disk, 4);
    assert cs[..1] == [2] && [2][..0] == [];
    assert ChainData(v, [2]) == a;
    assert ChainData(v, cs) == a + b;
    assert IsChain(Fat(v), cs);
  }

  lemma TinyHolds(full: seq<Byte>, boot: Sector, root: Sector, a: Sector, b: Sector, e: Entry)
    requires |full| == 512 && (forall k | 0 <= k < 512 :: full[k] == 255)
    requires LaidOut(root, [e]) && !IsEnd(e) && Visible(e) && e.first == 2 && 512 < e.size <= 1024
    ensures Holds(TinyVolume(full, boot, root, a, b), map[EntryKey(e) := (a + b)[..e.size]])
  {
    var v, bytes := TinyVolume(full, boot, root, a, b), (a + b)[..e.size];
    TinyRoot(full, boot, root, a, b, e);
    TinyFile(full, boot, root, a, b, e);
    assert LayoutOk(v);
    assert Keys([e]) == [EntryKey(e)];
    HoldsBy(v, [[2, 3]], [bytes], map[EntryKey(e) := bytes]);
  }

  lemma TinyRoom(full: seq<Byte>, boot: Sector, root: Sector, a: Sector, b: Sector, e: Entry)
    requires |full| == 512 && (forall k | 0 <= k < 512 :: full[k] == 255)
    requires LaidOut(root, [e]) && !IsEnd(e) && Visible(e) && e.first == 2 && 512 < e.size <= 1024
    ensures var v := TinyVolume(full, boot, root, a, b);
            |RootEntries(v)| == 1 && forall n | n > 2 :: !HasRoom(v, 0, n)
  {
    var v := TinyVolume(full, boot, root, a, b);
    TinyRoot(full, boot, root, a, b, e);
    TinyFile(full, boot, root, a, b, e);
    FreeingAFile(v, e, [2, 3], (a + b)[..e.size]);
    TinyTable(full, Fat(v));
    assert FreeClusters(ZeroAll(Fat(v), [2, 3])) == {2, 3};
  }

  /** Overwriting a file of two clusters with more than two, on a volume without another free
      cluster, fails and cuts the file down to one cluster; the volume then holds no file map. */
  lemma TwoClustersAreCut(full: seq<Byte>, boot: Sector, root: Sector, a: Sector, b: Sector, e: Entry,
                          name: Name, data: seq<Byte>, r: Result<()>, v': Volume)
    requires |full| == 512 && (forall k | 0 <= k < 512 :: full[k] == 255)
    requires LaidOut(root, [e]) && !IsEnd(e) && Visible(e) && e.first == 2 && 512 < e.size <= 1024
    requires EntryKey(e) == Key(name) && |data| > 1024
    requires WriteResult(TinyVolume(full, boot, root, a, b), 0, name, data, r, v')
    ensures r.Err? && (exists walk :: ReadFrom(v', 0, name, walk, Ok(a))) && a != (a + b)[..e.size]
    ensures !HasMap(v')
  {
    TinyHolds(full, boot, root, a, b, e);
    TinyRoot(full, boot, root, a, b, e);
    TinyRoom(full, boot, root, a, b, e);
    FirstSector(a, b, e.size);
    LargeFileIsCut(TinyVolume(full, boot, root, a, b), e, (a + b)[..e.size], a, name, data, r, v');
  }

  lemma FirstSector(a: Sector, b: Sector, size: nat)
    requires 512 < size <= 1024
    ensures (a + b)[..size][..512] == a && a != (a + b)[..size] && |(a + b)[..size]| == size
  {
  }

  lemma LargeFileIsCut(v: Volume, e: Entry, bytes: seq<Byte>, head: seq<Byte>, name: Name, data: seq<Byte>, r: Result<()>, v': Volume)
    requires Holds(v, map[Key(name) := bytes]) && RootEntries(v) == [e] && v.geo.spc == 1
    requires InRange(e.first) && e.size == |bytes| > 512 && bytes[..512] == head && |data| > 1024
    requires (forall n | n > 2 :: !HasRoom(v, 0, n)) && WriteResult(v, 0, name, data, r, v')
    ensures r.Err? && (exists walk :: ReadFrom(v', 0, name, walk, Ok(head)))
    ensures !HasMap(v')
  {
    MoreThanTwo(v.geo, |data|);
    OverwriteWithoutRoom(v, v', map[Key(name) := bytes], 0, name, data, r);
  }

  lemma MoreThanTwo(g: Geometry, len: nat)
    requires g.spc == 1 && len > 1024
    ensures ClusterSize(g) == 512 && ClustersFor(g, len) > 2
  {
    CeilDivBounds(len, 512);
  }
}
