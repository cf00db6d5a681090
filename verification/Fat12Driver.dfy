/** The FAT12 driver: a cached table and a disk, changed in place. */
module Fat12Driver {
  import opened Basics
  import opened FatTable
  import opened DirectoryEntries
  import opened FatVolume
  import opened FatSteps

  /** Rounding up a quotient. */
  function CeilDiv(a: nat, b: nat): nat
    requires b > 0
  {
    (a + b - 1) / b
  }

  /** How many clusters a file of `len` bytes needs. */
  function ClustersFor(g: Geometry, len: nat): nat {
    if ClusterSize(g) == 0 then 0 else CeilDiv(len, ClusterSize(g))
  }

  lemma CeilDivBounds(a: nat, b: nat)
    requires b > 0
    ensures a <= CeilDiv(a, b) * b < a + b
  {
    var q, r := (a + b - 1) / b, (a + b - 1) % b;
    assert a + b - 1 == q * b + r;
  }

  /** `data` cut or filled up with zeros to `size` bytes. */
  function Padded(data: seq<Byte>, size: nat): (r: seq<Byte>)
    ensures |r| == size
  {
    seq(size, k requires 0 <= k < size => if k < |data| then data[k] else 0)
  }

  /** Table and disk changed at most in clusters that were free: no file notices. */
  ghost predicate Harmless(v: Volume, v': Volume) {
    && v'.geo == v.geo && v'.disk.Keys == v.disk.Keys && |v'.cache| == |v.cache|
    && BootKept(v, v') && CopiesKept(v, v')
    && RootEntries(v') == RootEntries(v)
    && (forall c | 0 <= c < |Fat(v)| && Fat(v)[c] != 0 :: Fat(v')[c] == Fat(v)[c])
    && (forall c | 2 <= c < |Fat(v)| && Fat(v)[c] != 0 :: ClusterData(v', c) == ClusterData(v, c))
  }

  lemma HarmlessToItself(v: Volume)
    ensures Harmless(v, v)
  {
  }

  /** An operation that only touched free clusters keeps every file. */
  lemma HarmlessKeeps(v: Volume, v': Volume, chains: seq<seq<nat>>, contents: seq<seq<Byte>>, files: Files)
    requires Represents(v, chains, contents, files) && Harmless(v, v')
    ensures Represents(v', chains, contents, files)
  {
    var es := RootEntries(v);
    forall i | 0 <= i < |es| ensures FileAt(v', es[i], chains[i], contents[i]) {
      ChainInTable(v, es[i], chains[i], contents[i]);
      FileKept(v, v', es[i], chains[i], contents[i]);
    }
  }

  // ---------------------------------------------------------------------------
  // Steps of building a chain

  /** The table after the clusters `cs` were allocated one by one from `fat`. */
  ghost predicate Allocated(fat: seq<nat>, cs: seq<nat>, fat': seq<nat>) {
    && |fat'| == |fat|
    && FirstFree(fat, cs)
    && (forall c | 0 <= c < |fat| :: fat'[c] == if c in cs then EOF else fat[c])
  }

  lemma AllocateOneMore(fat: seq<nat>, cs: seq<nat>, fat1: seq<nat>, c: nat)
    requires Allocated(fat, cs, fat1) && c in FreeClusters(fat1)
    requires forall d | d in FreeClusters(fat1) :: c <= d
    ensures Allocated(fat, cs + [c], fat1[c := EOF])
  {
    assert c !in cs;
    assert c in FreeClusters(fat);
    forall d, i | d in FreeClusters(fat) && d !in cs + [c] && 0 <= i < |cs + [c]| ensures (cs + [c])[i] < d {
      assert d in FreeClusters(fat1);
    }
  }

  /** What cluster `k` of the chain points to once the first `i` links are set. */
  function Target(cs: seq<nat>, i: nat, k: nat): nat
    requires k < |cs|
  {
    if k < i && k + 1 < |cs| then cs[k + 1] else EOF
  }

  /** The first `i` links of the chain `cs` are set, the others still mark the end. */
  ghost predicate LinkedUpTo(fat: seq<nat>, cs: seq<nat>, fat': seq<nat>, i: nat) {
    && |fat'| == |fat|
    && FirstFree(fat, cs)
    && (forall k | 0 <= k < |cs| :: fat'[cs[k]] == Target(cs, i, k))
    && (forall c | 0 <= c < |fat| && c !in cs :: fat'[c] == fat[c])
  }

  lemma LinkOneMore(fat: seq<nat>, cs: seq<nat>, fat1: seq<nat>, i: nat)
    requires LinkedUpTo(fat, cs, fat1, i) && i + 1 < |cs|
    ensures LinkedUpTo(fat, cs, fat1[cs[i] := cs[i + 1]], i + 1)
  {
    FreeBounds(fat, cs);
    var fat2 := fat1[cs[i] := cs[i + 1]];
    forall k | 0 <= k < |cs| ensures fat2[cs[k]] == Target(cs, i + 1, k) {
      assert k != i ==> cs[k] != cs[i];
    }
  }

  lemma LinkFits(fat: seq<nat>, cs: seq<nat>, fat1: seq<nat>, i: nat)
    requires LinkedUpTo(fat, cs, fat1, i) && i + 1 < |cs|
    ensures cs[i] < |fat1| && cs[i + 1] % 4096 == cs[i + 1]
  {
    FreeBounds(fat, cs);
  }

  lemma LinkedIsBuilt(fat: seq<nat>, cs: seq<nat>, fat': seq<nat>)
    requires cs != [] && LinkedUpTo(fat, cs, fat', |cs| - 1)
    ensures ChainBuilt(fat, cs, fat')
  {
    FreeBounds(fat, cs);
    assert Distinct(cs);
    assert forall i | 0 <= i < |cs| :: fat'[cs[i]] == Target(cs, |cs| - 1, i);
  }

  lemma FreeBounds(fat: seq<nat>, cs: seq<nat>)
    requires FirstFree(fat, cs)
    ensures forall i | 0 <= i < |cs| :: 2 <= cs[i] < SCAN_END && cs[i] < |fat|
    ensures AllClusters(cs)
  {
    forall i | 0 <= i < |cs| ensures 2 <= cs[i] < SCAN_END && cs[i] < |fat| { assert cs[i] in FreeClusters(fat); }
  }

  lemma StartLinks(fat: seq<nat>, cs: seq<nat>, fat': seq<nat>)
    requires Allocated(fat, cs, fat')
    ensures LinkedUpTo(fat, cs, fat', 0)
  {
    FreeBounds(fat, cs);
  }

  lemma LastLink(fat: seq<nat>, cs: seq<nat>, fat': seq<nat>)
    requires cs != [] && LinkedUpTo(fat, cs, fat', |cs| - 1)
    ensures cs[|cs| - 1] < |fat'| && fat'[cs[|cs| - 1] := EOF] == fat'
  {
    FreeBounds(fat, cs);
    assert fat'[cs[|cs| - 1]] == Target(cs, |cs| - 1, |cs| - 1);
  }

  lemma {:induction false} AscendingBound(fat: seq<nat>, cs: seq<nat>, n: nat)
    requires FirstFree(fat, cs) && n <= |cs|
    ensures n + 2 <= SCAN_END && (n > 0 ==> cs[n - 1] >= n + 1)
  {
    if n > 0 {
      assert cs[n - 1] in FreeClusters(fat);
      AscendingBound(fat, cs, n - 1);
    }
  }

  lemma SizeBound(n: nat, spc: nat, len: nat)
    requires n + 2 <= SCAN_END && spc < 256 && len <= n * (spc * SECTOR_SIZE)
    ensures len < 0x1_0000_0000
  {
    assert n * (spc * SECTOR_SIZE) <= SCAN_END * (spc * SECTOR_SIZE);
  }

  lemma ChunkIsPaddedSlice(data: seq<Byte>, i: nat, size: nat)
    requires i * size <= |data|
    ensures var end := if i * size + size < |data| then i * size + size else |data|;
            Padded(data[i * size..end], size) == Chunk(data, i, size)
  {
  }

  lemma AllocatedCount(fat: seq<nat>, cs: seq<nat>, fat': seq<nat>)
    requires Allocated(fat, cs, fat')
    ensures |FreeClusters(fat')| == |FreeClusters(fat)| - |cs|
  {
    FreeBounds(fat, cs);
    DistinctCount(cs);
    forall c | c in cs ensures c in FreeClusters(fat) {}
    assert Members(cs) <= FreeClusters(fat);
    assert FreeClusters(fat') == FreeClusters(fat) - Members(cs);
  }

  lemma AllTaken(fat: seq<nat>, cs: seq<nat>, fat': seq<nat>)
    requires Allocated(fat, cs, fat') && FreeClusters(fat') == {}
    ensures fat' == Drained(fat)
  {
    forall c | 0 <= c < |fat| ensures fat'[c] == Drained(fat)[c] {
      assert c in FreeClusters(fat) && c !in cs ==> c in FreeClusters(fat');
    }
  }

  lemma NothingLeft(fat: seq<nat>)
    ensures FreeClusters(Drained(fat)) == {}
  {
    forall c | 0 <= c < |fat| ensures c !in FreeClusters(Drained(fat)) {}
  }

  /** An allocation that ran out of clusters has taken all of them and written nothing. */
  ghost predicate Exhausted(v: Volume, v': Volume) {
    && v'.geo == v.geo && v'.disk == v.disk && |v'.cache| == |v.cache|
    && Fat(v') == Drained(Fat(v))
  }

  /** A chain of the lowest free clusters was built, and writing it stopped at one that is not on
      the disk. */
  ghost predicate HalfWritten(v: Volume, v': Volume, cs: seq<nat>) {
    && AllClusters(cs) && cs != [] && |v'.cache| == |v.cache|
    && ChainBuilt(Fat(v), cs, Fat(v')) && OnlyClusters(v, v', cs)
    && !ClustersOnDisk(v.geo, v.disk, cs)
  }

  /** What a failed storing of `n` clusters leaves behind. */
  ghost predicate LeftBehind(v: Volume, v': Volume, n: nat, error: Error) {
    if error == WriteFailed then exists cs :: |cs| == n && HalfWritten(v, v', cs) else Exhausted(v, v')
  }

  /** How many clusters are free after `n` of `free` were asked for. */
  function FreeAfter(free: nat, n: nat): nat { if free < n then 0 else free - n }

  lemma LeftBehindCount(v: Volume, v': Volume, n: nat, error: Error)
    requires LeftBehind(v, v', n, error) && ((error != WriteFailed) <==> |FreeClusters(Fat(v))| < n)
    ensures |FreeClusters(Fat(v'))| == FreeAfter(|FreeClusters(Fat(v))|, n)
  {
    if error == WriteFailed {
      var cs :| |cs| == n && HalfWritten(v, v', cs);
      ChainBuiltTakes(Fat(v), cs, Fat(v'));
    } else {
      NothingLeft(Fat(v));
    }
  }

  lemma NotBelow(fat: seq<nat>, a: seq<nat>, b: seq<nat>, k: nat)
    requires FirstFree(fat, a) && FirstFree(fat, b) && k < |a| && k < |b| && a[..k] == b[..k]
    ensures a[k] >= b[k]
  {
    forall j | 0 <= j < k ensures b[j] < a[k] { assert a[..k][j] == b[..k][j]; }
    assert a[k] in FreeClusters(fat);
    if a[k] in b {
      var j :| 0 <= j < |b| && b[j] == a[k];
    }
  }

  /** There is only one list of the `n` lowest free clusters. */
  lemma {:induction false} FirstFreeIsUnique(fat: seq<nat>, a: seq<nat>, b: seq<nat>, k: nat)
    requires FirstFree(fat, a) && FirstFree(fat, b) && k <= |a| && k <= |b|
    ensures a[..k] == b[..k]
  {
    if k > 0 {
      FirstFreeIsUnique(fat, a, b, k - 1);
      NotBelow(fat, a, b, k - 1);
      NotBelow(fat, b, a, k - 1);
      assert a[..k] == a[..k - 1] + [a[k - 1]] && b[..k] == b[..k - 1] + [b[k - 1]];
    }
  }

  /** All these clusters lie on the disk. */
  ghost predicate ClustersOnDisk(g: Geometry, disk: Disk, cs: seq<nat>) {
    forall i | 0 <= i < |cs| :: cs[i] >= 2 && OnDisk(disk, ClusterSector(g, cs[i]), g.spc)
  }

  /** The `n` lowest free clusters of the table `fat` lie on the disk. */
  ghost predicate LowestOnDisk(g: Geometry, disk: Disk, fat: seq<nat>, n: nat) {
    forall cs | FirstFree(fat, cs) && |cs| == n :: ClustersOnDisk(g, disk, cs)
  }

  lemma LowestAre(g: Geometry, disk: Disk, fat: seq<nat>, cs: seq<nat>)
    requires FirstFree(fat, cs)
    ensures LowestOnDisk(g, disk, fat, |cs|) <==> ClustersOnDisk(g, disk, cs)
  {
    forall other | FirstFree(fat, other) && |other| == |cs| ensures other == cs {
      FirstFreeIsUnique(fat, cs, other, |cs|);
      assert cs[..|cs|] == cs && other[..|cs|] == other;
    }
  }

  /** The allocator knows nothing of the disk's size: a cluster of a disk with `total` sectors
      lies on it exactly if it ends before that. */
  lemma ClusterFitsDisk(g: Geometry, disk: Disk, total: nat, c: nat)
    requires c >= 2 && g.spc > 0 && forall l :: l in disk <==> l < total
    ensures OnDisk(disk, ClusterSector(g, c), g.spc) <==> ClusterSector(g, c) + g.spc <= total
  {
    var last := ClusterSector(g, c) + g.spc - 1;
    if OnDisk(disk, ClusterSector(g, c), g.spc) { assert last in disk; }
  }

  /** Table and disk changed at most in the clusters `cs`, all free before. */
  ghost predicate OnlyFreeTouched(v: Volume, v': Volume, cs: seq<nat>) {
    && AllClusters(cs) && |v'.cache| == |v.cache|
    && (forall i | 0 <= i < |cs| :: cs[i] < |Fat(v)| && Fat(v)[cs[i]] == 0)
    && (forall c | 0 <= c < |Fat(v)| && c !in cs :: Fat(v')[c] == Fat(v)[c])
    && OnlyClusters(v, v', cs)
  }

  lemma AllocatedTouchesFree(v: Volume, v': Volume, cs: seq<nat>)
    requires Allocated(Fat(v), cs, Fat(v')) && v'.geo == v.geo && v'.disk == v.disk && |v'.cache| == |v.cache|
    ensures OnlyFreeTouched(v, v', cs)
  {
    FreeBounds(Fat(v), cs);
    forall i | 0 <= i < |cs| ensures Fat(v)[cs[i]] == 0 { assert cs[i] in FreeClusters(Fat(v)); }
  }

  lemma BuiltTouchesFree(v: Volume, v': Volume, cs: seq<nat>)
    requires ChainBuilt(Fat(v), cs, Fat(v')) && |v'.cache| == |v.cache|
    requires AllClusters(cs) && OnlyClusters(v, v', cs)
    ensures OnlyFreeTouched(v, v', cs)
  {
    FreeBounds(Fat(v), cs);
    forall i | 0 <= i < |cs| ensures Fat(v)[cs[i]] == 0 { assert cs[i] in FreeClusters(Fat(v)); }
  }

  lemma BootSectorKept(v: Volume, v': Volume, cs: seq<nat>)
    requires AllClusters(cs) && OnlyClusters(v, v', cs) && v.geo.reserved >= 1
    ensures BootKept(v, v')
  {
    forall i | 0 <= i < |cs| ensures !InCluster(v.geo, 0, cs[i]) {
      if InCluster(v.geo, 0, cs[i]) { ClustersAreDisjoint(v.geo, 0, cs[i], cs[i]); }
    }
  }

  lemma TouchingFreeIsHarmless(v: Volume, v': Volume, cs: seq<nat>)
    requires OnlyFreeTouched(v, v', cs) && v.geo.reserved >= 1
    ensures Harmless(v, v')
  {
    SystemAreaKept(v, v', cs, RootStart(v.geo), RootSectors(v.geo));
    BootSectorKept(v, v', cs);
    forall k | 0 <= k < v.geo.numFats
      ensures ReadRange(v'.disk, CopyStart(v.geo, k), v.geo.fatSize) == ReadRange(v.disk, CopyStart(v.geo, k), v.geo.fatSize)
    {
      CopiesEnd(v.geo, k);
      SystemAreaKept(v, v', cs, CopyStart(v.geo, k), v.geo.fatSize);
    }
    forall c | 2 <= c < |Fat(v)| && Fat(v)[c] != 0 ensures ClusterData(v', c) == ClusterData(v, c) {
      OtherClustersKept(v, v', cs, c);
    }
  }

  lemma ChunkStarts(len: nat, size: nat, n: nat)
    requires size > 0 && n * size < len + size
    ensures forall i | 0 <= i < n :: i * size <= len
  {
    forall i | 0 <= i < n ensures i * size <= len { SlotsInOrder(i, n, size); }
  }

  lemma OnlyClustersAfter(v: Volume, v1: Volume, v2: Volume, cs: seq<nat>)
    requires v1.geo == v.geo && v1.disk == v.disk && AllClusters(cs) && OnlyClusters(v1, v2, cs)
    ensures OnlyClusters(v, v2, cs)
  {
  }

  lemma FilledIsStored(v': Volume, fat: seq<nat>, cs: seq<nat>, data: seq<Byte>)
    requires AllClusters(cs) && ChainBuilt(fat, cs, Fat(v')) && |data| <= |cs| * ClusterSize(v'.geo)
    requires forall i | 0 <= i < |cs| :: ClusterData(v', cs[i]) == Chunk(data, i, ClusterSize(v'.geo))
    requires forall i | 0 <= i < |cs| :: OnDisk(v'.disk, ClusterSector(v'.geo, cs[i]), v'.geo.spc)
    ensures Stored(v', fat, cs, data)
  {
    ChunksHoldData(v', cs, data);
    assert ChainData(v', cs)[..|data|] == data;
  }

  lemma WidenToAll(d0: Disk, d1: Disk, g: Geometry, k: nat)
    requires k <= g.numFats && SameOutside(d0, d1, g.reserved, k * g.fatSize)
    ensures SameOutside(d0, d1, g.reserved, g.numFats * g.fatSize)
  {
    if k < g.numFats { SlotsInOrder(k, g.numFats, g.fatSize); }
  }

  /** One more copy of the table written. */
  lemma CopyWritten(d0: Disk, d1: Disk, d2: Disk, g: Geometry, k: nat, cache: seq<Byte>)
    requires SameOutside(d0, d1, g.reserved, k * g.fatSize) && SameOutside(d1, d2, CopyStart(g, k), g.fatSize)
    requires forall j | 0 <= j < k :: ReadRange(d1, CopyStart(g, j), g.fatSize) == cache
    requires ReadRange(d2, CopyStart(g, k), g.fatSize) == cache
    ensures forall j | 0 <= j < k + 1 :: ReadRange(d2, CopyStart(g, j), g.fatSize) == cache
  {
    forall j | 0 <= j < k ensures ReadRange(d2, CopyStart(g, j), g.fatSize) == cache {
      CopiesInOrder(g, j, k);
      RangeKept(d1, d2, CopyStart(g, j), g.fatSize);
    }
  }

  lemma WidenSame(d0: Disk, d1: Disk, d2: Disk, g: Geometry, k: nat)
    requires SameOutside(d0, d1, g.reserved, k * g.fatSize)
    requires SameOutside(d1, d2, CopyStart(g, k), g.fatSize)
    ensures SameOutside(d0, d2, g.reserved, (k + 1) * g.fatSize)
  {
    assert (k + 1) * g.fatSize == k * g.fatSize + g.fatSize;
  }

  /** Only table copies and root directory may differ on disk. */
  ghost predicate SystemOnly(v: Volume, v': Volume) {
    && v'.geo == v.geo && v'.cache == v.cache && v'.disk.Keys == v.disk.Keys
    && (v.geo.reserved >= 1 ==> BootKept(v, v'))
    && (forall c | c >= 2 :: ClusterData(v', c) == ClusterData(v, c))
  }

  lemma SystemWrite(v: Volume, v': Volume, start: nat, n: nat)
    requires v'.geo == v.geo && v'.cache == v.cache && SameOutside(v.disk, v'.disk, start, n)
    requires v.geo.reserved <= start && start + n <= DataStart(v.geo)
    ensures SystemOnly(v, v')
  {
    forall c | c >= 2 ensures ClusterData(v', c) == ClusterData(v, c) {
      ClusterAboveSystem(v.geo, c);
      KeptAbove(v.disk, v'.disk, start, n, ClusterSector(v.geo, c), v.geo.spc);
    }
  }

  lemma ClusterAboveSystem(g: Geometry, c: nat)
    requires c >= 2
    ensures ClusterSector(g, c) >= DataStart(g)
  {
    assert (c - 2) * g.spc >= 0;
  }

  lemma KeptAbove(d: Disk, d': Disk, start: nat, n: nat, from: nat, count: nat)
    requires SameOutside(d, d', start, n) && start + n <= from
    ensures ReadRange(d', from, count) == ReadRange(d, from, count)
  {
    RangeKept(d, d', from, count);
  }

  lemma FlushKeepsRoot(v: Volume, v': Volume)
    requires v'.geo == v.geo && v'.cache == v.cache
    requires SameOutside(v.disk, v'.disk, v.geo.reserved, v.geo.numFats * v.geo.fatSize)
    ensures RootEntries(v') == RootEntries(v)
    ensures SystemOnly(v, v')
  {
    RangeKept(v.disk, v'.disk, RootStart(v.geo), RootSectors(v.geo));
    SystemWrite(v, v', v.geo.reserved, v.geo.numFats * v.geo.fatSize);
  }

  lemma RootWrite(v: Volume, v': Volume)
    requires v'.geo == v.geo && v'.cache == v.cache && SameOutside(v.disk, v'.disk, RootStart(v.geo), RootSectors(v.geo))
    ensures SystemOnly(v, v')
  {
    assert v.geo.numFats * v.geo.fatSize >= 0;
    SystemWrite(v, v', RootStart(v.geo), RootSectors(v.geo));
  }

  lemma RootWriteKeepsCopies(v: Volume, v': Volume)
    requires v'.geo == v.geo && v'.cache == v.cache && SameOutside(v.disk, v'.disk, RootStart(v.geo), RootSectors(v.geo))
    ensures CopiesKept(v, v')
  {
    forall k | 0 <= k < v.geo.numFats
      ensures ReadRange(v'.disk, CopyStart(v.geo, k), v.geo.fatSize) == ReadRange(v.disk, CopyStart(v.geo, k), v.geo.fatSize)
    {
      CopiesEnd(v.geo, k);
      RangeKept(v.disk, v'.disk, CopyStart(v.geo, k), v.geo.fatSize);
    }
  }

  lemma CommitEffect(v: Volume, v1: Volume, v2: Volume)
    requires v1.geo == v.geo && v1.cache == v.cache && SameOutside(v.disk, v1.disk, RootStart(v.geo), RootSectors(v.geo))
    requires v2.geo == v1.geo && v2.cache == v1.cache
    requires SameOutside(v1.disk, v2.disk, v1.geo.reserved, v1.geo.numFats * v1.geo.fatSize)
    ensures SystemOnly(v, v2) && RootEntries(v2) == RootEntries(v1)
  {
    RootWrite(v, v1);
    FlushKeepsRoot(v1, v2);
    forall c | c >= 2 ensures ClusterData(v2, c) == ClusterData(v, c) {}
  }

  /** One more record looked at. */
  lemma ListedFrom(rs: seq<Entry>, i: nat, before: seq<Entry>)
    requires i < |rs|
    ensures HasEnd(rs[i..]) <==> IsEnd(rs[i]) || HasEnd(rs[i + 1..])
    ensures before + Listed(rs[i..])
         == if IsEnd(rs[i]) then before
            else (if Visible(rs[i]) then before + [rs[i]] else before) + Listed(rs[i + 1..])
  {
    var rest := rs[i..];
    assert rest[0] == rs[i] && rest[1..] == rs[i + 1..];
  }

  const ATTR_ARCHIVE: Byte := 0x20
  const ATTR_DIRECTORY: Byte := 0x10

  lemma RootEntriesShown(v: Volume)
    ensures AllShown(RootEntries(v)) && |RootEntries(v)| <= v.geo.rootCount
  {
    ListedAreShown(Records(ReadRange(v.disk, RootStart(v.geo), RootSectors(v.geo)), v.geo.rootCount));
  }

  /** `cs` is a fresh chain holding `data`; nothing else has changed. */
  ghost predicate FreshChain(v: Volume, v1: Volume, cs: seq<nat>, data: seq<Byte>) {
    && cs != [] && cs[0] < 0x1_0000 && |data| < 0x1_0000_0000
    && Stored(v1, Fat(v), cs, data)
    && forall c | c >= 2 && c !in cs :: ClusterData(v1, c) == ClusterData(v, c)
  }

  /** What a stored chain means for the volume before the directory is rewritten. */
  lemma ChainStored(v: Volume, v1: Volume, cs: seq<nat>, data: seq<Byte>)
    requires LayoutOk(v) && |v1.cache| == |v.cache| && cs != []
    requires Stored(v1, Fat(v), cs, data) && OnlyClusters(v, v1, cs)
    ensures Harmless(v, v1) && LayoutOk(v1)
    ensures FreshChain(v, v1, cs, data)
  {
    BuiltTouchesFree(v, v1, cs);
    TouchingFreeIsHarmless(v, v1, cs);
    FreeBounds(Fat(v), cs);
    AscendingBound(Fat(v), cs, |cs|);
    SizeBound(|cs|, v.geo.spc, |data|);
    forall c | c >= 2 && c !in cs ensures ClusterData(v1, c) == ClusterData(v, c) { OtherClustersKept(v, v1, cs, c); }
  }

  lemma StoredKept(v1: Volume, v2: Volume, fat: seq<nat>, cs: seq<nat>, data: seq<Byte>)
    requires Stored(v1, fat, cs, data) && SystemOnly(v1, v2)
    ensures Stored(v2, fat, cs, data)
  {
    ChainDataKept(v1, v2, cs);
  }

  /** The root directory was rewritten with `e` added at the end. */
  ghost predicate Appended(v: Volume, v': Volume, e: Entry) {
    RootEntries(v') == Listed(Fitting(RootEntries(v) + [e], v.geo.rootCount))
  }

  /** A new record for the name would be listed: the name is shown and the directory is not full. */
  predicate Appears(v: Volume, name: Name) { Shows(name) && |RootEntries(v)| < v.geo.rootCount }

  /** The directory entries of files and of directories. */
  predicate FileOrDirectory(attr: Byte) { attr == ATTR_ARCHIVE || attr == ATTR_DIRECTORY }

  /** An appended entry never hides another one. It is listed exactly if it appears, and found under
      its name exactly if that name also is a good one. */
  lemma {:induction false} AppendedKeys(es: seq<Entry>, es': seq<Entry>, name: Name, e: Entry, room: nat)
    requires EncodeName(name).Ok? && e.name == EncodeName(name).value && FileOrDirectory(e.attr)
    requires AllShown(es) && |es| <= room && Key(name) !in Keys(es) && es' == Listed(Fitting(es + [e], room))
    ensures es' == if Shows(name) && |es| < room then es + [e] else es
    ensures Key(name) in Keys(es') <==> GoodName(name) && |es| < room
  {
    AppendedList(es, es', name, e, room);
    GoodNameIff(name);
    AppendedKey(es, e, Shows(name) && |es| < room, Key(name));
  }

  lemma {:induction false} AppendedList(es: seq<Entry>, es': seq<Entry>, name: Name, e: Entry, room: nat)
    requires EncodeName(name).Ok? && e.name == EncodeName(name).value && FileOrDirectory(e.attr)
    requires AllShown(es) && |es| <= room && es' == Listed(Fitting(es + [e], room))
    ensures es' == if Shows(name) && |es| < room then es + [e] else es
    ensures EntryKey(e) == StoredKey(name)
  {
    NameIsShown(name, e);
    ListedFit(es, e, room);
  }

  lemma {:induction false} ListedFit(es: seq<Entry>, e: Entry, room: nat)
    requires AllShown(es) && |es| <= room
    ensures Listed(Fitting(es + [e], room)) == if !IsEnd(e) && Visible(e) && |es| < room then es + [e] else es
  {
    if |es| < room {
      ListedAppend(es, e);
    } else {
      ShownInFull(es);
      assert (es + [e])[..room] == es;
    }
  }

  lemma AppendedKey(es: seq<Entry>, e: Entry, shown: bool, key: Name)
    requires key !in Keys(es)
    ensures key in Keys(if shown then es + [e] else es) <==> shown && EntryKey(e) == key
  {
    KeysAppend(es, e);
    if EntryKey(e) == key { assert Keys(es + [e])[|es|] == key; }
  }

  /** What a new directory entry for a freshly stored chain means. */
  lemma EnteredFile(v: Volume, v1: Volume, v2: Volume, name: Name, data: seq<Byte>, cs: seq<nat>)
    requires data != [] && Harmless(v, v1) && FreshChain(v, v1, cs, data) && v.geo.reserved >= 1
    requires Key(name) !in Keys(RootEntries(v)) && EncodeName(name).Ok? && SystemOnly(v1, v2)
    requires Appended(v1, v2, NewEntry(EncodeName(name).value, ATTR_ARCHIVE, cs[0], |data|))
    ensures EnteredAs(v, v2, name)
    ensures if Appears(v, name) then Created(v, v2, name, data) else Hidden(v, v2, data)
  {
    RootEntriesShown(v1);
    var e := NewEntry(EncodeName(name).value, ATTR_ARCHIVE, cs[0], |data|);
    AppendedKeys(RootEntries(v1), RootEntries(v2), name, e, v.geo.rootCount);
    StoredKept(v1, v2, Fat(v), cs, data);
    ChainCommitted(v, v1, v2, cs, data);
    if Appears(v, name) {
      assert CreateStep(v, v2, name, data, ATTR_ARCHIVE, cs);
    } else {
      assert HiddenStep(v, v2, data, cs);
    }
  }

  lemma ChainCommitted(v: Volume, v1: Volume, v2: Volume, cs: seq<nat>, data: seq<Byte>)
    requires Harmless(v, v1) && FreshChain(v, v1, cs, data) && SystemOnly(v1, v2) && v.geo.reserved >= 1
    ensures Committed(v, v2, RootEntries(v2), cs)
  {
    forall c | c >= 2 && c !in cs ensures ClusterData(v2, c) == ClusterData(v, c) {}
  }

  /** Inside a chain every next entry is a cluster; only the last one marks the end. */
  lemma LastOfChain(fat: seq<nat>, cs: seq<nat>, k: nat)
    requires IsChain(fat, cs) && 0 < k <= |cs| && fat[cs[k - 1]] >= EOF
    ensures k == |cs| && cs[..k] == cs
  {
    forall i | 0 <= i < |cs| - 1 ensures fat[cs[i]] < EOF { assert InRange(cs[i + 1]); }
  }

  /** `v1` is `v` with the chain of entry `i` freed in the cache. */
  ghost predicate EntryFreed(v: Volume, v1: Volume, i: nat) {
    && i < |RootEntries(v)|
    && v1.geo == v.geo && v1.disk == v.disk && |v1.cache| == |v.cache|
    && Freed(v, RootEntries(v)[i]) == Some(Fat(v1))
  }

  lemma TruncatedStep(v: Volume, v1: Volume, v2: Volume, i: nat)
    requires EntryFreed(v, v1, i) && SystemOnly(v1, v2) && v.geo.reserved >= 1
    requires RootEntries(v2) == RootEntries(v)[i := WithData(RootEntries(v)[i], 0, 0)]
    ensures TruncateStep(v, v2, i)
  {
    forall c | c >= 2 ensures ClusterData(v2, c) == ClusterData(v, c) { assert ClusterData(v1, c) == ClusterData(v, c); }
  }

  lemma WrittenStep(v: Volume, v1: Volume, v2: Volume, v3: Volume, i: nat, data: seq<Byte>, cs: seq<nat>)
    requires EntryFreed(v, v1, i) && v.geo.reserved >= 1 && BootKept(v1, v2)
    requires v2.geo == v1.geo && v2.disk.Keys == v1.disk.Keys && |v2.cache| == |v1.cache|
    requires FreshChain(v1, v2, cs, data) && SystemOnly(v2, v3) && data != []
    requires RootEntries(v3) == RootEntries(v)[i := WithData(RootEntries(v)[i], cs[0], |data|)]
    ensures WriteStep(v, v3, i, data, cs)
  {
    StoredKept(v2, v3, Fat(v1), cs, data);
    forall c | c >= 2 && c !in cs ensures ClusterData(v3, c) == ClusterData(v, c) {
      assert ClusterData(v1, c) == ClusterData(v, c);
    }
  }

  lemma {:induction false} RenamedList(es: seq<Entry>, i: nat, name: Name)
    requires AllShown(es) && i < |es| && EncodeName(name).Ok?
    ensures Listed(es[i := WithName(es[i], EncodeName(name).value)]) == AfterRename(es, i, name)
  {
    StoredFirst(name);
    ListedUpdate(es, i, WithName(es[i], EncodeName(name).value));
  }

  /** A renamed file is found under its new name exactly if that name is a good one. */
  lemma {:induction false} RenamedKeys(es: seq<Entry>, i: nat, name: Name)
    requires AllShown(es) && i < |es| && EncodeName(name).Ok? && Key(name) !in Keys(es)
    ensures Key(name) in Keys(AfterRename(es, i, name)) <==> GoodName(name)
  {
    var e := WithName(es[i], EncodeName(name).value);
    StoredFirst(name);
    NameIsShown(name, e);
    RenamedKey(es, i, e, Key(name));
  }

  lemma RenamedKey(es: seq<Entry>, i: nat, e: Entry, key: Name)
    requires i < |es| && key !in Keys(es)
    ensures key in Keys(es[i := e]) <==> EntryKey(e) == key
    ensures key !in Keys(es[..i]) && key !in Keys(Remove(es, i))
  {
    KeysUpdate(es, i, e);
    if EntryKey(e) == key { assert Keys(es[i := e])[i] == key; }
    assert Keys(es[..i]) == Keys(es)[..i];
  }

  /** Every other file stays exactly if the new name does not start with a zero byte or no entry
      follows the renamed one. */
  lemma RenameHides(es: seq<Entry>, i: nat, name: Name)
    requires i < |es| && EncodeName(name).Ok? && AllDifferent(Keys(es))
    ensures (forall k | 0 <= k < |es| && k != i :: Keys(es)[k] in Keys(AfterRename(es, i, name)))
       <==> (!StartsWithZero(name) || i + 1 == |es|)
  {
    var es' := AfterRename(es, i, name);
    if StartsWithZero(name) {
      if i + 1 < |es| { assert Keys(es)[i + 1] !in Keys(es'); }
    }
    forall k | 0 <= k < |es| && k != i && (!StartsWithZero(name) || i + 1 == |es|) ensures Keys(es)[k] in Keys(es') {
      OtherStays(es, i, name, k);
    }
  }

  lemma OtherStays(es: seq<Entry>, i: nat, name: Name, k: nat)
    requires i < |es| && EncodeName(name).Ok? && k < |es| && k != i
    requires !StartsWithZero(name) || i + 1 == |es|
    ensures Keys(es)[k] in Keys(AfterRename(es, i, name))
  {
    var es' := AfterRename(es, i, name);
    var k' := if !Shows(name) && k > i then k - 1 else k;
    assert es'[k'] == es[k];
    assert Keys(es')[k'] == Keys(es)[k];
  }

  lemma RenamedStep(v: Volume, v2: Volume, i: nat, name: Name)
    requires SystemOnly(v, v2) && CopiesKept(v, v2) && v.geo.reserved >= 1
    requires i < |RootEntries(v)| && EncodeName(name).Ok?
    requires RootEntries(v2) == AfterRename(RootEntries(v), i, name)
    ensures RenameStep(v, v2, i, name)
  {
  }

  lemma DeletedStep(v: Volume, v1: Volume, v2: Volume, i: nat)
    requires EntryFreed(v, v1, i) && SystemOnly(v1, v2) && v.geo.reserved >= 1
    requires RootEntries(v2) == Remove(RootEntries(v), i)
    ensures DeleteStep(v, v2, i)
  {
    forall c | c >= 2 ensures ClusterData(v2, c) == ClusterData(v, c) { assert ClusterData(v1, c) == ClusterData(v, c); }
  }

  // ---------------------------------------------------------------------------
  // What the operations amount to

  /** Entry `i` has the given name. */
  predicate Named(v: Volume, i: nat, name: Name) {
    i < |RootEntries(v)| && Keys(RootEntries(v))[i] == Key(name)
  }

  /** What creating a file needs: free clusters that lie on the disk, a name that can be stored and
      is not taken, and room in the root directory. */
  ghost predicate CanCreate(v: Volume, name: Name, data: seq<Byte>) {
    && |FreeClusters(Fat(v))| >= ClustersFor(v.geo, |data|)
    && LowestOnDisk(v.geo, v.disk, Fat(v), ClustersFor(v.geo, |data|))
    && EncodeName(name).Ok? && Key(name) !in Keys(RootEntries(v)) && |RootEntries(v)| < RootRoom(v.geo)
  }

  /** Enough free clusters once the chain of entry `i` is freed. */
  predicate HasRoom(v: Volume, i: nat, n: nat)
    requires i < |RootEntries(v)|
  {
    match Freed(v, RootEntries(v)[i])
    case Some(fat) => |FreeClusters(fat)| >= n
    case None => false
  }

  /** What overwriting entry `i` needs: a chain that can be freed and, unless there is nothing to
      store, clusters after that, on the disk. */
  ghost predicate CanOverwrite(v: Volume, i: nat, data: seq<Byte>)
    requires i < |RootEntries(v)|
  {
    match Freed(v, RootEntries(v)[i])
    case Some(fat) =>
      data == [] || var n := ClustersFor(v.geo, |data|); |FreeClusters(fat)| >= n && LowestOnDisk(v.geo, v.disk, fat, n)
    case None => false
  }

  lemma OverwriteNeeds(v: Volume, v1: Volume, i: nat, data: seq<Byte>)
    requires EntryFreed(v, v1, i) && data != []
    ensures var n := ClustersFor(v1.geo, |data|);
            && (HasRoom(v, i, n) <==> |FreeClusters(Fat(v1))| >= n)
            && (CanOverwrite(v, i, data) <==> HasRoom(v, i, n) && LowestOnDisk(v1.geo, v1.disk, Fat(v1), n))
  {
  }

  /** What a failed overwriting of entry `i` with `n` clusters leaves: its chain is freed in the
      cache, and besides only clusters that were then free have changed. */
  ghost predicate Abandoned(v: Volume, v': Volume, i: nat, n: nat, error: Error) {
    exists v1 :: EntryFreed(v, v1, i) && Harmless(v1, v') && LeftBehind(v1, v', n, error)
  }

  lemma AbandonedBy(v: Volume, v1: Volume, v': Volume, i: nat, n: nat, error: Error)
    requires EntryFreed(v, v1, i) && Harmless(v1, v') && LeftBehind(v1, v', n, error)
    ensures Abandoned(v, v', i, n, error)
  {
  }

  /** No entry was lost, and there is one for `name` exactly if that name is a good one and the
      directory was not full. */
  predicate EnteredAs(v: Volume, v': Volume, name: Name) {
    && RootEntries(v) <= RootEntries(v')
    && (Key(name) in Keys(RootEntries(v')) <==> GoodName(name) && |RootEntries(v)| < v.geo.rootCount)
  }

  ghost predicate Hidden(v: Volume, v': Volume, data: seq<Byte>) {
    exists cs :: HiddenStep(v, v', data, cs)
  }

  ghost predicate Created(v: Volume, v': Volume, name: Name, data: seq<Byte>) {
    exists cs :: CreateStep(v, v', name, data, ATTR_ARCHIVE, cs)
  }

  ghost predicate Overwritten(v: Volume, v': Volume, i: nat, data: seq<Byte>) {
    if data == [] then TruncateStep(v, v', i) else exists cs :: WriteStep(v, v', i, data, cs)
  }

  /** The result of overwriting entry `i`: it succeeds exactly if it can, and stores `data`; it fails
      for want of clusters exactly when the free ones and the file's own are too few, and then
      leaves the disk alone; a failure touches nothing but the file's and free clusters. */
  ghost predicate WriteResult(v: Volume, i: nat, name: Name, data: seq<Byte>, r: Result<()>, v': Volume) {
    && Named(v, i, name) && r != Err(NotFound)
    && (r.Ok? <==> CanOverwrite(v, i, data))
    && (r.Ok? ==> Overwritten(v, v', i, data) && Flushed(v'))
    && (data != [] ==> ((r.Err? && r.error != WriteFailed) <==> !HasRoom(v, i, ClustersFor(v.geo, |data|))))
    && (r.Err? && r.error != WriteFailed ==> v'.disk == v.disk)
    && (r.Err? && Freed(v, RootEntries(v)[i]).Some? ==> Abandoned(v, v', i, ClustersFor(v.geo, |data|), r.error))
  }

  /** The result of appending to a file of which `existing` was read: that of overwriting it with both
      together, or the error of reading it. */
  ghost predicate AppendResult(v: Volume, i: nat, name: Name, data: seq<Byte>, existing: Result<seq<Byte>>, r: Result<()>, v': Volume) {
    && (Key(name) !in Keys(RootEntries(v)) ==> existing == Err(NotFound))
    && (Key(name) in Keys(RootEntries(v)) ==> exists k, cs :: ReadFrom(v, k, name, cs, existing))
    && match existing
       case Ok(bytes) => WriteResult(v, i, name, bytes + data, r, v')
       case Err(e) => r == Err(e) && v' == v
  }

  /** The result of creating a file that has contents: it succeeds exactly if it can, and then loses
      no entry and adds one if it appears; a failure leaves every file alone. Either way the clusters
      asked for are taken, or all of them if there are too few. */
  ghost predicate CreateResult(v: Volume, name: Name, data: seq<Byte>, r: Result<()>, v': Volume) {
    && (r.Ok? <==> CanCreate(v, name, data))
    && (r.Ok? ==> Flushed(v') && EnteredAs(v, v', name))
    && (r.Ok? ==> if Appears(v, name) then Created(v, v', name, data) else Hidden(v, v', data))
    && (r.Err? ==> Harmless(v, v'))
    && |FreeClusters(Fat(v'))| == FreeAfter(|FreeClusters(Fat(v))|, ClustersFor(v.geo, |data|))
  }

  lemma NotStored(v: Volume, name: Name, data: seq<Byte>, error: Error, v': Volume)
    requires Harmless(v, v') && LeftBehind(v, v', ClustersFor(v.geo, |data|), error)
    requires (error != WriteFailed) <==> |FreeClusters(Fat(v))| < ClustersFor(v.geo, |data|)
    requires !(|FreeClusters(Fat(v))| >= ClustersFor(v.geo, |data|)
               && LowestOnDisk(v.geo, v.disk, Fat(v), ClustersFor(v.geo, |data|)))
    ensures CreateResult(v, name, data, Err(error), v')
  {
    LeftBehindCount(v, v', ClustersFor(v.geo, |data|), error);
  }

  lemma Entered(v: Volume, v1: Volume, name: Name, data: seq<Byte>, r: Result<()>, v': Volume)
    requires |FreeClusters(Fat(v))| >= ClustersFor(v.geo, |data|)
    requires LowestOnDisk(v.geo, v.disk, Fat(v), ClustersFor(v.geo, |data|)) && Harmless(v, v1)
    requires |FreeClusters(Fat(v1))| == |FreeClusters(Fat(v))| - ClustersFor(v.geo, |data|)
    requires v'.cache == v1.cache && (r.Err? ==> v' == v1)
    requires r.Ok? <==> EncodeName(name).Ok? && Key(name) !in Keys(RootEntries(v)) && |RootEntries(v)| < RootRoom(v.geo)
    requires r.Ok? ==> Flushed(v') && EnteredAs(v, v', name)
    requires r.Ok? ==> if Appears(v, name) then Created(v, v', name, data) else Hidden(v, v', data)
    ensures CreateResult(v, name, data, r, v')
  {
  }

  lemma FreshChainCount(v: Volume, v1: Volume, cs: seq<nat>, data: seq<Byte>)
    requires FreshChain(v, v1, cs, data)
    ensures |FreeClusters(Fat(v1))| == |FreeClusters(Fat(v))| - |cs|
  {
    ChainBuiltTakes(Fat(v), cs, Fat(v1));
  }

  lemma NamesAgree(v: Volume, files: Files, key: Name)
    requires Holds(v, files)
    ensures LayoutOk(v) && (key in files <==> key in Keys(RootEntries(v)))
  {
    var chains, contents :| Represents(v, chains, contents, files);
  }

  /** What is known of the entry found for a name. */
  lemma FoundEntry(v: Volume, files: Files, i: nat) returns (cs: seq<nat>, bytes: seq<Byte>)
    requires Holds(v, files) && i < |RootEntries(v)|
    ensures FileAt(v, RootEntries(v)[i], cs, bytes)
    ensures Keys(RootEntries(v))[i] in files && files[Keys(RootEntries(v))[i]] == bytes
  {
    var chains, contents :| Represents(v, chains, contents, files);
    cs, bytes := chains[i], contents[i];
  }

  lemma ChainsCanBeFreed(v: Volume, files: Files)
    requires Holds(v, files)
    ensures forall i | 0 <= i < |RootEntries(v)| :: Freed(v, RootEntries(v)[i]).Some?
  {
    forall i | 0 <= i < |RootEntries(v)| ensures Freed(v, RootEntries(v)[i]).Some? {
      var cs, bytes := FoundEntry(v, files, i);
      FreeingAFile(v, RootEntries(v)[i], cs, bytes);
    }
  }

  // ---------------------------------------------------------------------------
  // Reading along the links

  /** The bytes of the clusters visited in turn, or the error at the first cluster that is not on
      the disk or not in the table. */
  function WalkData(v: Volume, cs: seq<nat>): Result<seq<Byte>> {
    if cs == [] || cs[0] < 2 then Ok([])
    else if !OnDisk(v.disk, ClusterSector(v.geo, cs[0]), v.geo.spc) then Err(ReadFailed)
    else if cs[0] >= |Fat(v)| then Err(OutOfBounds)
    else Behind(ClusterData(v, cs[0]), WalkData(v, cs[1..]))
  }

  function Behind(data: seq<Byte>, r: Result<seq<Byte>>): Result<seq<Byte>> {
    match r
    case Ok(rest) => Ok(data + rest)
    case Err(e) => Err(e)
  }

  function Cut(r: Result<seq<Byte>>, size: nat): Result<seq<Byte>> {
    match r
    case Ok(data) => Ok(if size < |data| then data[..size] else data)
    case Err(e) => Err(e)
  }

  lemma BeforeWalk(r: Result<seq<Byte>>)
    ensures Behind([], r) == r
  {
    if r.Ok? { Assoc(r.value, [], []); }
  }

  lemma AfterWalk(data: seq<Byte>)
    ensures Behind(data, Ok([])) == Ok(data)
  {
    Assoc(data, [], []);
  }

  lemma {:induction false} WalkStep(v: Volume, c: nat, cs: seq<nat>, before: seq<Byte>)
    requires InRange(c) && IsWalk(Fat(v), c, cs)
    ensures Behind(before, WalkData(v, cs))
         == if !OnDisk(v.disk, ClusterSector(v.geo, c), v.geo.spc) then Err(ReadFailed)
            else if c >= |Fat(v)| then Err(OutOfBounds)
            else Behind(before + ClusterData(v, c), WalkData(v, cs[1..]))
  {
    var rest := WalkData(v, cs[1..]);
    if rest.Ok? { Assoc(before, ClusterData(v, c), rest.value); }
  }

  /** The links of every file of that name end somewhere. */
  ghost predicate WalksEnd(v: Volume, name: Name) {
    forall i: nat {:trigger Named(v, i, name)} | Named(v, i, name) :: exists cs :: IsWalk(Fat(v), RootEntries(v)[i].first, cs)
  }

  /** What reading entry `i`, of that name, along the clusters `cs` gives. */
  ghost predicate ReadFrom(v: Volume, i: nat, name: Name, cs: seq<nat>, r: Result<seq<Byte>>) {
    && Named(v, i, name) && IsWalk(Fat(v), RootEntries(v)[i].first, cs)
    && r == if RootEntries(v)[i].size == 0 then Ok([]) else Cut(WalkData(v, cs), RootEntries(v)[i].size)
  }

  lemma {:induction false} ChainDataFirst(v: Volume, cs: seq<nat>)
    requires AllClusters(cs) && cs != []
    ensures ChainData(v, cs) == ClusterData(v, cs[0]) + ChainData(v, cs[1..])
  {
    if |cs| == 1 {
      assert cs[..0] == [] && cs[1..] == [];
      Assoc(ClusterData(v, cs[0]), [], []);
    } else {
      var n := |cs| - 1;
      ChainDataFirst(v, cs[..n]);
      assert cs[..n][1..] == cs[1..][..n - 1];
      Assoc(ClusterData(v, cs[0]), ChainData(v, cs[1..][..n - 1]), ClusterData(v, cs[n]));
    }
  }

  lemma {:induction false} WalkDataOfChain(v: Volume, cs: seq<nat>)
    requires AllClusters(cs) && ClustersOnDisk(v.geo, v.disk, cs) && forall k | 0 <= k < |cs| :: cs[k] < |Fat(v)|
    ensures WalkData(v, cs) == Ok(ChainData(v, cs))
  {
    if cs != [] {
      WalkDataOfChain(v, cs[1..]);
      ChainDataFirst(v, cs);
    }
  }

  lemma FileIsWalk(v: Volume, e: Entry, cs: seq<nat>, bytes: seq<Byte>)
    requires FileAt(v, e, cs, bytes)
    ensures IsWalk(Fat(v), e.first, cs)
  {
    if cs != [] { ChainIsWalk(Fat(v), cs); }
  }

  lemma FileReads(v: Volume, e: Entry, cs: seq<nat>, bytes: seq<Byte>)
    requires FileAt(v, e, cs, bytes) && e.size != 0
    ensures Cut(WalkData(v, cs), e.size) == Ok(bytes)
  {
    assert cs != [];
    assert ClustersOnDisk(v.geo, v.disk, cs);
    WalkDataOfChain(v, cs);
    CutIsPrefix(ChainData(v, cs), e.size);
  }

  lemma CutIsPrefix(data: seq<Byte>, size: nat)
    requires size <= |data|
    ensures Cut(Ok(data), size) == Ok(data[..size])
  {
    assert data[..|data|] == data;
  }

  lemma ReadFromFile(v: Volume, files: Files, i: nat, name: Name, walk: seq<nat>, r: Result<seq<Byte>>)
    requires Holds(v, files) && ReadFrom(v, i, name, walk, r)
    ensures Key(name) in files && r == Ok(files[Key(name)])
  {
    var e := RootEntries(v)[i];
    var cs, bytes := FoundEntry(v, files, i);
    FileIsWalk(v, e, cs, bytes);
    WalkIsUnique(Fat(v), e.first, walk, cs);
    if e.size != 0 { FileReads(v, e, cs, bytes); }
  }

  lemma FilesEnd(v: Volume, files: Files, name: Name)
    requires Holds(v, files)
    ensures LayoutOk(v) && WalksEnd(v, name)
  {
    NamesAgree(v, files, Key(name));
    forall i: nat | Named(v, i, name) ensures exists cs :: IsWalk(Fat(v), RootEntries(v)[i].first, cs) {
      var cs, bytes := FoundEntry(v, files, i);
      FileIsWalk(v, RootEntries(v)[i], cs, bytes);
    }
  }

  /** On a volume that holds a file map, reading gives what the map says. */
  lemma ReadsFileMap(v: Volume, files: Files, name: Name, r: Result<seq<Byte>>)
    requires Holds(v, files)
    requires Key(name) !in Keys(RootEntries(v)) ==> r == Err(NotFound)
    requires Key(name) in Keys(RootEntries(v)) ==> exists i, cs :: ReadFrom(v, i, name, cs, r)
    ensures r == if Key(name) in files then Ok(files[Key(name)]) else Err(NotFound)
  {
    NamesAgree(v, files, Key(name));
    if Key(name) in files {
      var i, walk :| ReadFrom(v, i, name, walk, r);
      ReadFromFile(v, files, i, name, walk, r);
    }
  }

  lemma EntryIsNoEnd(v: Volume, i: nat)
    requires i < |RootEntries(v)|
    ensures !IsEnd(RootEntries(v)[i]) && Visible(RootEntries(v)[i])
  {
    RootEntriesShown(v);
  }

  class Driver {
    var initialized: bool
    var geo: Geometry
    var cache: seq<Byte>
    var disk: Disk

    ghost function V(): Volume
      reads this
    {
      Volume(geo, cache, disk)
    }

    constructor (disk: Disk)
      ensures !initialized && this.disk == disk
    {
      this.initialized := false;
      this.geo := Geometry(0, 0, 0, 0, 0);
      this.cache := [];
      this.disk := disk;
    }

    // -------------------------------------------------------------------------
    // Sectors and clusters

    method ReadSectors(start: nat, n: nat) returns (r: Result<seq<Byte>>)
      ensures r == if OnDisk(disk, start, n) then Ok(ReadRange(disk, start, n)) else Err(ReadFailed)
    {
      var data: seq<Byte> := [];
      for i := 0 to n
        invariant OnDisk(disk, start, i) && data == ReadRange(disk, start, i)
      {
        if start + i !in disk { return Err(ReadFailed); }
        data := data + disk[start + i];
      }
      return Ok(data);
    }

    /** Writes sector after sector; stops at the first sector the disk does not have. */
    method WriteSectors(start: nat, n: nat, data: seq<Byte>) returns (ok: bool)
      requires |data| == n * SECTOR_SIZE
      modifies this`disk
      ensures SameOutside(old(disk), disk, start, n)
      ensures ok <==> OnDisk(old(disk), start, n)
      ensures ok ==> ReadRange(disk, start, n) == data
    {
      for i := 0 to n
        invariant SameOutside(old(disk), disk, start, i)
        invariant OnDisk(old(disk), start, i)
        invariant ReadRange(disk, start, i) == data[..i * SECTOR_SIZE]
      {
        if start + i !in disk { return false; }
        var before := disk;
        disk := disk[start + i := data[i * SECTOR_SIZE..(i + 1) * SECTOR_SIZE]];
        RangeKept(before, disk, start, i);
        assert data[..(i + 1) * SECTOR_SIZE] == data[..i * SECTOR_SIZE] + data[i * SECTOR_SIZE..(i + 1) * SECTOR_SIZE];
      }
      assert data[..n * SECTOR_SIZE] == data;
      return true;
    }

    method ReadCluster(c: nat) returns (r: Result<seq<Byte>>)
      requires c >= 2
      ensures r == if OnDisk(disk, ClusterSector(geo, c), geo.spc) then Ok(ClusterData(V(), c)) else Err(ReadFailed)
    {
      r := ReadSectors(ClusterSector(geo, c), geo.spc);
    }

    method WriteCluster(c: nat, data: seq<Byte>) returns (ok: bool)
      requires c >= 2
      modifies this`disk
      ensures OnlyClusters(old(V()), V(), [c])
      ensures ok <==> OnDisk(old(disk), ClusterSector(geo, c), geo.spc)
      ensures ok ==> ClusterData(V(), c) == Padded(data, ClusterSize(geo))
    {
      ghost var before := V();
      ok := WriteSectors(ClusterSector(geo, c), geo.spc, Padded(data, ClusterSize(geo)));
      forall l | l in before.disk && (forall i | 0 <= i < |[c]| :: !InCluster(geo, l, [c][i]))
        ensures disk[l] == before.disk[l]
      {
        assert !InCluster(geo, l, [c][0]);
      }
    }

    /** Reads the boot sector and the first copy of the table. */
    method Init() returns (r: Result<()>)
      modifies this`initialized, this`geo, this`cache
      ensures match Mount(disk)
              case Ok(v) => r == Ok(()) && initialized && V() == v
              case Err(e) => r == Err(e) && V() == old(V()) && initialized == old(initialized)
    {
      if 0 !in disk { return Err(ReadFailed); }
      var boot := disk[0];
      if boot[510] != 0x55 || boot[511] != 0xAA { return Err(BadBootSector); }
      if boot[54..59] != [70, 65, 84, 49, 50] && !(Little2(boot, 11) == 512 && boot[13] > 0) { return Err(NotFat12); }
      if Little2(boot, 11) != 512 { return Err(OtherSectorSize); }
      var g := BootGeometry(boot);
      var table := ReadSectors(g.reserved, g.fatSize);
      if table.Err? { return Err(ReadFailed); }
      geo, cache, initialized := g, table.value, true;
      return Ok(());
    }

    // -------------------------------------------------------------------------
    // The cached table

    method SetFatEntry(c: nat, value: nat)
      requires c < EntryCount(|cache|)
      modifies this`cache
      ensures |cache| == |old(cache)|
      ensures Fat(V()) == old(Fat(V()))[c := value % 4096]
    {
      SetIsUpdate(cache, c, value);
      cache := Set(cache, c, value);
    }

    /** First fit: takes the lowest free cluster; panics where the scan leaves a short table. */
    method AllocateCluster() returns (r: Result<nat>)
      modifies this`cache
      ensures |cache| == |old(cache)|
      ensures r.Ok? <==> FreeClusters(old(Fat(V()))) != {}
      ensures r.Ok? ==> r.value in FreeClusters(old(Fat(V())))
      ensures r.Ok? ==> forall c | c in FreeClusters(old(Fat(V()))) :: r.value <= c
      ensures r.Ok? ==> Fat(V()) == old(Fat(V()))[r.value := EOF]
      ensures r.Err? ==> cache == old(cache)
      ensures r.Err? ==> r.error == if |Fat(V())| >= SCAN_END then NoFreeClusters else OutOfBounds
    {
      ghost var fat := Fat(V());
      for c := 2 to SCAN_END
        invariant cache == old(cache)
        invariant c == 2 || c <= |fat|
        invariant forall d | d in FreeClusters(fat) :: c <= d
      {
        if c >= EntryCount(|cache|) { return Err(OutOfBounds); }
        if Get(cache, c) == 0 {
          assert c in FreeClusters(fat);
          SetFatEntry(c, EOF);
          return Ok(c);
        }
        assert c !in FreeClusters(fat);
      }
      return Err(NoFreeClusters);
    }

    method FreeClusterChain(first: nat) returns (ok: bool)
      modifies this`cache
      ensures |cache| == |old(cache)|
      ensures ok <==> FreeChain(old(Fat(V())), first).Some?
      ensures ok ==> Fat(V()) == FreeChain(old(Fat(V())), first).value
    {
      var cluster: nat := first;
      ghost var fat := Fat(V());
      while InRange(cluster)
        invariant |cache| == |old(cache)|
        invariant FreeChain(Fat(V()), cluster) == FreeChain(fat, first)
        decreases |NonFree(Fat(V()))|, if InRange(cluster) then 1 else 0
      {
        if cluster >= EntryCount(|cache|) { return false; }
        var next := Get(cache, cluster);
        FreeShrinks(Fat(V()), cluster);
        SetFatEntry(cluster, 0);
        if next >= EOF { return true; }
        cluster := next;
      }
      return true;
    }

    // -------------------------------------------------------------------------
    // Building and filling a chain

    /** Takes the lowest `n` free clusters; on failure the ones already taken stay taken. */
    method AllocateClusters(n: nat) returns (r: Result<seq<nat>>)
      modifies this`cache
      ensures |cache| == |old(cache)|
      ensures r.Ok? ==> |r.value| == n && Allocated(old(Fat(V())), r.value, Fat(V()))
      ensures r.Err? ==> exists cs :: Allocated(old(Fat(V())), cs, Fat(V())) && |cs| < n && FreeClusters(Fat(V())) == {}
      ensures r.Err? ==> r.error == if |Fat(V())| >= SCAN_END then NoFreeClusters else OutOfBounds
    {
      ghost var fat := Fat(V());
      var clusters: seq<nat> := [];
      for i := 0 to n
        invariant |clusters| == i && |cache| == |old(cache)|
        invariant Allocated(fat, clusters, Fat(V()))
      {
        ghost var fat1 := Fat(V());
        var c := AllocateCluster();
        if c.Err? {
          assert Allocated(fat, clusters, Fat(V())) && |clusters| < n;
          return Err(c.error);
        }
        AllocateOneMore(fat, clusters, fat1, c.value);
        clusters := clusters + [c.value];
      }
      return Ok(clusters);
    }

    method LinkNext(clusters: seq<nat>, i: nat, ghost fat: seq<nat>)
      requires i + 1 < |clusters| && LinkedUpTo(fat, clusters, Fat(V()), i)
      modifies this`cache
      ensures |cache| == |old(cache)| && LinkedUpTo(fat, clusters, Fat(V()), i + 1)
    {
      var c, next := clusters[i], clusters[i + 1];
      ghost var fat1 := Fat(V());
      LinkFits(fat, clusters, fat1, i);
      SetFatEntry(c, next);
      assert Fat(V()) == fat1[c := next];
      LinkOneMore(fat, clusters, fat1, i);
    }

    method LinkClusters(clusters: seq<nat>, ghost fat: seq<nat>)
      requires clusters != [] && Allocated(fat, clusters, Fat(V()))
      modifies this`cache
      ensures |cache| == |old(cache)| && ChainBuilt(fat, clusters, Fat(V()))
    {
      StartLinks(fat, clusters, Fat(V()));
      for i := 0 to |clusters| - 1
        invariant |cache| == |old(cache)| && LinkedUpTo(fat, clusters, Fat(V()), i)
      {
        LinkNext(clusters, i, fat);
      }
      LinkedIsBuilt(fat, clusters, Fat(V()));
      LastLink(fat, clusters, Fat(V()));
      SetFatEntry(clusters[|clusters| - 1], EOF);
    }

    /** Writes the `i`-th chunk of `data`. */
    method WriteChunk(c: nat, data: seq<Byte>, i: nat) returns (ok: bool)
      requires c >= 2 && i * ClusterSize(geo) <= |data|
      modifies this`disk
      ensures OnlyClusters(old(V()), V(), [c])
      ensures ok <==> OnDisk(old(disk), ClusterSector(geo, c), geo.spc)
      ensures ok ==> ClusterData(V(), c) == Chunk(data, i, ClusterSize(geo))
    {
      var size := ClusterSize(geo);
      var off := i * size;
      var end := if off + size < |data| then off + size else |data|;
      ChunkIsPaddedSlice(data, i, size);
      ok := WriteCluster(c, data[off..end]);
    }

    /** Writes the chunks of `data` to the clusters in order. */
    method FillClusters(clusters: seq<nat>, data: seq<Byte>) returns (ok: bool)
      requires AllClusters(clusters) && Distinct(clusters)
      requires forall i | 0 <= i < |clusters| :: i * ClusterSize(geo) <= |data|
      modifies this`disk
      ensures OnlyClusters(old(V()), V(), clusters)
      ensures ok <==> forall i | 0 <= i < |clusters| :: OnDisk(old(disk), ClusterSector(geo, clusters[i]), geo.spc)
      ensures ok ==> forall i | 0 <= i < |clusters| :: ClusterData(V(), clusters[i]) == Chunk(data, i, ClusterSize(geo))
    {
      ghost var v := V();
      for i := 0 to |clusters|
        invariant OnlyClusters(v, V(), clusters)
        invariant forall k | 0 <= k < i :: OnDisk(v.disk, ClusterSector(geo, clusters[k]), geo.spc)
        invariant forall k | 0 <= k < i :: ClusterData(V(), clusters[k]) == Chunk(data, k, ClusterSize(geo))
      {
        ghost var v1 := V();
        ok := WriteChunk(clusters[i], data, i);
        WidenClusters(v, v1, V(), clusters, i);
        if !ok { return; }
        FilledOneMore(v1, V(), clusters, i, data);
      }
      return true;
    }

    /** Allocates and links `n` clusters. */
    method BuildChain(n: nat) returns (r: Result<seq<nat>>)
      requires n > 0
      modifies this`cache
      ensures |cache| == |old(cache)|
      ensures r.Ok? ==> |r.value| == n && ChainBuilt(old(Fat(V())), r.value, Fat(V()))
      ensures r.Ok? <==> |FreeClusters(old(Fat(V())))| >= n
      ensures r.Err? ==> r.error == if |Fat(V())| >= SCAN_END then NoFreeClusters else OutOfBounds
      ensures r.Err? ==> exists cs :: OnlyFreeTouched(old(V()), V(), cs)
      ensures r.Err? ==> Fat(V()) == Drained(old(Fat(V())))
    {
      ghost var v := V();
      r := AllocateClusters(n);
      if r.Err? {
        ghost var cs :| Allocated(Fat(v), cs, Fat(V())) && |cs| < n && FreeClusters(Fat(V())) == {};
        AllTaken(Fat(v), cs, Fat(V()));
        AllocatedCount(Fat(v), cs, Fat(V()));
        AllocatedTouchesFree(v, V(), cs);
      } else {
        AllocatedCount(Fat(v), r.value, Fat(V()));
        LinkClusters(r.value, Fat(v));
      }
    }

    /** Fills a chain just built from the free clusters of `v`. */
    method FillChain(clusters: seq<nat>, data: seq<Byte>, ghost v: Volume) returns (ok: bool)
      requires clusters != [] && geo == v.geo && disk == v.disk && |cache| == |v.cache| && geo.spc > 0
      requires ChainBuilt(Fat(v), clusters, Fat(V()))
      requires |data| <= |clusters| * ClusterSize(geo) < |data| + ClusterSize(geo)
      modifies this`disk
      ensures ok <==> LowestOnDisk(v.geo, v.disk, Fat(v), |clusters|)
      ensures AllClusters(clusters) && OnlyClusters(v, V(), clusters)
      ensures ok ==> Stored(V(), Fat(v), clusters, data)
      ensures !ok ==> HalfWritten(v, V(), clusters)
      ensures OnlyFreeTouched(v, V(), clusters)
    {
      FreeBounds(Fat(v), clusters);
      LowestAre(geo, disk, Fat(v), clusters);
      ChunkStarts(|data|, ClusterSize(geo), |clusters|);
      ghost var v1 := V();
      ok := FillClusters(clusters, data);
      OnlyClustersAfter(v, v1, V(), clusters);
      BuiltTouchesFree(v, V(), clusters);
      if ok { FilledIsStored(V(), Fat(v), clusters, data); }
    }

    /** Allocates, links and fills a chain for `data`. It fails for want of clusters exactly when
        too few are free, and then has taken all of them and leaves the disk alone; it fails to
        write exactly when one of the lowest free clusters is not on the disk. Whatever it does on
        failure happens in clusters that were free. */
    method AllocateAndWriteChain(data: seq<Byte>) returns (r: Result<seq<nat>>)
      requires data != [] && geo.spc > 0
      modifies this`cache, this`disk
      ensures |cache| == |old(cache)|
      ensures r.Ok? ==> && |r.value| == ClustersFor(geo, |data|) > 0
                        && Stored(V(), old(Fat(V())), r.value, data)
                        && OnlyClusters(old(V()), V(), r.value)
      ensures (r.Err? && r.error != WriteFailed) <==> |FreeClusters(old(Fat(V())))| < ClustersFor(geo, |data|)
      ensures r.Ok? <==> && |FreeClusters(old(Fat(V())))| >= ClustersFor(geo, |data|)
                         && LowestOnDisk(geo, old(disk), old(Fat(V())), ClustersFor(geo, |data|))
      ensures r.Err? && r.error != WriteFailed ==> r.error == if |Fat(V())| >= SCAN_END then NoFreeClusters else OutOfBounds
      ensures r.Err? ==> LeftBehind(old(V()), V(), ClustersFor(geo, |data|), r.error)
      ensures r.Err? ==> exists cs :: OnlyFreeTouched(old(V()), V(), cs)
    {
      var n := ClustersFor(geo, |data|);
      CeilDivBounds(|data|, ClusterSize(geo));
      ghost var v := V();
      r := BuildChain(n);
      if r.Ok? {
        var ok := FillChain(r.value, data, v);
        if !ok { return Err(WriteFailed); }
      }
    }

    // -------------------------------------------------------------------------
    // The root directory and the table copies

    method ParseRecords(data: seq<Byte>, n: nat) returns (es: seq<Entry>, ended: bool)
      requires 32 * n <= |data|
      ensures es == Parse(data, n) && (ended <==> HasEnd(Records(data, n)))
    {
      es, ended := ScanRecords(Records(data, n));
    }

    /** Collects the visible records up to the end mark. */
    method ScanRecords(rs: seq<Entry>) returns (es: seq<Entry>, ended: bool)
      ensures es == Listed(rs) && (ended <==> HasEnd(rs))
    {
      es, ended := [], false;
      assert rs[0..] == rs;
      for i := 0 to |rs|
        invariant es + Listed(rs[i..]) == Listed(rs) && HasEnd(rs[i..]) == HasEnd(rs)
      {
        ListedFrom(rs, i, es);
        if IsEnd(rs[i]) { return es, true; }
        if Visible(rs[i]) { es := es + [rs[i]]; }
      }
    }

    method ReadRootDirectory() returns (r: Result<seq<Entry>>)
      ensures r == if OnDisk(disk, RootStart(geo), RootSectors(geo)) then Ok(RootEntries(V())) else Err(ReadFailed)
    {
      var data := ReadSectors(RootStart(geo), RootSectors(geo));
      if data.Err? { return Err(data.error); }
      var es, _ := ParseRecords(data.value, geo.rootCount);
      return Ok(es);
    }

    /** Copies the records into a zeroed buffer. */
    method LayOut(es: seq<Entry>, total: nat) returns (data: seq<Byte>)
      requires 32 * |es| <= total
      ensures |data| == total && LaidOut(data, es)
    {
      data := seq(total, _ => 0);
      for i := 0 to |es|
        invariant |data| == total
        invariant forall k | 0 <= k < i :: data[32 * k..32 * k + 32] == ToBytes(es[k])
        invariant forall k | 32 * i <= k < total :: data[k] == 0
      {
        var before := data;
        data := data[..32 * i] + ToBytes(es[i]) + data[32 * i + 32..];
        forall k | 0 <= k < i ensures data[32 * k..32 * k + 32] == ToBytes(es[k]) {
          assert data[32 * k..32 * k + 32] == before[32 * k..32 * k + 32];
        }
        assert data[32 * i..32 * i + 32] == ToBytes(es[i]);
        forall k | 32 * (i + 1) <= k < total ensures data[k] == 0 { assert data[k] == before[k]; }
      }
    }

    /** Rewrites the whole root directory. More records than the directory can hold would be
        stored past the end of the buffer. */
    method WriteRootDirectory(es: seq<Entry>) returns (r: Result<()>)
      requires LayoutOk(V())
      modifies this`disk
      ensures r == if |es| <= RootRoom(geo) then Ok(()) else Err(OutOfBounds)
      ensures r.Err? ==> disk == old(disk)
      ensures SameOutside(old(disk), disk, RootStart(geo), RootSectors(geo))
      ensures r.Ok? ==> RootEntries(V()) == Listed(Fitting(es, geo.rootCount))
    {
      var total := RootSectors(geo) * SECTOR_SIZE;
      RootHasRoom(geo);
      RootOnDisk(V());
      if 32 * |es| > total { return Err(OutOfBounds); }
      var data := LayOut(es, total);
      var ok := WriteSectors(RootStart(geo), RootSectors(geo), data);
      ParseLaidOut(data, es, geo.rootCount);
      return Ok(());
    }

    /** Writes the cached table to every copy on disk. */
    method FlushFat() returns (ok: bool)
      requires geo.numFats >= 1 && |cache| == geo.fatSize * SECTOR_SIZE
      modifies this`disk
      ensures SameOutside(old(disk), disk, geo.reserved, geo.numFats * geo.fatSize)
      ensures OnDisk(old(disk), geo.reserved, geo.numFats * geo.fatSize) ==> ok
      ensures ok ==> Flushed(V())
    {
      for k := 0 to geo.numFats
        invariant SameOutside(old(disk), disk, geo.reserved, k * geo.fatSize)
        invariant forall j | 0 <= j < k :: ReadRange(disk, CopyStart(geo, j), geo.fatSize) == cache
      {
        CopiesEnd(geo, k);
        ghost var before := disk;
        ok := WriteSectors(CopyStart(geo, k), geo.fatSize, cache);
        WidenSame(old(disk), before, disk, geo, k);
        if !ok {
          WidenToAll(old(disk), disk, geo, k + 1);
          return;
        }
        CopyWritten(old(disk), before, disk, geo, k, cache);
      }
      return true;
    }

    /** Rewrites the root directory and the table copies. */
    method Commit(es: seq<Entry>) returns (r: Result<()>)
      requires LayoutOk(V())
      modifies this`disk
      ensures r == if |es| <= RootRoom(geo) then Ok(()) else Err(OutOfBounds)
      ensures r.Err? ==> disk == old(disk)
      ensures r.Ok? ==> SystemOnly(old(V()), V()) && Flushed(V())
      ensures r.Ok? ==> RootEntries(V()) == Listed(Fitting(es, geo.rootCount))
    {
      ghost var v := V();
      r := WriteRootDirectory(es);
      if r.Ok? {
        ghost var v1 := V();
        RootOnDisk(v1);
        var ok := FlushFat();
        CommitEffect(v, v1, V());
      }
    }

    /** The position of the first entry with the given key. */
    method Search(keys: seq<Name>, key: Name) returns (r: Option<nat>)
      ensures r.Some? ==> r.value < |keys| && keys[r.value] == key
      ensures r.None? ==> key !in keys
    {
      for i := 0 to |keys|
        invariant key !in keys[..i]
      {
        if keys[i] == key { return Some(i); }
      }
      return None;
    }

    /** The first entry with the given name. */
    method FindEntry(name: Name, ghost v: Volume) returns (r: Option<(nat, Entry)>)
      requires v == V() && LayoutOk(v)
      ensures r.Some? ==> && r.value.0 < |RootEntries(v)| && r.value.1 == RootEntries(v)[r.value.0]
                          && Keys(RootEntries(v))[r.value.0] == Key(name)
      ensures r.None? ==> Key(name) !in Keys(RootEntries(v))
    {
      RootOnDisk(v);
      var es := ReadRootDirectory();
      var i := Search(Keys(es.value), Key(name));
      if i.None? { return None; }
      return Some((i.value, es.value[i.value]));
    }

    /** Adds an entry to the root directory unless the name is taken or cannot be stored. */
    method AddEntry(name: Name, attr: Byte, first: nat, size: nat) returns (r: Result<()>)
      requires LayoutOk(V()) && first < 0x1_0000 && size < 0x1_0000_0000
      modifies this`disk
      ensures r.Err? ==> V() == old(V()) && r.error != WriteFailed
      ensures r.Ok? <==> && EncodeName(name).Ok? && Key(name) !in Keys(old(RootEntries(V())))
                         && |old(RootEntries(V()))| < RootRoom(geo)
      ensures r.Ok? ==> && EncodeName(name).Ok?
                        && SystemOnly(old(V()), V()) && Flushed(V())
                        && Appended(old(V()), V(), NewEntry(EncodeName(name).value, attr, first, size))
    {
      RootOnDisk(V());
      var entries := ReadRootDirectory();
      var found := Search(Keys(entries.value), Key(name));
      if found.Some? { return Err(AlreadyExists); }
      var field := EncodeName(name);
      if field.Err? { return Err(field.error); }
      r := Commit(entries.value + [NewEntry(field.value, attr, first, size)]);
    }

    // -------------------------------------------------------------------------
    // The public file operations

    /** Stores `data` in fresh clusters; no file notices, whether it succeeds or not. */
    method StoreData(data: seq<Byte>) returns (r: Result<seq<nat>>)
      requires LayoutOk(V()) && data != []
      modifies this`cache, this`disk
      ensures LayoutOk(V()) && Harmless(old(V()), V())
      ensures r.Ok? ==> FreshChain(old(V()), V(), r.value, data) && |r.value| == ClustersFor(geo, |data|)
      ensures r.Err? ==> LeftBehind(old(V()), V(), ClustersFor(geo, |data|), r.error)
      ensures (r.Err? && r.error != WriteFailed) <==> |FreeClusters(old(Fat(V())))| < ClustersFor(geo, |data|)
      ensures r.Ok? <==> && |FreeClusters(old(Fat(V())))| >= ClustersFor(geo, |data|)
                         && LowestOnDisk(geo, old(disk), old(Fat(V())), ClustersFor(geo, |data|))
      ensures r.Err? && r.error != WriteFailed ==> disk == old(disk)
      ensures r != Err(NotFound)
    {
      ghost var v := V();
      r := AllocateAndWriteChain(data);
      if r.Err? {
        ghost var cs :| OnlyFreeTouched(v, V(), cs);
        TouchingFreeIsHarmless(v, V(), cs);
      } else {
        ChainStored(v, V(), r.value, data);
      }
    }

    /** Creates a file; a file without contents is refused. */
    method CreateFile(name: Name, data: seq<Byte>) returns (r: Result<()>)
      requires LayoutOk(V())
      modifies this`cache, this`disk
      ensures !initialized ==> r == Err(NotInitialized) && V() == old(V())
      ensures initialized && data == [] ==> r == Err(EmptyFile) && V() == old(V())
      ensures initialized && data != [] ==> CreateResult(old(V()), name, data, r, V())
    {
      if !initialized { return Err(NotInitialized); }
      if data == [] { return Err(EmptyFile); }
      r := StoreFile(name, data);
    }

    method StoreFile(name: Name, data: seq<Byte>) returns (r: Result<()>)
      requires LayoutOk(V()) && data != []
      modifies this`cache, this`disk
      ensures CreateResult(old(V()), name, data, r, V())
    {
      ghost var v := V();
      var clusters := StoreData(data);
      if clusters.Ok? {
        r := EnterFile(name, data, clusters.value[0], v, clusters.value);
      } else {
        NotStored(v, name, data, clusters.error, V());
        r := Err(clusters.error);
      }
    }

    /** Adds the directory entry of a file whose data is already stored. */
    method EnterFile(name: Name, data: seq<Byte>, first: nat, ghost v: Volume, ghost cs: seq<nat>) returns (r: Result<()>)
      requires data != [] && LayoutOk(V()) && Harmless(v, V()) && FreshChain(v, V(), cs, data) && first == cs[0]
      requires |FreeClusters(Fat(v))| >= ClustersFor(v.geo, |data|)
      requires LowestOnDisk(v.geo, v.disk, Fat(v), ClustersFor(v.geo, |data|)) && |cs| == ClustersFor(v.geo, |data|)
      modifies this`disk
      ensures CreateResult(v, name, data, r, V())
    {
      ghost var v1 := V();
      FreshChainCount(v, v1, cs, data);
      r := AddEntry(name, ATTR_ARCHIVE, first, |data|);
      if r.Ok? { EnteredFile(v, v1, V(), name, data, cs); }
      Entered(v, v1, name, data, r, V());
    }

    /** Reads the clusters of a chain one after the other, as long as the links name clusters. */
    method ReadChain(first: nat, ghost cs: seq<nat>) returns (r: Result<seq<Byte>>)
      requires IsWalk(Fat(V()), first, cs)
      ensures r == WalkData(V(), cs)
    {
      var data: seq<Byte> := [];
      var cluster: nat := first;
      ghost var rest := cs;
      BeforeWalk(WalkData(V(), cs));
      while InRange(cluster)
        invariant IsWalk(Fat(V()), cluster, rest)
        invariant Behind(data, WalkData(V(), rest)) == WalkData(V(), cs)
        decreases |rest|
      {
        WalkStep(V(), cluster, rest, data);
        var block := ReadCluster(cluster);
        if block.Err? { return Err(ReadFailed); }
        if cluster >= EntryCount(|cache|) { return Err(OutOfBounds); }
        data := data + block.value;
        cluster := Get(cache, cluster);
        rest := rest[1..];
      }
      AfterWalk(data);
      return Ok(data);
    }

    /** Reads a file: the bytes of the clusters its links lead through, cut to its size. */
    method ReadFile(name: Name) returns (r: Result<seq<Byte>>)
      requires LayoutOk(V()) && WalksEnd(V(), name)
      ensures Key(name) !in Keys(RootEntries(V())) ==> r == Err(NotFound)
      ensures Key(name) in Keys(RootEntries(V())) ==> exists i, cs :: ReadFrom(V(), i, name, cs, r)
    {
      ghost var v := V();
      var found := FindEntry(name, v);
      if found.None? { return Err(NotFound); }
      var e := found.value.1;
      ghost var i := found.value.0;
      assert Named(v, i, name);
      ghost var cs :| IsWalk(Fat(v), RootEntries(v)[i].first, cs);
      if e.size == 0 {
        assert ReadFrom(v, i, name, cs, Ok([]));
        return Ok([]);
      }
      var data := ReadChain(e.first, cs);
      r := Cut(data, e.size);
      assert ReadFrom(v, i, name, cs, r);
    }

    /** Replaces entry `i` and commits; the list never grows, so there is room. */
    method ReplaceEntry(i: nat, e: Entry) returns (r: Result<()>)
      requires LayoutOk(V()) && i < |RootEntries(V())| && !IsEnd(e)
      modifies this`disk
      ensures r.Ok? && SystemOnly(old(V()), V()) && Flushed(V())
      ensures Visible(e) ==> RootEntries(V()) == old(RootEntries(V()))[i := e]
      ensures !Visible(e) ==> RootEntries(V()) == Remove(old(RootEntries(V())), i)
    {
      RootOnDisk(V());
      RootEntriesShown(V());
      RootHasRoom(geo);
      var es := ReadRootDirectory();
      ListedUpdate(es.value, i, e);
      r := Commit(es.value[i := e]);
    }

    /** Frees the chain of entry `i`; false where the walk would leave the table. */
    method FreeEntry(i: nat, e: Entry) returns (ok: bool)
      requires LayoutOk(V()) && i < |RootEntries(V())| && e == RootEntries(V())[i]
      modifies this`cache
      ensures LayoutOk(V()) && RootEntries(V()) == old(RootEntries(V()))
      ensures ok <==> Freed(old(V()), e).Some?
      ensures ok ==> EntryFreed(old(V()), V(), i)
    {
      ok := FreeClusterChain(e.first);
    }

    /** Points entry `i` at the fresh chain `cs` that holds `data`. */
    method PointEntry(i: nat, e: Entry, first: nat, size: nat, ghost v: Volume, ghost v1: Volume, ghost cs: seq<nat>, ghost data: seq<Byte>)
      requires LayoutOk(V()) && EntryFreed(v, v1, i) && e == RootEntries(v)[i] && RootEntries(V()) == RootEntries(v)
      requires data != [] && Harmless(v1, V()) && FreshChain(v1, V(), cs, data) && first == cs[0] && size == |data|
      modifies this`disk
      ensures Flushed(V()) && Overwritten(v, V(), i, data)
    {
      ghost var v2 := V();
      EntryIsNoEnd(v, i);
      var r := ReplaceEntry(i, WithData(e, first, size));
      WrittenStep(v, v1, v2, V(), i, data, cs);
    }

    /** Stores `data` in fresh clusters and points entry `i` at them. */
    method StoreEntry(i: nat, e: Entry, data: seq<Byte>, ghost v: Volume) returns (r: Result<()>)
      requires LayoutOk(V()) && data != [] && EntryFreed(v, V(), i) && e == RootEntries(v)[i]
      requires RootEntries(V()) == RootEntries(v)
      modifies this`cache, this`disk
      ensures r.Ok? ==> Flushed(V()) && Overwritten(v, V(), i, data)
      ensures r.Ok? <==> CanOverwrite(v, i, data)
      ensures (r.Err? && r.error != WriteFailed) <==> !HasRoom(v, i, ClustersFor(geo, |data|))
      ensures r.Err? && r.error != WriteFailed ==> disk == old(disk)
      ensures r.Err? ==> Abandoned(v, V(), i, ClustersFor(geo, |data|), r.error) && r.error != NotFound
    {
      ghost var v1 := V();
      OverwriteNeeds(v, v1, i, data);
      var clusters := StoreData(data);
      if clusters.Err? {
        AbandonedBy(v, v1, V(), i, ClustersFor(geo, |data|), clusters.error);
        return Err(clusters.error);
      }
      PointEntry(i, e, clusters.value[0], |data|, v, v1, clusters.value, data);
      return Ok(());
    }

    /** Frees the old clusters of entry `i` and gives it new ones for `data`. */
    method OverwriteEntry(i: nat, e: Entry, data: seq<Byte>) returns (r: Result<()>)
      requires LayoutOk(V()) && i < |RootEntries(V())| && e == RootEntries(V())[i]
      modifies this`cache, this`disk
      ensures r.Ok? ==> Flushed(V()) && Overwritten(old(V()), V(), i, data)
      ensures r.Ok? <==> CanOverwrite(old(V()), i, data)
      ensures data != [] ==> ((r.Err? && r.error != WriteFailed) <==> !HasRoom(old(V()), i, ClustersFor(geo, |data|)))
      ensures r.Err? && r.error != WriteFailed ==> disk == old(disk)
      ensures r.Err? && Freed(old(V()), e).Some? ==> Abandoned(old(V()), V(), i, ClustersFor(geo, |data|), r.error)
      ensures r != Err(NotFound)
    {
      ghost var v := V();
      var ok := FreeEntry(i, e);
      if !ok { return Err(OutOfBounds); }
      if data != [] {
        r := StoreEntry(i, e, data, v);
      } else {
        ghost var v1 := V();
        EntryIsNoEnd(v, i);
        r := ReplaceEntry(i, WithData(e, 0, 0));
        TruncatedStep(v, v1, V(), i);
      }
    }

    /** Overwrites a file; a missing file is an error without any effect. */
    method WriteFile(name: Name, data: seq<Byte>) returns (r: Result<()>, ghost i: nat)
      requires LayoutOk(V())
      modifies this`cache, this`disk
      ensures !initialized ==> r == Err(NotInitialized) && V() == old(V())
      ensures initialized && Key(name) !in Keys(old(RootEntries(V()))) ==> r == Err(NotFound) && V() == old(V())
      ensures initialized && Key(name) in Keys(old(RootEntries(V()))) ==> WriteResult(old(V()), i, name, data, r, V())
    {
      i := 0;
      if !initialized { return Err(NotInitialized), 0; }
      ghost var v := V();
      var found := FindEntry(name, v);
      if found.None? { return Err(NotFound), 0; }
      i := found.value.0;
      r := OverwriteEntry(found.value.0, found.value.1, data);
    }

    /** Appends to a file by reading, concatenating and rewriting it. */
    method AppendFile(name: Name, data: seq<Byte>) returns (r: Result<()>, ghost i: nat, ghost existing: Result<seq<Byte>>)
      requires LayoutOk(V()) && WalksEnd(V(), name)
      modifies this`cache, this`disk
      ensures !initialized ==> r.Err? && V() == old(V())
      ensures initialized ==> AppendResult(old(V()), i, name, data, existing, r, V())
    {
      i := 0;
      var bytes := ReadFile(name);
      existing := bytes;
      if bytes.Err? { return Err(bytes.error), 0, bytes; }
      r, i := WriteFile(name, bytes.value + data);
    }

    /** Gives entry `i` another stored name. */
    method RenameEntry(i: nat, e: Entry, name: Name)
      requires LayoutOk(V()) && i < |RootEntries(V())| && e == RootEntries(V())[i] && EncodeName(name).Ok?
      requires Key(name) !in Keys(RootEntries(V()))
      modifies this`disk
      ensures RenameStep(old(V()), V(), i, name)
      ensures Key(name) in Keys(RootEntries(V())) <==> GoodName(name)
    {
      ghost var v := V();
      RootOnDisk(v);
      RootEntriesShown(v);
      RootHasRoom(geo);
      var es := ReadRootDirectory();
      RenamedList(es.value, i, name);
      RenamedKeys(es.value, i, name);
      var r := WriteRootDirectory(es.value[i := WithName(e, EncodeName(name).value)]);
      RootWrite(v, V());
      RootWriteKeepsCopies(v, V());
      RenamedStep(v, V(), i, name);
    }

    /** The entry to rename, unless the new name is taken or cannot be stored. */
    method FindForRename(from: Name, to: Name, ghost v: Volume) returns (r: Result<(nat, Entry)>)
      requires v == V() && LayoutOk(v)
      ensures r.Ok? <==> Key(to) !in Keys(RootEntries(v)) && Key(from) in Keys(RootEntries(v)) && EncodeName(to).Ok?
      ensures r.Ok? ==> Named(v, r.value.0, from) && r.value.1 == RootEntries(v)[r.value.0]
    {
      var clash := FindEntry(to, v);
      if clash.Some? { return Err(AlreadyExists); }
      var found := FindEntry(from, v);
      if found.None? { return Err(NotFound); }
      var field := EncodeName(to);
      if field.Err? { return Err(field.error); }
      return Ok(found.value);
    }

    /** Renames a file without touching its clusters. */
    method RenameFile(from: Name, to: Name) returns (r: Result<()>, ghost i: nat)
      requires LayoutOk(V())
      modifies this`disk
      ensures r.Err? ==> V() == old(V())
      ensures var keys := Keys(old(RootEntries(V())));
              r.Ok? <==> initialized && Key(to) !in keys && Key(from) in keys && EncodeName(to).Ok?
      ensures r.Ok? ==> Named(old(V()), i, from) && RenameStep(old(V()), V(), i, to)
      ensures r.Ok? ==> (Key(to) in Keys(RootEntries(V())) <==> GoodName(to))
    {
      i := 0;
      if !initialized { return Err(NotInitialized), 0; }
      var found := FindForRename(from, to, V());
      if found.Err? { return Err(found.error), 0; }
      RenameEntry(found.value.0, found.value.1, to);
      return Ok(()), found.value.0;
    }

    /** Deletes a file: marks its record and frees its clusters. */
    method DeleteFile(name: Name) returns (r: Result<()>, ghost i: nat)
      requires LayoutOk(V())
      modifies this`cache, this`disk
      ensures Key(name) !in Keys(old(RootEntries(V()))) ==> r == Err(NotFound) && V() == old(V())
      ensures Key(name) in Keys(old(RootEntries(V()))) ==>
                Named(old(V()), i, name) && (r.Ok? <==> Freed(old(V()), old(RootEntries(V()))[i]).Some?)
      ensures r.Ok? ==> Named(old(V()), i, name) && DeleteStep(old(V()), V(), i) && Flushed(V())
    {
      i := 0;
      ghost var v := V();
      var found := FindEntry(name, v);
      if found.None? { return Err(NotFound), 0; }
      var k, e := found.value.0, found.value.1;
      i := k;
      var ok := FreeEntry(k, e);
      if !ok { return Err(OutOfBounds), k; }
      ghost var v1 := V();
      r := ReplaceEntry(k, WithName(e, [DELETED] + e.name[1..]));
      DeletedStep(v, v1, V(), k);
    }
  }

  lemma FilledOneMore(v: Volume, v': Volume, cs: seq<nat>, i: nat, data: seq<Byte>)
    requires AllClusters(cs) && Distinct(cs) && i < |cs| && OnlyClusters(v, v', [cs[i]])
    requires forall k | 0 <= k <= i :: k * ClusterSize(v.geo) <= |data|
    requires forall k | 0 <= k < i :: ClusterData(v, cs[k]) == Chunk(data, k, ClusterSize(v.geo))
    requires ClusterData(v', cs[i]) == Chunk(data, i, ClusterSize(v.geo))
    ensures forall k | 0 <= k <= i :: ClusterData(v', cs[k]) == Chunk(data, k, ClusterSize(v.geo))
  {
    forall k | 0 <= k < i ensures ClusterData(v', cs[k]) == ClusterData(v, cs[k]) {
      OtherClustersKept(v, v', [cs[i]], cs[k]);
    }
  }

  lemma WidenClusters(v: Volume, v1: Volume, v2: Volume, cs: seq<nat>, i: nat)
    requires AllClusters(cs) && i < |cs| && OnlyClusters(v, v1, cs) && OnlyClusters(v1, v2, [cs[i]])
    ensures OnlyClusters(v, v2, cs)
  {
    forall l | l in v.disk && (forall k | 0 <= k < |cs| :: !InCluster(v.geo, l, cs[k]))
      ensures v2.disk[l] == v.disk[l]
    {
      assert forall k | 0 <= k < |[cs[i]]| :: !InCluster(v.geo, l, [cs[i]][k]);
    }
  }
}
