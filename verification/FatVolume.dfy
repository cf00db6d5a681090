/** A FAT12 volume: sectors on disk, the cached table, and the files they represent. */
module FatVolume {
  import opened Basics
  import opened FatTable
  import opened DirectoryEntries

  const SECTOR_SIZE: nat := 512

  type Sector = s: seq<Byte> | |s| == 512 witness seq(512, _ => 0)
  type Disk = map<nat, Sector>

  datatype Geometry = Geometry(reserved: nat, numFats: nat, fatSize: nat, rootCount: nat, spc: nat)

  datatype Volume = Volume(geo: Geometry, cache: seq<Byte>, disk: Disk)

  function RootStart(g: Geometry): nat { g.reserved + g.numFats * g.fatSize }
  function RootSectors(g: Geometry): nat { (g.rootCount * 32 + 511) / 512 }
  function DataStart(g: Geometry): nat { RootStart(g) + RootSectors(g) }
  function ClusterSize(g: Geometry): nat { g.spc * SECTOR_SIZE }

  function ClusterSector(g: Geometry, c: nat): nat
    requires c >= 2
  {
    DataStart(g) + (c - 2) * g.spc
  }

  // ---------------------------------------------------------------------------
  // Runs of sectors

  function SectorAt(disk: Disk, lba: nat): Sector { if lba in disk then disk[lba] else seq(512, _ => 0) }

  /** The contents of `n` sectors from `start`. */
  function ReadRange(disk: Disk, start: nat, n: nat): (data: seq<Byte>)
    ensures |data| == n * SECTOR_SIZE
  {
    if n == 0 then [] else ReadRange(disk, start, n - 1) + SectorAt(disk, start + n - 1)
  }

  predicate OnDisk(disk: Disk, start: nat, n: nat) {
    forall l | start <= l < start + n :: l in disk
  }

  /** `disk'` differs from `disk` at most in `n` sectors from `start`. */
  predicate SameOutside(disk: Disk, disk': Disk, start: nat, n: nat) {
    && disk'.Keys == disk.Keys
    && forall l | l in disk && !(start <= l < start + n) :: disk'[l] == disk[l]
  }

  lemma {:induction false} RangeKept(disk: Disk, disk': Disk, start: nat, n: nat)
    requires disk'.Keys == disk.Keys
    requires forall l | start <= l < start + n && l in disk :: disk'[l] == disk[l]
    ensures ReadRange(disk', start, n) == ReadRange(disk, start, n)
  {
    if n > 0 { RangeKept(disk, disk', start, n - 1); }
  }

  // ---------------------------------------------------------------------------
  // Clusters

  function ClusterData(v: Volume, c: nat): (data: seq<Byte>)
    requires c >= 2
    ensures |data| == ClusterSize(v.geo)
  {
    ReadRange(v.disk, ClusterSector(v.geo, c), v.geo.spc)
  }

  predicate InCluster(g: Geometry, l: nat, c: nat)
    requires c >= 2
  {
    ClusterSector(g, c) <= l < ClusterSector(g, c) + g.spc
  }

  /** Different clusters own different sectors, all in the data region. */
  lemma ClustersAreDisjoint(g: Geometry, l: nat, c: nat, d: nat)
    requires c >= 2 && d >= 2 && InCluster(g, l, c)
    ensures l >= DataStart(g)
    ensures InCluster(g, l, d) ==> c == d
  {
    if c < d { SlotsInOrder(c - 2, d - 2, g.spc); } else if d < c { SlotsInOrder(d - 2, c - 2, g.spc); }
  }

  lemma {:induction false} SlotsInOrder(a: nat, b: nat, size: nat)
    requires a < b
    ensures a * size + size <= b * size
  {
    if a + 1 < b { SlotsInOrder(a, b - 1, size); }
    assert b * size == (b - 1) * size + size;
  }

  predicate AllClusters(cs: seq<nat>) { forall i | 0 <= i < |cs| :: cs[i] >= 2 }

  /** `v'` differs from `v` on disk at most in the sectors of the clusters `cs`. */
  ghost predicate OnlyClusters(v: Volume, v': Volume, cs: seq<nat>)
    requires AllClusters(cs)
  {
    && v'.geo == v.geo
    && v'.disk.Keys == v.disk.Keys
    && forall l | l in v.disk && (forall i | 0 <= i < |cs| :: !InCluster(v.geo, l, cs[i])) ::
         v'.disk[l] == v.disk[l]
  }

  lemma OtherClustersKept(v: Volume, v': Volume, cs: seq<nat>, c: nat)
    requires AllClusters(cs) && OnlyClusters(v, v', cs) && c >= 2 && c !in cs
    ensures ClusterData(v', c) == ClusterData(v, c)
  {
    forall l | ClusterSector(v.geo, c) <= l < ClusterSector(v.geo, c) + v.geo.spc && l in v.disk
      ensures v'.disk[l] == v.disk[l]
    {
      forall i | 0 <= i < |cs| ensures !InCluster(v.geo, l, cs[i]) {
        ClustersAreDisjoint(v.geo, l, c, cs[i]);
      }
    }
    RangeKept(v.disk, v'.disk, ClusterSector(v.geo, c), v.geo.spc);
  }

  lemma SystemAreaKept(v: Volume, v': Volume, cs: seq<nat>, start: nat, n: nat)
    requires AllClusters(cs) && OnlyClusters(v, v', cs) && start + n <= DataStart(v.geo)
    ensures ReadRange(v'.disk, start, n) == ReadRange(v.disk, start, n)
  {
    forall l | start <= l < start + n && l in v.disk ensures v'.disk[l] == v.disk[l] {
      forall i | 0 <= i < |cs| ensures !InCluster(v.geo, l, cs[i]) {
        if InCluster(v.geo, l, cs[i]) { ClustersAreDisjoint(v.geo, l, cs[i], cs[i]); }
      }
    }
    RangeKept(v.disk, v'.disk, start, n);
  }

  /** The contents of a list of clusters, one after the other. */
  function ChainData(v: Volume, cs: seq<nat>): (data: seq<Byte>)
    requires AllClusters(cs)
    ensures |data| == |cs| * ClusterSize(v.geo)
  {
    if cs == [] then []
    else
      var front := cs[..|cs| - 1];
      assert |cs| * ClusterSize(v.geo) == |front| * ClusterSize(v.geo) + ClusterSize(v.geo);
      ChainData(v, front) + ClusterData(v, cs[|cs| - 1])
  }

  lemma {:induction false} ChainDataKept(v: Volume, v': Volume, cs: seq<nat>)
    requires AllClusters(cs) && v'.geo == v.geo
    requires forall i | 0 <= i < |cs| :: ClusterData(v', cs[i]) == ClusterData(v, cs[i])
    ensures ChainData(v', cs) == ChainData(v, cs)
  {
    if cs != [] { ChainDataKept(v, v', cs[..|cs| - 1]); }
  }

  /** The part of `data` that goes to the `i`-th cluster, filled up with zeros. */
  function Chunk(data: seq<Byte>, i: nat, size: nat): (r: seq<Byte>)
    ensures |r| == size
  {
    seq(size, k requires 0 <= k < size => if i * size + k < |data| then data[i * size + k] else 0)
  }

  /** Clusters that hold the chunks of `data` in order hold `data`. */
  lemma {:induction false} ChunksHoldData(v: Volume, cs: seq<nat>, data: seq<Byte>)
    requires AllClusters(cs)
    requires forall i | 0 <= i < |cs| :: ClusterData(v, cs[i]) == Chunk(data, i, ClusterSize(v.geo))
    ensures forall j | 0 <= j < |data| && j < |cs| * ClusterSize(v.geo) :: ChainData(v, cs)[j] == data[j]
  {
    if cs != [] {
      var n, size := |cs| - 1, ClusterSize(v.geo);
      ChunksHoldData(v, cs[..n], data);
      assert |cs| * size == n * size + size;
      forall j | 0 <= j < |data| && j < |cs| * size ensures ChainData(v, cs)[j] == data[j] {
        if j >= n * size { assert ChainData(v, cs)[j] == Chunk(data, n, size)[j - n * size]; }
      }
    }
  }

  // ---------------------------------------------------------------------------
  // The system area: table copies and root directory

  /** Every copy of the table on disk equals the cache. */
  predicate Flushed(v: Volume) {
    forall k | 0 <= k < v.geo.numFats ::
      ReadRange(v.disk, CopyStart(v.geo, k), v.geo.fatSize) == v.cache
  }

  function CopyStart(g: Geometry, k: nat): nat { g.reserved + k * g.fatSize }

  /** The copies of the table follow one another and end where the root directory starts. */
  lemma CopiesInOrder(g: Geometry, j: nat, k: nat)
    requires j < k
    ensures CopyStart(g, j) + g.fatSize <= CopyStart(g, k)
    ensures CopyStart(g, k + 1) == CopyStart(g, k) + g.fatSize
  {
    SlotsInOrder(j, k, g.fatSize);
    assert (k + 1) * g.fatSize == k * g.fatSize + g.fatSize;
  }

  lemma CopiesEnd(g: Geometry, k: nat)
    requires k < g.numFats
    ensures CopyStart(g, k) + g.fatSize <= RootStart(g)
  {
    SlotsInOrder(k, g.numFats, g.fatSize);
  }

  /** How many records the sectors of the root directory have room for; the driver reads only the
      first `rootCount` of them. */
  function RootRoom(g: Geometry): nat { 16 * RootSectors(g) }

  lemma RootHasRoom(g: Geometry)
    ensures RootSectors(g) * SECTOR_SIZE == 32 * RootRoom(g) && g.rootCount <= RootRoom(g)
  {
  }

  lemma RootOnDisk(v: Volume)
    requires LayoutOk(v)
    ensures OnDisk(v.disk, RootStart(v.geo), RootSectors(v.geo))
    ensures OnDisk(v.disk, v.geo.reserved, v.geo.numFats * v.geo.fatSize)
  {
  }

  function RootEntries(v: Volume): seq<Entry> {
    Parse(ReadRange(v.disk, RootStart(v.geo), RootSectors(v.geo)), v.geo.rootCount)
  }

  /** The layout the FAT specification prescribes, with the system area on disk. */
  predicate LayoutOk(v: Volume) {
    && v.geo.reserved >= 1 && v.geo.numFats >= 1 && 1 <= v.geo.spc < 256
    && |v.cache| == v.geo.fatSize * SECTOR_SIZE
    && OnDisk(v.disk, v.geo.reserved, DataStart(v.geo) - v.geo.reserved)
  }

  // ---------------------------------------------------------------------------
  // Mounting

  /** The fields of the BIOS parameter block that the driver uses. */
  function BootGeometry(boot: Sector): Geometry {
    Geometry(Little2(boot, 14), boot[16], Little2(boot, 22), Little2(boot, 17), boot[13])
  }

  /** The volume found on a disk: geometry from the boot sector, table from its first copy. */
  function Mount(disk: Disk): Result<Volume> {
    if 0 !in disk then Err(ReadFailed)
    else
      var boot := disk[0];
      if boot[510] != 0x55 || boot[511] != 0xAA then Err(BadBootSector)
      else if boot[54..59] != [70, 65, 84, 49, 50] && !(Little2(boot, 11) == 512 && boot[13] > 0) then Err(NotFat12)
      else if Little2(boot, 11) != 512 then Err(OtherSectorSize)
      else
        var g := BootGeometry(boot);
        if OnDisk(disk, g.reserved, g.fatSize) then Ok(Volume(g, ReadRange(disk, g.reserved, g.fatSize), disk))
        else Err(ReadFailed)
  }

  /** The boot sector describes the volume's geometry. */
  predicate Bootable(v: Volume) {
    && 0 in v.disk
    && v.disk[0][510] == 0x55 && v.disk[0][511] == 0xAA
    && Little2(v.disk[0], 11) == 512 && v.disk[0][13] > 0
    && BootGeometry(v.disk[0]) == v.geo
  }

  /** The volume that mounting the disk again gives: the table is the first copy on disk. */
  function Remounted(v: Volume): Volume {
    Volume(v.geo, ReadRange(v.disk, v.geo.reserved, v.geo.fatSize), v.disk)
  }

  lemma FirstCopy(g: Geometry)
    ensures CopyStart(g, 0) == g.reserved
  {
  }

  lemma MountIsRemounted(v: Volume)
    requires LayoutOk(v) && Bootable(v)
    ensures Mount(v.disk) == Ok(Remounted(v))
  {
    FirstCopy(v.geo);
    CopiesEnd(v.geo, 0);
  }

  /** A flushed volume is recovered from its disk, whatever happened before. */
  lemma RemountRecovers(v: Volume)
    requires LayoutOk(v) && Flushed(v)
    ensures Remounted(v) == v
    ensures Bootable(v) ==> Mount(v.disk) == Ok(v)
  {
    FirstCopy(v.geo);
    assert ReadRange(v.disk, CopyStart(v.geo, 0), v.geo.fatSize) == v.cache;
    if Bootable(v) { MountIsRemounted(v); }
  }

  // ---------------------------------------------------------------------------
  // Files

  function Fat(v: Volume): seq<nat> { Entries(v.cache) }

  function Content(v: Volume, e: Entry, cs: seq<nat>): seq<Byte>
    requires AllClusters(cs) && e.size <= |cs| * ClusterSize(v.geo)
  {
    if e.size == 0 then [] else ChainData(v, cs)[..e.size]
  }

  /** `cs` are the clusters of entry `e`, and `bytes` is what the file holds. */
  ghost predicate FileAt(v: Volume, e: Entry, cs: seq<nat>, bytes: seq<Byte>) {
    && AllClusters(cs)
    && e.size <= |cs| * ClusterSize(v.geo)
    && (if cs == [] then !InRange(e.first) else IsChain(Fat(v), cs) && cs[0] == e.first)
    && (forall i | 0 <= i < |cs| :: OnDisk(v.disk, ClusterSector(v.geo, cs[i]), v.geo.spc))
    && bytes == Content(v, e, cs)
  }

  predicate Disjoint(a: seq<nat>, b: seq<nat>) { forall c | c in a :: c !in b }

  /** Entry by entry: the chain and the contents of every file in the root directory. */
  ghost predicate FilesAt(v: Volume, es: seq<Entry>, chains: seq<seq<nat>>, contents: seq<seq<Byte>>) {
    && |chains| == |es| == |contents|
    && (forall i | 0 <= i < |es| :: FileAt(v, es[i], chains[i], contents[i]))
    && (forall i, j | 0 <= i < |es| && 0 <= j < |es| && i != j :: Disjoint(chains[i], chains[j]))
  }

  function EntryKey(e: Entry): Name { FieldKey(e.name) }

  function Keys(es: seq<Entry>): (ks: seq<Name>)
    ensures |ks| == |es| && forall i | 0 <= i < |es| :: ks[i] == EntryKey(es[i])
  {
    seq(|es|, i requires 0 <= i < |es| => EntryKey(es[i]))
  }

  predicate AllDifferent<K(==)>(keys: seq<K>) {
    forall i, j | 0 <= i < j < |keys| :: keys[i] != keys[j]
  }

  /** `m` maps each key to the value at the same position. */
  predicate Indexed<K, V(==)>(keys: seq<K>, values: seq<V>, m: map<K, V>) {
    && |keys| == |values|
    && (forall i | 0 <= i < |keys| :: keys[i] in m && m[keys[i]] == values[i])
    && (forall k | k in m :: k in keys)
  }

  /** The volume represents `files`, witnessed by the chains and contents of its entries. */
  ghost predicate Represents(v: Volume, chains: seq<seq<nat>>, contents: seq<seq<Byte>>, files: map<Name, seq<Byte>>) {
    && LayoutOk(v)
    && FilesAt(v, RootEntries(v), chains, contents)
    && AllDifferent(Keys(RootEntries(v)))
    && Indexed(Keys(RootEntries(v)), contents, files)
  }

  ghost predicate Holds(v: Volume, files: map<Name, seq<Byte>>) {
    exists chains, contents :: Represents(v, chains, contents, files)
  }

  lemma HoldsBy(v: Volume, chains: seq<seq<nat>>, contents: seq<seq<Byte>>, files: map<Name, seq<Byte>>)
    requires Represents(v, chains, contents, files)
    ensures Holds(v, files)
  {
  }

  /** The volume holds some file map. */
  ghost predicate HasMap(v: Volume) { exists files: map<Name, seq<Byte>> :: Holds(v, files) }

  lemma HasMapBy(v: Volume, files: map<Name, seq<Byte>>)
    requires Holds(v, files)
    ensures HasMap(v)
  {
  }

  /** A file is unaffected by changes to the table and the disk outside its own clusters. */
  lemma FileKept(v: Volume, v': Volume, e: Entry, cs: seq<nat>, bytes: seq<Byte>)
    requires FileAt(v, e, cs, bytes) && v'.geo == v.geo && v'.disk.Keys == v.disk.Keys
    requires |Fat(v')| == |Fat(v)|
    requires forall c | c in cs :: c < |Fat(v)| && Fat(v')[c] == Fat(v)[c] && ClusterData(v', c) == ClusterData(v, c)
    ensures FileAt(v', e, cs, bytes)
  {
    ChainDataKept(v, v', cs);
    if cs != [] { ChainKept(Fat(v), Fat(v'), cs); }
  }

  lemma ChainInTable(v: Volume, e: Entry, cs: seq<nat>, bytes: seq<Byte>)
    requires FileAt(v, e, cs, bytes)
    ensures forall c | c in cs :: c < |Fat(v)| && Fat(v)[c] != 0
  {
    forall c | c in cs ensures c < |Fat(v)| && Fat(v)[c] != 0 { ChainNotFree(Fat(v), cs, c); }
  }
}
