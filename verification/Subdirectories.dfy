/** Subdirectories: lists of records that grow and shrink along a cluster chain. */
module Subdirectories {
  import opened Basics
  import opened FatTable
  import opened DirectoryEntries
  import opened FatVolume
  import opened FatSteps
  import opened Fat12Driver

  // ---------------------------------------------------------------------------
  // Chains extended and cut

  lemma ChainExtended(fat: seq<nat>, cs: seq<nat>, new_: nat)
    requires IsChain(fat, cs) && new_ in FreeClusters(fat)
    ensures IsChain(fat[new_ := EOF][cs[|cs| - 1] := new_], cs + [new_])
  {
    var fat', cs' := fat[new_ := EOF][cs[|cs| - 1] := new_], cs + [new_];
    forall c | c in cs ensures c != new_ { ChainNotFree(fat, cs, c); }
    forall i | 0 <= i < |cs'| - 1 ensures fat'[cs'[i]] == cs'[i + 1] {
      if i < |cs| - 1 { assert cs'[i] == cs[i] != cs[|cs| - 1] && fat[cs[i]] == cs[i + 1]; }
    }
    forall i, j | 0 <= i < j < |cs'| ensures cs'[i] != cs'[j] { assert cs'[i] in cs; }
  }

  lemma ChainCut(fat: seq<nat>, cs: seq<nat>, k: nat)
    requires IsChain(fat, cs) && k < |cs|
    ensures IsChain(ZeroAll(fat, cs[k + 1..])[cs[k] := EOF], cs[..k + 1])
  {
    var fat', cs' := ZeroAll(fat, cs[k + 1..])[cs[k] := EOF], cs[..k + 1];
    forall i | 0 <= i < |cs'| - 1 ensures fat'[cs'[i]] == cs'[i + 1] {
      assert cs'[i] == cs[i] && cs[i] != cs[k] && cs[i] !in cs[k + 1..];
      assert fat[cs[i]] == cs[i + 1];
    }
  }

  // ---------------------------------------------------------------------------
  // Records spread over clusters

  lemma SliceJoin<T>(s: seq<T>, i: nat, j: nat)
    requires i <= j <= |s|
    ensures s[i..j] + s[j..] == s[i..]
  {
  }

  /** How many records fit into one cluster. */
  function PerCluster(g: Geometry): nat { 16 * g.spc }

  /** The records of a list of clusters, one cluster after the other. */
  function ClusterRecords(v: Volume, cs: seq<nat>): seq<Entry>
    requires AllClusters(cs)
  {
    if cs == [] then [] else Records(ClusterData(v, cs[0]), PerCluster(v.geo)) + ClusterRecords(v, cs[1..])
  }

  /** Cluster `k` of the list holds the `k`-th part of `data`. */
  ghost predicate HoldsParts(v: Volume, cs: seq<nat>, data: seq<Byte>)
    requires AllClusters(cs)
  {
    forall k | 0 <= k < |cs| :: ClusterData(v, cs[k]) == Chunk(data, k, ClusterSize(v.geo))
  }

  lemma RecordsOfSlice(data: seq<Byte>, total: nat, block: seq<Byte>, off: nat, n: nat)
    requires 32 * total <= |data| && off + n <= total && |block| == 32 * n
    requires forall j | 0 <= j < |block| :: block[j] == data[32 * off + j]
    ensures Records(block, n) == Records(data, total)[off..off + n]
  {
    forall r | 0 <= r < n ensures Records(block, n)[r] == Records(data, total)[off + r] {
      assert block[32 * r..32 * r + 32] == data[32 * (off + r)..32 * (off + r) + 32];
    }
  }

  /** Clusters that hold the parts of `data` hold its records. */
  lemma {:induction false} PartsHoldRecords(v: Volume, cs: seq<nat>, data: seq<Byte>, total: nat, k: nat)
    requires AllClusters(cs) && HoldsParts(v, cs, data) && k <= |cs|
    requires total == |cs| * PerCluster(v.geo) && |data| == 32 * total
    ensures k * PerCluster(v.geo) <= total
    ensures ClusterRecords(v, cs[k..]) == Records(data, total)[k * PerCluster(v.geo)..]
    decreases |cs| - k
  {
    var n := PerCluster(v.geo);
    if k < |cs| {
      NextPart(k, |cs|, n);
      PartsHoldRecords(v, cs, data, total, k + 1);
      OnePart(v, cs, data, total, k);
      RecordsFrom(v, cs, k);
      SliceJoin(Records(data, total), k * n, (k + 1) * n);
    } else {
      assert cs[k..] == [] && Records(data, total)[total..] == [];
    }
  }

  lemma {:induction false} RecordsFrom(v: Volume, cs: seq<nat>, k: nat)
    requires AllClusters(cs) && k < |cs|
    ensures ClusterRecords(v, cs[k..]) == Records(ClusterData(v, cs[k]), PerCluster(v.geo)) + ClusterRecords(v, cs[k + 1..])
  {
    assert cs[k..][1..] == cs[k + 1..];
  }

  lemma NextPart(k: nat, count: nat, n: nat)
    requires k < count
    ensures (k + 1) * n == k * n + n <= count * n
  {
    SlotsInOrder(k, count, n);
  }

  lemma OnePart(v: Volume, cs: seq<nat>, data: seq<Byte>, total: nat, k: nat)
    requires AllClusters(cs) && HoldsParts(v, cs, data) && k < |cs|
    requires total == |cs| * PerCluster(v.geo) && |data| == 32 * total
    ensures k * PerCluster(v.geo) <= (k + 1) * PerCluster(v.geo) <= total
    ensures Records(ClusterData(v, cs[k]), PerCluster(v.geo))
         == Records(data, total)[k * PerCluster(v.geo)..(k + 1) * PerCluster(v.geo)]
  {
    var n := PerCluster(v.geo);
    NextPart(k, |cs|, n);
    PartStart(k, v.geo);
    RecordsOfSlice(data, total, ClusterData(v, cs[k]), k * n, n);
  }

  lemma PartStart(k: nat, g: Geometry)
    ensures k * ClusterSize(g) == 32 * (k * PerCluster(g)) && ClusterSize(g) == 32 * PerCluster(g)
  {
  }

  // ---------------------------------------------------------------------------
  // Reading

  /** The records that reading the clusters in turn collects, up to an end mark; or the error at
      the first cluster before it that is not on the disk or not in the table. */
  function ReadOutcome(v: Volume, cs: seq<nat>): Result<seq<Entry>> {
    if cs == [] || cs[0] < 2 then Ok([])
    else if !OnDisk(v.disk, ClusterSector(v.geo, cs[0]), v.geo.spc) then Err(ReadFailed)
    else
      var rs := Records(ClusterData(v, cs[0]), PerCluster(v.geo));
      if HasEnd(rs) then Ok(Listed(rs))
      else if cs[0] >= |Fat(v)| then Err(OutOfBounds)
      else Prepend(Listed(rs), ReadOutcome(v, cs[1..]))
  }

  function Prepend(es: seq<Entry>, r: Result<seq<Entry>>): Result<seq<Entry>> {
    match r
    case Ok(rest) => Ok(es + rest)
    case Err(e) => Err(e)
  }

  /** With every cluster on the disk and in the table, the whole list is read. */
  lemma {:induction false} AllIsRead(v: Volume, cs: seq<nat>)
    requires AllClusters(cs) && ClustersOnDisk(v.geo, v.disk, cs) && forall k | 0 <= k < |cs| :: cs[k] < |Fat(v)|
    ensures ReadOutcome(v, cs) == Ok(Listed(ClusterRecords(v, cs)))
  {
    if cs != [] {
      AllIsRead(v, cs[1..]);
      ListedConcat(Records(ClusterData(v, cs[0]), PerCluster(v.geo)), ClusterRecords(v, cs[1..]));
      Assoc(Listed(Records(ClusterData(v, cs[0]), PerCluster(v.geo))), [], []);
    }
  }

  lemma {:induction false} ReadStep(v: Volume, c: nat, cs: seq<nat>, before: seq<Entry>)
    requires InRange(c) && IsWalk(Fat(v), c, cs)
    ensures var rs := Records(ClusterData(v, c), PerCluster(v.geo));
            Prepend(before, ReadOutcome(v, cs))
              == if !OnDisk(v.disk, ClusterSector(v.geo, c), v.geo.spc) then Err(ReadFailed)
                 else if HasEnd(rs) then Ok(before + Listed(rs))
                 else if c >= |Fat(v)| then Err(OutOfBounds)
                 else Prepend(before + Listed(rs), ReadOutcome(v, cs[1..]))
  {
    var rs, rest := Records(ClusterData(v, c), PerCluster(v.geo)), ReadOutcome(v, cs[1..]);
    if rest.Ok? { Assoc(before, Listed(rs), rest.value); }
  }

  /** Lists one cluster, and says whether it holds the end mark. */
  method ReadPart(d: Driver, cluster: nat) returns (r: Result<(seq<Entry>, bool)>)
    requires cluster >= 2
    ensures r == if !OnDisk(d.disk, ClusterSector(d.geo, cluster), d.geo.spc) then Err(ReadFailed)
                 else var rs := Records(ClusterData(d.V(), cluster), PerCluster(d.geo)); Ok((Listed(rs), HasEnd(rs)))
  {
    var data := d.ReadCluster(cluster);
    if data.Err? { return Err(ReadFailed); }
    var es, ended := d.ParseRecords(data.value, PerCluster(d.geo));
    return Ok((es, ended));
  }

  lemma BeforeRead(r: Result<seq<Entry>>)
    ensures Prepend([], r) == r
  {
    if r.Ok? { Assoc(r.value, [], []); }
  }

  lemma AfterRead(es: seq<Entry>)
    ensures Prepend(es, Ok([])) == Ok(es)
  {
    Assoc(es, [], []);
  }

  /** Lists a directory cluster by cluster, as long as the links name clusters. */
  method ReadSubdirectory(d: Driver, first: nat, ghost cs: seq<nat>) returns (r: Result<seq<Entry>>)
    requires IsWalk(Fat(d.V()), first, cs)
    ensures r == ReadOutcome(d.V(), cs)
  {
    ghost var v := d.V();
    var entries: seq<Entry> := [];
    var cluster: nat := first;
    ghost var rest := cs;
    BeforeRead(ReadOutcome(v, cs));
    while InRange(cluster)
      invariant IsWalk(Fat(v), cluster, rest)
      invariant Prepend(entries, ReadOutcome(v, rest)) == ReadOutcome(v, cs)
      decreases |rest|
    {
      ReadStep(v, cluster, rest, entries);
      var part := ReadPart(d, cluster);
      if part.Err? { return Err(ReadFailed); }
      entries := entries + part.value.0;
      if part.value.1 { return Ok(entries); }
      if cluster >= EntryCount(|d.cache|) { return Err(OutOfBounds); }
      cluster := Get(d.cache, cluster);
      rest := rest[1..];
    }
    AfterRead(entries);
    return Ok(entries);
  }

  // ---------------------------------------------------------------------------
  // Writing

  /** The directory's chain `cs` has become `cs'`: extended with free clusters, kept, or cut with
      the tail freed; its clusters hold the records `es`, and nothing else has changed. */
  ghost predicate SubdirectoryWritten(v: Volume, cs: seq<nat>, v': Volume, cs': seq<nat>, es: seq<Entry>) {
    && AllClusters(cs') && IsChain(Fat(v'), cs') && |Fat(v')| == |Fat(v)|
    && (cs <= cs' || cs' <= cs)
    && (forall c | c in cs' && c !in cs :: c < |Fat(v)| && Fat(v)[c] == 0)
    && (forall c | c in cs && c !in cs' :: c < |Fat(v)| && Fat(v')[c] == 0)
    && (forall c | 0 <= c < |Fat(v)| && c !in cs && c !in cs' :: Fat(v')[c] == Fat(v)[c])
    && OnlyClusters(v, v', cs') && ClustersOnDisk(v'.geo, v'.disk, cs')
    && exists data :: DirectoryData(v', cs', es, data)
  }

  ghost predicate DirectoryData(v: Volume, cs: seq<nat>, es: seq<Entry>, data: seq<Byte>)
    requires AllClusters(cs)
  {
    && |data| == 32 * (|cs| * PerCluster(v.geo)) && |es| <= |cs| * PerCluster(v.geo)
    && LaidOut(data, es)
    && HoldsParts(v, cs, data)
  }

  /** Reading a directory back after writing it yields exactly its visible records before the
      first end mark. */
  lemma ReadBack(v: Volume, cs: seq<nat>, v': Volume, cs': seq<nat>, es: seq<Entry>)
    requires SubdirectoryWritten(v, cs, v', cs', es)
    ensures ReadOutcome(v', cs') == Ok(Listed(es))
  {
    var data :| DirectoryData(v', cs', es, data);
    var total := |cs'| * PerCluster(v'.geo);
    PartsHoldRecords(v', cs', data, total, 0);
    assert cs'[0..] == cs' && Records(data, total)[0..] == Records(data, total);
    ParseLaidOut(data, es, total);
    AllIsRead(v', cs');
  }

  /** `chain` is the directory's chain `cs`, extended so far with the lowest clusters that were free. */
  ghost predicate TableState(fat0: seq<nat>, cs: seq<nat>, fat: seq<nat>, chain: seq<nat>) {
    && |fat| == |fat0| && IsChain(fat0, cs) && IsChain(fat, chain) && cs <= chain
    && FirstFree(fat0, chain[|cs|..])
    && (forall c | 0 <= c < |fat0| && c !in chain :: fat[c] == fat0[c])
  }

  /** Only the chain and clusters that were free have changed, in the table and on the disk. */
  ghost predicate Touched(v: Volume, cs: seq<nat>, v': Volume, chain: seq<nat>) {
    && AllClusters(chain) && |v'.cache| == |v.cache|
    && TableState(Fat(v), cs, Fat(v'), chain) && OnlyClusters(v, v', chain)
  }

  /** The first `m` clusters of the chain, followed by the lowest free ones, lie on the disk. */
  ghost predicate FirstOnDisk(v: Volume, cs: seq<nat>, m: nat) {
    exists more :: MoreOnDisk(v, cs, m, more)
  }

  ghost predicate MoreOnDisk(v: Volume, cs: seq<nat>, m: nat, more: seq<nat>) {
    && FirstFree(Fat(v), more) && |more| == (if m > |cs| then m - |cs| else 0)
    && ClustersOnDisk(v.geo, v.disk, (cs + more)[..m])
  }

  lemma AddedWasFree(fat0: seq<nat>, cs: seq<nat>, chain: seq<nat>, i: nat)
    requires |cs| <= i < |chain| && FirstFree(fat0, chain[|cs|..])
    ensures chain[i] < |fat0| && fat0[chain[i]] == 0 && chain[i] in FreeClusters(fat0)
  {
    assert chain[|cs|..][i - |cs|] == chain[i];
  }

  /** The clusters added so far start every list of lowest free clusters that is long enough. */
  lemma ChainIsStart(fat0: seq<nat>, cs: seq<nat>, chain: seq<nat>, more: seq<nat>, k: nat)
    requires cs <= chain && FirstFree(fat0, chain[|cs|..]) && FirstFree(fat0, more) && k < |chain| && k < |cs + more|
    ensures (cs + more)[k] == chain[k]
  {
    if k >= |cs| {
      var added, n := chain[|cs|..], k - |cs| + 1;
      FirstFreeIsUnique(fat0, added, more, n);
      assert added[..n][n - 1] == more[..n][n - 1];
    }
  }

  /** The first `n` clusters of the chain are written, and nothing else on disk. */
  ghost predicate DataState(v: Volume, v1: Volume, chain: seq<nat>, n: nat, data: seq<Byte>) {
    && AllClusters(chain) && n <= |chain| && |v1.cache| == |v.cache|
    && OnlyClusters(v, v1, chain[..n]) && ClustersOnDisk(v.geo, v.disk, chain[..n])
    && (forall j | 0 <= j < n :: ClusterData(v1, chain[j]) == Chunk(data, j, ClusterSize(v.geo)))
  }

  /** The state of the writing loop before cluster `k` is written. */
  ghost predicate Writing(v: Volume, cs: seq<nat>, v1: Volume, chain: seq<nat>, k: nat, data: seq<Byte>) {
    && TableState(Fat(v), cs, Fat(v1), chain) && DataState(v, v1, chain, k, data)
    && k < |chain| && (|chain| == |cs| || |chain| == k + 1)
  }

  /** Every cluster added to the chain was taken from the free ones. */
  predicate Spent(fat0: seq<nat>, cs: seq<nat>, fat: seq<nat>, chain: seq<nat>) {
    |FreeClusters(fat)| + |chain| == |FreeClusters(fat0)| + |cs|
  }

  lemma LinkSpends(fat0: seq<nat>, cs: seq<nat>, fat: seq<nat>, chain: seq<nat>, next: nat)
    requires IsChain(fat, chain) && next in FreeClusters(fat) && Spent(fat0, cs, fat, chain)
    ensures Spent(fat0, cs, fat[next := EOF][chain[|chain| - 1] := next], chain + [next])
  {
    var last := chain[|chain| - 1];
    assert last !in FreeClusters(fat) by { ChainNotFree(fat, chain, last); }
    assert FreeClusters(fat[next := EOF][last := next]) == FreeClusters(fat) - {next};
  }

  /** The same once cluster `k` is written. */
  ghost predicate Filled(v: Volume, cs: seq<nat>, v2: Volume, chain: seq<nat>, k: nat, data: seq<Byte>) {
    && k < |chain| && (|chain| == |cs| || |chain| == k + 1)
    && TableState(Fat(v), cs, Fat(v2), chain) && DataState(v, v2, chain, k + 1, data)
  }

  /** One more cluster filled. */
  lemma ClusterWritten(v: Volume, v1: Volume, chain: seq<nat>, k: nat, data: seq<Byte>, v2: Volume)
    requires DataState(v, v1, chain, k, data) && k < |chain| && Distinct(chain) && v2.cache == v1.cache
    requires OnlyClusters(v1, v2, [chain[k]]) && ClusterData(v2, chain[k]) == Chunk(data, k, ClusterSize(v.geo))
    requires OnDisk(v1.disk, ClusterSector(v1.geo, chain[k]), v1.geo.spc)
    ensures DataState(v, v2, chain, k + 1, data)
  {
    forall j | 0 <= j < k ensures ClusterData(v2, chain[j]) == ClusterData(v1, chain[j]) {
      OtherClustersKept(v1, v2, [chain[k]], chain[j]);
    }
    OneMoreOnDisk(v, v1, chain, k);
    WidenPrefix(v, v1, chain, k);
    WidenClusters(v, v1, v2, chain[..k + 1], k);
  }

  lemma OneMoreOnDisk(v: Volume, v1: Volume, chain: seq<nat>, k: nat)
    requires AllClusters(chain) && k < |chain| && ClustersOnDisk(v.geo, v.disk, chain[..k])
    requires v1.geo == v.geo && v1.disk.Keys == v.disk.Keys
    requires OnDisk(v1.disk, ClusterSector(v1.geo, chain[k]), v1.geo.spc)
    ensures ClustersOnDisk(v.geo, v.disk, chain[..k + 1])
  {
    var shorter, longer := chain[..k], chain[..k + 1];
    forall i | 0 <= i < |longer| ensures OnDisk(v.disk, ClusterSector(v.geo, longer[i]), v.geo.spc) {
      if i < k { assert longer[i] == shorter[i]; }
    }
  }

  lemma WidenPrefix(v: Volume, v1: Volume, chain: seq<nat>, k: nat)
    requires AllClusters(chain) && k < |chain| && OnlyClusters(v, v1, chain[..k])
    ensures OnlyClusters(v, v1, chain[..k + 1])
  {
    var narrow, wide := chain[..k], chain[..k + 1];
    forall l | l in v.disk && (forall i | 0 <= i < |wide| :: !InCluster(v.geo, l, wide[i]))
      ensures v1.disk[l] == v.disk[l]
    {
      forall i | 0 <= i < |narrow| ensures !InCluster(v.geo, l, narrow[i]) { assert narrow[i] == wide[i]; }
    }
  }

  /** Going on along the existing chain. */
  lemma NextExisting(v: Volume, cs: seq<nat>, v2: Volume, chain: seq<nat>, k: nat, data: seq<Byte>)
    requires Filled(v, cs, v2, chain, k, data) && Fat(v2)[chain[k]] < EOF
    ensures k + 1 < |chain| && Fat(v2)[chain[k]] == chain[k + 1] && Writing(v, cs, v2, chain, k + 1, data)
  {
  }

  /** The lowest cluster that is still free comes next. */
  lemma LowestAdded(fat0: seq<nat>, cs: seq<nat>, fat: seq<nat>, chain: seq<nat>, next: nat)
    requires TableState(fat0, cs, fat, chain) && next in FreeClusters(fat) && next !in chain
    requires forall c | c in FreeClusters(fat) :: next <= c
    ensures FirstFree(fat0, (chain + [next])[|cs|..])
  {
    var added, more := chain[|cs|..], (chain + [next])[|cs|..];
    assert more == added + [next] && chain == cs + added;
    forall d | d in FreeClusters(fat0) && d !in added ensures next <= d {
      StillFree(fat0, cs, fat, chain, d);
    }
    FirstFreeExtended(fat0, added, next);
  }

  lemma FirstFreeExtended(fat: seq<nat>, cs: seq<nat>, next: nat)
    requires FirstFree(fat, cs) && next in FreeClusters(fat) && next !in cs
    requires forall d | d in FreeClusters(fat) && d !in cs :: next <= d
    ensures FirstFree(fat, cs + [next])
  {
    var more := cs + [next];
    forall d, i | d in FreeClusters(fat) && d !in more && 0 <= i < |more| ensures more[i] < d {
      assert d !in cs && d != next by { assert next == more[|cs|]; assert forall x | x in cs :: x in more; }
    }
  }

  lemma StillFree(fat0: seq<nat>, cs: seq<nat>, fat: seq<nat>, chain: seq<nat>, d: nat)
    requires TableState(fat0, cs, fat, chain) && d in FreeClusters(fat0) && d !in chain[|cs|..]
    ensures d in FreeClusters(fat)
  {
    assert chain == cs + chain[|cs|..];
    if d in cs { ChainNotFree(fat0, cs, d); }
  }

  /** Linking a free cluster behind the last one of the chain. */
  lemma TableExtended(fat0: seq<nat>, cs: seq<nat>, fat2: seq<nat>, chain: seq<nat>, next: nat)
    requires TableState(fat0, cs, fat2, chain) && next in FreeClusters(fat2)
    requires forall c | c in FreeClusters(fat2) :: next <= c
    ensures TableState(fat0, cs, fat2[next := EOF][chain[|chain| - 1] := next], chain + [next])
  {
    ChainExtended(fat2, chain, next);
    assert next !in chain by { if next in chain { ChainNotFree(fat2, chain, next); } }
    LowestAdded(fat0, cs, fat2, chain, next);
    var fat3 := fat2[next := EOF][chain[|chain| - 1] := next];
    forall c | 0 <= c < |fat0| && c !in chain + [next] ensures fat3[c] == fat0[c] {
      assert chain[|chain| - 1] in chain;
    }
  }

  /** Going on with a newly allocated cluster. */
  lemma NextAllocated(v: Volume, cs: seq<nat>, v2: Volume, chain: seq<nat>, k: nat, data: seq<Byte>, next: nat, v3: Volume)
    requires Filled(v, cs, v2, chain, k, data) && k + 1 == |chain| && next in FreeClusters(Fat(v2))
    requires forall c | c in FreeClusters(Fat(v2)) :: next <= c
    requires v3.geo == v2.geo && v3.disk == v2.disk && |v3.cache| == |v2.cache|
    requires Fat(v3) == Fat(v2)[next := EOF][chain[k] := next]
    ensures Writing(v, cs, v3, chain + [next], k + 1, data)
  {
    assert TableState(Fat(v), cs, Fat(v3), chain + [next]) by { TableExtended(Fat(v), cs, Fat(v2), chain, next); }
    assert DataState(v, v3, chain + [next], k + 1, data) by { SameParts(v, v2, v3, chain, next, data); }
  }

  lemma SameParts(v: Volume, v2: Volume, v3: Volume, chain: seq<nat>, next: nat, data: seq<Byte>)
    requires v3.geo == v2.geo && v3.disk == v2.disk && |v3.cache| == |v2.cache| && next >= 2
    requires DataState(v, v2, chain, |chain|, data)
    ensures DataState(v, v3, chain + [next], |chain|, data)
  {
    var longer := chain + [next];
    assert longer[..|chain|] == chain == chain[..|chain|];
    forall j | 0 <= j < |chain| ensures ClusterData(v3, longer[j]) == Chunk(data, j, ClusterSize(v.geo)) {
      assert longer[j] == chain[j];
    }
  }

  /** Cutting the chain behind the last cluster written. */
  lemma Finished(v: Volume, cs: seq<nat>, v2: Volume, chain: seq<nat>, k: nat, data: seq<Byte>, es: seq<Entry>, v3: Volume)
    requires Filled(v, cs, v2, chain, k, data)
    requires v3.geo == v2.geo && v3.disk == v2.disk && |v3.cache| == |v2.cache|
    requires Fat(v3) == ZeroAll(Fat(v2), chain[k + 1..])[chain[k] := EOF]
    requires LaidOut(data, es) && |data| == 32 * ((k + 1) * PerCluster(v.geo)) && |es| <= (k + 1) * PerCluster(v.geo)
    ensures SubdirectoryWritten(v, cs, v3, chain[..k + 1], es)
  {
    var cs', tail := chain[..k + 1], chain[k + 1..];
    ChainCut(Fat(v2), chain, k);
    assert chain == cs' + tail;
    CutAccounts(v, cs, v2, chain, k, v3);
    forall j | 0 <= j < |cs'| ensures ClusterData(v3, cs'[j]) == Chunk(data, j, ClusterSize(v.geo)) {
      assert cs'[j] == chain[j];
    }
    assert DirectoryData(v3, cs', es, data);
  }

  lemma PrefixMember(cs: seq<nat>, chain: seq<nat>, i: nat)
    requires cs <= chain && i < |chain|
    ensures i < |cs| ==> chain[i] in cs
  {
    if i < |cs| { assert cs[i] == chain[i]; }
  }

  lemma NewMemberWasFree(fat0: seq<nat>, cs: seq<nat>, chain: seq<nat>, c: nat)
    requires cs <= chain && FirstFree(fat0, chain[|cs|..]) && c in chain && c !in cs
    ensures c < |fat0| && fat0[c] == 0
  {
    var i :| 0 <= i < |chain| && chain[i] == c;
    PrefixMember(cs, chain, i);
    AddedWasFree(fat0, cs, chain, i);
  }

  lemma CutMembers(cs: seq<nat>, chain: seq<nat>, k: nat, c: nat)
    requires cs <= chain && k < |chain| && (|chain| == |cs| || |chain| == k + 1)
    ensures c in cs && c !in chain[..k + 1] ==> c in chain[k + 1..]
    ensures c !in cs && c !in chain[..k + 1] ==> c !in chain
    ensures chain[k] in chain[..k + 1] && (cs <= chain[..k + 1] || chain[..k + 1] <= cs)
    ensures c in chain[..k + 1] || c in chain[k + 1..] ==> c in chain
  {
    assert chain == chain[..k + 1] + chain[k + 1..];
    assert chain[..k + 1][k] == chain[k];
    assert |chain| == |cs| ==> chain == cs;
    assert |chain| == k + 1 ==> chain == chain[..k + 1];
    if c in cs {
      var i :| 0 <= i < |cs| && cs[i] == c;
      assert chain[i] == c;
    }
  }

  lemma CutAccounts(v: Volume, cs: seq<nat>, v2: Volume, chain: seq<nat>, k: nat, v3: Volume)
    requires TableState(Fat(v), cs, Fat(v2), chain) && k < |chain|
    requires |chain| == |cs| || |chain| == k + 1
    requires |v3.cache| == |v2.cache| && Fat(v3) == ZeroAll(Fat(v2), chain[k + 1..])[chain[k] := EOF]
    ensures var cs' := chain[..k + 1];
            && (cs <= cs' || cs' <= cs)
            && (forall c | c in cs' && c !in cs :: c < |Fat(v)| && Fat(v)[c] == 0)
            && (forall c | c in cs && c !in cs' :: c < |Fat(v)| && Fat(v3)[c] == 0)
            && (forall c | 0 <= c < |Fat(v)| && c !in cs && c !in cs' :: Fat(v3)[c] == Fat(v)[c])
  {
    var cs' := chain[..k + 1];
    CutMembers(cs, chain, k, 0);
    forall c | c in cs' && c !in cs ensures c < |Fat(v)| && Fat(v)[c] == 0 {
      CutMembers(cs, chain, k, c);
      NewMemberWasFree(Fat(v), cs, chain, c);
    }
    forall c | c in cs && c !in cs' ensures c < |Fat(v)| && Fat(v3)[c] == 0 { CutMembers(cs, chain, k, c); }
    forall c | 0 <= c < |Fat(v)| && c !in cs && c !in cs' ensures Fat(v3)[c] == Fat(v)[c] { CutMembers(cs, chain, k, c); }
  }

  /** Writes one part of the directory's bytes to cluster `k` of the chain. */
  method FillNext(d: Driver, cluster: nat, data: seq<Byte>, k: nat, ghost v: Volume, ghost cs: seq<nat>, ghost chain: seq<nat>)
      returns (ok: bool)
    requires Writing(v, cs, d.V(), chain, k, data) && cluster == chain[k] && k * ClusterSize(d.geo) <= |data|
    modifies d`disk
    ensures ok ==> Filled(v, cs, d.V(), chain, k, data)
    ensures !ok ==> Touched(v, cs, d.V(), chain) && !OnDisk(v.disk, ClusterSector(v.geo, chain[k]), v.geo.spc)
  {
    ghost var v1 := d.V();
    ok := d.WriteChunk(cluster, data, k);
    if ok { ClusterWritten(v, v1, chain, k, data, d.V()); } else { ClusterTouched(v, v1, chain, k, data, d.V()); }
  }

  lemma ClusterTouched(v: Volume, v1: Volume, chain: seq<nat>, k: nat, data: seq<Byte>, v2: Volume)
    requires DataState(v, v1, chain, k, data) && k < |chain| && OnlyClusters(v1, v2, [chain[k]])
    ensures OnlyClusters(v, v2, chain)
  {
    WidenAll(v, v1, chain, k);
    WidenClusters(v, v1, v2, chain, k);
  }

  lemma WidenAll(v: Volume, v1: Volume, chain: seq<nat>, k: nat)
    requires AllClusters(chain) && k <= |chain| && OnlyClusters(v, v1, chain[..k])
    ensures OnlyClusters(v, v1, chain)
  {
    var narrow := chain[..k];
    forall l | l in v.disk && (forall i | 0 <= i < |chain| :: !InCluster(v.geo, l, chain[i]))
      ensures v1.disk[l] == v.disk[l]
    {
      forall i | 0 <= i < |narrow| ensures !InCluster(v.geo, l, narrow[i]) { assert narrow[i] == chain[i]; }
    }
  }

  /** What has been written is on the disk. */
  lemma FilledOnDisk(v: Volume, cs: seq<nat>, v2: Volume, chain: seq<nat>, k: nat, data: seq<Byte>)
    requires Filled(v, cs, v2, chain, k, data)
    ensures FirstOnDisk(v, cs, k + 1)
  {
    if k + 1 <= |cs| {
      assert (cs + [])[..k + 1] == chain[..k + 1];
      assert MoreOnDisk(v, cs, k + 1, []);
    } else {
      assert cs + chain[|cs|..] == chain;
      assert MoreOnDisk(v, cs, k + 1, chain[|cs|..]);
    }
  }

  /** A cluster that could not be written is one of the first ones. */
  lemma OffDisk(v: Volume, cs: seq<nat>, chain: seq<nat>, k: nat, m: nat)
    requires cs <= chain && FirstFree(Fat(v), chain[|cs|..]) && AllClusters(chain) && k < |chain| && k < m
    requires !OnDisk(v.disk, ClusterSector(v.geo, chain[k]), v.geo.spc)
    ensures !FirstOnDisk(v, cs, m)
  {
    if FirstOnDisk(v, cs, m) {
      var more :| MoreOnDisk(v, cs, m, more);
      ChainIsStart(Fat(v), cs, chain, more, k);
    }
  }

  /** The table once what follows `c` is freed and `c` marks the end of its chain. */
  function CutTable(fat: seq<nat>, c: nat): Option<seq<nat>>
    requires c < |fat|
  {
    if fat[c] >= EOF then Some(fat[c := EOF])
    else
      match FreeChain(fat, fat[c])
      case Some(freed) => Some(freed[c := EOF])
      case None => None
  }

  /** Ends the chain at `cluster` and frees what followed it. */
  method CutChain(d: Driver, cluster: nat) returns (ok: bool)
    requires cluster < |Fat(d.V())|
    modifies d`cache
    ensures |d.cache| == |old(d.cache)|
    ensures ok <==> CutTable(old(Fat(d.V())), cluster).Some?
    ensures ok ==> Fat(d.V()) == CutTable(old(Fat(d.V())), cluster).value
  {
    var next := Get(d.cache, cluster);
    if next < EOF {
      ok := d.FreeClusterChain(next);
      if !ok { return; }
    }
    d.SetFatEntry(cluster, EOF);
    return true;
  }

  lemma TailFreed(fat: seq<nat>, cs: seq<nat>, k: nat)
    requires IsChain(fat, cs) && k < |cs|
    ensures CutTable(fat, cs[k]) == Some(ZeroAll(fat, cs[k + 1..])[cs[k] := EOF])
  {
    if fat[cs[k]] < EOF {
      InsideChain(fat, cs, k);
      ChainSuffix(fat, cs, k + 1);
      FreeChainOfChain(fat, cs[k + 1..]);
    } else {
      LastOfChain(fat, cs, k + 1);
      assert cs[k + 1..] == [];
      ZeroNothing(fat);
    }
  }

  lemma InsideChain(fat: seq<nat>, cs: seq<nat>, k: nat)
    requires IsChain(fat, cs) && k < |cs| && fat[cs[k]] < EOF
    ensures k + 1 < |cs| && fat[cs[k]] == cs[k + 1]
  {
  }

  /** Allocates a cluster and links it behind `cluster`. */
  method AllocateBehind(d: Driver, cluster: nat) returns (r: Result<nat>)
    requires cluster < |Fat(d.V())|
    modifies d`cache
    ensures |d.cache| == |old(d.cache)|
    ensures r.Ok? ==> r.value in FreeClusters(old(Fat(d.V()))) && forall c | c in FreeClusters(old(Fat(d.V()))) :: r.value <= c
    ensures r.Ok? ==> Fat(d.V()) == old(Fat(d.V()))[r.value := EOF][cluster := r.value]
    ensures r.Err? ==> FreeClusters(old(Fat(d.V()))) == {} && r.error != WriteFailed && d.cache == old(d.cache)
  {
    ghost var fat := Fat(d.V());
    r := d.AllocateCluster();
    if r.Ok? {
      FreeFitsEntry(fat, r.value);
      d.SetFatEntry(cluster, r.value);
    }
  }

  lemma FreeFitsEntry(fat: seq<nat>, c: nat)
    requires c in FreeClusters(fat)
    ensures c % 4096 == c
  {
  }

  /** The cluster after `cluster`: the next of the chain, or a new one linked to it. */
  method Advance(d: Driver, cluster: nat, data: seq<Byte>, ghost v: Volume, ghost cs: seq<nat>, ghost chain: seq<nat>, ghost k: nat)
      returns (r: Result<nat>, ghost chain': seq<nat>)
    requires Filled(v, cs, d.V(), chain, k, data) && cluster == chain[k] && Spent(Fat(v), cs, Fat(d.V()), chain)
    modifies d`cache
    ensures |d.cache| == |old(d.cache)|
    ensures r.Ok? ==> Writing(v, cs, d.V(), chain', k + 1, data) && r.value == chain'[k + 1]
    ensures r.Ok? ==> Spent(Fat(v), cs, Fat(d.V()), chain')
    ensures r.Err? ==> k + 1 == |FreeClusters(Fat(v))| + |cs| && r.error != WriteFailed
    ensures r.Err? ==> d.cache == old(d.cache) && chain' == chain
  {
    ghost var v2 := d.V();
    chain' := chain;
    var next := Get(d.cache, cluster);
    if next >= EOF {
      LastOfChain(Fat(v2), chain, k + 1);
      r := AllocateBehind(d, cluster);
      if r.Ok? {
        chain' := chain + [r.value];
        LinkSpends(Fat(v), cs, Fat(v2), chain, r.value);
        NextAllocated(v, cs, v2, chain, k, data, r.value, d.V());
      }
    } else {
      NextExisting(v, cs, v2, chain, k, data);
      r := Ok(next);
    }
  }

  /** `data` is the directory's records laid out over `needed` clusters. */
  ghost predicate Laid(g: Geometry, es: seq<Entry>, data: seq<Byte>, needed: nat) {
    && LaidOut(data, es)
    && |data| == 32 * (needed * PerCluster(g)) && |es| <= needed * PerCluster(g)
    && forall k | 0 <= k < needed :: k * ClusterSize(g) <= |data|
  }

  lemma WithinReach(v: Volume, cs: seq<nat>, v1: Volume, chain: seq<nat>, k: nat)
    requires Spent(Fat(v), cs, Fat(v1), chain) && k < |chain|
    ensures k < |FreeClusters(Fat(v))| + |cs|
  {
  }

  /** How many clusters the chain can have. */
  function Reach(v: Volume, cs: seq<nat>): nat { |FreeClusters(Fat(v))| + |cs| }

  /** Writing failed at cluster `k` of the chain, or after it for want of another one. */
  ghost predicate PartFailed(v: Volume, cs: seq<nat>, v': Volume, chain: seq<nat>, k: nat, error: Error) {
    && Touched(v, cs, v', chain)
    && if error == WriteFailed then k < Reach(v, cs) && forall m | m > k :: !FirstOnDisk(v, cs, m)
       else k + 1 == Reach(v, cs) && FirstOnDisk(v, cs, k + 1)
  }

  lemma CouldNotWrite(v: Volume, cs: seq<nat>, v': Volume, chain: seq<nat>, k: nat)
    requires Touched(v, cs, v', chain) && k < |chain| && k < Reach(v, cs)
    requires !OnDisk(v.disk, ClusterSector(v.geo, chain[k]), v.geo.spc)
    ensures PartFailed(v, cs, v', chain, k, WriteFailed)
  {
    forall m | m > k ensures !FirstOnDisk(v, cs, m) { OffDisk(v, cs, chain, k, m); }
  }

  lemma RanOut(v: Volume, cs: seq<nat>, v2: Volume, chain: seq<nat>, k: nat, data: seq<Byte>, error: Error)
    requires Filled(v, cs, v2, chain, k, data) && k + 1 == Reach(v, cs) && error != WriteFailed
    ensures PartFailed(v, cs, v2, chain, k, error)
  {
    FilledOnDisk(v, cs, v2, chain, k, data);
    WidenAll(v, v2, chain, k + 1);
  }

  /** How the writing of `needed` clusters ends: well exactly if chain and free clusters suffice and
      are on the disk; for want of clusters exactly if they do not suffice but are on the disk; and
      with a write error exactly if one of those to be written is not. */
  ghost predicate WritingEnds(v: Volume, cs: seq<nat>, needed: nat, r: Result<()>) {
    var total := Reach(v, cs);
    && (r.Ok? <==> needed <= total && FirstOnDisk(v, cs, needed))
    && (r.Err? && r.error != WriteFailed <==> needed > total && FirstOnDisk(v, cs, total))
    && (r == Err(WriteFailed) <==> !FirstOnDisk(v, cs, if needed <= total then needed else total))
  }

  lemma EndsBadly(v: Volume, cs: seq<nat>, v': Volume, chain: seq<nat>, k: nat, needed: nat, error: Error)
    requires PartFailed(v, cs, v', chain, k, error) && k < needed && (error != WriteFailed ==> k + 1 < needed)
    ensures WritingEnds(v, cs, needed, Err(error))
  {
  }

  lemma EndsWell(v: Volume, cs: seq<nat>, needed: nat)
    requires needed <= Reach(v, cs) && FirstOnDisk(v, cs, needed)
    ensures WritingEnds(v, cs, needed, Ok(()))
  {
  }

  /** A part with more to follow: written, and the next cluster found or added. */
  method WritePart(d: Driver, cluster: nat, data: seq<Byte>, k: nat, ghost v: Volume, ghost cs: seq<nat>, ghost chain: seq<nat>)
      returns (r: Result<nat>, ghost chain': seq<nat>)
    requires Writing(v, cs, d.V(), chain, k, data) && cluster == chain[k] && k * ClusterSize(d.geo) <= |data|
    requires Spent(Fat(v), cs, Fat(d.V()), chain)
    modifies d`cache, d`disk
    ensures r.Ok? ==> Writing(v, cs, d.V(), chain', k + 1, data) && r.value == chain'[k + 1] && Spent(Fat(v), cs, Fat(d.V()), chain')
    ensures r.Err? ==> PartFailed(v, cs, d.V(), chain', k, r.error)
  {
    WithinReach(v, cs, d.V(), chain, k);
    var ok := FillNext(d, cluster, data, k, v, cs, chain);
    if !ok {
      CouldNotWrite(v, cs, d.V(), chain, k);
      return Err(WriteFailed), chain;
    }
    r, chain' := Advance(d, cluster, data, v, cs, chain, k);
    if r.Err? { RanOut(v, cs, d.V(), chain, k, data, r.error); }
  }

  /** The last part: written, and the chain cut behind it. */
  method WriteLast(d: Driver, cluster: nat, ghost es: seq<Entry>, data: seq<Byte>, k: nat,
                   ghost v: Volume, ghost cs: seq<nat>, ghost chain: seq<nat>) returns (ok: bool)
    requires Writing(v, cs, d.V(), chain, k, data) && cluster == chain[k] && Laid(v.geo, es, data, k + 1)
    requires Spent(Fat(v), cs, Fat(d.V()), chain)
    modifies d`cache, d`disk
    ensures ok ==> SubdirectoryWritten(v, cs, d.V(), chain[..k + 1], es) && WritingEnds(v, cs, k + 1, Ok(()))
    ensures !ok ==> PartFailed(v, cs, d.V(), chain, k, WriteFailed)
  {
    WithinReach(v, cs, d.V(), chain, k);
    ok := FillNext(d, cluster, data, k, v, cs, chain);
    if ok {
      FilledOnDisk(v, cs, d.V(), chain, k, data);
      EndsWell(v, cs, k + 1);
      FinishParts(d, cluster, es, data, k, v, cs, chain);
    } else {
      CouldNotWrite(v, cs, d.V(), chain, k);
    }
  }

  /** The writing loop: fills the chain part by part, extending or cutting it as needed. */
  method WriteParts(d: Driver, first: nat, es: seq<Entry>, data: seq<Byte>, needed: nat, ghost cs: seq<nat>)
      returns (r: Result<()>, ghost cs': seq<nat>)
    requires needed > 0 && Laid(d.geo, es, data, needed)
    requires IsChain(Fat(d.V()), cs) && cs[0] == first && AllClusters(cs)
    modifies d`cache, d`disk
    ensures WritingEnds(old(d.V()), cs, needed, r)
    ensures r.Ok? ==> |cs'| == needed && SubdirectoryWritten(old(d.V()), cs, d.V(), cs', es)
    ensures r.Err? ==> Touched(old(d.V()), cs, d.V(), cs')
  {
    ghost var v := d.V();
    var cluster, chunk := first, 0;
    ghost var chain := cs;
    cs' := cs;
    StartWriting(v, cs, data);
    while chunk + 1 < needed
      invariant chunk < needed && Writing(v, cs, d.V(), chain, chunk, data) && cluster == chain[chunk]
      invariant Spent(Fat(v), cs, Fat(d.V()), chain)
    {
      var next;
      next, chain := WritePart(d, cluster, data, chunk, v, cs, chain);
      if next.Err? {
        EndsBadly(v, cs, d.V(), chain, chunk, needed, next.error);
        return Err(next.error), chain;
      }
      cluster, chunk := next.value, chunk + 1;
    }
    var ok := WriteLast(d, cluster, es, data, chunk, v, cs, chain);
    if !ok {
      EndsBadly(v, cs, d.V(), chain, chunk, needed, WriteFailed);
      return Err(WriteFailed), chain;
    }
    return Ok(()), chain[..chunk + 1];
  }

  method FinishParts(d: Driver, cluster: nat, ghost es: seq<Entry>, ghost data: seq<Byte>, ghost k: nat,
                     ghost v: Volume, ghost cs: seq<nat>, ghost chain: seq<nat>)
    requires Filled(v, cs, d.V(), chain, k, data) && cluster == chain[k] && Laid(v.geo, es, data, k + 1)
    modifies d`cache
    ensures SubdirectoryWritten(v, cs, d.V(), chain[..k + 1], es)
  {
    ghost var v2 := d.V();
    TailFreed(Fat(v2), chain, k);
    var ok := CutChain(d, cluster);
    Finished(v, cs, v2, chain, k, data, es, d.V());
  }

  /** Rewrites a subdirectory: its chain ends up with exactly as many clusters as the records and
      an end mark need. A failure has touched nothing but the chain and clusters that were free. */
  method WriteSubdirectory(d: Driver, first: nat, es: seq<Entry>, ghost cs: seq<nat>)
      returns (r: Result<()>, ghost cs': seq<nat>)
    requires d.geo.spc > 0 && IsChain(Fat(d.V()), cs) && cs[0] == first && AllClusters(cs)
    modifies d`cache, d`disk
    ensures WritingEnds(old(d.V()), cs, CeilDiv(|es| + 1, PerCluster(d.geo)), r)
    ensures r.Ok? ==> |cs'| == CeilDiv(|es| + 1, PerCluster(d.geo)) && SubdirectoryWritten(old(d.V()), cs, d.V(), cs', es)
    ensures r.Ok? ==> cs' != [] && cs'[0] == first
    ensures r.Err? ==> Touched(old(d.V()), cs, d.V(), cs')
  {
    var needed := CeilDiv(|es| + 1, PerCluster(d.geo));
    EnoughClusters(|es|, PerCluster(d.geo));
    var data := d.LayOut(es, 32 * (needed * PerCluster(d.geo)));
    PartsFit(needed, d.geo);
    r, cs' := WriteParts(d, first, es, data, needed, cs);
  }

  /** Neither a rewritten directory nor a failure to rewrite it disturbs a file. */
  lemma TouchedKeepsFile(v: Volume, cs: seq<nat>, v': Volume, chain: seq<nat>, e: Entry, mine: seq<nat>, bytes: seq<Byte>)
    requires Touched(v, cs, v', chain) && FileAt(v, e, mine, bytes) && Disjoint(mine, cs)
    ensures FileAt(v', e, mine, bytes)
  {
    ChainInTable(v, e, mine, bytes);
    forall c | c in mine ensures c !in chain {
      if c in chain { NewMemberWasFree(Fat(v), cs, chain, c); }
    }
    forall c | c in mine ensures ClusterData(v', c) == ClusterData(v, c) { OtherClustersKept(v, v', chain, c); }
    FileKept(v, v', e, mine, bytes);
  }

  lemma WrittenKeepsFile(v: Volume, cs: seq<nat>, v': Volume, cs': seq<nat>, es: seq<Entry>, e: Entry, mine: seq<nat>, bytes: seq<Byte>)
    requires SubdirectoryWritten(v, cs, v', cs', es) && FileAt(v, e, mine, bytes) && Disjoint(mine, cs)
    ensures FileAt(v', e, mine, bytes)
  {
    ChainInTable(v, e, mine, bytes);
    forall c | c in mine ensures c !in cs' && ClusterData(v', c) == ClusterData(v, c) {
      assert c !in cs';
      OtherClustersKept(v, v', cs', c);
    }
    FileKept(v, v', e, mine, bytes);
  }

  /** Writing a subdirectory and reading it again from its first cluster shows what was written. */
  method RewriteSubdirectory(d: Driver, first: nat, es: seq<Entry>, ghost cs: seq<nat>) returns (r: Result<seq<Entry>>)
    requires d.geo.spc > 0 && IsChain(Fat(d.V()), cs) && cs[0] == first && AllClusters(cs)
    modifies d`cache, d`disk
    ensures r.Ok? ==> r.value == Listed(es)
    ensures r.Ok? ==> exists cs' :: SubdirectoryWritten(old(d.V()), cs, d.V(), cs', es)
    ensures var needed := CeilDiv(|es| + 1, PerCluster(d.geo));
            r.Ok? <==> needed <= Reach(old(d.V()), cs) && FirstOnDisk(old(d.V()), cs, needed)
  {
    ghost var v := d.V();
    ghost var cs';
    var written;
    written, cs' := WriteSubdirectory(d, first, es, cs);
    if written.Err? { return Err(written.error); }
    ReadBack(v, cs, d.V(), cs', es);
    ChainIsWalk(Fat(d.V()), cs');
    r := ReadSubdirectory(d, first, cs');
  }

  lemma EnoughClusters(count: nat, perCluster: nat)
    requires perCluster > 0
    ensures CeilDiv(count + 1, perCluster) > 0 && count < CeilDiv(count + 1, perCluster) * perCluster
  {
    CeilDivBounds(count + 1, perCluster);
  }

  lemma StartWriting(v: Volume, cs: seq<nat>, data: seq<Byte>)
    requires IsChain(Fat(v), cs) && AllClusters(cs)
    ensures Writing(v, cs, v, cs, 0, data)
  {
  }

  lemma PartsFit(needed: nat, g: Geometry)
    ensures forall k | 0 <= k < needed :: k * ClusterSize(g) <= 32 * (needed * PerCluster(g))
  {
    forall k | 0 <= k < needed ensures k * ClusterSize(g) <= 32 * (needed * PerCluster(g)) {
      PartStart(k, g);
      SlotsInOrder(k, needed, PerCluster(g));
    }
  }
}
