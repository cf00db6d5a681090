/** What the driver's successful operations do to a volume, as relations between volumes, and
    the update of the file map that each of them amounts to. */
module FatSteps {
  import opened Basics
  import opened FatTable
  import opened DirectoryEntries
  import opened FatVolume

  type Files = map<Name, seq<Byte>>

  predicate BootKept(v: Volume, v': Volume) { SectorAt(v'.disk, 0) == SectorAt(v.disk, 0) }

  /** Every copy of the table on disk is as it was. */
  predicate CopiesKept(v: Volume, v': Volume) {
    forall k | 0 <= k < v.geo.numFats ::
      ReadRange(v'.disk, CopyStart(v.geo, k), v.geo.fatSize) == ReadRange(v.disk, CopyStart(v.geo, k), v.geo.fatSize)
  }

  /** The root directory shows `es`, and no cluster outside `cs` has changed. */
  ghost predicate Committed(v: Volume, v': Volume, es: seq<Entry>, cs: seq<nat>) {
    && AllClusters(cs)
    && v'.geo == v.geo && v'.disk.Keys == v.disk.Keys && |v'.cache| == |v.cache|
    && BootKept(v, v')
    && RootEntries(v') == es
    && (forall c | c >= 2 && c !in cs :: ClusterData(v', c) == ClusterData(v, c))
  }

  /** The clusters `cs` of `v'` hold `data`, on a chain built in `fat` from free clusters. */
  ghost predicate Stored(v': Volume, fat: seq<nat>, cs: seq<nat>, data: seq<Byte>) {
    && AllClusters(cs)
    && ChainBuilt(fat, cs, Fat(v'))
    && |data| <= |cs| * ClusterSize(v'.geo)
    && ChainData(v', cs)[..|data|] == data
    && (forall i | 0 <= i < |cs| :: OnDisk(v'.disk, ClusterSector(v'.geo, cs[i]), v'.geo.spc))
  }

  // ---------------------------------------------------------------------------
  // The relations

  ghost predicate CreateStep(v: Volume, v': Volume, name: Name, data: seq<Byte>, attr: Byte, cs: seq<nat>) {
    && data != [] && |data| < 0x1_0000_0000
    && EncodeName(name).Ok?
    && Key(name) !in Keys(RootEntries(v))
    && cs != [] && cs[0] < 0x1_0000
    && Stored(v', Fat(v), cs, data)
    && Committed(v, v', RootEntries(v) + [NewEntry(EncodeName(name).value, attr, cs[0], |data|)], cs)
  }

  /** The table once the chain of entry `e` is freed. */
  function Freed(v: Volume, e: Entry): Option<seq<nat>> { FreeChain(Fat(v), e.first) }

  ghost predicate WriteStep(v: Volume, v': Volume, i: nat, data: seq<Byte>, cs: seq<nat>) {
    var es := RootEntries(v);
    && i < |es| && data != [] && |data| < 0x1_0000_0000
    && cs != [] && cs[0] < 0x1_0000
    && Freed(v, es[i]).Some? && Stored(v', Freed(v, es[i]).value, cs, data)
    && Committed(v, v', es[i := WithData(es[i], cs[0], |data|)], cs)
  }

  ghost predicate TruncateStep(v: Volume, v': Volume, i: nat) {
    var es := RootEntries(v);
    && i < |es|
    && Freed(v, es[i]) == Some(Fat(v'))
    && Committed(v, v', es[i := WithData(es[i], 0, 0)], [])
  }

  /** A creation whose record is not shown: the clusters are taken and no entry refers to them. */
  ghost predicate HiddenStep(v: Volume, v': Volume, data: seq<Byte>, cs: seq<nat>) {
    Stored(v', Fat(v), cs, data) && Committed(v, v', RootEntries(v), cs)
  }

  predicate StartsWithZero(name: Name) { name != [] && name[0] == 0 }

  /** What the root directory shows once entry `i` is stored under another name: a name that
      starts with a zero byte hides the entry and all entries behind it, one that starts with the
      deletion mark the entry alone. */
  function AfterRename(es: seq<Entry>, i: nat, name: Name): seq<Entry>
    requires i < |es| && EncodeName(name).Ok?
  {
    if StartsWithZero(name) then es[..i]
    else if !Shows(name) then Remove(es, i)
    else es[i := WithName(es[i], EncodeName(name).value)]
  }

  ghost predicate RenameStep(v: Volume, v': Volume, i: nat, name: Name) {
    var es := RootEntries(v);
    && i < |es| && EncodeName(name).Ok?
    && v'.cache == v.cache && CopiesKept(v, v')
    && Committed(v, v', AfterRename(es, i, name), [])
  }

  ghost predicate DeleteStep(v: Volume, v': Volume, i: nat) {
    var es := RootEntries(v);
    && i < |es|
    && Freed(v, es[i]) == Some(Fat(v'))
    && Committed(v, v', Remove(es, i), [])
  }

  /** Freeing the chain of a well-formed file frees its clusters and nothing else. */
  lemma FreeingAFile(v: Volume, e: Entry, cs: seq<nat>, bytes: seq<Byte>)
    requires FileAt(v, e, cs, bytes)
    ensures Freed(v, e) == Some(ZeroAll(Fat(v), cs))
  {
    if cs == [] { ZeroNothing(Fat(v)); } else { FreeChainOfChain(Fat(v), cs); }
  }

  // ---------------------------------------------------------------------------
  // Common parts of the proofs

  /** Files off the freed and the newly built chain keep their contents. */
  lemma OtherFileKept(v: Volume, v': Volume, e: Entry, mine: seq<nat>, bytes: seq<Byte>, gone: seq<nat>, cs: seq<nat>, es: seq<Entry>)
    requires FileAt(v, e, mine, bytes) && Committed(v, v', es, cs)
    requires Disjoint(mine, gone)
    requires |Fat(v')| == |Fat(v)|
    requires forall c | 0 <= c < |Fat(v)| && c !in cs :: Fat(v')[c] == ZeroAll(Fat(v), gone)[c]
    requires forall c | c in cs :: c < |Fat(v)| && ZeroAll(Fat(v), gone)[c] == 0
    ensures FileAt(v', e, mine, bytes)
    ensures Disjoint(mine, cs) && Disjoint(cs, mine)
  {
    ChainInTable(v, e, mine, bytes);
    FileKept(v, v', e, mine, bytes);
  }

  lemma NewFileAt(v: Volume, v': Volume, e: Entry, fat: seq<nat>, cs: seq<nat>, data: seq<Byte>)
    requires Stored(v', fat, cs, data) && cs != [] && e.first == cs[0] && e.size == |data|
    ensures FileAt(v', e, cs, data)
  {
  }

  lemma BuiltFromFree(fat: seq<nat>, cs: seq<nat>, fat': seq<nat>)
    requires ChainBuilt(fat, cs, fat')
    ensures forall c | c in cs :: c < |fat| && fat[c] == 0
  {
    forall c | c in cs ensures c < |fat| && fat[c] == 0 {
      var k :| 0 <= k < |cs| && cs[k] == c;
      assert cs[k] in FreeClusters(fat);
    }
  }

  lemma ZeroNothing(fat: seq<nat>)
    ensures ZeroAll(fat, []) == fat
  {
  }

  lemma LayoutKept(v: Volume, v': Volume, es: seq<Entry>, cs: seq<nat>)
    requires LayoutOk(v) && Committed(v, v', es, cs)
    ensures LayoutOk(v')
  {
  }

  // ---------------------------------------------------------------------------
  // Maps indexed by lists of keys

  lemma IndexedAppend<K, V>(keys: seq<K>, values: seq<V>, m: map<K, V>, k: K, v: V)
    requires Indexed(keys, values, m) && AllDifferent(keys) && k !in keys
    ensures Indexed(keys + [k], values + [v], m[k := v]) && AllDifferent(keys + [k]) && k !in m
  {
  }

  lemma IndexedUpdate<K, V>(keys: seq<K>, values: seq<V>, m: map<K, V>, i: nat, v: V)
    requires Indexed(keys, values, m) && AllDifferent(keys) && i < |keys|
    ensures Indexed(keys, values[i := v], m[keys[i] := v])
  {
  }

  lemma IndexedRename<K, V>(keys: seq<K>, values: seq<V>, m: map<K, V>, i: nat, k: K)
    requires Indexed(keys, values, m) && AllDifferent(keys) && i < |keys| && k !in Remove(keys, i)
    ensures Indexed(keys[i := k], values, (m - {keys[i]})[k := values[i]]) && AllDifferent(keys[i := k])
    ensures keys[i] in m && m[keys[i]] == values[i]
  {
    var m' := (m - {keys[i]})[k := values[i]];
    forall j | 0 <= j < |keys| && j != i ensures keys[j] != k {
      assert Remove(keys, i)[if j < i then j else j - 1] == keys[j];
    }
    forall x | x in m' ensures x in keys[i := k] {
      if x == k {
        assert keys[i := k][i] == x;
      } else {
        var j :| 0 <= j < |keys| && keys[j] == x;
        assert keys[i := k][j] == x;
      }
    }
  }

  function Remove<T>(s: seq<T>, i: nat): (r: seq<T>)
    requires i < |s|
    ensures |r| == |s| - 1
    ensures forall k | 0 <= k < |r| :: r[k] == s[Skip(i, k)]
  {
    s[..i] + s[i + 1..]
  }

  function Skip(i: nat, k: nat): nat { if k < i then k else k + 1 }

  lemma IndexedRemove<K, V>(keys: seq<K>, values: seq<V>, m: map<K, V>, i: nat)
    requires Indexed(keys, values, m) && AllDifferent(keys) && i < |keys|
    ensures Indexed(Remove(keys, i), Remove(values, i), m - {keys[i]}) && AllDifferent(Remove(keys, i))
  {
    var keys', m' := Remove(keys, i), m - {keys[i]};
    forall x | x in m' ensures x in keys' {
      var j :| 0 <= j < |keys| && keys[j] == x;
      assert keys'[if j < i then j else j - 1] == x;
    }
  }

  lemma KeysAppend(es: seq<Entry>, e: Entry)
    ensures Keys(es + [e]) == Keys(es) + [EntryKey(e)]
  {
  }

  lemma KeysUpdate(es: seq<Entry>, i: nat, e: Entry)
    requires i < |es|
    ensures Keys(es[i := e]) == Keys(es)[i := EntryKey(e)]
    ensures Keys(Remove(es, i)) == Remove(Keys(es), i)
  {
  }

  lemma EmptyFileAt(v: Volume, e: Entry)
    requires e.first == 0 && e.size == 0
    ensures FileAt(v, e, [], [])
  {
  }

  lemma FileAtRenamed(v: Volume, e: Entry, e': Entry, cs: seq<nat>, bytes: seq<Byte>)
    requires FileAt(v, e, cs, bytes) && e'.first == e.first && e'.size == e.size
    ensures FileAt(v, e', cs, bytes)
  {
  }

  // ---------------------------------------------------------------------------
  // Each step is an update of the file map

  lemma CreateRefines(v: Volume, v': Volume, chains: seq<seq<nat>>, contents: seq<seq<Byte>>, files: Files,
                      name: Name, data: seq<Byte>, attr: Byte, cs: seq<nat>)
    requires Represents(v, chains, contents, files) && CreateStep(v, v', name, data, attr, cs)
    requires StoredKey(name) !in Keys(RootEntries(v))
    ensures Represents(v', chains + [cs], contents + [data], files[StoredKey(name) := data])
  {
    var es, e := RootEntries(v), NewEntry(EncodeName(name).value, attr, cs[0], |data|);
    var es' := es + [e];
    assert EntryKey(e) == StoredKey(name);
    KeysAppend(es, e);
    IndexedAppend(Keys(es), contents, files, StoredKey(name), data);
    LayoutKept(v, v', es', cs);
    NewFileAt(v, v', e, Fat(v), cs, data);
    BuiltFromFree(Fat(v), cs, Fat(v'));
    ZeroNothing(Fat(v));
    forall i | 0 <= i < |es| ensures FileAt(v', es[i], chains[i], contents[i])
      ensures Disjoint(chains[i], cs) && Disjoint(cs, chains[i])
    {
      OtherFileKept(v, v', es[i], chains[i], contents[i], [], cs, es');
    }
    FilesAppend(v', es, chains, contents, e, cs, data);
  }

  lemma FilesAppend(v: Volume, es: seq<Entry>, chains: seq<seq<nat>>, contents: seq<seq<Byte>>,
                    e: Entry, cs: seq<nat>, data: seq<Byte>)
    requires FilesAt(v, es, chains, contents) && FileAt(v, e, cs, data)
    requires forall i | 0 <= i < |es| :: Disjoint(chains[i], cs) && Disjoint(cs, chains[i])
    ensures FilesAt(v, es + [e], chains + [cs], contents + [data])
  {
    var es', ch', co' := es + [e], chains + [cs], contents + [data];
    forall i | 0 <= i < |es'| ensures FileAt(v, es'[i], ch'[i], co'[i]) {
      if i < |es| { assert es'[i] == es[i] && ch'[i] == chains[i] && co'[i] == contents[i]; }
    }
    forall i, j | 0 <= i < |es'| && 0 <= j < |es'| && i != j ensures Disjoint(ch'[i], ch'[j]) {
      assert ch'[i] == if i < |es| then chains[i] else cs;
      assert ch'[j] == if j < |es| then chains[j] else cs;
    }
  }

  lemma FilesUpdate(v: Volume, v': Volume, es: seq<Entry>, chains: seq<seq<nat>>, contents: seq<seq<Byte>>,
                    i: nat, e: Entry, cs: seq<nat>, data: seq<Byte>)
    requires FilesAt(v, es, chains, contents) && i < |es| && FileAt(v', e, cs, data)
    requires forall k | 0 <= k < |es| && k != i ::
               FileAt(v', es[k], chains[k], contents[k]) && Disjoint(chains[k], cs) && Disjoint(cs, chains[k])
    ensures FilesAt(v', es[i := e], chains[i := cs], contents[i := data])
  {
  }

  /** Replacing entry `i`: its old chain is freed, `cs` is its new one. */
  lemma FilesAfterUpdate(v: Volume, v': Volume, es: seq<Entry>, chains: seq<seq<nat>>, contents: seq<seq<Byte>>,
                         i: nat, e: Entry, cs: seq<nat>, data: seq<Byte>)
    requires FilesAt(v, es, chains, contents) && i < |es| && Committed(v, v', es[i := e], cs)
    requires |Fat(v')| == |Fat(v)|
    requires forall c | 0 <= c < |Fat(v)| && c !in cs :: Fat(v')[c] == ZeroAll(Fat(v), chains[i])[c]
    requires forall c | c in cs :: c < |Fat(v)| && ZeroAll(Fat(v), chains[i])[c] == 0
    requires FileAt(v', e, cs, data)
    ensures FilesAt(v', es[i := e], chains[i := cs], contents[i := data])
  {
    forall k | 0 <= k < |es| && k != i
      ensures FileAt(v', es[k], chains[k], contents[k]) && Disjoint(chains[k], cs) && Disjoint(cs, chains[k])
    {
      OtherFileKept(v, v', es[k], chains[k], contents[k], chains[i], cs, es[i := e]);
    }
    FilesUpdate(v, v', es, chains, contents, i, e, cs, data);
  }

  lemma SameKeyUpdate(es: seq<Entry>, contents: seq<seq<Byte>>, files: Files, i: nat, e: Entry, data: seq<Byte>)
    requires AllDifferent(Keys(es)) && Indexed(Keys(es), contents, files)
    requires i < |es| && e.name == es[i].name
    ensures AllDifferent(Keys(es[i := e]))
    ensures Indexed(Keys(es[i := e]), contents[i := data], files[Keys(es)[i] := data])
  {
    KeysUpdate(es, i, e);
    assert Keys(es)[i := EntryKey(e)] == Keys(es);
    IndexedUpdate(Keys(es), contents, files, i, data);
  }

  lemma WriteRefines(v: Volume, v': Volume, chains: seq<seq<nat>>, contents: seq<seq<Byte>>, files: Files,
                     i: nat, data: seq<Byte>, cs: seq<nat>)
    requires Represents(v, chains, contents, files) && i < |RootEntries(v)|
    requires WriteStep(v, v', i, data, cs)
    ensures Represents(v', chains[i := cs], contents[i := data], files[Keys(RootEntries(v))[i] := data])
  {
    var es := RootEntries(v);
    var e := WithData(es[i], cs[0], |data|);
    assert LayoutOk(v') by { LayoutKept(v, v', es[i := e], cs); }
    FreeingAFile(v, es[i], chains[i], contents[i]);
    assert FilesAt(v', es[i := e], chains[i := cs], contents[i := data]) by {
      NewFileAt(v, v', e, ZeroAll(Fat(v), chains[i]), cs, data);
      BuiltFromFree(ZeroAll(Fat(v), chains[i]), cs, Fat(v'));
      FilesAfterUpdate(v, v', es, chains, contents, i, e, cs, data);
    }
    SameKeyUpdate(es, contents, files, i, e, data);
  }

  lemma TruncateRefines(v: Volume, v': Volume, chains: seq<seq<nat>>, contents: seq<seq<Byte>>, files: Files, i: nat)
    requires Represents(v, chains, contents, files) && i < |RootEntries(v)|
    requires TruncateStep(v, v', i)
    ensures Represents(v', chains[i := []], contents[i := []], files[Keys(RootEntries(v))[i] := []])
  {
    var es := RootEntries(v);
    var e := WithData(es[i], 0, 0);
    assert LayoutOk(v') by { LayoutKept(v, v', es[i := e], []); }
    FreeingAFile(v, es[i], chains[i], contents[i]);
    assert FilesAt(v', es[i := e], chains[i := []], contents[i := []]) by {
      EmptyFileAt(v', e);
      FilesAfterUpdate(v, v', es, chains, contents, i, e, [], []);
    }
    SameKeyUpdate(es, contents, files, i, e, []);
  }

  lemma FilesAfterRename(v: Volume, v': Volume, es: seq<Entry>, chains: seq<seq<nat>>, contents: seq<seq<Byte>>,
                         i: nat, e: Entry)
    requires FilesAt(v, es, chains, contents) && i < |es| && Committed(v, v', es[i := e], [])
    requires Fat(v') == Fat(v) && e.first == es[i].first && e.size == es[i].size
    ensures FilesAt(v', es[i := e], chains, contents)
  {
    ZeroNothing(Fat(v));
    forall k | 0 <= k < |es| ensures FileAt(v', es[k], chains[k], contents[k]) {
      OtherFileKept(v, v', es[k], chains[k], contents[k], [], [], es[i := e]);
    }
    FileAtRenamed(v', es[i], e, chains[i], contents[i]);
    FilesUpdate(v, v', es, chains, contents, i, e, chains[i], contents[i]);
    assert chains[i := chains[i]] == chains && contents[i := contents[i]] == contents;
  }

  lemma NewKeyUpdate(es: seq<Entry>, contents: seq<seq<Byte>>, files: Files, i: nat, e: Entry)
    requires AllDifferent(Keys(es)) && Indexed(Keys(es), contents, files) && i < |es|
    requires EntryKey(e) !in Remove(Keys(es), i)
    ensures AllDifferent(Keys(es[i := e])) && Keys(es)[i] in files
    ensures Indexed(Keys(es[i := e]), contents, (files - {Keys(es)[i]})[EntryKey(e) := files[Keys(es)[i]]])
  {
    KeysUpdate(es, i, e);
    IndexedRename(Keys(es), contents, files, i, EntryKey(e));
  }

  /** Renaming to a name that is shown moves one file to the key of that name, unless another file
      has it. */
  lemma RenameRefines(v: Volume, v': Volume, chains: seq<seq<nat>>, contents: seq<seq<Byte>>, files: Files,
                      i: nat, name: Name)
    requires Represents(v, chains, contents, files) && RenameStep(v, v', i, name)
    requires Shows(name) && StoredKey(name) !in Remove(Keys(RootEntries(v)), i)
    ensures var gone := Keys(RootEntries(v))[i];
            gone in files && Represents(v', chains, contents, (files - {gone})[StoredKey(name) := files[gone]])
  {
    var es := RootEntries(v);
    var e := WithName(es[i], EncodeName(name).value);
    assert LayoutOk(v') by { LayoutKept(v, v', es[i := e], []); }
    assert FilesAt(v', es[i := e], chains, contents) by { FilesAfterRename(v, v', es, chains, contents, i, e); }
    assert EntryKey(e) == StoredKey(name);
    NewKeyUpdate(es, contents, files, i, e);
  }

  /** Files whose entries are still listed after a step that left the table alone. */
  lemma ListedFilesKept(v: Volume, v': Volume, es': seq<Entry>, chains: seq<seq<nat>>, contents: seq<seq<Byte>>, k: nat)
    requires FilesAt(v, RootEntries(v), chains, contents) && Committed(v, v', es', []) && Fat(v') == Fat(v)
    requires k < |RootEntries(v)|
    ensures FileAt(v', RootEntries(v)[k], chains[k], contents[k])
  {
    ZeroNothing(Fat(v));
    OtherFileKept(v, v', RootEntries(v)[k], chains[k], contents[k], [], [], es');
  }

  /** Renaming to a name with the deletion mark loses the file. */
  lemma RenameLoses(v: Volume, v': Volume, chains: seq<seq<nat>>, contents: seq<seq<Byte>>, files: Files,
                    i: nat, name: Name)
    requires Represents(v, chains, contents, files) && RenameStep(v, v', i, name)
    requires !Shows(name) && !StartsWithZero(name)
    ensures Represents(v', Remove(chains, i), Remove(contents, i), files - {Keys(RootEntries(v))[i]})
  {
    var es := RootEntries(v);
    KeysUpdate(es, i, es[i]);
    IndexedRemove(Keys(es), contents, files, i);
    LayoutKept(v, v', Remove(es, i), []);
    forall k | 0 <= k < |es| && k != i ensures FileAt(v', es[k], chains[k], contents[k]) {
      ListedFilesKept(v, v', Remove(es, i), chains, contents, k);
    }
    FilesRemove(v, v', es, chains, contents, i);
  }

  /** The files with these names. */
  function Only(files: Files, names: seq<Name>): Files { map k | k in files && k in names :: files[k] }

  lemma IndexedPrefix(keys: seq<Name>, contents: seq<seq<Byte>>, files: Files, i: nat)
    requires Indexed(keys, contents, files) && AllDifferent(keys) && i <= |keys|
    ensures Indexed(keys[..i], contents[..i], Only(files, keys[..i])) && AllDifferent(keys[..i])
  {
  }

  /** Renaming to a name that starts with a zero byte loses the file and all files behind it. */
  lemma RenameTruncates(v: Volume, v': Volume, chains: seq<seq<nat>>, contents: seq<seq<Byte>>, files: Files,
                        i: nat, name: Name)
    requires Represents(v, chains, contents, files) && RenameStep(v, v', i, name) && StartsWithZero(name)
    ensures Represents(v', chains[..i], contents[..i], Only(files, Keys(RootEntries(v))[..i]))
  {
    var es := RootEntries(v);
    assert Keys(es[..i]) == Keys(es)[..i];
    IndexedPrefix(Keys(es), contents, files, i);
    LayoutKept(v, v', es[..i], []);
    forall k | 0 <= k < i ensures FileAt(v', es[..i][k], chains[..i][k], contents[..i][k]) {
      ListedFilesKept(v, v', es[..i], chains, contents, k);
    }
  }

  /** A hidden creation changes no file. */
  lemma HiddenRefines(v: Volume, v': Volume, chains: seq<seq<nat>>, contents: seq<seq<Byte>>, files: Files,
                      data: seq<Byte>, cs: seq<nat>)
    requires Represents(v, chains, contents, files) && HiddenStep(v, v', data, cs)
    ensures Represents(v', chains, contents, files)
  {
    var es := RootEntries(v);
    LayoutKept(v, v', es, cs);
    BuiltFromFree(Fat(v), cs, Fat(v'));
    ZeroNothing(Fat(v));
    forall i | 0 <= i < |es| ensures FileAt(v', es[i], chains[i], contents[i]) {
      OtherFileKept(v, v', es[i], chains[i], contents[i], [], cs, es);
    }
  }

  lemma DeleteRefines(v: Volume, v': Volume, chains: seq<seq<nat>>, contents: seq<seq<Byte>>, files: Files, i: nat)
    requires Represents(v, chains, contents, files) && i < |RootEntries(v)|
    requires DeleteStep(v, v', i)
    ensures Represents(v', Remove(chains, i), Remove(contents, i), files - {Keys(RootEntries(v))[i]})
  {
    var es, gone := RootEntries(v), chains[i];
    FreeingAFile(v, es[i], gone, contents[i]);
    KeysUpdate(es, i, es[i]);
    IndexedRemove(Keys(es), contents, files, i);
    LayoutKept(v, v', Remove(es, i), []);
    forall k | 0 <= k < |es| && k != i ensures FileAt(v', es[k], chains[k], contents[k]) {
      OtherFileKept(v, v', es[k], chains[k], contents[k], gone, [], Remove(es, i));
    }
    FilesRemove(v, v', es, chains, contents, i);
  }

  lemma FilesRemove(v: Volume, v': Volume, es: seq<Entry>, chains: seq<seq<nat>>, contents: seq<seq<Byte>>, i: nat)
    requires FilesAt(v, es, chains, contents) && i < |es|
    requires forall k | 0 <= k < |es| && k != i :: FileAt(v', es[k], chains[k], contents[k])
    ensures FilesAt(v', Remove(es, i), Remove(chains, i), Remove(contents, i))
  {
    var es', ch', co' := Remove(es, i), Remove(chains, i), Remove(contents, i);
    forall k | 0 <= k < |es'| ensures FileAt(v', es'[k], ch'[k], co'[k]) {
      assert es'[k] == es[Skip(i, k)] && ch'[k] == chains[Skip(i, k)] && co'[k] == contents[Skip(i, k)];
    }
    forall a, b | 0 <= a < |es'| && 0 <= b < |es'| && a != b ensures Disjoint(ch'[a], ch'[b]) {
      assert ch'[a] == chains[Skip(i, a)] && ch'[b] == chains[Skip(i, b)] && Skip(i, a) != Skip(i, b);
    }
  }
}
