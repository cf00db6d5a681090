/** Cursor-based file access through open nodes, over the RAM file system. */
module VfsIo {
  import opened Basics
  import opened Bits

  type Bytes = seq<Byte>

  const WORD: nat := 0x1_0000_0000
  const MAX_NODES: nat := 64

  datatype Error = FileNotFound | FileExists | NodeTableFull | NodeNotFound | NotAFile | NotForReading | NotForWriting
  datatype Result<T> = Ok(value: T) | Err(error: Error)

  datatype File = File(name: string, data: Bytes)
  datatype Node = Node(id: nat, isDir: bool, name: string, size: nat, cursor: nat, flags: nat)
  datatype Vfs = Vfs(files: seq<File>, nodes: seq<Node>, nextId: nat)

  // ---------------------------------------------------------------------------
  // Lookup

  function Lower(c: char): char {
    if 'A' <= c <= 'Z' then (c as int + 32) as char else c
  }

  /** Equal but for the case of ASCII letters. */
  predicate SameName(a: string, b: string) {
    |a| == |b| && forall i | 0 <= i < |a| :: Lower(a[i]) == Lower(b[i])
  }

  /** The first file of that name, or the number of files. */
  function FindFile(files: seq<File>, name: string): (r: nat)
    ensures r <= |files|
    ensures r < |files| ==> SameName(files[r].name, name)
    ensures forall i | 0 <= i < r :: !SameName(files[i].name, name)
  {
    if files == [] || SameName(files[0].name, name) then 0 else 1 + FindFile(files[1..], name)
  }

  function FindNode(nodes: seq<Node>, id: nat): (r: nat)
    ensures r <= |nodes|
    ensures r < |nodes| ==> nodes[r].id == id
    ensures forall i | 0 <= i < r :: nodes[i].id != id
  {
    if nodes == [] || nodes[0].id == id then 0 else 1 + FindNode(nodes[1..], id)
  }

  predicate Exists(files: seq<File>, name: string) { FindFile(files, name) < |files| }

  // ---------------------------------------------------------------------------
  // The RAM file system

  function ReadFile(files: seq<File>, name: string): Result<Bytes> {
    if Exists(files, name) then Ok(files[FindFile(files, name)].data) else Err(FileNotFound)
  }

  function CreateFile(files: seq<File>, name: string, data: Bytes): (seq<File>, Result<()>) {
    if Exists(files, name) then (files, Err(FileExists)) else (files + [File(name, data)], Ok(()))
  }

  function WriteFile(files: seq<File>, name: string, data: Bytes): (seq<File>, Result<()>) {
    var i := FindFile(files, name);
    if i == |files| then (files, Err(FileNotFound)) else (files[i := File(files[i].name, data)], Ok(()))
  }

  /** Sizes of files and buffers are kept in 32 bits. */
  function SizeOf(data: Bytes): nat { |data| % WORD }

  // ---------------------------------------------------------------------------
  // Nodes

  predicate Creates(flags: nat) { Bit(flags, 6) }
  predicate Truncates(flags: nat) { Bit(flags, 9) }
  predicate Appends(flags: nat) { Bit(flags, 10) }
  predicate Exclusive(flags: nat) { Bit(flags, 11) }
  predicate WriteOnly(flags: nat) { And(flags, 3) == 1 }
  predicate ReadOnly(flags: nat) { And(flags, 3) == 0 }

  /** The files after an open has created or emptied its file. */
  function Prepared(files: seq<File>, name: string, flags: nat): seq<File> {
    if Creates(flags) && !Exists(files, name) then files + [File(name, [])]
    else if Truncates(flags) && Exists(files, name) then WriteFile(files, name, []).0
    else files
  }

  function Open(s: Vfs, name: string, flags: nat): (Vfs, Result<nat>) {
    if |s.nodes| >= MAX_NODES then (s, Err(NodeTableFull))
    else if Creates(flags) && Exclusive(flags) && Exists(s.files, name) then (s, Err(FileExists))
    else
      var files := Prepared(s.files, name, flags);
      if !Exists(files, name) then (Vfs(files, s.nodes, s.nextId), Err(FileNotFound))
      else
        var size := SizeOf(files[FindFile(files, name)].data);
        var node := Node(s.nextId, false, name, size, if Appends(flags) then size else 0, flags);
        (Vfs(files, s.nodes + [node], (s.nextId + 1) % WORD), Ok(node.id))
  }

  function WithCursor(n: Node, size: nat, cursor: nat): Node {
    Node(n.id, n.isDir, n.name, size, cursor, n.flags)
  }

  function Seek(s: Vfs, id: nat, offset: nat): (Vfs, Result<()>) {
    var i := FindNode(s.nodes, id);
    if i == |s.nodes| then (s, Err(NodeNotFound))
    else
      var n := s.nodes[i];
      (Vfs(s.files, s.nodes[i := WithCursor(n, n.size, if offset < n.size then offset else n.size)], s.nextId), Ok(()))
  }

  /** What a read of at most `max` bytes at `cursor` returns. */
  function Slice(data: Bytes, cursor: nat, max: nat): (r: Bytes)
    ensures |r| <= max
  {
    if cursor >= |data| then [] else if |data| - cursor < max then data[cursor..] else data[cursor..cursor + max]
  }

  function Read(s: Vfs, id: nat, max: nat): (Vfs, Result<Bytes>) {
    var i := FindNode(s.nodes, id);
    if i == |s.nodes| then (s, Err(NodeNotFound))
    else
      var n := s.nodes[i];
      if n.isDir then (s, Err(NotAFile))
      else if WriteOnly(n.flags) then (s, Err(NotForReading))
      else
        match ReadFile(s.files, n.name)
        case Err(e) => (s, Err(e))
        case Ok(data) =>
          var got := Slice(data, n.cursor, max);
          (Vfs(s.files, s.nodes[i := WithCursor(n, n.size, n.cursor + SizeOf(got))], s.nextId), Ok(got))
  }

  function Zeros(n: nat): (z: Bytes)
    ensures |z| == n && forall i | 0 <= i < n :: z[i] == 0
  {
    seq(n, _ => 0)
  }

  /** `existing` grown to hold `buf` at `at`, and `buf` copied over it. */
  function Patched(existing: Bytes, at: nat, buf: Bytes): (r: Bytes) {
    var end := at + |buf|;
    var grown := if end > |existing| then existing + Zeros(end - |existing|) else existing;
    grown[..at] + buf + grown[end..]
  }

  /** The new contents: a write at the start replaces the file. */
  function Written(data: Bytes, at: nat, buf: Bytes): Bytes {
    if at == 0 then buf else Patched(data, at, buf)
  }

  function WriteNode(s: Vfs, id: nat, buf: Bytes): (Vfs, Result<()>) {
    var i := FindNode(s.nodes, id);
    if i == |s.nodes| then (s, Err(NodeNotFound))
    else
      var n := s.nodes[i];
      if n.isDir then (s, Err(NotAFile))
      else if ReadOnly(n.flags) then (s, Err(NotForWriting))
      else
        var at := if Appends(n.flags) then n.size else n.cursor;
        match ReadFile(s.files, n.name)
        case Err(e) => (s, Err(e))
        case Ok(data) =>
          var data' := Written(data, at, buf);
          var size := SizeOf(data');
          var n' := WithCursor(n, size, if Appends(n.flags) then size else n.cursor + SizeOf(buf));
          (Vfs(WriteFile(s.files, n.name, data').0, s.nodes[i := n'], s.nextId), Ok(()))
  }

  function Close(s: Vfs, id: nat): (Vfs, Result<()>) {
    var kept := Kept(s.nodes, id);
    (Vfs(s.files, kept, s.nextId), if |kept| == |s.nodes| then Err(NodeNotFound) else Ok(()))
  }

  function Kept(nodes: seq<Node>, id: nat): seq<Node> {
    if nodes == [] then [] else if nodes[0].id == id then Kept(nodes[1..], id) else [nodes[0]] + Kept(nodes[1..], id)
  }

  // ---------------------------------------------------------------------------
  // What a write does to the bytes

  /** The contents a write at a position is meant to give: old bytes outside it, zeros in a gap. */
  predicate IsSplice(data: Bytes, at: nat, buf: Bytes, r: Bytes) {
    && |r| == (if at + |buf| > |data| then at + |buf| else |data|)
    && (forall i | 0 <= i < |r| ::
          r[i] == if at <= i < at + |buf| then buf[i - at] else if i < |data| then data[i] else 0)
  }

  /** A write gives those contents exactly if it is not at the start of a longer file. */
  lemma WrittenIsSpliceIff(data: Bytes, at: nat, buf: Bytes)
    ensures IsSplice(data, at, buf, Written(data, at, buf)) <==> at != 0 || |buf| >= |data|
  {
  }

  /** One byte written at the start of a file of two leaves a file of one. */
  lemma StartReplaces()
    ensures Written([1, 2], 0, [3]) == [3] && !IsSplice([1, 2], 0, [3], [3])
  {
  }

  lemma WrittenAtEnd(data: Bytes, buf: Bytes)
    ensures Written(data, |data|, buf) == data + buf
  {
  }

  // ---------------------------------------------------------------------------
  // One node on one file

  /** Node `id` is open on a file with contents `data`, cursor at `cursor`; the size it remembers
      may be that of older contents. */
  predicate Through(s: Vfs, id: nat, flags: nat, data: Bytes, size: nat, cursor: nat) {
    var i := FindNode(s.nodes, id);
    && i < |s.nodes| && !s.nodes[i].isDir && s.nodes[i].flags == flags && s.nodes[i].cursor == cursor
    && s.nodes[i].size == size
    && ReadFile(s.files, s.nodes[i].name) == Ok(data)
  }

  /** The same with the size of the contents. */
  predicate On(s: Vfs, id: nat, flags: nat, data: Bytes, cursor: nat) {
    Through(s, id, flags, data, |data|, cursor) && |data| < WORD
  }

  /** The node's file is the only one that differs. */
  predicate OnlyFileOf(s: Vfs, s': Vfs, id: nat) {
    var i := FindNode(s.nodes, id);
    && i < |s.nodes| && i < |s'.nodes| && s'.nodes[i].name == s.nodes[i].name && |s'.files| == |s.files|
    && (forall f | 0 <= f < |s.files| && f != FindFile(s.files, s.nodes[i].name) :: s'.files[f] == s.files[f])
    && FindNode(s'.nodes, id) == i && FindFile(s'.files, s.nodes[i].name) == FindFile(s.files, s.nodes[i].name)
  }

  lemma NodeUpdated(nodes: seq<Node>, i: nat, n: Node)
    requires i == FindNode(nodes, n.id) && i < |nodes|
    ensures FindNode(nodes[i := n], n.id) == i
  {
    var after := nodes[i := n];
    var r := FindNode(after, n.id);
    assert after[i].id == n.id;
    assert forall j | 0 <= j < i :: after[j].id != n.id;
  }

  lemma FileUpdated(files: seq<File>, name: string, data: Bytes)
    requires Exists(files, name)
    ensures var files' := WriteFile(files, name, data).0;
            FindFile(files', name) == FindFile(files, name) && ReadFile(files', name) == Ok(data)
  {
    var i := FindFile(files, name);
    var files' := WriteFile(files, name, data).0;
    assert SameName(files'[i].name, name);
    assert forall j | 0 <= j < i :: !SameName(files'[j].name, name);
  }

  /** Where a write through a node goes: appending means at the size it remembers. */
  function WriteAt(flags: nat, size: nat, cursor: nat): nat {
    if Appends(flags) then size else cursor
  }

  /** Where a write leaves the cursor. */
  function CursorAfter(flags: nat, cursor: nat, data: Bytes, buf: Bytes): nat {
    if Appends(flags) then SizeOf(data) else cursor + SizeOf(buf)
  }

  /** New contents for a node's file, and a new cursor. */
  function Rewritten(s: Vfs, i: nat, data: Bytes, cursor: nat): Vfs
    requires i < |s.nodes|
  {
    var n := s.nodes[i];
    Vfs(WriteFile(s.files, n.name, data).0, s.nodes[i := WithCursor(n, SizeOf(data), cursor)], s.nextId)
  }

  lemma RewrittenThrough(s: Vfs, id: nat, flags: nat, data: Bytes, size: nat, cursor: nat, data': Bytes, cursor': nat)
    requires Through(s, id, flags, data, size, cursor)
    ensures var s' := Rewritten(s, FindNode(s.nodes, id), data', cursor');
            Through(s', id, flags, data', SizeOf(data'), cursor') && OnlyFileOf(s, s', id)
  {
    var i := FindNode(s.nodes, id);
    var n := s.nodes[i];
    NodeUpdated(s.nodes, i, WithCursor(n, SizeOf(data'), cursor'));
    FileUpdated(s.files, n.name, data');
  }

  /** A write gives the node's file its new contents, moves the cursor past them, brings the size up
      to date, and touches no other file. */
  lemma WriteChangesFile(s: Vfs, id: nat, flags: nat, data: Bytes, size: nat, cursor: nat, buf: Bytes)
    requires Through(s, id, flags, data, size, cursor) && !ReadOnly(flags)
    ensures var (s', r) := WriteNode(s, id, buf); var data' := Written(data, WriteAt(flags, size, cursor), buf);
            && r == Ok(()) && OnlyFileOf(s, s', id)
            && Through(s', id, flags, data', SizeOf(data'), CursorAfter(flags, cursor, data', buf))
  {
    var data' := Written(data, WriteAt(flags, size, cursor), buf);
    var cursor' := CursorAfter(flags, cursor, data', buf);
    assert WriteNode(s, id, buf) == (Rewritten(s, FindNode(s.nodes, id), data', cursor'), Ok(()));
    RewrittenThrough(s, id, flags, data, size, cursor, data', cursor');
  }

  /** The file then holds the buffer at that place and its old bytes elsewhere, exactly if the write
      is not at the start of a longer file. */
  lemma WriteIsSpliceIff(s: Vfs, id: nat, flags: nat, data: Bytes, size: nat, cursor: nat, buf: Bytes)
    requires Through(s, id, flags, data, size, cursor) && !ReadOnly(flags)
    ensures var (s', _) := WriteNode(s, id, buf); var at := WriteAt(flags, size, cursor);
            (exists r :: ReadFile(s'.files, s.nodes[FindNode(s.nodes, id)].name) == Ok(r) && IsSplice(data, at, buf, r))
            <==> at != 0 || |buf| >= |data|
  {
    var at := WriteAt(flags, size, cursor);
    WriteChangesFile(s, id, flags, data, size, cursor, buf);
    WrittenIsSpliceIff(data, at, buf);
    var s' := WriteNode(s, id, buf).0;
    assert ReadFile(s'.files, s.nodes[FindNode(s.nodes, id)].name) == Ok(Written(data, at, buf));
  }

  // ---------------------------------------------------------------------------
  // Appending with a remembered size

  /** Writing at a remembered size appends exactly if that is the size, or nothing is written
      inside the file. */
  lemma WrittenAppendsIff(data: Bytes, size: nat, buf: Bytes)
    ensures Written(data, size, buf) == data + buf <==> size == |data| || (buf == [] && 0 < size < |data|)
  {
    var r := Written(data, size, buf);
    if size == |data| {
      WrittenAtEnd(data, buf);
    } else if buf == [] && 0 < size < |data| {
      assert r == data == data + buf;
    } else if size == 0 {
      assert |data + buf| > |r|;
    } else {
      assert |r| == (if size + |buf| > |data| then size + |buf| else |data|);
    }
  }

  /** An appending write through a node that remembers an older size. */
  lemma AppendThroughIff(s: Vfs, id: nat, flags: nat, data: Bytes, size: nat, cursor: nat, buf: Bytes)
    requires Through(s, id, flags, data, size, cursor) && Appends(flags) && !ReadOnly(flags)
    ensures ReadFile(WriteNode(s, id, buf).0.files, s.nodes[FindNode(s.nodes, id)].name) == Ok(data + buf)
       <==> size == |data| || (buf == [] && 0 < size < |data|)
  {
    WriteChangesFile(s, id, flags, data, size, cursor, buf);
    WrittenAppendsIff(data, size, buf);
  }

  predicate SameFile(s: Vfs, a: nat, b: nat) {
    var i, j := FindNode(s.nodes, a), FindNode(s.nodes, b);
    i < |s.nodes| && j < |s.nodes| && FindFile(s.files, s.nodes[i].name) == FindFile(s.files, s.nodes[j].name)
  }

  lemma OtherNodeKept(nodes: seq<Node>, i: nat, n: Node, b: nat)
    requires i < |nodes| && n.id == nodes[i].id && b != n.id
    ensures FindNode(nodes[i := n], b) == FindNode(nodes, b)
    ensures FindNode(nodes, b) < |nodes| ==> nodes[i := n][FindNode(nodes, b)] == nodes[FindNode(nodes, b)]
  {
    var after, j := nodes[i := n], FindNode(nodes, b);
    assert forall k | 0 <= k < |nodes| :: after[k].id == nodes[k].id;
    assert j < |nodes| ==> after[j].id == b;
    var r := FindNode(after, b);
    assert r < |nodes| ==> nodes[r].id == b;
  }

  lemma SameFileFound(files: seq<File>, a: string, b: string, data: Bytes)
    requires Exists(files, a) && FindFile(files, a) == FindFile(files, b)
    ensures var files' := WriteFile(files, a, data).0;
            FindFile(files', b) == FindFile(files, b) && ReadFile(files', b) == Ok(data)
  {
    var i := FindFile(files, a);
    var files' := WriteFile(files, a, data).0;
    assert SameName(files'[i].name, b);
    assert forall j | 0 <= j < i :: !SameName(files'[j].name, b);
  }

  /** A write through one node leaves a second node on the file with the size it had. */
  lemma SecondNodeIsStale(s: Vfs, a: nat, b: nat, flagsA: nat, flagsB: nat, data: Bytes, sizeA: nat, sizeB: nat,
                          cursorA: nat, cursorB: nat, buf: Bytes)
    requires Through(s, a, flagsA, data, sizeA, cursorA) && Through(s, b, flagsB, data, sizeB, cursorB)
    requires a != b && SameFile(s, a, b) && !ReadOnly(flagsA)
    ensures Through(WriteNode(s, a, buf).0, b, flagsB, Written(data, WriteAt(flagsA, sizeA, cursorA), buf), sizeB, cursorB)
  {
    var i, j := FindNode(s.nodes, a), FindNode(s.nodes, b);
    var data' := Written(data, WriteAt(flagsA, sizeA, cursorA), buf);
    var n := s.nodes[i];
    var cursor' := CursorAfter(flagsA, cursorA, data', buf);
    assert WriteNode(s, a, buf).0 == Rewritten(s, i, data', cursor');
    OtherNodeKept(s.nodes, i, WithCursor(n, SizeOf(data'), cursor'), b);
    SameFileFound(s.files, n.name, s.nodes[j].name, data');
  }

  /** Two nodes opened for appending on one file: a write through each appends both buffers exactly
      if the first wrote nothing, or the second wrote nothing and the file was not empty. */
  lemma TwoAppenders(s: Vfs, a: nat, b: nat, flagsA: nat, flagsB: nat, data: Bytes, cursorA: nat, cursorB: nat,
                     first: Bytes, second: Bytes)
    requires On(s, a, flagsA, data, cursorA) && On(s, b, flagsB, data, cursorB) && a != b && SameFile(s, a, b)
    requires Appends(flagsA) && Appends(flagsB) && !ReadOnly(flagsA) && !ReadOnly(flagsB)
    ensures var s' := WriteNode(WriteNode(s, a, first).0, b, second).0;
            ReadFile(s'.files, s.nodes[FindNode(s.nodes, b)].name) == Ok(data + first + second)
            <==> first == [] || (second == [] && data != [])
  {
    WrittenAtEnd(data, first);
    SecondNodeIsStale(s, a, b, flagsA, flagsB, data, |data|, |data|, cursorA, cursorB, first);
    var s1 := WriteNode(s, a, first).0;
    SameNameAfter(s, a, b, first);
    AppendThroughIff(s1, b, flagsB, data + first, |data|, cursorB, second);
  }

  lemma SameNameAfter(s: Vfs, a: nat, b: nat, buf: Bytes)
    requires a != b && FindNode(s.nodes, b) < |s.nodes|
    ensures var s1 := WriteNode(s, a, buf).0; var j := FindNode(s.nodes, b);
            FindNode(s1.nodes, b) == j && j < |s1.nodes| && s1.nodes[j].name == s.nodes[j].name
  {
    var s1, i := WriteNode(s, a, buf).0, FindNode(s.nodes, a);
    if i < |s.nodes| && s1.nodes != s.nodes { OtherNodeKept(s.nodes, i, s1.nodes[i], b); }
  }

  /** A write at the end of the file appends. */
  lemma WriteAppends(s: Vfs, id: nat, flags: nat, data: Bytes, buf: Bytes)
    requires On(s, id, flags, data, |data|) && !ReadOnly(flags) && |data| + |buf| < WORD
    ensures var (s', r) := WriteNode(s, id, buf);
            r == Ok(()) && On(s', id, flags, data + buf, |data + buf|) && OnlyFileOf(s, s', id)
  {
    WrittenAtEnd(data, buf);
    WriteChangesFile(s, id, flags, data, |data|, |data|, buf);
  }

  function Concat(bufs: seq<Bytes>): Bytes {
    if bufs == [] then [] else bufs[0] + Concat(bufs[1..])
  }

  /** The state after writing the buffers in turn. */
  function WriteAll(s: Vfs, id: nat, bufs: seq<Bytes>): Vfs
    decreases |bufs|
  {
    if bufs == [] then s else WriteAll(WriteNode(s, id, bufs[0]).0, id, bufs[1..])
  }

  lemma {:induction false} WritesAppend(s: Vfs, id: nat, flags: nat, data: Bytes, bufs: seq<Bytes>)
    requires On(s, id, flags, data, |data|) && !ReadOnly(flags) && |data| + |Concat(bufs)| < WORD
    ensures On(WriteAll(s, id, bufs), id, flags, data + Concat(bufs), |data + Concat(bufs)|)
    ensures OnlyFileOf(s, WriteAll(s, id, bufs), id)
    decreases |bufs|
  {
    if bufs == [] {
      assert data + [] == data;
    } else {
      var s1 := WriteNode(s, id, bufs[0]).0;
      WriteAppends(s, id, flags, data, bufs[0]);
      WritesAppend(s1, id, flags, data + bufs[0], bufs[1..]);
      assert data + bufs[0] + Concat(bufs[1..]) == data + Concat(bufs);
    }
  }

  // ---------------------------------------------------------------------------
  // Reading in chunks

  function Sum(counts: seq<nat>): nat {
    if counts == [] then 0 else counts[0] + Sum(counts[1..])
  }

  /** The state after reading chunks of at most the given sizes, and the chunks. */
  function ReadAll(s: Vfs, id: nat, counts: seq<nat>): (Vfs, seq<Bytes>)
    decreases |counts|
  {
    if counts == [] then (s, [])
    else
      var (s1, r) := Read(s, id, counts[0]);
      var (s2, rest) := ReadAll(s1, id, counts[1..]);
      (s2, [if r.Ok? then r.value else []] + rest)
  }

  lemma ReadAdvances(s: Vfs, id: nat, flags: nat, data: Bytes, cursor: nat, max: nat)
    requires On(s, id, flags, data, cursor) && !WriteOnly(flags) && cursor <= |data|
    ensures var (s', r) := Read(s, id, max);
            && r == Ok(Slice(data, cursor, max)) && On(s', id, flags, data, cursor + |r.value|) && s'.files == s.files
  {
    var i := FindNode(s.nodes, id);
    NodeUpdated(s.nodes, i, WithCursor(s.nodes[i], s.nodes[i].size, cursor + |Slice(data, cursor, max)|));
  }

  /** The chunks that reads of these sizes take from `data`, and where they end. */
  function Pieces(data: Bytes, cursor: nat, counts: seq<nat>): (seq<Bytes>, nat)
    decreases |counts|
  {
    if counts == [] then ([], cursor)
    else
      var first := Slice(data, cursor, counts[0]);
      var (rest, end) := Pieces(data, cursor + |first|, counts[1..]);
      ([first] + rest, end)
  }

  lemma {:induction false} PiecesJoin(data: Bytes, cursor: nat, counts: seq<nat>)
    requires cursor <= |data|
    ensures var (got, end) := Pieces(data, cursor, counts);
            Concat(got) == Slice(data, cursor, Sum(counts)) && end == cursor + |Concat(got)|
    decreases |counts|
  {
    if counts != [] {
      var first := Slice(data, cursor, counts[0]);
      SlicesJoin(data, cursor, counts[0], Sum(counts[1..]));
      PiecesJoin(data, cursor + |first|, counts[1..]);
      ConcatFirst(first, Pieces(data, cursor + |first|, counts[1..]).0);
    }
  }

  lemma {:induction false} ReadsArePieces(s: Vfs, id: nat, flags: nat, data: Bytes, cursor: nat, counts: seq<nat>)
    requires On(s, id, flags, data, cursor) && !WriteOnly(flags) && cursor <= |data|
    ensures var (s', got) := ReadAll(s, id, counts); var (pieces, end) := Pieces(data, cursor, counts);
            got == pieces && On(s', id, flags, data, end)
    decreases |counts|
  {
    if counts != [] {
      ReadAdvances(s, id, flags, data, cursor, counts[0]);
      var first := Slice(data, cursor, counts[0]);
      ReadsArePieces(Read(s, id, counts[0]).0, id, flags, data, cursor + |first|, counts[1..]);
    }
  }

  /** Chunked reads return the bytes from the cursor on, piece by piece, and move the cursor
      past them. */
  lemma ReadsReturn(s: Vfs, id: nat, flags: nat, data: Bytes, cursor: nat, counts: seq<nat>)
    requires On(s, id, flags, data, cursor) && !WriteOnly(flags) && cursor <= |data|
    ensures var (s', got) := ReadAll(s, id, counts);
            Concat(got) == Slice(data, cursor, Sum(counts)) && On(s', id, flags, data, cursor + |Concat(got)|)
  {
    ReadsArePieces(s, id, flags, data, cursor, counts);
    PiecesJoin(data, cursor, counts);
  }

  lemma ConcatFirst(first: Bytes, rest: seq<Bytes>)
    ensures Concat([first] + rest) == first + Concat(rest)
  {
    assert ([first] + rest)[1..] == rest;
  }

  lemma SlicesJoin(data: Bytes, cursor: nat, n: nat, rest: nat)
    requires cursor <= |data|
    ensures var got := Slice(data, cursor, n);
            cursor + |got| <= |data| && got + Slice(data, cursor + |got|, rest) == Slice(data, cursor, n + rest)
  {
  }

  // ---------------------------------------------------------------------------
  // Open, write, rewind, read back

  lemma OpenedOn(s: Vfs, name: string, flags: nat)
    requires FindNode(s.nodes, s.nextId) == |s.nodes| && Open(s, name, flags).1.Ok?
    requires var files := Open(s, name, flags).0.files; ReadFile(files, name) == Ok([])
    ensures var (s', r) := Open(s, name, flags); On(s', r.value, flags, [], 0)
  {
    var (s', r) := Open(s, name, flags);
    var n := |s.nodes|;
    assert s'.nodes[n].id == s.nextId;
    assert forall j | 0 <= j < n :: s'.nodes[j].id != s.nextId;
    assert FindNode(s'.nodes, s.nextId) == n;
  }

  lemma Rewinds(s: Vfs, id: nat, flags: nat, data: Bytes, cursor: nat)
    requires On(s, id, flags, data, cursor)
    ensures var (s', r) := Seek(s, id, 0); r == Ok(()) && On(s', id, flags, data, 0) && s'.files == s.files
  {
    var i := FindNode(s.nodes, id);
    NodeUpdated(s.nodes, i, WithCursor(s.nodes[i], s.nodes[i].size, 0));
  }

  /** Whatever is written through a fresh node on an empty file is what rewinding and reading in
      chunks gives back, and the cursor counts the bytes read. */
  lemma WriteThenRead(s: Vfs, name: string, flags: nat, bufs: seq<Bytes>, counts: seq<nat>)
    requires FindNode(s.nodes, s.nextId) == |s.nodes| && Open(s, name, flags).1.Ok?
    requires ReadFile(Open(s, name, flags).0.files, name) == Ok([])
    requires !ReadOnly(flags) && !WriteOnly(flags) && |Concat(bufs)| < WORD
    ensures var id := Open(s, name, flags).1.value; var written := WriteAll(Open(s, name, flags).0, id, bufs);
            var (s', got) := ReadAll(Seek(written, id, 0).0, id, counts);
            && On(written, id, flags, Concat(bufs), |Concat(bufs)|)
            && Concat(got) == Slice(Concat(bufs), 0, Sum(counts)) && On(s', id, flags, Concat(bufs), |Concat(got)|)
  {
    OpenedOn(s, name, flags);
    WriteRewindRead(Open(s, name, flags).0, Open(s, name, flags).1.value, flags, bufs, counts);
  }

  lemma WriteRewindRead(s: Vfs, id: nat, flags: nat, bufs: seq<Bytes>, counts: seq<nat>)
    requires On(s, id, flags, [], 0) && !ReadOnly(flags) && !WriteOnly(flags) && |Concat(bufs)| < WORD
    ensures var written := WriteAll(s, id, bufs); var (s', got) := ReadAll(Seek(written, id, 0).0, id, counts);
            && On(written, id, flags, Concat(bufs), |Concat(bufs)|)
            && Concat(got) == Slice(Concat(bufs), 0, Sum(counts)) && On(s', id, flags, Concat(bufs), |Concat(got)|)
  {
    var all := Concat(bufs);
    WritesAppend(s, id, flags, [], bufs);
    assert [] + all == all;
    var written := WriteAll(s, id, bufs);
    Rewinds(written, id, flags, all, |all|);
    ReadsReturn(Seek(written, id, 0).0, id, flags, all, 0, counts);
  }
}
