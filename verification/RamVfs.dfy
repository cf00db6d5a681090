/** The RAM file system and the node table, updated in place. */
module RamVfs {
  import opened Spec = VfsIo

  class RamVfs {
    var files: seq<File>
    var nodes: seq<Node>
    var nextId: nat

    ghost function V(): Vfs
      reads this
    {
      Vfs(files, nodes, nextId)
    }

    constructor ()
      ensures V() == Vfs([], [], 4)
    {
      files, nodes, nextId := [], [], 4;
    }

    method LookUpFile(name: string) returns (i: nat)
      ensures i == FindFile(files, name)
    {
      i := 0;
      while i < |files| && !SameName(files[i].name, name)
        invariant i <= |files| && forall j | 0 <= j < i :: !SameName(files[j].name, name)
      {
        i := i + 1;
      }
    }

    method LookUpNode(id: nat) returns (i: nat)
      ensures i == FindNode(nodes, id)
    {
      i := 0;
      while i < |nodes| && nodes[i].id != id
        invariant i <= |nodes| && forall j | 0 <= j < i :: nodes[j].id != id
      {
        i := i + 1;
      }
    }

    method ReadFile(name: string) returns (r: Result<Bytes>)
      ensures r == Spec.ReadFile(files, name)
    {
      var i := LookUpFile(name);
      r := if i < |files| then Ok(files[i].data) else Err(FileNotFound);
    }

    method CreateFile(name: string, data: Bytes) returns (r: Result<()>)
      modifies this`files
      ensures (files, r) == Spec.CreateFile(old(files), name, data)
    {
      var i := LookUpFile(name);
      if i < |files| {
        return Err(FileExists);
      }
      files := files + [File(name, data)];
      return Ok(());
    }

    method WriteFile(name: string, data: Bytes) returns (r: Result<()>)
      modifies this`files
      ensures (files, r) == Spec.WriteFile(old(files), name, data)
    {
      var i := LookUpFile(name);
      if i == |files| {
        return Err(FileNotFound);
      }
      files := files[i := File(files[i].name, data)];
      return Ok(());
    }

    method Open(name: string, flags: nat) returns (r: Result<nat>)
      modifies this
      ensures (V(), r) == Spec.Open(old(V()), name, flags)
    {
      if |nodes| >= MAX_NODES {
        return Err(NodeTableFull);
      }
      var at := LookUpFile(name);
      var existed := at < |files|;
      if Creates(flags) && Exclusive(flags) && existed {
        return Err(FileExists);
      }
      Prepare(name, flags, existed);
      at := LookUpFile(name);
      if at == |files| {
        return Err(FileNotFound);
      }
      var size := SizeOf(files[at].data);
      r := Ok(nextId);
      nodes := nodes + [Node(nextId, false, name, size, if Appends(flags) then size else 0, flags)];
      nextId := (nextId + 1) % WORD;
    }

    /** Creates a missing file, or empties an existing one, as the flags ask. */
    method Prepare(name: string, flags: nat, existed: bool)
      requires existed == Exists(files, name)
      modifies this`files
      ensures files == Prepared(old(files), name, flags)
    {
      if Creates(flags) && !existed {
        var _ := CreateFile(name, []);
      }
      if Truncates(flags) && existed {
        var _ := WriteFile(name, []);
      }
    }

    method Seek(id: nat, offset: nat) returns (r: Result<()>)
      modifies this`nodes
      ensures (V(), r) == Spec.Seek(old(V()), id, offset)
    {
      var i := LookUpNode(id);
      if i == |nodes| {
        return Err(NodeNotFound);
      }
      var n := nodes[i];
      nodes := nodes[i := WithCursor(n, n.size, if offset < n.size then offset else n.size)];
      return Ok(());
    }

    method Read(id: nat, max: nat) returns (r: Result<Bytes>)
      modifies this`nodes
      ensures (V(), r) == Spec.Read(old(V()), id, max)
    {
      var i := LookUpNode(id);
      if i == |nodes| {
        return Err(NodeNotFound);
      }
      var n := nodes[i];
      if n.isDir {
        return Err(NotAFile);
      }
      if WriteOnly(n.flags) {
        return Err(NotForReading);
      }
      var data := ReadFile(n.name);
      if data.Err? {
        return data;
      }
      var slice := Chunk(data.value, n.cursor, max);
      nodes := nodes[i := WithCursor(n, n.size, n.cursor + SizeOf(slice))];
      return Ok(slice);
    }

    /** At most `max` bytes from `start` on. */
    static method Chunk(data: Bytes, start: nat, max: nat) returns (slice: Bytes)
      ensures slice == Slice(data, start, max)
    {
      var available := if |data| > start then |data| - start else 0;
      var count := if available < max then available else max;
      slice := if count > 0 then data[start..start + count] else [];
    }

    method WriteNode(id: nat, buf: Bytes) returns (r: Result<()>)
      modifies this
      ensures (V(), r) == Spec.WriteNode(old(V()), id, buf)
    {
      var i := LookUpNode(id);
      if i == |nodes| {
        return Err(NodeNotFound);
      }
      var n := nodes[i];
      if n.isDir {
        return Err(NotAFile);
      }
      if ReadOnly(n.flags) {
        return Err(NotForWriting);
      }
      var cursor := if Appends(n.flags) then n.size else n.cursor;
      var existing := ReadFile(n.name);
      if existing.Err? {
        return Err(existing.error);
      }
      var data := if cursor == 0 then buf else Patched(existing.value, cursor, buf);
      Replace(i, data, buf);
      return Ok(());
    }

    /** Gives the node's file its new contents, the node their size, and moves its cursor. */
    method Replace(i: nat, data: Bytes, buf: Bytes)
      requires i < |nodes| && Exists(files, nodes[i].name)
      modifies this`files, this`nodes
      ensures V() == Rewritten(old(V()), i, data, CursorAfter(old(nodes[i].flags), old(nodes[i].cursor), data, buf))
    {
      var n := nodes[i];
      var _ := WriteFile(n.name, data);
      FileUpdated(old(files), n.name, data);
      var at := LookUpFile(n.name);
      var size := SizeOf(files[at].data);
      nodes := nodes[i := WithCursor(n, size, if Appends(n.flags) then size else n.cursor + SizeOf(buf))];
    }

    method Close(id: nat) returns (r: Result<()>)
      modifies this`nodes
      ensures (V(), r) == Spec.Close(old(V()), id)
    {
      var kept: seq<Node> := [];
      var i := 0;
      while i < |nodes|
        invariant i <= |nodes| && nodes == old(nodes)
        invariant Kept(nodes, id) == kept + Kept(nodes[i..], id)
      {
        assert nodes[i..][1..] == nodes[i + 1..];
        if nodes[i].id != id {
          kept := kept + [nodes[i]];
        }
        i := i + 1;
      }
      assert kept == Kept(nodes, id);
      r := if |kept| == |nodes| then Err(NodeNotFound) else Ok(());
      nodes := kept;
    }
  }
}
