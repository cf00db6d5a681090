/** The node table and the descriptor tables, updated in place by the system calls. */
module DescriptorTables {
  import opened Basics
  import opened Spec = Descriptors

  class Kernel {
    var nodes: seq<nat>
    var nextId: nat
    const tables: array<Option<Fds>>
    var count: nat
    var current: nat

    ghost predicate Valid()
      reads this
    {
      tables.Length == 64 && count <= 64
    }

    ghost function F(): Files
      requires tables.Length == 64
      reads this, tables
    {
      Files(nodes, nextId, tables[..], count, current)
    }

    /** The kernel process with its standard streams. */
    constructor ()
      ensures Valid() && F() == Booted(4) && fresh(tables)
    {
      nodes, nextId, count, current := [], 4, 1, 0;
      tables := new Option<Fds>[64](i => if i == 0 then Some(StdFds()) else None);
    }

    method VfsOpen(allowed: bool) returns (id: Option<nat>)
      requires Valid()
      modifies this`nodes, this`nextId
      ensures Valid() && F() == Spec.VfsOpen(old(F()), allowed).0 && id == Spec.VfsOpen(old(F()), allowed).1
    {
      if |nodes| >= MAX_NODES || !allowed {
        return None;
      }
      id := Some(nextId);
      nodes := nodes + [nextId];
      nextId := (nextId + 1) % ID_LIMIT;
    }

    method VfsClose(id: nat) returns (found: bool)
      requires Valid()
      modifies this`nodes
      ensures Valid() && F() == Spec.VfsClose(old(F()), id)
      ensures found <==> |nodes| != |old(nodes)|
    {
      var kept: seq<nat> := [];
      var i := 0;
      while i < |nodes|
        invariant i <= |nodes| && nodes == old(nodes)
        invariant Dropped(nodes, id) == kept + Dropped(nodes[i..], id)
      {
        assert nodes[i..][1..] == nodes[i + 1..];
        if nodes[i] != id {
          kept := kept + [nodes[i]];
        }
        i := i + 1;
      }
      found := |kept| != |nodes|;
      nodes := kept;
    }

    method GetFreeFdIndex(p: nat) returns (idx: Option<nat>)
      requires Valid() && p < 64 && tables[p].Some?
      ensures var i := FirstFree(tables[p].value, 3); idx == if i < 1024 then Some(i) else None
    {
      var i := 3;
      while i < 1024
        invariant 3 <= i <= 1024 && FirstFree(tables[p].value, i) == FirstFree(tables[p].value, 3)
      {
        if tables[p].value[i].node == 0 {
          return Some(i);
        }
        i := i + 1;
      }
      return None;
    }

    method OpenFd(p: nat, id: nat, flags: nat) returns (idx: Option<nat>)
      requires Valid() && p < 64 && tables[p].Some?
      modifies tables
      ensures var t := old(tables[p].value); var i := FirstFree(t, 3);
              && idx == (if i < 1024 then Some(i) else None)
              && F() == if i < 1024 then WithTable(old(F()), p, Some(PutFd(t, i, Fd(id, flags, 1)))) else old(F())
    {
      idx := GetFreeFdIndex(p);
      if idx.Some? {
        tables[p] := Some(PutFd(tables[p].value, idx.value, Fd(id, flags, 1)));
        assert tables[..] == PutTable(old(tables[..]), p, tables[p]);
      }
    }

    /** Takes one reference from a used descriptor and closes its node with the last one. */
    method ReleaseFd(fd: Fd) returns (left: Fd)
      requires Valid() && fd.node != 0
      modifies this`nodes
      ensures nodes == Release(old(nodes), fd).0 && left == Release(old(nodes), fd).1
    {
      left := Released(fd);
      if left.refs == 0 {
        if !IsSpecial(fd) {
          var _ := VfsClose(fd.node);
        }
        left := EMPTY;
      }
    }

    method CloseFd(p: nat, fd: nat) returns (ok: bool)
      requires Valid() && p < 64 && tables[p].Some?
      modifies this`nodes, tables
      ensures Valid() && F() == Spec.CloseFd(old(F()), p, fd).0 && ok == Spec.CloseFd(old(F()), p, fd).1
    {
      if fd >= 1024 || tables[p].value[fd].node == 0 {
        return false;
      }
      var left := ReleaseFd(tables[p].value[fd]);
      tables[p] := Some(PutFd(tables[p].value, fd, left));
      assert tables[..] == PutTable(old(tables[..]), p, tables[p]);
      return true;
    }

    /** The open call, once its path has been read. */
    method Open(allowed: bool, flags: nat) returns (fd: int)
      requires Valid()
      modifies this, tables
      ensures Valid() && F() == Spec.Open(old(F()), allowed, flags).0 && fd == Spec.Open(old(F()), allowed, flags).1
    {
      var id := VfsOpen(allowed);
      if id.None? {
        return -1;
      }
      if current >= 64 || tables[current].None? {
        var _ := VfsClose(id.value);
        return -1;
      }
      var idx := OpenFd(current, id.value, flags);
      if idx.Some? {
        return idx.value;
      }
      var _ := VfsClose(id.value);
      return -1;
    }

    method Close(fd: int) returns (r: int)
      requires Valid()
      modifies this`nodes, tables
      ensures Valid() && F() == Spec.Close(old(F()), fd).0 && r == Spec.Close(old(F()), fd).1
    {
      if fd < 0 || fd > 1023 {
        return EBADF;
      }
      if current >= 64 || tables[current].None? {
        return -1;
      }
      var ok := CloseFd(current, fd);
      return if ok then 0 else EBADF;
    }

    method CreateProcess()
      requires Valid()
      modifies this`count, tables
      ensures Valid() && F() == Create(old(F()))
    {
      if count < 64 {
        tables[count] := Some(StdFds());
        assert tables[..] == PutTable(old(tables[..]), count, tables[count]);
        count := count + 1;
      }
    }

    method DestroyProcess(pid: nat) returns (destroyed: bool)
      requires Valid()
      modifies this, tables
      ensures Valid() && F() == Destroy(old(F()), pid)
      ensures destroyed <==> pid < 64 && old(tables[..])[pid].Some?
    {
      if pid >= 64 || tables[pid].None? {
        return false;
      }
      var t := tables[pid].value;
      tables[pid] := None;
      assert tables[..] == PutTable(old(tables[..]), pid, None);
      CloseTable(t);
      if current == pid {
        current := 0;
      }
      return true;
    }

    method CloseTable(t: Fds)
      requires Valid()
      modifies this`nodes
      ensures nodes == CloseAll(old(nodes), t, 0)
    {
      var i := 0;
      while i < 1024
        invariant i <= 1024 && CloseAll(nodes, t, i) == CloseAll(old(nodes), t, 0)
      {
        if t[i].node != 0 {
          var _ := ReleaseFd(t[i]);
        }
        i := i + 1;
      }
    }
  }
}
