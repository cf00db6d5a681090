/** The page-table code itself: tables edited in place over the bitmap allocator. Each method is
    proved equal to the operation on values of the same name. */
module Mapper {
  import opened Basics
  import opened FrameAllocator
  import opened PageTables
  import opened VirtualPages
  import opened AddressSpaces
  import Ranges = MappedRanges

  class Mapper {
    var tables: map<nat, Table>
    const frames: Allocator

    ghost predicate Valid()
      reads this, frames, frames.bitmap
    {
      frames.Valid()
    }

    ghost function Mem(): Memory
      requires Valid()
      reads this, frames, frames.bitmap
    {
      Memory(tables, frames.Free())
    }

    constructor (tables: map<nat, Table>, frames: Allocator)
      requires frames.Valid()
      ensures Valid() && this.tables == tables && this.frames == frames
    {
      this.tables := tables;
      this.frames := frames;
    }

    /** `table.zero()`: every entry of the table cleared in turn. */
    method ZeroTableAt(t: nat)
      modifies this`tables
      ensures tables == old(tables)[t := ZeroTable()]
    {
      var words: seq<nat> := [];
      for i := 0 to 512
        invariant |words| == i && forall k | 0 <= k < i :: words[k] == 0
      {
        words := words + [0];
      }
      assert words == ZeroTable();
      tables := tables[t := words];
    }

    method GetOrCreateTable(t: nat, i: Index) returns (r: Option<nat>)
      requires Valid() && t in tables
      modifies this`tables, frames.bitmap
      ensures Valid() && (Mem(), r) == GetOrCreate(old(Mem()), t, i)
    {
      var entry := tables[t][i];
      if IsPresent(entry) { return Some(FrameOf(entry)); }
      r := frames.Alloc();
      if r.Some? {
        ZeroTableAt(r.value);
        tables := tables[t := tables[t][i := TableEntry(r.value)]];
      }
    }

    method MapPage(root: nat, virt: nat, phys: nat, flags: nat, ghost lab: Labels) returns (ok: bool)
      requires Valid() && Wf(Mem(), lab) && IsRoot(lab, root)
      modifies this`tables, frames.bitmap
      ensures Valid()
      ensures (Mem(), ok) == AddressSpaces.MapPage(old(Mem()), root, PathOf(virt), LeafEntry(phys, flags))
    {
      var p := PathOf(virt);
      ghost var m := Mem();
      ghost var a, b, c := [p.i4], [p.i4, p.i3], Leaf(p);
      assert a[..0] == [] && b[..1] == a && c[..2] == b;

      var p3 := GetOrCreateTable(root, p.i4);
      assert (Mem(), p3) == Ensure(m, root, a);
      if p3.None? {
        EnsureStops(m, root, b);
        EnsureStops(m, root, c);
        return false;
      }
      TableExists(m, lab, root, a);

      var p2 := GetOrCreateTable(p3.value, p.i3);
      assert (Mem(), p2) == Ensure(m, root, b);
      if p2.None? {
        EnsureStops(m, root, c);
        return false;
      }
      TableExists(m, lab, root, b);

      var p1 := GetOrCreateTable(p2.value, p.i2);
      assert (Mem(), p1) == Ensure(m, root, c);
      if p1.None? { return false; }
      TableExists(m, lab, root, c);

      tables := tables[p1.value := tables[p1.value][p.i1 := LeafEntry(phys, flags)]];
      return true;
    }

    method UnmapPage(root: nat, virt: nat, ghost lab: Labels) returns (phys: Option<nat>)
      requires Valid() && Wf(Mem(), lab) && IsRoot(lab, root)
      modifies this`tables
      ensures Valid() && (Mem(), phys) == AddressSpaces.UnmapPage(old(Mem()), root, PathOf(virt))
    {
      var p := PathOf(virt);
      ghost var m := Mem();
      ghost var a, b, c := [p.i4], [p.i4, p.i3], Leaf(p);
      assert a[..0] == [] && b[..1] == a && c[..2] == b;
      ReachIsLabelled(m, lab, root, a);
      ReachIsLabelled(m, lab, root, b);
      ReachIsLabelled(m, lab, root, c);

      if !IsPresent(tables[root][p.i4]) { return None; }
      var p3 := FrameOf(tables[root][p.i4]);
      assert Reach(m, root, a) == Some(p3);
      if !IsPresent(tables[p3][p.i3]) { return None; }
      var p2 := FrameOf(tables[p3][p.i3]);
      assert Reach(m, root, b) == Some(p2);
      if !IsPresent(tables[p2][p.i2]) { return None; }
      var p1 := FrameOf(tables[p2][p.i2]);
      assert Reach(m, root, c) == Some(p1);
      var entry := tables[p1][p.i1];
      if !IsPresent(entry) { return None; }
      tables := tables[p1 := tables[p1][p.i1 := 0]];
      return Some(GetAddr(entry));
    }

    /** One iteration of `map_range`: page `k` of the range. */
    method MapNth(root: nat, virt: nat, phys: nat, flags: nat, ghost lab: Labels,
                  ghost m: Memory, ghost ps: seq<Path>, ghost ws: seq<nat>, ghost k: nat) returns (ok: bool)
      requires Valid() && Wf(m, lab) && IsRoot(lab, root)
      requires k < |ps| == |ws| && ps[k] == PathOf(virt) && ws[k] == LeafEntry(phys, flags)
      requires forall j | 0 <= j < |ws| :: IsPresent(ws[j])
      requires (Mem(), true) == Ranges.MapPages(m, root, ps[..k], ws[..k])
      modifies this`tables, frames.bitmap
      ensures Valid() && (Mem(), ok) == Ranges.MapPages(m, root, ps[..k + 1], ws[..k + 1])
    {
      ghost var lab' := Ranges.MapPagesRefines(m, lab, root, ps[..k], ws[..k]);
      RangeStep(m, root, ps, ws, k, Mem());
      ok := MapPage(root, virt, phys, flags, lab');
    }

    method MapRange(root: nat, virt: nat, phys: nat, size: nat, flags: nat, ghost lab: Labels) returns (ok: bool)
      requires Valid() && Wf(Mem(), lab) && IsRoot(lab, root)
      modifies this`tables, frames.bitmap
      ensures Valid() && (Mem(), ok) == Ranges.MapRange(old(Mem()), root, virt, phys, size, flags)
    {
      var pages := Ranges.PageCount(size);
      var currentVirt, currentPhys := virt, phys;
      ghost var m := Mem();
      ghost var ps, ws := Ranges.RangePaths(virt, pages), Ranges.RangeEntries(phys, pages, flags);
      Ranges.EntriesArePresent(phys, pages, flags);
      for k := 0 to pages
        invariant Valid()
        invariant currentVirt == virt + k * 0x1000 && currentPhys == phys + k * 0x1000
        invariant (Mem(), true) == Ranges.MapPages(m, root, ps[..k], ws[..k])
      {
        Ranges.NthOfRange(virt, phys, pages, flags, k, currentVirt, currentPhys);
        ok := MapNth(root, currentVirt, currentPhys, flags, lab, m, ps, ws, k);
        if !ok {
          StoppedRange(m, root, ps, ws, k + 1);
          return false;
        }
        currentVirt := currentVirt + 0x1000;
        currentPhys := currentPhys + 0x1000;
      }
      assert ps[..pages] == ps && ws[..pages] == ws;
      return true;
    }

    method UnmapNth(root: nat, virt: nat, ghost lab: Labels, ghost m: Memory, ghost ps: seq<Path>, ghost k: nat)
      requires Valid() && Wf(m, lab) && IsRoot(lab, root)
      requires k < |ps| && ps[k] == PathOf(virt) && Mem() == Ranges.UnmapPages(m, root, ps[..k])
      modifies this`tables
      ensures Valid() && Mem() == Ranges.UnmapPages(m, root, ps[..k + 1])
    {
      Ranges.UnmapPagesRefines(m, lab, root, ps[..k]);
      assert ps[..k + 1][..k] == ps[..k];
      var _ := UnmapPage(root, virt, lab);
    }

    method UnmapRange(root: nat, virt: nat, size: nat, ghost lab: Labels)
      requires Valid() && Wf(Mem(), lab) && IsRoot(lab, root)
      modifies this`tables
      ensures Valid() && Mem() == Ranges.UnmapRange(old(Mem()), root, virt, size)
    {
      var pages := Ranges.PageCount(size);
      var currentVirt := virt;
      ghost var m := Mem();
      ghost var ps := Ranges.RangePaths(virt, pages);
      for k := 0 to pages
        invariant Valid() && currentVirt == virt + k * 0x1000
        invariant Mem() == Ranges.UnmapPages(m, root, ps[..k])
      {
        UnmapNth(root, currentVirt, lab, m, ps, k);
        currentVirt := currentVirt + 0x1000;
      }
      assert ps[..pages] == ps;
    }

    method CreateUserPml4(kernel: nat) returns (root: Option<nat>)
      requires Valid() && kernel in tables && kernel !in frames.Free()
      modifies this`tables, frames.bitmap
      ensures Valid() && (Mem(), root) == AddressSpaces.CreateUserPml4(old(Mem()), kernel)
    {
      ghost var m := Mem();
      root := frames.Alloc();
      if root.Some? {
        ZeroTableAt(root.value);
        for i := KERNEL_HALF to 512
          modifies this`tables
          invariant tables.Keys == m.tables.Keys + {root.value}
          invariant forall t | t in m.tables && t != root.value :: tables[t] == m.tables[t]
          invariant forall k: Index :: tables[root.value][k]
                      == if KERNEL_HALF <= k < i then m.tables[kernel][k] else 0
        {
          tables := tables[root.value := tables[root.value][i := tables[kernel][i]]];
        }
        assert tables[root.value] == UserTable(m.tables[kernel]);
        assert tables == m.tables[root.value := UserTable(m.tables[kernel])];
      }
    }
  }

  /** The tables that a walk has ensured exist. */
  lemma TableExists(m: Memory, lab: Labels, root: nat, path: seq<Index>)
    requires Wf(m, lab) && IsRoot(lab, root) && |path| <= 3
    ensures var (m', t) := Ensure(m, root, path); t.Some? ==> t.value in m'.tables
  {
    var lab' := EnsurePath(m, lab, root, path);
    ReachIsLabelled(Ensure(m, root, path).0, lab', root, path);
  }

  lemma RangeStep(m: Memory, root: nat, ps: seq<Path>, ws: seq<nat>, k: nat, m1: Memory)
    requires k < |ps| == |ws| && root in m1.tables
    requires (m1, true) == Ranges.MapPages(m, root, ps[..k], ws[..k])
    ensures Ranges.MapPages(m, root, ps[..k + 1], ws[..k + 1]) == MapPage(m1, root, ps[k], ws[k])
  {
    assert ps[..k + 1][..k] == ps[..k] && ws[..k + 1][..k] == ws[..k];
  }

  /** A range that has failed stays failed. */
  lemma {:induction false} StoppedRange(m: Memory, root: nat, ps: seq<Path>, ws: seq<nat>, k: nat)
    requires |ps| == |ws| && k <= |ps| && !Ranges.MapPages(m, root, ps[..k], ws[..k]).1
    ensures Ranges.MapPages(m, root, ps, ws) == Ranges.MapPages(m, root, ps[..k], ws[..k])
  {
    if k < |ps| {
      var n := |ps| - 1;
      assert ps[..n][..k] == ps[..k] && ws[..n][..k] == ws[..k];
      StoppedRange(m, root, ps[..n], ws[..n], k);
    } else {
      assert ps[..k] == ps && ws[..k] == ws;
    }
  }

  /** The window for device registers, over the mapper. */
  class MmioWindow {
    const mapper: Mapper
    var lower: nat
    var upper: nat
    var current: nat

    constructor (mapper: Mapper)
      ensures this.mapper == mapper && lower == upper == current == 0
    {
      this.mapper := mapper;
      lower, upper, current := 0, 0, 0;
    }

    /** `mmio_map_range`: a fresh range with nothing used. */
    method SetRange(lower: nat, upper: nat)
      modifies this
      ensures this.lower == lower && this.upper == upper && current == lower
    {
      this.lower, this.upper, this.current := lower, upper, lower;
    }

    /** `map_mmio`: refines the step on values, and returns the address of the new window. */
    method MapMmio(root: nat, phys: nat, size: nat, ghost lab: Labels, ghost s: Ranges.Mmio) returns (virt: Option<nat>)
      requires mapper.Valid() && Wf(mapper.Mem(), lab) && IsRoot(lab, root)
      requires s.mem == mapper.Mem() && s.lower == lower && s.upper == upper && Ranges.Current(s) == current
      modifies this`current, mapper`tables, mapper.frames.bitmap
      ensures mapper.Valid()
      ensures var s' := Ranges.MapMmio(s, Ranges.Call(root, phys, size));
              && mapper.Mem() == s'.mem && current == Ranges.Current(s')
              && (virt.Some? <==> |s'.windows| == |s.windows| + 1)
              && (virt.Some? ==> virt.value == old(current))
              && (virt.None? ==> s'.windows == s.windows)
    {
      var pages := Ranges.PageCount(size);
      if current + pages * 0x1000 > upper { return None; }
      var start := current;
      var ok := mapper.MapRange(root, start, phys, size, Ranges.MMIO_FLAGS, lab);
      if !ok { return None; }
      current := current + pages * 0x1000;
      return Some(start);
    }
  }
}
