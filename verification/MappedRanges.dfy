/** Ranges of pages, and the bump window for memory-mapped devices. */
module MappedRanges {
  import opened Basics
  import opened PageTables
  import opened VirtualPages
  import opened AddressSpaces

  function PageCount(size: nat): nat { (size + 0xFFF) / 0x1000 }

  /** The pages of `n` consecutive addresses, 0x1000 bytes apart. */
  function RangePaths(virt: nat, n: nat): (ps: seq<Path>)
    ensures |ps| == n && forall k | 0 <= k < n :: ps[k] == PathOf(virt + k * 0x1000)
  {
    seq(n, k requires 0 <= k < n => PathOf(virt + k * 0x1000))
  }

  /** The entries written for `n` consecutive physical pages. */
  function RangeEntries(phys: nat, n: nat, flags: nat): (ws: seq<nat>)
    ensures |ws| == n && forall k | 0 <= k < n :: ws[k] == LeafEntry(phys + k * 0x1000, flags)
  {
    seq(n, k requires 0 <= k < n => LeafEntry(phys + k * 0x1000, flags))
  }

  lemma NthOfRange(virt: nat, phys: nat, n: nat, flags: nat, k: nat, v: nat, p: nat)
    requires k < n && v == virt + k * 0x1000 && p == phys + k * 0x1000
    ensures RangePaths(virt, n)[k] == PathOf(v) && RangeEntries(phys, n, flags)[k] == LeafEntry(p, flags)
  {
  }

  /** Mapping page after page, stopping at the first one that fails. */
  ghost function MapPages(m: Memory, root: nat, ps: seq<Path>, ws: seq<nat>): (r: (Memory, bool))
    requires |ps| == |ws|
  {
    if ps == [] then (m, true)
    else
      var n := |ps| - 1;
      var (m1, ok) := MapPages(m, root, ps[..n], ws[..n]);
      if !ok || root !in m1.tables then (m1, false) else MapPage(m1, root, ps[n], ws[n])
  }

  function UnmapPages(m: Memory, root: nat, ps: seq<Path>): Memory {
    if ps == [] then m
    else UnmapPage(UnmapPages(m, root, ps[..|ps| - 1]), root, ps[|ps| - 1]).0
  }

  ghost function MapRange(m: Memory, root: nat, virt: nat, phys: nat, size: nat, flags: nat): (Memory, bool) {
    MapPages(m, root, RangePaths(virt, PageCount(size)), RangeEntries(phys, PageCount(size), flags))
  }

  function UnmapRange(m: Memory, root: nat, virt: nat, size: nat): Memory {
    UnmapPages(m, root, RangePaths(virt, PageCount(size)))
  }

  /** The last place where `q` occurs in `ps`. */
  function LastHit(ps: seq<Path>, q: Path): (k: Option<nat>)
    ensures k.Some? ==> k.value < |ps| && ps[k.value] == q && forall j | k.value < j < |ps| :: ps[j] != q
    ensures k.None? ==> q !in ps
  {
    if ps == [] then None
    else if ps[|ps| - 1] == q then Some(|ps| - 1)
    else LastHit(ps[..|ps| - 1], q)
  }

  /** The translation of `q` once the pages `ps` are mapped to `ws` in order. */
  function Overlay(m: Memory, root: nat, ps: seq<Path>, ws: seq<nat>, q: Path): Option<nat>
    requires |ps| == |ws|
  {
    match LastHit(ps, q)
    case Some(k) => Some(ws[k])
    case None => Translate(m, root, q)
  }

  ghost predicate Shows(m': Memory, m: Memory, root: nat, ps: seq<Path>, ws: seq<nat>)
    requires |ps| == |ws|
  {
    forall q :: Translate(m', root, q) == Overlay(m, root, ps, ws, q)
  }

  /** All pages are mapped when the range succeeds, a proper prefix of them when it fails. In every
      root the pages outside the range keep their translation, and so do the pages whose leaf table
      it does not share. */
  ghost predicate RangeMapped(m: Memory, lab: Labels, root: nat, ps: seq<Path>, ws: seq<nat>, m': Memory, ok: bool)
    requires |ps| == |ws|
  {
    && (ok ==> Shows(m', m, root, ps, ws))
    && (!ok ==> exists k :: 0 <= k < |ps| && Shows(m', m, root, ps[..k], ws[..k]))
    && (forall r, q | IsRoot(lab, r) && (q !in ps || !Sees(m', root, r, q)) :: Translate(m', r, q) == Translate(m, r, q))
  }

  lemma {:induction false} MapPagesRefines(m: Memory, lab: Labels, root: nat, ps: seq<Path>, ws: seq<nat>)
      returns (lab': Labels)
    requires Wf(m, lab) && IsRoot(lab, root)
    requires |ps| == |ws| && forall k | 0 <= k < |ws| :: IsPresent(ws[k])
    ensures var (m', ok) := MapPages(m, root, ps, ws);
            && Wf(m', lab') && Grows(lab, lab') && SharesOnlyNew(m, lab, m')
            && RangeMapped(m, lab, root, ps, ws, m', ok)
  {
    if ps == [] {
      lab' := lab;
    } else {
      var n := |ps| - 1;
      var lab1 := MapPagesRefines(m, lab, root, ps[..n], ws[..n]);
      var (m1, ok) := MapPages(m, root, ps[..n], ws[..n]);
      lab' := lab1;
      if ok {
        lab' := MapPageRefines(m1, lab1, root, ps[n], ws[n]);
        SharesOnlyNewTwice(m, lab, m1, lab1, MapPage(m1, root, ps[n], ws[n]).0);
        OneMorePage(m, lab, root, ps, ws, m1, MapPage(m1, root, ps[n], ws[n]).0, MapPage(m1, root, ps[n], ws[n]).1);
      } else {
        var k :| 0 <= k < n && Shows(m1, m, root, ps[..n][..k], ws[..n][..k]);
        assert ps[..n][..k] == ps[..k] && ws[..n][..k] == ws[..k];
        assert MapPages(m, root, ps, ws) == (m1, false);
        assert Shows(m1, m, root, ps[..k], ws[..k]);
      }
    }
  }

  lemma OneMorePage(m: Memory, lab: Labels, root: nat, ps: seq<Path>, ws: seq<nat>, m1: Memory, m2: Memory, ok: bool)
    requires |ps| == |ws| > 0
    requires RangeMapped(m, lab, root, ps[..|ps| - 1], ws[..|ps| - 1], m1, true)
    requires ok ==> forall q :: Translate(m2, root, q)
                      == if q == ps[|ps| - 1] then Some(ws[|ps| - 1]) else Translate(m1, root, q)
    requires IsRoot(lab, root) && (!ok ==> SameTranslations(m1, lab, m2))
    requires forall r, q | IsRoot(lab, r) && (q != ps[|ps| - 1] || !Sees(m2, root, r, q)) ::
               Translate(m2, r, q) == Translate(m1, r, q)
    requires forall r, q | IsRoot(lab, r) && Sees(m1, root, r, q) :: Sees(m2, root, r, q)
    ensures RangeMapped(m, lab, root, ps, ws, m2, ok)
  {
    if !ok { assert Shows(m2, m, root, ps[..|ps| - 1], ws[..|ps| - 1]); }
  }

  /** The pages are removed in the given root and in every root that shares their leaf tables. */
  lemma {:induction false} UnmapPagesRefines(m: Memory, lab: Labels, root: nat, ps: seq<Path>)
    requires Wf(m, lab) && IsRoot(lab, root)
    ensures var m' := UnmapPages(m, root, ps);
            && Wf(m', lab)
            && (forall r, path | IsRoot(lab, r) && |path| <= 3 :: Reach(m', r, path) == Reach(m, r, path))
            && (forall q :: Translate(m', root, q) == if q in ps then None else Translate(m, root, q))
            && (forall r, q | IsRoot(lab, r) ::
                  Translate(m', r, q) == if q in ps && Sees(m, root, r, q) then None else Translate(m, r, q))
  {
    if ps != [] {
      UnmapPagesRefines(m, lab, root, ps[..|ps| - 1]);
      UnmapPageRefines(UnmapPages(m, root, ps[..|ps| - 1]), lab, root, ps[|ps| - 1]);
      assert ps == ps[..|ps| - 1] + [ps[|ps| - 1]];
    }
  }

  lemma EntriesArePresent(phys: nat, n: nat, flags: nat)
    ensures forall k | 0 <= k < n :: IsPresent(RangeEntries(phys, n, flags)[k])
  {
    forall k | 0 <= k < n ensures IsPresent(RangeEntries(phys, n, flags)[k]) {
      LeafEntryIsPresent(phys + k * 0x1000, flags);
    }
  }

  /** `map_range` is an overlay of its pages on the translation function. */
  lemma MapRangeRefines(m: Memory, lab: Labels, root: nat, virt: nat, phys: nat, size: nat, flags: nat)
      returns (lab': Labels)
    requires Wf(m, lab) && IsRoot(lab, root)
    ensures var (m', ok) := MapRange(m, root, virt, phys, size, flags);
            var n := PageCount(size);
            && Wf(m', lab') && Grows(lab, lab') && SharesOnlyNew(m, lab, m')
            && RangeMapped(m, lab, root, RangePaths(virt, n), RangeEntries(phys, n, flags), m', ok)
  {
    var n := PageCount(size);
    EntriesArePresent(phys, n, flags);
    lab' := MapPagesRefines(m, lab, root, RangePaths(virt, n), RangeEntries(phys, n, flags));
  }

  /** Unmapping a range after mapping it restores the translations of every root when the range was
      unmapped before in the given root, also when the mapping failed half way. */
  lemma UnmapRestores(m: Memory, lab: Labels, root: nat, virt: nat, phys: nat, size: nat, flags: nat)
    requires Wf(m, lab) && IsRoot(lab, root)
    requires forall q | q in RangePaths(virt, PageCount(size)) :: Translate(m, root, q).None?
    ensures var mapped := MapRange(m, root, virt, phys, size, flags).0;
            SameTranslations(m, lab, UnmapRange(mapped, root, virt, size))
  {
    var lab' := MapRangeRefines(m, lab, root, virt, phys, size, flags);
    var mapped, ps := MapRange(m, root, virt, phys, size, flags).0, RangePaths(virt, PageCount(size));
    UnmapPagesRefines(mapped, lab', root, ps);
    forall r, q | IsRoot(lab, r) ensures Translate(UnmapPages(mapped, root, ps), r, q) == Translate(m, r, q) {
      if q in ps && Sees(mapped, root, r, q) {
        // No new sharing: the leaf table was the root's already, or neither root had one.
        assert Reach(m, r, Leaf(q)) == Reach(m, root, Leaf(q));
      }
    }
  }

  predicate AllDistinct(ps: seq<Path>) {
    forall j, k | 0 <= j < k < |ps| :: ps[j] != ps[k]
  }

  lemma PagesDiffer(virt: nat, j: nat, k: nat)
    requires j < k && k - j < 0x10_0000_0000
    ensures PageNumber(virt + j * 0x1000) != PageNumber(virt + k * 0x1000)
  {
    var page := (virt + j * 0x1000) / 0x1000;
    assert (virt + k * 0x1000) / 0x1000 == page + (k - j);
  }

  /** Pages of a range no longer than the 48-bit address space are all different. */
  lemma RangePagesAreDistinct(virt: nat, n: nat)
    requires n <= 0x10_0000_0000
    ensures AllDistinct(RangePaths(virt, n))
  {
    forall j, k | 0 <= j < k < n ensures RangePaths(virt, n)[j] != RangePaths(virt, n)[k] {
      PagesDiffer(virt, j, k);
      PathNamesPage(virt + j * 0x1000, virt + k * 0x1000);
    }
  }

  // ---------------------------------------------------------------------------
  // The device window

  const MMIO_FLAGS: nat := 26  // WRITABLE | NO_CACHE | WRITE_THROUGH

  /** A successful call: `pages` pages from page number `first` of the range, in `root`. */
  datatype Window = Window(root: nat, first: nat, phys: nat, pages: nat)

  /** The next free address of the range is `lower + used * 0x1000`. */
  datatype Mmio = Mmio(mem: Memory, lower: nat, upper: nat, used: nat, windows: seq<Window>)

  datatype Call = Call(root: nat, phys: nat, size: nat)

  function Current(s: Mmio): nat { s.lower + s.used * 0x1000 }

  /** `map_mmio`; the window is recorded when the call succeeds. */
  ghost function MapMmio(s: Mmio, c: Call): Mmio {
    var pages := PageCount(c.size);
    if Current(s) + pages * 0x1000 > s.upper then s
    else
      var (m, ok) := MapRange(s.mem, c.root, Current(s), c.phys, c.size, MMIO_FLAGS);
      Recorded(s, m, ok, Window(c.root, s.used, c.phys, pages))
  }

  ghost function Recorded(s: Mmio, m: Memory, ok: bool, w: Window): Mmio {
    if ok then Mmio(m, s.lower, s.upper, s.used + w.pages, s.windows + [w])
    else Mmio(m, s.lower, s.upper, s.used, s.windows)
  }

  ghost function MapAll(s: Mmio, calls: seq<Call>): Mmio {
    if calls == [] then s
    else MapMmio(MapAll(s, calls[..|calls| - 1]), calls[|calls| - 1])
  }

  function Entries(w: Window): (ws: seq<nat>)
    ensures |ws| == w.pages
  {
    RangeEntries(w.phys, w.pages, MMIO_FLAGS)
  }

  /** Every page of the window translates to its own physical page; `ps` are the range's pages. */
  ghost predicate Intact(m: Memory, ps: seq<Path>, w: Window) {
    Maps(m, w.root, ps, w.first, Entries(w))
  }

  ghost predicate Maps(m: Memory, root: nat, ps: seq<Path>, first: nat, ws: seq<nat>) {
    first + |ws| <= |ps| && forall k | 0 <= k < |ws| :: Translate(m, root, ps[first + k]) == Some(ws[k])
  }

  ghost predicate WindowsOk(m: Memory, lab: Labels, ps: seq<Path>, used: nat, ws: seq<Window>) {
    && used <= |ps|
    && (forall i | 0 <= i < |ws| ::
          IsRoot(lab, ws[i].root) && ws[i].first + ws[i].pages <= used && Intact(m, ps, ws[i]))
    && (forall i, j | 0 <= i < j < |ws| :: ws[i].first + ws[i].pages <= ws[j].first)
  }

  lemma StillMaps(m: Memory, lab: Labels, root: nat, ps: seq<Path>, first: nat, ws: seq<nat>, used: nat, n: nat, m': Memory)
    requires AllDistinct(ps) && Maps(m, root, ps, first, ws) && first + |ws| <= used && used + n <= |ps| && IsRoot(lab, root)
    requires forall r, q | IsRoot(lab, r) && q !in ps[used..used + n] :: Translate(m', r, q) == Translate(m, r, q)
    ensures Maps(m', root, ps, first, ws)
  {
    forall k | 0 <= k < |ws| ensures Translate(m', root, ps[first + k]) == Some(ws[k]) {
      assert ps[first + k] !in ps[used..used + n];
    }
  }

  lemma OldWindowsIntact(m: Memory, lab: Labels, ps: seq<Path>, used: nat, ws: seq<Window>, n: nat, m': Memory)
    requires AllDistinct(ps) && WindowsOk(m, lab, ps, used, ws) && used + n <= |ps|
    requires forall r, q | IsRoot(lab, r) && q !in ps[used..used + n] :: Translate(m', r, q) == Translate(m, r, q)
    ensures forall i | 0 <= i < |ws| :: Intact(m', ps, ws[i])
  {
    forall i | 0 <= i < |ws| ensures Intact(m', ps, ws[i]) {
      StillMaps(m, lab, ws[i].root, ps, ws[i].first, Entries(ws[i]), used, n, m');
    }
  }

  lemma NowMaps(m: Memory, root: nat, ps: seq<Path>, used: nat, ws: seq<nat>, m': Memory)
    requires AllDistinct(ps) && used + |ws| <= |ps| && Shows(m', m, root, ps[used..used + |ws|], ws)
    ensures Maps(m', root, ps, used, ws)
  {
    var mine := ps[used..used + |ws|];
    forall k | 0 <= k < |ws| ensures Translate(m', root, ps[used + k]) == Some(ws[k]) {
      assert mine[k] == ps[used + k];
      HitsItself(mine, k);
      assert Translate(m', root, mine[k]) == Overlay(m, root, mine, ws, mine[k]);
    }
  }

  lemma {:induction false} HitsItself(ps: seq<Path>, k: nat)
    requires AllDistinct(ps) && k < |ps|
    ensures LastHit(ps, ps[k]) == Some(k)
  {
    assert ps[k] in ps;
  }

  lemma WindowsAfterCall(m: Memory, lab: Labels, lab': Labels, ps: seq<Path>, used: nat, ws: seq<Window>,
                         w: Window, m': Memory, ok: bool)
    requires AllDistinct(ps) && WindowsOk(m, lab, ps, used, ws)
    requires w.first == used && used + w.pages <= |ps| && IsRoot(lab, w.root) && Grows(lab, lab')
    requires RangeMapped(m, lab, w.root, ps[used..used + w.pages], Entries(w), m', ok)
    ensures if ok then WindowsOk(m', lab', ps, used + w.pages, ws + [w]) else WindowsOk(m', lab', ps, used, ws)
  {
    OldWindowsIntact(m, lab, ps, used, ws, w.pages, m');
    if ok { NowMaps(m, w.root, ps, used, Entries(w), m'); }
  }

  lemma RecordedKeepsWindows(s: Mmio, lab: Labels, lab': Labels, ps: seq<Path>, w: Window, m': Memory, ok: bool)
    requires AllDistinct(ps) && WindowsOk(s.mem, lab, ps, s.used, s.windows)
    requires w.first == s.used && s.used + w.pages <= |ps| && IsRoot(lab, w.root) && Grows(lab, lab')
    requires RangeMapped(s.mem, lab, w.root, ps[s.used..s.used + w.pages], Entries(w), m', ok)
    ensures var s' := Recorded(s, m', ok, w); WindowsOk(s'.mem, lab', ps, s'.used, s'.windows)
  {
    WindowsAfterCall(s.mem, lab, lab', ps, s.used, s.windows, w, m', ok);
  }

  lemma CallPages(s: Mmio, n: nat, limit: nat)
    requires s.used + n <= limit
    ensures RangePaths(Current(s), n) == RangePaths(s.lower, limit)[s.used..s.used + n]
  {
    forall k | 0 <= k < n ensures RangePaths(Current(s), n)[k] == RangePaths(s.lower, limit)[s.used + k] {
      assert Current(s) + k * 0x1000 == s.lower + (s.used + k) * 0x1000;
    }
  }

  function RangeLimit(s: Mmio): nat {
    if s.upper < s.lower then 0 else (s.upper - s.lower) / 0x1000
  }

  lemma CallFits(s: Mmio, n: nat)
    requires Current(s) + n * 0x1000 <= s.upper
    ensures s.used + n <= RangeLimit(s)
  {
  }

  lemma MapMmioRecords(s: Mmio, c: Call)
    requires Current(s) + PageCount(c.size) * 0x1000 <= s.upper
    ensures var (m', ok) := MapRange(s.mem, c.root, Current(s), c.phys, c.size, MMIO_FLAGS);
            MapMmio(s, c) == Recorded(s, m', ok, Window(c.root, s.used, c.phys, PageCount(c.size)))
  {
  }

  /** A call whose pages are the next of the range. */
  lemma CallKeepsWindows(s: Mmio, lab: Labels, c: Call, ps: seq<Path>, w: Window, m': Memory, ok: bool) returns (lab': Labels)
    requires Wf(s.mem, lab) && IsRoot(lab, c.root) && WindowsOk(s.mem, lab, ps, s.used, s.windows) && AllDistinct(ps)
    requires w == Window(c.root, s.used, c.phys, PageCount(c.size))
    requires s.used + w.pages <= |ps| && RangePaths(Current(s), w.pages) == ps[s.used..s.used + w.pages]
    requires (m', ok) == MapRange(s.mem, c.root, Current(s), c.phys, c.size, MMIO_FLAGS)
    ensures Wf(m', lab') && Grows(lab, lab')
    ensures var s' := Recorded(s, m', ok, w); WindowsOk(s'.mem, lab', ps, s'.used, s'.windows)
  {
    lab' := MapRangeRefines(s.mem, lab, c.root, Current(s), c.phys, c.size, MMIO_FLAGS);
    assert RangeMapped(s.mem, lab, w.root, ps[s.used..s.used + w.pages], Entries(w), m', ok);
    RecordedKeepsWindows(s, lab, lab', ps, w, m', ok);
  }

  lemma MapMmioKeepsWindows(s: Mmio, lab: Labels, c: Call) returns (lab': Labels)
    requires Wf(s.mem, lab) && IsRoot(lab, c.root) && RangeLimit(s) <= 0x10_0000_0000
    requires WindowsOk(s.mem, lab, RangePaths(s.lower, RangeLimit(s)), s.used, s.windows)
    ensures var s' := MapMmio(s, c);
            && Wf(s'.mem, lab') && Grows(lab, lab')
            && s'.lower == s.lower && s'.upper == s.upper
            && WindowsOk(s'.mem, lab', RangePaths(s.lower, RangeLimit(s)), s'.used, s'.windows)
  {
    var n, ps := PageCount(c.size), RangePaths(s.lower, RangeLimit(s));
    lab' := lab;
    if Current(s) + n * 0x1000 <= s.upper {
      CallFits(s, n);
      RangePagesAreDistinct(s.lower, RangeLimit(s));
      CallPages(s, n, RangeLimit(s));
      var (m', ok) := MapRange(s.mem, c.root, Current(s), c.phys, c.size, MMIO_FLAGS);
      lab' := CallKeepsWindows(s, lab, c, ps, Window(c.root, s.used, c.phys, n), m', ok);
      MapMmioRecords(s, c);
    }
  }

  /** `s'` is a later state of the range of `s`, with all windows in order. */
  ghost predicate RangeOk(s: Mmio, lab: Labels, s': Mmio, lab': Labels) {
    && Wf(s'.mem, lab') && Grows(lab, lab')
    && s'.lower == s.lower && s'.upper == s.upper
    && WindowsOk(s'.mem, lab', RangePaths(s.lower, RangeLimit(s)), s'.used, s'.windows)
  }

  lemma CallKeepsRange(s: Mmio, lab: Labels, s1: Mmio, lab1: Labels, c: Call) returns (lab': Labels)
    requires RangeOk(s, lab, s1, lab1) && IsRoot(lab, c.root) && RangeLimit(s) <= 0x10_0000_0000
    ensures RangeOk(s, lab, MapMmio(s1, c), lab')
  {
    lab' := MapMmioKeepsWindows(s1, lab1, c);
  }

  /** In every run of `map_mmio` calls the successful windows lie inside the range, are pairwise
      disjoint, and each of their pages still translates to its own physical page at the end. */
  lemma {:induction false} WindowsStayIntact(s: Mmio, lab: Labels, calls: seq<Call>) returns (lab': Labels)
    requires Wf(s.mem, lab) && s.windows == [] && s.used == 0 && RangeLimit(s) <= 0x10_0000_0000
    requires forall i | 0 <= i < |calls| :: IsRoot(lab, calls[i].root)
    ensures RangeOk(s, lab, MapAll(s, calls), lab')
  {
    if calls == [] {
      lab' := lab;
    } else {
      var front := calls[..|calls| - 1];
      var lab1 := WindowsStayIntact(s, lab, front);
      lab' := CallKeepsRange(s, lab, MapAll(s, front), lab1, calls[|calls| - 1]);
    }
  }
}
