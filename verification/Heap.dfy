/** The kernel heap: blocks with a header in front of the payload, a first-fit list of freed
    blocks, and a break that fresh blocks and `sbrk` move. */
module Heap {
  import opened Basics
  import opened Bits

  const HEADER: nat := 24

  /** `sizes` gives the payload size in the header at each block address, `free` the list of
      freed blocks from head to tail. Address 0 is null. */
  datatype Heap = Heap(start: nat, size: nat, offset: nat, sizes: map<nat, nat>, free: seq<nat>)

  // ---------------------------------------------------------------------------
  // Rounding up to an alignment

  function AlignUp(x: nat, align: nat): (r: nat)
    requires align > 0
    ensures x <= r < x + align
  {
    if x % align == 0 then x else x + align - x % align
  }

  /** The next multiple of the alignment. */
  lemma AlignUpIsMultiple(x: nat, align: nat)
    requires align > 0
    ensures AlignUp(x, align) % align == 0
  {
    var q, m := x / align, x % align;
    assert x == q * align + m;
    if m != 0 {
      assert AlignUp(x, align) == (q + 1) * align;
      DivModUnique(AlignUp(x, align), align, q + 1, 0);
    }
  }

  /** Rounding down what lies less than `align` above. */
  lemma AlignUpRoundsDown(x: nat, align: nat)
    requires align > 0
    ensures var y := x + align - 1; AlignUp(x, align) == y - y % align
  {
    var q, m := x / align, x % align;
    var y := x + align - 1;
    assert x == q * align + m;
    if m == 0 {
      DivModUnique(y, align, q, align - 1);
    } else {
      assert y == (q + 1) * align + (m - 1);
      DivModUnique(y, align, q + 1, m - 1);
    }
  }

  lemma MaskStep(x: nat, mask: nat, m: nat)
    requires m > 0 && And(x / 2, mask) == x / 2 - x / 2 % m
    ensures And(x, 2 * mask) == x - x % (2 * m)
  {
    AndUnfold(x, 2 * mask);
    DoubleModulus(x, m);
  }

  lemma FullMask(x: nat, width: nat)
    requires x < Pow2(width)
    ensures And(x, Pow2(width) - 1) == x
  {
    AndLowMask(x, width);
    ModSmaller(x, Pow2(width));
  }

  lemma ModSmaller(x: nat, m: nat)
    requires x < m
    ensures x % m == x
  {
  }

  /** Clearing the low bits, as the source does it on a 64-bit word, rounds down. */
  lemma {:induction false} MaskRoundsDown(x: nat, k: nat, width: nat)
    requires x < Pow2(width) && k <= width
    ensures Pow2(k) <= Pow2(width)
    ensures And(x, Pow2(width) - Pow2(k)) == x - x % Pow2(k)
  {
    if k == 0 {
      FullMask(x, width);
    } else {
      MaskRoundsDown(x / 2, k - 1, width - 1);
      MaskStep(x, Pow2(width - 1) - Pow2(k - 1), Pow2(k - 1));
      Doubled(Pow2(width - 1), Pow2(k - 1));
    }
  }

  lemma Doubled(a: nat, b: nat)
    requires b <= a
    ensures 2 * a - 2 * b == 2 * (a - b)
  {
  }

  /** The source's mask expression, on words of any width, is `AlignUp`. */
  lemma AlignUpIsMask(x: nat, k: nat, width: nat)
    requires k <= width && x + Pow2(k) - 1 < Pow2(width)
    ensures Pow2(k) <= Pow2(width)
    ensures AlignUp(x, Pow2(k)) == And(x + Pow2(k) - 1, Not(width, Pow2(k) - 1))
  {
    MaskRoundsDown(x + Pow2(k) - 1, k, width);
    AlignUpRoundsDown(x, Pow2(k));
  }

  /** The alignment of a block: that of the layout, `2^k`, and at least that of a header. */
  function BlockAlign(k: nat): nat { Pow2(if k > 3 then k else 3) }

  lemma MultipleOfFactor(x: nat, a: nat, b: nat)
    requires a > 0 && b > 0 && a * b > 0 && x % (a * b) == 0
    ensures x % a == 0
  {
    var q := x / (a * b);
    assert x == q * (a * b) == (q * b) * a;
    DivModUnique(x, a, q * b, 0);
  }

  lemma MultipleOfPowerOf8(x: nat, j: nat)
    requires j >= 3 && x % Pow2(j) == 0
    ensures x % 8 == 0
  {
    Pow2Add(3, j - 3);
    assert Pow2(3) == 8;
    MultipleOfFactor(x, 8, Pow2(j - 3));
  }

  // ---------------------------------------------------------------------------
  // The operations

  /** The first block of the list, from place `i` on, that holds `n` bytes. */
  function FitFrom(free: seq<nat>, sizes: map<nat, nat>, n: nat, i: nat): (r: nat)
    requires i <= |free|
    ensures i <= r <= |free|
    ensures r < |free| ==> free[r] in sizes && sizes[free[r]] >= n
    ensures forall j | i <= j < r :: free[j] in sizes ==> sizes[free[j]] < n
    decreases |free| - i
  {
    if i == |free| || (free[i] in sizes && sizes[free[i]] >= n) then i else FitFrom(free, sizes, n, i + 1)
  }

  function Without(s: seq<nat>, i: nat): seq<nat>
    requires i < |s|
  {
    s[..i] + s[i + 1..]
  }

  /** A block cut off at the break, if there is room. */
  function Fresh(h: Heap, n: nat, k: nat): Option<nat> {
    var at := AlignUp(h.offset, BlockAlign(k));
    if h.start == 0 || at + HEADER + n > h.size then None else Some(h.start + at)
  }

  function Alloc(h: Heap, n: nat, k: nat): (r: (Heap, nat))
    ensures r.1 == 0 || r.1 >= HEADER
  {
    var i := FitFrom(h.free, h.sizes, n, 0);
    if i < |h.free| then (Heap(h.start, h.size, h.offset, h.sizes, Without(h.free, i)), h.free[i] + HEADER)
    else
      match Fresh(h, n, k)
      case None => (h, 0)
      case Some(b) =>
        (Heap(h.start, h.size, AlignUp(h.offset, BlockAlign(k)) + HEADER + n, h.sizes[b := n], h.free), b + HEADER)
  }

  function Dealloc(h: Heap, p: nat): Heap
    requires p == 0 || p >= HEADER
  {
    if p == 0 then h else Heap(h.start, h.size, h.offset, h.sizes, h.free + [p - HEADER])
  }

  /** Null, or the old break. */
  function Sbrk(h: Heap, increment: int): (Heap, nat) {
    if h.start == 0 || h.offset + increment < 0 || h.offset + increment > h.size then (h, 0)
    else (Heap(h.start, h.size, h.offset + increment, h.sizes, h.free), h.start + h.offset)
  }

  // ---------------------------------------------------------------------------
  // Runs, seen by the callers

  datatype Span = Span(lo: nat, hi: nat)

  predicate Apart(a: Span, b: Span) { a.hi <= b.lo || b.hi <= a.lo }

  /** `live` gives the size asked for of every block handed out and not yet given back,
      `grown` the spans obtained by `sbrk`, `top` the break left by the last fresh block. */
  datatype Machine = Machine(heap: Heap, live: map<nat, nat>, grown: seq<Span>, top: nat)

  datatype Step = DoAlloc(n: nat, k: nat) | DoDealloc(p: nat) | DoSbrk(increment: int)

  function Extent(h: Heap, b: nat): Span
    requires b in h.sizes
  {
    Span(b, b + HEADER + h.sizes[b])
  }

  /** What is left of a span when memory past `end` is given back. */
  function Cut(r: Span, end: nat): Span {
    Span(if r.lo < end then r.lo else end, if r.hi < end then r.hi else end)
  }

  function CutAll(rs: seq<Span>, end: nat): (r: seq<Span>)
    ensures |r| == |rs| && forall i | 0 <= i < |rs| :: r[i] == Cut(rs[i], end)
  {
    seq(|rs|, i requires 0 <= i < |rs| => Cut(rs[i], end))
  }

  /** Only live payloads are given back, and `sbrk` gives back no more than it got since the
      last fresh block. */
  predicate Allowed(m: Machine, step: Step) {
    match step
    case DoAlloc(_, _) => true
    case DoDealloc(p) => p == 0 || (p >= HEADER && p - HEADER in m.live)
    case DoSbrk(increment) => m.heap.offset + increment >= m.top || m.heap.offset + increment < 0
  }

  function Exec(m: Machine, step: Step): Machine {
    var h := m.heap;
    match step
    case DoAlloc(n, k) =>
      var (h', p) := Alloc(h, n, k);
      if p == 0 then m
      else Machine(h', m.live[p - HEADER := n], m.grown, if h'.offset != h.offset then h'.offset else m.top)
    case DoDealloc(p) =>
      if p < HEADER then m else Machine(Dealloc(h, p), m.live - {p - HEADER}, m.grown, m.top)
    case DoSbrk(increment) =>
      var (h', p) := Sbrk(h, increment);
      if p == 0 then m
      else if increment >= 0 then Machine(h', m.live, m.grown + [Span(p, p + increment)], m.top)
      else Machine(h', m.live, CutAll(m.grown, h'.start + h'.offset), m.top)
  }

  /** Every block lies below the break, 8-aligned within the heap. */
  predicate BlockOk(h: Heap, top: nat, b: nat)
    requires b in h.sizes
  {
    h.start <= b && (b - h.start) % 8 == 0 && Extent(h, b).hi <= h.start + top
  }

  ghost predicate BlocksOk(h: Heap, top: nat) {
    && (forall b {:trigger BlockOk(h, top, b)} | b in h.sizes :: BlockOk(h, top, b))
    && (forall b, c {:trigger Extent(h, b), Extent(h, c)} | b in h.sizes && c in h.sizes && b != c :: Apart(Extent(h, b), Extent(h, c)))
  }

  predicate SpanOk(h: Heap, r: Span) { h.start <= r.lo <= r.hi <= h.start + h.offset }

  ghost predicate SpansOk(h: Heap, grown: seq<Span>) {
    && (forall i | 0 <= i < |grown| :: SpanOk(h, grown[i]))
    && (forall i, j | 0 <= i < j < |grown| :: Apart(grown[i], grown[j]))
    && (forall b, i {:trigger Extent(h, b), grown[i]} | b in h.sizes && 0 <= i < |grown| :: Apart(Extent(h, b), grown[i]))
  }

  /** Every block is live or free, never both, and a live one holds what was asked for. */
  ghost predicate Conserved(h: Heap, live: map<nat, nat>) {
    && Distinct(h.free)
    && (forall b :: b in h.sizes <==> b in live || b in h.free)
    && (forall b | b in live :: b !in h.free && b in h.sizes && live[b] <= h.sizes[b])
  }

  ghost predicate Sound(m: Machine) {
    && m.top <= m.heap.offset <= m.heap.size
    && BlocksOk(m.heap, m.top) && SpansOk(m.heap, m.grown) && Conserved(m.heap, m.live)
  }

  // ---------------------------------------------------------------------------
  // Every step keeps the heap sound

  lemma WithoutKeeps(s: seq<nat>, i: nat)
    requires i < |s| && Distinct(s)
    ensures Distinct(Without(s, i))
    ensures forall b :: b in Without(s, i) <==> b in s && b != s[i]
  {
    var r := Without(s, i);
    forall b ensures b in r <==> b in s && b != s[i] {
      if b in s && b != s[i] {
        var j :| 0 <= j < |s| && s[j] == b;
        assert b == r[if j < i then j else j - 1];
      }
    }
  }

  lemma SameBlocks(h: Heap, h': Heap, top: nat, grown: seq<Span>)
    requires BlocksOk(h, top) && SpansOk(h, grown)
    requires h'.start == h.start && h'.sizes == h.sizes && h'.offset >= h.offset
    ensures BlocksOk(h', top) && SpansOk(h', grown)
  {
    forall b | b in h'.sizes ensures BlockOk(h', top, b) {
      assert BlockOk(h, top, b);
    }
    forall b, c | b in h'.sizes && c in h'.sizes && b != c ensures Apart(Extent(h', b), Extent(h', c)) {
      assert Apart(Extent(h, b), Extent(h, c));
    }
    forall i | 0 <= i < |grown| ensures SpanOk(h', grown[i]) {
      assert SpanOk(h, grown[i]);
    }
    forall b, i | b in h'.sizes && 0 <= i < |grown| ensures Apart(Extent(h', b), grown[i]) {
      assert Apart(Extent(h, b), grown[i]);
    }
  }

  lemma ReuseConserves(h: Heap, live: map<nat, nat>, i: nat, n: nat)
    requires Conserved(h, live) && i < |h.free| && h.free[i] in h.sizes && h.sizes[h.free[i]] >= n
    ensures Conserved(Heap(h.start, h.size, h.offset, h.sizes, Without(h.free, i)), live[h.free[i] := n])
  {
    WithoutKeeps(h.free, i);
  }

  lemma ReuseKeeps(m: Machine, n: nat, k: nat)
    requires Sound(m) && FitFrom(m.heap.free, m.heap.sizes, n, 0) < |m.heap.free|
    ensures Sound(Exec(m, DoAlloc(n, k)))
  {
    ReuseConserves(m.heap, m.live, FitFrom(m.heap.free, m.heap.sizes, n, 0), n);
    SameBlocks(m.heap, Exec(m, DoAlloc(n, k)).heap, m.top, m.grown);
  }

  lemma DeallocConserves(h: Heap, live: map<nat, nat>, b: nat)
    requires Conserved(h, live) && b in live
    ensures Conserved(Heap(h.start, h.size, h.offset, h.sizes, h.free + [b]), live - {b})
  {
  }

  lemma DeallocKeeps(m: Machine, p: nat)
    requires Sound(m) && Allowed(m, DoDealloc(p))
    ensures Sound(Exec(m, DoDealloc(p)))
  {
    if p != 0 {
      DeallocConserves(m.heap, m.live, p - HEADER);
      SameBlocks(m.heap, Dealloc(m.heap, p), m.top, m.grown);
    }
  }

  /** A fresh block starts at or past the break, on a multiple of 8. */
  lemma FreshIsPastBreak(h: Heap, n: nat, k: nat)
    requires Fresh(h, n, k).Some?
    ensures var at := AlignUp(h.offset, BlockAlign(k));
            h.offset <= at && at % 8 == 0 && Fresh(h, n, k).value == h.start + at && at + HEADER + n <= h.size
  {
    AlignUpIsMultiple(h.offset, BlockAlign(k));
    MultipleOfPowerOf8(AlignUp(h.offset, BlockAlign(k)), if k > 3 then k else 3);
  }

  lemma FreshBlocks(h: Heap, h': Heap, top: nat, b: nat, n: nat, grown: seq<Span>)
    requires BlocksOk(h, top) && SpansOk(h, grown) && top <= h.offset
    requires h.start + h.offset <= b && (b - h.start) % 8 == 0
    requires h'.start == h.start && h'.sizes == h.sizes[b := n] && h'.offset == b - h.start + HEADER + n
    ensures b !in h.sizes && BlocksOk(h', h'.offset) && SpansOk(h', grown)
  {
    assert b in h.sizes ==> BlockOk(h, top, b);
    forall c | c in h'.sizes ensures BlockOk(h', h'.offset, c) {
      if c != b { assert BlockOk(h, top, c); }
    }
    forall c, d | c in h'.sizes && d in h'.sizes && c != d ensures Apart(Extent(h', c), Extent(h', d)) {
      if c != b { assert BlockOk(h, top, c); }
      if d != b { assert BlockOk(h, top, d); }
      if c != b && d != b { assert Apart(Extent(h, c), Extent(h, d)); }
    }
    forall i | 0 <= i < |grown| ensures SpanOk(h', grown[i]) {
      assert SpanOk(h, grown[i]);
    }
    forall c, i | c in h'.sizes && 0 <= i < |grown| ensures Apart(Extent(h', c), grown[i]) {
      assert SpanOk(h, grown[i]);
      if c != b { assert Apart(Extent(h, c), grown[i]); }
    }
  }

  lemma FreshKeeps(m: Machine, n: nat, k: nat)
    requires Sound(m) && FitFrom(m.heap.free, m.heap.sizes, n, 0) == |m.heap.free|
    ensures Sound(Exec(m, DoAlloc(n, k)))
  {
    if Fresh(m.heap, n, k).Some? {
      var b := Fresh(m.heap, n, k).value;
      FreshIsPastBreak(m.heap, n, k);
      FreshBlocks(m.heap, Alloc(m.heap, n, k).0, m.top, b, n, m.grown);
    }
  }

  lemma GrowKeeps(h: Heap, h': Heap, top: nat, grown: seq<Span>)
    requires BlocksOk(h, top) && SpansOk(h, grown) && top <= h.offset
    requires h'.start == h.start && h'.sizes == h.sizes && h'.offset >= h.offset
    ensures SpansOk(h', grown + [Span(h.start + h.offset, h.start + h'.offset)])
  {
    SameBlocks(h, h', top, grown);
    var r := Span(h.start + h.offset, h.start + h'.offset);
    var all := grown + [r];
    forall i | 0 <= i < |grown| ensures Apart(grown[i], r) {
      assert SpanOk(h, grown[i]);
    }
    forall b | b in h'.sizes ensures Apart(Extent(h', b), r) {
      assert BlockOk(h, top, b);
    }
  }

  lemma ShrinkKeeps(h: Heap, h': Heap, top: nat, grown: seq<Span>)
    requires BlocksOk(h, top) && SpansOk(h, grown)
    requires h'.start == h.start && h'.sizes == h.sizes && top <= h'.offset <= h.offset
    ensures BlocksOk(h', top) && SpansOk(h', CutAll(grown, h'.start + h'.offset))
  {
    forall b | b in h'.sizes ensures BlockOk(h', top, b) {
      assert BlockOk(h, top, b);
    }
    forall b, c | b in h'.sizes && c in h'.sizes && b != c ensures Apart(Extent(h', b), Extent(h', c)) {
      assert Apart(Extent(h, b), Extent(h, c));
    }
    var cut := CutAll(grown, h'.start + h'.offset);
    forall i | 0 <= i < |cut| ensures SpanOk(h', cut[i]) {
      assert SpanOk(h, grown[i]);
    }
    forall i, j | 0 <= i < j < |cut| ensures Apart(cut[i], cut[j]) {
      assert Apart(grown[i], grown[j]);
      assert SpanOk(h, grown[i]) && SpanOk(h, grown[j]);
    }
    forall b, i | b in h'.sizes && 0 <= i < |cut| ensures Apart(Extent(h', b), cut[i]) {
      assert BlockOk(h, top, b) && Apart(Extent(h, b), grown[i]);
    }
  }

  lemma GrowthKeeps(m: Machine, increment: nat)
    requires Sound(m) && m.heap.start != 0 && m.heap.offset + increment <= m.heap.size
    ensures Sound(Exec(m, DoSbrk(increment)))
  {
    var h' := Sbrk(m.heap, increment).0;
    SameBlocks(m.heap, h', m.top, m.grown);
    GrowKeeps(m.heap, h', m.top, m.grown);
  }

  lemma ShrinkageKeeps(m: Machine, increment: int)
    requires Sound(m) && m.heap.start != 0 && increment < 0 && m.heap.offset + increment >= m.top
    ensures Sound(Exec(m, DoSbrk(increment)))
  {
    ShrinkKeeps(m.heap, Sbrk(m.heap, increment).0, m.top, m.grown);
  }

  lemma SbrkKeeps(m: Machine, increment: int)
    requires Sound(m) && Allowed(m, DoSbrk(increment))
    ensures Sound(Exec(m, DoSbrk(increment)))
  {
    if Sbrk(m.heap, increment).1 != 0 {
      if increment >= 0 {
        GrowthKeeps(m, increment);
      } else {
        ShrinkageKeeps(m, increment);
      }
    }
  }

  lemma StepKeepsSound(m: Machine, step: Step)
    requires Sound(m) && Allowed(m, step)
    ensures Sound(Exec(m, step))
  {
    match step
    case DoAlloc(n, k) =>
      if FitFrom(m.heap.free, m.heap.sizes, n, 0) < |m.heap.free| {
        ReuseKeeps(m, n, k);
      } else {
        FreshKeeps(m, n, k);
      }
    case DoDealloc(p) => DeallocKeeps(m, p);
    case DoSbrk(increment) => SbrkKeeps(m, increment);
  }

  // ---------------------------------------------------------------------------
  // Runs

  datatype Run = Boot(start: nat, size: nat) | Then(before: Run, step: Step)

  function After(run: Run): Machine {
    match run
    case Boot(start, size) => Machine(Heap(start, size, 0, map[], []), map[], [], 0)
    case Then(before, step) => Exec(After(before), step)
  }

  predicate Legal(run: Run) {
    run.Then? ==> Legal(run.before) && Allowed(After(run.before), run.step)
  }

  /** In every run blocks and grown spans are pairwise disjoint and below the break, blocks are
      8-aligned within the heap, and every block is live or in the list, exactly once. */
  lemma RunsAreSound(run: Run)
    requires Legal(run)
    ensures Sound(After(run))
  {
    if run.Then? {
      RunsAreSound(run.before);
      StepKeepsSound(After(run.before), run.step);
    }
  }

  function Removed(s: seq<nat>, b: nat): seq<nat> {
    if s == [] then [] else if s[0] == b then Removed(s[1..], b) else [s[0]] + Removed(s[1..], b)
  }

  function FreedAfter(h: Heap, step: Step, freed: seq<nat>): seq<nat> {
    match step
    case DoAlloc(n, k) =>
      var p := Alloc(h, n, k).1;
      if p == 0 then freed else Removed(freed, p - HEADER)
    case DoDealloc(p) => if p < HEADER then freed else freed + [p - HEADER]
    case DoSbrk(_) => freed
  }

  /** The blocks given back, in that order, less those handed out again since. */
  function Freed(run: Run): seq<nat> {
    match run
    case Boot(_, _) => []
    case Then(before, step) => FreedAfter(After(before).heap, step, Freed(before))
  }

  lemma {:induction false} RemovedAbsent(s: seq<nat>, b: nat)
    requires b !in s
    ensures Removed(s, b) == s
  {
    if s != [] {
      RemovedAbsent(s[1..], b);
    }
  }

  lemma {:induction false} RemovedIsWithout(s: seq<nat>, i: nat)
    requires i < |s| && Distinct(s)
    ensures Removed(s, s[i]) == Without(s, i)
  {
    if i == 0 {
      RemovedAbsent(s[1..], s[0]);
      assert Without(s, 0) == s[1..];
    } else {
      RemovedIsWithout(s[1..], i - 1);
      assert Without(s, i) == [s[0]] + Without(s[1..], i - 1);
    }
  }

  lemma FreshIsNew(m: Machine, n: nat, k: nat)
    requires Sound(m) && Fresh(m.heap, n, k).Some?
    ensures Fresh(m.heap, n, k).value !in m.heap.sizes && Fresh(m.heap, n, k).value !in m.heap.free
  {
    var b := Fresh(m.heap, n, k).value;
    FreshIsPastBreak(m.heap, n, k);
    assert b in m.heap.sizes ==> BlockOk(m.heap, m.top, b);
  }

  lemma AllocTakesFromList(m: Machine, n: nat, k: nat)
    requires Sound(m)
    ensures var (h', p) := Alloc(m.heap, n, k);
            h'.free == if p == 0 then m.heap.free else Removed(m.heap.free, p - HEADER)
  {
    var h := m.heap;
    var i := FitFrom(h.free, h.sizes, n, 0);
    if i < |h.free| {
      RemovedIsWithout(h.free, i);
    } else if Fresh(h, n, k).Some? {
      FreshIsNew(m, n, k);
      RemovedAbsent(h.free, Fresh(h, n, k).value);
    }
  }

  lemma StepKeepsOrder(m: Machine, step: Step)
    requires Sound(m)
    ensures Exec(m, step).heap.free == FreedAfter(m.heap, step, m.heap.free)
  {
    if step.DoAlloc? {
      AllocTakesFromList(m, step.n, step.k);
    }
  }

  /** In every run the list is exactly the freed blocks, in the order they were freed. */
  lemma ListIsFreedInOrder(run: Run)
    requires Legal(run)
    ensures After(run).heap.free == Freed(run)
  {
    if run.Then? {
      var m := After(run.before);
      ListIsFreedInOrder(run.before);
      assert Exec(m, run.step).heap.free == FreedAfter(m.heap, run.step, m.heap.free) by {
        RunsAreSound(run.before);
        StepKeepsOrder(m, run.step);
      }
    }
  }

  /** In a sound heap every listed block lies below the break, so a fresh block overwrites no
      header in the list. */
  lemma ListedBelowBreak(m: Machine, b: nat)
    requires Sound(m) && b in m.heap.free
    ensures b < m.heap.start + m.heap.offset
  {
    assert b in m.heap.sizes && BlockOk(m.heap, m.top, b);
  }

  /** What soundness says about one live block of `n` bytes. */
  predicate Serves(m: Machine, b: nat, n: nat) {
    var h := m.heap;
    && b in h.sizes && h.sizes[b] >= n
    && h.start <= b && b + HEADER + n <= h.start + h.offset <= h.start + h.size
    && (h.start % 8 == 0 ==> b % 8 == 0)
    && (forall c | c in m.live && c != b :: c in h.sizes && Apart(Span(b, b + HEADER + n), Extent(h, c)))
    && (forall i | 0 <= i < |m.grown| :: Apart(Span(b, b + HEADER + n), m.grown[i]))
  }

  lemma LiveIsServed(m: Machine, b: nat)
    requires Sound(m) && b in m.live
    ensures Serves(m, b, m.live[b])
  {
    var h, n := m.heap, m.live[b];
    LiveIsBlock(h, m.live, b);
    InHeap(h, m.top, b, n);
    forall c | c in m.live && c != b ensures c in h.sizes && Apart(Span(b, b + HEADER + n), Extent(h, c)) {
      LiveIsBlock(h, m.live, c);
      ApartFrom(h, m.top, b, c, n);
    }
    forall i | 0 <= i < |m.grown| ensures Apart(Span(b, b + HEADER + n), m.grown[i]) {
      ApartFromSpan(h, m.grown, b, i, n);
    }
  }

  lemma LiveIsBlock(h: Heap, live: map<nat, nat>, b: nat)
    requires Conserved(h, live) && b in live
    ensures b in h.sizes && live[b] <= h.sizes[b]
  {
  }

  lemma InHeap(h: Heap, top: nat, b: nat, n: nat)
    requires BlocksOk(h, top) && b in h.sizes && n <= h.sizes[b] && top <= h.offset
    ensures h.start <= b && b + HEADER + n <= h.start + h.offset && (h.start % 8 == 0 ==> b % 8 == 0)
  {
    assert BlockOk(h, top, b);
  }

  lemma ApartFrom(h: Heap, top: nat, b: nat, c: nat, n: nat)
    requires BlocksOk(h, top) && b in h.sizes && c in h.sizes && b != c && n <= h.sizes[b]
    ensures Apart(Span(b, b + HEADER + n), Extent(h, c))
  {
    assert Apart(Extent(h, b), Extent(h, c));
  }

  lemma ApartFromSpan(h: Heap, grown: seq<Span>, b: nat, i: nat, n: nat)
    requires SpansOk(h, grown) && b in h.sizes && i < |grown| && n <= h.sizes[b]
    ensures Apart(Span(b, b + HEADER + n), grown[i])
  {
    assert Apart(Extent(h, b), grown[i]);
  }

  lemma HandedOutOnce(m: Machine, n: nat, k: nat)
    requires Sound(m)
    ensures var p := Alloc(m.heap, n, k).1; p != 0 ==> p - HEADER !in m.live
  {
    if FitFrom(m.heap.free, m.heap.sizes, n, 0) == |m.heap.free| && Fresh(m.heap, n, k).Some? {
      FreshIsNew(m, n, k);
    }
  }

  /** Null means that no freed block is large enough and nothing is left at the break. */
  lemma NullMeansFull(h: Heap, n: nat, k: nat)
    ensures Alloc(h, n, k).1 == 0 <==>
            (forall b | b in h.free :: b in h.sizes ==> h.sizes[b] < n) && Fresh(h, n, k).None?
  {
    var i := FitFrom(h.free, h.sizes, n, 0);
    if i < |h.free| {
      assert h.free[i] in h.free;
    }
  }

  /** A block handed out was nobody's before and serves the request. */
  predicate HandsOut(m: Machine, n: nat, k: nat) {
    var p := Alloc(m.heap, n, k).1;
    p != 0 ==> p - HEADER !in m.live && Serves(Exec(m, DoAlloc(n, k)), p - HEADER, n)
  }

  lemma AllocServesFrom(m: Machine, n: nat, k: nat)
    requires Sound(m)
    ensures HandsOut(m, n, k)
  {
    var p := Alloc(m.heap, n, k).1;
    var m' := Exec(m, DoAlloc(n, k));
    if p != 0 {
      HandedOutOnce(m, n, k);
      assert Serves(m', p - HEADER, n) by {
        assert m'.live == m.live[p - HEADER := n];
        assert Sound(m') by { StepKeepsSound(m, DoAlloc(n, k)); }
        LiveIsServed(m', p - HEADER);
      }
    }
  }

  /** In every run a block handed out was nobody's before, holds the size asked for inside the
      heap, is 8-aligned if the heap is, and keeps clear of every other live block and of the
      spans of `sbrk`. */
  lemma AllocServes(run: Run, n: nat, k: nat)
    requires Legal(run)
    ensures HandsOut(After(run), n, k)
  {
    RunsAreSound(run);
    AllocServesFrom(After(run), n, k);
  }

  // ---------------------------------------------------------------------------
  // Alignments above 8, and giving memory back

  lemma AddMultiple(x: nat, y: nat, m: nat)
    requires m > 0 && x % m == 0
    ensures (x + y) % m == y % m
  {
    var p, q, r := x / m, y / m, y % m;
    assert x + y == (p + q) * m + r;
    DivModUnique(x + y, m, p + q, r);
  }

  lemma BlockAlignFactor(x: nat, k: nat)
    requires x % BlockAlign(k) == 0
    ensures x % Pow2(k) == 0
  {
    if k < 3 {
      Pow2Add(k, 3 - k);
      MultipleOfFactor(x, Pow2(k), Pow2(3 - k));
    }
  }

  /** A fresh block starts a multiple of the alignment above the start of the heap, and its payload
      a header further: it has the alignment asked for exactly if the first block's has. */
  lemma FreshAlignment(h: Heap, n: nat, k: nat)
    requires Fresh(h, n, k).Some?
    ensures (Fresh(h, n, k).value + HEADER) % Pow2(k) == 0 <==> (h.start + HEADER) % Pow2(k) == 0
  {
    var at := AlignUp(h.offset, BlockAlign(k));
    AlignUpIsMultiple(h.offset, BlockAlign(k));
    BlockAlignFactor(at, k);
    AddMultiple(at, h.start + HEADER, Pow2(k));
  }

  /** An allocation has the alignment asked for exactly if the payload of the freed block it reuses
      has, or, when none fits, the payload at the very start of the heap. */
  lemma AllocAlignment(h: Heap, n: nat, k: nat)
    requires Alloc(h, n, k).1 != 0
    ensures var i := FitFrom(h.free, h.sizes, n, 0);
            Alloc(h, n, k).1 % Pow2(k) == 0 <==> ((if i < |h.free| then h.free[i] else h.start) + HEADER) % Pow2(k) == 0
  {
    if FitFrom(h.free, h.sizes, n, 0) == |h.free| { FreshAlignment(h, n, k); }
  }

  /** On a heap that starts on such a boundary, fresh payloads have an alignment exactly if it is
      at most 8. */
  lemma FreshOnBoundary(h: Heap, n: nat, k: nat)
    requires Fresh(h, n, k).Some? && h.start % BlockAlign(k) == 0
    ensures (Fresh(h, n, k).value + HEADER) % Pow2(k) == 0 <==> k <= 3
  {
    FreshAlignment(h, n, k);
    if k <= 3 { HeaderAligns(h.start, k); } else { HeaderMisaligns(h.start, k); }
  }

  /** So a request for whole pages, such as a stack, is never met on a heap that starts on a page. */
  lemma PagesAreMisaligned(h: Heap, n: nat)
    requires Fresh(h, n, 12).Some? && h.start % Pow2(12) == 0
    ensures (Fresh(h, n, 12).value + HEADER) % Pow2(12) != 0
  {
    FreshOnBoundary(h, n, 12);
  }

  /** A block asked for on a multiple of 16 starts 24 bytes past one. */
  lemma Misaligned()
    ensures Fresh(Heap(4096, 4096, 0, map[], []), 8, 4) == Some(4096) && (4096 + HEADER) % Pow2(4) == 8
  {
    assert Pow2(4) == 16;
  }

  lemma HeaderAligns(b: nat, k: nat)
    requires k <= 3 && b % BlockAlign(k) == 0
    ensures (b + HEADER) % Pow2(k) == 0
  {
    var p := Pow2(k);
    assert p == 1 || p == 2 || p == 4 || p == 8;
    assert BlockAlign(k) == 8;
  }

  lemma HeaderMisaligns(b: nat, k: nat)
    requires k > 3 && b % Pow2(k) == 0
    ensures (b + HEADER) % Pow2(k) != 0
  {
    Pow2Monotone(4, k);
    assert Pow2(4) == 16;
    if (b + HEADER) % Pow2(k) == 0 {
      Pow2Add(4, k - 4);
      MultipleOfFactor(b, 16, Pow2(k - 4));
      MultipleOfFactor(b + HEADER, 16, Pow2(k - 4));
    }
  }

  /** Some block ends where the last fresh one left the break. */
  ghost predicate TopReached(m: Machine) {
    m.top == 0 || exists b :: b in m.heap.sizes && Extent(m.heap, b).hi == m.heap.start + m.top
  }

  lemma RunsReachTop(run: Run)
    requires Legal(run)
    ensures TopReached(After(run))
  {
    if run.Then? {
      RunsReachTop(run.before);
      StepReachesTop(After(run.before), run.step);
    }
  }

  predicate CutsFresh(h: Heap, step: Step) {
    step.DoAlloc? && FitFrom(h.free, h.sizes, step.n, 0) == |h.free| && Fresh(h, step.n, step.k).Some?
  }

  lemma OthersKeepTop(m: Machine, step: Step)
    requires !CutsFresh(m.heap, step)
    ensures var m' := Exec(m, step);
            m'.heap.sizes == m.heap.sizes && m'.heap.start == m.heap.start && m'.top == m.top
  {
  }

  lemma StepReachesTop(m: Machine, step: Step)
    requires TopReached(m)
    ensures TopReached(Exec(m, step))
  {
    var h, m' := m.heap, Exec(m, step);
    if CutsFresh(h, step) {
      FreshReachesTop(m, step.n, step.k);
    } else {
      OthersKeepTop(m, step);
      if m.top != 0 {
        var b :| b in h.sizes && Extent(h, b).hi == h.start + m.top;
        assert Extent(m'.heap, b) == Extent(h, b);
      }
    }
  }

  lemma FreshReachesTop(m: Machine, n: nat, k: nat)
    requires FitFrom(m.heap.free, m.heap.sizes, n, 0) == |m.heap.free| && Fresh(m.heap, n, k).Some?
    ensures TopReached(Exec(m, DoAlloc(n, k)))
  {
    var m' := Exec(m, DoAlloc(n, k));
    var b := Fresh(m.heap, n, k).value;
    assert b in m'.heap.sizes && Extent(m'.heap, b).hi == m.heap.start + m'.top;
  }

  /** A successful `sbrk` leaves every block below the break exactly if it gives back no more than
      was obtained by `sbrk` since the last fresh block. */
  lemma SbrkKeepsBlocksIff(run: Run, increment: int)
    requires Legal(run) && Sbrk(After(run).heap, increment).1 != 0
    ensures var m := After(run); var h' := Sbrk(m.heap, increment).0;
            (forall b | b in h'.sizes :: Extent(h', b).hi <= h'.start + h'.offset) <==> m.heap.offset + increment >= m.top
  {
    var m := After(run);
    var h' := Sbrk(m.heap, increment).0;
    RunsReachTop(run);
    if m.heap.offset + increment >= m.top {
      forall b | b in h'.sizes ensures Extent(h', b).hi <= h'.start + h'.offset {
        RunsAreSound(run);
        assert BlockOk(m.heap, m.top, b);
      }
    } else if m.top != 0 {
      var b :| b in m.heap.sizes && Extent(m.heap, b).hi == m.heap.start + m.top;
      assert b in h'.sizes && Extent(h', b) == Extent(m.heap, b);
    }
  }

  /** Giving back a live block's memory and allocating again hands out the same payload twice. */
  lemma SbrkCanOverlap(start: nat)
    requires start > 0
    ensures var h0 := Heap(start, 4096, 0, map[], []);
            var (h1, p) := Alloc(h0, 8, 3);
            var (h2, q) := Sbrk(h1, -32);
            var (h3, r) := Alloc(h2, 8, 3);
            p != 0 && q != 0 && r == p
  {
    assert BlockAlign(3) == 8;
  }
}
