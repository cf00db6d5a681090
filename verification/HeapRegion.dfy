/** Where the kernel heap is placed, and what the frame allocator thinks of that memory. */
module HeapRegion {
  import opened Basics
  import opened FrameAllocator

  const MIN_LENGTH: nat := 16 * 1024 * 1024
  const DIRECT_MAP: nat := 0xFFFF_8000_0000_0000

  /** A span of physical memory. */
  datatype Span = Span(base: nat, length: nat)

  /** The bytes of the frame bitmap, rounded up to whole pages. */
  function BitmapBytes(regions: seq<Region>): nat {
    (BitmapWords(FrameTotal(regions)) * 8 + PAGE_SIZE - 1) / PAGE_SIZE * PAGE_SIZE
  }

  predicate Large(r: Region) { r.usable && r.length > MIN_LENGTH }

  /** The first large usable region, or the number of regions. */
  function FirstLarge(regions: seq<Region>): (k: nat)
    ensures k <= |regions| && (k < |regions| ==> Large(regions[k]))
    ensures forall j | 0 <= j < k :: !Large(regions[j])
  {
    if regions == [] || Large(regions[0]) then 0 else 1 + FirstLarge(regions[1..])
  }

  /** The heap is that region less the room for a bitmap at its start; `None` where the source
      panics, for want of a region or of room in it. */
  function HeapSpan(regions: seq<Region>): Option<Span> {
    var k := FirstLarge(regions);
    if k == |regions| || regions[k].length < BitmapBytes(regions) then None
    else Some(Span(regions[k].base + BitmapBytes(regions), regions[k].length - BitmapBytes(regions)))
  }

  /** Computes where the heap goes, with the loops of `init_allocator`. */
  method PlaceHeap(regions: seq<Region>) returns (r: Option<Span>)
    ensures r == HeapSpan(regions)
  {
    var maxAddress := 0;
    for k := 0 to |regions|
      invariant maxAddress == MaxAddress(regions[..k])
    {
      assert regions[..k + 1][..k] == regions[..k];
      if EndOf(regions[k]) > maxAddress { maxAddress := EndOf(regions[k]); }
    }
    assert regions[..|regions|] == regions;
    var frames := (maxAddress + PAGE_SIZE - 1) / PAGE_SIZE;
    var words := (frames + 63) / 64;
    var bitmap := (words * 8 + PAGE_SIZE - 1) / PAGE_SIZE * PAGE_SIZE;
    for k := 0 to |regions|
      invariant forall j | 0 <= j < k :: !Large(regions[j])
    {
      if regions[k].usable && regions[k].length > MIN_LENGTH {
        if regions[k].length < bitmap { return None; }
        return Some(Span(regions[k].base + bitmap, regions[k].length - bitmap));
      }
    }
    return None;
  }

  // ---------------------------------------------------------------------------
  // The frames of the heap

  /** The whole of frame `f` lies in the span. */
  predicate FrameIn(s: Span, f: nat) { s.base <= f * PAGE_SIZE && f * PAGE_SIZE + PAGE_SIZE <= s.base + s.length }

  /** As a boot loader reports them: usable regions start on pages, and no two regions overlap. */
  predicate Proper(regions: seq<Region>) {
    && (forall k | 0 <= k < |regions| :: regions[k].usable ==> regions[k].base % PAGE_SIZE == 0)
    && (forall j, k | 0 <= j < k < |regions| ::
          EndOf(regions[j]) <= regions[k].base || EndOf(regions[k]) <= regions[j].base)
  }

  lemma {:induction false} HomeExists(regions: seq<Region>, words: nat, k: nat)
    requires k < |regions| && regions[k].usable && regions[k].length >= words * 8
    ensures BitmapHome(regions, words).Some?
  {
    if k > 0 { HomeExists(regions[1..], words, k - 1); }
  }

  lemma {:induction false} HomeIsRegion(regions: seq<Region>, words: nat) returns (k: nat)
    requires BitmapHome(regions, words).Some?
    ensures k < |regions| && regions[k].usable && regions[k].length >= words * 8
    ensures BitmapHome(regions, words) == Some(regions[k].base)
  {
    if regions[0].usable && regions[0].length >= words * 8 {
      k := 0;
    } else {
      var rest := HomeIsRegion(regions[1..], words);
      k := rest + 1;
    }
  }

  lemma {:induction false} EndsBelowMax(regions: seq<Region>, k: nat)
    requires k < |regions|
    ensures EndOf(regions[k]) <= MaxAddress(regions)
  {
    if k < |regions| - 1 { EndsBelowMax(regions[..|regions| - 1], k); }
  }

  lemma FrameExists(regions: seq<Region>, k: nat, f: nat)
    requires k < |regions| && f * PAGE_SIZE < EndOf(regions[k])
    ensures f < FrameTotal(regions)
  {
    EndsBelowMax(regions, k);
  }

  /** A frame of the heap is one of the whole frames of the region it was cut from. */
  lemma HeapFrameCovered(regions: seq<Region>, f: nat)
    requires HeapSpan(regions).Some? && FrameIn(HeapSpan(regions).value, f)
    requires regions[FirstLarge(regions)].base % PAGE_SIZE == 0
    ensures Covers(regions[FirstLarge(regions)], f) && InUsable(regions, f)
  {
    var r := regions[FirstLarge(regions)];
    assert r.base + r.length == HeapSpan(regions).value.base + HeapSpan(regions).value.length;
    WholeFrames(r.base, r.length, f);
  }

  lemma WholeFrames(base: nat, length: nat, f: nat)
    requires base % PAGE_SIZE == 0 && base <= f * PAGE_SIZE && f * PAGE_SIZE + PAGE_SIZE <= base + length
    ensures InSpan(f, base / PAGE_SIZE, length / PAGE_SIZE)
  {
  }

  /** The room left at the start of the region is enough for the bitmap, which lies there or in
      another region. */
  lemma BitmapIsElsewhere(regions: seq<Region>, f: nat)
    requires Proper(regions) && HeapSpan(regions).Some? && FrameIn(HeapSpan(regions).value, f)
    ensures BitmapHome(regions, BitmapWords(FrameTotal(regions))).Some?
    ensures !HoldsBitmap(BitmapHome(regions, BitmapWords(FrameTotal(regions))).value, BitmapWords(FrameTotal(regions)), f)
  {
    var words, k := BitmapWords(FrameTotal(regions)), FirstLarge(regions);
    HomeExists(regions, words, k);
    var j := HomeIsRegion(regions, words);
    BitmapFrames(regions[j].base, words * 8, f);
  }

  lemma BitmapFrames(base: nat, bytes: nat, f: nat)
    requires base % PAGE_SIZE == 0
    ensures InSpan(f, base / PAGE_SIZE, (bytes + PAGE_SIZE - 1) / PAGE_SIZE)
       <==> base <= f * PAGE_SIZE < base + bytes
  {
  }

  /** On every proper memory map a frame of the heap is in the pool of the frame allocator exactly
      if it is not in the low megabyte. So the two allocators hand out the same memory. */
  lemma HeapFramesAreFree(regions: seq<Region>, f: nat)
    requires Proper(regions) && HeapSpan(regions).Some? && FrameIn(HeapSpan(regions).value, f)
    ensures BitmapHome(regions, BitmapWords(FrameTotal(regions))).Some?
    ensures f in InitialFree(regions, BitmapHome(regions, BitmapWords(FrameTotal(regions))).value)
       <==> f >= LOW_MEMORY / PAGE_SIZE
  {
    var k := FirstLarge(regions);
    HeapFrameCovered(regions, f);
    BitmapIsElsewhere(regions, f);
    FrameExists(regions, k, f);
    assert !InReserved(regions, f) by {
      forall j | 0 <= j < |regions| && !regions[j].usable ensures !Covers(regions[j], f) {
        NotCovered(regions, j, k, f);
      }
    }
  }

  lemma NotCovered(regions: seq<Region>, j: nat, k: nat, f: nat)
    requires Proper(regions) && j < |regions| && k < |regions| && !regions[j].usable && regions[k].usable
    requires regions[k].base <= f * PAGE_SIZE && f * PAGE_SIZE + PAGE_SIZE <= EndOf(regions[k])
    ensures !Covers(regions[j], f)
  {
  }
}
