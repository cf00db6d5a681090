/** The physical frame allocator: one bit per 4 KiB frame, set while the frame is free. */
module FrameAllocator {
  import opened Basics
  import opened Bits

  const PAGE_SIZE: nat := 4096
  const LOW_MEMORY: nat := 0x100000

  /** One entry of the boot loader's memory map. */
  datatype Region = Region(base: nat, length: nat, usable: bool)

  /** The frames below `total` whose bit is set. */
  function FreeFrames(words: seq<nat>, total: nat): set<nat>
    requires total <= 64 * |words|
  {
    set f | 0 <= f < total && Bit(words[f / 64], f % 64)
  }

  ghost predicate IsLeast(f: nat, s: set<nat>) {
    f in s && forall g | g in s :: f <= g
  }

  lemma {:induction false} LeastExists(s: set<nat>)
    requires s != {}
    ensures exists f :: IsLeast(f, s)
  {
    var f :| f in s;
    if !IsLeast(f, s) {
      var below := set g | g in s && g < f;
      var g :| g in s && g < f;
      assert g in below && f !in below && below < s;
      LeastExists(below);
      var l :| IsLeast(l, below);
      forall h | h in s ensures l <= h {
        if h < f { assert h in below; }
      }
      assert IsLeast(l, s);
    }
  }

  /** The smallest member of a non-empty set of frame numbers. */
  ghost function Least(s: set<nat>): (f: nat)
    requires s != {}
    ensures f in s && forall g | g in s :: f <= g
  {
    LeastExists(s);
    var f :| IsLeast(f, s);
    f
  }

  // ---------------------------------------------------------------------------
  // Single words

  /** `u64::trailing_zeros` of a non-zero word. */
  function TrailingZeros(w: nat): nat
    requires w != 0
  {
    if w % 2 == 1 then 0 else 1 + TrailingZeros(w / 2)
  }

  lemma {:induction false} TrailingZerosIsLowestBit(w: nat, width: nat)
    requires 0 < w < Pow2(width)
    ensures TrailingZeros(w) < width
    ensures Bit(w, TrailingZeros(w))
    ensures forall b | 0 <= b < TrailingZeros(w) :: !Bit(w, b)
  {
    if w % 2 == 0 {
      TrailingZerosIsLowestBit(w / 2, width - 1);
      forall b | 0 <= b < TrailingZeros(w) ensures !Bit(w, b) {
        if b > 0 { assert Bit(w, b) == Bit(w / 2, b - 1); }
      }
    }
  }

  function SetBit(w: nat, b: nat): nat {
    Or(w, Pow2(b))
  }

  function ClearBit(w: nat, b: nat): nat
    requires b < 64
  {
    Pow2Strict(b, 64);
    And(w, Not(64, Pow2(b)))
  }

  lemma {:induction false} Pow2Strict(j: nat, k: nat)
    requires j < k
    ensures Pow2(j) < Pow2(k)
  {
    if j + 1 < k { Pow2Strict(j, k - 1); }
  }

  /** Setting and clearing a bit of a 64-bit word touch that bit only. */
  lemma SetClearBit(w: nat, b: nat, c: nat)
    requires w < Pow2(64) && b < 64 && c < 64
    ensures SetBit(w, b) < Pow2(64) && ClearBit(w, b) < Pow2(64)
    ensures Bit(SetBit(w, b), c) <==> Bit(w, c) || c == b
    ensures Bit(ClearBit(w, b), c) <==> Bit(w, c) && c != b
  {
    Pow2Strict(b, 64);
    OrBound(w, Pow2(b), 64);
    AndBound(w, Not(64, Pow2(b)));
    BitOfOr(w, Pow2(b), c);
    BitOfAnd(w, Not(64, Pow2(b)), c);
    BitOfNot(64, Pow2(b), c);
    BitOfPow2(b, c);
  }

  // ---------------------------------------------------------------------------
  // The whole bitmap

  predicate IsBitmap(words: seq<nat>) {
    forall i | 0 <= i < |words| :: words[i] < Pow2(64)
  }

  lemma MarkFreeAdds(words: seq<nat>, total: nat, frame: nat)
    requires IsBitmap(words) && frame < total <= 64 * |words|
    ensures var words' := words[frame / 64 := SetBit(words[frame / 64], frame % 64)];
            IsBitmap(words') && FreeFrames(words', total) == FreeFrames(words, total) + {frame}
  {
    var words' := words[frame / 64 := SetBit(words[frame / 64], frame % 64)];
    SetClearBit(words[frame / 64], frame % 64, 0);
    forall f | 0 <= f < total
      ensures Bit(words'[f / 64], f % 64) <==> Bit(words[f / 64], f % 64) || f == frame
    {
      SetClearBit(words[frame / 64], frame % 64, f % 64);
    }
  }

  lemma MarkUsedRemoves(words: seq<nat>, total: nat, frame: nat)
    requires IsBitmap(words) && frame < total <= 64 * |words|
    ensures var words' := words[frame / 64 := ClearBit(words[frame / 64], frame % 64)];
            IsBitmap(words') && FreeFrames(words', total) == FreeFrames(words, total) - {frame}
  {
    var words' := words[frame / 64 := ClearBit(words[frame / 64], frame % 64)];
    SetClearBit(words[frame / 64], frame % 64, 0);
    forall f | 0 <= f < total
      ensures Bit(words'[f / 64], f % 64) <==> Bit(words[f / 64], f % 64) && f != frame
    {
      SetClearBit(words[frame / 64], frame % 64, f % 64);
    }
  }

  /** No frame of word `i` is free if the word is zero, or if its lowest bit lies past the end. */
  lemma WordExhausted(words: seq<nat>, total: nat, i: nat)
    requires IsBitmap(words) && total <= 64 * |words| && i < |words|
    requires words[i] == 0 || 64 * i + TrailingZeros(words[i]) >= total
    ensures forall f | f in FreeFrames(words, total) :: f / 64 != i
  {
    forall f | f in FreeFrames(words, total) ensures f / 64 != i {
      if f / 64 == i {
        if words[i] == 0 { BitOfZero(f % 64); } else { TrailingZerosIsLowestBit(words[i], 64); }
      }
    }
  }

  /** When the words before `i` hold no free frame, the lowest bit of word `i` is the least free frame. */
  lemma LowestBitIsLeast(words: seq<nat>, total: nat, i: nat)
    requires IsBitmap(words) && total <= 64 * |words| && i < |words| && words[i] != 0
    requires 64 * i + TrailingZeros(words[i]) < total
    requires forall f | f in FreeFrames(words, total) :: f / 64 >= i
    ensures IsLeast(64 * i + TrailingZeros(words[i]), FreeFrames(words, total))
  {
    TrailingZerosIsLowestBit(words[i], 64);
    var b := TrailingZeros(words[i]);
    var frame := 64 * i + b;
    assert frame / 64 == i && frame % 64 == b;
    forall f | f in FreeFrames(words, total) ensures frame <= f {
      if f / 64 == i { assert Bit(words[i], f % 64); }
    }
  }

  // ---------------------------------------------------------------------------
  // Start-up: which frames are free after the memory map has been read

  function EndOf(r: Region): nat { r.base + r.length }

  function MaxAddress(regions: seq<Region>): nat {
    if regions == [] then 0
    else
      var rest := MaxAddress(regions[..|regions| - 1]);
      var last := EndOf(regions[|regions| - 1]);
      if last > rest then last else rest
  }

  function FrameTotal(regions: seq<Region>): nat { (MaxAddress(regions) + PAGE_SIZE - 1) / PAGE_SIZE }

  function BitmapWords(total: nat): nat { (total + 63) / 64 }

  /** The usable region that receives the bitmap is the first one large enough. */
  function BitmapHome(regions: seq<Region>, words: nat): Option<nat> {
    if regions == [] then None
    else if regions[0].usable && regions[0].length >= words * 8 then Some(regions[0].base)
    else BitmapHome(regions[1..], words)
  }

  predicate InSpan(f: nat, start: nat, count: nat) { start <= f < start + count }

  /** The frames of a span that exist. */
  function SpanFrames(total: nat, start: nat, count: nat): set<nat> {
    set f | 0 <= f < total && InSpan(f, start, count)
  }

  lemma SpanGrows(total: nat, start: nat, count: nat)
    ensures SpanFrames(total, start, count + 1) ==
            if start + count < total then SpanFrames(total, start, count) + {start + count} else SpanFrames(total, start, count)
  {
  }

  /** The span of frames handled for one region: whole frames when usable, rounded up otherwise. */
  predicate Covers(r: Region, f: nat) {
    InSpan(f, r.base / PAGE_SIZE,
           if r.usable then r.length / PAGE_SIZE else (r.length + PAGE_SIZE - 1) / PAGE_SIZE)
  }

  predicate InUsable(regions: seq<Region>, f: nat) {
    exists k :: 0 <= k < |regions| && regions[k].usable && Covers(regions[k], f)
  }

  predicate InReserved(regions: seq<Region>, f: nat) {
    exists k :: 0 <= k < |regions| && !regions[k].usable && Covers(regions[k], f)
  }

  predicate HoldsBitmap(home: nat, words: nat, f: nat) {
    InSpan(f, home / PAGE_SIZE, (words * 8 + PAGE_SIZE - 1) / PAGE_SIZE)
  }

  /** The frames the allocator may hand out. */
  function InitialFree(regions: seq<Region>, home: nat): set<nat> {
    var total := FrameTotal(regions);
    set f | 0 <= f < total && InUsable(regions, f) && !InReserved(regions, f)
         && f >= LOW_MEMORY / PAGE_SIZE && !HoldsBitmap(home, BitmapWords(total), f)
  }

  /** Rounding the length alone covers every byte of a reserved region exactly when the
      part of the first frame before the region does not push its end into one more frame. */
  lemma ReservedBytesCovered(r: Region)
    requires !r.usable && r.length > 0
    ensures (forall a | r.base <= a < r.base + r.length :: Covers(r, a / PAGE_SIZE))
       <==> r.base % PAGE_SIZE + r.length <= (r.length + PAGE_SIZE - 1) / PAGE_SIZE * PAGE_SIZE
  {
    var last := r.base + r.length - 1;
    var n := (r.length + PAGE_SIZE - 1) / PAGE_SIZE;
    if forall a | r.base <= a < r.base + r.length :: Covers(r, a / PAGE_SIZE) {
      assert Covers(r, last / PAGE_SIZE);
      assert last / PAGE_SIZE < r.base / PAGE_SIZE + n;
    }
  }

  /** Two bytes across a page boundary: the second one is not covered. */
  lemma EndUncovered()
    ensures var r := Region(4095, 2, false); !Covers(r, 4096 / PAGE_SIZE)
  {
  }

  class Allocator {
    var bitmap: array<nat>
    var total: nat

    ghost predicate Valid()
      reads this, bitmap
    {
      total <= 64 * bitmap.Length && IsBitmap(bitmap[..])
    }

    ghost function Free(): set<nat>
      requires Valid()
      reads this, bitmap
    {
      FreeFrames(bitmap[..], total)
    }

    /** `FrameAllocator::init`. Where the source finds no place for the bitmap and panics, the
        model leaves the pool empty. */
    constructor (regions: seq<Region>)
      ensures Valid() && fresh(bitmap) && total == FrameTotal(regions)
      ensures var home := BitmapHome(regions, BitmapWords(total));
              Free() == if home.Some? then InitialFree(regions, home.value) else {}
    {
      var maxAddress := 0;
      for k := 0 to |regions|
        invariant maxAddress == MaxAddress(regions[..k])
      {
        assert regions[..k + 1][..k] == regions[..k];
        if EndOf(regions[k]) > maxAddress { maxAddress := EndOf(regions[k]); }
      }
      assert regions[..|regions|] == regions;
      total := (maxAddress + PAGE_SIZE - 1) / PAGE_SIZE;
      bitmap := new nat[BitmapWords((maxAddress + PAGE_SIZE - 1) / PAGE_SIZE)](_ => 0);
      new;
      assert Free() == {} by {
        forall f | 0 <= f < total ensures !Bit(bitmap[f / 64], f % 64) { BitOfZero(f % 64); }
      }
      MarkInitial(regions);
    }

    method MarkInitial(regions: seq<Region>)
      requires Valid() && Free() == {} && total == FrameTotal(regions)
      modifies bitmap
      ensures Valid()
      ensures var home := BitmapHome(regions, BitmapWords(total));
              Free() == if home.Some? then InitialFree(regions, home.value) else {}
    {
      var home := BitmapHome(regions, BitmapWords(total));
      if home.Some? {
        MarkRegionsFree(regions);
        MarkRegionsUsed(regions);
        MarkSpanUsed(0, LOW_MEMORY / PAGE_SIZE);
        MarkSpanUsed(home.value / PAGE_SIZE, (BitmapWords(total) * 8 + PAGE_SIZE - 1) / PAGE_SIZE);
      }
    }

    method MarkRegionsFree(regions: seq<Region>)
      requires Valid() && Free() == {}
      modifies bitmap
      ensures Valid() && Free() == set f | 0 <= f < total && InUsable(regions, f)
    {
      for k := 0 to |regions|
        invariant Valid()
        invariant Free() == set f | 0 <= f < total && InUsable(regions[..k], f)
      {
        ExtendUsable(regions, k);
        if regions[k].usable {
          MarkSpanFree(regions[k].base / PAGE_SIZE, regions[k].length / PAGE_SIZE);
        }
      }
      assert regions[..|regions|] == regions;
    }

    method MarkRegionsUsed(regions: seq<Region>)
      requires Valid()
      modifies bitmap
      ensures Valid() && Free() == set f | f in old(Free()) && !InReserved(regions, f)
    {
      for k := 0 to |regions|
        invariant Valid()
        invariant Free() == set f | f in old(Free()) && !InReserved(regions[..k], f)
      {
        ExtendUsable(regions, k);
        if !regions[k].usable {
          MarkSpanUsed(regions[k].base / PAGE_SIZE, (regions[k].length + PAGE_SIZE - 1) / PAGE_SIZE);
        }
      }
      assert regions[..|regions|] == regions;
    }

    method MarkSpanFree(start: nat, count: nat)
      requires Valid()
      modifies bitmap
      ensures Valid() && Free() == old(Free()) + SpanFrames(total, start, count)
    {
      for i := 0 to count
        invariant Valid()
        invariant Free() == old(Free()) + SpanFrames(total, start, i)
      {
        MarkFree(start + i);
        SpanGrows(total, start, i);
      }
    }

    method MarkSpanUsed(start: nat, count: nat)
      requires Valid()
      modifies bitmap
      ensures Valid() && Free() == set f | f in old(Free()) && !InSpan(f, start, count)
    {
      for i := 0 to count
        invariant Valid()
        invariant Free() == set f | f in old(Free()) && !InSpan(f, start, i)
      {
        MarkUsed(start + i);
      }
    }

    method MarkFree(frame: nat)
      requires Valid()
      modifies bitmap
      ensures Valid()
      ensures Free() == if frame < total then old(Free()) + {frame} else old(Free())
    {
      if frame >= total { return; }
      MarkFreeAdds(bitmap[..], total, frame);
      ghost var words := bitmap[..];
      bitmap[frame / 64] := SetBit(bitmap[frame / 64], frame % 64);
      assert bitmap[..] == words[frame / 64 := SetBit(words[frame / 64], frame % 64)];
    }

    method MarkUsed(frame: nat)
      requires Valid()
      modifies bitmap
      ensures Valid() && Free() == old(Free()) - {frame}
    {
      if frame >= total { return; }
      MarkUsedRemoves(bitmap[..], total, frame);
      ghost var words := bitmap[..];
      bitmap[frame / 64] := ClearBit(bitmap[frame / 64], frame % 64);
      assert bitmap[..] == words[frame / 64 := ClearBit(words[frame / 64], frame % 64)];
    }

    /** Takes the least free frame; fails exactly when no frame is free. */
    method Alloc() returns (r: Option<nat>)
      requires Valid()
      modifies bitmap
      ensures Valid()
      ensures r.None? <==> old(Free()) == {}
      ensures r.None? ==> Free() == old(Free())
      ensures r.Some? ==> r.value == Least(old(Free())) && Free() == old(Free()) - {r.value}
    {
      for i := 0 to bitmap.Length
        invariant Valid() && Free() == old(Free())
        invariant forall f | f in Free() :: f / 64 >= i
      {
        if bitmap[i] != 0 {
          var frame := i * 64 + TrailingZeros(bitmap[i]);
          if frame < total {
            LowestBitIsLeast(bitmap[..], total, i);
            MarkUsed(frame);
            return Some(frame);
          }
        }
        WordExhausted(bitmap[..], total, i);
      }
      return None;
    }

    /** Returns the frame that holds `address`. */
    method FreeFrame(address: nat)
      requires Valid()
      modifies bitmap
      ensures Valid()
      ensures var frame := address / PAGE_SIZE;
              Free() == if frame < total then old(Free()) + {frame} else old(Free())
    {
      MarkFree(address / PAGE_SIZE);
    }
  }

  lemma ExtendUsable(regions: seq<Region>, k: nat)
    requires k < |regions|
    ensures forall f :: InUsable(regions[..k + 1], f)
                   <==> InUsable(regions[..k], f) || (regions[k].usable && Covers(regions[k], f))
    ensures forall f :: InReserved(regions[..k + 1], f)
                   <==> InReserved(regions[..k], f) || (!regions[k].usable && Covers(regions[k], f))
  {
    var before, after := regions[..k], regions[..k + 1];
    forall f
      ensures InUsable(after, f) <==> InUsable(before, f) || (regions[k].usable && Covers(regions[k], f))
      ensures InReserved(after, f) <==> InReserved(before, f) || (!regions[k].usable && Covers(regions[k], f))
    {
      if j :| 0 <= j < k && Covers(regions[j], f) { assert before[j] == after[j] == regions[j]; }
      assert after[k] == regions[k];
      forall j | 0 <= j < k ensures before[j] == after[j] {}
    }
  }

  // ---------------------------------------------------------------------------
  // Every run of allocations and releases

  datatype Pool = Pool(free: set<nat>, outstanding: set<nat>)

  datatype Request = Take | Release(frame: nat)

  /** One call: `Take` hands out the least free frame; a `Release` is of an outstanding frame. */
  ghost predicate Serve(p: Pool, request: Request, p': Pool) {
    match request
    case Take =>
      if p.free == {} then p' == p
      else p' == Pool(p.free - {Least(p.free)}, p.outstanding + {Least(p.free)})
    case Release(f) => f in p.outstanding && p' == Pool(p.free + {f}, p.outstanding - {f})
  }

  ghost predicate IsRun(pools: seq<Pool>, requests: seq<Request>) {
    && |pools| == |requests| + 1
    && forall i | 0 <= i < |requests| :: Serve(pools[i], requests[i], pools[i + 1])
  }

  /** From start-up on, free and outstanding frames always split the frames free at start-up:
      a frame handed out is never handed out again before its release, and no reserved frame,
      low-memory frame or bitmap frame is ever handed out. */
  lemma {:induction false} FramesAreConserved(regions: seq<Region>, home: nat,
                                              pools: seq<Pool>, requests: seq<Request>, n: nat)
    requires IsRun(pools, requests) && n < |pools|
    requires pools[0] == Pool(InitialFree(regions, home), {})
    ensures pools[n].free !! pools[n].outstanding
    ensures pools[n].free + pools[n].outstanding == InitialFree(regions, home)
    ensures forall f | f in pools[n].outstanding :: InUsable(regions, f) && !InReserved(regions, f) && f >= 256
    ensures n < |requests| && requests[n].Take? && pools[n].free != {} ==>
              Least(pools[n].free) !in pools[n].outstanding
  {
    if n > 0 {
      FramesAreConserved(regions, home, pools, requests, n - 1);
      assert Serve(pools[n - 1], requests[n - 1], pools[n]);
    }
  }
}
