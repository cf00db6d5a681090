/** The allocator over memory: headers with list links written in place, in front of the payloads. */
module HeapAllocator {
  import opened Basics
  import opened Spec = Heap
  import opened HeapRegion
  import F = FrameAllocator

  datatype Header = Header(size: nat, next: nat, prev: nat)

  type Headers = map<nat, Header>

  function SizesOf(headers: Headers): map<nat, nat> {
    map b | b in headers :: headers[b].size
  }

  /** Element `i`, or null off either end. */
  function At(s: seq<nat>, i: int): nat {
    if 0 <= i < |s| then s[i] else 0
  }

  predicate LinkOk(headers: Headers, free: seq<nat>, i: int)
    requires 0 <= i < |free|
  {
    && free[i] != 0 && free[i] in headers
    && headers[free[i]].next == At(free, i + 1) && headers[free[i]].prev == At(free, i - 1)
  }

  /** Head, tail, count and the links in the headers represent the list. */
  predicate Linked(head: nat, tail: nat, count: nat, headers: Headers, free: seq<nat>) {
    && Distinct(free) && count == |free| && head == At(free, 0) && tail == At(free, |free| - 1)
    && (forall i {:trigger LinkOk(headers, free, i)} | 0 <= i < |free| :: LinkOk(headers, free, i))
  }

  function SetNext(headers: Headers, b: nat, next: nat): (r: Headers)
    requires b in headers
    ensures r.Keys == headers.Keys && SizesOf(r) == SizesOf(headers)
  {
    headers[b := Header(headers[b].size, next, headers[b].prev)]
  }

  function SetPrev(headers: Headers, b: nat, prev: nat): (r: Headers)
    requires b in headers
    ensures r.Keys == headers.Keys && SizesOf(r) == SizesOf(headers)
  {
    headers[b := Header(headers[b].size, headers[b].next, prev)]
  }

  class Allocator {
    var start: nat
    var size: nat
    var offset: nat
    var head: nat
    var tail: nat
    var count: nat
    var headers: Headers
    ghost var free: seq<nat>

    ghost predicate Valid()
      reads this
    {
      Linked(head, tail, count, headers, free)
    }

    ghost function H(): Heap
      reads this
    {
      Heap(start, size, offset, SizesOf(headers), free)
    }

    /** `init_allocator`. Where the source finds no place for the heap and panics, the model leaves
        the heap null. */
    constructor (regions: seq<F.Region>)
      ensures Valid()
      ensures H() == match HeapSpan(regions)
                     case Some(span) => Heap(span.base + DIRECT_MAP, span.length, 0, map[], [])
                     case None => Heap(0, 0, 0, map[], [])
    {
      var span := PlaceHeap(regions);
      start, size, offset := 0, 0, 0;
      if span.Some? { start, size := span.value.base + DIRECT_MAP, span.value.length; }
      head, tail, count, headers, free := 0, 0, 0, map[], [];
    }

    method PushBack(block: nat)
      requires Valid() && block in headers && block !in free && block != 0
      modifies this`head, this`tail, this`count, this`headers, this`free
      ensures Valid() && free == old(free) + [block]
      ensures SizesOf(headers) == old(SizesOf(headers))
    {
      headers := SetNext(headers, block, 0);
      headers := SetPrev(headers, block, tail);
      if tail != 0 {
        assert LinkOk(old(headers), free, |free| - 1);
        headers := SetNext(headers, tail, block);
      } else {
        assert free != [] ==> LinkOk(old(headers), free, |free| - 1);
        head := block;
      }
      tail := block;
      count := count + 1;
      free := free + [block];
      Pushed(old(head), old(tail), old(count), old(headers), headers, old(free), block);
    }

    method PopFront() returns (front: nat)
      requires Valid()
      modifies this`head, this`tail, this`count, this`headers, this`free
      ensures Valid() && front == At(old(free), 0)
      ensures free == if front == 0 then old(free) else old(free)[1..]
      ensures SizesOf(headers) == old(SizesOf(headers))
    {
      assert free != [] ==> LinkOk(headers, free, 0);
      if head == 0 {
        return 0;
      }
      front := head;
      head := headers[front].next;
      assert |free| > 1 ==> LinkOk(headers, free, 1);
      if head != 0 {
        headers := SetPrev(headers, head, 0);
      } else {
        tail := 0;
      }
      count := count - 1;
      free := free[1..];
      forall i | 0 <= i < |free| ensures LinkOk(headers, free, i) {
        assert LinkOk(old(headers), old(free), i + 1);
      }
    }

    method Remove(block: nat, ghost k: nat)
      requires Valid() && k < |free| && block == free[k]
      modifies this`head, this`tail, this`count, this`headers, this`free
      ensures Valid() && free == Without(old(free), k)
      ensures SizesOf(headers) == old(SizesOf(headers))
    {
      assert LinkOk(headers, free, k);
      assert k > 0 ==> LinkOk(headers, free, k - 1);
      assert k + 1 < |free| ==> LinkOk(headers, free, k + 1);
      var prev, next := headers[block].prev, headers[block].next;
      if prev == 0 {
        head := next;
      } else {
        headers := SetNext(headers, prev, next);
      }
      if next == 0 {
        tail := prev;
      } else {
        headers := SetPrev(headers, next, prev);
      }
      count := count - 1;
      free := Without(free, k);
      Relinked(old(head), old(tail), old(count), old(headers), headers, old(free), k);
    }

    /** The listed blocks lie below the break, as they do in every sound heap. */
    ghost predicate BelowBreak()
      reads this
    {
      forall b | b in free :: b < start + offset
    }

    /** First fit over the list, and otherwise a fresh block at the break. */
    method Alloc(n: nat, k: nat) returns (p: nat)
      requires Valid() && BelowBreak()
      modifies this
      ensures Valid() && H() == Spec.Alloc(old(H()), n, k).0 && p == Spec.Alloc(old(H()), n, k).1
    {
      var current := head;
      ghost var i := 0;
      while current != 0
        invariant i <= |free| && current == At(free, i)
        invariant FitFrom(free, SizesOf(headers), n, i) == FitFrom(free, SizesOf(headers), n, 0)
        decreases |free| - i
      {
        assert LinkOk(headers, free, i);
        if headers[current].size >= n {
          Remove(current, i);
          return current + HEADER;
        }
        current := headers[current].next;
        i := i + 1;
      }
      assert i < |free| ==> LinkOk(headers, free, i);
      p := AllocFresh(n, k);
    }

    method AllocFresh(n: nat, k: nat) returns (p: nat)
      requires Valid() && BelowBreak() && FitFrom(free, SizesOf(headers), n, 0) == |free|
      modifies this`offset, this`headers
      ensures Valid() && H() == Spec.Alloc(old(H()), n, k).0 && p == Spec.Alloc(old(H()), n, k).1
    {
      if start == 0 {
        return 0;
      }
      var at := AlignUp(offset, BlockAlign(k));
      if at + HEADER + n > size {
        return 0;
      }
      var block := start + at;
      headers := headers[block := Header(n, 0, 0)];
      offset := at + HEADER + n;
      p := block + HEADER;
      assert SizesOf(headers) == old(SizesOf(headers))[block := n];
      forall i | 0 <= i < |free| ensures LinkOk(headers, free, i) {
        assert LinkOk(old(headers), free, i) && free[i] in free;
      }
    }

    method Dealloc(p: nat)
      requires Valid() && (p == 0 || (p > HEADER && p - HEADER in headers && p - HEADER !in free))
      modifies this
      ensures Valid() && H() == Spec.Dealloc(old(H()), p)
    {
      if p == 0 {
        return;
      }
      PushBack(p - HEADER);
    }

    method Sbrk(increment: int) returns (p: nat)
      requires Valid()
      modifies this`offset
      ensures Valid() && H() == Spec.Sbrk(old(H()), increment).0 && p == Spec.Sbrk(old(H()), increment).1
    {
      if start == 0 {
        return 0;
      }
      var newOffset := offset + increment;
      if newOffset < 0 || newOffset > size {
        return 0;
      }
      p := start + offset;
      offset := newOffset;
    }
  }

  /** `after` is `before` with `block` hung behind the last element. */
  predicate Hung(before: Headers, after: Headers, free: seq<nat>, block: nat) {
    && before.Keys == after.Keys && block in after && after[block].next == 0 && after[block].prev == At(free, |free| - 1)
    && (forall i {:trigger free[i]} | 0 <= i < |free| && free[i] in before ::
          && after[free[i]].next == (if i == |free| - 1 then block else before[free[i]].next)
          && after[free[i]].prev == before[free[i]].prev)
  }

  lemma PushedAt(before: Headers, after: Headers, free: seq<nat>, block: nat, i: nat)
    requires i <= |free| && block != 0 && Hung(before, after, free, block)
    requires forall j {:trigger LinkOk(before, free, j)} | 0 <= j < |free| :: LinkOk(before, free, j)
    ensures LinkOk(after, free + [block], i)
  {
    assert i < |free| ==> LinkOk(before, free, i);
  }

  lemma Pushed(head: nat, tail: nat, count: nat, before: Headers, after: Headers, free: seq<nat>, block: nat)
    requires Linked(head, tail, count, before, free) && block != 0 && block !in free && Hung(before, after, free, block)
    ensures Linked(if tail == 0 then block else head, block, count + 1, after, free + [block])
  {
    assert free != [] ==> LinkOk(before, free, |free| - 1);
    forall i | 0 <= i <= |free| ensures LinkOk(after, free + [block], i) {
      PushedAt(before, after, free, block, i);
    }
  }

  /** `after` is `before` with the neighbours of element `k` joined. */
  predicate Joined(before: Headers, after: Headers, free: seq<nat>, k: nat) {
    && before.Keys == after.Keys
    && (forall i {:trigger free[i]} | 0 <= i < |free| && free[i] in before && i != k ::
          && after[free[i]].next == (if i == k - 1 then At(free, k + 1) else before[free[i]].next)
          && after[free[i]].prev == (if i == k + 1 then At(free, k - 1) else before[free[i]].prev))
  }

  lemma RelinkedAt(before: Headers, after: Headers, free: seq<nat>, k: nat, i: nat)
    requires k < |free| && i < |free| - 1 && Joined(before, after, free, k)
    requires forall j {:trigger LinkOk(before, free, j)} | 0 <= j < |free| :: LinkOk(before, free, j)
    ensures LinkOk(after, Without(free, k), i)
  {
    var j := if i < k then i else i + 1;
    assert LinkOk(before, free, j);
    var r := Without(free, k);
    assert r[i] == free[j];
    assert At(r, i + 1) == (if i + 1 < k then At(free, i + 1) else At(free, i + 2));
    assert At(r, i - 1) == (if i - 1 < k then At(free, i - 1) else At(free, i));
  }

  lemma Relinked(head: nat, tail: nat, count: nat, before: Headers, after: Headers, free: seq<nat>, k: nat)
    requires Linked(head, tail, count, before, free) && k < |free| && Joined(before, after, free, k)
    ensures Linked(if k == 0 then At(free, 1) else head, if k + 1 == |free| then At(free, k - 1) else tail,
                   count - 1, after, Without(free, k))
  {
    WithoutKeeps(free, k);
    forall i | 0 <= i < |free| - 1 ensures LinkOk(after, Without(free, k), i) {
      RelinkedAt(before, after, free, k, i);
    }
  }
}
