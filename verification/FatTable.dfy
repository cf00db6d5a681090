/** The cached file allocation table: packed 12-bit entries, cluster allocation, chains. */
module FatTable {
  import opened Basics
  import opened Bits

  const EOF: nat := 0xFF8
  const BAD_CLUSTER: nat := 0xFF7
  const SCAN_END: nat := 0xFF0

  // ---------------------------------------------------------------------------
  // Packed entries: two neighbours share a byte

  /** How many whole 12-bit entries fit into `bytes` bytes. */
  function EntryCount(bytes: nat): nat { 2 * bytes / 3 }

  /** The entry of an even and of an odd cluster in its two bytes, little-endian. */
  function EvenEntry(b0: nat, b1: nat): nat { (b0 + 256 * b1) % 4096 }
  function OddEntry(b0: nat, b1: nat): nat { (b0 + 256 * b1) / 16 }

  function Get(cache: seq<Byte>, c: nat): (v: nat)
    requires c < EntryCount(|cache|)
    ensures v < 4096
  {
    var off := c * 3 / 2;
    if c % 2 == 0 then EvenEntry(cache[off], cache[off + 1]) else OddEntry(cache[off], cache[off + 1])
  }

  /** Each entry keeps the other half of the byte it shares. */
  function EvenLow(value: nat): Byte { value % 256 }
  function EvenHigh(b1: Byte, value: nat): Byte { b1 / 16 * 16 + value / 256 % 16 }
  function OddLow(b0: Byte, value: nat): Byte { b0 % 16 + value % 16 * 16 }
  function OddHigh(value: nat): Byte { value / 16 % 256 }

  function Set(cache: seq<Byte>, c: nat, value: nat): (cache': seq<Byte>)
    requires c < EntryCount(|cache|)
    ensures |cache'| == |cache|
  {
    var off := c * 3 / 2;
    if c % 2 == 0 then cache[off := EvenLow(value)][off + 1 := EvenHigh(cache[off + 1], value)]
    else cache[off := OddLow(cache[off], value)][off + 1 := OddHigh(value)]
  }

  /** Two bytes as a little-endian word. */
  function Pair(b0: nat, b1: nat): nat { b0 + 256 * b1 }

  /** The same accesses in shifts and masks of 16-bit words. */
  function GetMasked(cache: seq<Byte>, c: nat): nat
    requires c < EntryCount(|cache|)
  {
    var off := c * 3 / 2;
    var word := Pair(cache[off], cache[off + 1]);
    if And(c, 1) == 0 then And(word, 0x0FFF) else Shr(word, 4)
  }

  function SetMasked(cache: seq<Byte>, c: nat, value: nat): seq<nat>
    requires c < EntryCount(|cache|)
  {
    var off := c * 3 / 2;
    var bytes: seq<nat> := cache;
    if And(c, 1) == 0
    then bytes[off := And(value, 0xFF)][off + 1 := Or(And(bytes[off + 1], 0xF0), And(Shr(value, 8), 0x0F))]
    else bytes[off := Or(And(bytes[off], 0x0F), And(value, 0x0F) * 16)][off + 1 := And(Shr(value, 4), 0xFF)]
  }

  lemma NibbleWidths()
    ensures Pow2(1) == 2 && Pow2(4) == 16 && Pow2(8) == 256 && Pow2(12) == 4096
  {
    Pow2Add(4, 4);
    Pow2Add(8, 4);
  }

  lemma OrNibbles(x: nat, y: nat)
    ensures Or(x, y) / 16 == Or(x / 16, y / 16) && Or(x, y) % 16 == Or(x % 16, y % 16)
  {
    NibbleWidths();
    OrFields(x, y, 4);
    ShrIsDivision(x, 4);
    ShrIsDivision(y, 4);
    ShrIsDivision(Or(x, y), 4);
  }

  lemma AndNibbles(x: nat, y: nat)
    ensures And(x, y) / 16 == And(x / 16, y / 16) && And(x, y) % 16 == And(x % 16, y % 16)
  {
    NibbleWidths();
    AndFields(x, y, 4);
    ShrIsDivision(x, 4);
    ShrIsDivision(y, 4);
    ShrIsDivision(And(x, y), 4);
  }

  lemma FromNibbles(r: nat, hi: nat, lo: nat)
    requires r / 16 == hi && r % 16 == lo
    ensures r == hi * 16 + lo
  {
  }

  lemma OrAddsNibble(x: nat, hi: nat, lo: nat)
    requires x / 16 == hi && x % 16 == 0 && lo / 16 == 0 && lo % 16 == lo
    ensures Or(x, lo) == hi * 16 + lo && Or(lo, x) == hi * 16 + lo
  {
    OrNibbles(x, lo);
    OrNibbles(lo, x);
    OrZero(hi);
    OrZero(lo);
    FromNibbles(Or(x, lo), hi, lo);
    FromNibbles(Or(lo, x), hi, lo);
  }

  lemma HighNibble(b: Byte, mask: nat, p: nat)
    requires mask / 16 == p - 1 && mask % 16 == 0 && p == Pow2(4) && b / 16 < p
    ensures And(b, mask) == b / 16 * 16
  {
    AndNibbles(b, mask);
    AllOnes(b / 16, 4, p);
    FromNibbles(And(b, mask), b / 16, And(b % 16, 0));
  }

  lemma AllOnes(h: nat, k: nat, p: nat)
    requires Pow2(k) == p && h < p
    ensures And(h, p - 1) == h
  {
    AndLowMask(h, k);
    DivModUnique(h, p, 0, h);
  }

  lemma EntryBits(b0: nat, b1: nat)
    ensures And(Pair(b0, b1), 0x0FFF) == EvenEntry(b0, b1) && Shr(Pair(b0, b1), 4) == OddEntry(b0, b1)
  {
    NibbleWidths();
    AndLowMask(Pair(b0, b1), 12);
    ShrIsDivision(Pair(b0, b1), 4);
  }

  lemma EvenBits(b1: Byte, value: nat)
    ensures And(value, 0xFF) == EvenLow(value)
    ensures Or(And(b1, 0xF0), And(Shr(value, 8), 0x0F)) == EvenHigh(b1, value)
  {
    NibbleWidths();
    AndLowMask(value, 8);
    HighNibble(b1, 0xF0, 16);
    ShrIsDivision(value, 8);
    AndLowMask(value / 256, 4);
    OrAddsNibble(b1 / 16 * 16, b1 / 16, value / 256 % 16);
  }

  lemma OddBits(b0: Byte, value: nat)
    ensures Or(And(b0, 0x0F), And(value, 0x0F) * 16) == OddLow(b0, value)
    ensures And(Shr(value, 4), 0xFF) == OddHigh(value)
  {
    NibbleWidths();
    AndLowMask(b0, 4);
    AndLowMask(value, 4);
    OrAddsNibble(value % 16 * 16, value % 16, b0 % 16);
    ShrIsDivision(value, 4);
    AndLowMask(value / 16, 8);
  }

  lemma ParityBit(c: nat)
    ensures And(c, 1) == c % 2
  {
    NibbleWidths();
    AndLowMask(c, 1);
  }

  lemma GetAgrees(cache: seq<Byte>, c: nat)
    requires c < EntryCount(|cache|)
    ensures GetMasked(cache, c) == Get(cache, c)
  {
    ParityBit(c);
    EntryBits(cache[c * 3 / 2], cache[c * 3 / 2 + 1]);
  }

  lemma SetAgrees(cache: seq<Byte>, c: nat, value: nat)
    requires c < EntryCount(|cache|)
    ensures SetMasked(cache, c, value) == Set(cache, c, value)
  {
    ParityBit(c);
    if c % 2 == 0 {
      EvenBits(cache[c * 3 / 2 + 1], value);
    } else {
      OddBits(cache[c * 3 / 2], value);
    }
  }

  /** Shifts and masks read and write exactly the packed entries. */
  lemma MasksAgree(cache: seq<Byte>, c: nat, value: nat)
    requires c < EntryCount(|cache|)
    ensures GetMasked(cache, c) == Get(cache, c)
    ensures SetMasked(cache, c, value) == Set(cache, c, value)
  {
    GetAgrees(cache, c);
    SetAgrees(cache, c, value);
  }

  lemma EvenOwn(b1: Byte, value: nat)
    ensures EvenEntry(EvenLow(value), EvenHigh(b1, value)) == value % 4096
  {
    var lo, hi, rest := value % 256, value / 256 % 16, value / 4096;
    assert value == rest * 4096 + hi * 256 + lo;
    assert EvenLow(value) + 256 * EvenHigh(b1, value) == b1 / 16 * 4096 + hi * 256 + lo;
  }

  lemma OddOwn(b0: Byte, value: nat)
    ensures OddEntry(OddLow(b0, value), OddHigh(value)) == value % 4096
  {
    OddSplit(OddLow(b0, value), OddHigh(value));
    assert OddLow(b0, value) / 16 == value % 16;
    assert value % 4096 == value % 16 + 16 * (value / 16 % 256);
  }

  lemma SharedByteKept(b: Byte, value: nat, other: Byte)
    ensures OddEntry(EvenHigh(b, value), other) == OddEntry(b, other)
    ensures EvenEntry(other, OddLow(b, value)) == EvenEntry(other, b)
  {
    assert EvenHigh(b, value) / 16 == b / 16;
    assert OddLow(b, value) % 16 == b % 16;
    OddSplit(b, other);
    OddSplit(EvenHigh(b, value), other);
    EvenSplit(other, b);
    EvenSplit(other, OddLow(b, value));
  }

  lemma OddSplit(b0: Byte, b1: Byte)
    ensures OddEntry(b0, b1) == b0 / 16 + 16 * b1
  {
  }

  lemma EvenSplit(b0: Byte, b1: Byte)
    ensures EvenEntry(b0, b1) == b0 + 256 * (b1 % 16)
  {
    assert b0 + 256 * b1 == b1 / 16 * 4096 + (b0 + 256 * (b1 % 16));
  }

  /** The table as a list of entries. */
  function Entries(cache: seq<Byte>): (fat: seq<nat>)
    ensures |fat| == EntryCount(|cache|)
    ensures forall c | 0 <= c < |fat| :: fat[c] == Get(cache, c) && fat[c] < 4096
  {
    seq(EntryCount(|cache|), c requires 0 <= c < EntryCount(|cache|) => Get(cache, c))
  }

  lemma SetOwn(cache: seq<Byte>, c: nat, value: nat)
    requires c < EntryCount(|cache|)
    ensures Get(Set(cache, c, value), c) == value % 4096
  {
    var off := c * 3 / 2;
    if c % 2 == 0 { EvenOwn(cache[off + 1], value); } else { OddOwn(cache[off], value); }
  }

  /** The bytes of two entries: shared by neighbours in one triple, apart otherwise. */
  lemma Offsets(c: nat, d: nat)
    ensures c % 2 == 0 && d == c + 1 ==> d * 3 / 2 == c * 3 / 2 + 1
    ensures c < d && !(c % 2 == 0 && d == c + 1) ==> c * 3 / 2 + 1 < d * 3 / 2
  {
  }

  /** Storing an entry leaves every byte but its own two alone. */
  lemma OtherBytesKept(cache: seq<Byte>, c: nat, value: nat, x: nat)
    requires c < EntryCount(|cache|) && x < |cache| && x != c * 3 / 2 && x != c * 3 / 2 + 1
    ensures Set(cache, c, value)[x] == cache[x]
  {
  }

  lemma SetOddNeighbour(cache: seq<Byte>, c: nat, value: nat)
    requires c % 2 == 0 && c + 1 < EntryCount(|cache|)
    ensures Get(Set(cache, c, value), c + 1) == Get(cache, c + 1)
  {
    var p, after := (c + 1) * 3 / 2, Set(cache, c, value);
    assert p == c * 3 / 2 + 1 by { Offsets(c, c + 1); }
    assert after[p + 1] == cache[p + 1] by { OtherBytesKept(cache, c, value, p + 1); }
    calc {
      Get(after, c + 1);
      OddEntry(after[p], after[p + 1]);
      OddEntry(EvenHigh(cache[p], value), cache[p + 1]);
      { SharedByteKept(cache[p], value, cache[p + 1]); }
      OddEntry(cache[p], cache[p + 1]);
      Get(cache, c + 1);
    }
  }

  lemma SetEvenNeighbour(cache: seq<Byte>, c: nat, value: nat)
    requires c % 2 == 0 && c + 1 < EntryCount(|cache|)
    ensures Get(Set(cache, c + 1, value), c) == Get(cache, c)
  {
    var p, after := c * 3 / 2, Set(cache, c + 1, value);
    assert (c + 1) * 3 / 2 == p + 1 by { Offsets(c, c + 1); }
    assert after[p] == cache[p] by { OtherBytesKept(cache, c + 1, value, p); }
    calc {
      Get(after, c);
      EvenEntry(after[p], after[p + 1]);
      EvenEntry(cache[p], OddLow(cache[p + 1], value));
      { SharedByteKept(cache[p + 1], value, cache[p]); }
      EvenEntry(cache[p], cache[p + 1]);
      Get(cache, c);
    }
  }

  lemma SetOther(cache: seq<Byte>, c: nat, value: nat, d: nat)
    requires c < EntryCount(|cache|) && d < EntryCount(|cache|) && c != d
    ensures Get(Set(cache, c, value), d) == Get(cache, d)
  {
    if c % 2 == 0 && d == c + 1 {
      SetOddNeighbour(cache, c, value);
    } else if d % 2 == 0 && c == d + 1 {
      SetEvenNeighbour(cache, d, value);
    } else {
      Offsets(c, d);
      Offsets(d, c);
      OtherBytesKept(cache, c, value, d * 3 / 2);
      OtherBytesKept(cache, c, value, d * 3 / 2 + 1);
    }
  }

  /** Storing an entry changes that entry and no other, although neighbours share a byte. */
  lemma SetIsUpdate(cache: seq<Byte>, c: nat, value: nat)
    requires c < EntryCount(|cache|)
    ensures Entries(Set(cache, c, value)) == Entries(cache)[c := value % 4096]
  {
    var fat' := Entries(Set(cache, c, value));
    forall d | 0 <= d < |fat'| ensures fat'[d] == Entries(cache)[c := value % 4096][d] {
      if d == c { SetOwn(cache, c, value); } else { SetOther(cache, c, value, d); }
    }
  }

  // ---------------------------------------------------------------------------
  // Freeing a chain, whatever the table holds

  /** The clusters a chain walk follows. */
  predicate InRange(c: nat) { 2 <= c < BAD_CLUSTER }

  function NonFree(fat: seq<nat>): set<nat> { set c | 0 <= c < |fat| && fat[c] != 0 }

  /** `free_cluster_chain`; `None` where indexing the cache past its end would panic. */
  function FreeChain(fat: seq<nat>, first: nat): (r: Option<seq<nat>>)
    ensures r.Some? ==> |r.value| == |fat|
    decreases |NonFree(fat)|, if InRange(first) then 1 else 0
  {
    if !InRange(first) then Some(fat)
    else if first >= |fat| then None
    else
      var fat' := fat[first := 0];
      FreeShrinks(fat, first);
      if fat[first] >= EOF then Some(fat') else FreeChain(fat', fat[first])
  }

  lemma FreeShrinks(fat: seq<nat>, c: nat)
    requires c < |fat|
    ensures NonFree(fat[c := 0]) == NonFree(fat) - {c}
    ensures |NonFree(fat[c := 0])| == if fat[c] != 0 then |NonFree(fat)| - 1 else |NonFree(fat)|
  {
    assert NonFree(fat[c := 0]) == NonFree(fat) - {c};
  }

  /** The cluster reached after `k` steps along the table. */
  function Walk(fat: seq<nat>, first: nat, k: nat): (r: Option<nat>)
    ensures r.Some? ==> InRange(r.value) && r.value < |fat|
  {
    if k == 0 then (if InRange(first) && first < |fat| then Some(first) else None)
    else
      match Walk(fat, first, k - 1)
      case None => None
      case Some(c) => if InRange(fat[c]) && fat[c] < |fat| then Some(fat[c]) else None
  }

  ghost predicate Reaches(fat: seq<nat>, first: nat, c: nat) {
    exists k: nat :: Walk(fat, first, k) == Some(c)
  }

  lemma WalkReaches(fat: seq<nat>, first: nat, k: nat, c: nat)
    requires Walk(fat, first, k) == Some(c)
    ensures Reaches(fat, first, c)
  {
  }

  lemma {:induction false} WalkPastFreed(fat: seq<nat>, first: nat, k: nat)
    requires InRange(first) && first < |fat|
    ensures var w := Walk(fat, first, k);
            w.Some? && w.value != first ==> Reaches(fat[first := 0], fat[first], w.value)
  {
    if k > 0 {
      WalkPastFreed(fat, first, k - 1);
      var x, w := Walk(fat, first, k - 1), Walk(fat, first, k);
      if w.Some? && w.value != first {
        if x.value == first {
          WalkReaches(fat[first := 0], fat[first], 0, w.value);
        } else {
          var j: nat :| Walk(fat[first := 0], fat[first], j) == x;
          WalkReaches(fat[first := 0], fat[first], j + 1, w.value);
        }
      }
    }
  }

  lemma {:induction false} WalkBeforeFreed(fat: seq<nat>, first: nat, k: nat)
    requires InRange(first) && first < |fat|
    ensures var w := Walk(fat[first := 0], fat[first], k);
            w.Some? ==> Reaches(fat, first, w.value)
  {
    var fat' := fat[first := 0];
    var w := Walk(fat', fat[first], k);
    if w.Some? {
      if k == 0 {
        assert Walk(fat, first, 0) == Some(first);
        WalkReaches(fat, first, 1, w.value);
      } else {
        WalkBeforeFreed(fat, first, k - 1);
        var x := Walk(fat', fat[first], k - 1);
        assert x.value != first;
        var j: nat :| Walk(fat, first, j) == x;
        WalkReaches(fat, first, j + 1, w.value);
      }
    }
  }

  lemma ReachesAfterFreeing(fat: seq<nat>, first: nat, c: nat)
    requires InRange(first) && first < |fat|
    ensures Reaches(fat, first, c) <==> c == first || Reaches(fat[first := 0], fat[first], c)
  {
    if Reaches(fat, first, c) {
      var k: nat :| Walk(fat, first, k) == Some(c);
      WalkPastFreed(fat, first, k);
    }
    if Reaches(fat[first := 0], fat[first], c) {
      var k: nat :| Walk(fat[first := 0], fat[first], k) == Some(c);
      WalkBeforeFreed(fat, first, k);
    }
    WalkReaches(fat, first, 0, first);
  }

  /** On every table, cyclic and cross-linked chains included, freeing a chain ends, frees
      exactly the clusters its walk reaches and leaves every other entry alone. */
  lemma {:induction false} FreeChainFreesReachable(fat: seq<nat>, first: nat, c: nat)
    requires FreeChain(fat, first).Some? && c < |fat|
    ensures FreeChain(fat, first).value[c] == if Reaches(fat, first, c) then 0 else fat[c]
    decreases |NonFree(fat)|, if InRange(first) then 1 else 0
  {
    if !InRange(first) {
      NothingReached(fat, first, c);
    } else {
      ReachesAfterFreeing(fat, first, c);
      FreeShrinks(fat, first);
      if fat[first] >= EOF {
        NothingReached(fat[first := 0], fat[first], c);
      } else {
        FreeChainFreesReachable(fat[first := 0], fat[first], c);
      }
    }
  }

  lemma {:induction false} NothingReached(fat: seq<nat>, first: nat, c: nat)
    requires !InRange(first)
    ensures !Reaches(fat, first, c)
  {
    forall k: nat ensures Walk(fat, first, k) == None { NoWalk(fat, first, k); }
  }

  lemma {:induction false} NoWalk(fat: seq<nat>, first: nat, k: nat)
    requires !InRange(first)
    ensures Walk(fat, first, k) == None
  {
    if k > 0 { NoWalk(fat, first, k - 1); }
  }

  /** The entry of cluster `c` links to a cluster past the end of the cached table. */
  predicate LinksOut(fat: seq<nat>, c: nat) {
    c < |fat| && InRange(fat[c]) && fat[c] >= |fat|
  }

  /** The walk from `first` leaves the cached table. */
  ghost predicate Leaves(fat: seq<nat>, first: nat) {
    (InRange(first) && first >= |fat|) || exists c :: Reaches(fat, first, c) && LinksOut(fat, c)
  }

  lemma LeavesAfterFreeing(fat: seq<nat>, first: nat)
    requires InRange(first) && first < |fat|
    ensures Leaves(fat, first) <==> Leaves(fat[first := 0], fat[first])
  {
    var fat' := fat[first := 0];
    ReachesAfterFreeing(fat, first, first);
    if c :| Reaches(fat, first, c) && LinksOut(fat, c) {
      ReachesAfterFreeing(fat, first, c);
      assert c != first ==> Reaches(fat', fat[first], c) && LinksOut(fat', c);
    }
    if c :| Reaches(fat', fat[first], c) && LinksOut(fat', c) {
      ReachesAfterFreeing(fat, first, c);
      assert Reaches(fat, first, c) && LinksOut(fat, c);
    }
  }

  /** It panics exactly when the walk leaves the cached table. */
  lemma {:induction false} FreeChainPanicsIff(fat: seq<nat>, first: nat)
    ensures FreeChain(fat, first).None? <==> Leaves(fat, first)
    decreases |NonFree(fat)|, if InRange(first) then 1 else 0
  {
    if !InRange(first) {
      forall c: nat ensures !Reaches(fat, first, c) { NothingReached(fat, first, c); }
    } else if first < |fat| {
      LeavesAfterFreeing(fat, first);
      FreeShrinks(fat, first);
      if fat[first] < EOF {
        FreeChainPanicsIff(fat[first := 0], fat[first]);
      } else {
        var fat', next := fat[first := 0], fat[first];
        forall c: nat ensures !Reaches(fat', next, c) { NothingReached(fat', next, c); }
      }
    }
  }

  /** The table of a volume with one sector per copy has 341 entries; a link can lead past them. */
  lemma {:induction false} ShortTablePanics(cache: seq<Byte>, c: nat, link: nat)
    requires |cache| == 512 && 2 <= c < 341 <= link < BAD_CLUSTER
    ensures FreeChain(Entries(Set(cache, c, link)), c).None?
  {
    var fat := Entries(cache);
    assert |fat| == 341;
    SetIsUpdate(cache, c, link);
    LinkFitsEntry(link);
    LinkPastEnd(fat[c := link], c);
  }

  lemma LinkFitsEntry(link: nat)
    requires link < BAD_CLUSTER
    ensures link % 4096 == link
  {
  }

  lemma {:induction false} LinkPastEnd(fat: seq<nat>, c: nat)
    requires InRange(c) && c < |fat| <= fat[c] < BAD_CLUSTER
    ensures FreeChain(fat, c).None?
  {
    assert FreeChain(fat[c := 0], fat[c]).None?;
  }

  /** A table with an entry for every cluster number is never left. */
  lemma {:induction false} FreeChainFitsTable(fat: seq<nat>, first: nat)
    requires |fat| >= BAD_CLUSTER
    ensures FreeChain(fat, first).Some?
  {
    FreeChainPanicsIff(fat, first);
  }

  // ---------------------------------------------------------------------------
  // Well-formed chains

  /** `cs` is linked front to back in the table and ends with an end-of-chain mark. */
  predicate IsChain(fat: seq<nat>, cs: seq<nat>) {
    && cs != []
    && Distinct(cs)
    && (forall i | 0 <= i < |cs| :: InRange(cs[i]) && cs[i] < |fat|)
    && (forall i {:trigger fat[cs[i]]} | 0 <= i < |cs| - 1 :: fat[cs[i]] == cs[i + 1])
    && fat[cs[|cs| - 1]] >= EOF
  }

  /** The clusters that following the links from `first` visits, up to a value that names none or
      a cluster the table does not have. A circle of links has no such list. */
  predicate IsWalk(fat: seq<nat>, first: nat, cs: seq<nat>)
    decreases |cs|
  {
    if !InRange(first) then cs == []
    else cs != [] && cs[0] == first && (if first >= |fat| then |cs| == 1 else IsWalk(fat, fat[first], cs[1..]))
  }

  lemma {:induction false} WalkIsUnique(fat: seq<nat>, first: nat, a: seq<nat>, b: seq<nat>)
    requires IsWalk(fat, first, a) && IsWalk(fat, first, b)
    ensures a == b
    decreases |a|
  {
    if InRange(first) && first < |fat| {
      WalkIsUnique(fat, fat[first], a[1..], b[1..]);
      assert a == [first] + a[1..] && b == [first] + b[1..];
    }
  }

  lemma {:induction false} ChainIsWalk(fat: seq<nat>, cs: seq<nat>)
    requires IsChain(fat, cs)
    ensures IsWalk(fat, cs[0], cs)
  {
    if |cs| > 1 {
      ChainSuffix(fat, cs, 1);
      ChainIsWalk(fat, cs[1..]);
      assert fat[cs[0]] == cs[1];
    }
  }

  lemma ChainSuffix(fat: seq<nat>, cs: seq<nat>, k: nat)
    requires IsChain(fat, cs) && k < |cs|
    ensures IsChain(fat, cs[k..])
  {
    var rest := cs[k..];
    forall i | 0 <= i < |rest| - 1 ensures fat[rest[i]] == rest[i + 1] {
      assert rest[i] == cs[k + i] && rest[i + 1] == cs[k + i + 1];
    }
    assert rest[|rest| - 1] == cs[|cs| - 1];
  }

  function ZeroAll(fat: seq<nat>, cs: seq<nat>): (fat': seq<nat>)
    ensures |fat'| == |fat| && forall c | 0 <= c < |fat| :: fat'[c] == if c in cs then 0 else fat[c]
  {
    seq(|fat|, c requires 0 <= c < |fat| => if c in cs then 0 else fat[c])
  }

  lemma ChainTail(fat: seq<nat>, cs: seq<nat>)
    requires IsChain(fat, cs) && |cs| > 1
    ensures IsChain(fat[cs[0] := 0], cs[1..])
  {
    var fat', rest := fat[cs[0] := 0], cs[1..];
    forall i | 0 <= i < |rest| - 1 ensures fat'[rest[i]] == rest[i + 1] {
      assert rest[i] == cs[i + 1] != cs[0];
    }
    assert rest[|rest| - 1] == cs[|cs| - 1] != cs[0];
  }

  /** Freeing a well-formed chain frees its clusters and nothing else. */
  lemma {:induction false} FreeChainOfChain(fat: seq<nat>, cs: seq<nat>)
    requires IsChain(fat, cs)
    ensures FreeChain(fat, cs[0]) == Some(ZeroAll(fat, cs))
    decreases |cs|
  {
    var fat' := fat[cs[0] := 0];
    if |cs| == 1 {
      assert cs == [cs[0]];
      assert ZeroAll(fat, cs) == fat';
    } else {
      ChainTail(fat, cs);
      FreeChainOfChain(fat', cs[1..]);
      assert fat[cs[0]] == cs[1] && InRange(cs[1]);
      ZeroAllStep(fat, cs);
    }
  }

  lemma ZeroAllStep(fat: seq<nat>, cs: seq<nat>)
    requires cs != [] && cs[0] < |fat|
    ensures ZeroAll(fat, cs) == ZeroAll(fat[cs[0] := 0], cs[1..])
  {
    assert cs == [cs[0]] + cs[1..];
  }

  /** A chain depends only on its own entries. */
  lemma ChainKept(fat: seq<nat>, fat': seq<nat>, cs: seq<nat>)
    requires IsChain(fat, cs) && |fat'| == |fat|
    requires forall c | c in cs :: fat'[c] == fat[c]
    ensures IsChain(fat', cs)
  {
  }

  /** A cluster on a chain is not free. */
  lemma ChainNotFree(fat: seq<nat>, cs: seq<nat>, c: nat)
    requires IsChain(fat, cs) && c in cs
    ensures c < |fat| && fat[c] != 0
  {
    var i :| 0 <= i < |cs| && cs[i] == c;
    if i < |cs| - 1 { assert InRange(cs[i + 1]); }
  }

  // ---------------------------------------------------------------------------
  // Allocation

  /** The free clusters the allocator considers. */
  function FreeClusters(fat: seq<nat>): set<nat> {
    set c | 0 <= c < |fat| && 2 <= c < SCAN_END && fat[c] == 0
  }

  /** The table once every cluster the allocator finds has been taken. */
  function Drained(fat: seq<nat>): (fat': seq<nat>)
    ensures |fat'| == |fat| && forall c | 0 <= c < |fat| :: fat'[c] == if c in FreeClusters(fat) then EOF else fat[c]
  {
    seq(|fat|, c requires 0 <= c < |fat| => if c in FreeClusters(fat) then EOF else fat[c])
  }

  predicate Ascending(cs: seq<nat>) {
    forall i, j | 0 <= i < j < |cs| :: cs[i] < cs[j]
  }

  /** `cs` are the lowest `|cs|` free clusters. */
  predicate FirstFree(fat: seq<nat>, cs: seq<nat>) {
    && Ascending(cs)
    && (forall i | 0 <= i < |cs| :: cs[i] in FreeClusters(fat))
    && (forall c, i | c in FreeClusters(fat) && c !in cs && 0 <= i < |cs| :: cs[i] < c)
  }

  /** `fat'` is `fat` with the free clusters `cs` turned into a chain. */
  predicate ChainBuilt(fat: seq<nat>, cs: seq<nat>, fat': seq<nat>) {
    && |fat'| == |fat|
    && FirstFree(fat, cs)
    && IsChain(fat', cs)
    && (forall c | 0 <= c < |fat| && c !in cs :: fat'[c] == fat[c])
  }

  function Members(cs: seq<nat>): set<nat> { set c | c in cs }

  lemma {:induction false} DistinctCount(cs: seq<nat>)
    requires Distinct(cs)
    ensures |Members(cs)| == |cs|
  {
    if cs != [] {
      var front, last := cs[..|cs| - 1], cs[|cs| - 1];
      DistinctCount(front);
      assert Members(cs) == Members(front) + {last} by { assert cs == front + [last]; }
      assert last !in Members(front);
    }
  }

  /** Building a chain takes exactly its clusters from the free ones. */
  lemma ChainBuiltTakes(fat: seq<nat>, cs: seq<nat>, fat': seq<nat>)
    requires ChainBuilt(fat, cs, fat')
    ensures FreeClusters(fat') == FreeClusters(fat) - Members(cs)
    ensures |FreeClusters(fat')| == |FreeClusters(fat)| - |cs|
  {
    forall c | c in cs ensures c in FreeClusters(fat) && fat'[c] != 0 { ChainNotFree(fat', cs, c); }
    DistinctCount(cs);
    assert FreeClusters(fat') == FreeClusters(fat) - Members(cs);
    assert Members(cs) <= FreeClusters(fat);
  }

  /** The clusters of a chain that the allocator scans and counts. */
  function Scanned(cs: seq<nat>): set<nat> { set c | c in cs && c < SCAN_END }

  lemma ScannedCount(cs: seq<nat>)
    requires Distinct(cs)
    ensures |Scanned(cs)| == |cs| <==> forall c | c in cs :: c < SCAN_END
  {
    DistinctCount(cs);
    if forall c | c in cs :: c < SCAN_END {
      assert Scanned(cs) == Members(cs);
    } else {
      var c :| c in cs && c >= SCAN_END;
      assert Scanned(cs) <= Members(cs) - {c};
      FewerMembers(Scanned(cs), Members(cs) - {c});
    }
  }

  lemma {:induction false} FewerMembers(a: set<nat>, b: set<nat>)
    requires a <= b
    ensures |a| <= |b|
  {
    assert b == a + (b - a);
  }

  /** Freeing a chain gives back exactly its clusters that the allocator considers. */
  lemma ZeroAllGives(fat: seq<nat>, cs: seq<nat>)
    requires IsChain(fat, cs)
    ensures FreeClusters(ZeroAll(fat, cs)) == FreeClusters(fat) + Scanned(cs)
    ensures |FreeClusters(ZeroAll(fat, cs))| == |FreeClusters(fat)| + |Scanned(cs)|
  {
    assert FreeClusters(ZeroAll(fat, cs)) == FreeClusters(fat) + Scanned(cs);
    forall c | c in Scanned(cs) ensures c !in FreeClusters(fat) { ChainNotFree(fat, cs, c); }
  }

  /** A cluster that chains may use but the allocator never scans: freeing it gives back nothing. */
  lemma ReservedClusterIsLost(fat: seq<nat>, c: nat)
    requires SCAN_END <= c < BAD_CLUSTER && |fat| == 4096 && forall k | 0 <= k < 4096 :: fat[k] == if k == c then EOF else 0
    ensures IsChain(fat, [c]) && FreeChain(fat, c) == Some(ZeroAll(fat, [c]))
    ensures |FreeClusters(ZeroAll(fat, [c]))| == |FreeClusters(fat)|
  {
    assert IsChain(fat, [c]);
    FreeChainOfChain(fat, [c]);
    assert FreeClusters(ZeroAll(fat, [c])) == FreeClusters(fat);
  }
}
