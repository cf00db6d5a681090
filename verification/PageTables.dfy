/** Four-level page tables as words in memory, and the two operations that edit them.
    A table is identified by the number of the frame it occupies. */
module PageTables {
  import opened Bits
  import opened FrameAllocator

  const ADDRESS_MASK: nat := 0x000F_FFFF_FFFF_F000
  const PRESENT: nat := 1
  const WRITABLE: nat := 2
  const USER: nat := 4
  const FRAME_LIMIT: nat := 0x100_0000_0000

  // ---------------------------------------------------------------------------
  // Entries

  predicate IsPresent(entry: nat) { And(entry, PRESENT) != 0 }

  function GetAddr(entry: nat): nat { And(entry, ADDRESS_MASK) }

  function SetAddr(addr: nat, flags: nat): nat { Or(And(addr, ADDRESS_MASK), flags) }

  /** The frame number an entry or address refers to: bits 12 to 51. */
  function FrameOf(word: nat): nat { word / PAGE_SIZE % FRAME_LIMIT }

  /** The flags above the address field, such as the one that forbids execution: bits 52 and up. */
  function HighFlags(word: nat): nat { word / PAGE_SIZE / FRAME_LIMIT }

  lemma PresentIsLowBit(entry: nat)
    ensures IsPresent(entry) <==> entry % 2 == 1
  {
    AndLowMask(entry, 1);
  }

  lemma DoubleExponent(k: nat, p: nat)
    requires Pow2(k) == p
    ensures Pow2(k + k) == p * p
  {
    Pow2Add(k, k);
  }

  lemma FieldWidths()
    ensures Pow2(12) == PAGE_SIZE && Pow2(40) == FRAME_LIMIT
  {
    assert Pow2(10) == 1024;
    DoubleExponent(10, 1024);
    DoubleExponent(20, 0x10_0000);
  }

  lemma MaskSelectsFrame(word: nat)
    ensures And(word, ADDRESS_MASK) == FrameOf(word) * PAGE_SIZE
  {
    var r := And(word, ADDRESS_MASK);
    FieldWidths();
    AndFields(word, ADDRESS_MASK, 12);
    ShrIsDivision(word, 12);
    ShrIsDivision(ADDRESS_MASK, 12);
    ShrIsDivision(r, 12);
    AndLowMask(word / PAGE_SIZE, 40);
    assert r % PAGE_SIZE == And(word % PAGE_SIZE, 0) == 0;
  }

  lemma OrOffset(x: nat, y: nat)
    ensures Or(x, y) / PAGE_SIZE == Or(x / PAGE_SIZE, y / PAGE_SIZE)
    ensures Or(x, y) % PAGE_SIZE == Or(x % PAGE_SIZE, y % PAGE_SIZE)
  {
    FieldWidths();
    OrFields(x, y, 12);
    ShrIsDivision(x, 12);
    ShrIsDivision(y, 12);
    ShrIsDivision(Or(x, y), 12);
  }

  lemma OrFrame(x: nat, y: nat)
    ensures FrameOf(Or(x, y)) == Or(FrameOf(x), FrameOf(y))
    ensures HighFlags(Or(x, y)) == Or(HighFlags(x), HighFlags(y))
  {
    OrOffset(x, y);
    var hx, hy := x / PAGE_SIZE, y / PAGE_SIZE;
    FieldWidths();
    OrFields(hx, hy, 40);
    ShrIsDivision(hx, 40);
    ShrIsDivision(hy, 40);
    ShrIsDivision(Or(hx, hy), 40);
  }

  lemma FrameOfAligned(frame: nat)
    requires frame < FRAME_LIMIT
    ensures FrameOf(frame * PAGE_SIZE) == frame && frame * PAGE_SIZE % PAGE_SIZE == 0
    ensures HighFlags(frame * PAGE_SIZE) == 0
  {
  }

  /** An entry keeps the flags outside the address field as given; inside the field the
      flags' bits are merged into the frame number. */
  lemma SetAddrFields(addr: nat, flags: nat)
    ensures FrameOf(SetAddr(addr, flags)) == Or(FrameOf(addr), FrameOf(flags))
    ensures SetAddr(addr, flags) % PAGE_SIZE == flags % PAGE_SIZE && HighFlags(SetAddr(addr, flags)) == HighFlags(flags)
    ensures IsPresent(SetAddr(addr, flags)) <==> IsPresent(flags)
  {
    var base, e := And(addr, ADDRESS_MASK), SetAddr(addr, flags);
    MaskSelectsFrame(addr);
    FrameOfAligned(FrameOf(addr));
    OrFrame(base, flags);
    OrOffset(base, flags);
    OrZero(HighFlags(flags));
    OrZero(flags % PAGE_SIZE);
    SamePresence(e, flags);
  }

  lemma LowBitOfOffset(e: nat)
    ensures e % PAGE_SIZE % 2 == e % 2
  {
    assert e == PAGE_SIZE * (e / PAGE_SIZE) + e % PAGE_SIZE;
  }

  lemma SamePresence(e: nat, e': nat)
    requires e % PAGE_SIZE == e' % PAGE_SIZE
    ensures IsPresent(e) <==> IsPresent(e')
  {
    LowBitOfOffset(e);
    LowBitOfOffset(e');
    PresentIsLowBit(e);
    PresentIsLowBit(e');
  }

  /** The address read back from an entry is the address stored, rounded down to its page,
      exactly when the flags add no bit to the address field. */
  lemma AddressRoundTrip(addr: nat, flags: nat)
    ensures GetAddr(SetAddr(addr, flags)) == FrameOf(addr) * PAGE_SIZE
       <==> Or(FrameOf(addr), FrameOf(flags)) == FrameOf(addr)
  {
    SetAddrFields(addr, flags);
    MaskSelectsFrame(SetAddr(addr, flags));
  }

  /** Any flag in the address field, such as 0x1000, moves an address in frame 0. */
  lemma FlagMovesAddress(addr: nat, flags: nat)
    requires FrameOf(addr) == 0 && FrameOf(flags) != 0
    ensures GetAddr(SetAddr(addr, flags)) != FrameOf(addr) * PAGE_SIZE
  {
    AddressRoundTrip(addr, flags);
    OrZero(FrameOf(flags));
  }

  /** The entry written for a page. */
  function LeafEntry(phys: nat, flags: nat): nat { SetAddr(phys, Or(flags, PRESENT)) }

  /** The entry written for a lower-level table. */
  function TableEntry(frame: nat): nat { SetAddr(frame * PAGE_SIZE, Or(Or(PRESENT, WRITABLE), USER)) }

  /** A leaf entry is present, keeps every flag asked for on both sides of the address field, and
      names its frame if the flags keep out of that field. */
  lemma LeafEntryIsPresent(phys: nat, flags: nat)
    ensures IsPresent(LeafEntry(phys, flags))
    ensures LeafEntry(phys, flags) % PAGE_SIZE == (flags - flags % 2 + 1) % PAGE_SIZE
    ensures HighFlags(LeafEntry(phys, flags)) == HighFlags(flags)
    ensures FrameOf(flags) == 0 ==> FrameOf(LeafEntry(phys, flags)) == FrameOf(phys)
  {
    var all := Or(flags, PRESENT);
    WithPresent(flags);
    SetAddrFields(phys, all);
    OrFrame(flags, PRESENT);
    OrZero(HighFlags(flags));
    OrZero(FrameOf(phys));
    PresentIsLowBit(all);
  }

  lemma WithPresent(flags: nat)
    ensures Or(flags, PRESENT) == flags - flags % 2 + 1
  {
    OrUnfold(flags, PRESENT);
    OrZero(flags / 2);
  }

  lemma TableEntryPointsToFrame(frame: nat)
    requires frame < FRAME_LIMIT
    ensures IsPresent(TableEntry(frame)) && FrameOf(TableEntry(frame)) == frame
  {
    var flags := Or(Or(PRESENT, WRITABLE), USER);
    assert flags == 7;
    SetAddrFields(frame * PAGE_SIZE, flags);
    FrameOfAligned(frame);
    PresentIsLowBit(flags);
  }
}
