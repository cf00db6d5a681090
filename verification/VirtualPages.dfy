/** Virtual page numbers as the four table indices of an address. */
module VirtualPages {
  import opened Bits

  type Index = i: nat | i < 512

  datatype Path = Path(i4: Index, i3: Index, i2: Index, i1: Index)

  function PathOf(virt: nat): Path {
    Path(virt / 0x80_0000_0000 % 512, virt / 0x4000_0000 % 512, virt / 0x20_0000 % 512, virt / 0x1000 % 512)
  }

  lemma IndexWidths()
    ensures Pow2(9) == 512 && Pow2(12) == 0x1000 && Pow2(21) == 0x20_0000 && Pow2(30) == 0x4000_0000
    ensures Pow2(39) == 0x80_0000_0000
  {
    assert Pow2(9) == 512;
    Pow2Add(3, 9);
    Pow2Add(12, 9);
    Pow2Add(21, 9);
    Pow2Add(30, 9);
  }

  lemma IndexIsField(virt: nat, k: nat, unit: nat)
    requires Pow2(k) == unit && Pow2(9) == 512
    ensures And(Shr(virt, k), 0x1FF) == virt / unit % 512
  {
    ShrIsDivision(virt, k);
    AndLowMask(virt / unit, 9);
  }

  /** The indices are the address shifted right by 39, 30, 21 and 12 places and masked to nine bits. */
  lemma IndicesAreFields(virt: nat)
    ensures var p := PathOf(virt);
            && p.i4 == And(Shr(virt, 39), 0x1FF) && p.i3 == And(Shr(virt, 30), 0x1FF)
            && p.i2 == And(Shr(virt, 21), 0x1FF) && p.i1 == And(Shr(virt, 12), 0x1FF)
  {
    IndexWidths();
    IndexIsField(virt, 39, 0x80_0000_0000);
    IndexIsField(virt, 30, 0x4000_0000);
    IndexIsField(virt, 21, 0x20_0000);
    IndexIsField(virt, 12, 0x1000);
  }

  /** The 36-bit virtual page number: bits 12 to 47 of the address. */
  function PageNumber(virt: nat): nat { virt / 0x1000 % 0x10_0000_0000 }

  lemma IndicesInSteps(virt: nat)
    ensures var page := virt / 0x1000;
            PathOf(virt) == Path(page / 512 / 512 / 512 % 512, page / 512 / 512 % 512, page / 512 % 512, page % 512)
  {
    var page := virt / 0x1000;
    var q1 := page / 512;
    var q2 := q1 / 512;
    var r1 := page % 512 * 0x1000 + virt % 0x1000;
    var r2 := q1 % 512 * 0x20_0000 + r1;
    DivModUnique(virt, 0x20_0000, q1, r1);
    DivModUnique(virt, 0x4000_0000, q2, r2);
    DivModUnique(virt, 0x80_0000_0000, q2 / 512, q2 % 512 * 0x4000_0000 + r2);
  }

  /** A number below 2^36 and its four digits to base 512. */
  lemma FourDigits(page: nat)
    ensures page % 0x10_0000_0000
         == page / 512 / 512 / 512 % 512 * 0x800_0000 + page / 512 / 512 % 512 * 0x4_0000 + page / 512 % 512 * 0x200 + page % 512
  {
    var q1 := page / 512;
    var q2 := q1 / 512;
    var q3 := q2 / 512;
    var q4 := q3 / 512;
    var n := q3 % 512 * 0x800_0000 + q2 % 512 * 0x4_0000 + q1 % 512 * 0x200 + page % 512;
    assert page == q4 * 0x10_0000_0000 + n;
    DivModUnique(page, 0x10_0000_0000, q4, n);
  }

  lemma NumberOfPath(virt: nat)
    ensures var p := PathOf(virt);
            PageNumber(virt) == p.i4 * 0x800_0000 + p.i3 * 0x4_0000 + p.i2 * 0x200 + p.i1
  {
    IndicesInSteps(virt);
    FourDigits(virt / 0x1000);
  }

  /** The four indices of an address name its page and nothing else. */
  lemma PathNamesPage(v: nat, w: nat)
    ensures PathOf(v) == PathOf(w) <==> PageNumber(v) == PageNumber(w)
  {
    NumberOfPath(v);
    NumberOfPath(w);
    if PageNumber(v) == PageNumber(w) {
      DigitsUnique(PathOf(v), PathOf(w));
    }
  }

  lemma TopDigit(a: nat, x: nat, b: nat, y: nat, m: nat)
    requires m > 0 && x < m && y < m && a * m + x == b * m + y
    ensures a == b && x == y
  {
    DivModUnique(a * m + x, m, a, x);
    DivModUnique(b * m + y, m, b, y);
  }

  lemma DigitsUnique(p: Path, q: Path)
    requires p.i4 * 0x800_0000 + p.i3 * 0x4_0000 + p.i2 * 0x200 + p.i1
          == q.i4 * 0x800_0000 + q.i3 * 0x4_0000 + q.i2 * 0x200 + q.i1
    ensures p == q
  {
    TopDigit(p.i4, p.i3 * 0x4_0000 + p.i2 * 0x200 + p.i1, q.i4, q.i3 * 0x4_0000 + q.i2 * 0x200 + q.i1, 0x800_0000);
    TopDigit(p.i3, p.i2 * 0x200 + p.i1, q.i3, q.i2 * 0x200 + q.i1, 0x4_0000);
    TopDigit(p.i2, p.i1, q.i2, q.i1, 0x200);
  }
}
