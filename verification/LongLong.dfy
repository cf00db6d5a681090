/** Double-word arithmetic from single words: addition, subtraction, multiplication and the
    division of two words by one, on words of any even width. `b` is the base of half a word and
    `m`, its square, that of a word. */
module LongLong {
  import opened Bits
  import opened Products

  // ---------------------------------------------------------------------------
  // Words

  /** What is left of a sum or difference in a word. */
  function Wrap(x: int, m: nat): (r: nat)
    requires m > 0 && 0 <= x + m < 3 * m
    ensures r < m && (r == x || r == x - m || r == x + m)
  {
    if x < 0 then x + m else if x < m then x else x - m
  }

  /** It is the value modulo the word size. */
  lemma {:induction false} WrapIsModulo(x: int, m: nat)
    requires m > 0 && 0 <= x + m < 3 * m
    ensures Wrap(x, m) == x % m
  {
    if x < 0 {
      assert (x + m) % m == x + m;
      DivModUnique(x, m, -1, x + m);
    } else if x >= m {
      DivModUnique(x, m, 1, x - m);
    }
  }

  /** High and low half of a word. */
  lemma {:induction false} Halves(x: nat, h: nat)
    requires x < Pow2(2 * h)
    ensures x == Times(Shr(x, h), Pow2(h)) + Low(x, h) && Shr(x, h) < Pow2(h) && Low(x, h) < Pow2(h)
  {
    ShrIsDivision(x, h);
    Pow2Add(h, h);
    TimesIsProduct(Shr(x, h), Pow2(h));
    QuotientBelow(x, Pow2(h));
  }

  /** Two half words, high and low, make a word. */
  lemma {:induction false} DoubleFits(high: nat, low: nat, b: nat)
    requires high < b && low < b
    ensures Times(high, b) + low < Times(b, b)
  {
    TimesMono(high + 1, b, b);
    TimesPlus(high, 1, b);
  }

  // ---------------------------------------------------------------------------
  // Addition and subtraction

  /** The sum of two double words, modulo the square of the word size. */
  method AddSsaaaa(ah: nat, al: nat, bh: nat, bl: nat, m: nat) returns (sh: nat, sl: nat)
    requires ah < m && al < m && bh < m && bl < m
    ensures sh < m && sl < m
    ensures m * m > 0 && sh * m + sl == ((ah * m + al) + (bh * m + bl)) % (m * m)
  {
    var x := Wrap(al + bl, m);
    sh := Wrap(Wrap(ah + bh, m) + (if x < al then 1 else 0), m);
    sl := x;
    ghost var over := if ah + bh + (if x < al then 1 else 0) >= m then 1 else 0;
    SumExact(ah, al, bh, bl, sh, sl, over, m);
    SumModulo(ah, al, bh, bl, sh, sl, over, m);
  }

  lemma {:induction false} SumExact(ah: nat, al: nat, bh: nat, bl: nat, sh: nat, sl: nat, over: nat, m: nat)
    requires (if sl < al then m else 0) + sl == al + bl
    requires Times(over, m) + sh == ah + bh + (if sl < al then 1 else 0)
    ensures Times(over, Times(m, m)) + Times(sh, m) + sl == Times(ah, m) + al + (Times(bh, m) + bl)
  {
    var c := if sl < al then 1 else 0;
    assert Times(c, m) + sl == al + bl;
    TimesPlus(ah + bh, c, m);
    TimesPlus(ah, bh, m);
    TimesPlus(Times(over, m), sh, m);
    TimesTimes(over, m, m);
  }

  lemma {:induction false} SumModulo(ah: nat, al: nat, bh: nat, bl: nat, sh: nat, sl: nat, over: nat, m: nat)
    requires sh < m && sl < m
    requires Times(over, Times(m, m)) + Times(sh, m) + sl == Times(ah, m) + al + (Times(bh, m) + bl)
    ensures m * m > 0 && sh * m + sl == ((ah * m + al) + (bh * m + bl)) % (m * m)
  {
    DoubleFits(sh, sl, m);
    TimesIsProduct(m, m);
    TimesIsProduct(sh, m);
    TimesIsProduct(ah, m);
    TimesIsProduct(bh, m);
    TimesIsProduct(over, m * m);
    DivModUnique((ah * m + al) + (bh * m + bl), m * m, over, sh * m + sl);
  }

  /** The difference of two double words, modulo the square of the word size. */
  method SubDdmmss(ah: nat, al: nat, bh: nat, bl: nat, m: nat) returns (sh: nat, sl: nat)
    requires ah < m && al < m && bh < m && bl < m
    ensures sh < m && sl < m
    ensures m * m > 0 && sh * m + sl == ((ah * m + al) - (bh * m + bl)) % (m * m)
  {
    var x := Wrap(al - bl, m);
    sh := Wrap(Wrap(ah - bh, m) - (if x > al then 1 else 0), m);
    sl := x;
    ghost var under := if ah - bh - (if x > al then 1 else 0) < 0 then 1 else 0;
    DifferenceExact(ah, al, bh, bl, sh, sl, under, m);
    DifferenceModulo(ah, al, bh, bl, sh, sl, under, m);
  }

  lemma {:induction false} DifferenceExact(ah: nat, al: nat, bh: nat, bl: nat, sh: nat, sl: nat, under: nat, m: nat)
    requires (if sl > al then m else 0) + al == sl + bl
    requires Times(under, m) + ah == sh + bh + (if sl > al then 1 else 0)
    ensures Times(sh, m) + sl + (Times(bh, m) + bl) == Times(under, Times(m, m)) + (Times(ah, m) + al)
  {
    var c := if sl > al then 1 else 0;
    assert Times(c, m) + al == sl + bl;
    TimesPlus(sh + bh, c, m);
    TimesPlus(sh, bh, m);
    TimesPlus(Times(under, m), ah, m);
    TimesTimes(under, m, m);
  }

  lemma {:induction false} DifferenceModulo(ah: nat, al: nat, bh: nat, bl: nat, sh: nat, sl: nat, under: nat, m: nat)
    requires sh < m && sl < m
    requires Times(sh, m) + sl + (Times(bh, m) + bl) == Times(under, Times(m, m)) + (Times(ah, m) + al)
    ensures m * m > 0 && sh * m + sl == ((ah * m + al) - (bh * m + bl)) % (m * m)
  {
    DoubleFits(sh, sl, m);
    TimesIsProduct(m, m);
    TimesIsProduct(sh, m);
    TimesIsProduct(ah, m);
    TimesIsProduct(bh, m);
    TimesIsProduct(under, m * m);
    Negate(under, m * m);
    DivModUnique((ah * m + al) - (bh * m + bl), m * m, 0 - under, sh * m + sl);
  }

  // ---------------------------------------------------------------------------
  // Multiplication

  method Product(x: nat, y: nat) returns (p: nat)
    ensures p == Times(x, y)
  {
    TimesIsProduct(x, y);
    p := x * y;
  }

  lemma {:induction false} HalfProduct(x: nat, y: nat, b: nat)
    requires x < b && y < b
    ensures Times(x, y) + 2 * b <= Times(b, b) + 1
  {
    TimesMono(x, b - 1, y);
    TimesMono(y, b - 1, b - 1);
    TimesPlus(b - 1, 1, b);
    TimesCommutes(b - 1, b);
    TimesPlus(b - 1, 1, b - 1);
  }

  /** The product of two words as a double word. */
  method UmulPpmm(u: nat, v: nat, h: nat) returns (w1: nat, w0: nat)
    requires h > 0 && u < Pow2(2 * h) && v < Pow2(2 * h)
    ensures w1 < Pow2(2 * h) && w0 < Pow2(2 * h) && w1 * Pow2(2 * h) + w0 == u * v
  {
    ghost var m := Pow2(2 * h);
    WordIsSquare(h);
    var x0, x1, x2, x3 := HalfProducts(u, v, h);
    ProductFits(u, v, m);
    w1, w0 := AddProducts(x0, x1, x2, x3, h);
    InProducts(w1, m, w0, u, v, 0);
  }

  lemma {:induction false} WordIsSquare(h: nat)
    ensures Pow2(2 * h) == Times(Pow2(h), Pow2(h))
  {
    Pow2Add(h, h);
    TimesIsProduct(Pow2(h), Pow2(h));
  }

  lemma {:induction false} ProductFits(u: nat, v: nat, m: nat)
    requires u < m && v < m
    ensures Times(u, v) < Times(m, m)
  {
    TimesMono(u, m, v);
    TimesMono(v + 1, m, m);
    TimesPlus(v, 1, m);
    TimesCommutes(m, v);
  }

  method HalfProducts(u: nat, v: nat, h: nat) returns (x0: nat, x1: nat, x2: nat, x3: nat)
    requires h > 0 && u < Pow2(2 * h) && v < Pow2(2 * h)
    ensures var b, m := Pow2(h), Pow2(2 * h);
            && x0 + 2 * b <= m + 1 && x1 + 2 * b <= m + 1 && x2 + 2 * b <= m + 1 && x3 + 2 * b <= m + 1
            && Times(x3, m) + Times(x1 + x2, b) + x0 == Times(u, v)
  {
    var ul, uh, vl, vh := Low(u, h), Shr(u, h), Low(v, h), Shr(v, h);
    ghost var b := Pow2(h);
    Halves(u, h);
    Halves(v, h);
    WordIsSquare(h);
    HalfProduct(ul, vl, b);
    HalfProduct(ul, vh, b);
    HalfProduct(uh, vl, b);
    HalfProduct(uh, vh, b);
    x0 := Product(ul, vl);
    x1 := Product(ul, vh);
    x2 := Product(uh, vl);
    x3 := Product(uh, vh);
    FourProducts(uh, ul, vh, vl, b);
  }

  lemma {:induction false} FourProducts(uh: nat, ul: nat, vh: nat, vl: nat, b: nat)
    ensures Times(Times(uh, b) + ul, Times(vh, b) + vl)
            == Times(Times(uh, vh), Times(b, b)) + Times(Times(ul, vh) + Times(uh, vl), b) + Times(ul, vl)
  {
    var v := Times(vh, b) + vl;
    TimesPlus(Times(uh, b), ul, v);
    TimesRight(uh, b, vh, vl);
    calc {
      Times(ul, v);
      { TimesCommutes(ul, v); TimesPlus(Times(vh, b), vl, ul); TimesCommutes(Times(vh, b), ul); TimesCommutes(vl, ul); }
      Times(ul, Times(vh, b)) + Times(ul, vl);
      { TimesTimes(ul, vh, b); }
      Times(Times(ul, vh), b) + Times(ul, vl);
    }
    TimesPlus(Times(ul, vh), Times(uh, vl), b);
  }

  lemma {:induction false} TimesRight(uh: nat, b: nat, vh: nat, vl: nat)
    ensures Times(Times(uh, b), Times(vh, b) + vl) == Times(Times(uh, vh), Times(b, b)) + Times(Times(uh, vl), b)
  {
    var x := Times(uh, b);
    calc {
      Times(x, Times(vh, b) + vl);
      { TimesCommutes(x, Times(vh, b) + vl); TimesPlus(Times(vh, b), vl, x); }
      Times(Times(vh, b), x) + Times(vl, x);
      { TimesCommutes(Times(vh, b), x); TimesCommutes(vl, x); }
      Times(x, Times(vh, b)) + Times(x, vl);
      { Interchange(uh, b, vh, b); SwapLast(uh, b, vl); }
      Times(Times(uh, vh), Times(b, b)) + Times(Times(uh, vl), b);
    }
  }

  /** Adds the half products in their places, carrying as it goes. */
  method AddProducts(x0: nat, x1: nat, x2: nat, x3: nat, h: nat) returns (w1: nat, w0: nat)
    requires h > 0
    requires var b, m := Pow2(h), Pow2(2 * h);
             && x0 + 2 * b <= m + 1 && x1 + 2 * b <= m + 1 && x2 + 2 * b <= m + 1 && x3 + 2 * b <= m + 1
             && Times(x3, m) + Times(x1 + x2, b) + x0 < Times(m, m)
    ensures var b, m := Pow2(h), Pow2(2 * h);
            w1 < m && w0 < m && Times(w1, m) + w0 == Times(x3, m) + Times(x1 + x2, b) + x0
  {
    var b, m := Pow2(h), Pow2(2 * h);
    var h0, l0 := Shr(x0, h), Low(x0, h);
    Halves(x0, h);
    var mid := Wrap(x1 + h0, m);
    mid := Wrap(mid + x2, m);
    var high := if mid < x2 then Wrap(x3 + b, m) else x3;
    var h1, l1 := Shr(mid, h), Low(mid, h);
    Halves(mid, h);
    WordIsSquare(h);
    DoubleFits(l1, l0, b);
    CarryExact(x0, x1, x2, x3, h0, l0, mid, high, h1, l1, b, m);
    w1 := Wrap(high + h1, m);
    var shifted := Product(l1, b);
    w0 := Wrap(shifted + l0, m);
  }

  /** Nothing is lost on the way: the one carry that can occur is added in its place. */
  lemma {:induction false} CarryExact(
      x0: nat, x1: nat, x2: nat, x3: nat, h0: nat, l0: nat, mid: nat, high: nat, h1: nat, l1: nat, b: nat, m: nat)
    requires m == Times(b, b) && 0 < b && h0 < b && l0 < b && h1 < b && l1 < b
    requires x1 + 2 * b <= m + 1 && x2 + 2 * b <= m + 1 && x3 + 2 * b <= m + 1
    requires x0 == Times(h0, b) + l0 && mid == Times(h1, b) + l1
    requires mid == Wrap(Wrap(x1 + h0, m) + x2, m) && high == if mid < x2 then Wrap(x3 + b, m) else x3
    requires Times(x3, m) + Times(x1 + x2, b) + x0 < Times(m, m)
    ensures high + h1 < m
    ensures Times(high + h1, m) + (Times(l1, b) + l0) == Times(x3, m) + Times(x1 + x2, b) + x0
  {
    var carry := if mid < x2 then 1 else 0;
    assert Times(0, m) == 0 && Times(1, m) == m && Times(0, b) == 0 && Times(1, b) == b;
    assert x1 + h0 + x2 == Times(carry, m) + mid;
    assert high == x3 + Times(carry, b);
    PlacesExact(x0, x1, x2, x3, h0, l0, h1, l1, carry, b);
    HighFits(high + h1, Times(l1, b) + l0, m);
  }

  lemma {:induction false} PlacesExact(x0: nat, x1: nat, x2: nat, x3: nat, h0: nat, l0: nat, h1: nat, l1: nat, carry: nat, b: nat)
    requires x0 == Times(h0, b) + l0 && x1 + h0 + x2 == Times(carry, Times(b, b)) + (Times(h1, b) + l1)
    ensures Times(x3 + Times(carry, b) + h1, Times(b, b)) + (Times(l1, b) + l0)
            == Times(x3, Times(b, b)) + Times(x1 + x2, b) + x0
  {
    var m := Times(b, b);
    calc {
      Times(x1 + x2, b) + Times(h0, b);
      { TimesPlus(x1 + x2, h0, b); }
      Times(Times(carry, m) + (Times(h1, b) + l1), b);
      { TimesPlus(Times(carry, m), Times(h1, b) + l1, b); TimesPlus(Times(h1, b), l1, b); }
      Times(Times(carry, m), b) + Times(Times(h1, b), b) + Times(l1, b);
      { SwapLast(carry, m, b); TimesTimes(h1, b, b); }
      Times(Times(carry, b), m) + Times(h1, m) + Times(l1, b);
    }
    TimesPlus(x3 + Times(carry, b), h1, m);
    TimesPlus(x3, Times(carry, b), m);
  }

  lemma {:induction false} HighFits(w1: nat, w0: nat, m: nat)
    requires Times(w1, m) + w0 < Times(m, m)
    ensures w1 < m
  {
    if w1 >= m {
      TimesMono(m, w1, m);
    }
  }

  // ---------------------------------------------------------------------------
  // Division

  /** Joining a shifted half word and a low one by `or` adds them. */
  lemma {:induction false} OrIsPlus(x: nat, low: nat, h: nat)
    requires low < Pow2(h)
    ensures Or(Times(x, Pow2(h)), low) == Times(x, Pow2(h)) + low
  {
    if h == 0 {
      OrZero(Times(x, 1));
    } else {
      TimesTwice(x, Pow2(h - 1));
      var y := Times(x, Pow2(h - 1));
      OrIsPlus(x, low / 2, h - 1);
      OrUnfold(2 * y, low);
    }
  }

  /** `x * 2^h | low`. */
  method Join(x: nat, low: nat, h: nat) returns (r: nat)
    requires low < Pow2(h)
    ensures r == Times(x, Pow2(h)) + low
  {
    var shifted := Product(x, Pow2(h));
    r := Or(shifted, low);
    OrIsPlus(x, low, h);
  }

  method DivMod(n: nat, d: nat) returns (q: nat, r: nat)
    requires d > 0
    ensures n == Times(q, d) + r && r < d
  {
    q, r := n / d, n % d;
    TimesIsProduct(q, d);
  }

  /** A divisor with its top bit set: its high half is at least half the base, and twice it
      exceeds a word. */
  predicate Normalized(d: nat, d1: nat, d0: nat, b: nat) {
    d == Times(d1, b) + d0 && d0 < b && d1 < b && b <= 2 * d1
  }

  /** The trial digit is at most two too large, so its product with the low half fits a word. */
  lemma {:induction false} TrialDigit(n: nat, d: nat, d1: nat, d0: nat, b: nat, q: nat, r: nat)
    requires Normalized(d, d1, d0, b) && n < d && n == Times(q, d1) + r
    ensures q <= b + 1 && Times(q, d0) < Times(b, b)
  {
    TimesPlus(b, 2, d1);
    TimesCommutes(b, d1);
    assert Times(2, d1) == 2 * d1;
    if q >= b + 2 {
      TimesMono(b + 2, q, d1);
    }
    TimesMono(q, b + 1, d0);
    TimesMono(d0, b - 1, b + 1);
    TimesPlus(b, 1, b - 1);
    TimesCommutes(b, b - 1);
    TimesPlus(b - 1, 1, b);
  }

  /** The remainder the trial digit leaves, before corrections. */
  lemma {:induction false} TrialExact(n: nat, low: nat, d: nat, d1: nat, d0: nat, b: nat, q: nat, r: nat)
    requires d == Times(d1, b) + d0 && n == Times(q, d1) + r
    ensures Times(q, d) + (Times(r, b) + low) == Times(n, b) + low + Times(q, d0)
  {
    TimesPlus(Times(q, d1), r, b);
    TimesTimes(q, d1, b);
    TimesCommutes(q, d);
    TimesPlus(Times(d1, b), d0, q);
    TimesCommutes(Times(d1, b), q);
    TimesCommutes(d0, q);
  }

  lemma {:induction false} DigitFits(n: nat, low: nat, d: nat, b: nat, q: nat, r: nat)
    requires Times(q, d) + r == Times(n, b) + low && n < d && low < b
    ensures q < b
  {
    TimesCommutes(b, d);
    TimesMono(n + 1, d, b);
    TimesPlus(n, 1, b);
    if q >= b {
      TimesMono(b, q, d);
    }
  }

  /** Corrects a trial digit `q` whose remainder `r - p` may be negative, at most twice, on words. */
  method Correct(q: nat, r: nat, p: nat, d: nat, m: nat, ghost total: nat) returns (q': nat, r': nat)
    requires Times(q, d) + r == total + p && r < d < m <= 2 * d && p < m
    ensures Times(q', d) + r' == total && r' < d
    ensures q' <= q <= q' + 2
  {
    q', r' := q, r;
    if r' < p {
      q', r' := q' - 1, Wrap(r' + d, m);
      if r' >= d && r' < p {
        q', r' := q' - 1, Wrap(r' + d, m);
      }
    }
    r' := Wrap(r' - p, m);
  }

  /** One half digit of the quotient: `n` and a further half word `low`, divided by `d`. */
  method HalfDigit(n: nat, low: nat, d: nat, h: nat) returns (q: nat, r: nat)
    requires h > 0 && n < d < Pow2(2 * h) <= 2 * d && low < Pow2(h)
    ensures Times(q, d) + r == Times(n, Pow2(h)) + low && r < d && q < Pow2(h)
  {
    var d1, d0 := Shr(d, h), Low(d, h);
    ghost var b := Pow2(h);
    NormalizedHalves(d, h);
    WordIsSquare(h);
    var q0, r0 := DivMod(n, d1);
    var p := Product(q0, d0);
    var r1 := Join(r0, low, h);
    TrialDigit(n, d, d1, d0, b, q0, r0);
    TrialExact(n, low, d, d1, d0, b, q0, r0);
    RemainderBelow(r0, low, d1, d0, b);
    q, r := Correct(q0, r1, p, d, Pow2(2 * h), Times(n, b) + low);
    DigitFits(n, low, d, b, q, r);
  }

  lemma {:induction false} RemainderBelow(r: nat, low: nat, d1: nat, d0: nat, b: nat)
    requires r < d1 && low < b
    ensures Times(r, b) + low < Times(d1, b) + d0
  {
    TimesMono(r + 1, d1, b);
    TimesPlus(r, 1, b);
  }

  lemma {:induction false} NormalizedHalves(d: nat, h: nat)
    requires h > 0 && d < Pow2(2 * h) <= 2 * d
    ensures Normalized(d, Shr(d, h), Low(d, h), Pow2(h))
  {
    var b, d1 := Pow2(h), Shr(d, h);
    Halves(d, h);
    WordIsSquare(h);
    TimesPlus(2 * d1, 2, b);
    TimesPlus(d1, d1, b);
    assert Times(2, b) == 2 * b;
    assert b == 2 * Pow2(h - 1);
    if 2 * d1 < b {
      TimesMono(2 * d1 + 2, b, b);
    }
  }

  /** Two words divided by one normalized word: the exact quotient and remainder. */
  method UdivQrnndC(n1: nat, n0: nat, d: nat, h: nat) returns (q: nat, r: nat)
    requires h > 0 && n1 < d < Pow2(2 * h) <= 2 * d && n0 < Pow2(2 * h)
    ensures q * d + r == n1 * Pow2(2 * h) + n0 && r < d && q < Pow2(2 * h)
  {
    ghost var b := Pow2(h);
    Halves(n0, h);
    WordIsSquare(h);
    var q1, r1 := HalfDigit(n1, Shr(n0, h), d, h);
    var q0, r0 := HalfDigit(r1, Low(n0, h), d, h);
    q := Join(q1, q0, h);
    r := r0;
    DigitsExact(n1, Shr(n0, h), Low(n0, h), d, b, q1, r1, q0, r0);
    DoubleFits(q1, q0, b);
    InProducts(q, d, r, n1, Pow2(2 * h), n0);
  }

  lemma {:induction false} DigitsExact(n1: nat, h0: nat, l0: nat, d: nat, b: nat, q1: nat, r1: nat, q0: nat, r0: nat)
    requires Times(q1, d) + r1 == Times(n1, b) + h0 && Times(q0, d) + r0 == Times(r1, b) + l0
    ensures Times(Times(q1, b) + q0, d) + r0 == Times(n1, Times(b, b)) + (Times(h0, b) + l0)
  {
    TimesPlus(Times(q1, b), q0, d);
    SwapLast(q1, b, d);
    TimesPlus(Times(q1, d), r1, b);
    TimesPlus(Times(n1, b), h0, b);
    TimesTimes(n1, b, b);
  }
}
