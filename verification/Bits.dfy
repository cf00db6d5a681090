/** Bitwise operations of the source's unsigned words, on natural numbers.
    `And` and `Or` are defined bit by bit; the lemmas say what they do to single
    bits and to bit fields. */
module Bits {

  function Pow2(k: nat): (p: nat)
    ensures p > 0
  {
    if k == 0 then 1 else 2 * Pow2(k - 1)
  }

  /** Bit `b` of `w`. */
  predicate Bit(w: nat, b: nat) {
    if b == 0 then w % 2 == 1 else Bit(w / 2, b - 1)
  }

  function And(x: nat, y: nat): nat {
    if x == 0 || y == 0 then 0 else 2 * And(x / 2, y / 2) + (if x % 2 == 1 && y % 2 == 1 then 1 else 0)
  }

  function Or(x: nat, y: nat): (r: nat)
    decreases x + y
  {
    if x == 0 then y
    else if y == 0 then x
    else 2 * Or(x / 2, y / 2) + (if x % 2 == 1 || y % 2 == 1 then 1 else 0)
  }

  /** `!x` on an unsigned integer of `width` bits. */
  function Not(width: nat, x: nat): nat
    requires x < Pow2(width)
  {
    Pow2(width) - 1 - x
  }

  lemma {:induction false} BitOfZero(b: nat)
    ensures !Bit(0, b)
  {
    if b > 0 { BitOfZero(b - 1); }
  }

  lemma {:induction false} BitOfAnd(x: nat, y: nat, b: nat)
    ensures Bit(And(x, y), b) <==> Bit(x, b) && Bit(y, b)
  {
    if x == 0 || y == 0 {
      BitOfZero(b);
    } else {
      assert And(x, y) / 2 == And(x / 2, y / 2);
      if b > 0 { BitOfAnd(x / 2, y / 2, b - 1); }
    }
  }

  lemma {:induction false} BitOfOr(x: nat, y: nat, b: nat)
    ensures Bit(Or(x, y), b) <==> Bit(x, b) || Bit(y, b)
  {
    if x == 0 || y == 0 {
      BitOfZero(b);
    } else {
      assert Or(x, y) / 2 == Or(x / 2, y / 2);
      if b > 0 { BitOfOr(x / 2, y / 2, b - 1); }
    }
  }

  lemma {:induction false} BitOfPow2(k: nat, b: nat)
    ensures Bit(Pow2(k), b) <==> b == k
  {
    if k == 0 {
      if b > 0 { BitOfZero(b - 1); }
    } else {
      assert Pow2(k) / 2 == Pow2(k - 1);
      if b > 0 { BitOfPow2(k - 1, b - 1); }
    }
  }

  lemma {:induction false} BitOfNot(width: nat, x: nat, b: nat)
    requires x < Pow2(width) && b < width
    ensures Bit(Not(width, x), b) <==> !Bit(x, b)
  {
    assert Not(width, x) / 2 == Not(width - 1, x / 2);
    if b > 0 { BitOfNot(width - 1, x / 2, b - 1); }
  }

  lemma {:induction false} Pow2Add(j: nat, k: nat)
    ensures Pow2(j + k) == Pow2(j) * Pow2(k)
  {
    if j > 0 {
      Pow2Add(j - 1, k);
      assert Pow2(j) * Pow2(k) == 2 * (Pow2(j - 1) * Pow2(k));
    }
  }

  lemma {:induction false} Pow2Monotone(j: nat, k: nat)
    requires j <= k
    ensures Pow2(j) <= Pow2(k)
  {
    if j < k { Pow2Monotone(j, k - 1); }
  }

  lemma {:induction false} OrBound(x: nat, y: nat, width: nat)
    requires x < Pow2(width) && y < Pow2(width)
    ensures Or(x, y) < Pow2(width)
  {
    if x != 0 && y != 0 { OrBound(x / 2, y / 2, width - 1); }
  }

  lemma {:induction false} AndBound(x: nat, y: nat)
    ensures And(x, y) <= x
  {
    if x != 0 && y != 0 { AndBound(x / 2, y / 2); }
  }

  /** `x >> k`, one place at a time. */
  function Shr(x: nat, k: nat): nat {
    if k == 0 then x else Shr(x / 2, k - 1)
  }

  /** The low `k` bits of `x`. */
  function Low(x: nat, k: nat): nat {
    if k == 0 then 0 else 2 * Low(x / 2, k - 1) + x % 2
  }

  lemma {:induction false} ShrIsDivision(x: nat, k: nat)
    ensures Shr(x, k) == x / Pow2(k)
    ensures Low(x, k) == x % Pow2(k)
  {
    if k > 0 {
      ShrIsDivision(x / 2, k - 1);
      DoubleModulus(x, Pow2(k - 1));
    }
  }

  lemma AndUnfold(x: nat, y: nat)
    ensures And(x, y) == 2 * And(x / 2, y / 2) + (if x % 2 == 1 && y % 2 == 1 then 1 else 0)
  {
  }

  lemma OrUnfold(x: nat, y: nat)
    ensures Or(x, y) == 2 * Or(x / 2, y / 2) + (if x % 2 == 1 || y % 2 == 1 then 1 else 0)
  {
  }

  lemma {:induction false} AndHalves(x: nat, y: nat)
    ensures And(x, y) / 2 == And(x / 2, y / 2)
    ensures And(x, y) % 2 == if x % 2 == 1 && y % 2 == 1 then 1 else 0
  {
    AndUnfold(x, y);
  }

  lemma {:induction false} OrHalves(x: nat, y: nat)
    ensures Or(x, y) / 2 == Or(x / 2, y / 2)
    ensures Or(x, y) % 2 == if x % 2 == 1 || y % 2 == 1 then 1 else 0
  {
    OrUnfold(x, y);
  }

  lemma {:induction false} OrZero(x: nat)
    ensures Or(x, 0) == x && Or(0, x) == x
  {
    if x != 0 {
      OrZero(x / 2);
      OrUnfold(x, 0);
      OrUnfold(0, x);
    }
  }

  lemma {:induction false} LowHalves(x: nat, k: nat)
    requires k > 0
    ensures Low(x, k) / 2 == Low(x / 2, k - 1) && Low(x, k) % 2 == x % 2
  {
  }

  lemma FromHalves(a: nat, b: nat)
    requires a / 2 == b / 2 && a % 2 == b % 2
    ensures a == b
  {
  }

  /** Shifting right and keeping the low bits both commute with `And`. */
  lemma {:induction false} AndFields(x: nat, y: nat, k: nat)
    ensures Shr(And(x, y), k) == And(Shr(x, k), Shr(y, k))
    ensures Low(And(x, y), k) == And(Low(x, k), Low(y, k))
  {
    if k > 0 {
      AndHalves(x, y);
      AndFields(x / 2, y / 2, k - 1);
      LowHalves(x, k);
      LowHalves(y, k);
      LowHalves(And(x, y), k);
      AndHalves(Low(x, k), Low(y, k));
      FromHalves(Low(And(x, y), k), And(Low(x, k), Low(y, k)));
    }
  }

  /** The same for `Or`. */
  lemma {:induction false} OrFields(x: nat, y: nat, k: nat)
    ensures Shr(Or(x, y), k) == Or(Shr(x, k), Shr(y, k))
    ensures Low(Or(x, y), k) == Or(Low(x, k), Low(y, k))
  {
    if k > 0 {
      OrHalves(x, y);
      OrFields(x / 2, y / 2, k - 1);
      LowHalves(x, k);
      LowHalves(y, k);
      LowHalves(Or(x, y), k);
      OrHalves(Low(x, k), Low(y, k));
      FromHalves(Low(Or(x, y), k), Or(Low(x, k), Low(y, k)));
    }
  }

  lemma {:induction false} AndOnes(x: nat, k: nat)
    ensures And(x, Pow2(k) - 1) == Low(x, k)
  {
    if k > 0 {
      AndOnes(x / 2, k - 1);
      AndHalves(x, Pow2(k) - 1);
      LowHalves(x, k);
      FromHalves(And(x, Pow2(k) - 1), Low(x, k));
    }
  }

  /** Masking with `k` ones keeps the low `k` bits. */
  lemma {:induction false} AndLowMask(x: nat, k: nat)
    ensures And(x, Pow2(k) - 1) == x % Pow2(k)
  {
    AndOnes(x, k);
    ShrIsDivision(x, k);
  }

  lemma DoubleModulus(x: nat, m: nat)
    requires m > 0
    ensures x / (2 * m) == x / 2 / m
    ensures x % (2 * m) == 2 * (x / 2 % m) + x % 2
  {
    var h, q, r := x / 2, x / 2 / m, x / 2 % m;
    assert h == q * m + r;
    assert x == q * (2 * m) + (2 * r + x % 2);
    DivModUnique(x, 2 * m, q, 2 * r + x % 2);
  }

  /** Quotient and remainder are determined by `x == q * m + r`, `r < m`. */
  lemma DivModUnique(x: int, m: nat, q: int, r: nat)
    requires m > 0 && x == q * m + r && r < m
    ensures x / m == q && x % m == r
  {
    var q', r' := x / m, x % m;
    assert (q' - q) * m == r - r';
    if q' > q {
      MulAtLeast(q' - q, m);
    } else if q > q' {
      MulAtLeast(q - q', m);
    }
  }

  lemma MulAtLeast(a: nat, m: nat)
    requires a >= 1
    ensures a * m >= m
  {
  }
}
