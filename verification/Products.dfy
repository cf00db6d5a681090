/** Products of natural numbers, and the laws by which the proofs about double words use them. */
module Products {

  /** The product, by repeated addition. The proofs below reason about it by the laws that
      follow and not by the solver's own rules for products of two variables. */
  function Times(a: nat, b: nat): nat {
    if a == 0 then 0 else Times(a - 1, b) + b
  }

  lemma {:induction false} TimesIsProduct(a: nat, b: nat)
    ensures Times(a, b) == a * b
  {
    if a != 0 {
      TimesIsProduct(a - 1, b);
      assert (a - 1) * b + b == a * b;
    }
  }

  lemma {:induction false} TimesPlus(a: nat, b: nat, c: nat)
    ensures Times(a + b, c) == Times(a, c) + Times(b, c)
  {
    if a != 0 {
      TimesPlus(a - 1, b, c);
    }
  }

  lemma {:induction false} TimesCommutes(a: nat, b: nat)
    ensures Times(a, b) == Times(b, a)
  {
    TimesIsProduct(a, b);
    TimesIsProduct(b, a);
  }

  lemma {:induction false} TimesTimes(a: nat, b: nat, c: nat)
    ensures Times(Times(a, b), c) == Times(a, Times(b, c))
  {
    if a != 0 {
      TimesTimes(a - 1, b, c);
      TimesPlus(Times(a - 1, b), b, c);
    }
  }

  lemma {:induction false} TimesMono(a: nat, b: nat, c: nat)
    requires a <= b
    ensures Times(a, c) <= Times(b, c) && Times(c, a) <= Times(c, b)
  {
    TimesPlus(a, b - a, c);
    TimesCommutes(a, c);
    TimesCommutes(b, c);
  }

  lemma {:induction false} TimesTwice(x: nat, b: nat)
    ensures Times(x, 2 * b) == 2 * Times(x, b)
  {
    if x != 0 {
      TimesTwice(x - 1, b);
    }
  }

  lemma {:induction false} SwapLast(a: nat, b: nat, c: nat)
    ensures Times(Times(a, b), c) == Times(Times(a, c), b)
  {
    TimesTimes(a, b, c);
    TimesCommutes(b, c);
    TimesTimes(a, c, b);
  }

  lemma {:induction false} Interchange(a: nat, b: nat, c: nat, d: nat)
    ensures Times(Times(a, b), Times(c, d)) == Times(Times(a, c), Times(b, d))
  {
    TimesTimes(Times(a, b), c, d);
    SwapLast(a, b, c);
    TimesTimes(Times(a, c), b, d);
  }

  lemma {:induction false} InProducts(a: nat, b: nat, c: nat, x: nat, y: nat, z: nat)
    requires Times(a, b) + c == Times(x, y) + z
    ensures a * b + c == x * y + z
  {
    TimesIsProduct(a, b);
    TimesIsProduct(x, y);
  }

  lemma {:induction false} MulMonoInt(a: int, b: int, c: nat)
    requires a <= b
    ensures a * c <= b * c && (a - 1) * c == a * c - c
  {
  }

  lemma {:induction false} QuotientBelow(x: nat, b: nat)
    requires b > 0 && x < b * b
    ensures x / b < b && x == x / b * b + x % b
  {
    if x / b >= b { MulMonoInt(b, x / b, b); }
  }

  lemma {:induction false} Negate(a: int, b: int)
    ensures (0 - a) * b == 0 - a * b
  {
  }
}
