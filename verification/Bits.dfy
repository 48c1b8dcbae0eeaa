/** Bitwise operations of unsigned machine words, as functions on natural numbers. */
module Bits {

  function Pow2(k: nat): (p: nat)
    ensures p > 0
  {
    if k == 0 then 1 else 2 * Pow2(k - 1)
  }

  /** Bitwise AND, one binary digit at a time. */
  function And(a: nat, b: nat): nat
  {
    if a == 0 then 0 else (if a % 2 == 1 && b % 2 == 1 then 1 else 0) + 2 * And(a / 2, b / 2)
  }

  /** Bitwise OR, one binary digit at a time. */
  function Or(a: nat, b: nat): nat
    decreases a + b
  {
    if a == 0 && b == 0 then 0
    else (if a % 2 == 1 || b % 2 == 1 then 1 else 0) + 2 * Or(a / 2, b / 2)
  }

  lemma MulNonneg(x: int, y: int)
    requires x >= 0 && y >= 0
    ensures x * y >= 0
  {}

  lemma MulStep(d: int, a: int, b: int)
    requires d > 0 && a < b
    ensures d * a + d <= d * b
  {
    MulNonneg(d, b - a - 1);
    assert d * b == d * a + d + d * (b - a - 1);
  }

  /** Quotient and remainder are determined by the division equation. */
  lemma DivModUnique(v: int, d: int, q: int, r: int)
    requires d > 0 && 0 <= r < d && v == d * q + r
    ensures v / d == q && v % d == r
  {
    var q' := v / d;
    if q < q' {
      MulStep(d, q, q');
    } else if q' < q {
      MulStep(d, q', q);
    }
  }

  /** Dividing by 2d is dividing by 2, then by d. */
  lemma DivStep(v: nat, d: nat)
    requires d > 0
    ensures v / (2 * d) == v / 2 / d
    ensures v % (2 * d) == v % 2 + 2 * (v / 2 % d)
  {
    var h := v / 2;
    assert h == d * (h / d) + h % d;
    assert (2 * d) * (h / d) == 2 * (d * (h / d));
    DivModUnique(v, 2 * d, h / d, v % 2 + 2 * (h % d));
  }

  lemma {:induction false} AndZero(v: nat)
    ensures And(v, 0) == 0
  {
    if v != 0 { AndZero(v / 2); }
  }

  /** ANDing with k one bits is the remainder by 2^k. */
  lemma {:induction false} AndLowMask(v: nat, k: nat, d: nat)
    requires d == Pow2(k)
    ensures And(v, d - 1) == v % d
    decreases k
  {
    if k == 0 {
      AndZero(v);
    } else {
      var h := Pow2(k - 1);
      AndLowMask(v / 2, k - 1, h);
      DivStep(v, h);
      assert (2 * h - 1) / 2 == h - 1;
    }
  }

  lemma MulTwice(h: int, m: int)
    ensures (2 * h) * m == 2 * (h * m)
  {}

  /** A mask shifted left k places selects from the word q, which is v shifted right k places. */
  lemma {:induction false} AndShiftedMask(v: nat, m: nat, k: nat, d: nat, mask: nat, q: nat)
    requires d == Pow2(k) && mask == d * m && q == v / d
    ensures And(v, mask) == d * And(q, m)
    decreases k
  {
    if k > 0 {
      var h := Pow2(k - 1);
      MulTwice(h, m);
      MulNonneg(h, m);
      DivStep(v, h);
      AndShiftedMask(v / 2, m, k - 1, h, h * m, q);
      MulTwice(h, And(q, m));
    }
  }

  /** ANDing with j one bits shifted left k places reads the j-bit field at place k. */
  lemma AndField(v: nat, k: nat, d: nat, j: nat, e: nat, mask: nat, q: nat)
    requires d == Pow2(k) && e == Pow2(j) && mask == d * (e - 1) && q == v / d
    ensures And(v, mask) == d * (q % e)
  {
    AndShiftedMask(v, e - 1, k, d, mask, q);
    AndLowMask(q, j, e);
  }

  lemma {:induction false} OrZero(v: nat)
    ensures Or(v, 0) == v && Or(0, v) == v
  {
    if v != 0 { OrZero(v / 2); }
  }

  lemma OrStep(a: nat, b: nat)
    ensures Or(a, b) == (if a % 2 == 1 || b % 2 == 1 then 1 else 0) + 2 * Or(a / 2, b / 2)
  {}

  /** ORing in one bit adds it unless it is already there. */
  lemma {:induction false} OrBit(v: nat, k: nat, d: nat)
    requires d == Pow2(k)
    ensures Or(v, d) == if v / d % 2 == 1 then v else v + d
    decreases k
  {
    hide Or;
    OrStep(v, d);
    if k == 0 {
      OrZero(v / 2);
      assert v / d == v;
    } else {
      DivStep(v, Pow2(k - 1));
      OrBit(v / 2, k - 1, Pow2(k - 1));
    }
  }

  /** ORing a multiple of 2^k with a number below 2^k adds them. */
  lemma {:induction false} OrDisjoint(hi: nat, top: nat, lo: nat, k: nat, d: nat)
    requires d == Pow2(k) && lo < d && top == d * hi
    ensures Or(top, lo) == top + lo
    decreases k
  {
    hide Or;
    if k == 0 {
      OrZero(hi);
    } else {
      var h := Pow2(k - 1);
      MulTwice(h, hi);
      MulNonneg(h, hi);
      OrDisjoint(hi, h * hi, lo / 2, k - 1, h);
      OrStep(top, lo);
      assert top / 2 == h * hi;
    }
  }

  /** ORing a w-bit number into a field of zero bits adds it. */
  lemma {:induction false} OrField(v: nat, m: nat, placed: nat, k: nat, d: nat, w: nat, e: nat)
    requires d == Pow2(k) && e == Pow2(w) && m < e && placed == d * m
    requires v / d % e == 0
    ensures Or(v, placed) == v + placed
    decreases k
  {
    hide Or;
    if k == 0 {
      assert v / d == v;
      assert v == e * (v / e);
      DivNonneg(v, e);
      OrDisjoint(v / e, v, m, w, e);
    } else {
      var h := Pow2(k - 1);
      MulTwice(h, m);
      MulNonneg(h, m);
      DivStep(v, h);
      OrField(v / 2, m, h * m, k - 1, h, w, e);
      OrStep(v, placed);
      assert placed / 2 == h * m;
    }
  }

  lemma DivNonneg(v: nat, e: nat)
    requires e > 0
    ensures v / e >= 0
  {}
}
