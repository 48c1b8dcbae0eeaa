/** Powers of ten with any integer exponent, and decimal magnitudes. */
module Decimal {

  ghost function Pow10(e: int): (p: real)
    ensures p > 0.0
    decreases if e < 0 then -e else e
  {
    if e == 0 then 1.0 else if e > 0 then 10.0 * Pow10(e - 1) else Pow10(e + 1) / 10.0
  }

  lemma Pow10Step(e: int)
    ensures Pow10(e + 1) == 10.0 * Pow10(e)
  {}

  lemma {:induction false} Pow10Far(e: int, f: int)
    requires e < f
    ensures Pow10(f) >= 10.0 * Pow10(e)
    decreases f - e
  {
    Pow10Step(f - 1);
    if e < f - 1 {
      Pow10Far(e, f - 1);
    }
  }

  lemma MulLe(a: real, b: real, c: real)
    requires a <= b && c >= 0.0
    ensures a * c <= b * c
  {}

  lemma MulLt(a: real, b: real, c: real)
    requires a < b && c > 0.0
    ensures a * c < b * c
  {}

  /** The magnitude x * 10^e. */
  ghost function Mag(x: real, e: int): real {
    x * Pow10(e)
  }

  /** On one exponent magnitudes order as their mantissas do. */
  lemma MagOrder(x: real, y: real, e: int)
    ensures Mag(x, e) < Mag(y, e) <==> x < y
    ensures Mag(x, e) == Mag(y, e) <==> x == y
  {
    if x < y { MulLt(x, y, Pow10(e)); }
    if y < x { MulLt(y, x, Pow10(e)); }
  }

  /** Moving the decimal point. */
  lemma MagShift(x: real, e: int)
    ensures Mag(x / 10.0, e + 1) == Mag(x, e) && Mag(10.0 * x, e - 1) == Mag(x, e)
  {
    Pow10Step(e);
    Pow10Step(e - 1);
    MulTen(x, Pow10(e));
    MulTen(x, Pow10(e - 1));
  }

  lemma MulTen(x: real, p: real)
    ensures (x / 10.0) * (10.0 * p) == x * p && (10.0 * x) * p == x * (10.0 * p)
  {}

  /** A magnitude at a larger exponent is at least ten times its mantissa here. */
  lemma MagFar(x: real, e: int, f: int)
    requires e < f && x >= 0.0
    ensures Mag(x, f) >= Mag(10.0 * x, e)
  {
    Pow10Far(e, f);
    MulTen(x, Pow10(e));
    MulLeRight(x, 10.0 * Pow10(e), Pow10(f));
  }

  lemma MulLeRight(c: real, a: real, b: real)
    requires a <= b && c >= 0.0
    ensures c * a <= c * b
  {}

  lemma MagGrows(x: real, e: int, f: int)
    requires e <= f && x >= 0.0
    ensures Mag(x, e) <= Mag(x, f)
  {
    if e < f {
      Pow10Far(e, f);
      MulLeRight(x, Pow10(e), Pow10(f));
    }
  }

  function TenTo(k: nat): (p: nat)
    ensures p > 0
  {
    if k == 0 then 1 else 10 * TenTo(k - 1)
  }

  lemma {:induction false} MagShiftMany(x: real, e: int, k: nat, p: real)
    requires p == TenTo(k) as real
    ensures Mag(x * p, e - k) == Mag(x, e)
    decreases k
  {
    hide Mag;
    if k == 0 {
      assert x * p == x;
      MagOrder(x * p, x, e);
    } else {
      var q := TenTo(k - 1) as real;
      var y := x * q;
      MagShiftMany(x, e, k - 1, q);
      MagShift(y, e - k + 1);
      TenTimes(x, q);
      MagOrder(x * p, 10.0 * y, e - k);
    }
  }

  lemma TenTimes(x: real, p: real)
    ensures 10.0 * (x * p) == x * (10.0 * p)
  {}
}
