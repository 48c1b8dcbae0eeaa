/** The decimal floating point type: its comparisons and its external view. */
module NumberModel {
  import opened Decimal
  import opened Wrappers

  const MAX_REP: int := 9_223_372_036_854_775_807
  const MIN_EXPONENT: int := -32768
  const MAX_EXPONENT: int := 32768
  const INT_LOWEST: int := -2_147_483_648

  datatype Scale = Small | LargeLegacy | Large

  function MinMantissa(scale: Scale): nat {
    if scale.Small? then 1_000_000_000_000_000 else 1_000_000_000_000_000_000
  }

  function MaxMantissa(scale: Scale): nat {
    MinMantissa(scale) * 10 - 1
  }

  datatype Number = Number(negative: bool, mantissa: nat, exponent: int)

  const ZERO: Number := Number(false, 0, INT_LOWEST)

  /** The mantissa has the number of digits of the scale. */
  predicate InRange(n: Number, scale: Scale) {
    MinMantissa(scale) <= n.mantissa <= MaxMantissa(scale)
  }

  predicate IsNormal(n: Number, scale: Scale) {
    || n == ZERO
    || (&& InRange(n, scale)
        && (n.mantissa <= MAX_REP || n.mantissa % 10 == 0)
        && MIN_EXPONENT <= n.exponent <= MAX_EXPONENT)
  }

  ghost function Magnitude(n: Number): real {
    Mag(n.mantissa as real, n.exponent)
  }

  ghost function Value(n: Number): real {
    if n.negative then -Magnitude(n) else Magnitude(n)
  }

  // ---- Comparison ----

  predicate Less(l: Number, r: Number) {
    if l.negative != r.negative then l.negative
    else if l.mantissa == 0 then r.mantissa > 0
    else if r.mantissa == 0 then false
    else if l.exponent > r.exponent then l.negative
    else if l.exponent < r.exponent then !l.negative
    else if l.negative then l.mantissa > r.mantissa
    else l.mantissa < r.mantissa
  }

  /** Within one range the larger exponent wins. */
  lemma LargerExponent(l: Number, r: Number, scale: Scale)
    requires InRange(l, scale) && InRange(r, scale)
    requires l.exponent < r.exponent
    ensures Magnitude(l) < Magnitude(r)
  {
    var lm, rm := l.mantissa as real, r.mantissa as real;
    MagFar(rm, l.exponent, r.exponent);
    MagOrder(lm, 10.0 * rm, l.exponent);
  }

  lemma MagnitudeSign(n: Number)
    ensures n.mantissa > 0 ==> Magnitude(n) > 0.0
    ensures n.mantissa == 0 ==> Magnitude(n) == 0.0
  {
    if n.mantissa > 0 {
      MulLt(0.0, n.mantissa as real, Pow10(n.exponent));
    }
  }

  lemma MagnitudeOrder(l: Number, r: Number, scale: Scale)
    requires InRange(l, scale) && InRange(r, scale)
    ensures Magnitude(l) < Magnitude(r) <==>
      l.exponent < r.exponent || (l.exponent == r.exponent && l.mantissa < r.mantissa)
    ensures Magnitude(l) == Magnitude(r) <==> l.exponent == r.exponent && l.mantissa == r.mantissa
  {
    if l.exponent < r.exponent {
      LargerExponent(l, r, scale);
    } else if r.exponent < l.exponent {
      LargerExponent(r, l, scale);
    } else {
      MagOrder(l.mantissa as real, r.mantissa as real, l.exponent);
    }
  }

  /** operator< is the order of the values. */
  lemma LessIsOrder(l: Number, r: Number, scale: Scale)
    requires IsNormal(l, scale) && IsNormal(r, scale)
    ensures Less(l, r) <==> Value(l) < Value(r)
  {
    MagnitudeSign(l);
    MagnitudeSign(r);
    hide Magnitude;
    if l != ZERO && r != ZERO {
      MagnitudeOrder(l, r, scale);
      MagnitudeOrder(r, l, scale);
    }
  }

  /** operator== compares the parts, and on normal numbers that compares the values. */
  lemma EqualIsSameValue(l: Number, r: Number, scale: Scale)
    requires IsNormal(l, scale) && IsNormal(r, scale)
    ensures l == r <==> Value(l) == Value(r)
  {
    MagnitudeSign(l);
    MagnitudeSign(r);
    hide Magnitude;
    if l != ZERO && r != ZERO {
      MagnitudeOrder(l, r, scale);
    }
  }

  // ---- External view ----

  function Mantissa(n: Number): int {
    var m := if n.mantissa > MAX_REP then n.mantissa / 10 else n.mantissa;
    if n.negative then -m else m
  }

  function Exponent(n: Number): int {
    if n.mantissa > MAX_REP then n.exponent + 1 else n.exponent
  }

  /** mantissa() and exponent() show the same value, in 63 bits, and lose nothing. */
  lemma ExternalView(n: Number, scale: Scale)
    requires IsNormal(n, scale)
    ensures Mag(Mantissa(n) as real, Exponent(n)) == Value(n)
    ensures -MAX_REP <= Mantissa(n) <= MAX_REP
  {
    var m := if n.mantissa > MAX_REP then n.mantissa / 10 else n.mantissa;
    if n.mantissa > MAX_REP {
      assert n.mantissa as real / 10.0 == m as real;
      MagShift(n.mantissa as real, n.exponent);
    }
    NegatedMag(m as real, Exponent(n));
  }

  lemma NegatedMag(x: real, e: int)
    ensures Mag(-x, e) == -Mag(x, e)
  {}

  // ---- Powers of ten ----

  lemma {:induction false} TenToInjective(j: nat, k: nat)
    ensures TenTo(j) == TenTo(k) <==> j == k
    decreases j
  {
    if j > 0 && k > 0 { TenToInjective(j - 1, k - 1); }
  }

  /** logTen finds the exponent of exactly the powers of ten. */
  method LogTen(value: int) returns (log: Option<nat>)
    ensures forall k: nat :: log == Some(k) <==> value == TenTo(k)
  {
    var v, count: nat := value, 0;
    while v >= 10 && v % 10 == 0
      invariant forall k: nat :: value == TenTo(k) <==> k >= count && v == TenTo(k - count)
      decreases v
    {
      ghost var was := v;
      v := v / 10;
      count := count + 1;
      forall k: nat ensures value == TenTo(k) <==> k >= count && v == TenTo(k - count) {
        if k >= count { assert TenTo(k - count + 1) == 10 * TenTo(k - count); }
      }
    }
    forall k: nat ensures value == TenTo(k) <==> k == count && v == 1 {
      if k > count { assert TenTo(k - count) == 10 * TenTo(k - count - 1); }
      if k == count { assert TenTo(k - count) == 1; }
    }
    return if v == 1 then Some(count) else None;
  }

  // ---- What can be represented ----

  lemma TenTimesAgain(m: nat, p: nat)
    ensures m * (10 * p) == 10 * m * p
  {}

  lemma {:induction false} Widen(m: nat, k: nat, e: int, scale: Scale) returns (n: Number)
    requires 0 < m <= MaxMantissa(scale) && (m <= MAX_REP || m % 10 == 0)
    requires m * TenTo(k) >= MinMantissa(scale) && MIN_EXPONENT + k <= e <= MAX_EXPONENT
    ensures IsNormal(n, scale) && !n.negative && Magnitude(n) == Mag(m as real, e)
    decreases k
  {
    if m >= MinMantissa(scale) {
      n := Number(false, m, e);
    } else {
      TenTimesAgain(m, TenTo(k - 1));
      MagShift(m as real, e);
      n := Widen(10 * m, k - 1, e - 1, scale);
    }
  }

  /** Every 64-bit integer is exact in the large scales, and every integer of sixteen digits in the small one. */
  lemma ExactIntegers(m: nat, scale: Scale) returns (n: Number)
    requires m <= if scale.Small? then 9_999_999_999_999_999 else 9_223_372_036_854_775_807
    ensures IsNormal(n, scale) && Value(n) == m as real
  {
    MagZero(m as real);
    if m == 0 {
      n := ZERO;
    } else {
      EighteenPlaces();
      n := Widen(m, 18, 0, scale);
    }
  }

  lemma EighteenPlaces()
    ensures TenTo(18) == 1_000_000_000_000_000_000
  {
    assert TenTo(6) == 1_000_000;
    assert TenTo(12) == 1_000_000_000_000;
  }

  lemma MagZero(x: real)
    ensures Mag(x, 0) == x
  {}

  /** The least and the greatest normal number that is not zero. */
  lemma RangeEnds(n: Number, scale: Scale)
    requires IsNormal(n, scale) && n != ZERO
    ensures var min := if scale.Small? then 1_000_000_000_000_000 else 1_000_000_000_000_000_000;
            var least := Number(false, min, -32768);
            IsNormal(least, scale) && Magnitude(least) <= Magnitude(n)
    ensures var max := if scale.Small? then 9_999_999_999_999_999 else 9_999_999_999_999_999_990;
            var most := Number(false, max, 32768);
            IsNormal(most, scale) && Magnitude(n) <= Magnitude(most)
  {
    var min, max := MinMantissa(scale), if scale.Small? then 9_999_999_999_999_999 else 9_999_999_999_999_999_990;
    assert min <= n.mantissa <= max;
    MagOrder(min as real, n.mantissa as real, -32768);
    MagOrder(n.mantissa as real, max as real, 32768);
    MagGrows(n.mantissa as real, -32768, n.exponent);
    MagGrows(n.mantissa as real, n.exponent, 32768);
  }
}
