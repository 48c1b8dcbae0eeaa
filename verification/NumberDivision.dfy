/** Division in two stages, with a sticky remainder since the fix, and rounding to an integer. */
module NumberDivision {
  import opened Decimal
  import opened NumberModel
  import opened NumberGuard
  import opened NumberRounding
  import opened NumberLanding
  import opened NumberNormalize
  import opened NumberArithmetic
  import opened NumberTruncation

  const FACTOR: nat := 100_000_000_000_000_000
  const CORRECTION: nat := 100_000

  function DivMod(n: nat, d: nat): (r: (nat, nat))
    requires d > 0
    ensures n == r.0 * d + r.1 && r.1 < d
  {
    QuotientNonneg(n, d);
    (n / d, n % d)
  }

  lemma QuotientNonneg(n: nat, d: nat)
    requires d > 0
    ensures n / d >= 0 && n == (n / d) * d + n % d
  {}

  ghost function Ratio(n: nat, d: nat): real
    requires d > 0
  {
    n as real / d as real
  }

  /** The quotient is the integer part of the ratio and the remainder is what is left of it. */
  lemma RatioParts(n: nat, d: nat, q: nat, r: nat)
    requires d > 0 && n == q * d + r && r < d
    ensures Ratio(n, d) == q as real + Ratio(r, d)
    ensures 0.0 <= Ratio(r, d) < 1.0 && (Ratio(r, d) == 0.0 <==> r == 0)
  {
    var p := q * d;
    assert p as real == q as real * d as real;
    SplitFraction(q as real, r as real, d as real);
    SmallFraction(r as real, d as real);
  }

  lemma SplitFraction(q: real, r: real, d: real)
    requires d > 0.0
    ensures (q * d + r) / d == q + r / d
  {}

  lemma SmallFraction(r: real, d: real)
    requires 0.0 <= r < d
    ensures 0.0 <= r / d < 1.0 && (r / d == 0.0 <==> r == 0.0)
  {
    var z := r / d;
    assert z * d == r;
    if z >= 1.0 { MulLe(1.0, z, d); }
    if z < 0.0 { MulLt(z, 0.0, d); }
  }

  lemma RatioScaled(n: nat, d: nat)
    requires d > 0
    ensures Ratio(CORRECTION * n, d) == 100000.0 * Ratio(n, d)
  {
    assert (CORRECTION * n) as real == 100000.0 * n as real;
    ScaledFraction(n as real, d as real);
  }

  lemma ScaledFraction(r: real, d: real)
    requires d > 0.0
    ensures (100000.0 * r) / d == 100000.0 * (r / d)
  {}

  // ---- The exact quotient as a magnitude ----

  lemma QuotientUnique(n: real, d: real, z: real)
    requires d > 0.0 && z * d == n
    ensures n / d == z
  {}

  lemma RatioTimes(n: nat, d: nat)
    requires d > 0
    ensures Ratio(n, d) * d as real == n as real
  {}

  lemma ExactQuotient(x: Number, y: Number, scale: Scale)
    requires IsNormal(y, scale) && y != ZERO
    ensures y.mantissa > 0 && Magnitude(y) > 0.0
    ensures Magnitude(x) / Magnitude(y) == Mag(Ratio(x.mantissa * FACTOR, y.mantissa), x.exponent - y.exponent - 17)
  {
    var n, d := x.mantissa * FACTOR, y.mantissa;
    var e := x.exponent - y.exponent - 17;
    MagnitudeSign(y);
    hide Mag, Ratio;
    RatioTimes(n, d);
    MagProduct(Ratio(n, d), e, d as real, y.exponent, n as real);
    FactorIsPower();
    MagShiftMany(x.mantissa as real, x.exponent, 17, FACTOR as real);
    assert n as real == x.mantissa as real * FACTOR as real;
    MagOrder(n as real, x.mantissa as real * FACTOR as real, x.exponent - 17);
    assert e + y.exponent == x.exponent - 17;
    QuotientUnique(Magnitude(x), Magnitude(y), Mag(Ratio(n, d), e));
  }

  lemma FactorIsPower()
    ensures TenTo(17) == FACTOR
  {
    assert TenTo(17) == 10 * TenTo(16);
    assert TenTo(8) == 100_000_000;
  }

  // ---- operator/= ----

  const TEN_16: nat := 10_000_000_000_000_000
  const TEN_18: nat := 1_000_000_000_000_000_000

  /** The first quotient has seventeen or eighteen digits. */
  lemma FirstQuotient(nm: nat, dm: nat, q: nat, rem: nat, scale: Scale)
    requires MinMantissa(scale) <= nm <= MaxMantissa(scale) && MinMantissa(scale) <= dm <= MaxMantissa(scale)
    requires nm * FACTOR == q * dm + rem && rem < dm
    ensures TEN_16 <= q < TEN_18
  {
    if q < TEN_16 {
      MulBounds(q + 1, TEN_16, dm, dm);
    }
    if q >= TEN_18 {
      MulBounds(TEN_18, q, dm, dm);
    }
  }

  /** The second stage: five more digits from the remainder of the first. */
  method SecondStage(first: nat, rem: nat, dm: nat, ghost ratio: real)
    returns (zm: nat, shift: nat, rest: nat, ghost q: real)
    requires 0 < rem < dm && TEN_16 <= first < TEN_18 && ratio == first as real + Ratio(rem, dm)
    ensures (shift == 0 || shift == 5) && q == TenTo(shift) as real * ratio
    ensures TEN_16 <= zm < TWO_128 && zm as real <= q < zm as real + 1.0 && (rest != 0 <==> q > zm as real)
    ensures if shift == 5 then zm >= TEN_16 * CORRECTION else q - zm as real < 0.00001
  {
    var partial := rem * CORRECTION;
    var (correction, left) := DivMod(partial, dm);
    rest := left;
    RatioParts(partial, dm, correction, rest);
    RatioParts(rem, dm, 0, rem);
    RatioScaled(rem, dm);
    hide DivMod, Ratio;
    assert TenTo(0) == 1 && TenTo(5) == CORRECTION;
    zm, shift, q := first, 0, ratio;
    if correction != 0 {
      CorrectionFits(rem, dm, correction, rest);
      zm, shift, q := zm * CORRECTION + correction, 5, 100000.0 * ratio;
    } else {
      NothingLost(correction, dm);
    }
  }

  /** The digits of the quotient of two mantissas: 10^17 times it, and 10^5 times more if that does not come
      out even. q is the exact quotient, scaled in the same way; before the fix its remainder is not reported. */
  method QuotientDigits(nm: nat, dm: nat, scale: Scale) returns (zm: nat, shift: nat, dropped: bool, ghost q: real)
    requires MinMantissa(scale) <= nm <= MaxMantissa(scale) && MinMantissa(scale) <= dm <= MaxMantissa(scale)
    ensures TEN_16 <= zm < TWO_128 && q == TenTo(shift) as real * Ratio(nm * FACTOR, dm)
    ensures zm as real <= q < zm as real + 1.0 && (shift == 0 || shift == 5) && (scale.Small? ==> shift == 0)
    ensures shift == 5 ==> zm >= TEN_16 * CORRECTION
    ensures shift == 0 && !scale.Small? ==> q - zm as real < 0.00001
    ensures Behind(zm, dropped, if scale.Large? then q else zm as real, scale)
  {
    var num := nm * FACTOR;
    var (first, rem) := DivMod(num, dm);
    FirstQuotient(nm, dm, first, rem, scale);
    RatioParts(num, dm, first, rem);
    hide DivMod, Ratio;
    assert TenTo(0) == 1;
    zm, shift, dropped, q := first, 0, false, Ratio(num, dm);
    if !scale.Small? && rem != 0 {
      var rest;
      zm, shift, rest, q := SecondStage(first, rem, dm, q);
      if scale.Large? {
        dropped := rest != 0;
      }
    }
  }

  lemma CorrectionFits(rem: nat, dm: nat, correction: nat, rest: nat)
    requires rem < dm && rem * CORRECTION == correction * dm + rest
    ensures correction < CORRECTION
  {
    if correction >= CORRECTION { MulBounds(CORRECTION, correction, dm, dm); }
  }

  lemma NothingLost(correction: nat, dm: nat)
    requires correction == 0
    ensures correction * dm == 0
  {
  }

  lemma ScaledQuotient(ratio: real, e: int, shift: nat, scaled: real)
    requires scaled == TenTo(shift) as real * ratio
    ensures Mag(scaled, e - shift) == Mag(ratio, e)
  {
    hide Mag;
    var p := TenTo(shift) as real;
    MagShiftMany(ratio, e, shift, p);
    MagOrder(scaled, ratio * p, e - shift);
  }

  /** The exponent below which the older scales cut the quotient off. */
  function LastPlace(e: int, scale: Scale): int {
    if scale.Small? then e else e - 5
  }

  /** What division promises about the exact quotient x. The large scale rounds x itself; the older ones round
      what is left of it when it is cut off below 10^e. */
  ghost predicate QuotientRounded(mode: RoundingMode, negative: bool, x: real, e: int, scale: Scale, r: Outcome) {
    if scale.Large? then Normalized(mode, negative, x, scale, r)
    else
      && (exists q :: CutAt(x, q, e))
      && (forall q | CutAt(x, q, e) :: RoundedCut(mode, negative, x, Mag(q as real, e), scale, r))
  }

  method DivideMantissas(mode: RoundingMode, negative: bool, nm: nat, dm: nat, e: int, scale: Scale)
    returns (r: Outcome)
    requires MinMantissa(scale) <= nm <= MaxMantissa(scale) && MinMantissa(scale) <= dm <= MaxMantissa(scale)
    ensures QuotientRounded(mode, negative, Mag(Ratio(nm * FACTOR, dm), e), LastPlace(e, scale), scale, r)
  {
    hide Mag, Ratio, Normalized, Behind, TenTo, RoundedCut;
    ghost var q: real;
    var zm, shift, dropped;
    zm, shift, dropped, q := QuotientDigits(nm, dm, scale);
    ScaledQuotient(Ratio(nm * FACTOR, dm), e, shift, q);
    r := Normalize(mode, negative, zm, e - shift, scale, dropped, if scale.Large? then q else zm as real);
    if !scale.Large? {
      if scale.LargeLegacy? && shift == 0 {
        FiveMorePlaces(zm as real, e);
        FiveMorePlaces(q, e);
        CutRounds(mode, negative, CORRECTION * zm, 100000.0 * q, e - 5, scale, r);
      } else {
        CutRounds(mode, negative, zm, q, e - shift, scale, r);
      }
    }
  }

  lemma FiveMorePlaces(x: real, e: int)
    ensures Mag(100000.0 * x, e - 5) == Mag(x, e)
  {
    assert TenTo(5) == CORRECTION;
    MagShiftMany(x, e, 5, 100000.0);
    hide Mag;
    MagOrder(100000.0 * x, x * 100000.0, e - 5);
  }

  lemma CutRounds(mode: RoundingMode, negative: bool, q: nat, y: real, e: int, scale: Scale, r: Outcome)
    requires !scale.Large? && q as real <= y < q as real + 1.0
    requires q > if scale.Small? then Cap(scale) else 10 * Cap(scale) + 9
    requires Normalized(mode, negative, Mag(q as real, e), scale, r)
    ensures QuotientRounded(mode, negative, Mag(y, e), e, scale, r)
  {
    var x := Mag(y, e);
    CutQuotient(q, y, e);
    var m, f, fx, h := CutDown(q, 0.0, y - q as real, e, scale);
    CutJudged(mode, negative, x, Mag(q as real, e), m, f, fx, h, scale, r);
    hide Mag, Normalized, RoundedCut;
    assert CutAt(x, q, e);
    forall k | CutAt(x, k, e) ensures RoundedCut(mode, negative, x, Mag(k as real, e), scale, r) {
      CutUnique(x, q, k, e);
    }
  }

  lemma CutUnique(x: real, q: nat, k: nat, e: int)
    requires CutAt(x, q, e) && CutAt(x, k, e)
    ensures q == k
  {
    MagOrder(q as real, k as real + 1.0, e);
    MagOrder(k as real, q as real + 1.0, e);
    hide Mag;
  }

  /** operator/=: when it rounds the exact quotient correctly. */
  method Divide(mode: RoundingMode, x: Number, y: Number, scale: Scale) returns (r: Outcome)
    requires IsNormal(x, scale) && IsNormal(y, scale)
    ensures y == ZERO ==> r == Overflow
    ensures y != ZERO && x == ZERO ==> r == Ok(ZERO)
    ensures x != ZERO && y != ZERO ==> Magnitude(y) > 0.0
    ensures x != ZERO && y != ZERO ==>
      QuotientRounded(mode, x.negative != y.negative, Magnitude(x) / Magnitude(y),
                      LastPlace(x.exponent - y.exponent - 17, scale), scale, r)
  {
    if y == ZERO {
      return Overflow;
    }
    if x == ZERO {
      return Ok(x);
    }
    hide Mag, Ratio, Magnitude, QuotientRounded;
    ExactQuotient(x, y, scale);
    r := DivideMantissas(mode, x.negative != y.negative, x.mantissa, y.mantissa, x.exponent - y.exponent - 17, scale);
  }

  lemma CutQuotient(zm: nat, q: real, e: int)
    requires zm as real <= q < zm as real + 1.0
    ensures Mag(zm as real, e) <= Mag(q, e) < Mag(zm as real + 1.0, e)
  {
    hide Mag;
    MagOrder(zm as real, q, e);
    MagOrder(q, zm as real + 1.0, e);
  }

  /** 10^15 / (10^15 + 1), rounded upward in the small scale, comes out below the exact quotient. */
  lemma QuotientExample(x: Number, y: Number, r: Outcome)
    requires x == Number(false, 1_000_000_000_000_000, 0) && y == Number(false, 1_000_000_000_000_001, 0)
    requires Magnitude(y) > 0.0 && QuotientRounded(Upward, false, Magnitude(x) / Magnitude(y), -17, Small, r)
    ensures r.Ok? && Magnitude(r.n) < Magnitude(x) / Magnitude(y)
  {
    var n, d, q := x.mantissa * FACTOR, y.mantissa, 99_999_999_999_999_900;
    var ratio := Ratio(n, d);
    ExactQuotient(x, y, Small);
    assert n == q * d + 100;
    RatioParts(n, d, q, 100);
    hide Ratio, Normalized;
    CutQuotient(q, ratio, -17);
    MagOrder(q as real, ratio, -17);
    assert CutAt(Magnitude(x) / Magnitude(y), q, -17);
    ExampleLands(q, r);
  }

  lemma ExampleLands(q: nat, r: Outcome)
    requires q == 99_999_999_999_999_900 && Normalized(Upward, false, Mag(q as real, -17), Small, r)
    ensures r.Ok? && Magnitude(r.n) == Mag(q as real, -17)
  {
    var m := 9_999_999_999_999_990;
    MagShift(q as real, -17);
    BelowLeastIff(m, 0.0, -16, Small);
    OverflowsWhen(Upward, false, m, 0.0, -16, Small);
    assert SettledAt(Mag(q as real, -17), m, 0.0, -16, Small);
    hide Mag, Correct, Misrounds, Least, Overflows;
  }

  // ---- operator rep ----

  datatype IntOutcome = IntOverflow | IntOk(v: int)

  /** The integer that x rounds to. */
  ghost predicate RoundsToInteger(mode: RoundingMode, negative: bool, x: real, v: int) {
    x >= 0.0 &&
    var k := x.Floor;
    (if negative then -v else v) == if RoundsAway(mode, negative, k, x - k as real) then k + 1 else k
  }

  /** What that is, mode by mode, for the signed value y. */
  lemma RoundsToIntegerIff(mode: RoundingMode, negative: bool, x: real, v: int)
    requires x >= 0.0
    ensures var y, w := if negative then -x else x, v as real;
            RoundsToInteger(mode, negative, x, v) <==>
              match mode
              case Downward => w <= y < w + 1.0
              case Upward => w - 1.0 < y <= w
              case TowardsZero => if negative then w - 1.0 < y <= w else w <= y < w + 1.0
              case ToNearest => -0.5 < y - w < 0.5 || ((y - w == 0.5 || w - y == 0.5) && v % 2 == 0)
  {
    var k := x.Floor;
    var f := x - k as real;
    assert 0.0 <= f < 1.0;
    var a := if negative then -v else v;
    assert a as real == if negative then -(v as real) else v as real;
    assert a % 2 == 0 <==> v % 2 == 0;
    if a < k { assert (a + 1) as real <= k as real; }
    if a > k + 1 { assert a as real >= (k + 2) as real; }
  }

  method DropFraction(g: Guard, drops: nat, offset: int) returns (m: nat, e: int, ghost f: real)
    requires drops <= MAX_REP && g.Tracks(0.0)
    modifies g
    ensures e == (if offset < 0 then 0 else offset) && g.Tracks(f) && g.sbit == old(g.sbit)
    ensures m <= MAX_REP && Mag(m as real + f, e) == Mag(drops as real, offset)
    ensures f > 0.0 ==> m < MAX_REP
    ensures offset >= 0 ==> m == drops && f == 0.0
  {
    m, e, f := drops, offset, 0.0;
    hide Mag;
    while e < 0
      invariant e <= 0 || e == offset
      invariant g.Tracks(f) && g.sbit == old(g.sbit) && m <= MAX_REP
      invariant Mag(m as real + f, e) == Mag(drops as real, offset)
      invariant f > 0.0 ==> m < MAX_REP
      invariant offset >= 0 ==> m == drops && f == 0.0 && e == offset
    {
      MagShift(m as real + f, e);
      ghost var f1 := Dropped(m, f);
      m, e := g.DropDigit(m, e, f);
      f := f1;
    }
  }

  /** Multiply by ten until the exponent is used up, unless the result would leave 63 bits. */
  method Expand(drops: nat, offset: int) returns (m: nat, ok: bool)
    requires drops <= MAX_REP && offset >= 0
    ensures ok ==> m <= MAX_REP && Mag(m as real, 0) == Mag(drops as real, offset)
    ensures !ok ==> Mag(drops as real, offset) > MAX_REP as real
    ensures offset == 0 ==> ok && m == drops
  {
    m := drops;
    var e := offset;
    hide Mag;
    while e > 0
      invariant 0 <= e <= offset && m <= MAX_REP
      invariant Mag(m as real, e) == Mag(drops as real, offset)
      invariant e == offset ==> m == drops
    {
      MagShift(m as real, e);
      if m > MAX_REP / 10 {
        TooManyDigits(m, e);
        return m, false;
      }
      m, e := m * 10, e - 1;
    }
    return m, true;
  }

  lemma TooManyDigits(m: nat, e: int)
    requires m > MAX_REP / 10 && e > 0
    ensures Mag(m as real, e) > MAX_REP as real
  {
    MagFar(m as real, 0, e);
    MagOrder(10.0 * m as real, MAX_REP as real, 0);
    UnitMag(MAX_REP as real);
  }

  lemma UnitMag(x: real)
    ensures Mag(x, 0) == x
  {
    Pow10Zero();
  }

  /** The conversion to a 64-bit integer rounds the exact value, and fails exactly when it exceeds 63 bits. */
  method ToRep(mode: RoundingMode, n: Number, scale: Scale) returns (r: IntOutcome)
    requires IsNormal(n, scale)
    ensures r.IntOverflow? <==> Magnitude(n) > MAX_REP as real
    ensures r.IntOk? ==> RoundsToInteger(mode, n.negative, Magnitude(n), r.v)
  {
    ExternalMagnitude(n, scale);
    hide Mag, Magnitude;
    var drops: nat, offset := if n.negative then -Mantissa(n) else Mantissa(n), Exponent(n);
    if drops == 0 {
      ZeroIsInteger(mode, n.negative, Exponent(n));
      return IntOk(0);
    }
    var g := new Guard(n.negative, false);
    ghost var f: real;
    var m;
    m, offset, f := DropFraction(g, drops, offset);
    var whole, ok := Expand(m, offset);
    if !ok {
      return IntOverflow;
    }
    UnitMag(whole as real + f);
    r := DoRound(g, mode, n.negative, whole, f);
  }

  /** Guard::doRound: its own overflow test never fires here. */
  method DoRound(g: Guard, mode: RoundingMode, negative: bool, drops: nat, ghost f: real) returns (r: IntOutcome)
    requires g.Tracks(f) && g.sbit == negative && drops <= MAX_REP && (f > 0.0 ==> drops < MAX_REP)
    ensures r.IntOk? && RoundsToInteger(mode, negative, drops as real + f, r.v)
  {
    g.RoundIsExact(mode, drops, f);
    FloorOf(drops, f);
    var round := g.Round(mode);
    var v: int := drops;
    if round == 1 || (round == 0 && v % 2 == 1) {
      if v >= MAX_REP {
        return IntOverflow;
      }
      v := v + 1;
    }
    return IntOk(if negative then -v else v);
  }

  lemma FloorOf(k: nat, f: real)
    requires 0.0 <= f < 1.0
    ensures (k as real + f).Floor == k
  {
  }

  lemma ExternalMagnitude(n: Number, scale: Scale)
    requires IsNormal(n, scale)
    ensures 0 <= (if n.negative then -Mantissa(n) else Mantissa(n)) <= MAX_REP
    ensures Magnitude(n) == Mag((if n.negative then -Mantissa(n) else Mantissa(n)) as real, Exponent(n))
  {
    if n.mantissa > MAX_REP {
      assert n.mantissa as real / 10.0 == (n.mantissa / 10) as real;
      MagShift(n.mantissa as real, n.exponent);
    }
  }

  lemma ZeroIsInteger(mode: RoundingMode, negative: bool, e: int)
    ensures Mag(0.0, e) == 0.0 && RoundsToInteger(mode, negative, 0.0, 0)
  {
  }
}
