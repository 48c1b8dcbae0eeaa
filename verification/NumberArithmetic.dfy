/** Multiplication, and the way in which addition and multiplication end. */
module NumberArithmetic {
  import opened Decimal
  import opened NumberModel
  import opened NumberGuard
  import opened NumberRounding
  import opened NumberLanding
  import opened NumberNormalize

  // ---- Normalizing a number that is already normal ----

  lemma NormalRoundsToItself(n: Number, dir: Direction, k: Number, scale: Scale)
    requires IsNormal(n, scale) && Correct(dir, Magnitude(n), k, scale)
    ensures Magnitude(k) == Magnitude(n)
  {
    hide Magnitude, IsNormal, Even;
    if dir.Nearest? {
      assert AsNear(k, n, Magnitude(n));
    }
  }

  /** A normal number above the cap at the largest exponent is an overflow; any other is left as it is. */
  lemma NormalizeIsIdentity(mode: RoundingMode, n: Number, scale: Scale, r: Outcome)
    requires IsNormal(n, scale) && n != ZERO && Normalized(mode, n.negative, Magnitude(n), scale, r)
    ensures r == if n.mantissa > Cap(scale) && n.exponent == MAX_EXPONENT then Overflow else Ok(n)
  {
    NormalSize(n, scale);
    NormalNotInCusp(n, DirectionOf(mode, n.negative), scale);
    NormalOverflows(mode, n, scale);
    hide Magnitude, Overflows, Correct, InCusp, Mag, Lands, Least;
    if r.Ok? {
      NormalRoundsToItself(n, DirectionOf(mode, n.negative), r.n, scale);
      MagnitudeOrder(n, r.n, scale);
    }
  }

  /** Against the cap at the largest exponent. */
  lemma NormalAgainstCap(n: Number, scale: Scale)
    requires IsNormal(n, scale) && n != ZERO
    ensures n.mantissa > Cap(scale) && n.exponent == MAX_EXPONENT ==>
      Magnitude(n) >= Mag(Turn(scale) as real, MAX_EXPONENT)
    ensures !(n.mantissa > Cap(scale) && n.exponent == MAX_EXPONENT) ==>
      Magnitude(n) <= Mag(Cap(scale) as real, MAX_EXPONENT)
  {
    var m, cap := n.mantissa as real, Cap(scale) as real;
    hide Mag;
    if n.exponent == MAX_EXPONENT {
      MagOrder(m, cap, MAX_EXPONENT);
      MagOrder(m, Turn(scale) as real, MAX_EXPONENT);
    } else {
      MagShift(m, MAX_EXPONENT - 1);
      MagGrows(m, n.exponent, MAX_EXPONENT - 1);
      MagOrder(m / 10.0, cap, MAX_EXPONENT);
    }
  }

  lemma NormalOverflows(mode: RoundingMode, n: Number, scale: Scale)
    requires IsNormal(n, scale) && n != ZERO
    ensures Overflows(mode, n.negative, Magnitude(n), scale) <==>
      n.mantissa > Cap(scale) && n.exponent == MAX_EXPONENT
  {
    var cap := Cap(scale) as real;
    NormalAgainstCap(n, scale);
    MagOrder(cap, cap + 0.5, MAX_EXPONENT);
    MagOrder(cap, cap + 1.0, MAX_EXPONENT);
    MagOrder(cap + 1.0, Turn(scale) as real, MAX_EXPONENT);
    hide Mag, Magnitude;
  }

  // ---- The common end of addition and multiplication ----

  /** The last magnitude below the least normal number to which an operation rounds before it flushes. */
  ghost function Below(scale: Scale): real {
    if scale.Small? then Mag(Cap(scale) as real, MIN_EXPONENT - 1)
    else Mag((MinMantissa(scale) - 1) as real, MIN_EXPONENT)
  }

  /** Rounding comes before flushing, so that some magnitudes below the least normal number rise to it. */
  ghost predicate Rises(dir: Direction, x: real, scale: Scale) {
    match dir
    case Zeroward => false
    case Awayward => x > Below(scale)
    case Nearest => 2.0 * x >= Below(scale) + Least(scale)
  }

  ghost predicate RoundedOverflows(dir: Direction, x: real, scale: Scale) {
    var cap := Cap(scale) as real;
    || x >= Mag(Turn(scale) as real, MAX_EXPONENT)
    || (!dir.Zeroward? && x >= Mag(cap + 1.0, MAX_EXPONENT))
    || (dir.Awayward? && !scale.LargeLegacy? && x > Mag(cap, MAX_EXPONENT))
    || (dir.Nearest? && !scale.LargeLegacy? && x >= Mag(cap + 0.5, MAX_EXPONENT))
  }

  /** Where such an operation does not give the correct rounding. */
  ghost predicate RoundingMisses(dir: Direction, x: real, scale: Scale) {
    if x < Least(scale) then Flushed(dir, x, scale) && !Rises(dir, x, scale) else InCusp(dir, x, scale)
  }

  /** What an operation promises about the exact magnitude x of its result, when its guard has the given sign:
      which outcome, and whether it is correct. */
  ghost predicate Rounded(mode: RoundingMode, sign: bool, negative: bool, x: real, scale: Scale, r: Outcome) {
    var dir := DirectionOf(mode, sign);
    && (r.Overflow? <==> RoundedOverflows(dir, x, scale))
    && (r == Ok(ZERO) <==> x < Least(scale) && !Rises(dir, x, scale))
    && (r.Ok? && r.n != ZERO ==> r.n.negative == negative && Lands(mode, sign, x, scale, r.n))
    && (r.Ok? ==>
          && IsNormal(r.n, scale)
          && (Correct(dir, x, r.n, scale) <==> !RoundingMisses(dir, x, scale)))
  }

  /** Too large for normalization to keep. */
  predicate TooLarge(w: nat, l: int, scale: Scale) {
    var e := PackedExponent(w, l, scale);
    e > MAX_EXPONENT || (e == MAX_EXPONENT && Cap(scale) / 10 < w < MinMantissa(scale))
  }

  lemma TooLargeIff(mode: RoundingMode, sign: bool, m: nat, f: real, e: int, scale: Scale)
    requires Settled(m, f, scale)
    ensures var (w, l) := Landed(mode, sign, m, f, e, scale);
            TooLarge(w, l, scale) <==> RoundedOverflows(DirectionOf(mode, sign), Mag(m as real + f, e), scale)
  {
    var x, cap, turn := m as real + f, Cap(scale) as real, Turn(scale) as real;
    hide Mag;
    MagOrder(cap, cap + 0.5, MAX_EXPONENT);
    MagOrder(cap, cap + 1.0, MAX_EXPONENT);
    MagOrder(cap + 1.0, turn, MAX_EXPONENT);
    if e > MAX_EXPONENT + 1 {
      MagFar(x, MAX_EXPONENT + 1, e);
      MagShift(10.0 * x, MAX_EXPONENT + 1);
      MagOrder(100.0 * x, turn, MAX_EXPONENT);
    } else if e == MAX_EXPONENT + 1 {
      MagShift(x, e);
      MagOrder(10.0 * x, turn, MAX_EXPONENT);
      MagOrder(10.0 * x, cap + 1.0, MAX_EXPONENT);
    } else if e == MAX_EXPONENT {
      MagOrder(x, turn, e);
      MagOrder(x, cap + 1.0, e);
      MagOrder(x, cap, e);
      MagOrder(x, cap + 0.5, e);
    } else {
      MagShift(cap + 1.0, MAX_EXPONENT - 1);
      MagGrows(x, e, MAX_EXPONENT - 1);
      MagOrder(x, cap + 1.0, MAX_EXPONENT - 1);
      MagOrder((cap + 1.0) / 10.0, cap, MAX_EXPONENT);
    }
  }

  lemma RisesIff(mode: RoundingMode, sign: bool, m: nat, f: real, e: int, scale: Scale)
    requires Settled(m, f, scale)
    ensures var (w, l) := Landed(mode, sign, m, f, e, scale);
            var x := Mag(m as real + f, e);
            PackedExponent(w, l, scale) < MIN_EXPONENT <==>
            x < Least(scale) && !Rises(DirectionOf(mode, sign), x, scale)
  {
    BelowLeastIff(m, f, e, scale);
    if e < MIN_EXPONENT || (e == MIN_EXPONENT && m < MinMantissa(scale)) {
      RisesWhen(mode, sign, m, f, e, scale);
      hide Mag, Rises, Least;
    }
  }

  lemma RisesWhen(mode: RoundingMode, sign: bool, m: nat, f: real, e: int, scale: Scale)
    requires Settled(m, f, scale) && (e < MIN_EXPONENT || (e == MIN_EXPONENT && m < MinMantissa(scale)))
    ensures Rises(DirectionOf(mode, sign), Mag(m as real + f, e), scale) <==>
      RoundsAway(mode, sign, m, f) &&
      (if scale.Small? then m == Cap(scale) && e == MIN_EXPONENT - 1
       else m == MinMantissa(scale) - 1 && e == MIN_EXPONENT)
  {
    var x, g := m as real + f, if scale.Small? then MIN_EXPONENT - 1 else MIN_EXPONENT;
    var below := if scale.Small? then Cap(scale) as real else (MinMantissa(scale) - 1) as real;
    LeastAt(scale);
    hide Mag, Least;
    MagPlus(below, below + 1.0, g);
    MagPlus(x, x, g);
    MagOrder(x, below, g);
    MagOrder(2.0 * x, 2.0 * below + 1.0, g);
    MagOrder(below, below + 1.0, g);
    if e < g {
      MagShift(Cap(scale) as real + 1.0, g - 1);
      MagGrows(x, e, g - 1);
      MagOrder(x, Cap(scale) as real + 1.0, g - 1);
      MagOrder((Cap(scale) as real + 1.0) / 10.0, below, g);
    }
  }

  lemma LeastAt(scale: Scale)
    ensures scale.Small? ==> Least(scale) == Mag(Cap(scale) as real + 1.0, MIN_EXPONENT - 1)
    ensures !scale.Small? ==> Least(scale) == Mag((MinMantissa(scale) - 1) as real + 1.0, MIN_EXPONENT)
  {
    MagShift(MinMantissa(scale) as real, MIN_EXPONENT);
  }

  lemma MagPlus(x: real, y: real, e: int)
    ensures Mag(x, e) + Mag(y, e) == Mag(x + y, e)
  {}

  /** Guard::doRoundUp followed by normalize, as addition and multiplication end. */
  method RoundAndNormalize(g: Guard, mode: RoundingMode, negative: bool, m: nat, e: int, scale: Scale, ghost f: real)
    returns (r: Outcome)
    requires g.Tracks(f) && Settled(m, f, scale)
    modifies g
    ensures Rounded(mode, old(g.sbit), negative, Mag(m as real + f, e), scale, r)
  {
    ghost var sign := g.sbit;
    hide Landed, Packs, Mag, Rounded, Normalized, Magnitude;
    r := DoRoundUp(g, mode, negative, m, e, scale, f);
    if r.Ok? && r.n != ZERO {
      var n := r.n;
      WholeMantissa(n.mantissa, scale);
      r := Normalize(mode, n.negative, n.mantissa, n.exponent, scale, false, n.mantissa as real);
      MagnitudeIs(n);
      PackedRounds(mode, sign, negative, m, f, e, scale, Ok(n), r);
    } else {
      PackedRounds(mode, sign, negative, m, f, e, scale, r, r);
    }
  }

  /** The packed outcome, once more normalized, is as promised. */
  lemma PackedRounds(mode: RoundingMode, sign: bool, negative: bool, m: nat, f: real, e: int, scale: Scale,
                     p: Outcome, r: Outcome)
    requires Settled(m, f, scale)
    requires var (w, l) := Landed(mode, sign, m, f, e, scale); Packs(p, negative, w, l, scale)
    requires p.Overflow? || p == Ok(ZERO) ==> r == p
    requires p.Ok? && p.n != ZERO ==> Normalized(mode, p.n.negative, Magnitude(p.n), scale, r)
    ensures Rounded(mode, sign, negative, Mag(m as real + f, e), scale, r)
  {
    var (w, l) := Landed(mode, sign, m, f, e, scale);
    TooLargeIff(mode, sign, m, f, e, scale);
    RisesIff(mode, sign, m, f, e, scale);
    LandedRange(mode, sign, m, f, e, scale);
    FullSizePacked(w, l, scale);
    BelowLeastIff(m, f, e, scale);
    var x := Mag(m as real + f, e);
    var dir := DirectionOf(mode, sign);
    MagNonneg(m as real + f, e);
    if p == Ok(ZERO) {
      ZeroIsRightIff(dir, x, scale);
    } else if p.Ok? {
      PackedIsCorrect(mode, sign, negative, m, f, e, scale, p);
      LandsThere(mode, sign, m, f, e, scale, p.n);
      NormalizeIsIdentity(mode, p.n, scale, r);
      PackedLarge(p, negative, w, l, scale);
      RisesNotInCusp(mode, sign, m, f, e, scale);
    }
    hide Mag, Landed, Correct, InCusp, Settled, Magnitude, Normalized, Lands, Least, Rises, RoundedOverflows, Flushed,
         IsNormal;
  }

  lemma PackedLarge(p: Outcome, negative: bool, w: nat, l: int, scale: Scale)
    requires (Cap(scale) + 1) / 10 <= w <= Cap(scale) && Packs(p, negative, w, l, scale) && p.Ok? && p.n != ZERO
    ensures TooLarge(w, l, scale) <==> p.n.mantissa > Cap(scale) && p.n.exponent == MAX_EXPONENT
  {
    var k := Number(false, if w < MinMantissa(scale) then 10 * w else w, PackedExponent(w, l, scale));
    MagShift(w as real, l);
    MagnitudeOrder(p.n, k, scale);
  }

  /** What rises to the least normal number is not in the cusp, and rising is then right. */
  lemma RisesNotInCusp(mode: RoundingMode, sign: bool, m: nat, f: real, e: int, scale: Scale)
    requires Settled(m, f, scale)
    ensures var x, dir := Mag(m as real + f, e), DirectionOf(mode, sign);
            x < Least(scale) && Rises(dir, x, scale) ==> !InCusp(dir, x, scale)
  {
    var x, dir := Mag(m as real + f, e), DirectionOf(mode, sign);
    BelowLeastIff(m, f, e, scale);
    CuspIff(dir, m, f, e, scale);
    if x < Least(scale) {
      RisesWhen(mode, sign, m, f, e, scale);
    }
    hide Mag, Least, Rises, InCusp;
  }

  lemma WholeMantissa(m: nat, scale: Scale)
    ensures Behind(m, false, m as real, scale)
  {
  }

  lemma MagnitudeIs(n: Number)
    ensures Magnitude(n) == Mag(n.mantissa as real, n.exponent)
  {
  }

  lemma DropSettles(m: nat, f: real, scale: Scale)
    requires m > Cap(scale) && m / 10 <= Cap(scale) && 0.0 <= f < 1.0
    ensures Settled(m / 10, Dropped(m, f), scale)
  {
  }

  // ---- Multiplication ----

  lemma Pow10Zero()
    ensures Pow10(0) == 1.0
  {}

  lemma {:induction false} Pow10Sum(a: int, b: int)
    ensures Pow10(a + b) == Pow10(a) * Pow10(b)
    decreases if b < 0 then -b else b
  {
    hide Pow10;
    if b == 0 {
      Pow10Zero();
    } else {
      var c := if b > 0 then b - 1 else b + 1;
      Pow10Sum(a, c);
      var low := if b > 0 then c else b;
      Pow10Step(a + low);
      Pow10Step(low);
      if b > 0 {
        TenfoldProduct(Pow10(a), Pow10(c), Pow10(a + c), Pow10(b), Pow10(a + b));
      } else {
        TenthProduct(Pow10(a), Pow10(c), Pow10(a + c), Pow10(b), Pow10(a + b));
      }
    }
  }

  lemma TenfoldProduct(p: real, q: real, s: real, q': real, s': real)
    requires s == p * q && q' == 10.0 * q && s' == 10.0 * s
    ensures s' == p * q'
  {}

  lemma TenthProduct(p: real, q: real, s: real, q': real, s': real)
    requires s == p * q && q == 10.0 * q' && s == 10.0 * s'
    ensures s' == p * q'
  {}

  lemma Regroup(x: real, p: real, y: real, q: real, s: real)
    requires s == p * q
    ensures (x * p) * (y * q) == (x * y) * s
  {
    assert (x * p) * (y * q) == x * (p * (y * q));
    assert p * (y * q) == y * (p * q);
    assert x * (y * (p * q)) == (x * y) * (p * q);
  }

  lemma MagProduct(x: real, a: int, y: real, b: int, z: real)
    requires z == x * y
    ensures Mag(x, a) * Mag(y, b) == Mag(z, a + b)
  {
    hide Pow10;
    Pow10Sum(a, b);
    Regroup(x, Pow10(a), y, Pow10(b), Pow10(a + b));
  }

  /** The 128-bit product of two mantissas. */
  function Product(a: nat, b: nat): nat {
    NonnegProduct(a, b);
    a * b
  }

  lemma ProductFits(x: Number, y: Number, scale: Scale)
    requires IsNormal(x, scale) && IsNormal(y, scale) && x != ZERO && y != ZERO
    ensures Cap(scale) < Product(x.mantissa, y.mantissa) < TWO_128
  {
    var min, max := MinMantissa(scale), MaxMantissa(scale);
    MulBounds(min, x.mantissa, min, y.mantissa);
    MulBounds(x.mantissa, max, y.mantissa, max);
  }

  lemma ProductIsExact(x: Number, y: Number)
    ensures Magnitude(x) * Magnitude(y) == Mag(Product(x.mantissa, y.mantissa) as real, x.exponent + y.exponent)
  {
    hide Mag;
    RealProduct(x.mantissa, y.mantissa);
    MagProduct(x.mantissa as real, x.exponent, y.mantissa as real, y.exponent,
               Product(x.mantissa, y.mantissa) as real);
  }

  lemma RealProduct(a: nat, b: nat)
    ensures Product(a, b) as real == a as real * b as real
  {}

  lemma MulBounds(a: nat, b: nat, c: nat, d: nat)
    requires a <= b && c <= d
    ensures a * c <= b * d
  {
    assert b * d == a * c + (b - a) * c + b * (d - c);
    NonnegProduct(b - a, c);
    NonnegProduct(b, d - c);
  }

  lemma NonnegProduct(a: int, b: int)
    requires a >= 0 && b >= 0
    ensures a * b >= 0
  {}

  /** operator*= rounds the exact product. */
  method Multiply(mode: RoundingMode, x: Number, y: Number, scale: Scale) returns (r: Outcome)
    requires IsNormal(x, scale) && IsNormal(y, scale)
    ensures x == ZERO || y == ZERO ==> r == Ok(ZERO)
    ensures x != ZERO && y != ZERO ==>
      Rounded(mode, x.negative != y.negative, x.negative != y.negative, Magnitude(x) * Magnitude(y), scale, r)
  {
    if x == ZERO {
      return Ok(x);
    }
    if y == ZERO {
      return Ok(y);
    }
    hide Rounded, Mag, Magnitude, Product;
    ProductFits(x, y, scale);
    ProductIsExact(x, y);
    var zm := Product(x.mantissa, y.mantissa);
    r := RoundProduct(mode, x.negative != y.negative, zm, x.exponent + y.exponent, scale);
  }

  method RoundProduct(mode: RoundingMode, negative: bool, mantissa: nat, exponent: int, scale: Scale)
    returns (r: Outcome)
    requires Cap(scale) < mantissa < TWO_128
    ensures Rounded(mode, negative, negative, Mag(mantissa as real, exponent), scale, r)
  {
    hide Rounded, Mag, Settled;
    var zm: nat, ze := mantissa, exponent;
    var g := new Guard(negative, false);
    ghost var f := 0.0;
    while zm > MaxMantissa(scale) || zm > MAX_REP
      invariant zm < TWO_128 && g.Tracks(f) && g.sbit == negative
      invariant zm <= Cap(scale) ==> Settled(zm, f, scale)
      invariant Mag(zm as real + f, ze) == Mag(mantissa as real, exponent)
      decreases zm
    {
      MagShift(zm as real + f, ze);
      if zm / 10 <= Cap(scale) { DropSettles(zm, f, scale); }
      ghost var f1 := Dropped(zm, f);
      zm, ze := g.DropDigit(zm, ze, f);
      f := f1;
    }
    r := RoundAndNormalize(g, mode, negative, zm, ze, scale, f);
  }
}
