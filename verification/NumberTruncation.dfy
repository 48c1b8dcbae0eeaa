/** Rounding a magnitude that was cut off below its last digit, and when that rounds the magnitude itself. */
module NumberTruncation {
  import opened Decimal
  import opened NumberModel
  import opened NumberGuard
  import opened NumberRounding
  import opened NumberLanding
  import opened NumberNormalize
  import opened NumberArithmetic

  /** q is what is left of x when it is cut off below 10^e. */
  ghost predicate CutAt(x: real, q: nat, e: int) {
    Mag(q as real, e) <= x < Mag(q as real + 1.0, e)
  }

  /** t is exactly half way between an even mantissa and the next. */
  ghost predicate Halfway(t: real, p: nat, g: int, scale: Scale) {
    p % 2 == 0 && Working(p, scale) && p < Cap(scale) && t == Mag(p as real + 0.5, g)
  }

  /** What was cut off decides: behind an exact result when rounding away from zero, and behind an exact half
      that goes down to nearest. */
  ghost predicate LosesRemainder(dir: Direction, x: real, t: real, scale: Scale) {
    && x > t >= Least(scale)
    && match dir
       case Zeroward => false
       case Awayward => exists n :: IsNormal(n, scale) && Magnitude(n) == t
       case Nearest => exists p, g :: Halfway(t, p, g, scale)
  }

  /** Dropping digits from two magnitudes with the same integer part. */
  lemma {:induction false} CutDown(q: nat, f: real, fx: real, e: int, scale: Scale)
    returns (m: nat, t: real, tx: real, h: int)
    requires q > Cap(scale) && 0.0 <= f <= fx < 1.0
    requires !scale.Small? ==> q / 10 > Cap(scale) || (f < 0.5 <==> fx < 0.5)
    ensures Settled(m, t, scale) && Settled(m, tx, scale) && t <= tx && (t < tx <==> f < fx)
    ensures Mag(m as real + t, h) == Mag(q as real + f, e) && Mag(m as real + tx, h) == Mag(q as real + fx, e)
    ensures (t < 0.5 <==> tx < 0.5) && (!scale.Small? ==> (t < 0.85 <==> tx < 0.85))
    decreases q
  {
    var d, df, dx := q % 10, Dropped(q, f), Dropped(q, fx);
    assert (q / 10) as real + df == (q as real + f) / 10.0 && (q / 10) as real + dx == (q as real + fx) / 10.0 by {
      assert q as real == 10.0 * (q / 10) as real + d as real;
    }
    MagShift(q as real + f, e);
    MagShift(q as real + fx, e);
    DigitDecides(d, f, fx);
    hide Mag;
    if q / 10 <= Cap(scale) {
      DropSettles(q, f, scale);
      DropSettles(q, fx, scale);
      m, t, tx, h := q / 10, df, dx, e + 1;
    } else {
      m, t, tx, h := CutDown(q / 10, df, dx, e + 1, scale);
    }
  }

  lemma DigitDecides(d: nat, f: real, fx: real)
    requires d < 10 && 0.0 <= f <= fx < 1.0
    ensures var a, b := (d as real + f) / 10.0, (d as real + fx) / 10.0;
            && 0.0 <= a <= b < 1.0 && (a < b <==> f < fx) && (a < 0.5 <==> b < 0.5)
            && ((f < 0.5 <==> fx < 0.5) ==> (a < 0.85 <==> b < 0.85))
  {
    if d < 5 { assert d as real <= 4.0; } else { assert d as real >= 5.0; }
    if d < 8 { assert d as real <= 7.0; }
    if d > 8 { assert d as real >= 9.0; }
  }

  lemma NormalHasNoFraction(n: Number, x: real, m: nat, f: real, e: int, scale: Scale)
    requires IsNormal(n, scale) && Magnitude(n) == x && x > 0.0 && SettledAt(x, m, f, e, scale)
    ensures f == 0.0
  {
    MagnitudeSign(n);
    var w, g := WorkingForm(n, scale);
    assert SettledAt(x, w, 0.0, g, scale);
    SettledUnique(x, m, f, e, w, 0.0, g, scale);
  }

  /** The settled forms of a magnitude and of what is left of it. */
  ghost predicate CutForms(x: real, t: real, m: nat, f: real, fx: real, e: int, scale: Scale) {
    && SettledAt(t, m, f, e, scale) && SettledAt(x, m, fx, e, scale) && f <= fx
    && (f < 0.5 <==> fx < 0.5) && (!scale.Small? ==> (f < 0.85 <==> fx < 0.85))
  }

  /** The two are rounded differently exactly when the remainder decides. */
  lemma LosesRemainderIff(mode: RoundingMode, negative: bool, x: real, t: real, m: nat, f: real, fx: real, e: int,
                          scale: Scale, n: Number)
    requires CutForms(x, t, m, f, fx, e, scale) && t >= Least(scale)
    requires IsNormal(n, scale) && Magnitude(n) == LandedMagnitude(mode, negative, m, f, e, scale)
    ensures LosesRemainder(DirectionOf(mode, negative), x, t, scale) <==>
            RoundsAway(mode, negative, m, f) != RoundsAway(mode, negative, m, fx)
  {
    var dir := DirectionOf(mode, negative);
    LeastPositive(scale);
    MagOrder(m as real + f, m as real + fx, e);
    if LosesRemainder(dir, x, t, scale) {
      if dir.Awayward? {
        var k :| IsNormal(k, scale) && Magnitude(k) == t;
        NormalHasNoFraction(k, t, m, f, e, scale);
      } else {
        var p, g :| Halfway(t, p, g, scale);
        assert SettledAt(t, p, 0.5, g, scale);
        SettledUnique(t, m, f, e, p, 0.5, g, scale);
      }
    }
    if RoundsAway(mode, negative, m, f) != RoundsAway(mode, negative, m, fx) {
      if dir.Awayward? {
        assert Magnitude(n) == t;
      } else {
        assert Halfway(t, m, e, scale);
      }
    }
  }

  lemma LeastPositive(scale: Scale)
    ensures Least(scale) > 0.0
  {
    MulLt(0.0, MinMantissa(scale) as real, Pow10(MIN_EXPONENT));
  }

  lemma ExponentOf(n: Number, w: nat, l: int, scale: Scale)
    requires IsNormal(n, scale) && n != ZERO && Magnitude(n) == Mag(w as real, l)
    requires (Cap(scale) + 1) / 10 <= w <= Cap(scale)
    ensures n.exponent == PackedExponent(w, l, scale)
  {
    var k := Number(false, if w < MinMantissa(scale) then 10 * w else w, PackedExponent(w, l, scale));
    MagShift(w as real, l);
    MagnitudeOrder(n, k, scale);
  }

  /** Rounded alike, the result is correct outside the cusp and only there. */
  lemma RoundedAlike(mode: RoundingMode, negative: bool, m: nat, f: real, fx: real, e: int, scale: Scale, n: Number)
    requires Settled(m, f, scale) && Settled(m, fx, scale)
    requires RoundsAway(mode, negative, m, f) == RoundsAway(mode, negative, m, fx)
    requires IsNormal(n, scale) && n != ZERO && Magnitude(n) == LandedMagnitude(mode, negative, m, f, e, scale)
    ensures Correct(DirectionOf(mode, negative), Mag(m as real + fx, e), n, scale) <==>
            !InCusp(DirectionOf(mode, negative), Mag(m as real + fx, e), scale)
  {
    assert LandedMagnitude(mode, negative, m, f, e, scale) == LandedMagnitude(mode, negative, m, fx, e, scale);
    var (w, l) := Landed(mode, negative, m, fx, e, scale);
    LandedRange(mode, negative, m, fx, e, scale);
    ExponentOf(n, w, l, scale);
    hide Correct, InCusp, Settled, MisroundedAt, Mag, Magnitude, RoundsAway, Cap;
    LandsRightIff(mode, negative, m, fx, e, n, scale);
  }

  /** Rounded down where the remainder says up, the result is not correct. */
  lemma RoundedShort(mode: RoundingMode, negative: bool, m: nat, f: real, fx: real, e: int, scale: Scale, n: Number)
    requires Settled(m, f, scale) && Settled(m, fx, scale) && f <= fx && (f < 0.5 <==> fx < 0.5)
    requires RoundsAway(mode, negative, m, f) != RoundsAway(mode, negative, m, fx)
    requires IsNormal(n, scale) && n != ZERO && Magnitude(n) == LandedMagnitude(mode, negative, m, f, e, scale)
    ensures !Correct(DirectionOf(mode, negative), Mag(m as real + fx, e), n, scale)
  {
    var x := m as real + fx;
    assert !RoundsAway(mode, negative, m, f) && fx > 0.0;
    MagOrder(m as real, x, e);
    if mode.ToNearest? {
      var b := WorkingNumber(m + 1, e, scale);
      ExponentOf(n, m, e, scale);
      WorkingNumberIs(m + 1, e, scale);
      MagDistances(x, m as real, (m + 1) as real, e);
      MagOrder(x, (m + 1) as real, e);
      hide Mag, Magnitude, IsNormal, Even;
      assert !AsNear(n, b, Mag(x, e));
    }
  }

  /** What rounding the cut-off magnitude t promises about x itself. */
  ghost predicate RoundedCut(mode: RoundingMode, negative: bool, x: real, t: real, scale: Scale, r: Outcome) {
    var dir := DirectionOf(mode, negative);
    && Normalized(mode, negative, t, scale, r)
    && (r.Ok? ==>
          (Correct(dir, x, r.n, scale) <==> !Misrounds(dir, x, scale) && !LosesRemainder(dir, x, t, scale)))
  }

  lemma CutJudged(mode: RoundingMode, negative: bool, x: real, t: real, m: nat, f: real, fx: real, e: int, scale: Scale,
                  r: Outcome)
    requires CutForms(x, t, m, f, fx, e, scale) && Normalized(mode, negative, t, scale, r)
    ensures RoundedCut(mode, negative, x, t, scale, r)
  {
    var dir := DirectionOf(mode, negative);
    BelowLeastIff(m, f, e, scale);
    BelowLeastIff(m, fx, e, scale);
    MagNonneg(m as real + fx, e);
    CuspIff(dir, m, f, e, scale);
    CuspIff(dir, m, fx, e, scale);
    if r.Ok? {
      if r.n == ZERO {
        ZeroIsRightIff(dir, x, scale);
      } else {
        LosesRemainderIff(mode, negative, x, t, m, f, fx, e, scale, r.n);
        if RoundsAway(mode, negative, m, f) == RoundsAway(mode, negative, m, fx) {
          RoundedAlike(mode, negative, m, f, fx, e, scale, r.n);
        } else {
          RoundedShort(mode, negative, m, f, fx, e, scale, r.n);
        }
      }
    }
    hide Correct, InCusp, Mag, Magnitude, Least, Lands, LosesRemainder, RoundsAway, Flushed, Settled, IsNormal,
         LandedMagnitude;
  }
}
