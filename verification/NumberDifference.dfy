/** The difference of two magnitudes: rounded first to a unit, then by normalization, and when that is correct. */
module NumberDifference {
  import opened Decimal
  import opened NumberModel
  import opened NumberGuard
  import opened NumberRounding
  import opened NumberLanding
  import opened NumberNormalize
  import opened NumberArithmetic

  // ---- The unit in which a difference is counted ----

  /** v is d units of 10^e less a fraction f of one. */
  ghost predicate Measures(v: real, e: int, d: nat, f: real) {
    0.0 <= f < 1.0 && v == Mag(d as real - f, e)
  }

  /** A difference of so many units is not scaled up any further. */
  predicate Stops(d: nat, scale: Scale) {
    d >= MinMantissa(scale) || 10 * d > MAX_REP
  }

  /** The largest unit, at most 10^top, in which v has enough digits. */
  ghost predicate IsUnit(v: real, top: int, e: int, d: nat, f: real, scale: Scale) {
    && Measures(v, e, d, f) && e <= top && Stops(d, scale)
    && forall g, k, t | e < g <= top && Measures(v, g, k, t) :: !Stops(k, scale)
  }

  lemma MeasuresUnique(v: real, e: int, d: nat, f: real, d': nat, f': real)
    requires Measures(v, e, d, f) && Measures(v, e, d', f')
    ensures d == d' && f == f'
  {
    MagOrder(d as real - f, d' as real - f', e);
  }

  lemma UnitUnique(v: real, top: int, e: int, d: nat, f: real, e': int, d': nat, f': real, scale: Scale)
    requires IsUnit(v, top, e, d, f, scale) && IsUnit(v, top, e', d', f', scale)
    ensures e == e' && d == d' && f == f'
  {
    if e == e' {
      MeasuresUnique(v, e, d, f, d', f');
    }
  }

  /** The difference in whole units: the guard carries the sign of the smaller operand. */
  ghost function UnitRounded(mode: RoundingMode, negative: bool, d: nat, f: real): nat
    requires d > 0
  {
    if RoundsAway(mode, !negative, d, f) then d - 1 else d
  }

  /** Whether d units less f, rounded first to a unit and then normalized, comes out correctly rounded. */
  ghost predicate DifferenceRight(mode: RoundingMode, negative: bool, v: real, d: nat, f: real, scale: Scale) {
    var dir := DirectionOf(mode, negative);
    if v < Least(scale) then !Flushed(dir, v, scale)
    else if d > Cap(scale) then TwiceRoundedRight(mode, dir, d, f, scale)
    else if f == 0.0 then true
    else if mode.TowardsZero? then false
    else if d > Cap(scale) / 10 + 1 then true
    else EdgeRight(dir, d, f, scale)
  }

  /** Just below the first mantissa of an exponent, where the numbers are ten times as dense. */
  ghost predicate EdgeRight(dir: Direction, d: nat, f: real, scale: Scale) {
    match dir
    case Zeroward => f > 0.9
    case Awayward => 10.0 * (d as real - f) > Cap(scale) as real
    case Nearest => 20.0 * f <= 10.0 * d as real - Cap(scale) as real || f >= 0.95
  }

  /** Above the cap, where normalization rounds the whole units once more. */
  ghost predicate TwiceRoundedRight(mode: RoundingMode, dir: Direction, d: nat, f: real, scale: Scale) {
    var x, cap := d as real - f, Cap(scale) as real;
    match mode
    case TowardsZero => d >= Turn(scale) && (f == 0.0 || d % 10 != 0)
    case ToNearest =>
      && !(cap + 0.5 <= x < cap + 1.5)
      && !(d % 10 == 5 && 0.0 < f < 0.5 && d / 10 % 2 == 1)
      && !(d % 10 == 6 && f > 0.5 && d / 10 % 2 == 0)
    case _ => dir.Awayward? || !(cap + 1.0 <= x < Turn(scale) as real)
  }

  // ---- Judging a result by its neighbours ----

  /** The neighbours of x at exponent g are normal numbers. */
  predicate HasNeighbours(p: nat, g: int, scale: Scale) {
    && Working(p, scale)
    && MIN_EXPONENT <= WorkingNumber(p, g, scale).exponent
    && (if p < Cap(scale) then WorkingNumber(p + 1, g, scale).exponent <= MAX_EXPONENT
        else WorkingNumber(Cap(scale) / 10 + 1, g + 1, scale).exponent <= MAX_EXPONENT)
  }

  lemma Judged(dir: Direction, x: real, p: nat, g: int, n: Number, r: real, scale: Scale)
    requires HasNeighbours(p, g, scale) && p as real <= x < NextUp(p, scale) as real
    requires IsNormal(n, scale) && Magnitude(n) == Mag(r, g)
    ensures Correct(dir, Mag(x, g), n, scale) <==>
      Chosen(dir, x, p as real, NextUp(p, scale) as real, p, NextWorking(p, scale), r)
  {
    var a := WorkingNumber(p, g, scale);
    var b := if p < Cap(scale) then WorkingNumber(p + 1, g, scale)
             else WorkingNumber(Cap(scale) / 10 + 1, g + 1, scale);
    var lo, hi, q := p as real, NextUp(p, scale) as real, NextWorking(p, scale);
    WorkingNumberIs(p, g, scale);
    UpperNumber(p, g, scale);
    NextIsNeighbour(p, g, scale);
    MagDistances(x, lo, hi, g);
    MantissasChoose(dir, x, lo, hi, p, q, r, g);
    hide Mag, Magnitude, IsNormal, Correct, Neighbours, ParityOf, Chosen, NextUp, NextWorking, Cap, WorkingNumber;
    if Chosen(dir, x, lo, hi, p, q, r) {
      RightNeighbour(dir, Mag(x, g), Mag(lo, g), Mag(hi, g), p, q, n, scale);
    }
    if Correct(dir, Mag(x, g), n, scale) {
      WrongNeighbour(dir, Mag(x, g), a, b, p, q, n, scale);
    }
  }

  lemma UpperNumber(p: nat, g: int, scale: Scale)
    requires HasNeighbours(p, g, scale)
    ensures var b := if p < Cap(scale) then WorkingNumber(p + 1, g, scale)
                     else WorkingNumber(Cap(scale) / 10 + 1, g + 1, scale);
            IsNormal(b, scale) && Magnitude(b) == Mag(NextUp(p, scale) as real, g)
  {
    if p < Cap(scale) {
      WorkingNumberIs(p + 1, g, scale);
    } else {
      WorkingNumberIs(Cap(scale) / 10 + 1, g + 1, scale);
      MagShift(Turn(scale) as real, g);
    }
  }

  // ---- What normalization makes of a whole number of units ----

  /** The result, counted in the same units. */
  ghost function FinalUnits(mode: RoundingMode, negative: bool, m: nat, scale: Scale): nat {
    if m <= Cap(scale) then m
    else if RoundsAway(mode, negative, m / 10, (m % 10) as real / 10.0) then 10 * (m / 10) + 10
    else 10 * (m / 10)
  }

  predicate InUnits(m: nat, scale: Scale) {
    Cap(scale) / 10 <= m && (m <= Cap(scale) || (!scale.Small? && m <= MaxMantissa(scale) - 9))
  }

  lemma UnitsLand(mode: RoundingMode, negative: bool, m: nat, e: int, scale: Scale, n: Number)
    requires InUnits(m, scale) && Lands(mode, negative, Mag(m as real, e), scale, n)
    ensures Magnitude(n) == Mag(FinalUnits(mode, negative, m, scale) as real, e)
  {
    var x := Mag(m as real, e);
    if m > Cap(scale) {
      var w, t := m / 10, (m % 10) as real / 10.0;
      assert w as real + t == m as real / 10.0;
      MagShift(m as real, e);
      assert SettledAt(x, w, t, e + 1, scale);
      LandedThere(mode, negative, w, t, e + 1, scale);
      MagShift(w as real, e + 1);
      MagShift((w + 1) as real, e + 1);
    } else if m > Cap(scale) / 10 {
      assert SettledAt(x, m, 0.0, e, scale);
    } else {
      MagShift(m as real, e);
      assert SettledAt(x, 10 * m, 0.0, e - 1, scale);
    }
  }

  lemma UnitsOverflow(mode: RoundingMode, negative: bool, m: nat, e: int, scale: Scale)
    requires InUnits(m, scale) && e <= MAX_EXPONENT
    ensures Overflows(mode, negative, Mag(m as real, e), scale) <==> e == MAX_EXPONENT && m > Cap(scale)
  {
    var x, cap := m as real, Cap(scale) as real;
    hide Mag;
    MagOrder(cap, cap + 0.5, MAX_EXPONENT);
    MagOrder(cap, cap + 1.0, MAX_EXPONENT);
    if e == MAX_EXPONENT {
      MagOrder(x, cap, e);
      MagOrder(x, cap + 1.0, e);
    } else {
      MagShift(x, MAX_EXPONENT - 1);
      MagGrows(x, e, MAX_EXPONENT - 1);
      MagOrder(x / 10.0, cap, MAX_EXPONENT);
    }
  }

  // ---- A difference that is a whole number of units ----

  lemma WholeAboveCap(mode: RoundingMode, negative: bool, d: nat, e: int, scale: Scale)
    requires InUnits(d, scale) && d > Cap(scale)
    ensures !InCusp(DirectionOf(mode, negative), Mag(d as real, e), scale) <==>
            TwiceRoundedRight(mode, DirectionOf(mode, negative), d, 0.0, scale)
  {
    var w, t := d / 10, (d % 10) as real / 10.0;
    assert w as real + t == d as real / 10.0;
    MagShift(d as real, e);
    CuspIff(DirectionOf(mode, negative), w, t, e + 1, scale);
    hide InCusp, Mag;
  }

  lemma WholeIsNormal(dir: Direction, d: nat, e: int, scale: Scale)
    requires Working(d, scale) && e <= MAX_EXPONENT && Mag(d as real, e) >= Least(scale)
    ensures !InCusp(dir, Mag(d as real, e), scale)
  {
    FullSizePacked(d, e, scale);
    WorkingNumberIs(d, e, scale);
    NormalNotInCusp(WorkingNumber(d, e, scale), dir, scale);
  }

  lemma WholeDifference(mode: RoundingMode, negative: bool, v: real, d: nat, e: int, scale: Scale)
    requires InUnits(d, scale) && d > Cap(scale) / 10 && e <= MAX_EXPONENT && v == Mag(d as real, e) && v > 0.0
    ensures !Misrounds(DirectionOf(mode, negative), v, scale) <==> DifferenceRight(mode, negative, v, d, 0.0, scale)
  {
    hide InCusp, Mag, Least, TwiceRoundedRight, Flushed;
    if v >= Least(scale) {
      if d > Cap(scale) {
        WholeAboveCap(mode, negative, d, e, scale);
      } else {
        WholeIsNormal(DirectionOf(mode, negative), d, e, scale);
      }
    }
  }

  // ---- A difference with a fraction ----

  lemma NotSmall(d: nat, f: real, e: int, scale: Scale)
    requires d > Cap(scale) / 10 && 0.0 <= f < 1.0 && e > MIN_EXPONENT
    ensures Mag(d as real - f, e) >= Least(scale) && Mag((d - 1) as real, e) >= Least(scale)
    ensures Mag(d as real, e) >= Least(scale)
  {
    var x, min := (d - 1) as real, MinMantissa(scale) as real;
    hide Mag;
    MagFar(x, MIN_EXPONENT, e);
    MagOrder(10.0 * x, min, MIN_EXPONENT);
    MagOrder(x, d as real - f, e);
    MagOrder(x, d as real, e);
  }

  /** Between two mantissas of the same exponent: right in every mode but towards zero. */
  lemma InnerChoice(mode: RoundingMode, negative: bool, d: nat, f: real, scale: Scale)
    requires Cap(scale) / 10 + 1 < d <= Cap(scale) && 0.0 < f < 1.0
    ensures var r := UnitRounded(mode, negative, d, f) as real;
            Chosen(DirectionOf(mode, negative), d as real - f, (d - 1) as real, d as real, d - 1, d, r) <==>
            !mode.TowardsZero?
  {
  }

  /** The neighbour below, one exponent down. */
  ghost function EdgeFloor(x: real, scale: Scale): int {
    if x >= Cap(scale) as real then Cap(scale) else x.Floor
  }

  lemma EdgeFloorIs(d: nat, f: real, x: real, scale: Scale)
    requires d == Cap(scale) / 10 + 1 && 0.0 < f < 1.0 && x == 10.0 * (d as real - f)
    ensures EdgeFloor(x, scale) >= 10 * (d - 1)
    ensures var p: nat := EdgeFloor(x, scale); Working(p, scale) && p as real <= x < NextUp(p, scale) as real
  {
  }

  lemma EdgeChoice(mode: RoundingMode, negative: bool, d: nat, f: real, x: real, p: nat, scale: Scale)
    requires d == Cap(scale) / 10 + 1 && 0.0 < f < 1.0 && x == 10.0 * (d as real - f)
    requires p == EdgeFloor(x, scale)
    ensures var dir, r := DirectionOf(mode, negative), 10.0 * UnitRounded(mode, negative, d, f) as real;
            Chosen(dir, x, p as real, NextUp(p, scale) as real, p, NextWorking(p, scale), r) <==>
            !mode.TowardsZero? && EdgeRight(dir, d, f, scale)
  {
    EdgeFloorIs(d, f, x, scale);
    if p < Cap(scale) {
      InsideEdge(mode, negative, d, f, x, p, scale);
    }
  }

  lemma InsideEdge(mode: RoundingMode, negative: bool, d: nat, f: real, x: real, p: nat, scale: Scale)
    requires d == Cap(scale) / 10 + 1 && 0.0 < f < 1.0 && x == 10.0 * (d as real - f)
    requires 10 * (d - 1) <= p < Cap(scale) && p as real <= x < (p + 1) as real
    ensures var dir, r := DirectionOf(mode, negative), 10.0 * UnitRounded(mode, negative, d, f) as real;
            Chosen(dir, x, p as real, (p + 1) as real, p, p + 1, r) <==>
            !mode.TowardsZero? && EdgeRight(dir, d, f, scale)
  {
  }

  /** In the gap above the cap. */
  lemma GapChoice(mode: RoundingMode, negative: bool, d: nat, f: real, scale: Scale)
    requires !scale.Small? && d > Cap(scale) && 0.0 < f < 1.0 && d as real - f < Turn(scale) as real
    ensures var dir, cap := DirectionOf(mode, negative), Cap(scale);
            var r := FinalUnits(mode, negative, UnitRounded(mode, negative, d, f), scale) as real;
            Chosen(dir, d as real - f, cap as real, Turn(scale) as real, cap, cap / 10 + 1, r) <==>
            TwiceRoundedRight(mode, dir, d, f, scale)
  {
  }

  /** Above the gap, between two multiples of ten. */
  lemma CoarseFloor(d: nat, f: real, p: nat, scale: Scale)
    requires !scale.Small? && d <= MaxMantissa(scale) - 9 && 0.0 < f < 1.0 && d as real - f >= Turn(scale) as real
    requires p == (d - 1) / 10
    ensures Working(p, scale) && p < Cap(scale) && p + 1 < MinMantissa(scale)
    ensures p as real <= (d as real - f) / 10.0 < p as real + 1.0
  {
  }

  lemma CoarseUnits(mode: RoundingMode, negative: bool, m: nat, p: nat, j: nat, scale: Scale)
    requires m == 10 * p + j && j <= 10 && m > Cap(scale)
    ensures FinalUnits(mode, negative, m, scale) == 10 * p +
      if j == 10 || RoundsAway(mode, negative, p, j as real / 10.0) then 10 else 0
  {
  }

  lemma CoarseChoice(mode: RoundingMode, negative: bool, d: nat, f: real, x: real, p: nat, scale: Scale)
    requires !scale.Small? && 0.0 < f < 1.0 && d as real - f >= Turn(scale) as real && p == (d - 1) / 10
    requires x == (d as real - f) / 10.0
    ensures var dir := DirectionOf(mode, negative);
            var r := FinalUnits(mode, negative, UnitRounded(mode, negative, d, f), scale) as real / 10.0;
            Chosen(dir, x, p as real, (p + 1) as real, p, p + 1, r) <==> TwiceRoundedRight(mode, dir, d, f, scale)
  {
    var m, j := UnitRounded(mode, negative, d, f), d - 10 * p;
    assert 1 <= j <= 10;
    CoarseUnits(mode, negative, m, p, m - 10 * p, scale);
    assert d % 10 == (if j == 10 then 0 else j) && d / 10 == (if j == 10 then p + 1 else p);
    hide FinalUnits;
  }

  /** The result of a fractional difference, in the units of e. */
  ghost predicate ComesOut(mode: RoundingMode, negative: bool, d: nat, f: real, e: int, scale: Scale, n: Number) {
    && d > Cap(scale) / 10 && 0.0 < f < 1.0 && MIN_EXPONENT < e <= MAX_EXPONENT
    && IsNormal(n, scale)
    && Magnitude(n) == Mag(FinalUnits(mode, negative, UnitRounded(mode, negative, d, f), scale) as real, e)
  }

  lemma GapDifference(mode: RoundingMode, negative: bool, d: nat, f: real, e: int, scale: Scale, n: Number)
    requires ComesOut(mode, negative, d, f, e, scale, n) && d > Cap(scale) && !scale.Small?
    requires d as real - f < Turn(scale) as real
    ensures Correct(DirectionOf(mode, negative), Mag(d as real - f, e), n, scale) <==>
            TwiceRoundedRight(mode, DirectionOf(mode, negative), d, f, scale)
  {
    var r := FinalUnits(mode, negative, UnitRounded(mode, negative, d, f), scale) as real;
    GapChoice(mode, negative, d, f, scale);
    hide Mag, Magnitude, IsNormal, Correct, Chosen, TwiceRoundedRight, UnitRounded, FinalUnits;
    Judged(DirectionOf(mode, negative), d as real - f, Cap(scale), e, n, r, scale);
  }

  lemma CoarseDifference(mode: RoundingMode, negative: bool, d: nat, f: real, e: int, scale: Scale, n: Number)
    requires ComesOut(mode, negative, d, f, e, scale, n) && d > Cap(scale) && InUnits(d, scale)
    requires d as real - f >= Turn(scale) as real
    ensures Correct(DirectionOf(mode, negative), Mag(d as real - f, e), n, scale) <==>
            TwiceRoundedRight(mode, DirectionOf(mode, negative), d, f, scale)
  {
    var x, p := (d as real - f) / 10.0, (d - 1) / 10;
    var r := FinalUnits(mode, negative, UnitRounded(mode, negative, d, f), scale) as real;
    MagShift(r, e);
    MagShift(d as real - f, e);
    CoarseFloor(d, f, p, scale);
    CoarseChoice(mode, negative, d, f, x, p, scale);
    hide Mag, Magnitude, IsNormal, Correct, Chosen, TwiceRoundedRight, UnitRounded, FinalUnits;
    Judged(DirectionOf(mode, negative), x, p, e + 1, n, r / 10.0, scale);
  }

  lemma InnerDifference(mode: RoundingMode, negative: bool, d: nat, f: real, e: int, scale: Scale, n: Number)
    requires ComesOut(mode, negative, d, f, e, scale, n) && Cap(scale) / 10 + 1 < d <= Cap(scale)
    ensures Correct(DirectionOf(mode, negative), Mag(d as real - f, e), n, scale) <==> !mode.TowardsZero?
  {
    var m := UnitRounded(mode, negative, d, f);
    InnerChoice(mode, negative, d, f, scale);
    hide Mag, Magnitude, IsNormal, Correct, Chosen;
    Judged(DirectionOf(mode, negative), d as real - f, d - 1, e, n, m as real, scale);
  }

  lemma EdgeDifference(mode: RoundingMode, negative: bool, d: nat, f: real, e: int, scale: Scale, n: Number)
    requires ComesOut(mode, negative, d, f, e, scale, n) && d == Cap(scale) / 10 + 1
    ensures Correct(DirectionOf(mode, negative), Mag(d as real - f, e), n, scale) <==>
            !mode.TowardsZero? && EdgeRight(DirectionOf(mode, negative), d, f, scale)
  {
    var m, x := UnitRounded(mode, negative, d, f), 10.0 * (d as real - f);
    EdgeFloorIs(d, f, x, scale);
    var p: nat := EdgeFloor(x, scale);
    EdgeChoice(mode, negative, d, f, x, p, scale);
    MagShift(m as real, e);
    MagShift(d as real - f, e);
    hide Mag, Magnitude, IsNormal, Correct, Chosen, EdgeRight, UnitRounded, EdgeFloor;
    Judged(DirectionOf(mode, negative), x, p, e - 1, n, 10.0 * m as real, scale);
  }

  lemma FractionalDifference(mode: RoundingMode, negative: bool, v: real, d: nat, f: real, e: int, scale: Scale,
                             n: Number)
    requires ComesOut(mode, negative, d, f, e, scale, n) && InUnits(d, scale) && v == Mag(d as real - f, e)
    ensures Correct(DirectionOf(mode, negative), v, n, scale) <==> DifferenceRight(mode, negative, v, d, f, scale)
  {
    ComesOutMeans(mode, negative, d, f, e, scale, n);
    NotSmall(d, f, e, scale);
    hide Mag, Correct, ComesOut, TwiceRoundedRight, EdgeRight, Least;
    if d > Cap(scale) {
      if d as real - f < Turn(scale) as real {
        GapDifference(mode, negative, d, f, e, scale, n);
      } else {
        CoarseDifference(mode, negative, d, f, e, scale, n);
      }
    } else if d > Cap(scale) / 10 + 1 {
      InnerDifference(mode, negative, d, f, e, scale, n);
    } else {
      EdgeDifference(mode, negative, d, f, e, scale, n);
    }
  }

  lemma ComesOutMeans(mode: RoundingMode, negative: bool, d: nat, f: real, e: int, scale: Scale, n: Number)
    requires ComesOut(mode, negative, d, f, e, scale, n)
    ensures d > Cap(scale) / 10 && 0.0 < f < 1.0 && MIN_EXPONENT < e
  {
  }

  /** What a subtraction promises about the exact difference v and the unit in which it was counted. */
  ghost predicate SubtractedIn(mode: RoundingMode, negative: bool, v: real, d: nat, f: real, e: int, scale: Scale,
                               r: Outcome)
  {
    && d > 0
    && (r.Overflow? <==> e == MAX_EXPONENT && UnitRounded(mode, negative, d, f) > Cap(scale))
    && (r == Ok(ZERO) <==> v < Least(scale))
    && (r.Ok? && r.n != ZERO ==>
          && r.n.negative == negative
          && Lands(mode, negative, Mag(UnitRounded(mode, negative, d, f) as real, e), scale, r.n))
    && (r.Ok? ==>
          && IsNormal(r.n, scale)
          && (Correct(DirectionOf(mode, negative), v, r.n, scale) <==>
              DifferenceRight(mode, negative, v, d, f, scale)))
  }

  /** The same, for the one unit that fits. */
  ghost predicate Subtracted(mode: RoundingMode, negative: bool, v: real, top: int, scale: Scale, r: Outcome) {
    && (exists e, d, f :: IsUnit(v, top, e, d, f, scale))
    && (forall e, d, f | IsUnit(v, top, e, d, f, scale) :: SubtractedIn(mode, negative, v, d, f, e, scale, r))
  }

  lemma DifferenceJudged(mode: RoundingMode, negative: bool, v: real, d: nat, f: real, e: int, scale: Scale, r: Outcome)
    requires Measures(v, e, d, f) && v > 0.0 && InUnits(d, scale) && d > Cap(scale) / 10
    requires e <= MAX_EXPONENT && (f > 0.0 ==> e > MIN_EXPONENT)
    requires Normalized(mode, negative, Mag(UnitRounded(mode, negative, d, f) as real, e), scale, r)
    ensures SubtractedIn(mode, negative, v, d, f, e, scale, r)
  {
    if f == 0.0 {
      WholeJudged(mode, negative, v, d, e, scale, r);
    } else {
      FractionJudged(mode, negative, v, d, f, e, scale, r);
    }
  }

  lemma WholeJudged(mode: RoundingMode, negative: bool, v: real, d: nat, e: int, scale: Scale, r: Outcome)
    requires v == Mag(d as real, e) > 0.0 && InUnits(d, scale) && d > Cap(scale) / 10 && e <= MAX_EXPONENT
    requires Normalized(mode, negative, v, scale, r)
    ensures SubtractedIn(mode, negative, v, d, 0.0, e, scale, r)
  {
    UnitsOverflow(mode, negative, d, e, scale);
    WholeDifference(mode, negative, v, d, e, scale);
    assert UnitRounded(mode, negative, d, 0.0) == d;
    hide Mag, Correct, Misrounds, DifferenceRight, Lands, Least, Overflows, UnitRounded;
  }

  lemma FractionJudged(mode: RoundingMode, negative: bool, v: real, d: nat, f: real, e: int, scale: Scale, r: Outcome)
    requires v == Mag(d as real - f, e) && InUnits(d, scale) && d > Cap(scale) / 10
    requires 0.0 < f < 1.0 && MIN_EXPONENT < e <= MAX_EXPONENT
    requires Normalized(mode, negative, Mag(UnitRounded(mode, negative, d, f) as real, e), scale, r)
    ensures SubtractedIn(mode, negative, v, d, f, e, scale, r)
  {
    var m := UnitRounded(mode, negative, d, f);
    assert (m == d || m == d - 1) && InUnits(m, scale);
    hide Mag, Correct, Misrounds, DifferenceRight, Lands, Least, Overflows, FinalUnits, UnitRounded;
    UnitsOverflow(mode, negative, m, e, scale);
    NotSmall(d, f, e, scale);
    if r.Ok? && r.n != ZERO {
      UnitsLand(mode, negative, m, e, scale, r.n);
      FractionalDifference(mode, negative, v, d, f, e, scale, r.n);
    }
  }
}
