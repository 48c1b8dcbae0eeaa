/** Where rounding up the last kept digit lands, and exactly when that is the correct rounding. */
module NumberLanding {
  import opened Decimal
  import opened NumberModel
  import opened NumberGuard
  import opened NumberRounding

  // ---- The end of every operation: a mantissa m, a fraction f, an exponent ----

  /** m holds as many digits as the scale keeps; at the cap's own tenth it came from above the cap. */
  ghost predicate Settled(m: nat, f: real, scale: Scale) {
    && 0.0 <= f < 1.0
    && (Cap(scale) + 1) / 10 <= m <= Cap(scale)
    && (m == Cap(scale) / 10 ==> f >= 0.8)
  }

  /** The magnitude x in this form. */
  ghost predicate SettledAt(x: real, m: nat, f: real, e: int, scale: Scale) {
    Settled(m, f, scale) && x == Mag(m as real + f, e)
  }

  /** Rounding away from zero: the new mantissa and the change of exponent. */
  function RoundedUp(m: nat, scale: Scale): (nat, int) {
    if m < Cap(scale) then (m + 1, 0)
    else match scale
      case Small => (MinMantissa(scale), 1)
      case LargeLegacy => (Cap(scale) / 10, 1)
      case Large => (Cap(scale) / 10 + 1, 1)
  }

  ghost function Landed(mode: RoundingMode, sign: bool, m: nat, f: real, e: int, scale: Scale): (nat, int) {
    if RoundsAway(mode, sign, m, f) then (RoundedUp(m, scale).0, e + RoundedUp(m, scale).1) else (m, e)
  }

  ghost function LandedMagnitude(mode: RoundingMode, sign: bool, m: nat, f: real, e: int, scale: Scale): real {
    var (w, l) := Landed(mode, sign, m, f, e, scale);
    Mag(w as real, l)
  }

  /** The neighbours of m + f at exponent e, as mantissas at the exponent g where they are next to each other. */
  lemma Coordinates(m: nat, f: real, e: int, scale: Scale) returns (x: real, lo: nat, g: int)
    requires Settled(m, f, scale)
    ensures Working(lo, scale) && lo as real <= x < NextUp(lo, scale) as real
    ensures Mag(x, g) == Mag(m as real + f, e)
    ensures m > Cap(scale) / 10 ==> (x, lo, g) == (m as real + f, m, e)
    ensures m == Cap(scale) / 10 ==> (x, lo, g) == (10.0 * (m as real + f), Cap(scale), e - 1)
  {
    if m == Cap(scale) / 10 {
      x, lo, g := 10.0 * (m as real + f), Cap(scale), e - 1;
      MagShift(m as real + f, e);
    } else {
      x, lo, g := m as real + f, m, e;
    }
  }

  /** A magnitude has one settled form. */
  lemma SettledUnique(x: real, m: nat, f: real, e: int, m': nat, f': real, e': int, scale: Scale)
    requires SettledAt(x, m, f, e, scale) && SettledAt(x, m', f', e', scale)
    ensures m == m' && f == f' && e == e'
  {
    var y, lo, g := Coordinates(m, f, e, scale);
    var y', lo', g' := Coordinates(m', f', e', scale);
    SameWorking(y, g, y', g', scale);
    hide Mag;
  }

  // ---- The cusp, said of the settled form ----

  /** Where the large scales go wrong: between the cap and the next multiple of ten. */
  ghost predicate MisroundedAt(dir: Direction, m: nat, f: real, scale: Scale) {
    && !scale.Small?
    && match dir
       case Zeroward => m == Cap(scale) / 10
       case Awayward => scale.LargeLegacy? && m == Cap(scale) && f > 0.0
       case Nearest => (m == Cap(scale) && f >= 0.5) || (m == Cap(scale) / 10 && f < 0.85)
  }

  lemma MagMinus(a: real, b: real, e: int)
    ensures Mag(a, e) - Mag(b, e) == Mag(a - b, e)
  {}

  /** Among three mantissas on one exponent, distances compare as they do between the mantissas. */
  lemma MagDistances(x: real, lo: real, hi: real, e: int)
    ensures Mag(x, e) - Mag(lo, e) < Mag(hi, e) - Mag(x, e) <==> x - lo < hi - x
    ensures Mag(x, e) - Mag(lo, e) == Mag(hi, e) - Mag(x, e) <==> x - lo == hi - x
    ensures Mag(lo, e) <= Mag(x, e) <==> lo <= x
    ensures Mag(x, e) < Mag(hi, e) <==> x < hi
    ensures Mag(lo, e) == Mag(x, e) <==> lo == x
  {
    MagMinus(x, lo, e);
    MagMinus(hi, x, e);
    MagOrder(x - lo, hi - x, e);
    MagOrder(x, lo, e);
    MagOrder(x, hi, e);
  }

  /** The choice among neighbours may be made on the mantissas. */
  lemma MantissasChoose(dir: Direction, x: real, lo: real, hi: real, p: nat, q: nat, r: real, e: int)
    ensures Chosen(dir, Mag(x, e), Mag(lo, e), Mag(hi, e), p, q, Mag(r, e)) <==> Chosen(dir, x, lo, hi, p, q, r)
  {
    MagDistances(x, lo, hi, e);
    MagOrder(r, lo, e);
    MagOrder(r, hi, e);
    hide Mag;
  }

  /** The mantissa, at the exponent of the neighbours, on which rounding lands. */
  ghost function LandedMantissa(mode: RoundingMode, sign: bool, m: nat, f: real, scale: Scale): nat {
    var tenth := m == Cap(scale) / 10;
    if !RoundsAway(mode, sign, m, f) then (if tenth then 10 * m else m)
    else if tenth then 10 * (m + 1)
    else if m < Cap(scale) then m + 1
    else 10 * RoundedUp(m, scale).0
  }

  lemma LandedThere(mode: RoundingMode, sign: bool, m: nat, f: real, e: int, scale: Scale)
    requires Settled(m, f, scale)
    ensures var g := if m == Cap(scale) / 10 then e - 1 else e;
            LandedMagnitude(mode, sign, m, f, e, scale) == Mag(LandedMantissa(mode, sign, m, f, scale) as real, g)
  {
    var (w, l) := Landed(mode, sign, m, f, e, scale);
    MagShift(w as real, l);
    hide RoundsAway, Mag;
  }

  lemma RightMantissa(mode: RoundingMode, sign: bool, m: nat, f: real, x: real, lo: nat, scale: Scale)
    requires Settled(m, f, scale) && !MisroundedAt(DirectionOf(mode, sign), m, f, scale)
    requires m > Cap(scale) / 10 ==> (x, lo) == (m as real + f, m)
    requires m == Cap(scale) / 10 ==> (x, lo) == (10.0 * (m as real + f), Cap(scale))
    ensures Chosen(DirectionOf(mode, sign), x, lo as real, NextUp(lo, scale) as real, lo, NextWorking(lo, scale),
                   LandedMantissa(mode, sign, m, f, scale) as real)
  {
  }

  lemma LandsRight(mode: RoundingMode, sign: bool, m: nat, f: real, e: int, n: Number, scale: Scale)
    requires Settled(m, f, scale) && !MisroundedAt(DirectionOf(mode, sign), m, f, scale)
    requires IsNormal(n, scale) && Magnitude(n) == LandedMagnitude(mode, sign, m, f, e, scale)
    ensures Correct(DirectionOf(mode, sign), Mag(m as real + f, e), n, scale)
  {
    var x, lo, g := Coordinates(m, f, e, scale);
    var hi, r := NextUp(lo, scale), LandedMantissa(mode, sign, m, f, scale);
    var dir := DirectionOf(mode, sign);
    LandedThere(mode, sign, m, f, e, scale);
    RightMantissa(mode, sign, m, f, x, lo, scale);
    NextIsNeighbour(lo, g, scale);
    MagDistances(x, lo as real, hi as real, g);
    MantissasChoose(dir, x, lo as real, hi as real, lo, NextWorking(lo, scale), r as real, g);
    hide Mag, Correct, LandedMagnitude, LandedMantissa, NextUp, Cap, Neighbours;
    hide ParityOf, MisroundedAt, Settled, Chosen;
    RightNeighbour(dir, Mag(x, g), Mag(lo as real, g), Mag(hi as real, g), lo, NextWorking(lo, scale), n, scale);
  }

  lemma Beaten(mode: RoundingMode, sign: bool, m: nat, f: real, x: real, scale: Scale)
    requires Settled(m, f, scale) && MisroundedAt(DirectionOf(mode, sign), m, f, scale)
    requires m > Cap(scale) / 10 ==> x == m as real + f
    requires m == Cap(scale) / 10 ==> x == 10.0 * (m as real + f)
    ensures var r, lo := LandedMantissa(mode, sign, m, f, scale) as real, Cap(scale) as real;
            match DirectionOf(mode, sign)
            case Zeroward => r < lo <= x
            case Awayward => r < x
            case Nearest => lo <= x && Distance(r, x) > x - lo
  {
  }

  /** In the cusp the result is beaten by the number whose mantissa is the cap. */
  lemma LandsWrong(mode: RoundingMode, sign: bool, m: nat, f: real, e: int, n: Number, scale: Scale)
    requires Settled(m, f, scale) && MisroundedAt(DirectionOf(mode, sign), m, f, scale)
    requires Magnitude(n) == LandedMagnitude(mode, sign, m, f, e, scale)
    requires MIN_EXPONENT <= (if m == Cap(scale) then e else e - 1) <= MAX_EXPONENT
    ensures !Correct(DirectionOf(mode, sign), Mag(m as real + f, e), n, scale)
  {
    var x, lo, g := Coordinates(m, f, e, scale);
    var r := LandedMantissa(mode, sign, m, f, scale);
    var best := Number(false, Cap(scale), g);
    LandedThere(mode, sign, m, f, e, scale);
    assert IsNormal(best, scale) && Magnitude(best) == Mag(lo as real, g);
    Beaten(mode, sign, m, f, x, scale);
    MagBeaten(DirectionOf(mode, sign), r as real, lo as real, x, g);
    hide Settled, LandedMagnitude, LandedMantissa, MisroundedAt, Cap, Magnitude, IsNormal, Mag, Even;
    if DirectionOf(mode, sign).Nearest? {
      assert !AsNear(n, best, Mag(x, g));
    }
  }

  lemma MagBeaten(dir: Direction, r: real, lo: real, x: real, g: int)
    requires match dir
      case Zeroward => r < lo <= x
      case Awayward => r < x
      case Nearest => lo <= x && Distance(r, x) > x - lo
    ensures match dir
      case Zeroward => Mag(r, g) < Mag(lo, g) <= Mag(x, g)
      case Awayward => Mag(r, g) < Mag(x, g)
      case Nearest => Distance(Mag(r, g), Mag(x, g)) > Distance(Mag(lo, g), Mag(x, g))
  {
    MagOrder(r, lo, g);
    MagOrder(r, x, g);
    MagOrder(lo, x, g);
    MagMinus(r, x, g);
    MagMinus(x, r, g);
    MagMinus(x, lo, g);
    MagOrder(x - lo, r - x, g);
    MagOrder(x - lo, x - r, g);
    hide Mag;
  }

  // ---- The cusp, said of the exact magnitude ----

  ghost predicate CuspAt(dir: Direction, x: real, g: int, scale: Scale) {
    var cap := Cap(scale) as real;
    && !scale.Small?
    && match dir
       case Zeroward => Mag(cap + 1.0, g) <= x < Mag(Turn(scale) as real, g)
       case Awayward => scale.LargeLegacy? && Mag(cap, g) < x < Mag(cap + 1.0, g)
       case Nearest => Mag(cap + 0.5, g) <= x < Mag(cap + 1.5, g)
  }

  /** For some exponent g, x lies in the part of the gap above cap * 10^g that the direction gets wrong:
      at least cap + 1 toward zero, below cap + 1 away from zero in the legacy scale, and from cap + 0.5
      to cap + 1.5 to nearest. */
  ghost predicate InCusp(dir: Direction, x: real, scale: Scale) {
    exists g :: CuspAt(dir, x, g, scale)
  }

  lemma CuspFound(dir: Direction, m: nat, f: real, e: int, scale: Scale)
    requires Settled(m, f, scale) && MisroundedAt(dir, m, f, scale)
    ensures InCusp(dir, Mag(m as real + f, e), scale)
  {
    var x, lo, g := Coordinates(m, f, e, scale);
    var cap := Cap(scale) as real;
    MagOrder(x, cap, g);
    MagOrder(x, cap + 0.5, g);
    MagOrder(x, cap + 1.0, g);
    MagOrder(x, cap + 1.5, g);
    MagOrder(x, Turn(scale) as real, g);
    hide Mag;
    assert CuspAt(dir, Mag(m as real + f, e), g, scale);
  }

  /** A magnitude is in the gap above the cap at one exponent only. */
  lemma CuspExponent(x: real, lo: nat, g: int, k: int, scale: Scale)
    requires !scale.Small? && Working(lo, scale)
    requires lo as real <= x < NextUp(lo, scale) as real
    requires Mag(Cap(scale) as real, k) < Mag(x, g) < Mag(Turn(scale) as real, k)
    ensures k == g && lo == Cap(scale)
  {
    var cap, turn := Cap(scale) as real, Turn(scale) as real;
    hide Mag;
    if k > g {
      MagFar(cap, g, k);
      MagOrder(x, 10.0 * cap, g);
    } else if k < g {
      MagFar(x, k, g);
      MagOrder(10.0 * x, turn, k);
    } else {
      MagOrder(x, cap, g);
    }
  }

  lemma CuspMeans(dir: Direction, m: nat, f: real, e: int, scale: Scale)
    requires Settled(m, f, scale) && InCusp(dir, Mag(m as real + f, e), scale)
    ensures MisroundedAt(dir, m, f, scale)
  {
    var x, lo, g := Coordinates(m, f, e, scale);
    var k :| CuspAt(dir, Mag(m as real + f, e), k, scale);
    var cap := Cap(scale) as real;
    MagOrder(cap, cap + 0.5, k);
    MagOrder(cap, cap + 1.0, k);
    MagOrder(cap + 1.0, Turn(scale) as real, k);
    MagOrder(cap + 1.5, Turn(scale) as real, k);
    hide Mag;
    CuspExponent(x, lo, g, k, scale);
    MagOrder(x, cap, g);
    MagOrder(x, cap + 0.5, g);
    MagOrder(x, cap + 1.0, g);
    MagOrder(x, cap + 1.5, g);
  }

  lemma CuspIff(dir: Direction, m: nat, f: real, e: int, scale: Scale)
    requires Settled(m, f, scale)
    ensures InCusp(dir, Mag(m as real + f, e), scale) <==> MisroundedAt(dir, m, f, scale)
  {
    hide Settled, MisroundedAt, InCusp, Mag;
    if MisroundedAt(dir, m, f, scale) {
      CuspFound(dir, m, f, e, scale);
    }
    if InCusp(dir, Mag(m as real + f, e), scale) {
      CuspMeans(dir, m, f, e, scale);
    }
  }

  /** A normal number on which rounding lands is the correct one exactly when the exact magnitude is not in
      the cusp of its direction. */
  lemma LandsRightIff(mode: RoundingMode, sign: bool, m: nat, f: real, e: int, n: Number, scale: Scale)
    requires Settled(m, f, scale)
    requires IsNormal(n, scale) && Magnitude(n) == LandedMagnitude(mode, sign, m, f, e, scale)
    requires MisroundedAt(DirectionOf(mode, sign), m, f, scale) ==>
      MIN_EXPONENT <= (if m == Cap(scale) then e else e - 1) <= MAX_EXPONENT
    ensures Correct(DirectionOf(mode, sign), Mag(m as real + f, e), n, scale) <==>
            !InCusp(DirectionOf(mode, sign), Mag(m as real + f, e), scale)
  {
    var dir := DirectionOf(mode, sign);
    CuspIff(dir, m, f, e, scale);
    hide Settled, MisroundedAt, LandedMagnitude, Correct, InCusp, Mag, IsNormal, Magnitude;
    if MisroundedAt(dir, m, f, scale) {
      LandsWrong(mode, sign, m, f, e, n, scale);
    } else {
      LandsRight(mode, sign, m, f, e, n, scale);
    }
  }

  /** 2^63 itself is in the cusp of the large scale toward zero and to nearest: 2^63 - 1 is the best normal number. */
  lemma CuspIsInhabited()
    ensures InCusp(Zeroward, Mag(9_223_372_036_854_775_808.0, 0), Large)
    ensures InCusp(Nearest, Mag(9_223_372_036_854_775_808.0, 0), Large)
  {
    var cap := Cap(Large) as real;
    var x := 9_223_372_036_854_775_808.0;
    MagOrder(cap + 1.0, x, 0);
    MagOrder(cap + 0.5, x, 0);
    MagOrder(x, cap + 1.5, 0);
    MagOrder(x, Turn(Large) as real, 0);
    assert CuspAt(Zeroward, Mag(x, 0), 0, Large) && CuspAt(Nearest, Mag(x, 0), 0, Large);
  }

  lemma NormalNotInCusp(n: Number, dir: Direction, scale: Scale)
    requires IsNormal(n, scale)
    ensures !InCusp(dir, Magnitude(n), scale)
  {
    hide Magnitude, Mag, IsNormal;
    if InCusp(dir, Magnitude(n), scale) {
      var g :| CuspAt(dir, Magnitude(n), g, scale);
      var cap := Cap(scale);
      NoneBetween(n, cap, g, scale);
      MagOrder(cap as real, cap as real + 0.5, g);
      MagOrder(cap as real, cap as real + 1.0, g);
      MagOrder(cap as real + 1.0, Turn(scale) as real, g);
      MagOrder(cap as real + 1.5, Turn(scale) as real, g);
    }
  }

  // ---- The least normal number, said of the settled form ----

  /** A settled magnitude is below the least normal number exactly by its exponent and its number of digits. */
  lemma BelowLeastIff(m: nat, f: real, e: int, scale: Scale)
    requires Settled(m, f, scale)
    ensures Mag(m as real + f, e) < Least(scale) <==>
      e < MIN_EXPONENT || (e == MIN_EXPONENT && m < MinMantissa(scale))
  {
    var x, min := m as real + f, MinMantissa(scale) as real;
    hide Mag;
    if e < MIN_EXPONENT {
      MagFar(min, e, MIN_EXPONENT);
      MagOrder(x, 10.0 * min, e);
    } else if e == MIN_EXPONENT {
      MagOrder(x, min, e);
    } else {
      MagFar(x, MIN_EXPONENT, e);
      MagOrder(10.0 * x, min, MIN_EXPONENT);
    }
  }
}
