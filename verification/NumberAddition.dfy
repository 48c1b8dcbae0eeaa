/** operator+=: alignment, the sum of like signs, the difference of unlike signs. */
module NumberAddition {
  import opened Decimal
  import opened NumberModel
  import opened NumberGuard
  import opened NumberRounding
  import opened NumberLanding
  import opened NumberNormalize
  import opened NumberArithmetic
  import opened NumberDifference

  /** A mantissa that has lost n digits. */
  function Shrunk(m: nat, n: nat): nat {
    if n == 0 then m else Shrunk(m, n - 1) / 10
  }

  lemma {:induction false} ShrunkOrder(m: nat, k: nat, n: nat)
    requires m <= k
    ensures Shrunk(m, n) <= Shrunk(k, n)
    decreases n
  {
    if n > 0 {
      ShrunkOrder(m, k, n - 1);
    }
  }

  lemma {:induction false} ShrunkBound(scale: Scale, n: nat)
    requires n >= 17
    ensures Shrunk(MaxMantissa(scale), n) <= if scale.Small? then 0 else 99
    decreases n
  {
    if n > 17 {
      ShrunkBound(scale, n - 1);
    } else {
      var max := MaxMantissa(scale);
      assert Shrunk(max, 5) == if scale.Small? then 99_999_999_999 else 99_999_999_999_999;
      assert Shrunk(max, 10) == if scale.Small? then 999_999 else 999_999_999;
      assert Shrunk(max, 15) == if scale.Small? then 9 else 9_999;
    }
  }

  /** Drop digits until the exponent is reached. What is dropped is spelled in the guard if it has room. */
  method Align(g: Guard, mantissa: nat, exponent: int, target: int)
    returns (m: nat, ghost f: real, ghost s: seq<nat>)
    requires exponent <= target && mantissa < TWO_128 && g.digits == 0 && !g.xbit
    modifies g
    ensures g.Tracks(f) && g.sbit == old(g.sbit) && m == Shrunk(mantissa, target - exponent)
    ensures Mag(m as real + f, target) == Mag(mantissa as real, exponent)
    ensures exponent == target ==> m == mantissa && f == 0.0
    ensures exponent < target ==> m <= mantissa / 10
    ensures target - exponent <= 16 ==> g.Spells(s) && f == Fraction(s)
    ensures target - exponent <= 16 ==> forall i | target - exponent <= i < 16 :: s[i] == 0
  {
    var e := exponent;
    m, f, s := mantissa, 0.0, NO_DIGITS;
    NoDigits();
    assert Shrunk(mantissa, 0) == mantissa;
    hide Mag, Word, Fraction, Shrunk;
    while e < target
      invariant e <= target && m <= mantissa && m == Shrunk(mantissa, e - exponent)
      invariant g.Tracks(f) && g.sbit == old(g.sbit)
      invariant Mag(m as real + f, e) == Mag(mantissa as real, exponent)
      invariant e == exponent ==> m == mantissa && f == 0.0
      invariant e > exponent ==> m <= mantissa / 10
      invariant e - exponent <= 16 ==> g.Spells(s) && f == Fraction(s)
      invariant e - exponent <= 16 ==> forall i | e - exponent <= i < 16 :: s[i] == 0
    {
      MagShift(m as real + f, e);
      ghost var f1, n := Dropped(m, f), e - exponent;
      ShrunkStep(mantissa, n);
      if n < 16 {
        PushWord(s, m % 10);
        FractionPush(s, m % 10);
        s := [m % 10] + s[..15];
      }
      m, e := g.DropDigit(m, e, f);
      f := f1;
    }
  }

  lemma ShrunkStep(m: nat, n: nat)
    ensures Shrunk(m, n + 1) == Shrunk(m, n) / 10
  {}

  lemma FractionPush(s: seq<nat>, d: nat)
    requires IsDigits(s) && s[15] == 0
    ensures Fraction([d] + s[..15]) == (d as real + Fraction(s)) / 10.0
  {
    assert s == s[..15] + [0];
    FractionZeroTail(s[..15]);
    assert ([d] + s[..15])[1..] == s[..15];
  }

  // ---- Like signs ----

  lemma SumSettles(m: nat, f: real, scale: Scale)
    requires MinMantissa(scale) <= m <= Cap(scale) && 0.0 <= f < 1.0
    ensures Settled(m, f, scale)
  {
  }

  method RoundSum(g: Guard, mode: RoundingMode, negative: bool, xm: nat, ym: nat, exponent: int, scale: Scale,
                  ghost f: real)
    returns (r: Outcome)
    requires g.Tracks(f)
    requires xm <= MaxMantissa(scale) && ym <= MaxMantissa(scale)
    requires xm >= MinMantissa(scale) || ym >= MinMantissa(scale)
    modifies g
    ensures Rounded(mode, old(g.sbit), negative, Mag((xm + ym) as real + f, exponent), scale, r)
  {
    hide Rounded, Mag, Settled;
    var m, e := xm + ym, exponent;
    if m > MaxMantissa(scale) || m > MAX_REP {
      DropSettles(m, f, scale);
      MagShift(m as real + f, e);
      m, e := g.DropDigit(m, e, f);
      r := RoundAndNormalize(g, mode, negative, m, e, scale, Dropped(xm + ym, f));
    } else {
      SumSettles(m, f, scale);
      r := RoundAndNormalize(g, mode, negative, m, e, scale, f);
    }
  }

  /** Two equal exponents leave the guard without a sign, so that a directed mode rounds a negative sum as if it
      were positive. */
  predicate LosesSign(mode: RoundingMode, x: Number, y: Number) {
    x.negative && x.exponent == y.exponent && (mode.Downward? || mode.Upward?)
  }

  /** When the sum is correctly rounded: on the lost sign, when it needs no rounding; otherwise outside the cusp. */
  ghost predicate AddsCorrectly(mode: RoundingMode, x: Number, y: Number, scale: Scale) {
    if LosesSign(mode, x, y) then
      x.mantissa + y.mantissa <= Cap(scale) || (x.mantissa + y.mantissa) % 10 == 0
    else !InCusp(DirectionOf(mode, x.negative), Magnitude(x) + Magnitude(y), scale)
  }

  ghost predicate SumAdded(mode: RoundingMode, x: Number, y: Number, scale: Scale, r: Outcome) {
    var v := Magnitude(x) + Magnitude(y);
    && Rounded(mode, x.negative && x.exponent != y.exponent, x.negative, v, scale, r)
    && (r.Ok? ==>
          (Correct(DirectionOf(mode, x.negative), v, r.n, scale) <==> AddsCorrectly(mode, x, y, scale)))
  }

  lemma ExactIsRight(dir: Direction, x: real, n: Number, scale: Scale)
    requires IsNormal(n, scale) && Magnitude(n) == x
    ensures Correct(dir, x, n, scale)
  {
    hide IsNormal, Magnitude, Even;
  }

  /** Rounded in the opposite direction, a sum is right only if no digit is rounded off. */
  lemma WrongWay(mode: RoundingMode, m: nat, f: real, e: int, scale: Scale, n: Number)
    requires (mode.Downward? || mode.Upward?) && 0.0 <= f < 1.0 && (m < Cap(scale) || f == 0.0)
    requires IsNormal(n, scale) && Magnitude(n) == LandedMagnitude(mode, false, m, f, e, scale)
    ensures Correct(DirectionOf(mode, true), Mag(m as real + f, e), n, scale) <==> f == 0.0
  {
    MagOrder(m as real, m as real + f, e);
    MagOrder(m as real + f, m as real + 1.0, e);
    if f == 0.0 {
      ExactIsRight(DirectionOf(mode, true), Mag(m as real + f, e), n, scale);
    }
    hide Mag, Magnitude, IsNormal;
  }

  lemma LostSign(mode: RoundingMode, sum: nat, e: int, scale: Scale, n: Number)
    requires (mode.Downward? || mode.Upward?) && MinMantissa(scale) <= sum <= 2 * MaxMantissa(scale)
    requires IsNormal(n, scale) && Lands(mode, false, Mag(sum as real, e), scale, n)
    ensures Correct(DirectionOf(mode, true), Mag(sum as real, e), n, scale) <==>
            sum <= Cap(scale) || sum % 10 == 0
  {
    var x := Mag(sum as real, e);
    if sum <= Cap(scale) {
      assert SettledAt(x, sum, 0.0, e, scale);
      WrongWay(mode, sum, 0.0, e, scale, n);
    } else {
      var m, f := sum / 10, (sum % 10) as real / 10.0;
      assert m as real + f == sum as real / 10.0;
      MagShift(sum as real, e);
      assert SettledAt(x, m, f, e + 1, scale);
      WrongWay(mode, m, f, e + 1, scale, n);
    }
    hide Correct;
  }

  lemma SumIsExact(x: Number, y: Number, xm: nat, ym: nat, e: int, f: real)
    requires x.exponent < y.exponent ==> Mag(xm as real + f, e) == Magnitude(x) && Mag(ym as real, e) == Magnitude(y)
    requires x.exponent >= y.exponent ==> Mag(xm as real, e) == Magnitude(x) && Mag(ym as real + f, e) == Magnitude(y)
    ensures Mag((xm + ym) as real + f, e) == Magnitude(x) + Magnitude(y)
  {
    if x.exponent < y.exponent {
      MagPlus(xm as real + f, ym as real, e);
    } else {
      MagPlus(xm as real, ym as real + f, e);
    }
  }

  /** Rounded as a guard of that sign rounds, a sum is judged for its own sign. */
  lemma SumJudged(mode: RoundingMode, x: Number, y: Number, scale: Scale, r: Outcome)
    requires IsNormal(x, scale) && IsNormal(y, scale) && x != ZERO && y != ZERO
    requires Rounded(mode, x.negative && x.exponent != y.exponent, x.negative, Magnitude(x) + Magnitude(y), scale, r)
    ensures SumAdded(mode, x, y, scale, r)
  {
    NormalSize(x, scale);
    NormalSize(y, scale);
    LeastIsPositive(scale);
    if LosesSign(mode, x, y) && r.Ok? {
      MagPlus(x.mantissa as real, y.mantissa as real, x.exponent);
      LostSign(mode, x.mantissa + y.mantissa, x.exponent, scale, r.n);
    }
    hide Correct, InCusp, Lands, Magnitude, Least, RoundedOverflows, Rises, Flushed, IsNormal;
  }

  lemma LeastIsPositive(scale: Scale)
    ensures Least(scale) > 0.0
  {
    MulLt(0.0, MinMantissa(scale) as real, Pow10(MIN_EXPONENT));
  }

  method AddLike(mode: RoundingMode, x: Number, y: Number, scale: Scale) returns (r: Outcome)
    requires IsNormal(x, scale) && IsNormal(y, scale) && x != ZERO && y != ZERO && x.negative == y.negative
    ensures SumAdded(mode, x, y, scale, r)
  {
    var xm, xe, ym, ye := x.mantissa, x.exponent, y.mantissa, y.exponent;
    var g := new Guard(x.negative && xe != ye, false);
    ghost var f, s := 0.0, NO_DIGITS;
    if xe < ye {
      xm, f, s := Align(g, xm, xe, ye);
      xe := ye;
    } else if xe > ye {
      ym, f, s := Align(g, ym, ye, xe);
      ye := xe;
    }
    SumIsExact(x, y, xm, ym, xe, f);
    hide Rounded, SumAdded, Mag, Magnitude;
    r := RoundSum(g, mode, x.negative, xm, ym, xe, scale, f);
    SumJudged(mode, x, y, scale, r);
  }

  // ---- Unlike signs ----

  /** The guard still holds the digits of the smaller operand down to exponent `low`. */
  ghost predicate Spelled(g: Guard, s: seq<nat>, f: real, e: int, low: int)
    reads g
  {
    g.Spells(s) && f == Fraction(s) && forall i | 0 <= i < 16 && e - low <= i :: s[i] == 0
  }

  lemma SpelledOut(s: seq<nat>, e: int, low: int)
    requires IsDigits(s) && forall i | 0 <= i < 16 && e - low <= i :: s[i] == 0
    ensures Fraction(s) > 0.0 ==> e > low
    ensures e <= low ==> s[0] == 0
  {
    FractionRange(s);
  }

  /** Scale the difference up, taking digits back from the guard, until it has enough of them. */
  method ScaleDifference(g: Guard, mantissa: nat, top: int, low: int, scale: Scale, ghost f0: real, ghost s0: seq<nat>,
                         ghost v: real)
    returns (m: nat, e: int, ghost f: real)
    requires g.Tracks(f0) && 0 < mantissa && low <= top && Measures(v, top, mantissa, f0)
    requires f0 > 0.0 ==> top > low
    requires !Stops(mantissa, scale) ==> Spelled(g, s0, f0, top, low)
    requires mantissa > Cap(scale) ==> InUnits(mantissa, scale)
    modifies g
    ensures g.Tracks(f) && g.sbit == old(g.sbit) && m > 0 && IsUnit(v, top, e, m, f, scale)
    ensures InUnits(m, scale) && m > Cap(scale) / 10 && (f > 0.0 ==> e > low && f0 > 0.0)
  {
    m, e, f := mantissa, top, f0;
    ghost var s := s0;
    hide Mag, Word, Fraction;
    while m < MinMantissa(scale) && m * 10 <= MAX_REP
      invariant g.Tracks(f) && g.sbit == old(g.sbit) && m > 0 && Measures(v, e, m, f) && e <= top
      invariant !Stops(m, scale) ==> Spelled(g, s, f, e, low)
      invariant f > 0.0 ==> e > low && f0 > 0.0
      invariant m > Cap(scale) ==> InUnits(m, scale)
      invariant forall h, k, t | e < h <= top && Measures(v, h, k, t) :: !Stops(k, scale)
      decreases if e > low then e - low else 0, MinMantissa(scale) - m
    {
      forall k, t | Measures(v, e, k, t) ensures !Stops(k, scale) {
        MeasuresUnique(v, e, m, f, k, t);
      }
      SpelledOut(s, e, low);
      MagShift(m as real - f, e);
      var d := g.Pop(s);
      s := s[1..] + [0];
      SpellsTracks(g.digits, s);
      SpelledOut(s, e - 1, low);
      f := 10.0 * f - d as real;
      m, e := m * 10 - d, e - 1;
    }
  }

  /** Guard::doRoundDown: the guard's fraction is to be taken off the mantissa. */
  method DoRoundDown(g: Guard, mode: RoundingMode, negative: bool, mantissa: nat, exponent: int, scale: Scale,
                     ghost f: real)
    returns (n: Number)
    requires g.Tracks(f) && InUnits(mantissa, scale) && mantissa > Cap(scale) / 10
    ensures var m := if RoundsAway(mode, g.sbit, mantissa, f) then mantissa - 1 else mantissa;
            && (n == ZERO <==> Mag(m as real, exponent) < Least(scale))
            && (n != ZERO ==> n.negative == negative && Magnitude(n) == Mag(m as real, exponent))
            && n.mantissa <= MaxMantissa(scale)
  {
    var m, e := mantissa, exponent;
    var round := g.Round(mode);
    g.RoundIsExact(mode, m, f);
    hide RoundsAway, Mag, Magnitude, Least;
    if round == 1 || (round == 0 && m % 2 == 1) {
      m := m - 1;
      MagShift(m as real, e);
      if m < MinMantissa(scale) {
        m, e := m * 10, e - 1;
      }
    }
    n := BringIntoRange(negative, m, e, scale);
  }

  method RoundDifference(g: Guard, mode: RoundingMode, negative: bool, mantissa: nat, top: int, low: int, scale: Scale,
                         ghost f0: real, ghost s0: seq<nat>, ghost v: real)
    returns (r: Outcome)
    requires g.Tracks(f0) && 0 < mantissa && MIN_EXPONENT <= low <= top <= MAX_EXPONENT
    requires Measures(v, top, mantissa, f0) && v > 0.0
    requires f0 > 0.0 ==> top > low && g.sbit == !negative
    requires !Stops(mantissa, scale) ==> Spelled(g, s0, f0, top, low)
    requires mantissa > Cap(scale) ==> InUnits(mantissa, scale)
    modifies g
    ensures Subtracted(mode, negative, v, top, scale, r)
  {
    hide Mag, Magnitude, Measures, IsUnit, Subtracted, Normalized, Spelled, Least, RoundsAway, UnitRounded;
    ghost var f: real;
    var m, e;
    m, e, f := ScaleDifference(g, mantissa, top, low, scale, f0, s0, v);
    GuardedUnit(mode, g.sbit, negative, m, f);
    var n := DoRoundDown(g, mode, negative, m, e, scale, f);
    WholeMantissa(n.mantissa, scale);
    r := Normalize(mode, n.negative, n.mantissa, n.exponent, scale, false, n.mantissa as real);
    DifferenceFinished(mode, negative, v, m, f, e, top, scale, n, r);
  }

  lemma GuardedUnit(mode: RoundingMode, sign: bool, negative: bool, m: nat, f: real)
    requires m > 0 && 0.0 <= f < 1.0 && (f > 0.0 ==> sign == !negative)
    ensures UnitRounded(mode, negative, m, f) == if RoundsAway(mode, sign, m, f) then m - 1 else m
  {
  }

  lemma DifferenceFinished(mode: RoundingMode, negative: bool, v: real, m: nat, f: real, e: int, top: int, scale: Scale,
                           n: Number, r: Outcome)
    requires IsUnit(v, top, e, m, f, scale) && v > 0.0 && top <= MAX_EXPONENT && (f > 0.0 ==> e > MIN_EXPONENT)
    requires InUnits(m, scale) && m > Cap(scale) / 10
    requires var x := Mag(UnitRounded(mode, negative, m, f) as real, e);
             && (n == ZERO <==> x < Least(scale))
             && (n != ZERO ==> n.negative == negative && Magnitude(n) == x)
    requires Normalized(mode, n.negative, Mag(n.mantissa as real, n.exponent), scale, r)
    ensures Subtracted(mode, negative, v, top, scale, r)
  {
    var x := Mag(UnitRounded(mode, negative, m, f) as real, e);
    MagnitudeIs(n);
    if n == ZERO {
      MagnitudeSign(n);
      LeastIsPositive(scale);
      MagNonneg(UnitRounded(mode, negative, m, f) as real, e);
      ZeroNormalizes(mode, negative, x, scale);
    }
    hide Mag, Magnitude, Normalized, Least, UnitRounded, SubtractedIn;
    assert Normalized(mode, negative, x, scale, r);
    DifferenceJudged(mode, negative, v, m, f, e, scale, r);
    forall e', m', f' | IsUnit(v, top, e', m', f', scale)
      ensures SubtractedIn(mode, negative, v, m', f', e', scale, r)
    {
      UnitUnique(v, top, e, m, f, e', m', f', scale);
    }
  }

  ghost function Top(x: Number, y: Number): int {
    if x.exponent < y.exponent then y.exponent else x.exponent
  }

  ghost function Larger(x: Number, y: Number): Number {
    if Magnitude(x) > Magnitude(y) then x else y
  }

  ghost predicate DifferenceAdded(mode: RoundingMode, x: Number, y: Number, scale: Scale, r: Outcome) {
    Subtracted(mode, Larger(x, y).negative, Distance(Magnitude(x), Magnitude(y)), Top(x, y), scale, r)
  }

  /** The operand with the larger exponent, less the aligned other one, is a difference in units of the exponent. */
  lemma DifferenceIsExact(a: Number, b: Number, bm: nat, f: real, scale: Scale)
    requires IsNormal(a, scale) && IsNormal(b, scale) && a != ZERO && b != ZERO && a.exponent >= b.exponent
    requires 0.0 <= f < 1.0 && Mag(bm as real + f, a.exponent) == Magnitude(b)
    requires if a.exponent == b.exponent then bm < a.mantissa && f == 0.0 else bm <= b.mantissa / 10
    ensures bm < a.mantissa && Magnitude(a) > Magnitude(b)
    ensures Measures(Magnitude(a) - Magnitude(b), a.exponent, a.mantissa - bm, f)
    ensures a.mantissa - bm > Cap(scale) ==> InUnits(a.mantissa - bm, scale)
  {
    var am, e := a.mantissa as real, a.exponent;
    MagMinus(am, bm as real + f, e);
    MagOrder(am, bm as real + f, e);
    hide Mag;
  }

  /** The smaller operand b is aligned and taken off the larger one. */
  method SubtractSmaller(mode: RoundingMode, a: Number, b: Number, scale: Scale) returns (r: Outcome)
    requires IsNormal(a, scale) && IsNormal(b, scale) && a != ZERO && b != ZERO && a.negative != b.negative
    requires a.exponent > b.exponent || (a.exponent == b.exponent && a.mantissa > b.mantissa)
    ensures Magnitude(a) > Magnitude(b)
    ensures Subtracted(mode, a.negative, Magnitude(a) - Magnitude(b), a.exponent, scale, r)
  {
    hide Mag, Subtracted, Magnitude, Word, Fraction, Shrunk;
    var g := new Guard(b.negative && a.exponent != b.exponent, false);
    MagnitudeIs(b);
    ghost var f, s;
    var bm;
    bm, f, s := Align(g, b.mantissa, b.exponent, a.exponent);
    DifferenceIsExact(a, b, bm, f, scale);
    FarApart(a.mantissa, b.mantissa, a.exponent - b.exponent, scale);
    r := RoundDifference(g, mode, a.negative, a.mantissa - bm, a.exponent, b.exponent, scale, f, s,
                         Magnitude(a) - Magnitude(b));
  }

  method AddUnlike(mode: RoundingMode, x: Number, y: Number, scale: Scale) returns (r: Outcome)
    requires IsNormal(x, scale) && IsNormal(y, scale) && x != ZERO && y != ZERO
    requires x.negative != y.negative && (x.mantissa, x.exponent) != (y.mantissa, y.exponent)
    ensures DifferenceAdded(mode, x, y, scale, r)
  {
    hide Subtracted;
    if x.exponent < y.exponent || (x.exponent == y.exponent && x.mantissa < y.mantissa) {
      r := SubtractSmaller(mode, y, x, scale);
    } else {
      r := SubtractSmaller(mode, x, y, scale);
    }
  }

  /** When the guard cannot spell all the dropped digits, the difference needs none of them back. */
  lemma FarApart(a: nat, b: nat, n: nat, scale: Scale)
    requires a >= MinMantissa(scale) && b <= MaxMantissa(scale) && Shrunk(b, n) < a
    ensures n >= 17 ==> Stops(a - Shrunk(b, n), scale)
  {
    if n >= 17 {
      ShrunkOrder(b, MaxMantissa(scale), n);
      ShrunkBound(scale, n);
    }
  }

  // ---- The whole operator ----

  function Negated(n: Number): Number {
    if n.mantissa == 0 then ZERO else n.(negative := !n.negative)
  }

  /** What operator+= promises: like signs and unlike signs each with the exact condition for correct rounding. */
  ghost predicate Added(mode: RoundingMode, x: Number, y: Number, scale: Scale, r: Outcome) {
    if y == ZERO then r == Ok(x)
    else if x == ZERO then r == Ok(y)
    else if x == Negated(y) then r == Ok(ZERO)
    else if x.negative == y.negative then SumAdded(mode, x, y, scale, r)
    else DifferenceAdded(mode, x, y, scale, r)
  }

  method Add(mode: RoundingMode, x: Number, y: Number, scale: Scale) returns (r: Outcome)
    requires IsNormal(x, scale) && IsNormal(y, scale)
    ensures Added(mode, x, y, scale, r)
  {
    if y == ZERO {
      return Ok(x);
    }
    if x == ZERO {
      return Ok(y);
    }
    if x == Negated(y) {
      return Ok(ZERO);
    }
    hide SumAdded, DifferenceAdded;
    if x.negative == y.negative {
      r := AddLike(mode, x, y, scale);
    } else {
      r := AddUnlike(mode, x, y, scale);
    }
  }

  // ---- Inputs on which it is not correctly rounded ----

  /** Twice -(10^16 - 1), rounded downward, comes out above the exact sum. */
  lemma LosesSignExample(x: Number, r: Outcome)
    requires x == Number(true, 9_999_999_999_999_999, 0) && Added(Downward, x, x, Small, r)
    ensures r.Ok? && Value(r.n) > Value(x) + Value(x)
  {
    var v := Magnitude(x) + Magnitude(x);
    var m, f := 1_999_999_999_999_999, 0.8;
    MagPlus(9_999_999_999_999_999.0, 9_999_999_999_999_999.0, 0);
    MagShift(19_999_999_999_999_998.0, 0);
    assert SettledAt(v, m, f, 1, Small);
    TooLargeIff(Downward, false, m, f, 1, Small);
    BelowLeastIff(m, f, 1, Small);
    MagOrder(m as real, m as real + f, 1);
    hide Correct, InCusp, Mag, Least;
  }

  /** The difference 10^16 - 1, a normal number of the small scale, comes out wrong to nearest and toward zero. */
  lemma DifferenceExample(mode: RoundingMode, x: Number, y: Number, r: Outcome)
    requires x == Number(false, 1_000_000_000_000_000, 1) && y == Number(true, 1_000_000_000_000_000, -15)
    requires (mode.ToNearest? || mode.TowardsZero?) && Added(mode, x, y, Small, r)
    ensures IsNormal(Number(false, 9_999_999_999_999_999, 0), Small)
    ensures Distance(Magnitude(x), Magnitude(y)) == Magnitude(Number(false, 9_999_999_999_999_999, 0))
    ensures r.Ok? && Magnitude(r.n) != Distance(Magnitude(x), Magnitude(y))
  {
    var v, d, f := Distance(Magnitude(x), Magnitude(y)), 1_000_000_000_000_000, 0.1;
    SixteenPlaces();
    MagMinus(d as real, f, 1);
    MagOrder(d as real, f, 1);
    MagShift(9_999_999_999_999_999.0, 0);
    assert Measures(v, 1, d, f) && IsUnit(v, 1, 1, d, f, Small);
    NotSmall(d, f, 1, Small);
    assert SubtractedIn(mode, false, v, d, f, 1, Small, r);
    hide Mag, Correct, Least;
    if r.Ok? && Magnitude(r.n) == v {
      ExactIsRight(DirectionOf(mode, false), v, r.n, Small);
    }
  }

  lemma SixteenPlaces()
    ensures Mag(1_000_000_000_000_000.0, -15) == Mag(0.1, 1)
  {
    assert TenTo(8) == 100_000_000;
    assert TenTo(16) == 10_000_000_000_000_000;
    MagShiftMany(0.1, 1, 16, 10_000_000_000_000_000.0);
  }
}
