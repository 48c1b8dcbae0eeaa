/** Guard::doRoundUp and doNormalize: bringing any mantissa and exponent to a normal Number. */
module NumberNormalize {
  import opened Decimal
  import opened NumberModel
  import opened NumberGuard
  import opened NumberRounding
  import opened NumberLanding

  datatype Outcome = Overflow | Ok(n: Number)

  /** A mantissa of the scale's length, or one digit short, becomes a Number of the same magnitude;
      below the least normal number it becomes zero. */
  method BringIntoRange(negative: bool, mantissa: nat, exponent: int, scale: Scale) returns (n: Number)
    requires (MinMantissa(scale) + 9) / 10 <= mantissa <= MaxMantissa(scale)
    ensures n == ZERO <==> Mag(mantissa as real, exponent) < Least(scale)
    ensures n != ZERO ==> n.negative == negative && Magnitude(n) == Mag(mantissa as real, exponent)
    ensures n != ZERO ==> InRange(n, scale) && MIN_EXPONENT <= n.exponent <= exponent
    ensures n != ZERO ==> n.mantissa == mantissa || n.mantissa == 10 * mantissa
  {
    var m, e := mantissa, exponent;
    MagShift(m as real, e);
    if m < MinMantissa(scale) {
      m, e := m * 10, e - 1;
    }
    FullSize(m, e, scale);
    if e < MIN_EXPONENT {
      return ZERO;
    }
    return Number(negative, m, e);
  }

  lemma FullSize(m: nat, e: int, scale: Scale)
    requires MinMantissa(scale) <= m <= MaxMantissa(scale)
    ensures Mag(m as real, e) < Least(scale) <==> e < MIN_EXPONENT
  {
    var x, min := m as real, MinMantissa(scale) as real;
    hide Mag;
    if e < MIN_EXPONENT {
      MagFar(min, e, MIN_EXPONENT);
      MagOrder(x, 10.0 * min, e);
    } else {
      MagGrows(x, MIN_EXPONENT, e);
      MagOrder(x, min, MIN_EXPONENT);
    }
  }

  /** The outcome for a rounded mantissa w at exponent l: a Number of that magnitude, zero below the least
      normal number, an error above the largest exponent. */
  ghost predicate Packs(r: Outcome, negative: bool, w: nat, l: int, scale: Scale) {
    && (r.Overflow? <==> PackedExponent(w, l, scale) > MAX_EXPONENT)
    && (r == Ok(ZERO) <==> Mag(w as real, l) < Least(scale))
    && (r.Ok? ==> IsNormal(r.n, scale))
    && (r.Ok? && r.n != ZERO ==> r.n.negative == negative && Magnitude(r.n) == Mag(w as real, l))
  }

  /** The exponent at which the mantissa has the scale's length. */
  function PackedExponent(w: nat, l: int, scale: Scale): int {
    if w < MinMantissa(scale) then l - 1 else l
  }

  /** At the cap of the large scale, what rounds up once rounds up again one digit later. */
  lemma SecondRoundGoesUp(mode: RoundingMode, sign: bool, f: real)
    requires 0.0 <= f < 1.0 && RoundsAway(mode, sign, Cap(Large), f)
    ensures RoundsAway(mode, sign, Cap(Large) / 10, Dropped(Cap(Large), f))
  {
    assert Cap(Large) % 10 == 7;
  }

  /** Guard::doRoundUp, together with the step that brings the mantissa back into range. The direction comes
      from the sign the guard was given, not from the number's. */
  method DoRoundUp(g: Guard, mode: RoundingMode, negative: bool, mantissa: nat, exponent: int, scale: Scale,
                   ghost f: real)
    returns (r: Outcome)
    requires g.Tracks(f) && (Cap(scale) + 1) / 10 <= mantissa <= Cap(scale)
    modifies g
    ensures var (w, l) := Landed(mode, old(g.sbit), mantissa, f, exponent, scale); Packs(r, negative, w, l, scale)
    decreases mantissa
  {
    var m, e := mantissa, exponent;
    var round := g.Round(mode);
    g.RoundIsExact(mode, m, f);
    hide RoundsAway, Packs;
    if round == 1 || (round == 0 && m % 2 == 1) {
      if scale.Large? {
        if m < MaxMantissa(scale) && m < MAX_REP {
          m := m + 1;
        } else {
          SecondRoundGoesUp(mode, g.sbit, f);
          m, e := g.DropDigit(m, e, f);
          r := DoRoundUp(g, mode, negative, m, e, scale, Dropped(mantissa, f));
          return;
        }
      } else {
        m := m + 1;
        if m > MaxMantissa(scale) || m > MAX_REP {
          m, e := m / 10, e + 1;
        }
      }
    }
    r := Finish(negative, m, e, scale);
  }

  method Finish(negative: bool, mantissa: nat, exponent: int, scale: Scale) returns (r: Outcome)
    requires (Cap(scale) + 1) / 10 <= mantissa <= Cap(scale)
    ensures Packs(r, negative, mantissa, exponent, scale)
  {
    var n := BringIntoRange(negative, mantissa, exponent, scale);
    FinishExponent(n, mantissa, exponent, scale);
    hide Mag, Magnitude, Least;
    if n.exponent > MAX_EXPONENT {
      return Overflow;
    }
    return Ok(n);
  }

  /** A Number of the right length has the exponent that the mantissa asks for. */
  lemma FinishExponent(n: Number, w: nat, l: int, scale: Scale)
    requires (Cap(scale) + 1) / 10 <= w <= Cap(scale)
    requires n == ZERO <==> Mag(w as real, l) < Least(scale)
    requires n != ZERO ==> InRange(n, scale) && Magnitude(n) == Mag(w as real, l)
    requires n != ZERO ==> n.mantissa == w || n.mantissa == 10 * w
    ensures n == ZERO ==> PackedExponent(w, l, scale) < MIN_EXPONENT
    ensures n != ZERO ==> n.exponent == PackedExponent(w, l, scale)
  {
    var m := Number(false, if w < MinMantissa(scale) then 10 * w else w, PackedExponent(w, l, scale));
    MagShift(w as real, l);
    FullSize(m.mantissa, m.exponent, scale);
    if n != ZERO {
      MagnitudeOrder(n, m, scale);
    }
  }

  // ---- doNormalize ----

  /** The exact mantissa x behind an integer one: equal to it, or above it by what `dropped` reports.
      Whatever was dropped is below the digits that will be kept. */
  ghost predicate Behind(mantissa: nat, dropped: bool, x: real, scale: Scale) {
    && mantissa as real <= x < mantissa as real + 1.0
    && (dropped <==> x > mantissa as real)
    && (dropped ==>
          || mantissa > MaxMantissa(scale)
          || (x - mantissa as real < 0.005 && 100 * mantissa >= MinMantissa(scale)))
  }

  ghost predicate Overflows(mode: RoundingMode, negative: bool, x: real, scale: Scale) {
    var cap := Cap(scale) as real;
    || x >= Mag(cap + 1.0, MAX_EXPONENT)
    || (scale.Small? && DirectionOf(mode, negative).Awayward? && x > Mag(cap, MAX_EXPONENT))
    || (scale.Small? && mode.ToNearest? && x >= Mag(cap + 0.5, MAX_EXPONENT))
  }

  /** Where normalization does not give the correct rounding: below the least normal number, where it always
      gives zero, and in the cusp. */
  ghost predicate Misrounds(dir: Direction, x: real, scale: Scale) {
    if x < Least(scale) then Flushed(dir, x, scale) else InCusp(dir, x, scale)
  }

  /** What normalization promises about the exact magnitude x: which outcome, and whether it is correct. */
  ghost predicate Normalized(mode: RoundingMode, negative: bool, x: real, scale: Scale, r: Outcome) {
    && (r.Overflow? <==> Overflows(mode, negative, x, scale))
    && (r == Ok(ZERO) <==> x < Least(scale))
    && (r.Ok? && r.n != ZERO ==> r.n.negative == negative && Lands(mode, negative, x, scale, r.n))
    && (r.Ok? ==>
          && IsNormal(r.n, scale)
          && (Correct(DirectionOf(mode, negative), x, r.n, scale) <==>
              !Misrounds(DirectionOf(mode, negative), x, scale)))
  }

  /** The magnitude of n, from the settled form of x; there is only one such form. */
  ghost predicate Lands(mode: RoundingMode, sign: bool, x: real, scale: Scale, n: Number) {
    forall m, f, e | SettledAt(x, m, f, e, scale) :: Magnitude(n) == LandedMagnitude(mode, sign, m, f, e, scale)
  }

  lemma LandsThere(mode: RoundingMode, sign: bool, m: nat, f: real, e: int, scale: Scale, n: Number)
    requires Settled(m, f, scale) && Magnitude(n) == LandedMagnitude(mode, sign, m, f, e, scale)
    ensures Lands(mode, sign, Mag(m as real + f, e), scale, n)
  {
    var x := Mag(m as real + f, e);
    forall m', f', e' | SettledAt(x, m', f', e', scale)
      ensures Magnitude(n) == LandedMagnitude(mode, sign, m', f', e', scale)
    {
      SettledUnique(x, m, f, e, m', f', e', scale);
    }
  }

  lemma LandedRange(mode: RoundingMode, sign: bool, m: nat, f: real, e: int, scale: Scale)
    requires Settled(m, f, scale)
    ensures var (w, l) := Landed(mode, sign, m, f, e, scale);
            && (Cap(scale) + 1) / 10 <= w <= Cap(scale)
            && (MisroundedAt(DirectionOf(mode, sign), m, f, scale) ==>
                  PackedExponent(w, l, scale) == if m == Cap(scale) then e else e - 1)
  {
  }

  /** A result that is neither zero nor an error is correct outside the cusp and only there. */
  lemma PackedIsCorrect(mode: RoundingMode, sign: bool, negative: bool, m: nat, f: real, e: int, scale: Scale,
                        r: Outcome)
    requires Settled(m, f, scale)
    requires var (w, l) := Landed(mode, sign, m, f, e, scale); Packs(r, negative, w, l, scale)
    requires r.Ok? && r.n != ZERO
    ensures Magnitude(r.n) == LandedMagnitude(mode, sign, m, f, e, scale)
    ensures Correct(DirectionOf(mode, sign), Mag(m as real + f, e), r.n, scale) <==>
            !InCusp(DirectionOf(mode, sign), Mag(m as real + f, e), scale)
  {
    hide Mag, Landed, Correct, InCusp, Settled, MisroundedAt, Magnitude, Cap, IsNormal, Least;
    var (w, l) := Landed(mode, sign, m, f, e, scale);
    LandedRange(mode, sign, m, f, e, scale);
    PackedInRange(r, negative, w, l, scale);
    LandsRightIff(mode, sign, m, f, e, r.n, scale);
  }

  lemma PackedInRange(r: Outcome, negative: bool, w: nat, l: int, scale: Scale)
    requires Packs(r, negative, w, l, scale) && r.Ok? && r.n != ZERO && (Cap(scale) + 1) / 10 <= w <= Cap(scale)
    ensures MIN_EXPONENT <= PackedExponent(w, l, scale) <= MAX_EXPONENT
  {
    MagShift(w as real, l);
    FullSize(if w < MinMantissa(scale) then 10 * w else w, PackedExponent(w, l, scale), scale);
  }

  /** Where the mantissa and exponent stand before the final rounding. */
  ghost predicate Ready(m: nat, f: real, e: int, scale: Scale) {
    && Settled(m, f, scale)
    && (if m >= MinMantissa(scale) then e >= MIN_EXPONENT else MIN_EXPONENT < e <= MAX_EXPONENT)
  }

  /** The exponent is too large, or becomes too large when the small scale carries into a new digit. */
  ghost predicate PastMax(mode: RoundingMode, sign: bool, m: nat, f: real, e: int, scale: Scale) {
    || e > MAX_EXPONENT
    || (e == MAX_EXPONENT && scale.Small? && m == Cap(scale) && RoundsAway(mode, sign, m, f))
  }

  lemma OverflowsWhen(mode: RoundingMode, sign: bool, m: nat, f: real, e: int, scale: Scale)
    requires Ready(m, f, e, scale)
    ensures Overflows(mode, sign, Mag(m as real + f, e), scale) <==> PastMax(mode, sign, m, f, e, scale)
  {
    var x, cap := m as real + f, Cap(scale) as real;
    hide Mag;
    if e > MAX_EXPONENT {
      MagFar(x, MAX_EXPONENT, e);
      MagOrder(10.0 * x, cap + 1.0, MAX_EXPONENT);
    } else if e == MAX_EXPONENT {
      MagOrder(x, cap + 1.0, e);
      MagOrder(x, cap, e);
      MagOrder(x, cap + 0.5, e);
    } else {
      var tenth := (cap + 1.0) / 10.0;
      MagShift(cap + 1.0, MAX_EXPONENT - 1);
      MagGrows(x, e, MAX_EXPONENT - 1);
      MagOrder(x, cap + 1.0, MAX_EXPONENT - 1);
      MagOrder(tenth, cap, MAX_EXPONENT);
      MagOrder(cap, cap + 0.5, MAX_EXPONENT);
      MagOrder(cap, cap + 1.0, MAX_EXPONENT);
    }
  }

  lemma PackedWhen(mode: RoundingMode, sign: bool, m: nat, f: real, e: int, scale: Scale)
    requires Ready(m, f, e, scale)
    ensures var (w, l) := Landed(mode, sign, m, f, e, scale);
            && MIN_EXPONENT <= PackedExponent(w, l, scale)
            && (PackedExponent(w, l, scale) > MAX_EXPONENT <==> PastMax(mode, sign, m, f, e, scale))
  {
    hide RoundsAway;
  }

  lemma ReadyNormalizes(mode: RoundingMode, negative: bool, m: nat, f: real, e: int, scale: Scale, r: Outcome)
    requires Ready(m, f, e, scale)
    requires var (w, l) := Landed(mode, negative, m, f, e, scale); Packs(r, negative, w, l, scale)
    ensures Normalized(mode, negative, Mag(m as real + f, e), scale, r)
  {
    BelowLeastIff(m, f, e, scale);
    OverflowsWhen(mode, negative, m, f, e, scale);
    PackedWhen(mode, negative, m, f, e, scale);
    LandedRange(mode, negative, m, f, e, scale);
    var (w, l) := Landed(mode, negative, m, f, e, scale);
    FullSizePacked(w, l, scale);
    hide Mag, Overflows, Landed, Correct, InCusp, Settled, Magnitude, Least, Lands, LandedMagnitude;
    if r.Ok? {
      PackedIsCorrect(mode, negative, negative, m, f, e, scale, r);
      LandsThere(mode, negative, m, f, e, scale, r.n);
    }
  }

  lemma FullSizePacked(w: nat, l: int, scale: Scale)
    requires (Cap(scale) + 1) / 10 <= w <= Cap(scale)
    ensures Mag(w as real, l) < Least(scale) <==> PackedExponent(w, l, scale) < MIN_EXPONENT
  {
    MagShift(w as real, l);
    FullSize(if w < MinMantissa(scale) then 10 * w else w, PackedExponent(w, l, scale), scale);
  }

  lemma ZeroWhen(m: nat, f: real, e: int, scale: Scale)
    requires 0.0 <= f < 1.0 && m <= MaxMantissa(scale)
    requires e < MIN_EXPONENT || (m < MinMantissa(scale) && e <= MIN_EXPONENT)
    ensures Mag(m as real + f, e) < Least(scale)
  {
    var x, min := m as real + f, MinMantissa(scale) as real;
    hide Mag;
    if m < MinMantissa(scale) {
      MagOrder(x, min, e);
      MagGrows(min, e, MIN_EXPONENT);
    } else {
      MagOrder(x, 10.0 * min, e);
      MagFar(min, e, MIN_EXPONENT);
    }
  }

  lemma ZeroNormalizes(mode: RoundingMode, negative: bool, x: real, scale: Scale)
    requires 0.0 <= x < Least(scale)
    ensures Normalized(mode, negative, x, scale, Ok(ZERO))
  {
    var min, cap := MinMantissa(scale) as real, Cap(scale) as real;
    ZeroIsRightIff(DirectionOf(mode, negative), x, scale);
    hide Mag, Correct, Flushed, InCusp;
    MagGrows(min, MIN_EXPONENT, MAX_EXPONENT);
    MagOrder(min, cap, MAX_EXPONENT);
    MagOrder(cap, cap + 0.5, MAX_EXPONENT);
    MagOrder(cap, cap + 1.0, MAX_EXPONENT);
  }

  /** A mantissa above the cap with no larger exponent left. */
  lemma OverflowNormalizes(mode: RoundingMode, negative: bool, m: nat, f: real, e: int, scale: Scale)
    requires 0.0 <= f && m > Cap(scale) && e >= MAX_EXPONENT
    ensures Normalized(mode, negative, Mag(m as real + f, e), scale, Overflow)
  {
    var x, min, cap := m as real + f, MinMantissa(scale) as real, Cap(scale) as real;
    hide Mag;
    MagOrder(x, cap + 1.0, MAX_EXPONENT);
    MagGrows(x, MAX_EXPONENT, e);
    MagGrows(min, MIN_EXPONENT, MAX_EXPONENT);
    MagOrder(x, min, MAX_EXPONENT);
  }

  method ScaleUp(mantissa: nat, exponent: int, scale: Scale, dropped: bool, ghost x: real)
    returns (m: nat, e: int, ghost f: real)
    requires mantissa > 0 && mantissa < TWO_128 && Behind(mantissa, dropped, x, scale)
    ensures m < TWO_128 && 0.0 <= f < 1.0 && (dropped <==> f > 0.0)
    ensures Mag(m as real + f, e) == Mag(x, exponent)
    ensures m < MinMantissa(scale) ==> e <= MIN_EXPONENT
    ensures m <= MaxMantissa(scale) ==> f < 0.5
  {
    m, e := mantissa, exponent;
    f := x - mantissa as real;
    hide Mag;
    while m < MinMantissa(scale) && e > MIN_EXPONENT
      invariant m < TWO_128 && 0.0 <= f < 1.0 && (dropped <==> f > 0.0)
      invariant 0 < m
      invariant Mag(m as real + f, e) == Mag(x, exponent)
      invariant m < MinMantissa(scale) && dropped ==>
        (f < 0.005 && 100 * m >= MinMantissa(scale)) || (f < 0.05 && 10 * m >= MinMantissa(scale))
      invariant m <= MaxMantissa(scale) ==> f < 0.5
      decreases MinMantissa(scale) - m
    {
      MagShift(m as real + f, e);
      m, e, f := m * 10, e - 1, 10.0 * f;
    }
  }

  method DropToMax(g: Guard, mantissa: nat, exponent: int, scale: Scale, ghost f0: real)
    returns (m: nat, e: int, ghost f: real)
    requires mantissa < TWO_128 && g.Marks(f0) && (mantissa <= MaxMantissa(scale) ==> g.Tracks(f0))
    modifies g
    ensures g.sbit == old(g.sbit) && m < TWO_128
    ensures Mag(m as real + f, e) == Mag(mantissa as real + f0, exponent)
    ensures g.Marks(f) && (m > MaxMantissa(scale) ==> e >= MAX_EXPONENT)
    ensures m <= MaxMantissa(scale) ==> g.Tracks(f)
    ensures m < MinMantissa(scale) ==> e == exponent && m == mantissa
  {
    m, e, f := mantissa, exponent, f0;
    hide Mag;
    while m > MaxMantissa(scale)
      invariant g.sbit == old(g.sbit) && m < TWO_128
      invariant Mag(m as real + f, e) == Mag(mantissa as real + f0, exponent)
      invariant g.Marks(f) && (m <= MaxMantissa(scale) ==> g.Tracks(f))
      invariant m < MinMantissa(scale) ==> e == exponent && m == mantissa
      decreases m
    {
      if e >= MAX_EXPONENT {
        break;
      }
      MagShift(m as real + f, e);
      ghost var f1 := Dropped(m, f);
      m, e := g.DropDigit(m, e, f);
      f := f1;
    }
  }

  /** The mantissa fits the working range after at most one more digit. */
  lemma CutSettles(m: nat, f: real, scale: Scale)
    requires Cap(scale) < m <= MaxMantissa(scale) && 0.0 <= f < 1.0
    ensures Settled(m / 10, Dropped(m, f), scale) && m / 10 < MinMantissa(scale)
  {
  }

  lemma StaysSettled(m: nat, f: real, scale: Scale)
    requires MinMantissa(scale) <= m <= MaxMantissa(scale) && m <= MAX_REP && 0.0 <= f < 1.0
    ensures Settled(m, f, scale)
  {
  }

  /** The last part of doNormalize: a mantissa above the cap loses one more digit before it is rounded. */
  method CutAndRound(g: Guard, mode: RoundingMode, negative: bool, mantissa: nat, exponent: int, scale: Scale,
                     ghost f: real)
    returns (r: Outcome)
    requires MinMantissa(scale) <= mantissa <= MaxMantissa(scale) && exponent >= MIN_EXPONENT
    requires g.Tracks(f) && g.sbit == negative
    modifies g
    ensures Normalized(mode, negative, Mag(mantissa as real + f, exponent), scale, r)
  {
    hide Normalized, Mag, Landed, Packs;
    var m, e := mantissa, exponent;
    if m > MAX_REP {
      if e >= MAX_EXPONENT {
        OverflowNormalizes(mode, negative, m, f, e, scale);
        return Overflow;
      }
      CutSettles(m, f, scale);
      MagShift(m as real + f, e);
      m, e := g.DropDigit(m, e, f);
      r := DoRoundUp(g, mode, negative, m, e, scale, Dropped(mantissa, f));
      ReadyNormalizes(mode, negative, m, Dropped(mantissa, f), e, scale, r);
    } else {
      StaysSettled(m, f, scale);
      r := DoRoundUp(g, mode, negative, m, e, scale, f);
      ReadyNormalizes(mode, negative, m, f, e, scale, r);
    }
  }

  /** doNormalize: every input becomes zero, an overflow or the normal number it rounds to. */
  method Normalize(mode: RoundingMode, negative: bool, mantissa: nat, exponent: int, scale: Scale, dropped: bool,
                   ghost x: real)
    returns (r: Outcome)
    requires mantissa < TWO_128 && Behind(mantissa, dropped, x, scale)
    ensures Normalized(mode, negative, Mag(x, exponent), scale, r)
  {
    if mantissa == 0 {
      ZeroMantissa(mode, negative, exponent, scale);
      return Ok(ZERO);
    }
    ghost var f: real;
    var m, e;
    MagNonneg(x, exponent);
    hide Normalized, Mag, Settled, Landed, Packs;
    m, e, f := ScaleUp(mantissa, exponent, scale, dropped, x);
    var g := new Guard(negative, dropped);
    m, e, f := DropToMax(g, m, e, scale, f);
    if m > MaxMantissa(scale) {
      OverflowNormalizes(mode, negative, m, f, e, scale);
      return Overflow;
    }
    if e < MIN_EXPONENT || m < MinMantissa(scale) {
      ZeroWhen(m, f, e, scale);
      ZeroNormalizes(mode, negative, Mag(x, exponent), scale);
      return Ok(ZERO);
    }
    r := CutAndRound(g, mode, negative, m, e, scale, f);
  }

  lemma ZeroMantissa(mode: RoundingMode, negative: bool, e: int, scale: Scale)
    ensures Normalized(mode, negative, Mag(0.0, e), scale, Ok(ZERO))
  {
    MagOrder(0.0, MinMantissa(scale) as real, MIN_EXPONENT);
    MagNonneg(0.0, e);
    ZeroNormalizes(mode, negative, Mag(0.0, e), scale);
  }

  /** Half the least normal number and nine tenths of it become zero, rounded upward and to nearest. */
  lemma FlushExample(r: Outcome, r': Outcome)
    requires Normalized(Upward, false, Mag(5_000_000_000_000_000.0, -32769), Small, r)
    requires Normalized(ToNearest, false, Mag(9_000_000_000_000_000.0, -32769), Small, r')
    ensures r == r' == Ok(ZERO)
    ensures !Correct(Awayward, Mag(5_000_000_000_000_000.0, -32769), r.n, Small)
    ensures !Correct(Nearest, Mag(9_000_000_000_000_000.0, -32769), r'.n, Small)
  {
    var a, b, least := 5_000_000_000_000_000.0, 9_000_000_000_000_000.0, 10_000_000_000_000_000.0;
    MagShift(1_000_000_000_000_000.0, MIN_EXPONENT);
    MagOrder(0.0, a, -32769);
    MagOrder(a, least, -32769);
    MagOrder(b, least, -32769);
    MagOrder(b - (least - b), 0.0, -32769);
    assert 2.0 * Mag(b, -32769) - Mag(least, -32769) == Mag(b - (least - b), -32769);
    hide Mag, Correct, InCusp;
  }
}
