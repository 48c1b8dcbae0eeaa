/** What rounding to a Number means: the correct choice among all the normal numbers of a scale. */
module NumberRounding {
  import opened Decimal
  import opened NumberModel
  import opened NumberGuard

  /** The largest mantissa used while rounding. */
  function Cap(scale: Scale): nat {
    if scale.Small? then MaxMantissa(scale) else MAX_REP
  }

  /** The first multiple of ten above the cap. */
  function Turn(scale: Scale): nat {
    (Cap(scale) / 10 + 1) * 10
  }

  /** The least magnitude of a normal number other than zero. */
  ghost function Least(scale: Scale): real {
    Mag(MinMantissa(scale) as real, MIN_EXPONENT)
  }

  datatype Direction = Zeroward | Awayward | Nearest

  function DirectionOf(mode: RoundingMode, negative: bool): Direction {
    match mode
    case ToNearest => Nearest
    case TowardsZero => Zeroward
    case Downward => if negative then Awayward else Zeroward
    case Upward => if negative then Zeroward else Awayward
  }

  ghost function Distance(x: real, y: real): real {
    if x < y then y - x else x - y
  }

  predicate Even(n: Number) {
    Mantissa(n) % 2 == 0
  }

  /** n is nearer to x than k, or as near and not an odd mantissa preferred to an even one. */
  ghost predicate AsNear(n: Number, k: Number, x: real) {
    var dn, dk := Distance(Magnitude(n), x), Distance(Magnitude(k), x);
    dn < dk || (dn == dk && (Magnitude(n) == Magnitude(k) || Even(n) || !Even(k)))
  }

  /** n is the normal number that the magnitude x rounds to, among all the normal numbers of the scale. */
  ghost predicate Correct(dir: Direction, x: real, n: Number, scale: Scale) {
    && IsNormal(n, scale)
    && match dir
       case Zeroward =>
         Magnitude(n) <= x && forall k | IsNormal(k, scale) && Magnitude(k) <= x :: Magnitude(k) <= Magnitude(n)
       case Awayward =>
         x <= Magnitude(n) && forall k | IsNormal(k, scale) && x <= Magnitude(k) :: Magnitude(n) <= Magnitude(k)
       case Nearest =>
         forall k | IsNormal(k, scale) :: AsNear(n, k, x)
  }

  // ---- Working mantissas: above a tenth of the cap and not above the cap ----

  predicate Working(p: nat, scale: Scale) {
    Cap(scale) / 10 < p <= Cap(scale)
  }

  lemma WorkingForm(n: Number, scale: Scale) returns (w: nat, g: int)
    requires IsNormal(n, scale) && n != ZERO
    ensures Working(w, scale) && Magnitude(n) == Mag(w as real, g) && (Even(n) <==> w % 2 == 0)
  {
    w := if n.mantissa > MAX_REP then n.mantissa / 10 else n.mantissa;
    g := Exponent(n);
    WorkingParts(n, w);
    hide Even;
    if n.mantissa > MAX_REP {
      MagShift(n.mantissa as real, n.exponent);
    }
  }

  lemma WorkingParts(n: Number, w: nat)
    requires w == if n.mantissa > MAX_REP then n.mantissa / 10 else n.mantissa
    ensures Even(n) <==> w % 2 == 0
    ensures n.mantissa > MAX_REP && n.mantissa % 10 == 0 ==> n.mantissa as real / 10.0 == w as real
  {
    var v: int := w;
    assert Mantissa(n) == if n.negative then -v else v;
  }

  /** The number with working mantissa p at exponent g. */
  function WorkingNumber(p: nat, g: int, scale: Scale): Number {
    if p < MinMantissa(scale) then Number(false, 10 * p, g - 1) else Number(false, p, g)
  }

  lemma WorkingNumberIs(p: nat, g: int, scale: Scale)
    requires Working(p, scale) && MIN_EXPONENT <= WorkingNumber(p, g, scale).exponent <= MAX_EXPONENT
    ensures IsNormal(WorkingNumber(p, g, scale), scale) && Magnitude(WorkingNumber(p, g, scale)) == Mag(p as real, g)
  {
    MagShift(p as real, g);
  }

  lemma MagNonneg(x: real, e: int)
    requires x >= 0.0
    ensures Mag(x, e) >= 0.0
  {
    MulLe(0.0, x, Pow10(e));
  }

  /** A magnitude has one working form. */
  lemma SameWorking(a: real, g: int, b: real, h: int, scale: Scale)
    requires (Cap(scale) / 10 + 1) as real <= a < Turn(scale) as real
    requires (Cap(scale) / 10 + 1) as real <= b < Turn(scale) as real
    requires Mag(a, g) == Mag(b, h)
    ensures g == h && a == b
  {
    hide Mag;
    if g < h {
      MagFar(b, g, h);
      MagOrder(a, 10.0 * b, g);
    } else if h < g {
      MagFar(a, h, g);
      MagOrder(b, 10.0 * a, h);
    } else {
      MagOrder(a, b, g);
    }
  }

  // ---- Neighbours ----

  /** The mantissa after p at the same exponent, and its working form. */
  function NextUp(p: nat, scale: Scale): nat {
    if p < Cap(scale) then p + 1 else Turn(scale)
  }

  function NextWorking(p: nat, scale: Scale): nat {
    if p < Cap(scale) then p + 1 else Cap(scale) / 10 + 1
  }

  ghost predicate Neighbours(lo: real, hi: real, scale: Scale) {
    forall n | IsNormal(n, scale) :: Magnitude(n) <= lo || Magnitude(n) >= hi
  }

  /** Every normal number of this magnitude has a mantissa of the parity of p. */
  ghost predicate ParityOf(x: real, p: nat, scale: Scale) {
    forall n | IsNormal(n, scale) && Magnitude(n) == x :: Even(n) <==> p % 2 == 0
  }

  lemma Apart(w: nat, g: int, p: nat, next: nat, e: int)
    requires w <= 10 * p && next <= 10 * w && (w <= p || w >= next)
    ensures Mag(w as real, g) <= Mag(p as real, e) || Mag(w as real, g) >= Mag(next as real, e)
  {
    hide Mag;
    if g < e {
      MagFar(p as real, g, e);
      MagOrder(w as real, 10.0 * p as real, g);
    } else if g > e {
      MagFar(w as real, e, g);
      MagOrder(10.0 * w as real, next as real, e);
    } else {
      MagOrder(w as real, p as real, e);
      MagOrder(w as real, next as real, e);
    }
  }

  /** No normal number lies strictly between a working mantissa and the next. */
  lemma NoneBetween(n: Number, p: nat, e: int, scale: Scale)
    requires IsNormal(n, scale) && Working(p, scale)
    ensures Magnitude(n) <= Mag(p as real, e) || Magnitude(n) >= Mag(NextUp(p, scale) as real, e)
  {
    if n == ZERO {
      MagnitudeSign(n);
      MagNonneg(p as real, e);
    } else {
      var w, g := WorkingForm(n, scale);
      Apart(w, g, p, NextUp(p, scale), e);
    }
  }

  lemma WorkingParity(p: nat, e: int, scale: Scale)
    requires Working(p, scale)
    ensures ParityOf(Mag(p as real, e), p, scale)
  {
    MulLt(0.0, p as real, Pow10(e));
    forall n | IsNormal(n, scale) && Magnitude(n) == Mag(p as real, e) ensures Even(n) <==> p % 2 == 0 {
      if n == ZERO {
        MagnitudeSign(n);
      } else {
        var w, g := WorkingForm(n, scale);
        SameWorking(w as real, g, p as real, e, scale);
      }
    }
  }

  /** Two neighbours, as magnitudes, and the parities of their mantissas. */
  lemma NextIsNeighbour(p: nat, e: int, scale: Scale)
    requires Working(p, scale)
    ensures Neighbours(Mag(p as real, e), Mag(NextUp(p, scale) as real, e), scale)
    ensures ParityOf(Mag(p as real, e), p, scale)
    ensures ParityOf(Mag(NextUp(p, scale) as real, e), NextWorking(p, scale), scale)
  {
    WorkingParity(p, e, scale);
    if p < Cap(scale) {
      WorkingParity(p + 1, e, scale);
    } else {
      WorkingParity(NextWorking(p, scale), e + 1, scale);
      MagShift(Turn(scale) as real, e);
    }
    hide ParityOf;
    forall n | IsNormal(n, scale)
      ensures Magnitude(n) <= Mag(p as real, e) || Magnitude(n) >= Mag(NextUp(p, scale) as real, e)
    {
      NoneBetween(n, p, e, scale);
    }
  }

  /** Whether the lower, or the upper, of two neighbours is the correct rounding of lo <= x < hi. */
  ghost predicate LowerIsRight(dir: Direction, x: real, lo: real, hi: real, p: nat, q: nat) {
    match dir
    case Zeroward => true
    case Awayward => x == lo
    case Nearest => x - lo < hi - x || (x - lo == hi - x && (p % 2 == 0 || q % 2 == 1))
  }

  ghost predicate UpperIsRight(dir: Direction, x: real, lo: real, hi: real, p: nat, q: nat) {
    match dir
    case Zeroward => false
    case Awayward => x != lo
    case Nearest => hi - x < x - lo || (hi - x == x - lo && (q % 2 == 0 || p % 2 == 1))
  }

  ghost predicate Chosen(dir: Direction, x: real, lo: real, hi: real, p: nat, q: nat, r: real) {
    || (r == lo && LowerIsRight(dir, x, lo, hi, p, q))
    || (r == hi && UpperIsRight(dir, x, lo, hi, p, q))
  }

  /** Between neighbours, the right one of the two is the correct rounding. */
  lemma RightNeighbour(dir: Direction, x: real, lo: real, hi: real, p: nat, q: nat, n: Number, scale: Scale)
    requires Neighbours(lo, hi, scale) && ParityOf(lo, p, scale) && ParityOf(hi, q, scale) && lo <= x < hi
    requires IsNormal(n, scale) && Chosen(dir, x, lo, hi, p, q, Magnitude(n))
    ensures Correct(dir, x, n, scale)
  {
    hide IsNormal, Magnitude, Even;
  }

  /** ... and nothing else is, if both neighbours are normal numbers. */
  lemma WrongNeighbour(dir: Direction, x: real, a: Number, b: Number, p: nat, q: nat, n: Number, scale: Scale)
    requires IsNormal(a, scale) && IsNormal(b, scale) && Magnitude(a) <= x < Magnitude(b)
    requires Neighbours(Magnitude(a), Magnitude(b), scale)
    requires ParityOf(Magnitude(a), p, scale) && ParityOf(Magnitude(b), q, scale)
    requires Correct(dir, x, n, scale)
    ensures Chosen(dir, x, Magnitude(a), Magnitude(b), p, q, Magnitude(n))
  {
    hide IsNormal, Magnitude, Even;
    if dir.Nearest? {
      assert AsNear(n, a, x) && AsNear(n, b, x);
    }
  }

  // ---- Below the least normal number ----

  lemma NormalSize(n: Number, scale: Scale)
    requires IsNormal(n, scale) && n != ZERO
    ensures Magnitude(n) >= Least(scale)
  {
    var m, min := n.mantissa as real, MinMantissa(scale) as real;
    MagGrows(m, MIN_EXPONENT, n.exponent);
    MagOrder(m, min, MIN_EXPONENT);
  }

  /** Zero is the wrong result: nothing but zero may be rounded away to it, or to it from above the middle. */
  ghost predicate Flushed(dir: Direction, x: real, scale: Scale) {
    match dir
    case Zeroward => false
    case Awayward => x > 0.0
    case Nearest => 2.0 * x > Least(scale)
  }

  lemma ZeroIsRightIff(dir: Direction, x: real, scale: Scale)
    requires 0.0 <= x < Least(scale)
    ensures Correct(dir, x, ZERO, scale) <==> !Flushed(dir, x, scale)
  {
    var least := Number(false, MinMantissa(scale), MIN_EXPONENT);
    assert IsNormal(least, scale) && Magnitude(least) == Least(scale) && Even(ZERO);
    MagnitudeSign(ZERO);
    forall n | IsNormal(n, scale) && n != ZERO ensures Magnitude(n) >= Least(scale) {
      NormalSize(n, scale);
    }
    hide IsNormal, Magnitude, Even, Least;
  }
}
