/** The guard digits that decide how a Number is rounded. */
module NumberGuard {
  import opened Bits

  const TWO_128: nat := 0x1_0000_0000_0000_0000_0000_0000_0000_0000
  const TWO_64: nat := 0x1_0000_0000_0000_0000
  const TWO_60: nat := 0x1000_0000_0000_0000
  const HALF: nat := 0x5000_0000_0000_0000

  // ---- Division by ten without dividing ----

  /** 0.8 u, too small by a little. */
  function FourFifths(u: nat): nat {
    var q0 := u / 2 + u / 4;
    var q1 := q0 + q0 / 16;
    var q2 := q1 + q1 / 256;
    var q3 := q2 + q2 / 65536;
    var q4 := q3 + q3 / 0x1_0000_0000;
    q4 + q4 / TWO_64
  }

  lemma FourFifthsBounds(u: nat)
    requires u < TWO_128
    ensures 5 * FourFifths(u) <= 4 * u
    ensures 4 * u <= 5 * FourFifths(u) + 38
  {
    var q0 := u / 2 + u / 4;
    assert 3 * u - 5 <= 4 * q0 <= 3 * u;
    var q1 := q0 + q0 / 16;
    assert 17 * q0 - 15 <= 16 * q1 <= 17 * q0;
    var q2 := q1 + q1 / 256;
    assert 257 * q1 - 255 <= 256 * q2 <= 257 * q1;
    var q3 := q2 + q2 / 65536;
    assert 65537 * q2 - 65535 <= 65536 * q3 <= 65537 * q2;
    var q4 := q3 + q3 / 0x1_0000_0000;
    assert 0x1_0000_0001 * q3 - 0xFFFF_FFFF <= 0x1_0000_0000 * q4 <= 0x1_0000_0001 * q3;
    var q5 := q4 + q4 / TWO_64;
    assert (TWO_64 + 1) * q4 - (TWO_64 - 1) <= TWO_64 * q5 <= (TWO_64 + 1) * q4;
  }

  /** q = p / 8 is the quotient or one less; the remainder tells which. */
  function Corrected(u: nat, p: nat): (r: (nat, nat))
    requires 5 * p <= 4 * u <= 5 * p + 38
    ensures r == (u / 10, u % 10)
  {
    var q := p / 8;
    var r := u - (q * 8 + q * 2);
    var c := (r + 6) / 16;
    (q + c, r - c * 10)
  }

  /** The shift-and-add form computes the quotient and the remainder of every 128-bit number. */
  function DivU10(u: nat): (r: (nat, nat))
    requires u < TWO_128
    ensures r == (u / 10, u % 10)
  {
    FourFifthsBounds(u);
    Corrected(u, FourFifths(u))
  }

  // ---- Guard ----

  datatype RoundingMode = ToNearest | TowardsZero | Downward | Upward

  /** Whether a magnitude m + f is to be rounded away from zero, for a fraction 0 <= f < 1. */
  ghost predicate RoundsAway(mode: RoundingMode, negative: bool, m: nat, f: real) {
    match mode
    case TowardsZero => false
    case Downward => negative && f > 0.0
    case Upward => !negative && f > 0.0
    case ToNearest => f > 0.5 || (f == 0.5 && m % 2 == 1)
  }

  /** Sixteen decimal digits, the last pushed on top, and whether anything non-zero fell off the end. */
  class Guard {
    var digits: nat
    var xbit: bool
    var sbit: bool

    /** The guard knows whether the fraction f is zero. */
    ghost predicate Marks(f: real)
      reads this
    {
      && digits < TWO_64
      && 0.0 <= f < 1.0
      && (f > 0.0 <==> digits > 0 || xbit)
    }

    /** It also knows on which side of one half f lies. */
    ghost predicate Tracks(f: real)
      reads this
    {
      && Marks(f)
      && (f > 0.5 <==> digits > HALF || (digits == HALF && xbit))
      && (f == 0.5 <==> digits == HALF && !xbit)
    }

    /** The guard holds exactly these sixteen digits, and nothing fell off. */
    ghost predicate Spells(s: seq<nat>)
      reads this
    {
      IsDigits(s) && digits == Word(s) && !xbit
    }

    constructor (negative: bool, dropped: bool)
      ensures digits == 0 && xbit == dropped && sbit == negative
    {
      digits, xbit, sbit := 0, dropped, negative;
    }

    method Push(d: nat, ghost f: real)
      requires d < 10 && Marks(f)
      modifies this
      ensures Tracks((d as real + f) / 10.0) && sbit == old(sbit)
      ensures xbit == (old(xbit) || old(digits) % 16 != 0) && digits == TWO_60 * d + old(digits) / 16
    {
      xbit := xbit || digits % 16 != 0;
      var placed := TWO_60 * (d % 16);
      PlaceDigit(d, digits / 16);
      PushedDigit(digits, old(xbit), d, f);
      hide Or;
      digits := Or(placed, digits / 16);
    }

    /** Take back the digit on top: what remains is ten times the fraction, less that digit. */
    method Pop(ghost s: seq<nat>) returns (d: nat)
      requires Spells(s)
      modifies this
      ensures d == s[0] && sbit == old(sbit) && Spells(s[1..] + [0])
      ensures Fraction(s[1..] + [0]) == 10.0 * Fraction(s) - d as real
    {
      PopWord(s);
      FractionZeroTail(s[1..]);
      hide Word, Fraction;
      d := digits / TWO_60;
      digits := digits * 16 % TWO_64;
      assert Fraction(s) == (s[0] as real + Fraction(s[1..])) / 10.0 by { FractionStep(s); }
    }

    /** Drop the last digit of the mantissa into the guard: the magnitude is divided by ten, exactly. */
    method DropDigit(mantissa: nat, exponent: int, ghost f: real) returns (m: nat, e: int)
      requires mantissa < TWO_128 && Marks(f)
      modifies this
      ensures m == mantissa / 10 && e == exponent + 1 && sbit == old(sbit)
      ensures Tracks(Dropped(mantissa, f))
      ensures m as real + Dropped(mantissa, f) == (mantissa as real + f) / 10.0
      ensures xbit == (old(xbit) || old(digits) % 16 != 0)
      ensures digits == TWO_60 * (mantissa % 10) + old(digits) / 16
    {
      var (q, r) := DivU10(mantissa);
      Push(r, f);
      assert mantissa as real == 10.0 * q as real + r as real;
      m, e := q, exponent + 1;
    }

    /** 1 is up, -1 is down, 0 is exactly half. */
    function Round(mode: RoundingMode): int
      reads this
    {
      match mode
      case TowardsZero => -1
      case Downward => if sbit && (digits > 0 || xbit) then 1 else -1
      case Upward => if sbit then -1 else if digits > 0 || xbit then 1 else -1
      case ToNearest =>
        if digits > HALF then 1 else if digits < HALF then -1 else if xbit then 1 else 0
    }

    /** The decision taken from the digits is the one the exact fraction asks for. */
    lemma RoundIsExact(mode: RoundingMode, m: nat, f: real)
      requires Tracks(f)
      ensures Round(mode) == 1 || (Round(mode) == 0 && m % 2 == 1) <==> RoundsAway(mode, sbit, m, f)
    {
    }
  }

  /** The fraction left after one more digit has been dropped. */
  ghost function Dropped(mantissa: nat, f: real): real {
    ((mantissa % 10) as real + f) / 10.0
  }

  lemma PlaceIsPow2()
    ensures TWO_60 == Pow2(60)
  {
    assert Pow2(5) == 32;
    hide Pow2;
    Pow2Sum(5, 5);
    Pow2Sum(10, 10);
    Pow2Sum(20, 20);
    Pow2Sum(40, 20);
  }

  lemma {:induction false} Pow2Sum(j: nat, k: nat)
    ensures Pow2(j + k) == Pow2(j) * Pow2(k)
    decreases j
  {
    if j > 0 {
      Pow2Sum(j - 1, k);
      assert Pow2(j + k) == 2 * Pow2(j - 1 + k);
      MulTwice(Pow2(j - 1), Pow2(k));
    }
  }

  lemma PlaceDigit(d: nat, low: nat)
    requires d < 16 && low < TWO_60
    ensures Or(TWO_60 * d, low) == TWO_60 * d + low
  {
    hide Or, Pow2;
    PlaceIsPow2();
    OrDisjoint(d, TWO_60 * d, low, 60, TWO_60);
  }

  /** Only the top digit, and whether anything is below it, matters for the comparison with one half. */
  lemma PushedDigit(digits: nat, xbit: bool, d: nat, f: real)
    requires d < 10 && digits < TWO_64 && 0.0 <= f < 1.0 && (f > 0.0 <==> digits > 0 || xbit)
    ensures var digits' := TWO_60 * d + digits / 16;
            var xbit' := xbit || digits % 16 != 0;
            var f' := (d as real + f) / 10.0;
            && digits' < TWO_64
            && (f' > 0.0 <==> digits' > 0 || xbit')
            && (f' > 0.5 <==> digits' > HALF || (digits' == HALF && xbit'))
            && (f' == 0.5 <==> digits' == HALF && !xbit')
  {
    assert digits / 16 < TWO_60;
    assert digits > 0 <==> digits / 16 > 0 || digits % 16 != 0;
    if d < 5 { assert d as real <= 4.0; }
    if d > 5 { assert d as real >= 6.0; }
  }

  // ---- The digits one by one ----

  predicate IsDigits(s: seq<nat>) {
    |s| == 16 && forall i | 0 <= i < |s| :: s[i] < 10
  }

  /** Digits as the nibbles of a word. */
  function Word(s: seq<nat>): nat {
    if s == [] then 0 else 16 * Word(s[..|s| - 1]) + s[|s| - 1]
  }

  /** Digits as the decimal fraction 0.s. */
  ghost function Fraction(s: seq<nat>): real {
    if s == [] then 0.0 else (s[0] as real + Fraction(s[1..])) / 10.0
  }

  function Pow16(n: nat): (p: nat)
    ensures p > 0
  {
    if n == 0 then 1 else 16 * Pow16(n - 1)
  }

  lemma {:induction false} WordFront(d: nat, t: seq<nat>)
    ensures Word([d] + t) == d * Pow16(|t|) + Word(t)
    decreases |t|
  {
    var s := [d] + t;
    if t == [] {
      assert s[..0] == [];
    } else {
      var n := |t| - 1;
      assert s[..|s| - 1] == [d] + t[..n];
      WordFront(d, t[..n]);
      SixteenTimes(d, Pow16(n));
    }
  }

  lemma SixteenTimes(d: nat, p: nat)
    ensures d * (16 * p) == 16 * (d * p)
  {}

  lemma {:induction false} WordBound(s: seq<nat>)
    requires forall i | 0 <= i < |s| :: s[i] < 10
    ensures Word(s) < Pow16(|s|)
    decreases |s|
  {
    if s != [] {
      WordBound(s[..|s| - 1]);
    }
  }

  lemma PlaceIsPow16()
    ensures Pow16(15) == TWO_60
  {
    assert Pow16(5) == 0x10_0000;
    Pow16Sum(5, 5);
    Pow16Sum(10, 5);
  }

  lemma {:induction false} Pow16Sum(j: nat, k: nat)
    ensures Pow16(j + k) == Pow16(j) * Pow16(k)
    decreases j
  {
    if j > 0 {
      Pow16Sum(j - 1, k);
      assert Pow16(j + k) == 16 * Pow16(j - 1 + k);
      assert (16 * Pow16(j - 1)) * Pow16(k) == 16 * (Pow16(j - 1) * Pow16(k));
    }
  }

  /** The top digit of a word, and the word without it. */
  lemma TopDigit(s: seq<nat>)
    requires IsDigits(s)
    ensures Word(s) == TWO_60 * s[0] + Word(s[1..]) && Word(s[1..]) < TWO_60
    ensures Word(s) / TWO_60 == s[0] && Word(s) < TWO_64
  {
    PlaceIsPow16();
    hide Pow16, Word;
    assert s == [s[0]] + s[1..];
    WordFront(s[0], s[1..]);
    WordBound(s[1..]);
  }

  lemma PopWord(s: seq<nat>)
    requires IsDigits(s)
    ensures Word(s) / TWO_60 == s[0] && IsDigits(s[1..] + [0])
    ensures Word(s) * 16 % TWO_64 == Word(s[1..] + [0])
  {
    TopDigit(s);
    assert (s[1..] + [0])[..15] == s[1..];
  }

  lemma PushWord(s: seq<nat>, d: nat)
    requires IsDigits(s) && d < 10
    ensures IsDigits([d] + s[..15])
    ensures Word([d] + s[..15]) == TWO_60 * d + Word(s) / 16 && Word(s) % 16 == s[15]
  {
    PlaceIsPow16();
    hide Pow16;
    WordFront(d, s[..15]);
  }

  lemma FractionStep(s: seq<nat>)
    requires s != []
    ensures Fraction(s) == (s[0] as real + Fraction(s[1..])) / 10.0
  {}

  lemma {:induction false} FractionZeroTail(s: seq<nat>)
    ensures Fraction(s + [0]) == Fraction(s)
    decreases |s|
  {
    if s != [] {
      assert (s + [0])[1..] == s[1..] + [0];
      FractionZeroTail(s[1..]);
    }
  }

  lemma {:induction false} FractionRange(s: seq<nat>)
    requires forall i | 0 <= i < |s| :: s[i] < 10
    ensures 0.0 <= Fraction(s) < 1.0
    ensures Fraction(s) == 0.0 <==> Word(s) == 0
    ensures Word(s) == 0 <==> forall i | 0 <= i < |s| :: s[i] == 0
    decreases |s|
  {
    if s != [] {
      FractionRange(s[1..]);
      assert s == [s[0]] + s[1..];
      WordFront(s[0], s[1..]);
      NonzeroTerm(s[0], Pow16(|s[1..]|));
    }
  }

  lemma NonzeroTerm(d: nat, p: nat)
    requires p > 0
    ensures d * p == 0 <==> d == 0
    ensures d * p >= 0
  {}

  /** A guard that spells its digits tracks the fraction they make. */
  lemma SpellsTracks(digits: nat, s: seq<nat>)
    requires IsDigits(s) && digits == Word(s)
    ensures digits < TWO_64 && 0.0 <= Fraction(s) < 1.0
    ensures Fraction(s) > 0.0 <==> digits > 0
    ensures Fraction(s) > 0.5 <==> digits > HALF
    ensures Fraction(s) == 0.5 <==> digits == HALF
  {
    TopDigit(s);
    FractionRange(s[1..]);
    FractionStep(s);
    hide Word, Fraction;
    if s[0] < 5 { assert s[0] as real <= 4.0; }
    if s[0] > 5 { assert s[0] as real >= 6.0; }
  }

  const NO_DIGITS: seq<nat> := seq(16, i => 0)

  lemma NoDigits()
    ensures IsDigits(NO_DIGITS) && Word(NO_DIGITS) == 0 && Fraction(NO_DIGITS) == 0.0
  {
    FractionRange(NO_DIGITS);
  }
}
