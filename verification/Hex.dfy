/** The two hexadecimal parsers -- the one inside BaseUInt and strUnHex -- and the printer. */
module Hex {
  import opened Bits
  import opened BaseUInt
  import opened Wrappers

  // ---- Single characters (as unsigned byte codes) ----

  /** kDigitLookupTable, as its initialiser fills it: three runs of codes. */
  function HexCharToInt(c: Byte): Option<nat> {
    if 48 <= c < 58 then Some(c - 48)
    else if 65 <= c < 71 then Some(10 + (c - 65))
    else if 97 <= c < 103 then Some(10 + (c - 97))
    else None
  }

  /** hexCharToUInt in parseFromStringView: a range test, three cases, and a test of the result.
      A code above 127 is a negative char, or one above 'f': rejected either way. */
  function HexCharToUInt(c: Byte): Option<nat> {
    if c < 48 || c > 102 then None
    else
      var nibble :=
        if c >= 97 then c - 97 + 10
        else if c >= 65 then c - 65 + 10
        else if c <= 57 then c - 48
        else 0xFF;
      if nibble > 0xF then None else Some(nibble)
  }

  const LOWER_DIGITS := "0123456789abcdef"
  const UPPER_DIGITS := "0123456789ABCDEF"

  /** The sixteen digits, the letters in either case, and nothing else. */
  lemma DigitIff(c: Byte, v: nat)
    ensures HexCharToInt(c) == Some(v) <==>
      v < 16 && (c == LOWER_DIGITS[v] as int || c == UPPER_DIGITS[v] as int)
  {
    assert forall k | 0 <= k < 10 :: LOWER_DIGITS[k] as int == UPPER_DIGITS[k] as int == 48 + k;
    assert forall k | 10 <= k < 16 :: LOWER_DIGITS[k] as int == 87 + k && UPPER_DIGITS[k] as int == 55 + k;
  }

  /** The table and the case analysis recognise the same digits, with the same values. */
  lemma DigitsAgree(c: Byte)
    ensures HexCharToInt(c) == HexCharToUInt(c)
  {}

  /** boost::algorithm::hex writes upper-case digits. */
  function HexDigit(n: nat): Byte
    requires n < 16
  {
    if n < 10 then 48 + n else 55 + n
  }

  predicate IsHex(s: seq<Byte>) {
    forall i | 0 <= i < |s| :: HexCharToInt(s[i]).Some?
  }

  function Nibble(c: Byte): (n: nat)
    ensures n < 16
  {
    var d := HexCharToInt(c);
    if d.Some? then d.value else 0
  }

  // ---- References ----

  /** Two digits to a byte. */
  function Pairs(s: seq<Byte>): (r: seq<Byte>)
    ensures |r| == |s| / 2
  {
    seq(|s| / 2, i requires 0 <= i < |s| / 2 => PairAt(s, i))
  }

  function PairAt(s: seq<Byte>, i: nat): Byte
    requires 2 * i + 1 < |s|
  {
    16 * Nibble(s[2 * i]) + Nibble(s[2 * i + 1])
  }

  lemma PairsAt(s: seq<Byte>, i: nat)
    requires 2 * i + 1 < |s|
    ensures Pairs(s)[i] == PairAt(s, i)
  {}

  /** Reading a hexadecimal string; one of odd length is read with a zero in front. */
  function UnHex(s: seq<Byte>): Option<seq<Byte>> {
    if !IsHex(s) then None
    else if |s| % 2 == 1 then Some(Pairs([48] + s))
    else Some(Pairs(s))
  }

  datatype ParseResult = Okay(limbs: seq<Limb>) | BadLength | BadChar

  /** Reading exactly `width` limbs: the lone "0", the length, then the digits. */
  ghost predicate Parses(width: nat, s: seq<Byte>, r: ParseResult) {
    if s == [48] then r.Okay? && |r.limbs| == width && forall l | l in r.limbs :: l == ZERO
    else if |s| != 8 * width then r == BadLength
    else if !IsHex(s) then r == BadChar
    else r.Okay? && |r.limbs| == width && Bytes(r.limbs) == Pairs(s)
  }

  /** strHex, as used by to_string. */
  function ToHex(b: seq<Byte>): (s: seq<Byte>)
    ensures |s| == 2 * |b|
  {
    seq(2 * |b|, i requires 0 <= i < 2 * |b| => HexDigit(if i % 2 == 0 then b[i / 2] / 16 else b[i / 2] % 16))
  }

  /** The number that a string of digits writes in base 16. */
  function DigitsValue(s: seq<Byte>): nat {
    if s == [] then 0 else 16 * DigitsValue(s[..|s| - 1]) + Nibble(s[|s| - 1])
  }

  lemma {:induction false} PairsValue(s: seq<Byte>)
    requires |s| % 2 == 0
    ensures ByteValue(Pairs(s)) == DigitsValue(s)
    decreases |s|
  {
    hide Nibble;
    if s != [] {
      var n, m := |s|, |s| / 2;
      PairsValue(s[..n - 2]);
      PairsAt(s, m - 1);
      assert Pairs(s) == Pairs(s[..n - 2]) + [PairAt(s, m - 1)];
      ByteSplit(Pairs(s[..n - 2]), PairAt(s, m - 1));
      assert s[..n - 1][..n - 2] == s[..n - 2] && s[..n - 1][n - 2] == s[n - 2];
    }
  }

  lemma {:induction false} LeadingZero(s: seq<Byte>)
    ensures DigitsValue([48] + s) == DigitsValue(s)
    decreases |s|
  {
    if s != [] {
      LeadingZero(s[..|s| - 1]);
      assert ([48] + s)[..|s|] == [48] + s[..|s| - 1];
    }
  }

  /** strUnHex gives the number that the digits write, in as few bytes as hold them, whatever the length. */
  lemma UnHexIsNumber(s: seq<Byte>)
    requires IsHex(s)
    ensures UnHex(s).Some? && ByteValue(UnHex(s).value) == DigitsValue(s) && |UnHex(s).value| == (|s| + 1) / 2
  {
    hide Pairs, DigitsValue, ByteValue;
    if |s| % 2 == 1 {
      PairsValue([48] + s);
      LeadingZero(s);
    } else {
      PairsValue(s);
    }
  }

  // ---- strUnHex ----

  /** strUnHex: the odd digit first, then pairs, with (high << 4) | low for each byte. */
  method StrUnHex(s: seq<Byte>) returns (r: Option<seq<Byte>>)
    ensures r == UnHex(s)
  {
    var out: seq<Byte> := [];
    var i := 0;
    ghost var padded := if |s| % 2 == 1 then [48] + s else s;
    ghost var k := |padded| - |s|;
    if |s| % 2 == 1 {
      var c := HexCharToInt(s[0]);
      if c.None? { return None; }
      PairsAt(padded, 0);
      out := [c.value];
      i := 1;
    }
    hide Pairs, Or, HexCharToInt;
    while i != |s|
      invariant i <= |s| && 2 * |out| == i + k
      invariant forall j | 0 <= j < i :: HexCharToInt(s[j]).Some?
      invariant forall j | 0 <= j < |out| :: out[j] == Pairs(padded)[j]
      decreases |s| - i
    {
      var high := HexCharToInt(s[i]);
      if high.None? { return None; }
      var low := HexCharToInt(s[i + 1]);
      if low.None? { return None; }
      assert padded[i + k] == s[i] && padded[i + k + 1] == s[i + 1];
      PairsAt(padded, |out|);
      assert high.value == Nibble(s[i]) && low.value == Nibble(s[i + 1]);
      ShiftOr(high.value, low.value);
      out := out + [Or(16 * high.value, low.value)];
      i := i + 2;
    }
    assert out == Pairs(padded);
    return Some(out);
  }

  lemma ShiftOr(high: nat, low: nat)
    requires high < 16 && low < 16
    ensures Or(16 * high, low) == 16 * high + low
  {
    assert Pow2(4) == 16;
    OrDisjoint(high, 16 * high, low, 4, 16);
  }

  // ---- parseFromStringView ----

  /** The bytes of a 32-bit value in the memory of a little-endian host. */
  function StoreNative(x: Native): Limb {
    var x1 := x / 256;
    var x2 := x1 / 256;
    Limb(x % 256, x1 % 256, x2 % 256, x2 / 256)
  }

  lemma StoreBytes(b0: Byte, b1: Byte, b2: Byte, b3: Byte, x: nat)
    requires x == 0x100_0000 * b3 + 0x1_0000 * b2 + 0x100 * b1 + b0
    ensures x < LIMB && StoreNative(x) == Limb(b0, b1, b2, b3)
  {
    var x2: nat := b3 * 256 + b2;
    var x1: nat := x2 * 256 + b1;
    ByteDiv(x1, b0);
    ByteDiv(x2, b1);
    ByteDiv(b3, b2);
  }

  /** The loop's list of shifts. */
  const SHIFTS: seq<nat> := [4, 0, 12, 8, 20, 16, 28, 24]

  function Term(s: seq<Byte>, k: nat, i: nat, place: nat): nat
    requires i < |s|
  {
    if i < k then place * Nibble(s[i]) else 0
  }

  /** The accumulator after k of the eight digits. */
  ghost function Partial(s: seq<Byte>, k: nat): nat
    requires |s| == 8
  {
    Term(s, k, 0, 0x10) + Term(s, k, 1, 1) + Term(s, k, 2, 0x1000) + Term(s, k, 3, 0x100)
    + Term(s, k, 4, 0x10_0000) + Term(s, k, 5, 0x1_0000) + Term(s, k, 6, 0x1000_0000) + Term(s, k, 7, 0x100_0000)
  }

  lemma PlaceAt(v: nat, n: nat, shift: nat, d: nat, q: nat, low: nat)
    requires d == Pow2(shift) && v == d * (16 * q) + low && low < d && n < 16
    ensures Or(v, d * n) == v + d * n
  {
    MulNonneg(d, n);
    Sixteen();
    DivModUnique(v, d, 16 * q, low);
    hide Or, Pow2;
    OrField(v, n, d * n, shift, d, 4, 16);
  }

  lemma Sixteen()
    ensures Pow2(4) == 16
  {}

  lemma ShiftPowers()
    ensures Pow2(0) == 1 && Pow2(4) == 0x10 && Pow2(8) == 0x100 && Pow2(12) == 0x1000
    ensures Pow2(16) == 0x1_0000 && Pow2(20) == 0x10_0000 && Pow2(24) == 0x100_0000 && Pow2(28) == 0x1000_0000
  {}

  /** ORing in digit k at its shift fills it into its byte. */
  lemma PlaceDigit(s: seq<Byte>, k: nat, placed: nat)
    requires |s| == 8 && k < 8 && placed == Pow2(SHIFTS[k]) * Nibble(s[k])
    ensures Or(Partial(s, k), placed) == Partial(s, k + 1)
  {
    ShiftPowers();
    hide Or, Pow2, Nibble;
    var v, n := Partial(s, k), Nibble(s[k]);
    match k {
      case 0 => PlaceAt(v, n, 4, 0x10, 0, 0);
      case 1 => PlaceAt(v, n, 0, 1, Nibble(s[0]), 0);
      case 2 => PlaceAt(v, n, 12, 0x1000, 0, v);
      case 3 => PlaceAt(v, n, 8, 0x100, Nibble(s[2]), 0x10 * Nibble(s[0]) + Nibble(s[1]));
      case 4 => PlaceAt(v, n, 20, 0x10_0000, 0, v);
      case 5 => PlaceAt(v, n, 16, 0x1_0000, Nibble(s[4]), Partial(s, 4));
      case 6 => PlaceAt(v, n, 28, 0x1000_0000, 0, v);
      case _ => PlaceAt(v, n, 24, 0x100_0000, Nibble(s[6]), Partial(s, 6));
    }
  }

  lemma PartialEnds(s: seq<Byte>)
    requires |s| == 8
    ensures Partial(s, 0) == 0
    ensures Partial(s, 8) < LIMB
    ensures StoreNative(Partial(s, 8)) == Limb(PairAt(s, 0), PairAt(s, 1), PairAt(s, 2), PairAt(s, 3))
  {
    hide Nibble;
    StoreBytes(PairAt(s, 0), PairAt(s, 1), PairAt(s, 2), PairAt(s, 3), Partial(s, 8));
  }

  /** One limb of eight digits: the shifts put each digit pair into the next byte of a little-endian
      word, which is then stored as it is. */
  method ParseLimb(s: seq<Byte>) returns (r: Option<Limb>)
    requires |s| == 8
    ensures r.Some? <==> IsHex(s)
    ensures r.Some? ==> r.value == Limb(PairAt(s, 0), PairAt(s, 1), PairAt(s, 2), PairAt(s, 3))
  {
    hide Partial, StoreNative, Or, Pow2, HexCharToInt, HexCharToUInt, PairAt;
    var accum: nat := 0;
    PartialEnds(s);
    for k := 0 to 8
      invariant forall j | 0 <= j < k :: HexCharToInt(s[j]).Some?
      invariant accum == Partial(s, k)
    {
      DigitsAgree(s[k]);
      var d := HexCharToUInt(s[k]);
      if d.None? { return None; }
      assert d.value == Nibble(s[k]);
      MulNonneg(Pow2(SHIFTS[k]), d.value);
      PlaceDigit(s, k, Pow2(SHIFTS[k]) * d.value);
      accum := Or(accum, Pow2(SHIFTS[k]) * d.value);
    }
    return Some(StoreNative(accum));
  }

  /** parseFromStringView. */
  method ParseFromStringView(width: nat, s: seq<Byte>) returns (r: ParseResult)
    ensures Parses(width, s, r)
  {
    if s == [48] { return Okay(seq(width, i => ZERO)); }
    if |s| != 8 * width { return BadLength; }
    var limbs: seq<Limb> := [];
    hide Pairs, HexCharToInt, Bytes, PairAt;
    BytesEmpty();
    while |limbs| < width
      invariant |limbs| <= width
      invariant forall j | 0 <= j < 8 * |limbs| :: HexCharToInt(s[j]).Some?
      invariant Bytes(limbs) == Pairs(s)[..4 * |limbs|]
    {
      var at := 8 * |limbs|;
      var digits := s[at..at + 8];
      var l := ParseLimb(digits);
      if l.None? {
        var j :| 0 <= j < 8 && HexCharToInt(digits[j]).None?;
        assert s[at + j] == digits[j];
        return BadChar;
      }
      forall j | at <= j < at + 8 ensures HexCharToInt(s[j]).Some? { assert s[j] == digits[j - at]; }
      ParsedLimb(s, Pairs(s), limbs, digits, l.value);
      limbs := limbs + [l.value];
    }
    return Okay(limbs);
  }

  lemma BytesEmpty()
    ensures Bytes([]) == []
  {}

  lemma BytesAppend(limbs: seq<Limb>, l: Limb)
    ensures Bytes(limbs + [l]) == Bytes(limbs) + [l.b0, l.b1, l.b2, l.b3]
  {
    assert (limbs + [l])[..|limbs|] == limbs;
  }

  lemma SlicePair(s: seq<Byte>, m: nat, i: nat)
    requires 8 * m + 8 <= |s| && i < 4
    ensures PairAt(s[8 * m..8 * m + 8], i) == PairAt(s, 4 * m + i)
  {}

  lemma TakeFour(p: seq<Byte>, n: nat)
    requires n + 4 <= |p|
    ensures p[..n + 4] == p[..n] + [p[n], p[n + 1], p[n + 2], p[n + 3]]
  {}

  lemma LimbIsFourPairs(s: seq<Byte>, m: nat, l: Limb)
    requires 8 * m + 8 <= |s|
    requires var d := s[8 * m..8 * m + 8]; l == Limb(PairAt(d, 0), PairAt(d, 1), PairAt(d, 2), PairAt(d, 3))
    ensures Pairs(s)[4 * m] == l.b0 && Pairs(s)[4 * m + 1] == l.b1
    ensures Pairs(s)[4 * m + 2] == l.b2 && Pairs(s)[4 * m + 3] == l.b3
  {
    hide Pairs, PairAt;
    SlicePair(s, m, 0);
    SlicePair(s, m, 1);
    SlicePair(s, m, 2);
    SlicePair(s, m, 3);
    PairsAt(s, 4 * m);
    PairsAt(s, 4 * m + 1);
    PairsAt(s, 4 * m + 2);
    PairsAt(s, 4 * m + 3);
  }

  lemma ParsedLimb(s: seq<Byte>, p: seq<Byte>, limbs: seq<Limb>, d: seq<Byte>, l: Limb)
    requires p == Pairs(s) && 8 * |limbs| + 8 <= |s| && Bytes(limbs) == p[..4 * |limbs|]
    requires d == s[8 * |limbs|..8 * |limbs| + 8] && l == Limb(PairAt(d, 0), PairAt(d, 1), PairAt(d, 2), PairAt(d, 3))
    ensures Bytes(limbs + [l]) == p[..4 * |limbs| + 4]
  {
    hide Bytes, Pairs, PairAt;
    LimbIsFourPairs(s, |limbs|, l);
    BytesAppend(limbs, l);
    TakeFour(p, 4 * |limbs|);
  }

  // ---- The parsers against each other, and against the printer ----

  /** On strings of exactly the right length the two parsers accept the same strings and read the same bytes. */
  method ParsersAgree(width: nat, s: seq<Byte>) returns (a: ParseResult, b: Option<seq<Byte>>)
    requires width >= 2 && |s| == 8 * width
    ensures a.Okay? <==> b.Some?
    ensures a.Okay? ==> Bytes(a.limbs) == b.value
    ensures Parses(width, s, a) && b == UnHex(s)
  {
    a := ParseFromStringView(width, s);
    b := StrUnHex(s);
  }

  lemma PrintedIsHex(b: seq<Byte>)
    ensures IsHex(ToHex(b)) && Pairs(ToHex(b)) == b
    ensures forall i | 0 <= i < |b| ::
              && ToHex(b)[2 * i] == UPPER_DIGITS[b[i] / 16] as int
              && ToHex(b)[2 * i + 1] == UPPER_DIGITS[b[i] % 16] as int
  {
    var s := ToHex(b);
    forall i | 0 <= i < |b|
      ensures Pairs(s)[i] == b[i]
      ensures s[2 * i] == UPPER_DIGITS[b[i] / 16] as int && s[2 * i + 1] == UPPER_DIGITS[b[i] % 16] as int
    {
      assert s[2 * i] == HexDigit(b[i] / 16);
      assert s[2 * i + 1] == HexDigit(b[i] % 16);
    }
  }

  lemma {:induction false} BytesInjective(s: seq<Limb>, t: seq<Limb>)
    requires |s| == |t| && Bytes(s) == Bytes(t)
    ensures s == t
  {
    BytesValue(s);
    BytesValue(t);
    ValueInjective(s, t);
  }

  lemma ReadsHex(width: nat, s: seq<Byte>, b: seq<Byte>, r: ParseResult)
    requires width >= 2 && |s| == 8 * width && IsHex(s) && Pairs(s) == b && Parses(width, s, r)
    ensures r.Okay? && |r.limbs| == width && Bytes(r.limbs) == b && UnHex(s) == Some(b)
  {
    hide Pairs, Bytes, IsHex;
  }

  /** Parsing the printed form s of x gives x back, and strUnHex gives the bytes of x. */
  lemma ParsePrinted(x: seq<Limb>, b: seq<Byte>, s: seq<Byte>, r: ParseResult)
    requires |x| >= 2 && b == Bytes(x) && s == ToHex(b) && Parses(|x|, s, r)
    ensures r == Okay(x) && UnHex(s) == Some(b)
  {
    hide Pairs, ToHex, Bytes, IsHex, Parses;
    PrintedIsHex(b);
    ReadsHex(|x|, s, b, r);
    BytesInjective(r.limbs, x);
  }
}
