/** BaseUInt: integers of any number of 32-bit limbs, stored big-endian in memory. */
module BaseUInt {
  import opened Bits
  import opened Wrappers

  const LIMB: nat := 0x1_0000_0000
  type Native = x: nat | x < LIMB

  /** One 32-bit element of `data_`, as the four bytes it occupies in memory. */
  datatype Limb = Limb(b0: Byte, b1: Byte, b2: Byte, b3: Byte)

  /** boost::endian::big_to_native and native_to_big, whatever the host. */
  function BigToNative(l: Limb): Native {
    ((l.b0 * 256 + l.b1) * 256 + l.b2) * 256 + l.b3
  }

  function NativeToBig(x: Native): Limb {
    var high := x / 256;
    var top := high / 256;
    Limb(top / 256, top % 256, high % 256, x % 256)
  }

  const ZERO: Limb := Limb(0, 0, 0, 0)

  lemma ByteDiv(high: nat, low: Byte)
    ensures (high * 256 + low) / 256 == high && (high * 256 + low) % 256 == low
  {}

  lemma LimbSurvives(l: Limb)
    ensures NativeToBig(BigToNative(l)) == l
  {
    ByteDiv((l.b0 * 256 + l.b1) * 256 + l.b2, l.b3);
    ByteDiv(l.b0 * 256 + l.b1, l.b2);
    ByteDiv(l.b0, l.b1);
  }

  lemma ZeroLimb(l: Limb)
    ensures BigToNative(l) == 0 <==> l == ZERO
  {}

  lemma EndianInverse(l: Limb, x: Native)
    ensures NativeToBig(BigToNative(l)) == l && BigToNative(NativeToBig(x)) == x
    ensures BigToNative(l) == 0 <==> l == ZERO
  {
    hide BigToNative, NativeToBig;
    LimbSurvives(l);
    ZeroLimb(l);
    NativeSplits(x);
  }

  lemma NativeSplits(x: Native)
    ensures BigToNative(NativeToBig(x)) == x
  {
    var high := x / 256;
    var top := high / 256;
    assert x == high * 256 + x % 256 && high == top * 256 + high % 256 && top == top / 256 * 256 + top % 256;
  }

  /** The number that a limb sequence stands for. */
  function Value(s: seq<Limb>): nat
    decreases |s|
  {
    if s == [] then 0 else LIMB * Value(s[..|s| - 1]) + BigToNative(s[|s| - 1])
  }

  /** 2^Bits for this many limbs. */
  function Modulus(n: nat): (m: nat)
    ensures m > 0
  {
    if n == 0 then 1 else LIMB * Modulus(n - 1)
  }

  lemma {:induction false} ValueBound(s: seq<Limb>)
    ensures Value(s) < Modulus(|s|)
    decreases |s|
  {
    if s != [] { ValueBound(s[..|s| - 1]); }
  }

  /** Reducing modulo LIMB * m works on the leading digits alone. */
  lemma ModLeading(x: int, r: Native, m: nat)
    requires m > 0
    ensures (LIMB * x + r) % (LIMB * m) == LIMB * (x % m) + r
  {
    var q := x / m;
    assert x == m * q + x % m;
    assert (LIMB * m) * q == LIMB * (m * q);
    DivModUnique(LIMB * x + r, LIMB * m, q, LIMB * (x % m) + r);
  }

  lemma SplitLast(s: seq<Limb>, l: Limb)
    ensures (s + [l])[..|s|] == s && Value(s + [l]) == LIMB * Value(s) + BigToNative(l)
  {
    assert (s + [l])[..|s|] == s;
  }

  // ---- What the loops compute ----

  function Sum(s: seq<Limb>, t: seq<Limb>, carry: nat): seq<Limb>
    requires |s| == |t|
    decreases |s|
  {
    if s == [] then []
    else
      var k := |s| - 1;
      var n := carry + BigToNative(s[k]) + BigToNative(t[k]);
      Sum(s[..k], t[..k], n / LIMB) + [NativeToBig(n % LIMB)]
  }

  function Next(s: seq<Limb>): seq<Limb>
    decreases |s|
  {
    if s == [] then []
    else
      var k := |s| - 1;
      var l := NativeToBig((BigToNative(s[k]) + 1) % LIMB);
      if l != ZERO then s[..k] + [l] else Next(s[..k]) + [l]
  }

  function Prev(s: seq<Limb>): seq<Limb>
    decreases |s|
  {
    if s == [] then []
    else
      var k := |s| - 1;
      var l := NativeToBig((BigToNative(s[k]) - 1) % LIMB);
      if s[k] != ZERO then s[..k] + [l] else Prev(s[..k]) + [l]
  }

  function FlipLimb(l: Limb): Limb { Limb(255 - l.b0, 255 - l.b1, 255 - l.b2, 255 - l.b3) }

  /** operator~. */
  function Complement(s: seq<Limb>): (r: seq<Limb>)
    ensures |r| == |s|
  {
    seq(|s|, i requires 0 <= i < |s| => FlipLimb(s[i]))
  }

  // ---- ... is arithmetic modulo 2^Bits ----

  /** Changing the last limb to y and the leading ones to `lead`, which is x modulo their own modulus. */
  lemma ReplaceLast(lead: seq<Limb>, y: Native, x: int)
    requires Value(lead) == x % Modulus(|lead|)
    ensures |lead + [NativeToBig(y)]| == |lead| + 1
    ensures Value(lead + [NativeToBig(y)]) == (LIMB * x + y) % Modulus(|lead| + 1)
  {
    hide BigToNative, NativeToBig;
    SplitLast(lead, NativeToBig(y));
    EndianInverse(ZERO, y);
    ModLeading(x, y, Modulus(|lead|));
  }

  lemma ReplaceLastWith(lead: seq<Limb>, y: Native, x: int, whole: int)
    requires Value(lead) == x % Modulus(|lead|) && whole == LIMB * x + y
    ensures |lead + [NativeToBig(y)]| == |lead| + 1
    ensures Value(lead + [NativeToBig(y)]) == whole % Modulus(|lead| + 1)
  {
    hide Modulus, Value;
    ReplaceLast(lead, y, x);
  }

  lemma {:induction false} SumIsAddition(s: seq<Limb>, t: seq<Limb>, carry: nat)
    requires |s| == |t|
    ensures |Sum(s, t, carry)| == |s|
    ensures Value(Sum(s, t, carry)) == (Value(s) + Value(t) + carry) % Modulus(|s|)
    decreases |s|
  {
    hide BigToNative, NativeToBig;
    if s != [] {
      var k := |s| - 1;
      var n := carry + BigToNative(s[k]) + BigToNative(t[k]);
      var whole := Value(s) + Value(t) + carry;
      SumIsAddition(s[..k], t[..k], n / LIMB);
      assert whole == LIMB * (Value(s[..k]) + Value(t[..k]) + n / LIMB) + n % LIMB;
      hide Modulus, Value;
      ReplaceLastWith(Sum(s[..k], t[..k], n / LIMB), n % LIMB, Value(s[..k]) + Value(t[..k]) + n / LIMB, whole);
    }
  }

  lemma ValueMod(s: seq<Limb>)
    ensures Value(s) % Modulus(|s|) == Value(s)
  {
    ValueBound(s);
    DivModUnique(Value(s), Modulus(|s|), 0, Value(s));
  }

  lemma {:induction false} NextIsSuccessor(s: seq<Limb>)
    ensures |Next(s)| == |s|
    ensures Value(Next(s)) == (Value(s) + 1) % Modulus(|s|)
    decreases |s|
  {
    hide BigToNative, NativeToBig, Modulus;
    if s != [] {
      var k := |s| - 1;
      var x := BigToNative(s[k]);
      var y := if x + 1 < LIMB then x + 1 else 0;
      assert y == (x + 1) % LIMB;
      EndianInverse(NativeToBig(y), y);
      if y != 0 {
        ValueMod(s[..k]);
        ReplaceLast(s[..k], y, Value(s[..k]));
      } else {
        NextIsSuccessor(s[..k]);
        ReplaceLast(Next(s[..k]), y, Value(s[..k]) + 1);
      }
    } else {
      ValueOfEmpty(1);
    }
  }

  lemma ValueOfEmpty(d: int)
    ensures (Value([]) + d) % Modulus(0) == 0
  {}

  lemma {:induction false} PrevIsPredecessor(s: seq<Limb>)
    ensures |Prev(s)| == |s|
    ensures Value(Prev(s)) == (Value(s) - 1) % Modulus(|s|)
    decreases |s|
  {
    hide BigToNative, NativeToBig, Modulus;
    if s != [] {
      var k := |s| - 1;
      var x := BigToNative(s[k]);
      var y := if x > 0 then x - 1 else LIMB - 1;
      assert y == (x - 1) % LIMB;
      EndianInverse(s[k], y);
      if x > 0 {
        ValueMod(s[..k]);
        ReplaceLast(s[..k], y, Value(s[..k]));
      } else {
        PrevIsPredecessor(s[..k]);
        ReplaceLast(Prev(s[..k]), y, Value(s[..k]) - 1);
      }
    } else {
      ValueOfEmpty(-1);
    }
  }

  lemma {:induction false} ComplementIsDifference(s: seq<Limb>)
    ensures Value(s) + Value(Complement(s)) == Modulus(|s|) - 1
    decreases |s|
  {
    if s != [] {
      var k := |s| - 1;
      ComplementIsDifference(s[..k]);
      assert Complement(s)[..k] == Complement(s[..k]);
    }
  }

  lemma {:induction false} ValueInjective(s: seq<Limb>, t: seq<Limb>)
    requires |s| == |t| && Value(s) == Value(t)
    ensures s == t
    decreases |s|
  {
    hide BigToNative, NativeToBig;
    if s != [] {
      var k := |s| - 1;
      EndianInverse(s[k], 0);
      EndianInverse(t[k], 0);
      ValueInjective(s[..k], t[..k]);
      assert s == s[..k] + [s[k]] && t == t[..k] + [t[k]];
    }
  }

  lemma ModShift(v: nat, d: int, m: nat)
    requires v < m && (d == 1 || d == -1)
    ensures ((v + d) % m - d) % m == v
  {
    if 0 <= v + d < m {
      DivModUnique(v + d, m, 0, v + d);
      DivModUnique(v, m, 0, v);
    } else if d == 1 {
      DivModUnique(v + d, m, 1, 0);
      DivModUnique(-1, m, -1, m - 1);
    } else {
      DivModUnique(v + d, m, -1, m - 1);
      DivModUnique(m, m, 1, 0);
    }
  }

  /** ++ and -- undo each other, in both orders and at both ends of the range. */
  lemma NextPrevInverse(s: seq<Limb>)
    ensures Prev(Next(s)) == s && Next(Prev(s)) == s
  {
    hide Value, Next, Prev, Modulus;
    ValueBound(s);
    NextIsSuccessor(s);
    PrevIsPredecessor(Next(s));
    ModShift(Value(s), 1, Modulus(|s|));
    ValueInjective(Prev(Next(s)), s);
    PrevIsPredecessor(s);
    NextIsSuccessor(Prev(s));
    ModShift(Value(s), -1, Modulus(|s|));
    ValueInjective(Next(Prev(s)), s);
  }

  // ---- Byte order ----

  /** The memory of the object, byte by byte. */
  function Bytes(s: seq<Limb>): (r: seq<Byte>)
    ensures |r| == 4 * |s|
    decreases |s|
  {
    if s == [] then []
    else var l := s[|s| - 1]; Bytes(s[..|s| - 1]) + [l.b0, l.b1, l.b2, l.b3]
  }

  function ByteValue(b: seq<Byte>): nat
    decreases |b|
  {
    if b == [] then 0 else 256 * ByteValue(b[..|b| - 1]) + b[|b| - 1]
  }

  lemma ByteSplit(b: seq<Byte>, x: Byte)
    ensures ByteValue(b + [x]) == 256 * ByteValue(b) + x
  {
    assert (b + [x])[..|b|] == b;
  }

  lemma {:induction false} BytesValue(s: seq<Limb>)
    ensures ByteValue(Bytes(s)) == Value(s)
    decreases |s|
  {
    if s != [] {
      var k := |s| - 1;
      BytesValue(s[..k]);
      var b, l := Bytes(s[..k]), s[k];
      assert Bytes(s) == b + [l.b0] + [l.b1] + [l.b2] + [l.b3];
      ByteSplit(b, l.b0);
      ByteSplit(b + [l.b0], l.b1);
      ByteSplit(b + [l.b0] + [l.b1], l.b2);
      ByteSplit(b + [l.b0] + [l.b1] + [l.b2], l.b3);
    }
  }

  /** The first differing byte decides the numeric order. */
  lemma {:induction false} FirstByteDecides(a: seq<Byte>, b: seq<Byte>, k: nat)
    requires |a| == |b| && k < |a| && a[..k] == b[..k] && a[k] < b[k]
    ensures ByteValue(a) < ByteValue(b)
    decreases |a|
  {
    var n := |a| - 1;
    if k == n {
      assert a[..n] == b[..n];
    } else {
      assert a[..n][..k] == a[..k] == b[..k] == b[..n][..k];
      FirstByteDecides(a[..n], b[..n], k);
    }
  }

  datatype Ordering = Less | Equal | Greater

  /** operator<=>: std::mismatch over the bytes, then the first difference; it is numeric order. */
  method Compare(s: seq<Limb>, t: seq<Limb>) returns (r: Ordering)
    requires |s| == |t|
    ensures r == (if Value(s) < Value(t) then Less else if Value(s) == Value(t) then Equal else Greater)
    ensures r == Equal <==> s == t
  {
    var a, b := Bytes(s), Bytes(t);
    BytesValue(s);
    BytesValue(t);
    var k := 0;
    while k < |a| && a[k] == b[k]
      invariant k <= |a| && a[..k] == b[..k]
    {
      assert a[..k + 1] == a[..k] + [a[k]] && b[..k + 1] == b[..k] + [b[k]];
      k := k + 1;
    }
    if k == |a| {
      assert a == a[..k] && b == b[..k];
      ValueInjective(s, t);
      return Equal;
    }
    if a[k] > b[k] {
      FirstByteDecides(b, a, k);
      return Greater;
    } else {
      FirstByteDecides(a, b, k);
      return Less;
    }
  }

  // ---- The operators that work in place ----

  class UInt {
    var data: array<Limb>

    constructor (limbs: seq<Limb>)
      ensures fresh(data) && data[..] == limbs
    {
      data := new Limb[|limbs|](i requires 0 <= i < |limbs| => limbs[i]);
    }

    /** operator+=. */
    method Add(b: seq<Limb>)
      requires |b| == data.Length
      modifies data
      ensures data[..] == Sum(old(data[..]), b, 0)
    {
      ghost var s, cur := data[..], data[..];
      var carry: nat, i := 0, data.Length;
      assert s[..i] == s && b[..i] == b && cur[i..] == [];
      hide BigToNative, NativeToBig, Sum;
      while i > 0
        invariant 0 <= i <= data.Length == |s| && data[..] == cur && cur[..i] == s[..i]
        invariant Sum(s, b, 0) == Sum(s[..i], b[..i], carry) + cur[i..]
      {
        i := i - 1;
        var n := carry + BigToNative(data[i]) + BigToNative(b[i]);
        SumStep(s, b, i, carry, cur[i + 1..]);
        SetLimb(s, cur, i, NativeToBig(n % LIMB));
        data[i], cur := NativeToBig(n % LIMB), cur[i := NativeToBig(n % LIMB)];
        carry := n / LIMB;
      }
      SumEnd(carry);
    }

    /** operator++. */
    method Increment()
      modifies data
      ensures data[..] == Next(old(data[..]))
    {
      ghost var s, cur := data[..], data[..];
      var i := data.Length;
      assert s[..i] == s && cur[i..] == [];
      hide BigToNative, NativeToBig, Next;
      while i > 0
        invariant 0 <= i <= data.Length == |s| && data[..] == cur && cur[..i] == s[..i]
        invariant Next(s) == Next(s[..i]) + cur[i..]
      {
        i := i - 1;
        var l := NativeToBig((BigToNative(data[i]) + 1) % LIMB);
        NextStep(s, i, cur[i + 1..]);
        SetLimb(s, cur, i, l);
        data[i], cur := l, cur[i := l];
        if data[i] != ZERO { return; }
      }
      NextEnd();
    }

    /** operator--. */
    method Decrement()
      modifies data
      ensures data[..] == Prev(old(data[..]))
    {
      ghost var s, cur := data[..], data[..];
      var i := data.Length;
      assert s[..i] == s && cur[i..] == [];
      hide BigToNative, NativeToBig, Prev;
      while i > 0
        invariant 0 <= i <= data.Length == |s| && data[..] == cur && cur[..i] == s[..i]
        invariant Prev(s) == Prev(s[..i]) + cur[i..]
      {
        i := i - 1;
        var prev := data[i];
        var l := NativeToBig((BigToNative(data[i]) - 1) % LIMB);
        PrevStep(s, i, cur[i + 1..]);
        SetLimb(s, cur, i, l);
        data[i], cur := l, cur[i := l];
        if prev != ZERO { return; }
      }
      NextEnd();
    }
  }

  // ---- One round of each loop ----

  lemma SetLimb(s: seq<Limb>, cur: seq<Limb>, i: nat, l: Limb)
    requires i < |s| == |cur| && cur[..i + 1] == s[..i + 1]
    ensures cur[i] == s[i] && cur[i := l][..i] == s[..i]
    ensures cur[i := l][i..] == [l] + cur[i + 1..] && cur[i := l] == s[..i] + ([l] + cur[i + 1..])
  {
    assert cur[i] == cur[..i + 1][i];
    assert cur[i := l][..i] == cur[..i + 1][..i];
  }

  lemma SumStep(s: seq<Limb>, t: seq<Limb>, i: nat, carry: nat, rest: seq<Limb>)
    requires i < |s| == |t|
    ensures var n := carry + BigToNative(s[i]) + BigToNative(t[i]);
            Sum(s[..i + 1], t[..i + 1], carry) + rest
            == Sum(s[..i], t[..i], n / LIMB) + ([NativeToBig(n % LIMB)] + rest)
  {
    hide BigToNative, NativeToBig;
    assert s[..i + 1][..i] == s[..i] && t[..i + 1][..i] == t[..i];
  }

  lemma SumEnd(carry: nat)
    ensures Sum([], [], carry) == []
  {}

  lemma NextEnd()
    ensures Next([]) == [] && Prev([]) == []
  {}

  lemma NextStep(s: seq<Limb>, i: nat, rest: seq<Limb>)
    requires i < |s|
    ensures var l := NativeToBig((BigToNative(s[i]) + 1) % LIMB);
            Next(s[..i + 1]) + rest == (if l != ZERO then s[..i] else Next(s[..i])) + ([l] + rest)
  {
    hide BigToNative, NativeToBig;
    assert s[..i + 1][..i] == s[..i];
  }

  lemma PrevStep(s: seq<Limb>, i: nat, rest: seq<Limb>)
    requires i < |s|
    ensures var l := NativeToBig((BigToNative(s[i]) - 1) % LIMB);
            Prev(s[..i + 1]) + rest == (if s[i] != ZERO then s[..i] else Prev(s[..i])) + ([l] + rest)
  {
    hide BigToNative, NativeToBig;
    assert s[..i + 1][..i] == s[..i];
  }
}
