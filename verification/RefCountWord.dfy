/** The four fields that IntrusiveRefCounts packs into one 32-bit atomic, and the
    32-bit operations it applies to them. */
module RefCountWord {
  import opened Bits

  const WORD_SIZE: nat := 0x1_0000_0000
  const STRONG_DELTA: nat := 1
  const WEAK_DELTA: nat := 0x1_0000
  const STARTED_MASK: nat := 0x8000_0000
  const FINISHED_MASK: nat := 0x4000_0000
  const STRONG_MASK: nat := 0xFFFF
  const WEAK_MASK: nat := 0x3FFF_0000
  const VALUE_MASK: nat := 0x3FFF_FFFF
  const MAX_STRONG: nat := 0xFFFF
  const MAX_WEAK: nat := 0x3FFF
  /** Limits that RefCountPair asserts on every count it unpacks. */
  const CHECK_STRONG: nat := MAX_STRONG - 32
  const CHECK_WEAK: nat := MAX_WEAK - 32

  /** A std::uint32_t. */
  type Word = w: nat | w < WORD_SIZE

  /** Unsigned 32-bit addition and subtraction wrap around. */
  function Plus(v: Word, d: Word): Word { (v + d) % WORD_SIZE }
  function Minus(v: Word, d: Word): Word { (v - d) % WORD_SIZE }

  /** RefCountPair: the tag members hold the masked bit, not a boolean. */
  datatype RefCountPair = RefCountPair(strong: nat, weak: nat, started: nat, finished: nat)

  function Unpack(v: Word): RefCountPair {
    RefCountPair(And(v, STRONG_MASK), And(v, WEAK_MASK) / WEAK_DELTA, And(v, STARTED_MASK), And(v, FINISHED_MASK))
  }

  function CombinedValue(p: RefCountPair): nat {
    Or(Or(Or(WEAK_DELTA * p.weak, p.strong), p.started), p.finished)
  }

  /** The meaning of a word: four independent fields. */
  datatype Fields = Fields(strong: nat, weak: nat, started: bool, finished: bool)

  function View(v: Word): (f: Fields)
    ensures f.strong <= MAX_STRONG && f.weak <= MAX_WEAK
  {
    Fields(v % 0x1_0000, v / 0x1_0000 % 0x4000, v / 0x8000_0000 == 1, v / 0x4000_0000 % 2 == 1)
  }

  function Encode(f: Fields): (v: nat) {
    f.strong + 0x1_0000 * f.weak + (if f.finished then FINISHED_MASK else 0) + (if f.started then STARTED_MASK else 0)
  }

  ghost predicate Fits(f: Fields) {
    f.strong <= MAX_STRONG && f.weak <= MAX_WEAK
  }

  function PairOf(f: Fields): RefCountPair {
    RefCountPair(f.strong, f.weak, if f.started then STARTED_MASK else 0, if f.finished then FINISHED_MASK else 0)
  }

  lemma Powers()
    ensures Pow2(1) == 2 && Pow2(14) == 0x4000 && Pow2(16) == 0x1_0000
    ensures Pow2(30) == FINISHED_MASK && Pow2(31) == STARTED_MASK
  {}

  /** The masks of RefCountPair(FieldType) read exactly the four fields. */
  lemma UnpackReadsFields(v: Word)
    ensures Unpack(v) == PairOf(View(v))
  {
    Powers();
    AndLowMask(v, 16, 0x1_0000);
    AndField(v, 16, 0x1_0000, 14, 0x4000, WEAK_MASK, v / 0x1_0000);
    AndField(v, 31, STARTED_MASK, 1, 2, STARTED_MASK, v / STARTED_MASK);
    AndField(v, 30, FINISHED_MASK, 1, 2, FINISHED_MASK, v / FINISHED_MASK);
  }

  /** A word is its fields: View and Encode are mutually inverse. */
  lemma EncodeView(v: Word)
    ensures Encode(View(v)) == v
  {}

  lemma ViewEncode(f: Fields)
    requires Fits(f)
    ensures Encode(f) < WORD_SIZE && View(Encode(f)) == f
  {}

  lemma OrOption(v: nat, k: nat, d: nat, on: bool)
    requires d == Pow2(k) && v / d % 2 == 0
    ensures Or(v, if on then d else 0) == v + if on then d else 0
  {
    OrBit(v, k, d);
    OrZero(v);
  }

  /** combinedValue assembles the fields without overlap. */
  lemma CombinedIsEncode(f: Fields)
    requires Fits(f)
    ensures CombinedValue(PairOf(f)) == Encode(f)
  {
    hide Or, Pow2;
    Powers();
    OrDisjoint(f.weak, WEAK_DELTA * f.weak, f.strong, 16, WEAK_DELTA);
    var base := WEAK_DELTA * f.weak + f.strong;
    assert base < FINISHED_MASK && base / STARTED_MASK == 0;
    OrOption(base, 31, STARTED_MASK, f.started);
    var tagged := base + if f.started then STARTED_MASK else 0;
    assert tagged / FINISHED_MASK % 2 == 0;
    OrOption(tagged, 30, FINISHED_MASK, f.finished);
  }

  /** Unpacking and combining undo each other in both directions. */
  lemma UnpackThenCombine(v: Word)
    ensures CombinedValue(Unpack(v)) == v
  {
    UnpackReadsFields(v);
    CombinedIsEncode(View(v));
    EncodeView(v);
  }

  lemma CombineThenUnpack(f: Fields)
    requires Fits(f)
    ensures CombinedValue(PairOf(f)) < WORD_SIZE && Unpack(CombinedValue(PairOf(f))) == PairOf(f)
  {
    CombinedIsEncode(f);
    ViewEncode(f);
    UnpackReadsFields(Encode(f));
  }

  /** OR of a tag bit changes that field alone. */
  lemma OrStarted(v: Word)
    ensures Or(v, STARTED_MASK) < WORD_SIZE && View(Or(v, STARTED_MASK)) == View(v).(started := true)
  {
    Powers();
    OrBit(v, 31, STARTED_MASK);
    var f := View(v).(started := true);
    assert Or(v, STARTED_MASK) == Encode(f) by { EncodeView(v); }
    ViewEncode(f);
  }

  lemma OrFinished(v: Word)
    ensures Or(v, FINISHED_MASK) < WORD_SIZE && View(Or(v, FINISHED_MASK)) == View(v).(finished := true)
  {
    Powers();
    OrBit(v, 30, FINISHED_MASK);
    var f := View(v).(finished := true);
    assert Or(v, FINISHED_MASK) == Encode(f) by { EncodeView(v); }
    ViewEncode(f);
  }

  /** Each wrapping operation acts on its own field alone exactly when that field
      does not overflow or underflow; the source's checked limits imply it. */
  lemma AddStrongField(v: Word)
    ensures View(v).strong != MAX_STRONG
            <==> View(Plus(v, STRONG_DELTA)) == View(v).(strong := View(v).strong + 1)
  {
    EncodeView(v);
    if View(v).strong != MAX_STRONG {
      var f := View(v).(strong := View(v).strong + 1);
      assert Plus(v, STRONG_DELTA) == Encode(f);
      ViewEncode(f);
    }
  }

  lemma AddWeakField(v: Word)
    ensures View(v).weak != MAX_WEAK
            <==> View(Plus(v, WEAK_DELTA)) == View(v).(weak := View(v).weak + 1)
  {
    EncodeView(v);
    if View(v).weak != MAX_WEAK {
      var f := View(v).(weak := View(v).weak + 1);
      assert Plus(v, WEAK_DELTA) == Encode(f);
      ViewEncode(f);
    }
  }

  lemma SubtractStrongField(v: Word)
    ensures var after := View(Minus(v, STRONG_DELTA));
            View(v).strong != 0 <==> View(v) == after.(strong := after.strong + 1)
  {
    EncodeView(v);
    if View(v).strong != 0 {
      var f := View(v).(strong := View(v).strong - 1);
      assert Minus(v, STRONG_DELTA) == Encode(f);
      ViewEncode(f);
    }
  }

  lemma SubtractWeakField(v: Word)
    ensures var after := View(Minus(v, WEAK_DELTA));
            View(v).weak != 0 <==> View(v) == after.(weak := after.weak + 1)
  {
    EncodeView(v);
    if View(v).weak != 0 {
      var f := View(v).(weak := View(v).weak - 1);
      assert Minus(v, WEAK_DELTA) == Encode(f);
      ViewEncode(f);
    }
  }

  /** The single addition of 2^16 - 1 moves one unit from strong to weak. */
  lemma ConvertMovesOneUnit(v: Word)
    ensures var after := View(Plus(v, WEAK_DELTA - STRONG_DELTA));
            View(v).strong != 0 && View(v).weak != MAX_WEAK
            <==> View(v).(weak := View(v).weak + 1) == after.(strong := after.strong + 1)
  {
    EncodeView(v);
    if View(v).strong != 0 && View(v).weak != MAX_WEAK {
      var f := View(v).(strong := View(v).strong - 1, weak := View(v).weak + 1);
      assert Plus(v, WEAK_DELTA - STRONG_DELTA) == Encode(f);
      ViewEncode(f);
    }
  }
}
