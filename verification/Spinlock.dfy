/** PackedSpinlock and Spinlock over one atomic integer, as a step machine: one step per atomic
    operation, any number of threads. A word is its bits, lowest first. */
module Spinlock {
  import opened Wrappers

  type Tid = nat
  type Word = seq<bool>
  function Zero(width: nat): Word { seq(width, i => false) }
  function Max(width: nat): Word { seq(width, i => true) }
  function Mask(width: nat, index: nat): Word { seq(width, i => i == index) }
  function Not(a: Word): Word { seq(|a|, i requires 0 <= i < |a| => !a[i]) }
  function Or(a: Word, b: Word): Word
    requires |a| == |b|
  { seq(|a|, i requires 0 <= i < |a| => a[i] || b[i]) }
  function And(a: Word, b: Word): Word
    requires |a| == |b|
  { seq(|a|, i requires 0 <= i < |a| => a[i] && b[i]) }

  /** `once` tells try_lock from lock, which tries again when the word looks free. */
  datatype Pc =
    | Idle
    | TryPacked(index: nat, once: bool)
    | SpinPacked(index: nat)
    | TryWhole(once: bool)
    | SpinWhole

  /** `packed` and `whole` say who holds what; the code keeps neither. */
  datatype State = State(word: Word, packed: map<nat, Tid>, whole: Option<Tid>, pcs: map<Tid, Pc>)

  datatype Step =
    | BeginPacked(t: Tid, index: nat, once: bool)
    | FetchOr(t: Tid)
    | LoadPacked(t: Tid)
    | UnlockPacked(t: Tid, index: nat)
    | BeginWhole(t: Tid, once: bool)
    | CompareExchange(t: Tid, spurious: bool)
    | LoadWhole(t: Tid)
    | UnlockWhole(t: Tid)

  ghost predicate Init(s: State) {
    && |s.word| > 0
    && s.word == Zero(|s.word|)
    && s.packed == map[]
    && s.whole == None
    && forall t | t in s.pcs :: s.pcs[t].Idle?
  }

  /** A lock is released only by the thread that holds it. */
  ghost predicate Enabled(s: State, e: Step) {
    && e.t in s.pcs
    && var pc := s.pcs[e.t];
       match e
       case BeginPacked(_, index, _) => pc.Idle? && index < |s.word|
       case FetchOr(_) => pc.TryPacked?
       case LoadPacked(_) => pc.SpinPacked?
       case UnlockPacked(t, index) => pc.Idle? && index in s.packed && s.packed[index] == t
       case BeginWhole(_, _) => pc.Idle?
       case CompareExchange(_, _) => pc.TryWhole?
       case LoadWhole(_) => pc.SpinWhole?
       case UnlockWhole(t) => pc.Idle? && s.whole == Some(t)
  }

  function Goto(s: State, t: Tid, pc: Pc): State {
    s.(pcs := s.pcs[t := pc])
  }

  function Do(s: State, e: Step): State
    requires e.t in s.pcs
  {
    var width, pc := |s.word|, s.pcs[e.t];
    match e
    case BeginPacked(t, index, once) => Goto(s, t, TryPacked(index, once))
    case FetchOr(t) =>
      if !pc.TryPacked? then s else
      var mask := Mask(width, pc.index);
      var s1 := s.(word := Or(s.word, mask));
      if And(s.word, mask) == Zero(width) then Goto(s1, t, Idle).(packed := s.packed[pc.index := t])
      else Goto(s1, t, if pc.once then Idle else SpinPacked(pc.index))
    case LoadPacked(t) =>
      if !pc.SpinPacked? || And(s.word, Mask(width, pc.index)) != Zero(width) then s
      else Goto(s, t, TryPacked(pc.index, false))
    case UnlockPacked(_, index) =>
      s.(word := And(s.word, Not(Mask(width, index))), packed := s.packed - {index})
    case BeginWhole(t, once) => Goto(s, t, TryWhole(once))
    case CompareExchange(t, spurious) =>
      if s.word == Zero(width) && !spurious then Goto(s, t, Idle).(word := Max(width), whole := Some(t))
      else Goto(s, t, if pc.TryWhole? && pc.once then Idle else SpinWhole)
    case LoadWhole(t) => if s.word == Zero(width) then Goto(s, t, TryWhole(false)) else s
    case UnlockWhole(_) => s.(word := Zero(width), whole := None)
  }

  /** The word is all ones under a whole-word holder and the union of the held masks otherwise. */
  ghost predicate Inv(s: State) {
    && |s.word| > 0
    && (forall i | i in s.packed :: i < |s.word|)
    && (s.whole.Some? ==> s.packed == map[] && s.word == Max(|s.word|))
    && (s.whole.None? ==> forall i | 0 <= i < |s.word| :: s.word[i] <==> i in s.packed)
    && (forall t | t in s.pcs && (s.pcs[t].TryPacked? || s.pcs[t].SpinPacked?) :: s.pcs[t].index < |s.word|)
  }

  lemma InitInv(s: State)
    requires Init(s)
    ensures Inv(s)
  {
  }

  /** The test `(bits & mask) == 0` reads one bit. */
  lemma TestsOneBit(word: Word, index: nat)
    requires index < |word|
    ensures And(word, Mask(|word|, index)) == Zero(|word|) <==> !word[index]
  {
    if word[index] {
      assert And(word, Mask(|word|, index))[index] != Zero(|word|)[index];
    }
  }

  lemma SetsOneBit(word: Word, index: nat)
    requires index < |word|
    ensures Or(word, Mask(|word|, index)) == word[index := true]
    ensures And(word, Not(Mask(|word|, index))) == word[index := false]
  {
  }

  /** A failed fetch_or writes back what was there. */
  lemma FetchOrCases(s: State, t: Tid)
    requires Inv(s) && Enabled(s, FetchOr(t))
    ensures var index := s.pcs[t].index;
            if !s.word[index] then
              && s.whole == None && index !in s.packed
              && Do(s, FetchOr(t)) ==
                 Goto(s, t, Idle).(word := s.word[index := true], packed := s.packed[index := t])
            else
              Do(s, FetchOr(t)) == Goto(s, t, if s.pcs[t].once then Idle else SpinPacked(index))
  {
    var index := s.pcs[t].index;
    TestsOneBit(s.word, index);
    SetsOneBit(s.word, index);
  }

  lemma StepInv(s: State, e: Step)
    requires Inv(s) && Enabled(s, e)
    ensures Inv(Do(s, e)) && |Do(s, e).word| == |s.word|
  {
    match e
    case FetchOr(t) => FetchOrCases(s, t);
    case UnlockPacked(_, index) => SetsOneBit(s.word, index);
    case CompareExchange(_, spurious) =>
      if s.word == Zero(|s.word|) && !spurious { ZeroIsFree(s); }
    case _ =>
  }

  /** A zero word has no holder of either kind. */
  lemma ZeroIsFree(s: State)
    requires Inv(s)
    ensures s.word == Zero(|s.word|) <==> s.whole == None && s.packed == map[]
  {
    if s.word == Zero(|s.word|) {
      assert !s.word[0];
      assert s.packed.Keys == {};
    }
  }

  // ---- Runs ----

  ghost predicate IsRun(states: seq<State>, steps: seq<Step>) {
    && |states| == |steps| + 1
    && Init(states[0])
    && forall i | 0 <= i < |steps| :: Enabled(states[i], steps[i]) && states[i + 1] == Do(states[i], steps[i])
  }

  lemma {:induction false} RunInv(states: seq<State>, steps: seq<Step>, n: nat)
    requires IsRun(states, steps) && n < |states|
    ensures Inv(states[n]) && |states[n].word| == |states[0].word|
    decreases n
  {
    if n == 0 {
      InitInv(states[0]);
    } else {
      RunInv(states, steps, n - 1);
      StepInv(states[n - 1], steps[n - 1]);
      hide Do, Enabled, Inv;
      assert states[n] == Do(states[n - 1], steps[n - 1]);
    }
  }

  /** Thread t holds bit i, through its own packed lock or through the whole word. */
  predicate Holds(s: State, t: Tid, i: nat) {
    s.whole == Some(t) || (i in s.packed && s.packed[i] == t)
  }

  /** In every state of every run each bit has at most one holder, a whole-word holder leaves no
      packed one, and a bit is set exactly when it is held. */
  lemma MutualExclusion(states: seq<State>, steps: seq<Step>, n: nat, i: nat)
    requires IsRun(states, steps) && n < |states| && i < |states[n].word|
    ensures forall t, u :: Holds(states[n], t, i) && Holds(states[n], u, i) ==> t == u
    ensures states[n].whole.Some? ==> states[n].packed == map[]
    ensures states[n].word[i] <==> exists t :: Holds(states[n], t, i)
  {
    RunInv(states, steps, n);
    var s := states[n];
    if s.word[i] {
      assert Holds(s, if s.whole.Some? then s.whole.value else s.packed[i], i);
    }
  }

  predicate Releases(e: Step, t: Tid, i: nat) {
    e == UnlockWhole(t) || e == UnlockPacked(t, i)
  }

  lemma StillHolds(s: State, e: Step, t: Tid, i: nat)
    requires Inv(s) && Enabled(s, e) && i < |s.word|
    requires Holds(s, t, i) && !Releases(e, t, i)
    ensures Holds(Do(s, e), t, i)
  {
    match e
    case FetchOr(u) => FetchOrCases(s, u);
    case CompareExchange(u, spurious) =>
      if s.word == Zero(|s.word|) && !spurious { ZeroIsFree(s); }
    case _ =>
  }

  /** A bit passes from one thread to another only through a release by the first. */
  lemma {:induction false} Handover(states: seq<State>, steps: seq<Step>, a: nat, b: nat, t: Tid, u: Tid, i: nat)
    requires IsRun(states, steps) && a <= b < |states| && i < |states[0].word|
    requires Holds(states[a], t, i) && Holds(states[b], u, i) && t != u
    ensures exists c | a <= c < b :: Releases(steps[c], t, i)
  {
    if forall c | a <= c < b :: !Releases(steps[c], t, i) {
      HoldsOn(states, steps, a, b, t, i);
      RunInv(states, steps, b);
      MutualExclusion(states, steps, b, i);
    }
  }

  lemma {:induction false} HoldsOn(states: seq<State>, steps: seq<Step>, a: nat, b: nat, t: Tid, i: nat)
    requires IsRun(states, steps) && a <= b < |states| && i < |states[0].word|
    requires Holds(states[a], t, i)
    requires forall c | a <= c < b :: !Releases(steps[c], t, i)
    ensures Holds(states[b], t, i)
    decreases b
  {
    if a < b {
      HoldsOn(states, steps, a, b - 1, t, i);
      RunInv(states, steps, b - 1);
      StillHolds(states[b - 1], steps[b - 1], t, i);
      hide Do, Enabled, Inv;
      assert states[b] == Do(states[b - 1], steps[b - 1]);
    }
  }

  /** No thread holds any part of the lock that thread position pc wants. */
  ghost predicate Free(s: State, pc: Pc) {
    if pc.TryPacked? || pc.SpinPacked? then forall u :: !Holds(s, u, pc.index)
    else s.whole == None && s.packed == map[]
  }

  lemma FreeBit(s: State, i: nat)
    requires Inv(s) && i < |s.word|
    ensures !s.word[i] <==> forall u :: !Holds(s, u, i)
  {
    if s.word[i] { assert Holds(s, if s.whole.Some? then s.whole.value else s.packed[i], i); }
  }

  /** An attempt takes the lock exactly when it is free and does not fail spuriously. */
  ghost predicate Takes(s: State, e: Step)
    requires e.t in s.pcs
  {
    (e.FetchOr? || (e.CompareExchange? && !e.spurious)) && Free(s, s.pcs[e.t])
  }

  /** Where an attempt or a look at the word leaves the thread: a try_lock returns in any case, a lock() only with the
      lock; it spins while the lock looks taken and tries again when it looks free. */
  ghost function Onward(s: State, e: Step): Pc
    requires e.t in s.pcs
  {
    var pc := s.pcs[e.t];
    match pc
    case TryPacked(index, once) => if once || Takes(s, e) then Idle else SpinPacked(index)
    case TryWhole(once) => if once || Takes(s, e) then Idle else SpinWhole
    case SpinPacked(index) => if Free(s, pc) then TryPacked(index, false) else pc
    case SpinWhole => if Free(s, pc) then TryWhole(false) else pc
    case Idle => Idle
  }

  predicate Attempts(e: Step) {
    e.FetchOr? || e.LoadPacked? || e.CompareExchange? || e.LoadWhole?
  }

  /** What an attempt or a look at the word comes to: a failed one changes nothing but the thread's own position. */
  lemma AttemptOutcome(s: State, e: Step)
    requires Inv(s) && Enabled(s, e) && Attempts(e)
    ensures Do(s, e).pcs == s.pcs[e.t := Onward(s, e)]
    ensures !Takes(s, e) ==> (Do(s, e).word, Do(s, e).packed, Do(s, e).whole) == (s.word, s.packed, s.whole)
    ensures Takes(s, e) && e.FetchOr? ==>
      Do(s, e).packed == s.packed[s.pcs[e.t].index := e.t] && Do(s, e).whole == s.whole == None
    ensures Takes(s, e) && e.CompareExchange? ==> Do(s, e).packed == map[] && Do(s, e).whole == Some(e.t)
  {
    match e
    case FetchOr(t) =>
      FetchOrCases(s, t);
      FreeBit(s, s.pcs[t].index);
    case LoadPacked(t) =>
      TestsOneBit(s.word, s.pcs[t].index);
      FreeBit(s, s.pcs[t].index);
      assert s.pcs[t := s.pcs[t]] == s.pcs;
    case CompareExchange(_, _) => ZeroIsFree(s);
    case LoadWhole(t) =>
      ZeroIsFree(s);
      assert s.pcs[t := s.pcs[t]] == s.pcs;
  }

  /** Every step, as far as holding goes: a release gives up exactly what it names, an attempt that takes the lock
      gains exactly that lock, and nothing else changes hands. */
  lemma HoldersAfter(s: State, e: Step, u: Tid, i: nat)
    requires Inv(s) && Enabled(s, e) && i < |s.word|
    ensures Holds(Do(s, e), u, i) <==>
      || (Holds(s, u, i) && !Releases(e, u, i))
      || (u == e.t && Takes(s, e) && (e.FetchOr? ==> s.pcs[u].index == i))
  {
    if Attempts(e) { AttemptOutcome(s, e); }
    if e.UnlockPacked? || e.UnlockWhole? { assert s.whole.Some? ==> s.packed == map[]; }
  }

  // ---- Whole calls ----

  /** The call that thread t begins with step a returns in state b. */
  ghost predicate Returns(states: seq<State>, t: Tid, a: nat, b: nat) {
    && a < b < |states| && t in states[b].pcs && states[b].pcs[t].Idle?
    && forall i | a < i < b :: t in states[i].pcs && !states[i].pcs[t].Idle?
  }

  lemma OthersStay(s: State, e: Step, t: Tid)
    requires Enabled(s, e) && t in s.pcs && t != e.t
    ensures t in Do(s, e).pcs && Do(s, e).pcs[t] == s.pcs[t]
  {}

  predicate WantsPacked(pc: Pc, index: nat) {
    pc == TryPacked(index, false) || pc == SpinPacked(index)
  }

  predicate WantsWhole(pc: Pc) {
    pc == TryWhole(false) || pc == SpinWhole
  }

  /** A thread inside lock() stays inside, or returns with what it wanted. */
  lemma LockStep(s: State, e: Step, t: Tid)
    requires Inv(s) && Enabled(s, e) && t in s.pcs
    ensures t in Do(s, e).pcs
    ensures forall i | WantsPacked(s.pcs[t], i) && !WantsPacked(Do(s, e).pcs[t], i) ::
              e == FetchOr(t) && Free(s, s.pcs[t]) && Do(s, e).pcs[t].Idle? && Holds(Do(s, e), t, i)
    ensures WantsWhole(s.pcs[t]) && !WantsWhole(Do(s, e).pcs[t]) ==>
              e == CompareExchange(t, false) && Free(s, s.pcs[t]) && Do(s, e).pcs[t].Idle? && Do(s, e).whole == Some(t)
  {
    if e.t != t {
      OthersStay(s, e, t);
    } else if WantsWhole(s.pcs[t]) || s.pcs[t].TryPacked? || s.pcs[t].SpinPacked? {
      AttemptOutcome(s, e);
    }
  }

  lemma {:induction false} StaysInside(states: seq<State>, steps: seq<Step>, a: nat, i: nat, t: Tid)
    requires IsRun(states, steps) && a < i < |states|
    requires steps[a].t == t && (steps[a].BeginPacked? || steps[a].BeginWhole?) && !steps[a].once
    requires forall k | a < k <= i :: t in states[k].pcs && !states[k].pcs[t].Idle?
    ensures steps[a].BeginPacked? ==> WantsPacked(states[i].pcs[t], steps[a].index)
    ensures steps[a].BeginWhole? ==> WantsWhole(states[i].pcs[t])
    decreases i
  {
    if a + 1 < i {
      hide Do, Inv, Enabled;
      StaysInside(states, steps, a, i - 1, t);
      RunInv(states, steps, i - 1);
      LockStep(states[i - 1], steps[i - 1], t);
    }
  }

  /** Just before lock() returns it is still inside. */
  lemma LastStep(states: seq<State>, steps: seq<Step>, a: nat, b: nat, t: Tid)
    requires IsRun(states, steps) && Returns(states, t, a, b)
    requires steps[a].t == t && (steps[a].BeginPacked? || steps[a].BeginWhole?) && !steps[a].once
    ensures |states| == |steps| + 1
    ensures t in states[b - 1].pcs && Inv(states[b - 1]) && Enabled(states[b - 1], steps[b - 1])
    ensures states[b] == Do(states[b - 1], steps[b - 1])
    ensures steps[a].BeginPacked? ==> WantsPacked(states[b - 1].pcs[t], steps[a].index)
    ensures steps[a].BeginWhole? ==> WantsWhole(states[b - 1].pcs[t])
  {
    hide Do, Inv, Enabled, Init;
    BeginsInside(states[a], steps[a]);
    StaysInside(states, steps, a, b - 1, t);
    RunInv(states, steps, b - 1);
  }

  /** PackedSpinlock::lock returns only as the holder of its bit, which was free when the last attempt took it. */
  lemma PackedLockReturns(states: seq<State>, steps: seq<Step>, a: nat, b: nat, t: Tid, index: nat)
    requires IsRun(states, steps) && Returns(states, t, a, b) && steps[a] == BeginPacked(t, index, false)
    ensures steps[b - 1] == FetchOr(t) && Holds(states[b], t, index)
    ensures var before := states[b - 1]; forall u :: !Holds(before, u, index)
  {
    hide Do, Inv, Enabled, Init, Holds, Goto, IsRun;
    LastStep(states, steps, a, b, t);
    LockStep(states[b - 1], steps[b - 1], t);
  }

  /** Spinlock::lock returns only as the holder of the whole word, of which no part was held. */
  lemma WholeLockReturns(states: seq<State>, steps: seq<Step>, a: nat, b: nat, t: Tid)
    requires IsRun(states, steps) && Returns(states, t, a, b) && steps[a] == BeginWhole(t, false)
    ensures steps[b - 1] == CompareExchange(t, false) && states[b].whole == Some(t)
    ensures states[b - 1].whole == None && states[b - 1].packed == map[]
  {
    hide Do, Inv, Enabled, Init, Holds, Goto, IsRun;
    LastStep(states, steps, a, b, t);
    LockStep(states[b - 1], steps[b - 1], t);
  }

  /** A call of lock(), of either kind, that covers bit i. */
  predicate Locks(e: Step, t: Tid, i: nat) {
    e == BeginPacked(t, i, false) || e == BeginWhole(t, false)
  }

  lemma LockReturns(states: seq<State>, steps: seq<Step>, a: nat, b: nat, t: Tid, i: nat)
    requires IsRun(states, steps) && Returns(states, t, a, b) && Locks(steps[a], t, i)
    ensures Holds(states[b], t, i)
  {
    if steps[a].BeginPacked? { PackedLockReturns(states, steps, a, b, t, i); }
    else { WholeLockReturns(states, steps, a, b, t); }
  }

  /** Critical sections: when one thread's lock() returns and then another's, over the same bit and with either kind of
      lock, the first has released in between. */
  lemma CriticalSections(states: seq<State>, steps: seq<Step>, a: nat, b: nat, t: Tid, c: nat, d: nat, u: Tid, i: nat)
    requires IsRun(states, steps) && t != u && b <= d && i < |states[0].word|
    requires Returns(states, t, a, b) && Locks(steps[a], t, i)
    requires Returns(states, u, c, d) && Locks(steps[c], u, i)
    ensures exists k | b <= k < d :: Releases(steps[k], t, i)
  {
    LockReturns(states, steps, a, b, t, i);
    LockReturns(states, steps, c, d, u, i);
    Handover(states, steps, b, d, t, u, i);
  }

  lemma BeginsInside(s: State, e: Step)
    requires Enabled(s, e) && (e.BeginPacked? || e.BeginWhole?)
    ensures Do(s, e) == Goto(s, e.t, if e.BeginPacked? then TryPacked(e.index, e.once) else TryWhole(e.once))
  {}

  lemma {:induction false} StaysPut(states: seq<State>, steps: seq<Step>, i: nat, j: nat, t: Tid)
    requires IsRun(states, steps) && i <= j < |states| && t in states[i].pcs
    requires forall k | i <= k < j :: steps[k].t != t
    ensures t in states[j].pcs && states[j].pcs[t] == states[i].pcs[t]
    decreases j
  {
    if i < j {
      hide Do, Enabled;
      StaysPut(states, steps, i, j - 1, t);
      OthersStay(states[j - 1], steps[j - 1], t);
    }
  }

  /** try_lock makes one attempt: it returns at its thread's next step, as a holder exactly when the lock was free
      and the attempt did not fail spuriously. */
  lemma TryLockReturns(states: seq<State>, steps: seq<Step>, a: nat, k: nat, t: Tid)
    requires IsRun(states, steps) && a < k < |steps| && steps[k].t == t && forall i | a < i < k :: steps[i].t != t
    requires steps[a].t == t && (steps[a].BeginPacked? || steps[a].BeginWhole?) && steps[a].once
    ensures t in states[k + 1].pcs && states[k + 1].pcs[t].Idle?
    ensures steps[a].BeginPacked? ==> steps[k] == FetchOr(t)
    ensures steps[a].BeginWhole? ==> steps[k].CompareExchange?
    ensures steps[a].BeginPacked? && !Holds(states[k], t, steps[a].index) ==>
      (Holds(states[k + 1], t, steps[a].index) <==> forall u :: !Holds(states[k], u, steps[a].index))
    ensures steps[a].BeginWhole? && states[k].whole != Some(t) ==>
      (states[k + 1].whole == Some(t) <==>
       !steps[k].spurious && states[k].whole == None && states[k].packed == map[])
  {
    BeginsInside(states[a], steps[a]);
    StaysPut(states, steps, a + 1, k, t);
    RunInv(states, steps, k);
    AttemptOutcome(states[k], steps[k]);
    hide Do, Inv;
  }

  /** A spinning thread that finds its lock free takes it with its next two steps. */
  lemma SpinnerGetsFreeLock(s: State, t: Tid)
    requires Inv(s) && t in s.pcs
    requires s.pcs[t].SpinPacked? || s.pcs[t].SpinWhole?
    requires s.whole == None && (if s.pcs[t].SpinPacked? then s.pcs[t].index !in s.packed else s.packed == map[])
    ensures var (load, take) := if s.pcs[t].SpinPacked? then (LoadPacked(t), FetchOr(t))
                                else (LoadWhole(t), CompareExchange(t, false));
            && Enabled(s, load) && Enabled(Do(s, load), take)
            && Holds(Do(Do(s, load), take), t, if s.pcs[t].SpinPacked? then s.pcs[t].index else 0)
  {
    if s.pcs[t].SpinPacked? {
      TestsOneBit(s.word, s.pcs[t].index);
      StepInv(s, LoadPacked(t));
      FetchOrCases(Do(s, LoadPacked(t)), t);
    } else {
      ZeroIsFree(s);
    }
  }
}
