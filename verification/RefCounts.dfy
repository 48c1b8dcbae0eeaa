/** The lock-free protocol of IntrusiveRefCounts as a step machine: one step per atomic
    operation on the packed word, any number of threads, any interleaving.

    Callers follow the discipline of the smart pointers: a strong handle is needed to add a
    strong one, any handle to add a weak one, a weak one to try a checkout, and each release
    consumes one handle that no other operation is using. */
module RefCounts {
  import opened RefCountWord
  import opened Bits
  import opened Wrappers

  type Tid = nat
  type Handle = nat
  datatype StrongAction = NoOp | PartialDestroy | Destroy

  /** What a thread is about to do. */
  datatype Pc =
    | Idle
    | Releasing(h: Handle, prev: Word)                     // releaseStrongRef, at its compare-exchange
    | Converting(h: Handle, prev: Word)                    // addWeakReleaseStrongRef, at its compare-exchange
    | CheckingOut(h: Handle, cur: Word, desired: Word)     // checkoutStrongRefFromWeak, at its compare-exchange
    | RunningPartial(kept: Option<Handle>)                 // PartialDestroy was returned
    | Notifying                                            // partialDestructorFinished, at notify_one
    | AwaitingStart(prev: Word)                            // releaseWeakRef, at its first wait
    | Reloading                                            // releaseWeakRef, at its load
    | AwaitingFinish(v: Word)                              // releaseWeakRef, at its second wait
    | AsleepStart(v: Word)                                 // blocked in the first wait
    | AsleepFinish(v: Word)                                // blocked in the second wait
    | Destroying                                           // Destroy was returned

  /** The word, the live handles, the thread states, how often each action was returned,
      and which threads currently play the two singular roles. `lost` holds weak handles
      whose owner dropped its pointer without releasing. */
  datatype State = State(
    word: Word,
    strong: set<Handle>,
    weak: set<Handle>,
    lost: set<Handle>,
    pcs: map<Tid, Pc>,
    partials: nat,
    destroys: nat,
    dead: bool,
    finisher: Option<Tid>,
    notifier: Option<Tid>,
    destroyer: Option<Tid>)

  /** One iteration of the loop in releaseStrongRef. */
  function ReleaseStrong(prev: Word): (Word, StrongAction) {
    var p := Unpack(prev);
    var next := Minus(prev, STRONG_DELTA);
    if p.strong == 1 then
      if p.weak == 0 then (next, Destroy) else (SetStarted(next), PartialDestroy)
    else (next, NoOp)
  }

  /** One iteration of the loop in addWeakReleaseStrongRef. */
  function ConvertStrong(prev: Word): (Word, StrongAction) {
    var p := Unpack(prev);
    var next := Plus(prev, WEAK_DELTA - STRONG_DELTA);
    if p.strong == 1 then
      if p.weak == 0 then (next, NoOp) else (SetStarted(next), PartialDestroy)
    else (next, NoOp)
  }

  function SetStarted(v: Word): (r: Word)
    ensures View(r) == View(v).(started := true)
  {
    OrStarted(v);
    Or(v, STARTED_MASK)
  }

  function SetFinished(v: Word): (r: Word)
    ensures View(r) == View(v).(finished := true)
  {
    OrFinished(v);
    Or(v, FINISHED_MASK)
  }

  /** The value RefCountPair{s, w}.combinedValue() with no tag set. */
  function Plain(s: nat, w: nat): (r: Word)
    requires s <= MAX_STRONG && w <= MAX_WEAK
    ensures View(r) == Fields(s, w, false, false)
  {
    var f := Fields(s, w, false, false);
    CombinedIsEncode(f);
    ViewEncode(f);
    CombinedValue(PairOf(f))
  }

  datatype Step =
    | AddStrong(t: Tid, h: Handle, h': Handle)
    | AddWeak(t: Tid, h: Handle, h': Handle)
    | LoadRelease(t: Tid, h: Handle)
    | CasRelease(t: Tid, spurious: bool)
    | LoadConvert(t: Tid, h: Handle)
    | CasConvert(t: Tid, h': Handle, spurious: bool)
    | SubtractWeak(t: Tid, h: Handle)
    | WaitStart(t: Tid)
    | Reload(t: Tid)
    | WaitFinish(t: Tid)
    | Wake(t: Tid)
    | BeginCheckout(t: Tid, h: Handle)
    | CasCheckout(t: Tid, h': Handle, spurious: bool)
    | FinishPartial(t: Tid, drop: bool)
    | Notify(t: Tid, u: Tid)
    | Destruct(t: Tid)

  ghost predicate Init(s: State) {
    && s.word == STRONG_DELTA
    && |s.strong| == 1 && s.weak == {} && s.lost == {}
    && (forall t | t in s.pcs :: s.pcs[t] == Idle)
    && s.partials == 0 && s.destroys == 0 && !s.dead
    && s.finisher == None && s.notifier == None && s.destroyer == None
  }

  predicate HoldsStrong(pc: Pc, h: Handle) {
    (pc.Releasing? || pc.Converting?) && pc.h == h
  }

  predicate HoldsWeak(pc: Pc, h: Handle) {
    || (pc.CheckingOut? && pc.h == h)
    || (pc.RunningPartial? && pc.kept == Some(h))
  }

  ghost predicate FreeStrong(s: State, h: Handle) {
    forall t | t in s.pcs :: !HoldsStrong(s.pcs[t], h)
  }

  ghost predicate FreeWeak(s: State, h: Handle) {
    forall t | t in s.pcs :: !HoldsWeak(s.pcs[t], h)
  }

  ghost predicate RoomStrong(s: State) { |s.strong| + 1 < CHECK_STRONG }
  ghost predicate RoomWeak(s: State) { |s.weak| + 1 < CHECK_WEAK }

  /** When a step may happen: the thread is there, the caller holds what the operation needs,
      and the counts stay under the limits the source checks. */
  ghost predicate Enabled(s: State, e: Step) {
    && e.t in s.pcs
    && var pc := s.pcs[e.t];
       match e
       case AddStrong(_, h, h') => pc.Idle? && h in s.strong && h' !in s.strong && RoomStrong(s)
       case AddWeak(_, h, h') => pc.Idle? && (h in s.strong || h in s.weak - s.lost) && h' !in s.weak && RoomWeak(s)
       case LoadRelease(_, h) => pc.Idle? && h in s.strong && FreeStrong(s, h)
       case CasRelease(_, _) => pc.Releasing?
       case LoadConvert(_, h) => pc.Idle? && h in s.strong && FreeStrong(s, h)
       case CasConvert(_, h', _) => pc.Converting? && h' !in s.weak && RoomWeak(s)
       case SubtractWeak(_, h) => pc.Idle? && h in s.weak - s.lost && FreeWeak(s, h)
       case WaitStart(_) => pc.AwaitingStart?
       case Reload(_) => pc.Reloading?
       case WaitFinish(_) => pc.AwaitingFinish?
       case Wake(_) => (pc.AsleepStart? || pc.AsleepFinish?) && s.word != pc.v
       case BeginCheckout(_, h) => pc.Idle? && h in s.weak - s.lost
       case CasCheckout(_, h', _) => pc.CheckingOut? && h' !in s.strong && RoomStrong(s)
       case FinishPartial(_, _) => pc.RunningPartial?
       case Notify(_, u) =>
         pc.Notifying? && if u == e.t then NoneAsleep(s) else u in s.pcs && Asleep(s.pcs[u])
       case Destruct(_) => pc.Destroying?
  }

  predicate Asleep(pc: Pc) { pc.AsleepStart? || pc.AsleepFinish? }

  ghost predicate NoneAsleep(s: State) {
    forall t | t in s.pcs :: !Asleep(s.pcs[t])
  }

  function Goto(s: State, t: Tid, pc: Pc): State {
    s.(pcs := s.pcs[t := pc])
  }

  /** The thread goes to run the destructor: its release returned Destroy. */
  function ReturnDestroy(s: State, t: Tid): State {
    Goto(s, t, Destroying).(destroys := s.destroys + 1, destroyer := Some(t))
  }

  function ReturnPartial(s: State, t: Tid, kept: Option<Handle>): State {
    Goto(s, t, RunningPartial(kept)).(partials := s.partials + 1, finisher := Some(t))
  }

  /** Where a thread blocked in, or about to leave, a wait continues. */
  function AfterWait(s: State, t: Tid): State
    requires t in s.pcs
  {
    if s.pcs[t].AwaitingStart? || s.pcs[t].AsleepStart? then Goto(s, t, Reloading) else ReturnDestroy(s, t)
  }

  /** The effect of a step. */
  function Do(s: State, e: Step): State
    requires e.t in s.pcs
  {
    var t, pc := e.t, s.pcs[e.t];
    match e
    case AddStrong(_, _, h') => s.(word := Plus(s.word, STRONG_DELTA), strong := s.strong + {h'})
    case AddWeak(_, _, h') => s.(word := Plus(s.word, WEAK_DELTA), weak := s.weak + {h'})
    case LoadRelease(_, h) => Goto(s, t, Releasing(h, s.word))
    case CasRelease(_, spurious) => if pc.Releasing? then DoCasRelease(s, t, spurious) else s
    case LoadConvert(_, h) => Goto(s, t, Converting(h, s.word))
    case CasConvert(_, h', spurious) => if pc.Converting? then DoCasConvert(s, t, h', spurious) else s
    case SubtractWeak(_, h) => DoSubtractWeak(s, t, h)
    case WaitStart(_) =>
      if !pc.AwaitingStart? then s
      else if s.word == pc.prev then Goto(s, t, AsleepStart(pc.prev))
      else AfterWait(s, t)
    case Reload(_) =>
      if Unpack(s.word).finished == 0 then Goto(s, t, AwaitingFinish(Minus(s.word, WEAK_DELTA)))
      else ReturnDestroy(s, t)
    case WaitFinish(_) =>
      if !pc.AwaitingFinish? then s
      else if s.word == pc.v then Goto(s, t, AsleepFinish(pc.v))
      else AfterWait(s, t)
    case Wake(_) => AfterWait(s, t)
    case BeginCheckout(_, h) => Goto(s, t, CheckingOut(h, Plain(1, 1), Plain(2, 1)))
    case CasCheckout(_, h', spurious) => if pc.CheckingOut? then DoCasCheckout(s, t, h', spurious) else s
    case FinishPartial(_, drop) => if pc.RunningPartial? then DoFinishPartial(s, t, drop) else s
    case Notify(_, u) =>
      var s1 := Goto(s, t, Idle).(notifier := None);
      if u in s1.pcs && u != t then AfterWait(s1, u) else s1
    case Destruct(_) => Goto(s, t, Idle).(dead := true, destroyer := None)
  }

  /** compare_exchange_weak: a failure, spurious or not, reloads the word. */
  function DoCasRelease(s: State, t: Tid, spurious: bool): State
    requires t in s.pcs && s.pcs[t].Releasing?
  {
    var Releasing(h, prev) := s.pcs[t];
    if s.word != prev || spurious then Goto(s, t, Releasing(h, s.word))
    else
      var (next, action) := ReleaseStrong(prev);
      var s1 := s.(word := next, strong := s.strong - {h});
      match action
      case NoOp => Goto(s1, t, Idle)
      case PartialDestroy => ReturnPartial(s1, t, None)
      case Destroy => ReturnDestroy(s1, t)
  }

  function DoCasConvert(s: State, t: Tid, h': Handle, spurious: bool): State
    requires t in s.pcs && s.pcs[t].Converting?
  {
    var Converting(h, prev) := s.pcs[t];
    if s.word != prev || spurious then Goto(s, t, Converting(h, s.word))
    else
      var (next, action) := ConvertStrong(prev);
      var s1 := s.(word := next, strong := s.strong - {h}, weak := s.weak + {h'});
      match action
      case NoOp => Goto(s1, t, Idle)
      case PartialDestroy => ReturnPartial(s1, t, Some(h'))
      case Destroy => ReturnDestroy(s1, t)
  }

  function DoCasCheckout(s: State, t: Tid, h': Handle, spurious: bool): State
    requires t in s.pcs && s.pcs[t].CheckingOut?
  {
    var CheckingOut(h, cur, desired) := s.pcs[t];
    if s.word != cur || spurious then
      if Unpack(s.word).strong == 0 then Goto(s, t, Idle)
      else Goto(s, t, CheckingOut(h, s.word, Plus(s.word, STRONG_DELTA)))
    else Goto(s, t, Idle).(word := desired, strong := s.strong + {h'})
  }

  function DoSubtractWeak(s: State, t: Tid, h: Handle): State {
    var prev := Unpack(s.word);
    var s1 := s.(word := Minus(s.word, WEAK_DELTA), weak := s.weak - {h});
    if prev.weak == 1 && prev.strong == 0 then
      var s2 := s1.(destroyer := Some(t));
      if prev.started == 0 then Goto(s2, t, AwaitingStart(s.word))
      else if prev.finished == 0 then Goto(s2, t, AwaitingFinish(Minus(s.word, WEAK_DELTA)))
      else ReturnDestroy(s2, t)
    else s1
  }

  /** partialDestructorFinished. With `drop` the caller then forgets the weak handle it kept
      across the partial destructor, as SharedWeakUnion::convertToWeak does: it stores the
      null pointer that partialDestructorFinished leaves behind. */
  function DoFinishPartial(s: State, t: Tid, drop: bool): State
    requires t in s.pcs && s.pcs[t].RunningPartial?
  {
    var s1 := s.(word := SetFinished(s.word), finisher := None);
    var s2 := if drop && s.pcs[t].kept.Some? then s1.(lost := s1.lost + {s.pcs[t].kept.value}) else s1;
    if Unpack(s.word).weak == 0 then Goto(s2, t, Notifying).(notifier := Some(t)) else Goto(s2, t, Idle)
  }
}
