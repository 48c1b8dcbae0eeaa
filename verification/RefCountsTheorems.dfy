/** What holds over whole runs of the reference-count protocol. */
module RefCountsTheorems {
  import opened RefCountWord
  import opened RefCounts
  import opened RefCountsInvariant
  import opened RefCountsSpec
  import opened Bits
  import opened Wrappers

  lemma StepInv(s: State, e: Step)
    requires Inv(s) && Enabled(s, e)
    ensures Inv(Do(s, e))
  {
    match e
    case AddStrong(_, _, _) => AddStrongInv(s, e);
    case AddWeak(_, _, _) => AddWeakInv(s, e);
    case LoadRelease(_, _) => LoadInv(s, e);
    case CasRelease(_, spurious) =>
      if s.word != s.pcs[e.t].prev || spurious { CasReleaseRetryInv(s, e); }
      else { CasReleaseDoneHandles(s, e); CasReleaseDoneRoles(s, e); }
    case LoadConvert(_, _) => LoadInv(s, e);
    case CasConvert(_, _, spurious) =>
      if s.word != s.pcs[e.t].prev || spurious { CasConvertRetryInv(s, e); }
      else { CasConvertDoneHandles(s, e); CasConvertDoneRoles(s, e); }
    case SubtractWeak(_, _) => SubtractWeakHandles(s, e); SubtractWeakRoles(s, e);
    case WaitStart(_) => WaitInv(s, e);
    case Reload(_) => WakeInv(s, e);
    case WaitFinish(_) => WaitInv(s, e);
    case Wake(_) => WakeInv(s, e);
    case BeginCheckout(_, _) => BeginCheckoutInv(s, e);
    case CasCheckout(_, _, _) => CasCheckoutHandles(s, e); CasCheckoutRoles(s, e);
    case FinishPartial(_, _) => FinishPartialHandles(s, e); FinishPartialRoles(s, e);
    case Notify(_, _) => NotifyHandles(s, e); NotifyRoles(s, e);
    case Destruct(_) => DestructInv(s, e);
  }

  /** A run: any number of threads, any interleaving, any spurious failures. */
  ghost predicate IsRun(states: seq<State>, steps: seq<Step>) {
    && |states| == |steps| + 1
    && Init(states[0])
    && forall i | 0 <= i < |steps| :: Enabled(states[i], steps[i]) && states[i + 1] == Do(states[i], steps[i])
  }

  lemma {:induction false} RunInv(states: seq<State>, steps: seq<Step>, i: nat)
    requires IsRun(states, steps) && i < |states|
    ensures Inv(states[i])
  {
    if i == 0 {
      InitInv(states[0]);
    } else {
      RunInv(states, steps, i - 1);
      StepInv(states[i - 1], steps[i - 1]);
    }
  }

  // ---- Refinement of whole runs ----

  ghost function Trace(states: seq<State>, steps: seq<Step>): seq<Event>
    requires |states| == |steps| + 1
    requires forall i | 0 <= i < |steps| :: steps[i].t in states[i].pcs
    decreases |steps|
  {
    if steps == [] then []
    else
      var n := |steps| - 1;
      Trace(states[..n + 1], steps[..n]) + EventsOf(states[n], steps[n])
  }

  lemma {:induction false} ReplaysAppend(o: Object, a: seq<Event>, mid: Object, b: seq<Event>, o': Object)
    requires Replays(o, a, mid) && Replays(mid, b, o')
    ensures Replays(o, a + b, o')
    decreases |a|
  {
    if a == [] {
      assert a + b == b;
    } else {
      assert (a + b)[1..] == a[1..] + b;
      ReplaysAppend(After(o, a[0]), a[1..], mid, b, o');
    }
  }

  lemma PrefixIsRun(states: seq<State>, steps: seq<Step>, n: nat)
    requires IsRun(states, steps) && n <= |steps|
    ensures IsRun(states[..n + 1], steps[..n])
  {}

  lemma ReplaysStep(o: Object, past: seq<Event>, s: State, e: Step, s': State)
    requires Inv(s) && Enabled(s, e) && s' == Do(s, e) && Replays(o, past, Abstract(s))
    ensures Replays(o, past + EventsOf(s, e), Abstract(s'))
  {
    StepRefines(s, e);
    ReplaysAppend(o, past, Abstract(s), EventsOf(s, e), Abstract(s'));
  }

  /** Every run is a life of the object: a fresh object with one strong handle, then the
      events of the run in order, each allowed when it happens and with the action it predicts. */
  lemma {:induction false} RunRefines(states: seq<State>, steps: seq<Step>)
    requires IsRun(states, steps)
    ensures Abstract(states[0]).phase == Alive
    ensures Replays(Abstract(states[0]), Trace(states, steps), Abstract(states[|steps|]))
    decreases |steps|
  {
    RunInv(states, steps, 0);
    if steps != [] {
      var n := |steps| - 1;
      PrefixIsRun(states, steps, n);
      RunRefines(states[..n + 1], steps[..n]);
      RunInv(states, steps, n);
      ReplaysStep(Abstract(states[0]), Trace(states[..n + 1], steps[..n]), states[n], steps[n], states[n + 1]);
    }
  }

  // ---- Safety ----

  /** PartialDestroy and Destroy are each returned at most once. Once Destroy is returned there
      is no handle left, no partial destructor is running, and a thread that still touches the
      word can only be about to notify. */
  lemma DestroyOnce(states: seq<State>, steps: seq<Step>, i: nat)
    requires IsRun(states, steps) && i < |states|
    ensures states[i].partials <= 1 && states[i].destroys <= 1
    ensures states[i].destroys == 1 ==>
              && states[i].strong == {} && states[i].weak == {}
              && forall t | t in states[i].pcs ::
                   var pc := states[i].pcs[t]; pc.Idle? || pc.Notifying? || pc.Destroying?
  {
    RunInv(states, steps, i);
    var s := states[i];
    forall t | s.destroys == 1 && t in s.pcs
      ensures s.pcs[t].Idle? || s.pcs[t].Notifying? || s.pcs[t].Destroying?
    {
      assert LoopOk(s, s.pcs[t]);
      assert ReleaseOk(s, s.pcs[t]);
      assert s.destroyer.Some? && s.destroyer.value in s.pcs ==> ReleaseOk(s, s.pcs[s.destroyer.value]);
    }
  }

  /** The assertions in the source, for the step about to happen. */
  ghost predicate Asserted(s: State, e: Step)
    requires e.t in s.pcs
  {
    var pc := s.pcs[e.t];
    && Unpack(s.word).strong < CHECK_STRONG && Unpack(s.word).weak < CHECK_WEAK
    && match e
       case CasRelease(_, _) =>
         && pc.Releasing? && Unpack(pc.prev).strong >= 1
         && (ReleaseStrong(pc.prev).1 == NoOp || Unpack(pc.prev).started == 0)
       case CasConvert(_, _, _) => pc.Converting? && Unpack(pc.prev).started == 0
       case FinishPartial(_, _) =>
         Unpack(s.word).finished == 0 && Unpack(s.word).started != 0 && Unpack(s.word).strong == 0
       case Destruct(_) =>
         && And(s.word, VALUE_MASK) == 0
         && (And(s.word, STARTED_MASK) == 0 <==> And(s.word, FINISHED_MASK) == 0)
       case _ => true
  }

  lemma CountsZero(v: Word)
    requires View(v).strong == 0 && View(v).weak == 0
    ensures And(v, VALUE_MASK) == 0
  {
    assert v % FINISHED_MASK == 0;
    Powers();
    AndLowMask(v, 30, FINISHED_MASK);
  }

  /** No assertion of the source ever fails. */
  lemma AssertionsHold(states: seq<State>, steps: seq<Step>, i: nat)
    requires IsRun(states, steps) && i < |steps|
    ensures Asserted(states[i], steps[i])
  {
    RunInv(states, steps, i);
    var s, e := states[i], steps[i];
    ReadFields(s.word);
    assert LoopOk(s, s.pcs[e.t]) && ReleaseOk(s, s.pcs[e.t]);
    if e.CasRelease? || e.CasConvert? { ReadFields(s.pcs[e.t].prev); }
    if e.Destruct? { CountsZero(s.word); }
  }

  /** One step: strong handles never come back. */
  lemma StrongStaysEmpty(s: State, e: Step)
    requires Inv(s) && Enabled(s, e) && s.strong == {}
    ensures Do(s, e).strong == {}
    ensures forall h' :: CheckedOut(h') !in EventsOf(s, e)
  {
    ReadFields(s.word);
    assert LoopOk(s, s.pcs[e.t]);
  }

  /** Once the strong count is zero it stays zero, so no later checkout succeeds. */
  lemma {:induction false} ExpiredForever(states: seq<State>, steps: seq<Step>, i: nat, j: nat)
    requires IsRun(states, steps) && i <= j < |states| && states[i].strong == {}
    ensures states[j].strong == {}
    ensures j < |steps| ==> forall h' :: CheckedOut(h') !in EventsOf(states[j], steps[j])
    decreases j
  {
    hide Do, Enabled, Inv, EventsOf;
    RunInv(states, steps, j);
    if i < j {
      ExpiredForever(states, steps, i, j - 1);
      RunInv(states, steps, j - 1);
      StrongStaysEmpty(states[j - 1], steps[j - 1]);
    }
    if j < |steps| { StrongStaysEmpty(states[j], steps[j]); }
  }

  // ---- Progress ----

  /** A sleeping releaseWeakRef always has its wake-up ahead: either the partial destructor is
      still running, and its completion will see no weak count and go on to notify, or that
      notification is pending. The wait for the "started" bit never sleeps. */
  lemma NoStrandedWaiter(states: seq<State>, steps: seq<Step>, i: nat, t: Tid)
    requires IsRun(states, steps) && i < |states| && t in states[i].pcs && Asleep(states[i].pcs[t])
    ensures states[i].pcs[t].AsleepFinish?
    ensures exists u | u in states[i].pcs ::
              || states[i].pcs[u].Notifying?
              || (states[i].pcs[u].RunningPartial?
                  && forall drop :: Do(states[i], FinishPartial(u, drop)).pcs[u].Notifying?)
  {
    RunInv(states, steps, i);
    var s := states[i];
    assert ReleaseOk(s, s.pcs[t]);
    ReadFields(s.word);
    var u := if s.notifier.Some? then s.notifier.value else s.finisher.value;
    assert u in s.pcs;
  }

  /** How many steps of the teardown are still to come. */
  function Remaining(s: State): nat {
    (if s.finisher.Some? then 2 else 0) + (if s.notifier.Some? then 1 else 0)
    + if s.destroyer.Some? && s.destroyer.value in s.pcs then
        match s.pcs[s.destroyer.value]
        case AwaitingStart(_) => 5
        case Reloading => 4
        case AwaitingFinish(_) => 3
        case AsleepFinish(_) => 2
        case Destroying => 1
        case _ => 0
      else 0
  }

  const TEARDOWN: nat := 8

  /** With no handle left, every step brings the teardown closer to its end. */
  lemma TeardownAdvances(s: State, e: Step)
    requires Inv(s) && Enabled(s, e) && s.strong == {} && s.weak == {}
    ensures Do(s, e).strong == {} && Do(s, e).weak == {}
    ensures Remaining(Do(s, e)) < Remaining(s) <= TEARDOWN
  {
    ReadFields(s.word);
    assert LoopOk(s, s.pcs[e.t]) && ReleaseOk(s, s.pcs[e.t]);
    if e.Notify? && e.u in s.pcs { assert ReleaseOk(s, s.pcs[e.u]); }
  }

  /** ... and until the object is dead, some step is possible. */
  lemma TeardownNotStuck(s: State) returns (e: Step)
    requires Inv(s) && s.strong == {} && s.weak == {} && !s.dead
    ensures Enabled(s, e) && (e.FinishPartial? ==> !e.drop)
  {
    var d := s.destroyer.value;
    assert InRelease(s.pcs[d]) && ReleaseOk(s, s.pcs[d]);
    match s.pcs[d] {
      case AwaitingStart(_) => e := WaitStart(d);
      case Reloading => e := Reload(d);
      case AwaitingFinish(_) => e := WaitFinish(d);
      case AsleepFinish(v) =>
        if s.notifier.Some? { e := Notify(s.notifier.value, d); } else { e := FinishPartial(s.finisher.value, false); }
      case _ => e := Destruct(d);
    }
  }

  lemma TeardownBound(s: State)
    requires Inv(s) && s.strong == {} && s.weak == {}
    ensures Remaining(s) <= TEARDOWN
    ensures Remaining(s) == 0 ==> s.dead
  {
    if s.destroyer.Some? { assert InRelease(s.pcs[s.destroyer.value]) && ReleaseOk(s, s.pcs[s.destroyer.value]); }
  }

  lemma {:induction false} TeardownCounts(states: seq<State>, steps: seq<Step>, i: nat, j: nat)
    requires IsRun(states, steps) && i <= j < |states| && states[i].strong == {} && states[i].weak == {}
    ensures states[j].strong == {} && states[j].weak == {}
    ensures Remaining(states[j]) + (j - i) <= TEARDOWN
    decreases j
  {
    hide Do, Enabled, Inv, Remaining;
    RunInv(states, steps, i);
    TeardownBound(states[i]);
    if i < j {
      TeardownCounts(states, steps, i, j - 1);
      RunInv(states, steps, j - 1);
      TeardownAdvances(states[j - 1], steps[j - 1]);
    }
  }

  /** Nothing leaks: once every handle is dropped, a run can take at most eight more steps; it can
      always take one until the object is destroyed; and a run that has come to rest has destroyed
      it, with counts zero and the two tags both clear or both set. */
  lemma DroppedMeansDestroyed(states: seq<State>, steps: seq<Step>, i: nat)
    requires IsRun(states, steps) && i < |states| && states[i].strong == {} && states[i].weak == {}
    ensures |steps| - i <= TEARDOWN
    ensures !states[|steps|].dead ==> exists e :: Enabled(states[|steps|], e)
    ensures (forall t | t in states[|steps|].pcs :: states[|steps|].pcs[t].Idle?) ==>
              && states[|steps|].dead && states[|steps|].destroys == 1
              && states[|steps|].word in {0, STARTED_MASK + FINISHED_MASK}
  {
    var n := |steps|;
    TeardownCounts(states, steps, i, n);
    RunInv(states, steps, n);
    var s := states[n];
    if !s.dead {
      var e := TeardownNotStuck(s);
    }
    EncodeView(s.word);
  }
}
