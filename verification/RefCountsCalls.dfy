/** What each call on the reference counts has done when it returns, over whole runs. */
module RefCountsCalls {
  import opened RefCountWord
  import opened RefCounts
  import opened RefCountsInvariant
  import opened RefCountsSpec
  import opened RefCountsTheorems
  import opened RefCountsLifetime
  import opened Wrappers

  /** The thread is in the compare-exchange loop of one of the three calls, for handle h. */
  predicate InLoop(pc: Pc, h: Handle) {
    (pc.Releasing? || pc.Converting? || pc.CheckingOut?) && pc.h == h
  }

  predicate SameLoop(pc: Pc, pc': Pc, h: Handle) {
    && InLoop(pc, h) && InLoop(pc', h)
    && (pc.Releasing? <==> pc'.Releasing?) && (pc.Converting? <==> pc'.Converting?)
  }

  /** releaseStrongRef leaves its loop with its own handle dropped and the action that the counts ask for. */
  ghost predicate Released(s: State, t: Tid, h: Handle, s': State) {
    && h in s.strong && s'.strong == s.strong - {h} && s'.weak == s.weak && t in s'.pcs
    && s'.pcs[t] == if s.strong != {h} then Idle else if s.weak == {} then Destroying else RunningPartial(None)
  }

  /** addWeakReleaseStrongRef leaves its loop with a new weak handle for its strong one. */
  ghost predicate Swapped(s: State, t: Tid, h: Handle, h': Handle, s': State) {
    && h in s.strong && h' !in s.weak && s'.strong == s.strong - {h} && s'.weak == s.weak + {h'} && t in s'.pcs
    && s'.pcs[t] == if s.strong == {h} && s.weak != {} then RunningPartial(Some(h')) else Idle
  }

  /** checkoutStrongRefFromWeak returns with a new strong handle exactly when there is a strong one left. */
  ghost predicate Promoted(s: State, t: Tid, h: Handle, h': Handle, s': State) {
    && h in s.weak && s'.weak == s.weak && t in s'.pcs && s'.pcs[t] == Idle
    && if s.strong == {} then s'.strong == {} else h' !in s.strong && s'.strong == s.strong + {h'}
  }

  lemma ReleaseLeaves(s: State, e: Step, h: Handle)
    requires Inv(s) && Enabled(s, e) && s.pcs[e.t].Releasing? && s.pcs[e.t].h == h
    ensures SameLoop(s.pcs[e.t], Do(s, e).pcs[e.t], h) || Released(s, e.t, h, Do(s, e))
    ensures SameLoop(s.pcs[e.t], Do(s, e).pcs[e.t], h) ==> Do(s, e).strong == s.strong && Do(s, e).weak == s.weak
  {
    assert LoopOk(s, s.pcs[e.t]);
    ReleaseStrongFields(s.pcs[e.t].prev);
    SingleHandle(s.strong, h);
  }

  lemma ConvertLeaves(s: State, e: Step, h: Handle)
    requires Inv(s) && Enabled(s, e) && s.pcs[e.t].Converting? && s.pcs[e.t].h == h
    ensures e.CasConvert?
    ensures SameLoop(s.pcs[e.t], Do(s, e).pcs[e.t], h) || Swapped(s, e.t, h, e.h', Do(s, e))
    ensures SameLoop(s.pcs[e.t], Do(s, e).pcs[e.t], h) ==> Do(s, e).strong == s.strong && Do(s, e).weak == s.weak
  {
    assert LoopOk(s, s.pcs[e.t]);
    ConvertStrongFields(s.pcs[e.t].prev);
    SingleHandle(s.strong, h);
  }

  lemma CheckoutLeaves(s: State, e: Step, h: Handle)
    requires Inv(s) && Enabled(s, e) && s.pcs[e.t].CheckingOut? && s.pcs[e.t].h == h
    ensures e.CasCheckout?
    ensures SameLoop(s.pcs[e.t], Do(s, e).pcs[e.t], h) || Promoted(s, e.t, h, e.h', Do(s, e))
    ensures SameLoop(s.pcs[e.t], Do(s, e).pcs[e.t], h) ==> Do(s, e).strong == s.strong && Do(s, e).weak == s.weak
  {
    assert LoopOk(s, s.pcs[e.t]);
    ReadFields(s.word);
  }

  /** The call of thread t that is in its loop from state a on leaves it in state b. */
  ghost predicate Leaves(states: seq<State>, t: Tid, a: nat, b: nat, h: Handle) {
    && a < b < |states| && (forall i | a <= i <= b :: t in states[i].pcs)
    && InLoop(states[a].pcs[t], h) && !SameLoop(states[a].pcs[t], states[b].pcs[t], h)
    && forall i | a <= i < b :: SameLoop(states[a].pcs[t], states[i].pcs[t], h)
  }

  lemma LastStep(states: seq<State>, steps: seq<Step>, a: nat, b: nat, t: Tid, h: Handle)
    requires IsRun(states, steps) && Leaves(states, t, a, b, h)
    ensures Inv(states[b - 1]) && steps[b - 1].t == t && Enabled(states[b - 1], steps[b - 1])
    ensures states[b] == Do(states[b - 1], steps[b - 1])
  {
    hide Do, Inv, Enabled, Init;
    RunInv(states, steps, b - 1);
    if steps[b - 1].t != t { OthersLeaveAlone(states[b - 1], steps[b - 1], t); }
  }

  /** releaseStrongRef: when it is over, exactly its handle is gone, and the action is that of the counts then. */
  lemma ReleaseReturns(states: seq<State>, steps: seq<Step>, a: nat, b: nat, t: Tid, h: Handle)
    requires IsRun(states, steps) && a < |steps| && steps[a] == LoadRelease(t, h) && Leaves(states, t, a + 1, b, h)
    ensures Released(states[b - 1], t, h, states[b])
  {
    Loads(states[a], steps[a]);
    hide Do, Inv, Enabled, Init;
    LastStep(states, steps, a + 1, b, t, h);
    ReleaseLeaves(states[b - 1], steps[b - 1], h);
  }

  /** addWeakReleaseStrongRef: when it is over, exactly its handle has become a weak one. */
  lemma ConvertReturns(states: seq<State>, steps: seq<Step>, a: nat, b: nat, t: Tid, h: Handle)
    requires IsRun(states, steps) && a < |steps| && steps[a] == LoadConvert(t, h) && Leaves(states, t, a + 1, b, h)
    ensures steps[b - 1].CasConvert? && Swapped(states[b - 1], t, h, steps[b - 1].h', states[b])
  {
    Loads(states[a], steps[a]);
    hide Do, Inv, Enabled, Init;
    LastStep(states, steps, a + 1, b, t, h);
    ConvertLeaves(states[b - 1], steps[b - 1], h);
  }

  /** checkoutStrongRefFromWeak: it fails exactly when no strong handle is left, and otherwise adds one. */
  lemma CheckoutReturns(states: seq<State>, steps: seq<Step>, a: nat, b: nat, t: Tid, h: Handle)
    requires IsRun(states, steps) && a < |steps| && steps[a] == BeginCheckout(t, h) && Leaves(states, t, a + 1, b, h)
    ensures steps[b - 1].CasCheckout? && Promoted(states[b - 1], t, h, steps[b - 1].h', states[b])
  {
    Loads(states[a], steps[a]);
    hide Do, Inv, Enabled, Init;
    LastStep(states, steps, a + 1, b, t, h);
    CheckoutLeaves(states[b - 1], steps[b - 1], h);
  }

  lemma Loads(s: State, e: Step)
    requires Enabled(s, e)
    ensures e.t in Do(s, e).pcs
    ensures e.LoadRelease? ==> Do(s, e).pcs[e.t].Releasing? && Do(s, e).pcs[e.t].h == e.h
    ensures e.LoadConvert? ==> Do(s, e).pcs[e.t].Converting? && Do(s, e).pcs[e.t].h == e.h
    ensures e.BeginCheckout? ==> Do(s, e).pcs[e.t].CheckingOut? && Do(s, e).pcs[e.t].h == e.h
  {}

  /** releaseWeakRef: it is over at once exactly when other handles are left; otherwise its thread alone goes on to
      run the destructor, and until then it stays in the call. */
  lemma WeakReleaseReturns(s: State, e: Step)
    requires Inv(s) && Enabled(s, e) && e.SubtractWeak?
    ensures Do(s, e).weak == s.weak - {e.h} && Do(s, e).strong == s.strong
    ensures Do(s, e).pcs[e.t].Idle? <==> s.strong != {} || s.weak != {e.h}
    ensures InRelease(Do(s, e).pcs[e.t]) <==> s.strong == {} && s.weak == {e.h}
  {
    ReadFields(s.word);
    SingleHandle(s.weak, e.h);
  }

  lemma ReleaserStays(s: State, e: Step, t: Tid)
    requires Inv(s) && Enabled(s, e) && t in s.pcs && InRelease(s.pcs[t])
    ensures t in Do(s, e).pcs && (InRelease(Do(s, e).pcs[t]) || (e == Destruct(t) && Do(s, e).dead))
  {
    ReadFields(s.word);
  }

  /** When the partial destructor never starts, releaseWeakRef passes both of its waits without blocking. */
  lemma PassesBothWaits(s: State, t: Tid) returns (s': State)
    requires Inv(s) && t in s.pcs && s.pcs[t].AwaitingStart?
    ensures Leads(s, [WaitStart(t), Reload(t), WaitFinish(t)], s') && s'.pcs == s.pcs[t := Destroying]
  {
    var s1 := FirstWait(s, t);
    var s2 := Reloads(s1, t);
    s' := SecondWait(s2, t);
    hide Do, Enabled, Inv, Leads;
    OneStep(s, WaitStart(t));
    OneStep(s1, Reload(t));
    OneStep(s2, WaitFinish(t));
    LeadsOn(s1, [Reload(t)], s2, [WaitFinish(t)], s');
    LeadsOn(s, [WaitStart(t)], s1, [Reload(t)] + [WaitFinish(t)], s');
    assert [WaitStart(t)] + ([Reload(t)] + [WaitFinish(t)]) == [WaitStart(t), Reload(t), WaitFinish(t)];
  }

  lemma FirstWait(s: State, t: Tid) returns (s': State)
    requires Inv(s) && t in s.pcs && s.pcs[t].AwaitingStart?
    ensures Enabled(s, WaitStart(t)) && s' == Do(s, WaitStart(t)) == Goto(s, t, Reloading) && Inv(s')
  {
    s' := Do(s, WaitStart(t));
    assert ReleaseOk(s, s.pcs[t]);
    StepInv(s, WaitStart(t));
  }

  lemma Reloads(s: State, t: Tid) returns (s': State)
    requires Inv(s) && t in s.pcs && s.pcs[t].Reloading?
    ensures Enabled(s, Reload(t)) && s' == Do(s, Reload(t)) && Inv(s') && t in s'.pcs && !View(s'.word).started
    ensures s'.pcs[t].AwaitingFinish? && s'.pcs == s.pcs[t := s'.pcs[t]]
  {
    s' := Do(s, Reload(t));
    assert ReleaseOk(s, s.pcs[t]);
    ReadFields(s.word);
    StepInv(s, Reload(t));
  }

  lemma SecondWait(s: State, t: Tid) returns (s': State)
    requires Inv(s) && t in s.pcs && s.pcs[t].AwaitingFinish? && !View(s.word).started
    ensures Enabled(s, WaitFinish(t)) && s' == Do(s, WaitFinish(t)) && s'.pcs == s.pcs[t := Destroying]
  {
    s' := Do(s, WaitFinish(t));
    assert ReleaseOk(s, s.pcs[t]);
  }

  /** The counts that callers must stay below, 32 under what the fields hold. */
  lemma Limits(s: State)
    ensures RoomStrong(s) <==> |s.strong| + 33 < 0xFFFF
    ensures RoomWeak(s) <==> |s.weak| + 33 < 0x3FFF
  {}
}
