/** The end of an object's life: what a forgotten handle prevents, what can always be reached, and who still
    touches the word after the destructor has run. */
module RefCountsLifetime {
  import opened RefCountWord
  import opened RefCounts
  import opened RefCountsInvariant
  import opened RefCountsSpec
  import opened RefCountsTheorems
  import opened Wrappers

  /** The steps can be taken one after the other from s, and lead to s'. */
  ghost predicate Leads(s: State, steps: seq<Step>, s': State)
    decreases |steps|
  {
    if steps == [] then s' == s
    else Enabled(s, steps[0]) && Leads(Do(s, steps[0]), steps[1..], s')
  }

  lemma {:induction false} LeadsOn(s: State, a: seq<Step>, mid: State, b: seq<Step>, s': State)
    requires Leads(s, a, mid) && Leads(mid, b, s')
    ensures Leads(s, a + b, s')
    decreases |a|
  {
    hide Do;
    if a == [] {
      assert a + b == b;
    } else {
      assert (a + b)[1..] == a[1..] + b;
      LeadsOn(Do(s, a[0]), a[1..], mid, b, s');
    }
  }

  lemma OneStep(s: State, e: Step)
    requires Enabled(s, e)
    ensures Leads(s, [e], Do(s, e))
  {
    assert [e][1..] == [];
  }

  lemma Extend(states: seq<State>, steps: seq<Step>, e: Step)
    requires IsRun(states, steps) && Enabled(states[|steps|], e)
    ensures IsRun(states + [Do(states[|steps|], e)], steps + [e])
  {
    hide Do, Enabled, Init;
  }

  /** What a state of a run leads to continues the run. */
  lemma {:induction false} Continue(states: seq<State>, steps: seq<Step>, more: seq<Step>, s': State)
    returns (states': seq<State>)
    requires IsRun(states, steps) && Leads(states[|steps|], more, s')
    ensures IsRun(states', steps + more) && states'[|steps| + |more|] == s'
    decreases |more|
  {
    hide Do, Enabled, IsRun, Init;
    RunLength(states, steps);
    if more == [] {
      assert steps + more == steps;
      states' := states;
    } else {
      EnabledThread(states[|steps|], more[0]);
      Extend(states, steps, more[0]);
      assert steps + [more[0]] + more[1..] == steps + more;
      states' := Continue(states + [Do(states[|steps|], more[0])], steps + [more[0]], more[1..], s');
    }
  }

  lemma RunLength(states: seq<State>, steps: seq<Step>)
    requires IsRun(states, steps)
    ensures |states| == |steps| + 1
  {}

  // ---- The handle that convertToWeak forgets ----

  lemma LostStaysLost(s: State, e: Step)
    requires Inv(s) && Enabled(s, e) && s.lost != {}
    ensures Do(s, e).lost != {} && Do(s, e).weak != {} && Do(s, e).destroys == 0
  {
    StepInv(s, e);
    assert Do(s, e).lost != {};
    var h :| h in Do(s, e).lost;
    assert h in Do(s, e).weak;
  }

  ghost predicate Forgets(s: State, e: Step)
    requires e.t in s.pcs
  {
    e.FinishPartial? && e.drop && s.pcs[e.t].RunningPartial? && s.pcs[e.t].kept.Some?
  }

  lemma ForgettingLoses(s: State, e: Step)
    requires Inv(s) && Enabled(s, e)
    ensures Do(s, e).lost == (if Forgets(s, e) then s.lost + {s.pcs[e.t].kept.value} else s.lost)
    ensures Forgets(s, e) ==> Do(s, e).weak != {} && Do(s, e).destroys == 0 && !Do(s, e).dead
  {
    if e.FinishPartial? {
      FinishLoses(s, e);
    }
  }

  lemma FinishLoses(s: State, e: Step)
    requires Inv(s) && Enabled(s, e) && e.FinishPartial?
    ensures Do(s, e).lost == (if Forgets(s, e) then s.lost + {s.pcs[e.t].kept.value} else s.lost)
    ensures Forgets(s, e) ==> Do(s, e).weak != {} && Do(s, e).destroys == 0 && !Do(s, e).dead
  {
    assert LoopOk(s, s.pcs[e.t]);
  }

  /** After a conversion that returned PartialDestroy, a caller that forgets the weak handle (as
      SharedWeakUnion::convertToWeak does) leaves an object that is never destroyed. */
  lemma {:induction false} ForgottenHandleLeaks(states: seq<State>, steps: seq<Step>, i: nat, j: nat)
    requires IsRun(states, steps) && i < j < |states|
    requires Forgets(states[i], steps[i])
    ensures states[j].lost != {} && states[j].weak != {} && states[j].destroys == 0 && !states[j].dead
    decreases j
  {
    hide Do, Enabled, Forgets;
    RunInv(states, steps, j - 1);
    RunInv(states, steps, j);
    if i + 1 == j {
      ForgettingLoses(states[i], steps[i]);
    } else {
      ForgottenHandleLeaks(states, steps, i, j - 1);
      LostStaysLost(states[j - 1], steps[j - 1]);
    }
  }

  /** Conversely a run without such a step loses no handle; NothingForgottenEnds draws the consequence. */
  lemma {:induction false} OnlyForgettingLoses(states: seq<State>, steps: seq<Step>, j: nat)
    requires IsRun(states, steps) && j < |states|
    requires forall i | 0 <= i < j :: !Forgets(states[i], steps[i])
    ensures states[j].lost == {}
  {
    hide Do, Enabled, Inv, Forgets;
    if j > 0 {
      OnlyForgettingLoses(states, steps, j - 1);
      RunInv(states, steps, j - 1);
      ForgettingLoses(states[j - 1], steps[j - 1]);
    }
  }

  // ---- Every handle can be released ----

  ghost function Checkouts(s: State): set<Tid> {
    set t | t in s.pcs && s.pcs[t].CheckingOut?
  }

  ghost predicate NoneConverting(s: State) {
    forall t | t in s.pcs :: !s.pcs[t].Converting?
  }

  /** What is left to do before the last handle is gone. */
  ghost function Work(s: State): nat {
    3 * |s.strong| + |s.weak| + 4 * |Checkouts(s)| + if s.finisher.Some? then 1 else 0
  }

  /** Thread t is free to act, and no conversion is held up for want of room. */
  ghost predicate Able(s: State, t: Tid) {
    && Inv(s) && s.lost == {}
    && t in s.pcs && s.pcs[t].Idle?
    && (RoomWeak(s) || NoneConverting(s))
  }

  ghost predicate NoHandles(s: State) {
    s.strong == {} && s.weak == {}
  }

  lemma {:induction false} FreshHandle(hs: set<Handle>) returns (h: Handle)
    ensures h !in hs
  {
    h := Bound(hs);
  }

  lemma {:induction false} Bound(hs: set<Handle>) returns (h: Handle)
    ensures forall k | k in hs :: k < h
    decreases hs
  {
    h := 0;
    if hs != {} {
      var k :| k in hs;
      var m := Bound(hs - {k});
      h := if m <= k then k + 1 else m;
      assert forall i | i in hs :: i == k || i in hs - {k};
    }
  }

  /** A release in progress completes with at most two compare-exchanges. */
  lemma RunRelease(s: State, u: Tid) returns (steps: seq<Step>, s': State)
    requires Inv(s) && u in s.pcs && s.pcs[u].Releasing?
    ensures Leads(s, steps, s') && Inv(s') && s'.lost == s.lost
    ensures s'.strong == s.strong - {s.pcs[u].h} && s'.weak == s.weak
    ensures u in s'.pcs && s'.pcs == s.pcs[u := s'.pcs[u]]
    ensures s'.pcs[u].Idle? || (s'.pcs[u].RunningPartial? && s'.weak != {} && s'.strong == {}) || NoHandles(s')
    ensures !s'.pcs[u].CheckingOut? && !s'.pcs[u].Converting?
  {
    var e := CasRelease(u, false);
    steps, s' := [], s;
    if s.word != s.pcs[u].prev {
      OneStep(s, e);
      StepInv(s, e);
      steps, s' := [e], Do(s, e);
    }
    var mid := s';
    OneStep(mid, e);
    StepInv(mid, e);
    LeadsOn(s, steps, mid, [e], Do(mid, e));
    steps, s' := steps + [e], Do(mid, e);
    ReleaseStrongFields(mid.word);
  }

  /** A conversion in progress completes with at most two compare-exchanges. */
  lemma RunConvert(s: State, u: Tid, h': Handle) returns (steps: seq<Step>, s': State)
    requires Inv(s) && u in s.pcs && s.pcs[u].Converting? && RoomWeak(s) && h' !in s.weak
    ensures Leads(s, steps, s') && Inv(s') && s'.lost == s.lost
    ensures s'.strong == s.strong - {s.pcs[u].h} && s'.weak == s.weak + {h'}
    ensures u in s'.pcs && s'.pcs == s.pcs[u := s'.pcs[u]]
    ensures (s'.pcs[u].Idle? && s'.finisher == s.finisher) || (s'.pcs[u].RunningPartial? && s'.strong == {})
  {
    var e := CasConvert(u, h', false);
    steps, s' := [], s;
    if s.word != s.pcs[u].prev {
      OneStep(s, e);
      StepInv(s, e);
      steps, s' := [e], Do(s, e);
    }
    var mid := s';
    OneStep(mid, e);
    StepInv(mid, e);
    LeadsOn(s, steps, mid, [e], Do(mid, e));
    steps, s' := steps + [e], Do(mid, e);
    ConvertStrongFields(mid.word);
  }

  lemma SameCheckouts(s: State, s': State, u: Tid)
    requires u in s.pcs && u in s'.pcs && s'.pcs == s.pcs[u := s'.pcs[u]]
    requires !s.pcs[u].CheckingOut? && !s'.pcs[u].CheckingOut?
    ensures Checkouts(s') == Checkouts(s)
  {
  }

  lemma Fewer(hs: set<Handle>, h: Handle)
    requires h in hs
    ensures |hs - {h}| == |hs| - 1
  {
  }

  /** A thread releases a strong handle: its own operation in progress. */
  lemma ReleaseOne(s: State, t: Tid, u: Tid) returns (steps: seq<Step>, s': State)
    requires Able(s, t) && u in s.pcs && s.pcs[u].Releasing?
    ensures Leads(s, steps, s') && Work(s') < Work(s) && (Able(s', t) || (Inv(s') && s'.lost == {} && NoHandles(s')))
  {
    assert LoopOk(s, s.pcs[u]);
    steps, s' := RunRelease(s, u);
    SameCheckouts(s, s', u);
    Fewer(s.strong, s.pcs[u].h);
    hide Inv, Leads;
  }

  /** The free thread releases a strong handle that no operation is using. */
  lemma ReleaseFree(s: State, t: Tid, h: Handle) returns (steps: seq<Step>, s': State)
    requires Able(s, t) && h in s.strong && FreeStrong(s, h)
    ensures Leads(s, steps, s') && Work(s') < Work(s) && (Able(s', t) || (Inv(s') && s'.lost == {} && NoHandles(s')))
  {
    var e := LoadRelease(t, h);
    OneStep(s, e);
    StepInv(s, e);
    var mid := Do(s, e);
    var more;
    more, s' := RunRelease(mid, t);
    LeadsOn(s, [e], mid, more, s');
    steps := [e] + more;
    SameCheckouts(s, mid, t);
    SameCheckouts(mid, s', t);
    Fewer(s.strong, h);
    if s'.pcs[t].RunningPartial? && !NoHandles(s') {
      var end := FinishPartial(t, false);
      OneStep(s', end);
      StepInv(s', end);
      LeadsOn(s, steps, s', [end], Do(s', end));
      ReadFields(s'.word);
      SameCheckouts(s', Do(s', end), t);
      steps, s' := steps + [end], Do(s', end);
    }
  }

  /** A free weak handle is released by the free thread. */
  lemma DropWeak(s: State, t: Tid, h: Handle) returns (s': State)
    requires Inv(s) && s.lost == {} && t in s.pcs && s.pcs[t].Idle? && h in s.weak && FreeWeak(s, h)
    ensures Leads(s, [SubtractWeak(t, h)], s') && Inv(s') && s'.lost == {} && Work(s') == Work(s) - 1
    ensures s'.weak == s.weak - {h} && s'.strong == s.strong
    ensures t in s'.pcs && s'.pcs == s.pcs[t := s'.pcs[t]] && !s'.pcs[t].Converting?
    ensures s'.pcs[t].Idle? || NoHandles(s')
  {
    var e := SubtractWeak(t, h);
    OneStep(s, e);
    StepInv(s, e);
    s' := Do(s, e);
    DropsWeak(s, t, h);
    SameCheckouts(s, s', t);
    Fewer(s.weak, h);
    hide Do, Inv, Enabled, Leads;
  }

  lemma DropsWeak(s: State, t: Tid, h: Handle)
    requires Inv(s) && t in s.pcs && s.pcs[t].Idle? && h in s.weak
    ensures var s' := Do(s, SubtractWeak(t, h));
            && s'.weak == s.weak - {h} && s'.strong == s.strong && s'.lost == s.lost && s'.finisher == s.finisher
            && t in s'.pcs && s'.pcs == s.pcs[t := s'.pcs[t]]
            && !s'.pcs[t].Converting? && !s'.pcs[t].CheckingOut?
            && (s'.pcs[t].Idle? || NoHandles(s'))
  {
    ReadFields(s.word);
    Fewer(s.weak, h);
  }

  /** A conversion completes, and what it made is released again if that frees the room it took. */
  lemma ConvertOne(s: State, t: Tid, u: Tid) returns (steps: seq<Step>, s': State)
    requires Able(s, t) && u in s.pcs && s.pcs[u].Converting?
    ensures Leads(s, steps, s') && Work(s') < Work(s) && (Able(s', t) || (Inv(s') && s'.lost == {} && NoHandles(s')))
  {
    assert LoopOk(s, s.pcs[u]);
    var h' := FreshHandle(s.weak);
    var mid;
    steps, mid := RunConvert(s, u, h');
    SameCheckouts(s, mid, u);
    Fewer(s.strong, s.pcs[u].h);
    assert |mid.weak| == |s.weak| + 1;
    if mid.pcs[u].Idle? {
      FreshIsFree(s, mid, u, h');
      s' := DropWeak(mid, t, h');
      assert s'.weak == s.weak;
      LeadsOn(s, steps, mid, [SubtractWeak(t, h')], s');
      steps := steps + [SubtractWeak(t, h')];
    } else {
      s' := mid;
      NoStrongNoConverting(s');
    }
    hide Inv, Leads;
  }

  lemma FreshIsFree(s: State, mid: State, u: Tid, h': Handle)
    requires Inv(s) && h' !in s.weak && u in s.pcs && u in mid.pcs && mid.pcs == s.pcs[u := mid.pcs[u]]
    requires mid.pcs[u].Idle?
    ensures FreeWeak(mid, h')
  {
    forall v | v in mid.pcs ensures !HoldsWeak(mid.pcs[v], h') {
      if v != u { assert LoopOk(s, s.pcs[v]); }
    }
  }

  lemma NoStrongNoConverting(s: State)
    requires Inv(s) && s.strong == {}
    ensures NoneConverting(s)
  {
    forall t | t in s.pcs ensures !s.pcs[t].Converting? {
      assert LoopOk(s, s.pcs[t]);
    }
  }

  /** With no strong handle left, a checkout in progress fails and ends. */
  lemma FailCheckout(s: State, t: Tid, u: Tid) returns (e: Step)
    requires Able(s, t) && s.strong == {} && u in s.pcs && s.pcs[u].CheckingOut?
    ensures Enabled(s, e) && Work(Do(s, e)) < Work(s) && Able(Do(s, e), t)
  {
    e := CasCheckout(u, 0, false);
    assert LoopOk(s, s.pcs[u]);
    ReadFields(s.word);
    StepInv(s, e);
    var s' := Do(s, e);
    assert s' == Goto(s, u, Idle);
    assert Checkouts(s') == Checkouts(s) - {u};
    assert |Checkouts(s')| == |Checkouts(s)| - 1;
  }

  lemma FinishOne(s: State, t: Tid) returns (e: Step)
    requires Able(s, t) && s.finisher.Some? && !NoHandles(s)
    ensures Enabled(s, e) && Work(Do(s, e)) < Work(s) && Able(Do(s, e), t)
  {
    e := FinishPartial(s.finisher.value, false);
    StepInv(s, e);
    ReadFields(s.word);
    SameCheckouts(s, Do(s, e), e.t);
  }

  /** While there is a handle, some few steps leave less to do. */
  lemma Progress(s: State, t: Tid) returns (steps: seq<Step>, s': State)
    requires Able(s, t) && !NoHandles(s)
    ensures Leads(s, steps, s') && Work(s') < Work(s) && (Able(s', t) || (Inv(s') && s'.lost == {} && NoHandles(s')))
  {
    hide Do, Leads, Work, Checkouts;
    if s.finisher.Some? {
      var e := FinishOne(s, t);
      OneStep(s, e);
      steps, s' := [e], Do(s, e);
    } else if s.strong != {} {
      if u :| u in s.pcs && s.pcs[u].Releasing? {
        steps, s' := ReleaseOne(s, t, u);
      } else {
        var h :| h in s.strong;
        if FreeStrong(s, h) {
          steps, s' := ReleaseFree(s, t, h);
        } else {
          var u :| u in s.pcs && HoldsStrong(s.pcs[u], h);
          steps, s' := ConvertOne(s, t, u);
        }
      }
    } else if u :| u in s.pcs && s.pcs[u].CheckingOut? {
      var e := FailCheckout(s, t, u);
      OneStep(s, e);
      steps, s' := [e], Do(s, e);
    } else {
      var h :| h in s.weak;
      AllFree(s, h);
      s' := DropWeak(s, t, h);
      steps := [SubtractWeak(t, h)];
    }
  }

  lemma AllFree(s: State, h: Handle)
    requires Inv(s) && s.finisher.None? && forall u | u in s.pcs :: !s.pcs[u].CheckingOut?
    ensures FreeWeak(s, h)
  {
  }

  /** With no handle left, the teardown runs to its end. */
  lemma {:induction false} TeardownEnds(s: State) returns (steps: seq<Step>, s': State)
    requires Inv(s) && NoHandles(s) && s.lost == {}
    ensures Leads(s, steps, s') && s'.dead && s'.lost == {}
    decreases Remaining(s)
  {
    hide Do, Inv, Enabled, Remaining, Leads;
    if s.dead {
      steps, s' := [], s;
      NoStep(s);
    } else {
      var e := TeardownNotStuck(s);
      EnabledThread(s, e);
      TeardownAdvances(s, e);
      StepInv(s, e);
      ForgettingLoses(s, e);
      var more;
      more, s' := TeardownEnds(Do(s, e));
      OneStep(s, e);
      LeadsOn(s, [e], Do(s, e), more, s');
      steps := [e] + more;
    }
  }

  lemma NoStep(s: State)
    ensures Leads(s, [], s)
  {}

  lemma EnabledThread(s: State, e: Step)
    requires Enabled(s, e)
    ensures e.t in s.pcs
  {}

  lemma {:induction false} FreeThreadDestroys(s: State, t: Tid) returns (steps: seq<Step>, s': State)
    requires Able(s, t)
    ensures Leads(s, steps, s') && s'.dead && s'.lost == {}
    decreases Work(s)
  {
    hide Do, Inv, Leads, Work;
    if NoHandles(s) {
      steps, s' := TeardownEnds(s);
    } else {
      var first, mid := Progress(s, t);
      var more;
      if NoHandles(mid) {
        more, s' := TeardownEnds(mid);
      } else {
        more, s' := FreeThreadDestroys(mid, t);
      }
      LeadsOn(s, first, mid, more, s');
      steps := first + more;
    }
  }

  // ---- A thread in the middle of an operation becomes free ----

  /** The limits that the source checks stop neither thread t nor a conversion. */
  ghost predicate WithinLimits(s: State, t: Tid) {
    && t in s.pcs && (s.pcs[t].CheckingOut? ==> RoomStrong(s))
    && (RoomWeak(s) || NoneConverting(s))
  }

  /** Thread t is free, or there is nothing left to release. */
  ghost predicate Freed(s: State, t: Tid) {
    Able(s, t) || (Inv(s) && s.lost == {} && NoHandles(s))
  }

  lemma FinishOwn(s: State, t: Tid) returns (e: Step)
    requires Inv(s) && s.lost == {} && t in s.pcs && s.pcs[t].RunningPartial?
    ensures Enabled(s, e) && Freed(Do(s, e), t)
  {
    e := FinishPartial(t, false);
    StepInv(s, e);
    ReadFields(s.word);
    NoStrongNoConverting(Do(s, e));
  }

  /** A checkout that finds the word as it expects it ends; one that does not has it as it is the next time. */
  lemma CheckoutStep(s: State, t: Tid, h': Handle)
    requires t in s.pcs && s.pcs[t].CheckingOut?
    ensures var s' := Do(s, CasCheckout(t, h', false));
            && t in s'.pcs && s'.pcs == s.pcs[t := s'.pcs[t]] && s'.weak == s.weak && s'.lost == s.lost
            && (s'.pcs[t].Idle? ||
                (s.word != s.pcs[t].cur && s'.pcs[t].CheckingOut? && s'.pcs[t].cur == s'.word && s'.strong == s.strong))
  {}

  lemma RunCheckout(s: State, t: Tid) returns (steps: seq<Step>, s': State)
    requires Inv(s) && s.lost == {} && t in s.pcs && s.pcs[t].CheckingOut? && WithinLimits(s, t)
    ensures Leads(s, steps, s') && Freed(s', t)
  {
    var h' := FreshHandle(s.strong);
    var e := CasCheckout(t, h', false);
    CheckoutStep(s, t, h');
    hide Do, Inv, Leads;
    StepInv(s, e);
    OneStep(s, e);
    steps, s' := [e], Do(s, e);
    if s'.pcs[t].CheckingOut? {
      var mid := s';
      CheckoutStep(mid, t, h');
      StepInv(mid, e);
      OneStep(mid, e);
      LeadsOn(s, [e], mid, [e], Do(mid, e));
      steps, s' := [e] + [e], Do(mid, e);
    }
  }

  lemma ReleasesOwn(s: State, t: Tid) returns (steps: seq<Step>, s': State)
    requires Inv(s) && s.lost == {} && t in s.pcs && s.pcs[t].Releasing? && WithinLimits(s, t)
    ensures Leads(s, steps, s') && Freed(s', t)
  {
    steps, s' := RunRelease(s, t);
    hide Inv, Do, Leads;
    if !s'.pcs[t].Idle? && !NoHandles(s') {
      var mid := s';
      var e := FinishOwn(mid, t);
      EnabledThread(mid, e);
      OneStep(mid, e);
      LeadsOn(s, steps, mid, [e], Do(mid, e));
      steps, s' := steps + [e], Do(mid, e);
    }
  }

  lemma ConvertsOwn(s: State, t: Tid) returns (steps: seq<Step>, s': State)
    requires Inv(s) && s.lost == {} && t in s.pcs && s.pcs[t].Converting? && WithinLimits(s, t)
    ensures Leads(s, steps, s') && Freed(s', t)
  {
    var h' := FreshHandle(s.weak);
    var first, mid := RunConvert(s, t, h');
    if mid.pcs[t].Idle? {
      FreshIsFree(s, mid, t, h');
      hide Inv, Do, Leads;
      s' := DropWeak(mid, t, h');
      assert s'.weak == s.weak;
      LeadsOn(s, first, mid, [SubtractWeak(t, h')], s');
      steps := first + [SubtractWeak(t, h')];
    } else {
      hide Inv, Do, Leads;
      var e := FinishOwn(mid, t);
      EnabledThread(mid, e);
      OneStep(mid, e);
      s' := Do(mid, e);
      LeadsOn(s, first, mid, [e], s');
      steps := first + [e];
    }
  }

  /** Whatever it is doing, a thread that the limits do not stop becomes free, unless the last handle is gone. */
  lemma BecomesFree(s: State, t: Tid) returns (steps: seq<Step>, s': State)
    requires Inv(s) && s.lost == {} && WithinLimits(s, t)
    ensures Leads(s, steps, s') && Freed(s', t)
  {
    hide Leads, Do;
    NoStep(s);
    steps, s' := [], s;
    if s.pcs[t].Releasing? {
      steps, s' := ReleasesOwn(s, t);
    } else if s.pcs[t].Converting? {
      steps, s' := ConvertsOwn(s, t);
    } else if s.pcs[t].CheckingOut? {
      steps, s' := RunCheckout(s, t);
    } else if s.pcs[t].RunningPartial? {
      var e := FinishOwn(s, t);
      OneStep(s, e);
      steps, s' := [e], Do(s, e);
    }
  }

  /** As long as no handle has been lost, and the limits that the source checks do not stop every thread, the object
      can be brought to its end. */
  lemma CanBeDestroyed(s: State, t: Tid) returns (steps: seq<Step>, s': State)
    requires Inv(s) && s.lost == {} && WithinLimits(s, t)
    ensures Leads(s, steps, s') && s'.dead && s'.lost == {}
  {
    hide Do, Inv, Leads, WithinLimits;
    var first, mid := BecomesFree(s, t);
    var more;
    if NoHandles(mid) {
      more, s' := TeardownEnds(mid);
    } else {
      more, s' := FreeThreadDestroys(mid, t);
    }
    LeadsOn(s, first, mid, more, s');
    steps := first + more;
  }

  /** A run in which nothing was forgotten can still end with the object destroyed. */
  lemma NothingForgottenEnds(states: seq<State>, steps: seq<Step>, t: Tid)
    returns (states': seq<State>, more: seq<Step>)
    requires IsRun(states, steps) && forall i | 0 <= i < |steps| :: !Forgets(states[i], steps[i])
    requires WithinLimits(states[|steps|], t)
    ensures IsRun(states', steps + more) && states'[|steps + more|].dead
  {
    hide Leads, Inv, Do, Enabled, WithinLimits, Forgets;
    RunInv(states, steps, |steps|);
    OnlyForgettingLoses(states, steps, |steps|);
    hide IsRun;
    RunLength(states, steps);
    var s';
    more, s' := CanBeDestroyed(states[|steps|], t);
    states' := Continue(states, steps, more, s');
  }

  // ---- convertToWeak ----

  /** The compare-exchange of a conversion by t succeeds and makes the weak handle h'. */
  ghost predicate Converts(s: State, e: Step, t: Tid, h': Handle)
  {
    && t in s.pcs && s.pcs[t].Converting? && s.word == s.pcs[t].prev
    && e == CasConvert(t, h', false)
  }

  lemma ConvertsTo(s: State, e: Step, t: Tid, h': Handle)
    requires Inv(s) && Enabled(s, e) && Converts(s, e, t, h')
    ensures var saw := View(s.word);
            && t in Do(s, e).pcs
            && Do(s, e).pcs[t] == if saw.strong == 1 && saw.weak > 0 then RunningPartial(Some(h')) else Idle
  {
    ConvertStrongFields(s.word);
  }

  /** Only its own steps move a thread out of the partial destructor, or out of idleness. */
  lemma OthersLeaveAlone(s: State, e: Step, t: Tid)
    requires Enabled(s, e) && t in s.pcs && e.t != t && !Asleep(s.pcs[t])
    ensures t in Do(s, e).pcs && Do(s, e).pcs[t] == s.pcs[t]
  {
    hide ReleaseStrong, ConvertStrong, Unpack, Plus, Minus, Plain, SetFinished, RoomWeak, RoomStrong;
  }

  lemma {:induction false} StaysPut(states: seq<State>, steps: seq<Step>, a: nat, b: nat, t: Tid)
    requires IsRun(states, steps) && a <= b < |states| && t in states[a].pcs && !Asleep(states[a].pcs[t])
    requires forall i | a <= i < b :: steps[i].t != t
    ensures t in states[b].pcs && states[b].pcs[t] == states[a].pcs[t]
    decreases b
  {
    hide Do, Enabled, Inv;
    if a < b {
      StaysPut(states, steps, a, b - 1, t);
      RunInv(states, steps, b - 1);
      OthersLeaveAlone(states[b - 1], steps[b - 1], t);
    }
  }

  /** SharedWeakUnion::convertToWeak: the compare-exchange at step j succeeds, the thread's next step is k, and
      after a partial destructor it drops its pointer. It forgets its handle exactly when the compare-exchange saw
      one strong and some weak handles; the object is then never destroyed. */
  lemma ConvertToWeakLeaksIff(states: seq<State>, steps: seq<Step>, j: nat, k: nat, t: Tid, h': Handle)
    requires IsRun(states, steps) && j < k < |steps| && Converts(states[j], steps[j], t, h')
    requires steps[k].t == t && (forall i | j < i < k :: steps[i].t != t) && (steps[k].FinishPartial? ==> steps[k].drop)
    ensures var saw := View(states[j].word);
            Forgets(states[k], steps[k]) <==> saw.strong == 1 && saw.weak > 0
    ensures Forgets(states[k], steps[k]) ==>
      h' in states[k + 1].lost && forall i | k < i < |states| :: !states[i].dead && states[i].weak != {}
  {
    RunInv(states, steps, j);
    RunInv(states, steps, k);
    ConvertsTo(states[j], steps[j], t, h');
    StaysPut(states, steps, j + 1, k, t);
    ForgettingLoses(states[k], steps[k]);
    if Forgets(states[k], steps[k]) {
      forall i | k < i < |states| ensures !states[i].dead && states[i].weak != {} {
        ForgottenHandleLeaks(states, steps, k, i);
      }
    }
    hide Inv;
  }

  /** Thread 0 adds the weak handle 1 to a new object whose strong handle is 0. */
  lemma SharedObject(threads: set<Tid>) returns (states: seq<State>, steps: seq<Step>)
    requires 0 in threads
    ensures IsRun(states, steps) && |steps| == 1
    ensures var s := states[1];
            && s.strong == {0} && s.weak == {1} && s.lost == {} && s.destroys == 0 && !s.dead
            && s.pcs.Keys == threads && (forall t | t in threads :: s.pcs[t] == Idle)
            && View(s.word) == Fields(1, 1, false, false)
  {
    var s := State(STRONG_DELTA, {0}, {}, {}, map t | t in threads :: Idle, 0, 0, false, None, None, None);
    states, steps := [s, Do(s, AddWeak(0, 0, 1))], [AddWeak(0, 0, 1)];
    AddWeakField(s.word);
  }

  lemma LoadsConvert(s: State, t: Tid, h: Handle)
    requires t in s.pcs && s.pcs[t].Idle? && h in s.strong && FreeStrong(s, h)
    ensures Enabled(s, LoadConvert(t, h)) && Do(s, LoadConvert(t, h)) == Goto(s, t, Converting(h, s.word))
  {}

  /** A run of one thread that ends with the handle forgotten. */
  lemma LeakingRun() returns (states: seq<State>, steps: seq<Step>)
    ensures IsRun(states, steps) && |steps| == 4 && Forgets(states[3], steps[3])
    ensures states[4].lost != {} && !states[4].dead
  {
    hide IsRun, Do, Inv;
    states, steps := SharedObject({0});
    RunLength(states, steps);
    var e := LoadConvert(0, 0);
    LoadsConvert(states[1], 0, 0);
    Extend(states, steps, e);
    states, steps := states + [Do(states[1], e)], steps + [e];
    e := CasConvert(0, 2, false);
    RunInv(states, steps, 2);
    ConvertsTo(states[2], e, 0, 2);
    Extend(states, steps, e);
    states, steps := states + [Do(states[2], e)], steps + [e];
    e := FinishPartial(0, true);
    RunInv(states, steps, 3);
    ForgettingLoses(states[3], e);
    Extend(states, steps, e);
    states, steps := states + [Do(states[3], e)], steps + [e];
  }

  // ---- The last notify ----

  /** The object can be destroyed while a thread has yet to call notify_one on its word. */
  ghost predicate CanNotifyLate(s: State) {
    exists steps, s' :: Leads(s, steps, s') && s'.dead && s'.notifier.Some?
  }

  /** Once the notification is pending, the destroyer need not wait for it. */
  lemma OvertakesNotify(s: State)
    requires Inv(s) && !s.dead && s.notifier.Some?
    ensures CanNotifyLate(s)
  {
    var d := s.destroyer.value;
    assert InRelease(s.pcs[d]) && ReleaseOk(s, s.pcs[d]);
    var mid, steps := s, [];
    NoStep(s);
    if !s.pcs[d].Destroying? {
      var e := if s.pcs[d].AwaitingFinish? then WaitFinish(d) else Wake(d);
      mid, steps := Do(s, e), [e];
      OneStep(s, e);
    }
    OneStep(mid, Destruct(d));
    var s' := Do(mid, Destruct(d));
    LeadsOn(s, steps, mid, [Destruct(d)], s');
    assert Leads(s, steps + [Destruct(d)], s');
  }

  lemma FinishNotifies(s: State)
    requires Inv(s) && NoHandles(s) && s.finisher.Some? && !s.dead
    ensures var e := FinishPartial(s.finisher.value, false);
            Enabled(s, e) && Inv(Do(s, e)) && !Do(s, e).dead && Do(s, e).notifier.Some?
  {
    ReadFields(s.word);
    StepInv(s, FinishPartial(s.finisher.value, false));
  }

  lemma NoneNotifies(s: State, e: Step)
    requires Inv(s) && NoHandles(s) && s.notifier.None? && s.finisher.None? && Enabled(s, e)
    ensures Do(s, e).notifier.None? && Do(s, e).finisher.None?
  {
    assert LoopOk(s, s.pcs[e.t]);
  }

  lemma {:induction false} NeverLate(s: State, steps: seq<Step>, s': State)
    requires Inv(s) && NoHandles(s) && s.notifier.None? && s.finisher.None? && Leads(s, steps, s')
    ensures s'.notifier.None?
    decreases |steps|
  {
    hide Inv, Do, Enabled;
    if steps != [] {
      var e := steps[0];
      EnabledThread(s, e);
      NoneNotifies(s, e);
      TeardownAdvances(s, e);
      StepInv(s, e);
      NeverLate(Do(s, e), steps[1..], s');
    }
  }

  /** With no handle left, the destructor can run before a notify_one on the same word exactly when the partial
      destructor or its notification is still outstanding. */
  lemma CanNotifyLateIff(s: State)
    requires Inv(s) && NoHandles(s) && !s.dead
    ensures CanNotifyLate(s) <==> s.finisher.Some? || s.notifier.Some?
  {
    hide Inv, Do, Enabled, Leads;
    if s.notifier.Some? {
      OvertakesNotify(s);
    } else if s.finisher.Some? {
      FinishNotifies(s);
      var e := FinishPartial(s.finisher.value, false);
      EnabledThread(s, e);
      OvertakesNotify(Do(s, e));
      var more, s' :| Leads(Do(s, e), more, s') && s'.dead && s'.notifier.Some?;
      OneStep(s, e);
      LeadsOn(s, [e], Do(s, e), more, s');
    } else {
      forall steps, s' | Leads(s, steps, s') ensures s'.notifier.None? {
        NeverLate(s, steps, s');
      }
    }
  }

  /** In terms of what releaseWeakRef reads: giving up the last handle allows it exactly when the word then shows the
      partial destructor started and not finished. */
  lemma LastReleaseNotifiesLateIff(s: State, t: Tid, h: Handle)
    requires Inv(s) && s.strong == {} && s.weak == {h} && Enabled(s, SubtractWeak(t, h))
    ensures CanNotifyLate(Do(s, SubtractWeak(t, h))) <==> View(s.word).started && !View(s.word).finished
  {
    var e := SubtractWeak(t, h);
    StepInv(s, e);
    DropsWeak(s, t, h);
    DropKeepsRoles(s, t, h);
    hide Do, CanNotifyLate;
    CanNotifyLateIff(Do(s, e));
  }

  lemma DropKeepsRoles(s: State, t: Tid, h: Handle)
    requires t in s.pcs
    ensures var s' := Do(s, SubtractWeak(t, h));
            s'.notifier == s.notifier && s'.finisher == s.finisher && s'.dead == s.dead
  {}

  /** A run of two threads: one releases the last strong handle and runs the partial destructor, the other releases
      the last weak handle and destroys the object before the first notifies. */
  lemma LateNotifyRun() returns (states: seq<State>, steps: seq<Step>)
    ensures IsRun(states, steps) && states[|steps|].dead && states[|steps|].notifier.Some?
  {
    hide IsRun, Do, Inv, CanNotifyLate;
    states, steps := SharedObject({0, 1});
    RunLength(states, steps);
    var e := LoadRelease(0, 0);
    Extend(states, steps, e);
    states, steps := states + [Do(states[1], e)], steps + [e];
    RunInv(states, steps, 2);
    ReleasesToPartial(states[1]);
    e := CasRelease(0, false);
    Extend(states, steps, e);
    states, steps := states + [Do(states[2], e)], steps + [e];
    RunInv(states, steps, 3);
    e := SubtractWeak(1, 1);
    LastReleaseNotifiesLateIff(states[3], 1, 1);
    Extend(states, steps, e);
    states, steps := states + [Do(states[3], e)], steps + [e];
    assert CanNotifyLate(states[4]);
    var more, s' := LateSteps(states[4]);
    states := Continue(states, steps, more, s');
    steps := steps + more;
  }

  lemma LateSteps(s: State) returns (steps: seq<Step>, s': State)
    requires CanNotifyLate(s)
    ensures Leads(s, steps, s') && s'.dead && s'.notifier.Some?
  {
    steps, s' :| Leads(s, steps, s') && s'.dead && s'.notifier.Some?;
  }

  /** The release of a single strong handle beside one weak one returns PartialDestroy. */
  lemma ReleasesToPartial(s: State)
    requires s.strong == {0} && s.weak == {1} && s.lost == {} && View(s.word) == Fields(1, 1, false, false)
    requires s.pcs.Keys == {0, 1} && s.pcs[0] == Idle && s.pcs[1] == Idle
    ensures var mid := Do(s, LoadRelease(0, 0));
            && 0 in mid.pcs && Enabled(mid, CasRelease(0, false))
            && var s' := Do(mid, CasRelease(0, false));
               && s'.strong == {} && s'.weak == {1} && Enabled(s', SubtractWeak(1, 1))
               && View(s'.word).started && !View(s'.word).finished
  {
    ReleaseStrongFields(s.word);
  }
}
