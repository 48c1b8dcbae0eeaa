/** ClosureCounter as a step machine: one step per atomic increment, lock operation or action
    under the lock, any number of threads wrapping, copying, destroying and joining. */
module ClosureCounter {
  import opened Wrappers

  type Tid = nat
  type Sub = nat
  datatype Pc =
    | Idle
    | WrapEntering                      // wrap, before the lock
    | WrapInside                        // wrap, holding the lock
    | DropEntering(n: Sub)              // ~Substitute, before the lock
    | DropInside(n: Sub)                // ~Substitute, holding the lock, before the decrement
    | DropNotifying                     // the count reached zero while joining
    | Leaving                           // about to release the lock
    | JoinEntering                      // join, before the lock
    | JoinTesting                       // join, holding the lock, at `closureCount_ > 0`
    | JoinPredicate(expired: bool)      // join, holding the lock, at the predicate of a wait
    | JoinAsleep(expired: bool)         // blocked in wait_for, or in wait once that has expired; lock released
    | JoinWaking(expired: bool)         // left the wait, reacquiring the lock
    | JoinLeaving                       // join is done, about to release the lock

  /** `live` holds the substitutes that exist; `joined` counts the joins that have returned. */
  datatype State = State(
    count: int,
    joining: bool,
    lock: Option<Tid>,
    live: set<Sub>,
    pcs: map<Tid, Pc>,
    joined: nat)

  datatype Step =
    | BeginWrap(t: Tid)
    | BeginDrop(t: Tid, n: Sub)
    | BeginJoin(t: Tid)
    | Duplicate(t: Tid, r: Sub, n: Sub)     // copy or move construction
    | Acquire(t: Tid)
    | Wrap(t: Tid, n: Sub)
    | Decrement(t: Tid)
    | NotifyAll(t: Tid)
    | Release(t: Tid)
    | TestCount(t: Tid)
    | TestPredicate(t: Tid)
    | WakeUp(t: Tid, timeout: bool)         // spurious wake-up or timeout

  ghost predicate Init(s: State) {
    s.count == 0 && !s.joining && s.lock == None && s.live == {} && s.joined == 0
    && forall t | t in s.pcs :: s.pcs[t].Idle?
  }

  predicate Inside(pc: Pc) {
    pc.WrapInside? || pc.DropInside? || pc.DropNotifying? || pc.Leaving?
    || pc.JoinTesting? || pc.JoinPredicate? || pc.JoinLeaving?
  }

  predicate Entering(pc: Pc) {
    pc.WrapEntering? || pc.DropEntering? || pc.JoinEntering? || pc.JoinWaking?
  }

  predicate Drops(pc: Pc, n: Sub) {
    (pc.DropEntering? || pc.DropInside?) && pc.n == n
  }

  ghost predicate NotDropped(s: State, n: Sub) {
    forall t | t in s.pcs :: !Drops(s.pcs[t], n)
  }

  /** Only an existing substitute can be copied, moved or destroyed, and it is destroyed once. */
  ghost predicate Enabled(s: State, e: Step) {
    && e.t in s.pcs
    && var pc := s.pcs[e.t];
       match e
       case BeginWrap(_) => pc.Idle?
       case BeginDrop(_, n) => pc.Idle? && n in s.live && NotDropped(s, n)
       case BeginJoin(_) => pc.Idle?
       case Duplicate(_, r, n) => pc.Idle? && r in s.live && NotDropped(s, r) && n !in s.live
       case Acquire(_) => Entering(pc) && s.lock == None
       case Wrap(_, n) => pc.WrapInside? && n !in s.live
       case Decrement(_) => pc.DropInside?
       case NotifyAll(_) => pc.DropNotifying?
       case Release(_) => pc.Leaving? || pc.JoinLeaving?
       case TestCount(_) => pc.JoinTesting?
       case TestPredicate(_) => pc.JoinPredicate?
       case WakeUp(_, timeout) => pc.JoinAsleep? && (timeout ==> !pc.expired)
  }

  function Goto(s: State, t: Tid, pc: Pc): State {
    s.(pcs := s.pcs[t := pc])
  }

  function Awakened(pc: Pc): Pc {
    if pc.JoinAsleep? then JoinWaking(pc.expired) else pc
  }

  function Do(s: State, e: Step): State
    requires e.t in s.pcs
  {
    var t, pc := e.t, s.pcs[e.t];
    match e
    case BeginWrap(_) => Goto(s, t, WrapEntering)
    case BeginDrop(_, n) => Goto(s, t, DropEntering(n))
    case BeginJoin(_) => Goto(s, t, JoinEntering)
    case Duplicate(_, _, n) => s.(count := s.count + 1, live := s.live + {n})
    case Acquire(_) => DoAcquire(s, t)
    case Wrap(_, n) =>
      var s1 := Goto(s, t, Leaving);
      if s.joining then s1 else s1.(count := s.count + 1, live := s.live + {n})
    case Decrement(_) =>
      if !pc.DropInside? then s else
      var s1 := s.(count := s.count - 1, live := s.live - {pc.n});
      if s1.count == 0 && s.joining then Goto(s1, t, DropNotifying) else Goto(s1, t, Leaving)
    case NotifyAll(_) =>
      Goto(s.(pcs := map u | u in s.pcs :: Awakened(s.pcs[u])), t, Leaving)
    case Release(_) =>
      Goto(s, t, Idle).(lock := None, joined := s.joined + if pc.JoinLeaving? then 1 else 0)
    case TestCount(_) => if s.count > 0 then Goto(s, t, JoinPredicate(false)) else Goto(s, t, JoinLeaving)
    case TestPredicate(_) =>
      if !pc.JoinPredicate? then s
      else if s.count == 0 then Goto(s, t, JoinLeaving)
      else Goto(s, t, JoinAsleep(pc.expired)).(lock := None)
    case WakeUp(_, timeout) => if !pc.JoinAsleep? then s else Goto(s, t, JoinWaking(pc.expired || timeout))
  }

  function DoAcquire(s: State, t: Tid): State
    requires t in s.pcs
  {
    var s1 := s.(lock := Some(t));
    match s.pcs[t]
    case WrapEntering => Goto(s1, t, WrapInside)
    case DropEntering(n) => Goto(s1, t, DropInside(n))
    case JoinEntering => Goto(s1, t, JoinTesting).(joining := true)
    case JoinWaking(expired) => Goto(s1, t, JoinPredicate(expired))
    case _ => s
  }

  // ---- Invariant ----

  ghost predicate Locking(s: State) {
    && (s.lock.Some? ==> s.lock.value in s.pcs)
    && forall t | t in s.pcs :: Inside(s.pcs[t]) <==> s.lock == Some(t)
  }

  ghost predicate Dropping(s: State) {
    && (forall t, n | t in s.pcs && Drops(s.pcs[t], n) :: n in s.live)
    && (forall t, u, n | t in s.pcs && u in s.pcs && Drops(s.pcs[t], n) && Drops(s.pcs[u], n) :: t == u)
  }

  predicate Joining(pc: Pc) {
    pc.JoinTesting? || pc.JoinPredicate? || pc.JoinAsleep? || pc.JoinWaking? || pc.JoinLeaving?
  }

  /** The thread holding the lock is about to wake every sleeper. */
  ghost predicate NotifyPending(s: State) {
    s.lock.Some? && s.lock.value in s.pcs && s.pcs[s.lock.value].DropNotifying?
  }

  ghost predicate JoinOk(s: State, pc: Pc) {
    && (Joining(pc) ==> s.joining)
    && (pc.JoinAsleep? ==> s.count > 0 || NotifyPending(s))
    && (pc.JoinLeaving? ==> s.count == 0)
    && (pc.DropNotifying? ==> s.count == 0 && s.joining)
  }

  ghost predicate Joins(s: State) {
    && (forall t | t in s.pcs :: JoinOk(s, s.pcs[t]))
    && (s.joined > 0 ==> s.joining && s.count == 0)
  }

  ghost predicate Inv(s: State) {
    s.count == |s.live| && Locking(s) && Dropping(s) && Joins(s)
  }

  lemma BeginInv(s: State, e: Step)
    requires Inv(s) && Enabled(s, e) && (e.BeginWrap? || e.BeginDrop? || e.BeginJoin? || e.WakeUp?)
    ensures Inv(Do(s, e))
  {}

  lemma CountInv(s: State, e: Step)
    requires Inv(s) && Enabled(s, e) && (e.Duplicate? || e.Wrap?)
    ensures Inv(Do(s, e))
  {}

  lemma DecrementInv(s: State, e: Step)
    requires Inv(s) && Enabled(s, e) && e.Decrement?
    ensures Inv(Do(s, e))
  {
    var s' := Do(s, e);
    assert Drops(s.pcs[e.t], s.pcs[e.t].n);
    assert s'.count == |s'.live|;
    assert Locking(s') && Dropping(s');
  }

  lemma AcquireInv(s: State, e: Step)
    requires Inv(s) && Enabled(s, e) && e.Acquire?
    ensures Inv(Do(s, e))
  {}

  lemma ReleaseInv(s: State, e: Step)
    requires Inv(s) && Enabled(s, e) && e.Release?
    ensures Inv(Do(s, e))
  {}

  lemma NotifyAllInv(s: State, e: Step)
    requires Inv(s) && Enabled(s, e) && e.NotifyAll?
    ensures Inv(Do(s, e))
  {}

  lemma TestInv(s: State, e: Step)
    requires Inv(s) && Enabled(s, e) && (e.TestCount? || e.TestPredicate?)
    ensures Inv(Do(s, e))
  {}

  lemma StepInv(s: State, e: Step)
    requires Inv(s) && Enabled(s, e)
    ensures Inv(Do(s, e))
  {
    hide Do, Inv, Enabled;
    if e.BeginWrap? || e.BeginDrop? || e.BeginJoin? || e.WakeUp? { BeginInv(s, e); }
    else if e.Duplicate? || e.Wrap? { CountInv(s, e); }
    else if e.Decrement? { DecrementInv(s, e); }
    else if e.TestCount? || e.TestPredicate? { TestInv(s, e); }
    else if e.Acquire? { AcquireInv(s, e); }
    else if e.Release? { ReleaseInv(s, e); }
    else { NotifyAllInv(s, e); }
  }

  ghost predicate IsRun(states: seq<State>, steps: seq<Step>) {
    && |states| == |steps| + 1
    && Init(states[0])
    && forall i | 0 <= i < |steps| :: Enabled(states[i], steps[i]) && states[i + 1] == Do(states[i], steps[i])
  }

  lemma {:induction false} RunInv(states: seq<State>, steps: seq<Step>, i: nat)
    requires IsRun(states, steps) && i < |states|
    ensures Inv(states[i])
  {
    if i > 0 {
      hide Do, Inv, Enabled;
      RunInv(states, steps, i - 1);
      StepInv(states[i - 1], steps[i - 1]);
    }
  }

  // ---- Theorems ----

  /** The count is the number of substitutes in existence, at every moment of every run. */
  lemma CountIsLive(states: seq<State>, steps: seq<Step>, i: nat)
    requires IsRun(states, steps) && i < |states|
    ensures states[i].count == |states[i].live|
  {
    RunInv(states, steps, i);
  }

  lemma DroppedIsLive(s: State, t: Tid)
    requires Dropping(s) && t in s.pcs && s.pcs[t].DropInside?
    ensures s.live != {}
  {
    assert Drops(s.pcs[t], s.pcs[t].n);
    assert s.pcs[t].n in s.live;
  }

  /** While joining, no step brings the count back up from zero. */
  lemma JoinedStep(s: State, e: Step)
    requires Inv(s) && Enabled(s, e) && s.joining && s.count == 0
    ensures Do(s, e).joining && Do(s, e).count == 0
  {
    if e.Decrement? { DroppedIsLive(s, e.t); }
  }

  lemma {:induction false} ZeroForever(states: seq<State>, steps: seq<Step>, i: nat, j: nat)
    requires IsRun(states, steps) && i <= j < |states| && states[i].joining && states[i].count == 0
    ensures states[j].joining && states[j].count == 0
    decreases j
  {
    hide Do, Inv, Enabled;
    if i < j {
      ZeroForever(states, steps, i, j - 1);
      RunInv(states, steps, j - 1);
      JoinedStep(states[j - 1], steps[j - 1]);
    }
  }

  /** Once a join has returned there is no substitute left, and there never will be one again. */
  lemma JoinReturned(states: seq<State>, steps: seq<Step>, i: nat, j: nat)
    requires IsRun(states, steps) && i <= j < |states| && states[i].joined > 0
    ensures states[j].count == 0 && states[j].live == {}
  {
    RunInv(states, steps, i);
    ZeroForever(states, steps, i, j);
    RunInv(states, steps, j);
  }

  // ---- What each call does ----

  /** A step in which a join takes the lock for the first time. */
  predicate JoinsIn(s: State, e: Step) {
    e.Acquire? && e.t in s.pcs && s.pcs[e.t].JoinEntering?
  }

  lemma JoiningStep(s: State, e: Step)
    requires Enabled(s, e)
    ensures Do(s, e).joining <==> s.joining || JoinsIn(s, e)
  {}

  lemma {:induction false} JoiningMeans(states: seq<State>, steps: seq<Step>, i: nat)
    requires IsRun(states, steps) && i < |states|
    ensures states[i].joining <==> exists k | 0 <= k < i :: JoinsIn(states[k], steps[k])
  {
    if i > 0 {
      hide Do, Enabled, JoinsIn;
      JoiningMeans(states, steps, i - 1);
      JoiningStep(states[i - 1], steps[i - 1]);
    }
  }

  lemma WrapStep(s: State, e: Step)
    requires Enabled(s, e) && e.Wrap?
    ensures e.n !in s.live
    ensures if s.joining then Do(s, e).live == s.live && Do(s, e).count == s.count
            else Do(s, e).live == s.live + {e.n} && Do(s, e).count == s.count + 1
  {}

  /** wrap hands out exactly one new substitute if no join has taken the lock before, and none otherwise. */
  lemma WrapUnlessJoined(states: seq<State>, steps: seq<Step>, i: nat)
    requires IsRun(states, steps) && i < |steps| && steps[i].Wrap?
    ensures var (s, s') := (states[i], states[i + 1]); var n := steps[i].n;
            if exists k | 0 <= k < i :: JoinsIn(states[k], steps[k])
            then s'.live == s.live && s'.count == s.count
            else n !in s.live && s'.live == s.live + {n} && s'.count == s.count + 1
  {
    hide Do, Enabled, JoinsIn;
    JoiningMeans(states, steps, i);
    WrapStep(states[i], steps[i]);
  }

  /** Only wrapping, copying and dropping change which substitutes exist. */
  lemma LiveAfter(s: State, e: Step)
    requires Inv(s) && Enabled(s, e)
    ensures e.Duplicate? ==> e.r in s.live && e.n !in s.live && Do(s, e).live == s.live + {e.n}
    ensures e.Decrement? ==> s.pcs[e.t].n in s.live && Do(s, e).live == s.live - {s.pcs[e.t].n}
    ensures !e.Duplicate? && !e.Decrement? && !e.Wrap? ==> Do(s, e).live == s.live
  {
    if e.Decrement? { assert Drops(s.pcs[e.t], s.pcs[e.t].n); }
  }

  /** The call that thread t begins with step a returns in state b. */
  ghost predicate Returns(states: seq<State>, t: Tid, a: nat, b: nat) {
    && a < b < |states| && t in states[b].pcs && states[b].pcs[t].Idle?
    && forall i | a < i < b :: t in states[i].pcs && !states[i].pcs[t].Idle?
  }

  lemma OthersStay(s: State, e: Step, t: Tid)
    requires Enabled(s, e) && t in s.pcs && t != e.t
    ensures t in Do(s, e).pcs
    ensures Do(s, e).pcs[t] == s.pcs[t] || (e.NotifyAll? && Do(s, e).pcs[t] == Awakened(s.pcs[t]))
  {}

  predicate InJoin(pc: Pc) {
    pc.JoinEntering? || Joining(pc)
  }

  /** A thread inside join stays inside, or returns at count zero with the flag up. */
  lemma JoinStep(s: State, e: Step, t: Tid)
    requires Inv(s) && Enabled(s, e) && t in s.pcs && InJoin(s.pcs[t])
    ensures t in Do(s, e).pcs
    ensures !InJoin(Do(s, e).pcs[t]) ==>
              && Do(s, e).pcs[t].Idle? && Do(s, e).joining && Do(s, e).count == 0 && Do(s, e).live == {}
              && Do(s, e).joined == s.joined + 1
  {
    assert JoinOk(s, s.pcs[t]);
    if e.t != t { OthersStay(s, e, t); }
  }

  lemma {:induction false} StaysInJoin(states: seq<State>, steps: seq<Step>, a: nat, i: nat, t: Tid)
    requires IsRun(states, steps) && a < i < |states| && steps[a] == BeginJoin(t)
    requires forall k | a < k <= i :: t in states[k].pcs && !states[k].pcs[t].Idle?
    ensures InJoin(states[i].pcs[t])
    decreases i
  {
    if a + 1 < i {
      hide Do, Inv, Enabled;
      StaysInJoin(states, steps, a, i - 1, t);
      RunInv(states, steps, i - 1);
      JoinStep(states[i - 1], steps[i - 1], t);
    }
  }

  lemma Begins(s: State, e: Step)
    requires Enabled(s, e)
    ensures e.BeginJoin? ==> e.t in Do(s, e).pcs && Do(s, e).pcs[e.t] == JoinEntering
    ensures e.BeginDrop? ==> e.t in Do(s, e).pcs && Do(s, e).pcs[e.t] == DropEntering(e.n)
    ensures e.BeginWrap? ==> e.t in Do(s, e).pcs && Do(s, e).pcs[e.t] == WrapEntering
  {}

  /** join returns only when there is no substitute, and from then on there never is one. */
  lemma JoinReturns(states: seq<State>, steps: seq<Step>, a: nat, b: nat, j: nat, t: Tid)
    requires IsRun(states, steps) && Returns(states, t, a, b) && steps[a] == BeginJoin(t) && b <= j < |states|
    ensures states[j].count == 0 && states[j].live == {}
  {
    hide Do, Inv, Enabled, Init;
    Begins(states[a], steps[a]);
    StaysInJoin(states, steps, a, b - 1, t);
    RunInv(states, steps, b - 1);
    JoinStep(states[b - 1], steps[b - 1], t);
    ZeroForever(states, steps, b, j);
    RunInv(states, steps, j);
    NoneLive(states[j]);
  }

  lemma NoneLive(s: State)
    requires Inv(s) && s.count == 0
    ensures s.live == {}
  {}

  /** Where thread t stands in the destructor of substitute n: it is about to drop it, or has done so in step k. */
  ghost predicate DropsAt(states: seq<State>, steps: seq<Step>, t: Tid, n: Sub, k: nat) {
    && k + 1 < |states| && k < |steps| && steps[k] == Decrement(t)
    && n in states[k].live && states[k + 1].live == states[k].live - {n} && states[k + 1].count == states[k].count - 1
  }

  lemma DropStep(s: State, e: Step, t: Tid, n: Sub)
    requires Inv(s) && Enabled(s, e) && t in s.pcs
    ensures t in Do(s, e).pcs
    ensures Drops(s.pcs[t], n) && !Drops(Do(s, e).pcs[t], n) ==>
              && e == Decrement(t) && n in s.live && Do(s, e).live == s.live - {n} && Do(s, e).count == s.count - 1
              && (Do(s, e).pcs[t].Leaving? || Do(s, e).pcs[t].DropNotifying?)
    ensures Drops(s.pcs[t], n) && Drops(Do(s, e).pcs[t], n) ==> e != Decrement(t)
    ensures s.pcs[t].Leaving? || s.pcs[t].DropNotifying? ==>
              && e != Decrement(t)
              && (Do(s, e).pcs[t].Leaving? || Do(s, e).pcs[t].DropNotifying? || Do(s, e).pcs[t].Idle?)
  {
    assert Drops(s.pcs[t], n) ==> n in s.live;
    if e.t != t { OthersStay(s, e, t); }
  }

  lemma {:induction false} StaysInDrop(states: seq<State>, steps: seq<Step>, a: nat, i: nat, t: Tid, n: Sub)
    requires IsRun(states, steps) && a < i < |states| && steps[a] == BeginDrop(t, n)
    requires forall k | a < k < i :: t in states[k].pcs && !states[k].pcs[t].Idle?
    ensures t in states[i].pcs
    ensures if Drops(states[i].pcs[t], n) then forall k | a <= k < i :: steps[k] != Decrement(t)
            else (exists k | a < k < i :: DropsAt(states, steps, t, n, k))
                 && (states[i].pcs[t].Leaving? || states[i].pcs[t].DropNotifying? || states[i].pcs[t].Idle?)
    ensures forall k, l | a <= k < l < i :: steps[k] == Decrement(t) ==> steps[l] != Decrement(t)
    decreases i
  {
    hide Do, Inv, Enabled, Init;
    if a + 1 == i {
      Begins(states[a], steps[a]);
    } else {
      StaysInDrop(states, steps, a, i - 1, t, n);
      RunInv(states, steps, i - 1);
      DropStep(states[i - 1], steps[i - 1], t, n);
      if Drops(states[i - 1].pcs[t], n) && !Drops(states[i].pcs[t], n) { assert DropsAt(states, steps, t, n, i - 1); }
    }
  }

  /** The destructor of a substitute has dropped exactly that one, once, when it returns. */
  lemma DropReturns(states: seq<State>, steps: seq<Step>, a: nat, b: nat, t: Tid, n: Sub)
    requires IsRun(states, steps) && Returns(states, t, a, b) && steps[a] == BeginDrop(t, n)
    ensures exists k | a < k < b :: DropsAt(states, steps, t, n, k)
    ensures forall k, l | a <= k < l < b :: steps[k] == Decrement(t) ==> steps[l] != Decrement(t)
  {
    hide Do, Inv, Enabled, Init;
    StaysInDrop(states, steps, a, b, t, n);
  }

  predicate InWrap(pc: Pc) {
    pc.WrapEntering? || pc.WrapInside?
  }

  lemma WrapCallStep(s: State, e: Step, t: Tid)
    requires Enabled(s, e) && t in s.pcs
    ensures t in Do(s, e).pcs
    ensures InWrap(s.pcs[t]) && !InWrap(Do(s, e).pcs[t]) ==> e.t == t && e.Wrap? && Do(s, e).pcs[t].Leaving?
    ensures s.pcs[t].Leaving? ==> !(e.t == t && e.Wrap?) && (Do(s, e).pcs[t].Leaving? || Do(s, e).pcs[t].Idle?)
    ensures InWrap(s.pcs[t]) && InWrap(Do(s, e).pcs[t]) ==> !(e.t == t && e.Wrap?)
  {
    if e.t != t { OthersStay(s, e, t); }
  }

  lemma {:induction false} StaysInWrap(states: seq<State>, steps: seq<Step>, a: nat, i: nat, t: Tid)
    requires IsRun(states, steps) && a < i < |states| && steps[a] == BeginWrap(t)
    requires forall k | a < k < i :: t in states[k].pcs && !states[k].pcs[t].Idle?
    ensures t in states[i].pcs
    ensures if InWrap(states[i].pcs[t]) then forall k | a <= k < i :: !(steps[k].t == t && steps[k].Wrap?)
            else (exists k | a < k < i :: steps[k].t == t && steps[k].Wrap?)
                 && (states[i].pcs[t].Leaving? || states[i].pcs[t].Idle?)
    ensures forall k, l | a <= k < l < i ::
              !(steps[k].t == t && steps[k].Wrap? && steps[l].t == t && steps[l].Wrap?)
    decreases i
  {
    hide Do, Enabled, Init;
    if a + 1 == i {
      Begins(states[a], steps[a]);
    } else {
      StaysInWrap(states, steps, a, i - 1, t);
      WrapCallStep(states[i - 1], steps[i - 1], t);
    }
  }

  /** A call of wrap that returns has taken its one decision, as WrapUnlessJoined describes it. */
  lemma WrapReturns(states: seq<State>, steps: seq<Step>, a: nat, b: nat, t: Tid) returns (k: nat)
    requires IsRun(states, steps) && Returns(states, t, a, b) && steps[a] == BeginWrap(t)
    ensures a < k < b && steps[k].t == t && steps[k].Wrap?
    ensures forall l | a <= l < b && steps[l].t == t && steps[l].Wrap? :: l == k
  {
    hide Do, Enabled, Init;
    StaysInWrap(states, steps, a, b, t);
    k :| a < k < b && steps[k].t == t && steps[k].Wrap?;
  }

  /** One thread on its own, at position pc. */
  function Alone(joining: bool, locked: bool, live: set<Sub>, pc: Pc, joined: nat): State {
    State(|live|, joining, if locked then Some(0) else None, live, map[0 := pc], joined)
  }

  function AloneAt(i: nat): State {
    match i
    case 1 => Alone(false, false, {}, WrapEntering, 0)
    case 2 => Alone(false, true, {}, WrapInside, 0)
    case 3 => Alone(false, true, {5}, Leaving, 0)
    case 4 => Alone(false, false, {5}, Idle, 0)
    case 5 => Alone(false, false, {5}, DropEntering(5), 0)
    case 6 => Alone(false, true, {5}, DropInside(5), 0)
    case 7 => Alone(false, true, {}, Leaving, 0)
    case 9 => Alone(false, false, {}, JoinEntering, 0)
    case 10 => Alone(true, true, {}, JoinTesting, 0)
    case 11 => Alone(true, true, {}, JoinLeaving, 0)
    case 12 => Alone(true, false, {}, Idle, 1)
    case _ => Alone(false, false, {}, Idle, 0)
  }

  const ALONE: seq<Step> := [
    BeginWrap(0), Acquire(0), Wrap(0, 5), Release(0), BeginDrop(0, 5), Acquire(0), Decrement(0), Release(0),
    BeginJoin(0), Acquire(0), TestCount(0), Release(0)]

  lemma AloneGoes(i: nat)
    requires i < 12
    ensures Enabled(AloneAt(i), ALONE[i]) && AloneAt(i + 1) == Do(AloneAt(i), ALONE[i])
  {
    var s, e, s' := AloneAt(i), ALONE[i], AloneAt(i + 1);
    if i < 4 {
      assert i == 2 ==> s.live + {5} == s'.live;
    } else if i < 8 {
      assert i == 6 ==> s.live - {5} == s'.live;
    }
    assert Do(s, e).pcs == s'.pcs;
  }

  /** A run in which a substitute is wrapped, dropped and joined. */
  lemma WrapDropJoin() returns (states: seq<State>)
    ensures IsRun(states, ALONE) && states[3].live == {5} && states[12].joined == 1
  {
    states := seq(13, i requires 0 <= i => AloneAt(i));
    hide Do, Enabled, Alone;
    forall i | 0 <= i < 12 ensures Enabled(states[i], ALONE[i]) && states[i + 1] == Do(states[i], ALONE[i]) {
      AloneGoes(i);
    }
    AloneStarts();
  }

  lemma AloneStarts()
    ensures Init(AloneAt(0)) && AloneAt(3).live == {5} && AloneAt(12).joined == 1
  {}

  predicate Expires(e: Step, t: Tid) { e == WakeUp(t, true) }

  predicate Waits(pc: Pc) {
    pc.JoinPredicate? || pc.JoinAsleep? || pc.JoinWaking?
  }

  lemma WaitStep(s: State, e: Step, t: Tid)
    requires Enabled(s, e) && t in s.pcs && InJoin(s.pcs[t])
    ensures t in Do(s, e).pcs
    ensures !Waits(s.pcs[t]) ==> !Expires(e, t) && (Waits(Do(s, e).pcs[t]) ==> !Do(s, e).pcs[t].expired)
    ensures Waits(s.pcs[t]) && Waits(Do(s, e).pcs[t]) ==>
              (Do(s, e).pcs[t].expired <==> s.pcs[t].expired || Expires(e, t))
    ensures Waits(s.pcs[t]) && s.pcs[t].expired ==> !Expires(e, t)
    ensures s.pcs[t].JoinLeaving? ==> Do(s, e).pcs[t].JoinLeaving? || Do(s, e).pcs[t].Idle?
    ensures Waits(s.pcs[t]) && !Waits(Do(s, e).pcs[t]) ==> Do(s, e).pcs[t].JoinLeaving? && !Expires(e, t)
  {
    if e.t != t { OthersStay(s, e, t); }
  }

  /** The wait of a join is the untimed one exactly when the timed one has expired, which it does at most once. */
  lemma {:induction false} ExpiresOnce(states: seq<State>, steps: seq<Step>, a: nat, i: nat, t: Tid)
    requires IsRun(states, steps) && a < i < |states| && steps[a] == BeginJoin(t)
    requires forall k | a < k <= i :: t in states[k].pcs && !states[k].pcs[t].Idle?
    ensures Waits(states[i].pcs[t]) ==> (states[i].pcs[t].expired <==> exists k | a < k < i :: Expires(steps[k], t))
    ensures states[i].pcs[t].JoinEntering? || states[i].pcs[t].JoinTesting? ==>
              forall k | a < k < i :: !Expires(steps[k], t)
    ensures forall k, l | a < k < l < i :: !(Expires(steps[k], t) && Expires(steps[l], t))
    decreases i
  {
    hide Do, Enabled, Init, Expires, Inv;
    if a + 1 == i {
      Begins(states[a], steps[a]);
    } else {
      ExpiresOnce(states, steps, a, i - 1, t);
      StaysInJoin(states, steps, a, i - 1, t);
      StaysInJoin(states, steps, a, i, t);
      WaitStep(states[i - 1], steps[i - 1], t);
      EntersOnce(states[i - 1], steps[i - 1], t);
    }
  }

  lemma EntersOnce(s: State, e: Step, t: Tid)
    requires Enabled(s, e) && t in s.pcs && InJoin(s.pcs[t])
    ensures t in Do(s, e).pcs
    ensures Do(s, e).pcs[t].JoinEntering? || Do(s, e).pcs[t].JoinTesting? ==>
              s.pcs[t].JoinEntering? || s.pcs[t].JoinTesting?
  {
    if e.t != t { OthersStay(s, e, t); }
  }

  // ---- Every call can come to its end ----

  /** The steps can be taken one after the other from s, and lead to s'. */
  ghost predicate Leads(s: State, steps: seq<Step>, s': State)
    decreases |steps|
  {
    if steps == [] then s' == s
    else Enabled(s, steps[0]) && Leads(Do(s, steps[0]), steps[1..], s')
  }

  lemma Then(s: State, e: Step, more: seq<Step>, s': State)
    requires Enabled(s, e) && Leads(Do(s, e), more, s')
    ensures Leads(s, [e] + more, s')
  {
    assert ([e] + more)[1..] == more;
  }

  lemma {:induction false} LeadsOn(s: State, a: seq<Step>, mid: State, b: seq<Step>, s': State)
    requires Leads(s, a, mid) && Leads(mid, b, s')
    ensures Leads(s, a + b, s')
    decreases |a|
  {
    hide Do;
    if a == [] {
      assert a + b == b;
    } else {
      assert (a + b)[1..] == a[1..] + b;
      LeadsOn(Do(s, a[0]), a[1..], mid, b, s');
    }
  }

  /** How many steps the holder of the lock has left before it gives it up. */
  function Left(pc: Pc): nat {
    match pc
    case DropInside(_) => 4
    case DropNotifying => 3
    case JoinTesting => 4
    case JoinPredicate(_) => 3
    case WrapInside => 3
    case Leaving => 1
    case JoinLeaving => 1
    case _ => 0
  }

  /** What steps of the holder u leave alone. */
  ghost predicate Undisturbed(s: State, u: Tid, s': State) {
    && s'.pcs.Keys == s.pcs.Keys && (s.joining ==> s'.joining) && (s.joining && s.live == {} ==> s'.live == {})
    && forall t | t in s.pcs && t != u :: s'.pcs[t] == s.pcs[t] || s'.pcs[t] == Awakened(s.pcs[t])
  }

  lemma HolderStep(s: State, u: Tid) returns (e: Step)
    requires Inv(s) && u in s.pcs && s.lock == Some(u)
    ensures Enabled(s, e) && Undisturbed(s, u, Do(s, e))
    ensures if Do(s, e).lock == None then Do(s, e).pcs[u].Idle? || Do(s, e).pcs[u].JoinAsleep?
            else Do(s, e).lock == Some(u) && Left(Do(s, e).pcs[u]) < Left(s.pcs[u])
  {
    e := InsideStep(s, u);
    if e.Decrement? { DroppedIsLive(s, u); }
  }

  /** The holder of the lock gives it up. */
  lemma {:induction false} FreeLock(s: State, u: Tid) returns (steps: seq<Step>, s': State)
    requires Inv(s) && u in s.pcs && s.lock == Some(u)
    ensures Leads(s, steps, s') && Inv(s') && s'.lock == None && Undisturbed(s, u, s')
    ensures s'.pcs[u].Idle? || s'.pcs[u].JoinAsleep?
    decreases Left(s.pcs[u])
  {
    var e := HolderStep(s, u);
    hide Do, Enabled, Inv, Left;
    StepInv(s, e);
    var mid := Do(s, e);
    Stop(mid);
    if mid.lock == None {
      steps, s' := [e], mid;
      Then(s, e, [], mid);
    } else {
      var more;
      more, s' := FreeLock(mid, u);
      Then(s, e, more, s');
      steps := [e] + more;
    }
  }

  lemma Stop(s: State)
    ensures Leads(s, [], s)
  {}

  /** No joiner sleeps when there is no substitute and nobody holds the lock. */
  lemma NoneAsleep(s: State, t: Tid)
    requires Inv(s) && s.lock == None && s.live == {} && t in s.pcs
    ensures !s.pcs[t].JoinAsleep?
  {
    assert JoinOk(s, s.pcs[t]);
  }

  /** What a thread that has just taken the lock goes on to: with no substitute left a join finishes. */
  lemma OwnStep(s: State, t: Tid) returns (e: Step)
    requires t in s.pcs && Inside(s.pcs[t]) && s.lock == Some(t)
    requires Joining(s.pcs[t]) ==> s.live == {} && s.count == 0
    ensures Enabled(s, e) && t in Do(s, e).pcs
    ensures if Do(s, e).lock == None then Do(s, e).pcs[t].Idle?
            else && Do(s, e).lock == Some(t) && Left(Do(s, e).pcs[t]) < Left(s.pcs[t])
                 && (Joining(Do(s, e).pcs[t]) ==> Do(s, e).live == {})
  {
    match s.pcs[t] {
      case JoinTesting => e := TestCount(t);
      case JoinPredicate(_) => e := TestPredicate(t);
      case DropNotifying => e := NotifyAll(t);
      case DropInside(_) => e := Decrement(t);
      case WrapInside =>
        var n := Fresh(s.live);
        e := Wrap(t, n);
      case _ => e := Release(t);
    }
  }

  lemma {:induction false} RunInside(s: State, t: Tid) returns (steps: seq<Step>, s': State)
    requires Inv(s) && t in s.pcs && s.lock == Some(t) && (Joining(s.pcs[t]) ==> s.live == {})
    ensures Leads(s, steps, s') && t in s'.pcs && s'.pcs[t].Idle?
    decreases Left(s.pcs[t])
  {
    assert Inside(s.pcs[t]) && (s.live == {} ==> s.count == 0);
    var e := OwnStep(s, t);
    hide Do, Enabled, Inv, Left, Joining;
    StepInv(s, e);
    var mid := Do(s, e);
    Stop(mid);
    if mid.lock == None {
      steps, s' := [e], mid;
      Then(s, e, [], mid);
    } else {
      var more;
      more, s' := RunInside(mid, t);
      Then(s, e, more, s');
      steps := [e] + more;
    }
  }

  lemma EnterStep(s: State, t: Tid)
    requires Inv(s) && t in s.pcs && s.lock == None && Entering(s.pcs[t]) && (InJoin(s.pcs[t]) ==> s.live == {})
    ensures Enabled(s, Acquire(t)) && Do(s, Acquire(t)).lock == Some(t) && t in Do(s, Acquire(t)).pcs
    ensures Joining(Do(s, Acquire(t)).pcs[t]) ==> Do(s, Acquire(t)).live == {}
  {}

  lemma RunFree(s: State, t: Tid) returns (steps: seq<Step>, s': State)
    requires Inv(s) && t in s.pcs && s.lock == None && Entering(s.pcs[t]) && (InJoin(s.pcs[t]) ==> s.live == {})
    ensures Leads(s, steps, s') && t in s'.pcs && s'.pcs[t].Idle?
  {
    EnterStep(s, t);
    hide Do, Enabled, Inv;
    StepInv(s, Acquire(t));
    var more;
    more, s' := RunInside(Do(s, Acquire(t)), t);
    Then(s, Acquire(t), more, s');
    steps := [Acquire(t)] + more;
  }

  /** Progress: from every state every call can come to its end, except a join while there are substitutes (or may be
      one, made by a thread that is inside wrap before the join has begun). */
  lemma CallCanReturn(s: State, t: Tid) returns (steps: seq<Step>, s': State)
    requires Inv(s) && t in s.pcs && (InJoin(s.pcs[t]) ==> s.live == {} && (s.joining || s.lock == None))
    ensures Leads(s, steps, s') && t in s'.pcs && s'.pcs[t].Idle?
  {
    hide Do, Enabled, Inv, Leads;
    if s.pcs[t].Idle? {
      Stop(s);
      steps, s' := [], s;
    } else if s.lock == Some(t) {
      steps, s' := RunInside(s, t);
    } else {
      NotInside(s, t);
      var first, mid := [], s;
      Stop(s);
      if s.lock != None {
        first, mid := FreeLock(s, s.lock.value);
      }
      if InJoin(s.pcs[t]) { NoneAsleep(mid, t); }
      var more;
      more, s' := RunFree(mid, t);
      LeadsOn(s, first, mid, more, s');
      steps := first + more;
    }
  }

  lemma NotInside(s: State, t: Tid)
    requires Inv(s) && t in s.pcs && s.lock != Some(t)
    ensures !Inside(s.pcs[t]) && (s.lock != None ==> s.lock.value in s.pcs)
  {}

  /** A joiner never sleeps at count zero unless the thread holding the lock is about to wake
      all sleepers, and that step does wake this one. */
  lemma NoLostWakeUp(states: seq<State>, steps: seq<Step>, i: nat, t: Tid)
    requires IsRun(states, steps) && i < |states|
    requires t in states[i].pcs && states[i].pcs[t].JoinAsleep? && states[i].count == 0
    ensures exists u ::
              && Enabled(states[i], NotifyAll(u))
              && Do(states[i], NotifyAll(u)).pcs[t] == JoinWaking(states[i].pcs[t].expired)
  {
    RunInv(states, steps, i);
    var s := states[i];
    assert JoinOk(s, s.pcs[t]);
    var u := s.lock.value;
    assert Enabled(s, NotifyAll(u));
  }

  /** The only way for every thread in the middle of an operation to be blocked is that all of
      them are joiners asleep while substitutes still exist. */
  lemma NeverStuck(s: State, t: Tid) returns (e: Step)
    requires Inv(s) && t in s.pcs && !s.pcs[t].Idle?
    requires !(s.pcs[t].JoinAsleep? && s.live != {})
    ensures Enabled(s, e) && !e.BeginWrap? && !e.BeginDrop? && !e.BeginJoin? && !e.Duplicate? && !e.WakeUp?
  {
    assert JoinOk(s, s.pcs[t]);
    if s.lock.Some? {
      e := InsideStep(s, s.lock.value);
    } else if Entering(s.pcs[t]) {
      e := Acquire(t);
    } else {
      assert false;
    }
  }

  lemma {:induction false} Fresh(subs: set<Sub>) returns (n: Sub)
    ensures forall m | m in subs :: m < n
    decreases subs
  {
    n := 0;
    if subs != {} {
      var m :| m in subs;
      var k := Fresh(subs - {m});
      n := if k <= m then m + 1 else k;
      assert forall i | i in subs :: i == m || i in subs - {m};
    }
  }

  lemma InsideStep(s: State, u: Tid) returns (e: Step)
    requires u in s.pcs && Inside(s.pcs[u])
    ensures e.t == u && Enabled(s, e) && !e.BeginWrap? && !e.BeginDrop? && !e.BeginJoin? && !e.Duplicate? && !e.WakeUp?
  {
    match s.pcs[u] {
      case WrapInside =>
        var n := Fresh(s.live);
        e := Wrap(u, n);
      case DropInside(_) => e := Decrement(u);
      case DropNotifying => e := NotifyAll(u);
      case JoinTesting => e := TestCount(u);
      case JoinPredicate(_) => e := TestPredicate(u);
      case _ => e := Release(u);
    }
  }
}
