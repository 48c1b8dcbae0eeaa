/** The invariant of the reference-count protocol, kept by every step. */
module RefCountsInvariant {
  import opened RefCountWord
  import opened RefCounts
  import opened Wrappers

  /** The word counts the live handles, under the checked limits. */
  ghost predicate Counts(s: State) {
    && View(s.word).strong == |s.strong| < CHECK_STRONG
    && View(s.word).weak == |s.weak| < CHECK_WEAK
    && s.lost <= s.weak
  }

  /** "Started" is set only when the last strong handle went away, "finished" only after it,
      and PartialDestroy was returned once for it. */
  ghost predicate Tags(s: State) {
    && (View(s.word).started ==> s.strong == {})
    && (View(s.word).finished ==> View(s.word).started)
    && s.partials == (if View(s.word).started then 1 else 0)
    && (s.lost != {} ==> View(s.word).finished)
  }

  /** A value loaded by a compare-exchange loop came from a time with a strong handle. */
  ghost predicate Sampled(v: Word) {
    && 1 <= View(v).strong < CHECK_STRONG && View(v).weak < CHECK_WEAK
    && !View(v).started && !View(v).finished
  }

  ghost predicate LoopOk(s: State, pc: Pc) {
    match pc
    case Releasing(h, prev) => h in s.strong && Sampled(prev)
    case Converting(h, prev) => h in s.strong && Sampled(prev)
    case CheckingOut(h, cur, desired) => h in s.weak && Sampled(cur) && desired == Plus(cur, STRONG_DELTA)
    case RunningPartial(kept) => kept.Some? ==> kept.value in s.weak - s.lost
    case _ => true
  }

  ghost predicate Loops(s: State) {
    forall t | t in s.pcs :: LoopOk(s, s.pcs[t])
  }

  /** No two operations consume the same strong handle. */
  ghost predicate Exclusive(s: State) {
    forall t, u, h | t in s.pcs && u in s.pcs && HoldsStrong(s.pcs[t], h) && HoldsStrong(s.pcs[u], h) :: t == u
  }

  predicate InRelease(pc: Pc) {
    pc.AwaitingStart? || pc.Reloading? || pc.AwaitingFinish? || Asleep(pc) || pc.Destroying?
  }

  /** Each singular role is played by exactly the recorded thread. */
  ghost predicate Roles(s: State) {
    forall t | t in s.pcs ::
      && (s.pcs[t].RunningPartial? <==> s.finisher == Some(t))
      && (s.pcs[t].Notifying? <==> s.notifier == Some(t))
      && (InRelease(s.pcs[t]) <==> s.destroyer == Some(t))
  }

  ghost predicate RolesExist(s: State) {
    && (s.finisher.Some? ==> s.finisher.value in s.pcs)
    && (s.notifier.Some? ==> s.notifier.value in s.pcs)
    && (s.destroyer.Some? ==> s.destroyer.value in s.pcs)
  }

  /** The partial destructor is running exactly between the two tags; the object is waiting
      for its destroyer exactly when the last handle is gone and it is not dead. */
  ghost predicate RolesMeaning(s: State) {
    && (s.finisher.Some? <==> View(s.word).started && !View(s.word).finished)
    && (s.notifier.Some? ==> View(s.word).finished && s.weak == {})
    && (s.destroyer.Some? <==> s.strong == {} && s.weak == {} && !s.dead)
    && (s.dead ==> s.strong == {} && s.weak == {} && View(s.word).started == View(s.word).finished)
  }

  /** What the thread holding the last release knows. */
  ghost predicate ReleaseOk(s: State, pc: Pc) {
    var f := View(s.word);
    match pc
    case AwaitingStart(prev) => !f.started && prev != s.word
    case Reloading => !f.started
    case AwaitingFinish(v) => if !f.started then v != s.word else f.finished <==> v != s.word
    case AsleepStart(v) => false
    case AsleepFinish(v) => f.started && if f.finished then v != s.word && s.notifier.Some? else v == s.word
    case Destroying => f.started == f.finished
    case _ => true
  }

  predicate AtDestructor(s: State) {
    s.destroyer.Some? && s.destroyer.value in s.pcs && s.pcs[s.destroyer.value].Destroying?
  }

  ghost predicate Releases(s: State) {
    && (forall t | t in s.pcs :: ReleaseOk(s, s.pcs[t]))
    && s.destroys == (if s.dead || AtDestructor(s) then 1 else 0)
  }

  /** The part about handles and loops in progress, and the part about the teardown. */
  ghost predicate HandleInv(s: State) {
    Counts(s) && Tags(s) && Loops(s) && Exclusive(s)
  }

  ghost predicate RoleInv(s: State) {
    Roles(s) && RolesExist(s) && RolesMeaning(s) && Releases(s)
  }

  ghost predicate Inv(s: State) {
    HandleInv(s) && RoleInv(s)
  }

  // ---- The operations on the word, field by field ----

  lemma ReadFields(v: Word)
    ensures Unpack(v).strong == View(v).strong && Unpack(v).weak == View(v).weak
    ensures Unpack(v).started == 0 <==> !View(v).started
    ensures Unpack(v).finished == 0 <==> !View(v).finished
  {
    UnpackReadsFields(v);
  }

  lemma WeakDeltaMoves(v: Word)
    ensures Minus(v, WEAK_DELTA) != v
  {}

  lemma ReleaseStrongFields(v: Word)
    requires View(v).strong >= 1
    ensures var (next, action) := ReleaseStrong(v); var f := View(v);
            && View(next).strong == f.strong - 1 && View(next).weak == f.weak
            && View(next).finished == f.finished
            && View(next).started == (f.started || (f.strong == 1 && f.weak > 0))
            && action == (if f.strong > 1 then NoOp else if f.weak == 0 then Destroy else PartialDestroy)
  {
    ReadFields(v);
    SubtractStrongField(v);
  }

  lemma ConvertStrongFields(v: Word)
    requires View(v).strong >= 1 && View(v).weak < MAX_WEAK
    ensures var (next, action) := ConvertStrong(v); var f := View(v);
            && View(next).strong == f.strong - 1 && View(next).weak == f.weak + 1
            && View(next).finished == f.finished
            && View(next).started == (f.started || (f.strong == 1 && f.weak > 0))
            && action == (if f.strong == 1 && f.weak > 0 then PartialDestroy else NoOp)
  {
    ReadFields(v);
    ConvertMovesOneUnit(v);
  }

  // ---- Every step keeps the invariant ----

  lemma InitInv(s: State)
    requires Init(s)
    ensures Inv(s)
  {}

  lemma AddStrongInv(s: State, e: Step)
    requires Inv(s) && e.AddStrong? && Enabled(s, e)
    ensures Inv(Do(s, e))
  {
    AddStrongField(s.word);
  }

  lemma AddWeakInv(s: State, e: Step)
    requires Inv(s) && e.AddWeak? && Enabled(s, e)
    ensures Inv(Do(s, e))
  {
    AddWeakField(s.word);
  }

  lemma SampleWord(s: State)
    requires Counts(s) && Tags(s) && s.strong != {}
    ensures Sampled(s.word)
  {}

  lemma LoadInv(s: State, e: Step)
    requires Inv(s) && (e.LoadRelease? || e.LoadConvert?) && Enabled(s, e)
    ensures Inv(Do(s, e))
  {
    SampleWord(s);
  }

  /** The first guess of checkoutStrongRefFromWeak, (1, 1) to (2, 1), is an increment. */
  lemma FirstGuess()
    ensures Plain(2, 1) == Plus(Plain(1, 1), STRONG_DELTA)
  {
    AddStrongField(Plain(1, 1));
    EncodeView(Plain(2, 1));
    EncodeView(Plus(Plain(1, 1), STRONG_DELTA));
  }

  lemma BeginCheckoutInv(s: State, e: Step)
    requires Inv(s) && e.BeginCheckout? && Enabled(s, e)
    ensures Inv(Do(s, e))
  {
    FirstGuess();
    assert Sampled(Plain(1, 1));
  }

  /** Consuming one handle leaves every other loop's handle in place. */
  lemma OthersKeepHandles(s: State, t: Tid, h: Handle)
    requires Loops(s) && Exclusive(s) && t in s.pcs && HoldsStrong(s.pcs[t], h)
    ensures forall u | u in s.pcs && u != t && (s.pcs[u].Releasing? || s.pcs[u].Converting?) ::
              s.pcs[u].h in s.strong - {h}
  {
    forall u | u in s.pcs && u != t && (s.pcs[u].Releasing? || s.pcs[u].Converting?)
      ensures s.pcs[u].h in s.strong - {h}
    {
      assert LoopOk(s, s.pcs[u]);
      assert HoldsStrong(s.pcs[u], s.pcs[u].h);
    }
  }

  lemma CasReleaseRetryInv(s: State, e: Step)
    requires Inv(s) && e.CasRelease? && Enabled(s, e) && (s.word != s.pcs[e.t].prev || e.spurious)
    ensures Inv(Do(s, e))
  {
    SampleWord(s);
  }

  lemma CasReleaseDoneHandles(s: State, e: Step)
    requires Inv(s) && e.CasRelease? && Enabled(s, e) && s.word == s.pcs[e.t].prev && !e.spurious
    ensures HandleInv(Do(s, e))
  {
    ReleaseStrongFields(s.word);
    OthersKeepHandles(s, e.t, s.pcs[e.t].h);
  }

  lemma CasReleaseDoneRoles(s: State, e: Step)
    requires Inv(s) && e.CasRelease? && Enabled(s, e) && s.word == s.pcs[e.t].prev && !e.spurious
    ensures RoleInv(Do(s, e))
  {
    ReleaseStrongFields(s.word);
    OthersKeepHandles(s, e.t, s.pcs[e.t].h);
  }

  lemma CasConvertRetryInv(s: State, e: Step)
    requires Inv(s) && e.CasConvert? && Enabled(s, e) && (s.word != s.pcs[e.t].prev || e.spurious)
    ensures Inv(Do(s, e))
  {
    SampleWord(s);
  }

  lemma CasConvertDoneHandles(s: State, e: Step)
    requires Inv(s) && e.CasConvert? && Enabled(s, e) && s.word == s.pcs[e.t].prev && !e.spurious
    ensures HandleInv(Do(s, e))
  {
    ConvertStrongFields(s.word);
    OthersKeepHandles(s, e.t, s.pcs[e.t].h);
  }

  lemma CasConvertDoneRoles(s: State, e: Step)
    requires Inv(s) && e.CasConvert? && Enabled(s, e) && s.word == s.pcs[e.t].prev && !e.spurious
    ensures RoleInv(Do(s, e))
  {
    ConvertStrongFields(s.word);
    OthersKeepHandles(s, e.t, s.pcs[e.t].h);
  }

  lemma CasCheckoutHandles(s: State, e: Step)
    requires Inv(s) && e.CasCheckout? && Enabled(s, e)
    ensures HandleInv(Do(s, e))
  {
    ReadFields(s.word);
    AddStrongField(s.word);
    if s.strong != {} { SampleWord(s); }
  }

  lemma CasCheckoutRoles(s: State, e: Step)
    requires Inv(s) && e.CasCheckout? && Enabled(s, e)
    ensures RoleInv(Do(s, e))
  {
    ReadFields(s.word);
    AddStrongField(s.word);
    if s.strong != {} { SampleWord(s); }
  }

  lemma SubtractWeakHandles(s: State, e: Step)
    requires Inv(s) && e.SubtractWeak? && Enabled(s, e)
    ensures HandleInv(Do(s, e))
  {
    ReadFields(s.word);
    SubtractWeakField(s.word);
    WeakDeltaMoves(s.word);
  }

  lemma SubtractWeakRoles(s: State, e: Step)
    requires Inv(s) && e.SubtractWeak? && Enabled(s, e)
    ensures RoleInv(Do(s, e))
  {
    ReadFields(s.word);
    SubtractWeakField(s.word);
    WeakDeltaMoves(s.word);
  }

  lemma WaitInv(s: State, e: Step)
    requires Inv(s) && (e.WaitStart? || e.WaitFinish?) && Enabled(s, e)
    ensures Inv(Do(s, e))
  {
  }

  lemma WakeInv(s: State, e: Step)
    requires Inv(s) && (e.Wake? || e.Reload?) && Enabled(s, e)
    ensures Inv(Do(s, e))
  {
    ReadFields(s.word);
    WeakDeltaMoves(s.word);
  }

  lemma FinishPartialHandles(s: State, e: Step)
    requires Inv(s) && e.FinishPartial? && Enabled(s, e)
    ensures HandleInv(Do(s, e))
  {
    ReadFields(s.word);
  }

  lemma FinishPartialRoles(s: State, e: Step)
    requires Inv(s) && e.FinishPartial? && Enabled(s, e)
    ensures RoleInv(Do(s, e))
  {
    ReadFields(s.word);
  }

  lemma NotifyHandles(s: State, e: Step)
    requires Inv(s) && e.Notify? && Enabled(s, e)
    ensures HandleInv(Do(s, e))
  {
  }

  lemma NotifyRoles(s: State, e: Step)
    requires Inv(s) && e.Notify? && Enabled(s, e)
    ensures RoleInv(Do(s, e))
  {
  }

  lemma DestructInv(s: State, e: Step)
    requires Inv(s) && e.Destruct? && Enabled(s, e)
    ensures Inv(Do(s, e))
  {}
}
