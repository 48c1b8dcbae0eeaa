/** What the packed protocol implements: an object with two sets of handles and a life cycle,
    whose operations each happen at one moment. */
module RefCountsSpec {
  import opened RefCountWord
  import opened RefCounts
  import opened RefCountsInvariant

  datatype Phase =
    | Alive              // there are strong handles
    | Closing            // the last strong handle is gone; the partial destructor is running
    | Closed(ran: bool)  // no strong handle; the partial destructor has run, or never will
    | Doomed             // Destroy was returned to one caller
    | Gone               // the destructor has run

  datatype Object = Object(strong: set<Handle>, weak: set<Handle>, phase: Phase)

  datatype Event =
    | AddedStrong(h': Handle)
    | AddedWeak(h': Handle)
    | DroppedStrong(h: Handle, action: StrongAction)
    | Converted(h: Handle, h': Handle, action: StrongAction)
    | DroppedWeak(h: Handle)
    | CheckedOut(h': Handle)
    | CheckoutFailed
    | PartialFinished
    | WeakReturnedDestroy
    | Destructed

  predicate May(o: Object, e: Event) {
    match e
    case AddedStrong(h') => o.strong != {} && h' !in o.strong
    case AddedWeak(h') => (o.strong != {} || o.weak != {}) && h' !in o.weak
    case DroppedStrong(h, action) =>
      && h in o.strong
      && action == (if o.strong != {h} then NoOp else if o.weak == {} then Destroy else PartialDestroy)
    case Converted(h, h', action) =>
      && h in o.strong && h' !in o.weak
      && action == (if o.strong == {h} && o.weak != {} then PartialDestroy else NoOp)
    case DroppedWeak(h) => h in o.weak
    case CheckedOut(h') => o.strong != {} && o.weak != {} && h' !in o.strong
    case CheckoutFailed => o.strong == {} && o.weak != {}
    case PartialFinished => o.phase == Closing
    case WeakReturnedDestroy => o.strong == {} && o.weak == {} && o.phase.Closed?
    case Destructed => o.phase == Doomed
  }

  function After(o: Object, e: Event): Object {
    match e
    case AddedStrong(h') => o.(strong := o.strong + {h'})
    case AddedWeak(h') => o.(weak := o.weak + {h'})
    case DroppedStrong(h, action) =>
      o.(strong := o.strong - {h},
         phase := match action case NoOp => o.phase case PartialDestroy => Closing case Destroy => Doomed)
    case Converted(h, h', action) =>
      o.(strong := o.strong - {h}, weak := o.weak + {h'},
         phase := if action == PartialDestroy then Closing else if o.strong == {h} then Closed(false) else o.phase)
    case DroppedWeak(h) => o.(weak := o.weak - {h})
    case CheckedOut(h') => o.(strong := o.strong + {h'})
    case CheckoutFailed => o
    case PartialFinished => o.(phase := Closed(true))
    case WeakReturnedDestroy => o.(phase := Doomed)
    case Destructed => o.(phase := Gone)
  }

  /** The object a state of the packed protocol stands for. */
  function Abstract(s: State): Object {
    Object(s.strong, s.weak,
           if s.dead then Gone
           else if s.destroys > 0 then Doomed
           else if s.strong != {} then Alive
           else if View(s.word).started && !View(s.word).finished then Closing
           else Closed(View(s.word).started))
  }

  lemma KeepsThread(s: State, e: Step)
    requires e.t in s.pcs
    ensures e.t in Do(s, e).pcs
  {}

  /** The events that a step makes visible, with the actions the code computed. A weak release
      returns Destroy in the step that subtracts, or later when its wait is over. */
  function EventsOf(s: State, e: Step): seq<Event>
    requires e.t in s.pcs
  {
    OperationOf(s, e) + if !e.CasRelease? && Do(s, e).destroys > s.destroys then [WeakReturnedDestroy] else []
  }

  function OperationOf(s: State, e: Step): seq<Event>
    requires e.t in s.pcs
  {
    KeepsThread(s, e);
    var pc := s.pcs[e.t];
    match e
    case AddStrong(_, _, h') => [AddedStrong(h')]
    case AddWeak(_, _, h') => [AddedWeak(h')]
    case CasRelease(_, spurious) =>
      if pc.Releasing? && s.word == pc.prev && !spurious
      then [DroppedStrong(pc.h, ReleaseStrong(pc.prev).1)] else []
    case CasConvert(_, h', spurious) =>
      if pc.Converting? && s.word == pc.prev && !spurious
      then [Converted(pc.h, h', ConvertStrong(pc.prev).1)] else []
    case SubtractWeak(_, h) => [DroppedWeak(h)]
    case CasCheckout(_, h', _) =>
      // by what the thread leaves with
      if h' in Do(s, e).strong then [CheckedOut(h')]
      else if !Do(s, e).pcs[e.t].CheckingOut? then [CheckoutFailed] else []
    case FinishPartial(_, _) => [PartialFinished]
    case Destruct(_) => [Destructed]
    case _ => []
  }

  /** The events can happen in this order and lead from o to o'. */
  ghost predicate Replays(o: Object, evs: seq<Event>, o': Object)
    decreases |evs|
  {
    if evs == [] then o' == o
    else May(o, evs[0]) && Replays(After(o, evs[0]), evs[1..], o')
  }

  ghost predicate Refines(s: State, e: Step)
    requires e.t in s.pcs
  {
    Replays(Abstract(s), EventsOf(s, e), Abstract(Do(s, e)))
  }

  lemma SingleHandle(hs: set<Handle>, h: Handle)
    requires h in hs
    ensures |hs| == 1 <==> hs == {h}
  {
    if |hs| == 1 {
      assert |hs - {h}| == 0;
    }
  }

  lemma CasReleaseRefines(s: State, e: Step)
    requires Inv(s) && e.CasRelease? && Enabled(s, e)
    ensures Refines(s, e)
  {
    ReleaseStrongFields(s.pcs[e.t].prev);
    SingleHandle(s.strong, s.pcs[e.t].h);
  }

  lemma CasConvertRefines(s: State, e: Step)
    requires Inv(s) && e.CasConvert? && Enabled(s, e)
    ensures Refines(s, e)
  {
    ConvertStrongFields(s.pcs[e.t].prev);
    SingleHandle(s.strong, s.pcs[e.t].h);
  }

  lemma CasCheckoutRefines(s: State, e: Step)
    requires Inv(s) && e.CasCheckout? && Enabled(s, e)
    ensures Refines(s, e)
  {
    ReadFields(s.word);
    AddStrongField(s.word);
  }

  lemma SubtractWeakRefines(s: State, e: Step)
    requires Inv(s) && e.SubtractWeak? && Enabled(s, e)
    ensures Refines(s, e)
  {
    ReadFields(s.word);
    SubtractWeakField(s.word);
    SingleHandle(s.weak, e.h);
    if Do(s, e).destroys > s.destroys {
      assert EventsOf(s, e)[1..] == [WeakReturnedDestroy];
    }
  }

  lemma WaitRefines(s: State, e: Step)
    requires Inv(s) && (e.WaitStart? || e.WaitFinish? || e.Wake? || e.Reload? || e.Notify?) && Enabled(s, e)
    ensures Refines(s, e)
  {
    ReadFields(s.word);
  }

  lemma AddRefines(s: State, e: Step)
    requires Inv(s) && (e.AddStrong? || e.AddWeak?) && Enabled(s, e)
    ensures Refines(s, e)
  {
    if e.AddStrong? { AddStrongField(s.word); } else { AddWeakField(s.word); }
  }

  lemma BeginRefines(s: State, e: Step)
    requires Inv(s) && (e.LoadRelease? || e.LoadConvert? || e.BeginCheckout?) && Enabled(s, e)
    ensures Refines(s, e)
  {}

  lemma TeardownRefines(s: State, e: Step)
    requires Inv(s) && (e.FinishPartial? || e.Destruct?) && Enabled(s, e)
    ensures Refines(s, e)
  {}

  /** Every step of the packed protocol is a sequence of events of the object. */
  lemma StepRefines(s: State, e: Step)
    requires Inv(s) && Enabled(s, e)
    ensures Refines(s, e)
  {
    match e
    case AddStrong(_, _, _) => AddRefines(s, e);
    case AddWeak(_, _, _) => AddRefines(s, e);
    case LoadRelease(_, _) => BeginRefines(s, e);
    case CasRelease(_, _) => CasReleaseRefines(s, e);
    case LoadConvert(_, _) => BeginRefines(s, e);
    case CasConvert(_, _, _) => CasConvertRefines(s, e);
    case SubtractWeak(_, _) => SubtractWeakRefines(s, e);
    case WaitStart(_) => WaitRefines(s, e);
    case Reload(_) => WaitRefines(s, e);
    case WaitFinish(_) => WaitRefines(s, e);
    case Wake(_) => WaitRefines(s, e);
    case BeginCheckout(_, _) => BeginRefines(s, e);
    case CasCheckout(_, _, _) => CasCheckoutRefines(s, e);
    case FinishPartial(_, _) => TeardownRefines(s, e);
    case Notify(_, _) => WaitRefines(s, e);
    case Destruct(_) => TeardownRefines(s, e);
  }

  /** On the word, addWeakReleaseStrongRef computes what addWeakRef followed by releaseStrongRef computes, the
      returned action included, unless it converts the only handle there is. */
  lemma ConvertIsAddThenRelease(v: Word)
    requires View(v).strong >= 1 && View(v).weak < MAX_WEAK
    ensures ConvertStrong(v) == ReleaseStrong(Plus(v, WEAK_DELTA)) <==> !(View(v).strong == 1 && View(v).weak == 0)
  {
    AddWeakField(v);
    ConvertStrongFields(v);
    ReleaseStrongFields(Plus(v, WEAK_DELTA));
    EncodeView(ConvertStrong(v).0);
    EncodeView(ReleaseStrong(Plus(v, WEAK_DELTA)).0);
  }
}
