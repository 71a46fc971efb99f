/** The on-demand screenshot of packages/ui/src/bug-report-capture.ts: callers join a
    capture in flight, and clearing or disabling invalidates it by a generation
    counter.  Completions arrive late and in any order. */
module ScreenshotCapture {
  import opened Options

  /** Names one html2canvas pass. */
  type CaptureId = nat

  /** A stored screenshot, and which capture took it. */
  datatype Shot = Shot(data: string, source: CaptureId)

  /** `generations` remembers, for every capture ever begun, the generation its
      closure recorded; `inFlight` are those not yet settled. */
  datatype State = State(
    enabled: bool, shot: Option<Shot>, promise: Option<CaptureId>, generation: nat,
    generations: seq<nat>, inFlight: set<CaptureId>)

  datatype Event =
    | Call
    | Complete(id: CaptureId, data: string)
    | Fail(id: CaptureId)
    | Clear
    | Disable
    | Enable

  /** What a caller of `captureScreenshot` is given: an answer, or a promise; and
      what a settling capture resolves its promise with. */
  datatype Answer = Immediately(shot: Option<string>) | Joined(id: CaptureId) | Settled(shot: Option<string>) | NoAnswer

  function DataOf(shot: Option<Shot>): Option<string> {
    if shot.None? then None else Some(shot.value.data)
  }

  /** The cached screenshot counts when it is neither `null` nor the empty string. */
  predicate IsCached(shot: Option<Shot>) {
    shot.Some? && shot.value.data != ""
  }

  function Invalidated(s: State): State {
    s.(shot := None, promise := None, generation := s.generation + 1)
  }

  /** Only an unsettled capture can settle. */
  predicate CanHappen(s: State, e: Event) {
    (e.Complete? || e.Fail? ==> e.id in s.inFlight)
  }

  function Step(s: State, e: Event): (State, Answer) {
    match e
    case Call =>
      if !s.enabled then (s, Immediately(None))
      else if s.promise.Some? then (s, Joined(s.promise.value))
      else if IsCached(s.shot) then (s, Immediately(DataOf(s.shot)))
      else
        var id := |s.generations|;
        (s.(promise := Some(id), generations := s.generations + [s.generation], inFlight := s.inFlight + {id}), Joined(id))
    case Complete(id, data) =>
      var current := id < |s.generations| && s.generations[id] == s.generation;
      (Finally(if current then s.(shot := Some(Shot(data, id))) else s, id), Settled(if current then Some(data) else None))
    case Fail(id) =>
      var current := id < |s.generations| && s.generations[id] == s.generation;
      (Finally(s, id), Settled(if current then DataOf(s.shot) else None))
    case Clear => (Invalidated(s), NoAnswer)
    case Disable => (Invalidated(s).(enabled := false), NoAnswer)
    case Enable => (s.(enabled := true), NoAnswer)
  }

  /** The `finally` block of a capture. */
  function Finally(s: State, id: CaptureId): State {
    s.(promise := if s.promise == Some(id) then None else s.promise, inFlight := s.inFlight - {id})
  }

  /** The hook's refs, as the callbacks see them. */
  class Hook {
    var enabled: bool
    var screenshotRef: Option<string>
    var capturePromiseRef: Option<CaptureId>
    var captureGenerationRef: nat
    var closures: seq<nat>
    ghost var shotId: CaptureId
    ghost var inFlight: set<CaptureId>

    ghost function View(): State
      reads this
    {
      State(enabled, if screenshotRef.None? then None else Some(Shot(screenshotRef.value, shotId)),
            capturePromiseRef, captureGenerationRef, closures, inFlight)
    }

    constructor (on: bool)
      ensures View() == Start(on)
    {
      enabled, screenshotRef, capturePromiseRef, captureGenerationRef := on, None, None, 0;
      closures, shotId, inFlight := [], 0, {};
    }

    method CaptureScreenshot() returns (answer: Answer)
      modifies this
      ensures (View(), answer) == Step(old(View()), Call)
      ensures enabled == old(enabled) && screenshotRef == old(screenshotRef)
      ensures captureGenerationRef == old(captureGenerationRef)
      ensures !enabled ==> answer == Immediately(None)
      ensures enabled && old(capturePromiseRef).Some? ==> answer == Joined(old(capturePromiseRef).value)
      ensures enabled && old(capturePromiseRef).None? && screenshotRef !in {None, Some("")} ==>
                answer == Immediately(screenshotRef)
      ensures enabled && old(capturePromiseRef).None? && screenshotRef in {None, Some("")} ==>
                && answer == Joined(|old(closures)|) && capturePromiseRef == Some(|old(closures)|)
                && closures == old(closures) + [captureGenerationRef]
      ensures !enabled || old(capturePromiseRef).Some? || screenshotRef !in {None, Some("")} ==>
                capturePromiseRef == old(capturePromiseRef) && closures == old(closures)
    {
      if !enabled { return Immediately(None); }
      if capturePromiseRef.Some? { return Joined(capturePromiseRef.value); }
      if screenshotRef.Some? && screenshotRef.value != "" { return Immediately(screenshotRef); }
      var generation := captureGenerationRef;
      var promise := |closures|;
      closures := closures + [generation];
      inFlight := inFlight + {promise};
      capturePromiseRef := Some(promise);
      return Joined(promise);
    }

    /** What runs once `html2canvas` has answered: with a canvas, or by throwing. */
    method Settle(id: CaptureId, canvas: Option<string>) returns (answer: Answer)
      requires id < |closures| && CanHappen(View(), if canvas.Some? then Complete(id, canvas.value) else Fail(id))
      modifies this
      ensures (View(), answer) == Step(old(View()), if canvas.Some? then Complete(id, canvas.value) else Fail(id))
      ensures enabled == old(enabled) && closures == old(closures) && captureGenerationRef == old(captureGenerationRef)
      ensures var current := captureGenerationRef == closures[id];
              && screenshotRef == (if current && canvas.Some? then canvas else old(screenshotRef))
              && answer == Settled(if current then screenshotRef else None)
      ensures capturePromiseRef == if old(capturePromiseRef) == Some(id) then None else old(capturePromiseRef)
    {
      var generation := closures[id];
      if canvas.Some? {
        if captureGenerationRef != generation { answer := Settled(None); }
        else {
          screenshotRef, shotId := canvas, id;
          answer := Settled(screenshotRef);
        }
      } else {
        answer := Settled(if captureGenerationRef == generation then screenshotRef else None);
      }
      if capturePromiseRef == Some(id) { capturePromiseRef := None; }
      inFlight := inFlight - {id};
    }

    method ClearScreenshot()
      modifies this
      ensures View() == Step(old(View()), Clear).0
      ensures screenshotRef == None && capturePromiseRef == None && captureGenerationRef == old(captureGenerationRef) + 1
      ensures enabled == old(enabled) && closures == old(closures)
    {
      captureGenerationRef := captureGenerationRef + 1;
      capturePromiseRef := None;
      screenshotRef := None;
    }

    /** The effect on `enabled`, as far as screenshots go. */
    method SetEnabled(on: bool)
      modifies this
      ensures View() == Step(old(View()), if on then Enable else Disable).0
      ensures enabled == on && closures == old(closures)
      ensures on ==> unchanged(this`screenshotRef) && unchanged(this`capturePromiseRef) && unchanged(this`captureGenerationRef)
      ensures !on ==>
                && screenshotRef == None && capturePromiseRef == None
                && captureGenerationRef == old(captureGenerationRef) + 1
    {
      enabled := on;
      if !on {
        screenshotRef := None;
        captureGenerationRef := captureGenerationRef + 1;
        capturePromiseRef := None;
      }
    }
  }

  function Start(on: bool): State {
    State(on, None, None, 0, [], {})
  }

  ghost predicate IsCurrent(s: State, id: CaptureId) {
    id < |s.generations| && s.generations[id] == s.generation
  }

  /** A stored screenshot is of the current generation, and the promise is exactly
      the one capture of the current generation in flight, if there is one. */
  ghost predicate Valid(s: State) {
    && (forall id :: 0 <= id < |s.generations| ==> s.generations[id] <= s.generation)
    && (forall id :: id in s.inFlight ==> id < |s.generations|)
    && (s.shot.Some? ==> IsCurrent(s, s.shot.value.source) && s.shot.value.source !in s.inFlight)
    && (forall id :: s.promise == Some(id) <==> id in s.inFlight && IsCurrent(s, id))
    && (s.promise.Some? ==> !IsCached(s.shot))
    && (!s.enabled ==> s.shot.None? && s.promise.None?)
  }

  lemma StepKeepsValid(s: State, e: Event)
    requires Valid(s) && CanHappen(s, e)
    ensures Valid(Step(s, e).0)
  {
    var t := Step(s, e).0;
    match e
    case Call =>
      forall id ensures t.promise == Some(id) <==> id in t.inFlight && IsCurrent(t, id) {
        if id < |s.generations| { assert s.promise == Some(id) <==> id in s.inFlight && IsCurrent(s, id); }
      }
    case Complete(id, _) =>
      forall other ensures t.promise == Some(other) <==> other in t.inFlight && IsCurrent(t, other) {
        assert s.promise == Some(other) <==> other in s.inFlight && IsCurrent(s, other);
        assert s.promise == Some(id) <==> id in s.inFlight && IsCurrent(s, id);
      }
    case Fail(id) =>
      forall other ensures t.promise == Some(other) <==> other in t.inFlight && IsCurrent(t, other) {
        assert s.promise == Some(other) <==> other in s.inFlight && IsCurrent(s, other);
      }
    case _ =>
  }

  /** An interleaving that can happen from `s`. */
  ghost predicate IsRun(s: State, run: seq<Event>)
    decreases |run|
  {
    run != [] ==> CanHappen(s, run[0]) && IsRun(Step(s, run[0]).0, run[1..])
  }

  function After(s: State, run: seq<Event>): State
    decreases |run|
  {
    if run == [] then s else After(Step(s, run[0]).0, run[1..])
  }

  /** Every interleaving of calls, late completions, failures, clears and disables
      keeps the invariant. */
  lemma {:induction false} RunKeepsValid(s: State, run: seq<Event>)
    requires Valid(s) && IsRun(s, run)
    ensures Valid(After(s, run))
    decreases |run|
  {
    if run != [] {
      StepKeepsValid(s, run[0]);
      RunKeepsValid(Step(s, run[0]).0, run[1..]);
    }
  }

  /** At most one capture of the current generation is in flight, and every call
      made meanwhile joins it, whoever makes it. */
  lemma CallersJoin(on: bool, run: seq<Event>, id: CaptureId)
    requires IsRun(Start(on), run)
    requires var s := After(Start(on), run); id in s.inFlight && IsCurrent(s, id)
    ensures var s := After(Start(on), run); Step(s, Call) == (s, Joined(id))
    ensures var s := After(Start(on), run); forall other :: other in s.inFlight && IsCurrent(s, other) ==> other == id
  {
    RunKeepsValid(Start(on), run);
    var s := After(Start(on), run);
    assert s.promise == Some(id);
  }

  /** A capture of an earlier generation changes nothing when it settles, and gives
      those who wait for it nothing. */
  lemma InvalidatedIsHarmless(on: bool, run: seq<Event>, e: Event)
    requires IsRun(Start(on), run + [e]) && (e.Complete? || e.Fail?)
    requires !IsCurrent(After(Start(on), run), e.id)
    ensures var s := After(Start(on), run); Step(s, e) == (s.(inFlight := s.inFlight - {e.id}), Settled(None))
  {
    RunPrefix(Start(on), run, [e]);
    RunKeepsValid(Start(on), run);
    var s := After(Start(on), run);
    assert s.promise == Some(e.id) <==> e.id in s.inFlight && IsCurrent(s, e.id);
  }

  lemma {:induction false} RunPrefix(s: State, a: seq<Event>, b: seq<Event>)
    requires IsRun(s, a + b)
    ensures IsRun(s, a) && IsRun(After(s, a), b) && After(s, a + b) == After(After(s, a), b)
    decreases |a|
  {
    if a == [] { assert a + b == b; }
    else {
      assert (a + b)[1..] == a[1..] + b;
      RunPrefix(Step(s, a[0]).0, a[1..], b);
    }
  }

  predicate Invalidates(e: Event) {
    e.Clear? || e.Disable?
  }

  ghost predicate HasInvalidation(run: seq<Event>) {
    exists i :: 0 <= i < |run| && Invalidates(run[i])
  }

  /** Generations only grow, and grow at every invalidation; what a capture
      recorded when it began stays recorded. */
  lemma {:induction false} GenerationsGrow(s: State, run: seq<Event>)
    ensures After(s, run).generation >= s.generation
    ensures HasInvalidation(run) ==> After(s, run).generation > s.generation
    ensures s.generations <= After(s, run).generations
    decreases |run|
  {
    if run != [] {
      GenerationsGrow(Step(s, run[0]).0, run[1..]);
      if HasInvalidation(run) && !Invalidates(run[0]) {
        var i :| 0 <= i < |run| && Invalidates(run[i]);
        assert run[1..][i - 1] == run[i];
      }
    }
  }

  /** Once a clear or a disable has come after its beginning, a capture never
      supplies the stored screenshot again, however long the run goes on. */
  lemma NeverRepopulates(on: bool, before: seq<Event>, since: seq<Event>, id: CaptureId)
    requires IsRun(Start(on), before + since) && HasInvalidation(since)
    requires id < |After(Start(on), before).generations|
    ensures var s := After(Start(on), before + since); s.shot.Some? ==> s.shot.value.source != id
  {
    RunPrefix(Start(on), before, since);
    RunKeepsValid(Start(on), before);
    RunKeepsValid(Start(on), before + since);
    GenerationsGrow(After(Start(on), before), since);
  }

  /** A settling capture hands out a screenshot only if that is then the stored one. */
  lemma SettledIsStored(s: State, e: Event)
    requires Valid(s) && CanHappen(s, e) && (e.Complete? || e.Fail?)
    requires Step(s, e).1 != Settled(None)
    ensures Step(s, e).1 == Settled(DataOf(Step(s, e).0.shot))
    ensures e.Fail? ==> Step(s, e).1 == Settled(Some(""))
  {
    assert s.promise == Some(e.id) <==> e.id in s.inFlight && IsCurrent(s, e.id);
  }

  /** With a screenshot in hand no further capture is begun, and every call answers
      with that very screenshot, until it is cleared or the hook is disabled. */
  lemma {:induction false} CachedUntilInvalidated(s: State, run: seq<Event>)
    requires Valid(s) && s.enabled && IsCached(s.shot) && IsRun(s, run) && !HasInvalidation(run)
    ensures After(s, run).shot == s.shot && After(s, run).generations == s.generations
    ensures Step(After(s, run), Call) == (After(s, run), Immediately(DataOf(s.shot)))
    decreases |run|
  {
    if run != [] {
      var next := Step(s, run[0]).0;
      StepKeepsValid(s, run[0]);
      assert !Invalidates(run[0]);
      if run[0].Complete? {
        assert s.promise == Some(run[0].id) <==> run[0].id in s.inFlight && IsCurrent(s, run[0].id);
      }
      assert forall i :: 0 <= i < |run| - 1 ==> run[1..][i] == run[i + 1];
      CachedUntilInvalidated(next, run[1..]);
    }
  }

  // What the hook is for.

  /** With nothing stored and nothing under way, a call on an enabled hook begins a
      capture and promises its result. */
  lemma CallBegins(on: bool, run: seq<Event>)
    requires IsRun(Start(on), run)
    requires var s := After(Start(on), run); s.enabled && s.promise.None? && (s.shot.None? || s.shot.value.data == "")
    ensures var s := After(Start(on), run);
            var (t, answer) := Step(s, Call);
            var id := |s.generations|;
            && answer == Joined(id) && t.promise == Some(id) && id in t.inFlight && IsCurrent(t, id)
            && t.shot == s.shot && t.enabled && t.generation == s.generation
    ensures IsRun(Start(on), run + [Call])
  {
    RunSnoc(Start(on), run, Call);
  }

  /** A disabled hook refuses. */
  lemma CallRefused(s: State)
    requires !s.enabled
    ensures Step(s, Call) == (s, Immediately(None))
  {
  }

  /** A current capture that completes hands out its picture, stores it and is over;
      whoever calls next is given that picture. */
  lemma CompletionIsStored(on: bool, run: seq<Event>, id: CaptureId, data: string)
    requires IsRun(Start(on), run + [Complete(id, data)]) && IsCurrent(After(Start(on), run), id)
    ensures var (t, answer) := Step(After(Start(on), run), Complete(id, data));
            && answer == Settled(Some(data)) && t.shot == Some(Shot(data, id)) && t.promise == None && t.enabled
            && (data != "" ==> Step(t, Call) == (t, Immediately(Some(data))))
  {
    RunPrefix(Start(on), run, [Complete(id, data)]);
    RunKeepsValid(Start(on), run);
    var s := After(Start(on), run);
    assert s.promise == Some(id) <==> id in s.inFlight && IsCurrent(s, id);
  }

  /** A current capture that fails is over, and hands out what is stored. */
  lemma FailureKeeps(on: bool, run: seq<Event>, id: CaptureId)
    requires IsRun(Start(on), run + [Fail(id)]) && IsCurrent(After(Start(on), run), id)
    ensures var s := After(Start(on), run);
            var (t, answer) := Step(s, Fail(id));
            && answer == Settled(if s.shot.None? then None else Some(s.shot.value.data))
            && t.shot == s.shot && t.promise == None && t.enabled
  {
    RunPrefix(Start(on), run, [Fail(id)]);
    RunKeepsValid(Start(on), run);
    var s := After(Start(on), run);
    assert s.promise == Some(id) <==> id in s.inFlight && IsCurrent(s, id);
  }

  lemma {:induction false} RunSnoc(s: State, run: seq<Event>, e: Event)
    requires IsRun(s, run) && CanHappen(After(s, run), e)
    ensures IsRun(s, run + [e]) && After(s, run + [e]) == Step(After(s, run), e).0
    decreases |run|
  {
    if run == [] {
      assert run + [e] == [e] && [e][1..] == [];
    } else {
      assert (run + [e])[1..] == run[1..] + [e];
      RunSnoc(Step(s, run[0]).0, run[1..], e);
    }
  }

  lemma {:induction false} GenerationStays(s: State, run: seq<Event>)
    requires !HasInvalidation(run)
    ensures After(s, run).generation == s.generation
    decreases |run|
  {
    if run != [] {
      assert !Invalidates(run[0]);
      assert forall i :: 0 <= i < |run| - 1 ==> run[1..][i] == run[i + 1];
      GenerationStays(Step(s, run[0]).0, run[1..]);
    }
  }

  /** From the call to the picture: whatever happens meanwhile, short of a clear or a
      disable, a capture that completes is stored and handed out. */
  lemma CaptureSucceeds(on: bool, before: seq<Event>, since: seq<Event>, data: string)
    requires var s := After(Start(on), before); s.enabled && s.promise.None? && (s.shot.None? || s.shot.value.data == "")
    requires var id := |After(Start(on), before).generations|;
             IsRun(Start(on), before + [Call] + since + [Complete(id, data)]) && !HasInvalidation(since)
    ensures var id := |After(Start(on), before).generations|;
            var (t, answer) := Step(After(Start(on), before + [Call] + since), Complete(id, data));
            answer == Settled(Some(data)) && t.shot == Some(Shot(data, id)) && t.promise == None
  {
    var s := After(Start(on), before);
    var (id, begun) := (|s.generations|, before + [Call]);
    RunPrefix(Start(on), begun + since, [Complete(id, data)]);
    RunPrefix(Start(on), begun, since);
    RunPrefix(Start(on), before, [Call]);
    RunSnoc(Start(on), before, Call);
    GenerationStays(After(Start(on), begun), since);
    GenerationsGrow(After(Start(on), begun), since);
    CompletionIsStored(on, begun + since, id, data);
  }

  ghost predicate LastSwitchIsOn(run: seq<Event>) {
    exists i :: 0 <= i < |run| && run[i].Enable? && forall j :: i < j < |run| ==> !run[j].Disable?
  }

  ghost predicate NeverDisabled(run: seq<Event>) {
    forall i :: 0 <= i < |run| ==> !run[i].Disable?
  }

  /** The hook is enabled exactly when it was so switched last. */
  lemma {:induction false} EnabledExactly(s: State, run: seq<Event>)
    ensures After(s, run).enabled <==> LastSwitchIsOn(run) || (s.enabled && NeverDisabled(run))
    decreases |run|
  {
    if run != [] {
      EnabledExactly(Step(s, run[0]).0, run[1..]);
      SwitchStep(run);
      assert Step(s, run[0]).0.enabled <==> run[0].Enable? || (s.enabled && !run[0].Disable?);
      hide After, Step, LastSwitchIsOn, NeverDisabled;
    }
  }

  lemma SwitchStep(run: seq<Event>)
    requires run != []
    ensures LastSwitchIsOn(run) <==> LastSwitchIsOn(run[1..]) || (run[0].Enable? && NeverDisabled(run[1..]))
    ensures NeverDisabled(run) <==> !run[0].Disable? && NeverDisabled(run[1..])
  {
    var rest := run[1..];
    assert forall i :: 0 <= i < |rest| ==> rest[i] == run[i + 1];
    if LastSwitchIsOn(rest) {
      var i :| 0 <= i < |rest| && rest[i].Enable? && forall j :: i < j < |rest| ==> !rest[j].Disable?;
      assert run[i + 1].Enable? && forall j :: i + 1 < j < |run| ==> run[j] == rest[j - 1];
    }
    if run[0].Enable? && NeverDisabled(rest) { assert forall j :: 0 < j < |run| ==> run[j] == rest[j - 1]; }
    if LastSwitchIsOn(run) {
      var i :| 0 <= i < |run| && run[i].Enable? && forall j :: i < j < |run| ==> !run[j].Disable?;
      if i > 0 { assert rest[i - 1].Enable?; }
    }
    if NeverDisabled(rest) && !run[0].Disable? { assert forall j :: 0 < j < |run| ==> run[j] == rest[j - 1]; }
  }

  /** Clearing and disabling forget what is stored and what is under way. */
  lemma InvalidationForgets(s: State, e: Event)
    requires Invalidates(e)
    ensures var (t, answer) := Step(s, e);
            && t.shot == None && t.promise == None && t.generation == s.generation + 1 && answer == NoAnswer
            && t.generations == s.generations && t.inFlight == s.inFlight && (t.enabled <==> e.Clear? && s.enabled)
  {
  }
}
