/** A runtime whose gate is shut: when it is empty for good, and what a second closer can meet. */
module ClosedRuntimes {
  import opened Options
  import opened Snapshot
  import opened Publication
  import opened PublicationProofs
  import opened PublicationTheorems
  import Actions
  import Notes = NotificationRuns

  /** A call that has passed its last look at the gate and is about to put something into the runtime. */
  predicate Armed(rt: Runtime, th: Thread) {
    match th.call
    case Publish(_) => th.pc.Confirmed?
    case Host(_) => th.pc.Gate? && th.seen.Some?
    case Announce(_, _) => th.pc.Gate? && th.seen.Some?
    case Submit(request) =>
      th.pc.Gate? && th.seen.Some? && rt.actions.state.next != 0 && request.observed <= th.seen.value.generation
    case _ => false
  }

  /** Nothing is left in this runtime, and no call is about to add anything. */
  ghost predicate Settled(s: System, r: nat) {
    && r < |s.runtimes| && Empty(s.runtimes[r])
    && forall t | t in s.threads && s.threads[t].runtime == r :: !Armed(s.runtimes[r], s.threads[t])
  }

  // ---------------------------------------------------------------- a settled runtime stays settled

  /** What no step on an empty, shut runtime does. */
  ghost predicate StaysSettled(a: Shared, th: Thread, e: Effect) {
    && Empty(e.shared.rt) && !Armed(e.shared.rt, After(a, th, e))
    && (a.rt.actions.state.next == 0 ==> e.shared.rt.actions.state.next == 0)
  }

  lemma PublishSettles(a: Shared, th: Thread, t: nat, prepared: bool, valid: Validity)
    requires PublishCalled(a, th, t, valid) && Empty(a.rt) && GateOk(a.rt) && !Armed(a.rt, th)
    ensures StaysSettled(a, th, PublishStep(a, th, t, prepared))
  {
    hide Notes.Step;
  }

  ghost predicate PublishCalled(a: Shared, th: Thread, t: nat, valid: Validity) {
    th.call.Publish? && PublishInv(a, th, t, valid)
  }

  lemma CloseSettles(a: Shared, th: Thread, t: nat)
    requires th.call.Close? && Empty(a.rt)
    ensures StaysSettled(a, th, CloseStep(a, th, t))
  {
  }

  lemma NoteCallsSettle(a: Shared, th: Thread, t: nat)
    requires (th.call.Host? || th.call.Announce? || th.call.Drain?) && Empty(a.rt) && !Armed(a.rt, th)
    ensures th.call.Host? ==> StaysSettled(a, th, HostStep(a, th, t))
    ensures th.call.Announce? ==> StaysSettled(a, th, AnnounceStep(a, th, t))
    ensures th.call.Drain? ==> StaysSettled(a, th, DrainStep(a, th, t))
  {
    hide Find;
  }

  /** A request that is not accepted leaves the queue, and an exhausted counter stays exhausted. */
  lemma RefusedLeavesQueue(l: Actions.Ledger, request: Actions.Request, generation: nat)
    requires l.state.next == 0 || request.observed > generation
    ensures Actions.Step(l, Actions.Submit(request, generation)).state == l.state
  {
  }

  lemma ActionCallsSettle(a: Shared, th: Thread, t: nat)
    requires (th.call.Submit? || th.call.Pop?) && Empty(a.rt) && !Armed(a.rt, th)
    ensures th.call.Submit? ==> StaysSettled(a, th, SubmitStep(a, th, t))
    ensures th.call.Pop? ==> StaysSettled(a, th, PopStep(a, th, t))
  {
    hide Find;
    if th.call.Submit? && th.pc.Gate? && th.seen.Some? {
      RefusedLeavesQueue(a.rt.actions, th.call.request, th.seen.value.generation);
      hide Actions.Submitted;
    }
  }

  lemma AdvanceSettles(a: Shared, th: Thread, t: nat, prepared: bool, other: bool, valid: Validity)
    requires Pre(a, th, t, other, valid) && Empty(a.rt) && !Armed(a.rt, th)
    ensures StaysSettled(a, th, Advance(a, th, t, prepared))
  {
    hide ActionsOk, NotesOk, ViewsOk, DiffsOk;
    hide StaysSettled, Empty, Armed, PublishStep, CloseStep, HostStep, AnnounceStep, DrainStep, SubmitStep, PopStep;
    match th.call
    case Publish(_) => PublishSettles(a, th, t, prepared, valid);
    case Close => CloseSettles(a, th, t);
    case Submit(_) => ActionCallsSettle(a, th, t);
    case Pop => ActionCallsSettle(a, th, t);
    case _ => NoteCallsSettle(a, th, t);
  }

  lemma EnterSettles(a: Shared, th: Thread, valid: Validity)
    requires Empty(a.rt)
    ensures StaysSettled(a, th, Enter(a, th, valid)) && Enter(a, th, valid).shared == a
  {
  }

  /** A step of one call keeps what it and the others may not do. */
  lemma ApplySettles(s: System, t: nat, th: Thread, e: Effect, r: nat)
    requires Settled(s, r) && th.runtime < |s.runtimes| && (t in s.threads ==> s.threads[t].runtime == th.runtime)
    requires th.runtime == r ==> StaysSettled(SharedOf(s, r), th, e)
    ensures Settled(Apply(s, t, th, e), r)
  {
    hide Empty;
  }

  lemma StepSettles(s: System, step: Step, r: nat, valid: Validity)
    requires Inv(s, valid) && Settled(s, r)
    ensures Settled(Next(s, step, valid), r)
  {
    hide Settled, StaysSettled, Advance, Enter, Pre, RuntimeInv, ThreadInv, Apply, RuntimesOk, ThreadsOk, LogOk;
    SettledParts(s, r);
    if step.Start? && step.thread !in s.threads && step.runtime < |s.runtimes| {
      var th := Thread(step.runtime, step.call, Entered, None, false);
      if step.runtime == r {
        EnterSettles(SharedOf(s, r), th, valid);
      }
      ApplySettles(s, step.thread, th, Enter(SharedOf(s, step.runtime), th, valid), r);
    } else if step.Go? && step.thread in s.threads {
      ThreadReady(s, step.thread, valid);
      var th := s.threads[step.thread];
      var a := SharedOf(s, th.runtime);
      if th.runtime == r {
        AdvanceSettles(a, th, step.thread, step.prepared, Between(s, r) && s.publisher != Some(step.thread), valid);
      }
      ApplySettles(s, step.thread, th, Advance(a, th, step.thread, step.prepared), r);
    } else if step.Enable? {
      EnableSettles(s, step.limits, r, valid);
    }
  }

  lemma SettledParts(s: System, r: nat)
    requires Settled(s, r)
    ensures r < |s.runtimes| && Empty(s.runtimes[r])
    ensures forall t | t in s.threads && s.threads[t].runtime == r :: !Armed(s.runtimes[r], s.threads[t])
  {
  }

  lemma EnableSettles(s: System, limits: Limits, r: nat, valid: Validity)
    requires Settled(s, r)
    ensures Settled(Next(s, Enable(limits), valid), r)
  {
    hide Empty, Armed, ValidLimits;
  }

  // ---------------------------------------------------------------- an armed call fires

  lemma HostFires(l: Notes.Ledger, phase: nat, latest: Option<View>, v: View, focusGained: bool)
    requires NotesOk(l, phase, latest) && Notes.Reaches(l.commits, v.generation)
    ensures Notes.Step(l, Notes.Host(v, focusGained)).state.pending
  {
    Notes.HostKeepsInv(l, v, focusGained);
  }

  lemma SubmitFires(l: Actions.Ledger, request: Actions.Request, generation: nat)
    requires l.state.queue == [] && 0 < l.state.capacity && l.state.next != 0 && request.observed <= generation
    ensures Actions.Step(l, Actions.Submit(request, generation)).state.queue != []
  {
  }

  lemma ArmedFires(a: Shared, th: Thread, t: nat, other: bool, valid: Validity)
    requires Pre(a, th, t, other, valid) && Empty(a.rt) && Armed(a.rt, th)
    ensures !Empty(Advance(a, th, t, true).shared.rt)
  {
    hide ViewsOk, DiffsOk, Notes.Step, Actions.Step, Actions.Inv, Notes.OneMarker, Notes.NothingLost;
    match th.call
    case Publish(_) =>
    case Host(focusGained) => HostFires(a.rt.notes, a.rt.phase, Latest(a.rt.views), th.seen.value, focusGained);
    case Announce(_, _) => AnnounceFires(a, th, t);
    case Submit(request) => SubmitFires(a.rt.actions, request, th.seen.value.generation);
  }

  lemma AnnounceFires(a: Shared, th: Thread, t: nat)
    requires th.call.Announce? && th.pc.Gate? && th.seen.Some? && a.rt.notes.state.queue == [] && 0 < a.rt.notes.state.capacity
    ensures AnnounceStep(a, th, t).shared.rt.notes.state.queue != []
  {
  }

  // ---------------------------------------------------------------- the exact condition

  ghost predicate EmptyAfter(steps: seq<Step>, more: seq<Step>, r: nat, valid: Validity) {
    var s := Run(steps + more, valid);
    r < |s.runtimes| && Empty(s.runtimes[r])
  }

  lemma {:induction false} SettledForever(steps: seq<Step>, more: seq<Step>, r: nat, valid: Validity)
    requires Settled(Run(steps, valid), r)
    ensures Settled(Run(steps + more, valid), r)
    decreases |more|
  {
    hide Settled, Next, Inv, Run;
    if more == [] {
      assert steps + more == steps;
    } else {
      var last := |more| - 1;
      assert steps + more == steps + more[..last] + [more[last]];
      RunAnother(steps + more[..last], more[last], valid);
      SettledForever(steps, more[..last], r, valid);
      EveryRun(steps + more[..last], valid);
      StepSettles(Run(steps + more[..last], valid), more[last], r, valid);
    }
  }

  /** In every reachable state, a shut runtime is empty now and after any further steps exactly when it is empty and no
      call on it is armed. This is what a close that finds the gate shut can rely on. */
  lemma EmptyForGood(steps: seq<Step>, r: nat, valid: Validity)
    requires r < |Run(steps, valid).runtimes|
    ensures (forall more :: EmptyAfter(steps, more, r, valid)) <==> Settled(Run(steps, valid), r)
  {
    hide Run, Inv, Armed, Empty;
    if Settled(Run(steps, valid), r) {
      forall more
        ensures EmptyAfter(steps, more, r, valid)
      {
        SettledForever(steps, more, r, valid);
      }
    } else {
      NotSettled(steps, r, valid);
    }
  }

  lemma NotSettled(steps: seq<Step>, r: nat, valid: Validity)
    requires r < |Run(steps, valid).runtimes| && !Settled(Run(steps, valid), r)
    ensures exists more :: !EmptyAfter(steps, more, r, valid)
  {
    hide Armed, Empty, Run;
    var s := Run(steps, valid);
    if !Empty(s.runtimes[r]) {
      assert steps + [] == steps;
      assert !EmptyAfter(steps, [], r, valid);
    } else {
      var t :| t in s.threads && s.threads[t].runtime == r && Armed(s.runtimes[r], s.threads[t]);
      FiresNow(steps, t, valid);
      assert !EmptyAfter(steps, [Go(t, true)], r, valid);
    }
  }

  lemma FiresNow(steps: seq<Step>, t: nat, valid: Validity)
    requires t in Run(steps, valid).threads
    requires var s := Run(steps, valid);
             var th := s.threads[t];
             th.runtime < |s.runtimes| && Empty(s.runtimes[th.runtime]) && Armed(s.runtimes[th.runtime], th)
    ensures var s, r := Run(steps + [Go(t, true)], valid), Run(steps, valid).threads[t].runtime;
            r < |s.runtimes| && !Empty(s.runtimes[r])
  {
    hide Empty, Armed, Advance, Pre, RuntimesOk, ThreadsOk, LogOk;
    assert (steps + [Go(t, true)])[..|steps|] == steps;
    var s := Run(steps, valid);
    EveryRun(steps, valid);
    ThreadReady(s, t, valid);
    var th := s.threads[t];
    ArmedFires(SharedOf(s, th.runtime), th, t, Between(s, th.runtime) && s.publisher != Some(t), valid);
  }

  // ---------------------------------------------------------------- a second closer that returns too early

  /** A close has returned, and its runtime is not empty. */
  ghost predicate ReturnedEarly(s: System) {
    exists t ::
      && t in s.threads && s.threads[t].call.Close? && s.threads[t].pc.Done?
      && s.threads[t].runtime < |s.runtimes| && !Empty(s.runtimes[s.threads[t].runtime])
  }

  function Publishing(limits: Limits, view: View, publisher: Option<nat>, pc: Pc): System {
    System([NewRuntime(limits)], 0, publisher, map[0 := Thread(0, Publish(view), pc, None, false)], [])
  }

  lemma PublishingSteps(limits: Limits, view: View, valid: Validity)
    requires view.generation > 0
    ensures Next(Publishing(limits, view, None, Entered), Go(0, true), valid) == Publishing(limits, view, Some(0), Locked)
    ensures Next(Publishing(limits, view, Some(0), Locked), Go(0, true), valid) == Publishing(limits, view, Some(0), Gate)
    ensures Next(Publishing(limits, view, Some(0), Gate), Go(0, true), valid) == Publishing(limits, view, Some(0), Checked(None))
    ensures Next(Publishing(limits, view, Some(0), Checked(None)), Go(0, true), valid) ==
            Publishing(limits, view, Some(0), Prepared(None))
    ensures Next(Publishing(limits, view, Some(0), Prepared(None)), Go(0, true), valid) ==
            Publishing(limits, view, Some(0), Confirmed(None))
  {
    hide Actions.Begin, Notes.Begin;
  }

  lemma PublishingStarts(limits: Limits, view: View, valid: Validity)
    requires ValidLimits(limits) && valid(view, limits)
    ensures Run([Enable(limits)] + [Start(0, 0, Publish(view))], valid) == Publishing(limits, view, None, Entered)
  {
    RunAnother([], Enable(limits), valid);
    RunAnother([Enable(limits)], Start(0, 0, Publish(view)), valid);
    assert [] + [Enable(limits)] == [Enable(limits)];
  }

  function Gos(steps: seq<Step>, n: nat): seq<Step> {
    if n == 0 then steps else Gos(steps, n - 1) + [Go(0, true)]
  }

  lemma PublishingConfirmed(limits: Limits, view: View, valid: Validity)
    requires ValidLimits(limits) && valid(view, limits) && view.generation > 0
    ensures Run(Gos([Enable(limits)] + [Start(0, 0, Publish(view))], 5), valid) == Publishing(limits, view, Some(0), Confirmed(None))
  {
    hide Next, Run, Publishing, ValidLimits;
    var steps := [Enable(limits)] + [Start(0, 0, Publish(view))];
    PublishingStarts(limits, view, valid);
    PublishingSteps(limits, view, valid);
    RunAnother(Gos(steps, 0), Go(0, true), valid);
    RunAnother(Gos(steps, 1), Go(0, true), valid);
    RunAnother(Gos(steps, 2), Go(0, true), valid);
    RunAnother(Gos(steps, 3), Go(0, true), valid);
    RunAnother(Gos(steps, 4), Go(0, true), valid);
  }

  lemma PublishingStored(limits: Limits, view: View, valid: Validity)
    ensures var s := Next(Publishing(limits, view, Some(0), Confirmed(None)), Go(0, true), valid);
            && |s.runtimes| == 1 && s.runtimes[0].snapshot == Some(view) && s.runtimes[0].live
            && 1 !in s.threads && 2 !in s.threads
  {
    hide Actions.Begin, Notes.Begin;
  }

  /** The promise of an empty runtime fails for a second closer: a snapshot is published, two threads close, and the
      one that loses the exchange has returned while the snapshot is still in place. */
  lemma LoserReturnsEarly(limits: Limits, view: View, valid: Validity)
    requires ValidLimits(limits) && valid(view, limits) && view.generation > 0
    ensures exists steps :: ReturnedEarly(Run(steps, valid))
  {
    hide Run, ValidLimits, Next, Publishing, Gos;
    var steps := Gos([Enable(limits)] + [Start(0, 0, Publish(view))], 5);
    PublishingConfirmed(limits, view, valid);
    PublishingStored(limits, view, valid);
    var stored, first, second := steps + [Go(0, true)], Start(1, 0, Close), Start(2, 0, Close);
    RunAnother(steps, Go(0, true), valid);
    RunAnother(stored, first, valid);
    RunAnother(stored + [first], second, valid);
    var s := Run(stored, valid);
    LoserReturnsAtOnce(s, 0, 1, 2, valid);
    assert ReturnedEarly(Run(stored + [first] + [second], valid));
  }
}
