/** What holds in every interleaving of publishers, host invalidations, announcers, submitters, drains and closers. */
module PublicationTheorems {
  import opened Options
  import opened Snapshot
  import opened Publication
  import opened PublicationProofs
  import Actions
  import Notes = NotificationRuns

  lemma RunAnother(steps: seq<Step>, step: Step, valid: Validity)
    ensures Run(steps + [step], valid) == Next(Run(steps, valid), step, valid)
  {
    hide Next;
    assert (steps + [step])[..|steps|] == steps;
  }

  lemma RuntimeHolds(steps: seq<Step>, r: nat, valid: Validity)
    requires r < |Run(steps, valid).runtimes|
    ensures var s := Run(steps, valid); RuntimeInv(s.runtimes[r], Between(s, r), s.last, valid)
  {
    hide RuntimeInv, Run, ThreadsOk, LogOk;
    EveryRun(steps, valid);
  }

  lemma ThreadHolds(steps: seq<Step>, t: nat, valid: Validity)
    requires t in Run(steps, valid).threads
    ensures ThreadOk(Run(steps, valid), t, valid)
  {
    hide ThreadOk, Run, RuntimesOk, LogOk;
    EveryRun(steps, valid);
  }

  // ---------------------------------------------------------------- close

  /** Nothing is published, requested or queued in this runtime. */
  predicate Empty(rt: Runtime) {
    && !rt.live && rt.snapshot.None? && rt.actions.state.queue == [] && rt.notes.state.queue == []
    && !rt.notes.state.pending
  }

  lemma PhaseThreeIsEmpty(rt: Runtime, between: bool, last: nat, valid: Validity)
    requires RuntimeInv(rt, between, last, valid) && rt.phase >= 3
    ensures Empty(rt)
  {
    hide ViewsOk, DiffsOk, Actions.Inv, Notes.Inv;
  }

  /** A finished call stays as it is. */
  lemma DoneStays(s: System, step: Step, t: nat, valid: Validity)
    requires t in s.threads && s.threads[t].pc.Done?
    ensures var s' := Next(s, step, valid); t in s'.threads && s'.threads[t] == s.threads[t]
  {
    hide Enter;
    if step.Go? && step.thread == t && s.threads[t].runtime < |s.runtimes| {
      var th := s.threads[t];
      assert Advance(SharedOf(s, th.runtime), th, t, step.prepared) == Stay(SharedOf(s, th.runtime), th, th.pc);
    }
    hide Advance;
  }

  lemma {:induction false} DoneForever(steps: seq<Step>, more: seq<Step>, t: nat, valid: Validity)
    requires t in Run(steps, valid).threads && Run(steps, valid).threads[t].pc.Done?
    ensures var s := Run(steps + more, valid); t in s.threads && s.threads[t] == Run(steps, valid).threads[t]
    decreases |more|
  {
    if more == [] {
      assert steps + more == steps;
    } else {
      var last := |more| - 1;
      DoneForever(steps, more[..last], t, valid);
      assert (steps + more)[..|steps + more| - 1] == steps + more[..last];
      hide Next;
      DoneStays(Run(steps + more[..last], valid), more[last], t, valid);
    }
  }

  /** Once the close that shut the gate returns, its runtime is empty, now and after any further steps, even if a
      publisher had passed its last look at the gate before the close. */
  lemma ClosedStaysEmpty(steps: seq<Step>, more: seq<Step>, t: nat, valid: Validity)
    requires var s := Run(steps, valid); t in s.threads && s.threads[t].call.Close? && s.threads[t].pc == Done(true)
    ensures var r, s := Run(steps, valid).threads[t].runtime, Run(steps + more, valid); r < |s.runtimes| && Empty(s.runtimes[r])
  {
    DoneForever(steps, more, t, valid);
    var s := Run(steps + more, valid);
    ThreadHolds(steps + more, t, valid);
    hide RuntimeInv, Run;
    var r := s.threads[t].runtime;
    assert s.runtimes[r].phase >= 3;
    hide ThreadOk;
    RuntimeHolds(steps + more, r, valid);
    PhaseThreeIsEmpty(s.runtimes[r], Between(s, r), s.last, valid);
  }

  /** The thread that shut the gate of this runtime. */
  predicate Winner(s: System, t: nat, r: nat) {
    t in s.threads && s.threads[t].runtime == r && s.threads[t].call.Close? && s.threads[t].pc != Done(false)
  }

  ghost predicate ShutByWinner(s: System) {
    forall r | 0 <= r < |s.runtimes| && !s.runtimes[r].live :: exists t :: Winner(s, t, r)
  }

  lemma AdvanceKeepsGate(s: Shared, th: Thread, t: nat, prepared: bool)
    ensures Advance(s, th, t, prepared).shared.rt.live == s.rt.live
    ensures th.call.Close? && th.pc != Done(false) ==> Advance(s, th, t, prepared).pc != Done(false)
  {
    hide Notes.Step, Actions.Step, Find;
  }

  lemma WinnerStays(s: System, step: Step, t: nat, r: nat, valid: Validity)
    requires Winner(s, t, r)
    ensures Winner(Next(s, step, valid), t, r)
  {
    hide Advance, Enter;
    if step.Go? && step.thread == t && r < |s.runtimes| {
      AdvanceKeepsGate(SharedOf(s, r), s.threads[t], t, step.prepared);
    }
  }

  /** A step that shuts a gate is the entry of a closer. */
  lemma ShutByCloser(s: System, step: Step, r: nat, valid: Validity)
    requires r < |s.runtimes| && s.runtimes[r].live && !Next(s, step, valid).runtimes[r].live
    ensures step.Start? && Winner(Next(s, step, valid), step.thread, r)
  {
    hide Advance;
    if step.Go? && step.thread in s.threads && s.threads[step.thread].runtime < |s.runtimes| {
      var th := s.threads[step.thread];
      AdvanceKeepsGate(SharedOf(s, th.runtime), th, step.thread, step.prepared);
    }
  }

  lemma RuntimesAppend(s: System, step: Step, valid: Validity)
    ensures var s' := Next(s, step, valid);
            |s.runtimes| <= |s'.runtimes| && forall r | |s.runtimes| <= r < |s'.runtimes| :: s'.runtimes[r].live
  {
    hide Advance, Enter, ValidLimits;
  }

  lemma {:induction false} EveryGateHasAWinner(steps: seq<Step>, valid: Validity)
    ensures ShutByWinner(Run(steps, valid))
    decreases |steps|
  {
    if steps != [] {
      var last := |steps| - 1;
      EveryGateHasAWinner(steps[..last], valid);
      var s := Run(steps[..last], valid);
      var s' := Next(s, steps[last], valid);
      hide Winner, Next;
      RuntimesAppend(s, steps[last], valid);
      forall r | 0 <= r < |s'.runtimes| && !s'.runtimes[r].live
        ensures exists t :: Winner(s', t, r)
      {
        if s.runtimes[r].live {
          ShutByCloser(s, steps[last], r, valid);
        } else {
          var t :| Winner(s, t, r);
          WinnerStays(s, steps[last], t, r, valid);
        }
      }
    }
  }

  /** A winner is at most one: only a step that finds the gate open makes a new one, and winning shuts it. */
  lemma NewWinner(s: System, step: Step, t: nat, r: nat, valid: Validity)
    requires Winner(Next(s, step, valid), t, r) && !Winner(s, t, r)
    ensures step == Start(t, r, Close) && r < |s.runtimes| && s.runtimes[r].live
  {
    hide Notes.Step, Actions.Step, Find;
  }

  lemma WinnerShuts(s: System, t: nat, r: nat, valid: Validity)
    requires ThreadsOk(s, valid) && Winner(s, t, r)
    ensures r < |s.runtimes| && !s.runtimes[r].live
  {
    assert ThreadOk(s, t, valid);
  }

  lemma {:induction false} OnlyOneWinner(steps: seq<Step>, t: nat, u: nat, r: nat, valid: Validity)
    requires Winner(Run(steps, valid), t, r) && Winner(Run(steps, valid), u, r)
    ensures t == u
    decreases |steps|
  {
    hide Winner, Next, RuntimesOk, ThreadsOk, LogOk;
    if steps == [] {
      NobodyYet(t, r, valid);
    } else {
      var last := |steps| - 1;
      var s := Run(steps[..last], valid);
      EveryRun(steps[..last], valid);
      if Winner(s, t, r) {
        WinnerShuts(s, t, r, valid);
      } else {
        NewWinner(s, steps[last], t, r, valid);
      }
      if Winner(s, u, r) {
        WinnerShuts(s, u, r, valid);
      } else {
        NewWinner(s, steps[last], u, r, valid);
      }
      if Winner(s, t, r) && Winner(s, u, r) {
        OnlyOneWinner(steps[..last], t, u, r, valid);
      }
    }
  }

  lemma NobodyYet(t: nat, r: nat, valid: Validity)
    ensures !Winner(Run([], valid), t, r)
  {
  }

  /** A gate is shut exactly when one thread won the exchange on it, and then exactly one did. */
  lemma ExactlyOneWinner(steps: seq<Step>, r: nat, valid: Validity)
    requires r < |Run(steps, valid).runtimes|
    ensures var s := Run(steps, valid); !s.runtimes[r].live <==> exists t :: Winner(s, t, r)
    ensures var s := Run(steps, valid); forall t, u | Winner(s, t, r) && Winner(s, u, r) :: t == u
  {
    hide Run, Winner, RuntimesOk, ThreadsOk, LogOk;
    EveryRun(steps, valid);
    EveryGateHasAWinner(steps, valid);
    var s := Run(steps, valid);
    if t :| Winner(s, t, r) {
      WinnerShuts(s, t, r, valid);
    }
    forall t, u | Winner(s, t, r) && Winner(s, u, r)
      ensures t == u
    {
      OnlyOneWinner(steps, t, u, r, valid);
    }
  }

  predicate CloserAtWork(s: System, t: nat, r: nat) {
    Winner(s, t, r) && !s.threads[t].pc.Done?
  }

  /** A shut runtime with no closer still at work is empty: so every call that finds the gate shut, a second close
      included, may rely on it as soon as the first close has returned. */
  lemma ShutMeansEmpty(steps: seq<Step>, r: nat, valid: Validity)
    requires var s := Run(steps, valid); r < |s.runtimes| && !s.runtimes[r].live && !exists t :: CloserAtWork(s, t, r)
    ensures Empty(Run(steps, valid).runtimes[r])
  {
    EveryGateHasAWinner(steps, valid);
    hide Run;
    var t :| Winner(Run(steps, valid), t, r);
    assert !CloserAtWork(Run(steps, valid), t, r);
    ClosedStaysEmpty(steps, [], t, valid);
    assert steps + [] == steps;
  }

  /** While the first close is still at work a second one returns at once, with everything still in place. */
  lemma LoserReturnsAtOnce(s: System, r: nat, t: nat, u: nat, valid: Validity)
    requires r < |s.runtimes| && s.runtimes[r].live && t !in s.threads && u !in s.threads && t != u
    ensures var s' := Next(Next(s, Start(t, r, Close), valid), Start(u, r, Close), valid);
            && u in s'.threads && s'.threads[u].runtime == r && s'.threads[u].call.Close? && s'.threads[u].pc == Done(false)
            && r < |s'.runtimes| && s'.runtimes[r] == s.runtimes[r].(live := false)
  {
  }

  // ---------------------------------------------------------------- generations and roots

  /** Over the whole life of the window generations strictly increase, and within one runtime the root never changes. */
  lemma CommitsAdvance(steps: seq<Step>, i: nat, j: nat, valid: Validity)
    requires i < j < |Run(steps, valid).committed|
    ensures var c := Run(steps, valid).committed;
            && c[i].view.generation < c[j].view.generation <= Run(steps, valid).last
            && (c[i].runtime == c[j].runtime ==> c[i].view.root == c[j].view.root)
  {
    hide RuntimesOk, ThreadsOk, Run;
    EveryRun(steps, valid);
    var s := Run(steps, valid);
    var r := s.committed[j].runtime;
    RuntimeHolds(steps, r, valid);
    hide DiffsOk, NotesOk, ActionsOk, GateOk, AllAccepted;
    assert s.committed[i].view in s.runtimes[s.committed[i].runtime].views && s.committed[j].view in s.runtimes[r].views;
  }

  // ---------------------------------------------------------------- failed publications

  lemma ChangedStays(s: System, step: Step, t: nat, valid: Validity)
    requires t in s.threads && s.threads[t].changed
    ensures var s' := Next(s, step, valid); t in s'.threads && s'.threads[t].changed
  {
    hide Advance, Enter;
  }

  lemma {:induction false} ChangedForever(steps: seq<Step>, n: nat, t: nat, valid: Validity)
    requires n <= |steps| && t in Run(steps[..n], valid).threads && Run(steps[..n], valid).threads[t].changed
    ensures t in Run(steps, valid).threads && Run(steps, valid).threads[t].changed
    decreases |steps| - n
  {
    if n == |steps| {
      assert steps[..n] == steps;
    } else {
      assert steps[..n + 1][..n] == steps[..n];
      assert Run(steps[..n + 1], valid) == Next(Run(steps[..n], valid), steps[n], valid);
      hide Next;
      ChangedStays(Run(steps[..n], valid), steps[n], t, valid);
      ChangedForever(steps, n + 1, t, valid);
    }
  }

  lemma EffectIsRecorded(s: System, t: nat, th: Thread, e: Effect)
    requires th.runtime < |s.runtimes|
    requires var s' := Apply(s, t, th, e); s'.runtimes != s.runtimes || s'.last != s.last
    ensures Apply(s, t, th, e).threads[t].changed
  {
    if e.shared.rt == s.runtimes[th.runtime] {
      assert s.runtimes[th.runtime := e.shared.rt] == s.runtimes;
    }
  }

  /** A step of a call that touches the runtimes or the last generation marks its thread. */
  lemma ChangeIsRecorded(s: System, step: Step, valid: Validity)
    requires !step.Enable?
    requires var s' := Next(s, step, valid); s'.runtimes != s.runtimes || s'.last != s.last
    ensures var s' := Next(s, step, valid); step.thread in s'.threads && s'.threads[step.thread].changed
  {
    hide Advance, Enter;
    if step.Start? {
      var th := Thread(step.runtime, step.call, Entered, None, false);
      EffectIsRecorded(s, step.thread, th, Enter(SharedOf(s, step.runtime), th, valid));
    } else {
      var th := s.threads[step.thread];
      EffectIsRecorded(s, step.thread, th, Advance(SharedOf(s, th.runtime), th, step.thread, step.prepared));
    }
  }

  lemma RunPrefix(steps: seq<Step>, n: nat, valid: Validity)
    requires n < |steps|
    ensures Run(steps[..n + 1], valid) == Next(Run(steps[..n], valid), steps[n], valid)
  {
    hide Next;
    assert steps[..n + 1][..n] == steps[..n];
  }

  lemma FailedIsUnchanged(s: System, t: nat, valid: Validity)
    requires t in s.threads && ThreadOk(s, t, valid) && s.threads[t].call.Publish? && s.threads[t].pc == Done(false)
    ensures !s.threads[t].changed
  {
  }

  /** Of a publication that failed, no step changed a snapshot, a queue, a gate or the last generation. */
  lemma FailedPublishChangesNothing(steps: seq<Step>, n: nat, valid: Validity)
    requires n < |steps| && !steps[n].Enable?
    requires var s, t := Run(steps, valid), steps[n].thread; t in s.threads && s.threads[t].call.Publish? && s.threads[t].pc == Done(false)
    ensures var a, b := Run(steps[..n], valid), Run(steps[..n + 1], valid); b.runtimes == a.runtimes && b.last == a.last
  {
    hide Run, Next, ThreadOk;
    var t := steps[n].thread;
    var a, b := Run(steps[..n], valid), Run(steps[..n + 1], valid);
    RunPrefix(steps, n, valid);
    ThreadHolds(steps, t, valid);
    FailedIsUnchanged(Run(steps, valid), t, valid);
    if b.runtimes != a.runtimes || b.last != a.last {
      ChangeIsRecorded(a, steps[n], valid);
      ChangedForever(steps, n + 1, t, valid);
    }
  }

  // ---------------------------------------------------------------- notifications

  /** The flag tells exactly whether a tree invalidation is queued, and there is never more than one. When no publisher
      stands between its store and its diff, that invalidation carries the generation of the current snapshot. */
  lemma MarkerIsExact(steps: seq<Step>, r: nat, valid: Validity)
    requires r < |Run(steps, valid).runtimes|
    ensures var s := Run(steps, valid);
            var rt := s.runtimes[r];
            && Notes.OneMarker(rt.notes.state)
            && (rt.notes.state.pending && rt.snapshot.Some? && !Between(s, r) ==>
                  Notes.MarkerGeneration(rt.notes.state) == rt.snapshot.value.generation)
  {
    hide Run, RuntimeInv;
    RuntimeHolds(steps, r, valid);
    var s := Run(steps, valid);
    MarkerMatches(s.runtimes[r], Between(s, r), s.last, valid);
  }

  lemma MarkerMatches(rt: Runtime, between: bool, last: nat, valid: Validity)
    requires RuntimeInv(rt, between, last, valid)
    ensures Notes.OneMarker(rt.notes.state)
    ensures rt.notes.state.pending && rt.snapshot.Some? && !between ==>
              Notes.MarkerGeneration(rt.notes.state) == rt.snapshot.value.generation
  {
    hide ViewsOk, ActionsOk, Notes.NothingLost, Notes.OneMarker, Notes.Positions;
    var n := |rt.views|;
    if rt.notes.state.pending && rt.snapshot.Some? && !between {
      assert rt.notes.commits[n - 1].after == rt.views[n - 1];
    }
  }

  /** Until the closer clears the queue, no committed change is lost: for every committed snapshot whose diff has been
      queued, that is for all but the one a publisher has just stored, every record of its difference from the snapshot
      before it is queued or was delivered since, or a tree invalidation at least as new is queued or was delivered. */
  lemma NoCommittedChangeLost(steps: seq<Step>, r: nat, i: nat, valid: Validity)
    requires var s := Run(steps, valid);
             && r < |s.runtimes| && s.runtimes[r].phase < 3 && i < |s.runtimes[r].views|
             && (Between(s, r) ==> i < |s.runtimes[r].views| - 1)
    ensures var rt := Run(steps, valid).runtimes[r];
            && i < |rt.notes.commits| && rt.notes.commits[i].after == rt.views[i]
            && rt.notes.commits[i].before == Latest(rt.views[..i])
            && Notes.CoveredCommit(Notes.Stream(rt.notes), rt.notes.commits[i])
  {
    hide Run, RuntimeInv;
    RuntimeHolds(steps, r, valid);
    var s := Run(steps, valid);
    CommitCovered(s.runtimes[r], Between(s, r), s.last, i, valid);
  }

  lemma CommitCovered(rt: Runtime, between: bool, last: nat, i: nat, valid: Validity)
    requires RuntimeInv(rt, between, last, valid) && rt.phase < 3 && i < |rt.views| && (between ==> i < |rt.views| - 1)
    ensures i < |rt.notes.commits| && rt.notes.commits[i].after == rt.views[i]
    ensures rt.notes.commits[i].before == Latest(rt.views[..i])
    ensures Notes.CoveredCommit(Notes.Stream(rt.notes), rt.notes.commits[i])
  {
    hide ViewsOk, ActionsOk, Notes.CoveredCommit, Notes.MarkerCurrent, Notes.Positions;
  }

  /** A runtime that is live has its queue intact. */
  lemma LiveIsUncleared(steps: seq<Step>, r: nat, valid: Validity)
    requires r < |Run(steps, valid).runtimes| && Run(steps, valid).runtimes[r].live
    ensures Run(steps, valid).runtimes[r].phase == 0
  {
    hide Run, ViewsOk, DiffsOk, NotesOk, ActionsOk;
    RuntimeHolds(steps, r, valid);
  }

  lemma CommittedAreValid(rt: Runtime, between: bool, last: nat, i: nat, valid: Validity)
    requires RuntimeInv(rt, between, last, valid) && i < |rt.views|
    ensures valid(rt.views[i], rt.limits)
  {
    hide DiffsOk, NotesOk, ActionsOk;
  }

  // ---------------------------------------------------------------- actions

  /** Requests come out in the order of acceptance under strictly increasing ids, and until the closer clears them the
      delivered and pending requests have the effect of all accepted ones. */
  lemma ActionsInEveryRun<X(!new)>(steps: seq<Step>, r: nat, exec: (X, Actions.Request) -> X, x: X, valid: Validity)
    requires r < |Run(steps, valid).runtimes|
    ensures var l := Run(steps, valid).runtimes[r].actions;
            && (forall i, j | 0 <= i < j < |l.popped| :: l.popped[i].id < l.popped[j].id)
            && (forall i | 0 <= i < |l.popped| :: l.popped[i] in l.accepted)
            && (Run(steps, valid).runtimes[r].phase < 2 && Actions.LastWriterWins(exec) ==>
                  Actions.Execute(exec, x, Actions.Stream(l)) == Actions.Execute(exec, x, l.accepted))
  {
    hide DiffsOk, NotesOk, ViewsOk, Run;
    RuntimeHolds(steps, r, valid);
    ActionsHold(Run(steps, valid).runtimes[r].actions, Run(steps, valid).runtimes[r].phase, exec, x);
  }

  lemma ActionsHold<X(!new)>(l: Actions.Ledger, phase: nat, exec: (X, Actions.Request) -> X, x: X)
    requires ActionsOk(l, phase)
    ensures forall i, j | 0 <= i < j < |l.popped| :: l.popped[i].id < l.popped[j].id
    ensures forall i | 0 <= i < |l.popped| :: l.popped[i] in l.accepted
    ensures phase < 2 && Actions.LastWriterWins(exec) ==>
              Actions.Execute(exec, x, Actions.Stream(l)) == Actions.Execute(exec, x, l.accepted)
  {
    forall i, j | 0 <= i < j < |l.popped|
      ensures l.popped[i].id < l.popped[j].id
    {
      Actions.PoppedInOrder(l, i, j);
      assert Actions.Stream(l)[i] == l.popped[i] && Actions.Stream(l)[j] == l.popped[j];
    }
    forall i | 0 <= i < |l.popped|
      ensures l.popped[i] in l.accepted
    {
      assert Actions.Stream(l)[i] == l.popped[i];
    }
    if phase < 2 && Actions.LastWriterWins(exec) {
      Actions.DeliveredMeansAccepted(l, exec, x);
    }
  }
}
