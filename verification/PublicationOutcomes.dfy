/** How every call ends: when it is turned away, what it does when it is not, and which histories of snapshots are possible. */
module PublicationOutcomes {
  import opened Options
  import opened Snapshot
  import opened Publication
  import opened PublicationProofs
  import opened PublicationTheorems
  import Diff
  import Notifications
  import Actions
  import Notes = NotificationRuns

  // ---------------------------------------------------------------- being turned away

  ghost predicate NoNode(v: Option<View>, id: NodeId) {
    v.None? || forall i | 0 <= i < |v.value.nodes| :: v.value.nodes[i].id != id
  }

  /** The next step of this call meets what makes the call fail: a shut gate at one of its looks; for a publication also a
      generation that is not new, another root, or a failed preparation; for the others a missing snapshot or node. */
  ghost predicate TurnedAway(rt: Runtime, last: nat, th: Thread, prepared: bool) {
    match th.call
    case Publish(view) =>
      || ((th.pc.Locked? || th.pc.Prepared?) && !rt.live)
      || (th.pc.Gate? && (view.generation <= last || (rt.snapshot.Some? && rt.snapshot.value.root != view.root)))
      || (th.pc.Checked? && !prepared)
    case Close => false
    case Host(_) => (th.pc.Locked? && rt.snapshot.None?) || (th.pc.Loaded? && !rt.live)
    case Announce(node, _) =>
      || (th.pc.Entered? && NoNode(rt.snapshot, if node == 0 && rt.snapshot.Some? then rt.snapshot.value.root else node))
      || (th.pc.Locked? && !rt.live)
    case Submit(request) => (th.pc.Entered? && NoNode(rt.snapshot, request.node)) || (th.pc.Locked? && !rt.live)
    case Drain => th.pc.Locked? && !rt.live
    case Pop => th.pc.Locked? && !rt.live
  }

  lemma FindDecides(v: View, id: NodeId)
    ensures Find(v.nodes, id) == |v.nodes| <==> NoNode(Some(v), id)
  {
  }

  lemma AdvanceDecides(a: Shared, th: Thread, t: nat, prepared: bool, other: bool, valid: Validity)
    requires Pre(a, th, t, other, valid) && !th.pc.Done?
    ensures Advance(a, th, t, prepared).pc == Done(false) <==> TurnedAway(a.rt, a.last, th, prepared)
  {
    hide RuntimeInv, Notes.Step, Actions.Step, Find, PublishInv, CloseInv, NoteInv, ActionInv;
    if a.rt.snapshot.Some? && th.call.Announce? {
      FindDecides(a.rt.snapshot.value, Notifications.Subject(a.rt.snapshot.value, th.call.node));
    }
    if a.rt.snapshot.Some? && th.call.Submit? {
      FindDecides(a.rt.snapshot.value, th.call.request.node);
    }
    hide NoNode;
  }

  /** This step of the run turns the call away. */
  ghost predicate Refused(s: System, step: Step, t: nat) {
    && step.Go? && step.thread == t && t in s.threads && s.threads[t].runtime < |s.runtimes|
    && TurnedAway(s.runtimes[s.threads[t].runtime], s.last, s.threads[t], step.prepared)
  }

  lemma OthersKeepThread(s: System, step: Step, t: nat, valid: Validity)
    requires t in s.threads && !(step.Go? && step.thread == t)
    ensures var s' := Next(s, step, valid); t in s'.threads && s'.threads[t] == s.threads[t]
  {
    hide Advance, Enter;
  }

  lemma StepDecides(s: System, step: Step, t: nat, valid: Validity)
    requires Inv(s, valid) && t in s.threads
    ensures var s' := Next(s, step, valid);
            && t in s'.threads
            && (s'.threads[t].pc == Done(false) <==> s.threads[t].pc == Done(false) || Refused(s, step, t))
  {
    hide TurnedAway, Advance, Pre, RuntimesOk, ThreadsOk, LogOk;
    if step.Go? && step.thread == t {
      ThreadReady(s, t, valid);
      var th := s.threads[t];
      if th.pc.Done? {
        DoneStays(s, step, t, valid);
        DoneIsNotTurned(s.runtimes[th.runtime], s.last, th, step.prepared);
      } else {
        AdvanceDecides(SharedOf(s, th.runtime), th, t, step.prepared, Between(s, th.runtime) && s.publisher != Some(t), valid);
      }
    } else {
      OthersKeepThread(s, step, t, valid);
    }
  }

  lemma DoneIsNotTurned(rt: Runtime, last: nat, th: Thread, prepared: bool)
    requires th.pc.Done?
    ensures !TurnedAway(rt, last, th, prepared)
  {
  }

  ghost predicate NeverRefused(steps: seq<Step>, more: seq<Step>, t: nat, valid: Validity) {
    forall i | 0 <= i < |more| :: !Refused(Run(steps + more[..i], valid), more[i], t)
  }

  lemma NeverRefusedStep(steps: seq<Step>, more: seq<Step>, t: nat, valid: Validity)
    requires more != []
    ensures var last := |more| - 1;
            NeverRefused(steps, more, t, valid) <==>
              NeverRefused(steps, more[..last], t, valid) && !Refused(Run(steps + more[..last], valid), more[last], t)
  {
    hide Run, Refused;
    var last := |more| - 1;
    assert forall i | 0 <= i < last :: more[..last][i] == more[i] && more[..last][..i] == more[..i];
  }

  /** From any point of a call on, whatever else happens meanwhile, the call has failed exactly when one of its steps met
      what turns it away. */
  lemma {:induction false} FailsExactlyWhenRefused(steps: seq<Step>, more: seq<Step>, t: nat, valid: Validity)
    requires t in Run(steps, valid).threads && !Run(steps, valid).threads[t].pc.Done?
    ensures var s := Run(steps + more, valid);
            t in s.threads && (s.threads[t].pc == Done(false) <==> !NeverRefused(steps, more, t, valid))
    decreases |more|
  {
    hide Run, Next, Refused, Inv;
    if more == [] {
      assert steps + more == steps;
    } else {
      var last := |more| - 1;
      assert steps + more == steps + more[..last] + [more[last]];
      RunAnother(steps + more[..last], more[last], valid);
      FailsExactlyWhenRefused(steps, more[..last], t, valid);
      NeverRefusedStep(steps, more, t, valid);
      EveryRun(steps + more[..last], valid);
      hide NeverRefused;
      StepDecides(Run(steps + more[..last], valid), more[last], t, valid);
    }
  }

  /** A call is let in exactly when the gate is open, and a publication only with a valid snapshot; drains and pops look at
      the gate only later. */
  lemma EntersExactly(s: System, t: nat, r: nat, call: Call, valid: Validity)
    requires t !in s.threads && r < |s.runtimes|
    ensures var s', rt := Next(s, Start(t, r, call), valid), s.runtimes[r];
            var in_ := call.Drain? || call.Pop? || (rt.live && (call.Publish? ==> valid(call.view, rt.limits)));
            && t in s'.threads && s'.threads[t].call == call && s'.threads[t].runtime == r
            && s'.threads[t].pc == (if in_ then Entered else Done(false))
            && s'.runtimes == s.runtimes[r := if call.Close? then rt.(live := false) else rt]
  {
  }

  /** The bridge is enabled exactly with valid limits and while no runtime is live; the new runtime is open and empty, with
      queues as large as the limits say and request ids from one. */
  lemma EnablesExactly(s: System, limits: Limits, valid: Validity)
    ensures var s' := Next(s, Enable(limits), valid);
            if ValidLimits(limits) && (s.runtimes == [] || !s.runtimes[|s.runtimes| - 1].live) then
              && |s'.runtimes| == |s.runtimes| + 1 && s'.runtimes[..|s.runtimes|] == s.runtimes
              && (s'.last, s'.publisher, s'.threads, s'.committed) == (s.last, s.publisher, s.threads, s.committed)
              && var rt := s'.runtimes[|s.runtimes|];
                 && rt.live && rt.limits == limits && rt.snapshot.None? && rt.views == [] && rt.phase == 0
                 && rt.actionOwner.None? && rt.noteOwner.None?
                 && rt.actions.state == Actions.State([], limits.actionQueue, 1, 0)
                 && rt.notes.state == Notifications.NoteState([], limits.notificationQueue, false, 0)
            else s' == s
  {
    hide ValidLimits;
  }

  // ---------------------------------------------------------------- having an effect

  /** A publication that has returned successfully is part of its runtime's history. */
  lemma SuccessIsCommitted(steps: seq<Step>, t: nat, valid: Validity)
    requires var s := Run(steps, valid); t in s.threads && s.threads[t].call.Publish? && s.threads[t].pc == Done(true)
    ensures var s := Run(steps, valid);
            s.threads[t].runtime < |s.runtimes| && s.threads[t].call.view in s.runtimes[s.threads[t].runtime].views
  {
    hide Run;
    ThreadHolds(steps, t, valid);
  }

  /** The step behind the last look at the gate, for each kind of call. */
  lemma GateTakesEffect(s: System, t: nat, prepared: bool, valid: Validity)
    requires t in s.threads && s.threads[t].runtime < |s.runtimes|
    requires s.threads[t].seen.Some? || s.threads[t].call.Publish? || s.threads[t].call.Drain? || s.threads[t].call.Pop?
    ensures var th := s.threads[t];
            var s', rt := Next(s, Go(t, prepared), valid), s.runtimes[th.runtime];
            var rt', notes, actions := s'.runtimes[th.runtime], rt.notes, rt.actions;
            && (th.call.Publish? && th.pc.Confirmed? ==>
                  && s'.threads[t].pc == Stored(th.pc.before) && s'.last == th.call.view.generation
                  && rt' == rt.(snapshot := Some(th.call.view), views := rt.views + [th.call.view])
                  && s'.committed == s.committed + [Committed(th.runtime, th.call.view)])
            && (th.call.Publish? && th.pc.Stored? && rt.noteOwner.None? ==>
                  && s'.threads[t].pc == Queued
                  && rt'.notes == notes.(state := Notifications.DiffQueued(notes.state, th.pc.before, th.call.view),
                                         commits := notes.commits + [Notes.Commit(th.pc.before, th.call.view, |notes.delivered|)]))
            && (th.call.Host? && th.pc.Gate? ==>
                  rt'.notes == notes.(state := Notifications.HostInvalidated(notes.state, th.seen.value, th.call.focusGained)))
            && (th.call.Drain? && th.pc.Gate? && notes.state.queue != [] ==>
                  rt'.notes == notes.(state := Notifications.Drained(notes.state), delivered := notes.delivered + [notes.state.queue[0]]))
            && (th.call.Pop? && th.pc.Gate? && actions.state.queue != [] ==>
                  rt'.actions == actions.(state := actions.state.(queue := actions.state.queue[1..]),
                                          popped := actions.popped + [actions.state.queue[0]]))
            && (th.call.Submit? && th.pc.Gate? ==>
                  rt'.actions.state == Actions.Submitted(actions.state, th.call.request, th.seen.value.generation).0)
            && (th.call.Announce? && th.pc.Gate? ==>
                  var node := if th.call.node != 0 then th.call.node else th.seen.value.root;
                  rt'.notes.state == Notifications.Announced(notes.state, Notifications.Note(
                    Diff.LiveRegionChanged, th.seen.value.generation, node, Diff.Name, None, th.seen,
                    Some(th.call.announcement))).0)
            && (th.pc.Gate? && !th.call.Publish? && !th.call.Close? ==> s'.threads[t].pc == Done(true))
  {
    hide Actions.Submitted, Notifications.DiffQueued, Notifications.HostInvalidated, Notifications.Drained, Find;
  }

  // ---------------------------------------------------------------- possible histories

  /** Valid snapshots with strictly increasing generations and one root. */
  ghost predicate History(views: seq<View>, limits: Limits, valid: Validity) {
    && AllAccepted(views, limits, valid)
    && (forall i, j | 0 <= i < j < |views| :: views[i].generation < views[j].generation && views[i].root == views[j].root)
    && (forall i | 0 <= i < |views| :: 0 < views[i].generation)
  }

  function LastOf(views: seq<View>): nat {
    if views == [] then 0 else views[|views| - 1].generation
  }

  ghost predicate Open(s: System, limits: Limits, views: seq<View>) {
    && |s.runtimes| == 1 && s.last == LastOf(views)
    && var rt := s.runtimes[0];
       rt.limits == limits && rt.live && rt.snapshot == Latest(views) && rt.views == views && rt.noteOwner.None?
  }

  ghost predicate Idle(s: System, limits: Limits, views: seq<View>, next: nat) {
    Open(s, limits, views) && s.publisher.None? && forall t | t in s.threads :: t < next
  }

  ghost predicate Busy(s: System, limits: Limits, views: seq<View>, t: nat, v: View, pc: Pc) {
    && Open(s, limits, views) && s.publisher == (if pc.Entered? then None else Some(t)) && (forall u | u in s.threads :: u <= t)
    && t in s.threads && s.threads[t].runtime == 0 && s.threads[t].call == Publish(v) && s.threads[t].pc == pc
  }

  lemma Begins(s: System, limits: Limits, views: seq<View>, t: nat, v: View, valid: Validity)
    requires Idle(s, limits, views, t) && valid(v, limits)
    ensures Busy(Next(s, Start(t, 0, Publish(v)), valid), limits, views, t, v, Entered)
  {
  }

  lemma Checks(s: System, limits: Limits, views: seq<View>, t: nat, v: View, pc: Pc, valid: Validity)
    requires Busy(s, limits, views, t, v, pc) && LastOf(views) < v.generation
    requires views != [] ==> views[|views| - 1].root == v.root
    ensures var s' := Next(s, Go(t, true), valid);
            && (pc == Entered ==> Busy(s', limits, views, t, v, Locked))
            && (pc == Locked ==> Busy(s', limits, views, t, v, Gate))
            && (pc == Gate ==> Busy(s', limits, views, t, v, Checked(Latest(views))))
            && (pc.Checked? ==> Busy(s', limits, views, t, v, Prepared(pc.before)))
            && (pc.Prepared? ==> Busy(s', limits, views, t, v, Confirmed(pc.before)))
  {
    hide Notes.Step, Actions.Step;
  }

  lemma Commits(s: System, limits: Limits, views: seq<View>, t: nat, v: View, pc: Pc, valid: Validity)
    requires Busy(s, limits, views, t, v, pc)
    ensures var s' := Next(s, Go(t, true), valid);
            && (pc.Confirmed? ==> Busy(s', limits, views + [v], t, v, Stored(pc.before)))
            && (pc.Stored? ==> Busy(s', limits, views, t, v, Queued))
            && (pc == Queued ==> Idle(s', limits, views, t + 1))
  {
    hide Notes.Step, Actions.Step;
  }

  lemma ChecksPass(steps: seq<Step>, limits: Limits, views: seq<View>, t: nat, v: View, valid: Validity)
    requires Idle(Run(steps, valid), limits, views, t) && valid(v, limits) && LastOf(views) < v.generation
    requires views != [] ==> views[|views| - 1].root == v.root
    ensures Busy(Run(steps + [Start(t, 0, Publish(v))] + [Go(t, true)] + [Go(t, true)] + [Go(t, true)] + [Go(t, true)] + [Go(t, true)], valid),
                 limits, views, t, v, Confirmed(Latest(views)))
  {
    hide Run, Next, Busy, Idle;
    var g := [Go(t, true)];
    var a := steps + [Start(t, 0, Publish(v))];
    RunAnother(steps, Start(t, 0, Publish(v)), valid);
    Begins(Run(steps, valid), limits, views, t, v, valid);
    RunAnother(a, Go(t, true), valid);
    Checks(Run(a, valid), limits, views, t, v, Entered, valid);
    RunAnother(a + g, Go(t, true), valid);
    Checks(Run(a + g, valid), limits, views, t, v, Locked, valid);
    RunAnother(a + g + g, Go(t, true), valid);
    Checks(Run(a + g + g, valid), limits, views, t, v, Gate, valid);
    RunAnother(a + g + g + g, Go(t, true), valid);
    Checks(Run(a + g + g + g, valid), limits, views, t, v, Checked(Latest(views)), valid);
    RunAnother(a + g + g + g + g, Go(t, true), valid);
    Checks(Run(a + g + g + g + g, valid), limits, views, t, v, Prepared(Latest(views)), valid);
  }

  lemma Published(steps: seq<Step>, limits: Limits, views: seq<View>, t: nat, v: View, valid: Validity) returns (more: seq<Step>)
    requires Idle(Run(steps, valid), limits, views, t) && valid(v, limits) && LastOf(views) < v.generation
    requires views != [] ==> views[|views| - 1].root == v.root
    ensures Idle(Run(steps + more, valid), limits, views + [v], t + 1)
  {
    hide Run, Next, Busy, Idle;
    var g := [Go(t, true)];
    ChecksPass(steps, limits, views, t, v, valid);
    var a := steps + [Start(t, 0, Publish(v))] + g + g + g + g + g;
    RunAnother(a, Go(t, true), valid);
    Commits(Run(a, valid), limits, views, t, v, Confirmed(Latest(views)), valid);
    RunAnother(a + g, Go(t, true), valid);
    Commits(Run(a + g, valid), limits, views + [v], t, v, Stored(Latest(views)), valid);
    RunAnother(a + g + g, Go(t, true), valid);
    Commits(Run(a + g + g, valid), limits, views + [v], t, v, Queued, valid);
    more := [Start(t, 0, Publish(v))] + g + g + g + g + g + g + g + g;
    assert steps + more == a + g + g + g;
  }

  lemma HistoryPrefix(views: seq<View>, limits: Limits, valid: Validity)
    requires History(views, limits, valid) && views != []
    ensures var n := |views| - 1;
            && History(views[..n], limits, valid) && valid(views[n], limits) && LastOf(views[..n]) < views[n].generation
            && (n > 0 ==> views[n - 1].root == views[n].root)
  {
  }

  lemma Enabled(limits: Limits, valid: Validity)
    requires ValidLimits(limits)
    ensures Idle(Run([Enable(limits)], valid), limits, [], 0)
  {
    hide ValidLimits;
    assert [Enable(limits)][..0] == [];
  }

  lemma {:induction false} HistoryHappens(views: seq<View>, limits: Limits, valid: Validity) returns (steps: seq<Step>)
    requires ValidLimits(limits) && History(views, limits, valid)
    ensures Idle(Run(steps, valid), limits, views, |views|)
    decreases |views|
  {
    hide Run, Idle, ValidLimits, History;
    if views == [] {
      steps := [Enable(limits)];
      Enabled(limits, valid);
    } else {
      var n := |views| - 1;
      HistoryPrefix(views, limits, valid);
      var before := HistoryHappens(views[..n], limits, valid);
      var more := Published(before, limits, views[..n], n, views[n], valid);
      steps := before + more;
      assert views[..n] + [views[n]] == views;
    }
  }

  /** The first runtime of this run has these limits and has committed these snapshots. */
  ghost predicate FirstCommitted(s: System, limits: Limits, views: seq<View>) {
    s.runtimes != [] && s.runtimes[0].limits == limits && s.runtimes[0].views == views
  }

  /** The histories of snapshots that runs produce are exactly the sequences of valid snapshots with strictly increasing
      generations and one root. */
  lemma PossibleHistories(views: seq<View>, limits: Limits, valid: Validity)
    requires ValidLimits(limits)
    ensures (exists steps :: FirstCommitted(Run(steps, valid), limits, views)) <==> History(views, limits, valid)
  {
    if History(views, limits, valid) {
      var steps := HistoryHappens(views, limits, valid);
      assert FirstCommitted(Run(steps, valid), limits, views);
    }
    if steps :| FirstCommitted(Run(steps, valid), limits, views) {
      hide Run, ValidLimits;
      RuntimeHolds(steps, 0, valid);
      hide DiffsOk, NotesOk, ActionsOk, GateOk;
      assert History(views, limits, valid);
    }
  }
}
