/** Mutexes are held by calls at work and always come free: no interleaving ends in a deadlock. */
module PublicationProgress {
  import opened Options
  import opened Publication
  import opened PublicationProofs
  import opened PublicationTheorems
  import Snapshot
  import Actions
  import Notes = NotificationRuns

  predicate HoldsPublication(th: Thread) {
    match th.call
    case Publish(_) => !th.pc.Entered? && !th.pc.Done?
    case Close => !th.pc.Entered? && !th.pc.Done?
    case _ => false
  }

  predicate HoldsNotes(th: Thread) {
    match th.call
    case Host(_) => th.pc.Locked? || th.pc.Loaded? || th.pc.Gate?
    case Announce(_, _) => th.pc.Locked? || th.pc.Gate?
    case Drain => th.pc.Locked? || th.pc.Gate?
    case _ => false
  }

  predicate HoldsActions(th: Thread) {
    match th.call
    case Submit(_) => th.pc.Locked? || th.pc.Gate?
    case Pop => th.pc.Locked? || th.pc.Gate?
    case _ => false
  }

  // ---------------------------------------------------------------- who owns a mutex holds it

  ghost predicate NoteOwnerHolds(s: System, r: nat)
    requires r < |s.runtimes|
  {
    var owner := s.runtimes[r].noteOwner;
    owner.Some? ==> owner.value in s.threads && s.threads[owner.value].runtime == r && HoldsNotes(s.threads[owner.value])
  }

  ghost predicate ActionOwnerHolds(s: System, r: nat)
    requires r < |s.runtimes|
  {
    var owner := s.runtimes[r].actionOwner;
    owner.Some? ==> owner.value in s.threads && s.threads[owner.value].runtime == r && HoldsActions(s.threads[owner.value])
  }

  ghost predicate Owned(s: System) {
    && (s.publisher.Some? ==> s.publisher.value in s.threads && HoldsPublication(s.threads[s.publisher.value]))
    && forall r | 0 <= r < |s.runtimes| :: NoteOwnerHolds(s, r) && ActionOwnerHolds(s, r)
  }

  /** A step takes a mutex only for its own call, and keeps one only while the call still needs it. */
  ghost predicate OwnsRightly(a: Shared, th: Thread, t: nat, e: Effect) {
    var b, th' := e.shared, After(a, th, e);
    && (b.publisher == a.publisher || b.publisher.None? || b.publisher == Some(t))
    && (b.rt.noteOwner == a.rt.noteOwner || b.rt.noteOwner.None? || b.rt.noteOwner == Some(t))
    && (b.rt.actionOwner == a.rt.actionOwner || b.rt.actionOwner.None? || b.rt.actionOwner == Some(t))
    && (b.publisher == Some(t) ==> HoldsPublication(th'))
    && (b.rt.noteOwner == Some(t) ==> HoldsNotes(th'))
    && (b.rt.actionOwner == Some(t) ==> HoldsActions(th'))
  }

  ghost predicate OwnsOnly(a: Shared, th: Thread, t: nat) {
    && (a.publisher == Some(t) ==> HoldsPublication(th))
    && (a.rt.noteOwner == Some(t) ==> HoldsNotes(th))
    && (a.rt.actionOwner == Some(t) ==> HoldsActions(th))
  }

  lemma PublicationCallOwns(a: Shared, th: Thread, t: nat, prepared: bool)
    requires OwnsOnly(a, th, t) && (th.call.Publish? || th.call.Close?)
    ensures OwnsRightly(a, th, t, Advance(a, th, t, prepared))
  {
    hide Notes.Step, Actions.Step, Snapshot.Find;
  }

  lemma NoteCallOwns(a: Shared, th: Thread, t: nat, prepared: bool)
    requires OwnsOnly(a, th, t) && (th.call.Host? || th.call.Announce? || th.call.Drain?)
    ensures OwnsRightly(a, th, t, Advance(a, th, t, prepared))
  {
    hide Notes.Step, Actions.Step, Snapshot.Find;
  }

  lemma ActionCallOwns(a: Shared, th: Thread, t: nat, prepared: bool)
    requires OwnsOnly(a, th, t) && (th.call.Submit? || th.call.Pop?)
    ensures OwnsRightly(a, th, t, Advance(a, th, t, prepared))
  {
    hide Notes.Step, Actions.Step, Snapshot.Find;
  }

  lemma AdvanceOwns(a: Shared, th: Thread, t: nat, prepared: bool)
    requires OwnsOnly(a, th, t)
    ensures OwnsRightly(a, th, t, Advance(a, th, t, prepared))
  {
    hide Advance, OwnsOnly, OwnsRightly;
    if th.call.Publish? || th.call.Close? {
      PublicationCallOwns(a, th, t, prepared);
    } else if th.call.Submit? || th.call.Pop? {
      ActionCallOwns(a, th, t, prepared);
    } else {
      NoteCallOwns(a, th, t, prepared);
    }
  }

  lemma EnterOwns(a: Shared, th: Thread, t: nat, valid: Validity)
    requires a.publisher != Some(t) && a.rt.noteOwner != Some(t) && a.rt.actionOwner != Some(t)
    ensures OwnsRightly(a, th, t, Enter(a, th, valid))
  {
  }

  lemma ApplyOwns(s: System, t: nat, th: Thread, e: Effect)
    requires Owned(s) && th.runtime < |s.runtimes| && OwnsRightly(SharedOf(s, th.runtime), th, t, e)
    requires t in s.threads ==> s.threads[t].runtime == th.runtime
    ensures Owned(Apply(s, t, th, e))
  {
    hide HoldsPublication, HoldsNotes, HoldsActions;
    var s' := Apply(s, t, th, e);
    assert s'.threads[t] == After(SharedOf(s, th.runtime), th, e);
    forall r | 0 <= r < |s'.runtimes|
      ensures NoteOwnerHolds(s', r) && ActionOwnerHolds(s', r)
    {
      assert NoteOwnerHolds(s, r) && ActionOwnerHolds(s, r);
    }
  }

  lemma StepOwns(s: System, step: Step, valid: Validity)
    requires Owned(s) && forall t | t in s.threads :: s.threads[t].runtime < |s.runtimes|
    ensures Owned(Next(s, step, valid))
  {
    hide Advance, Enter, OwnsRightly, Apply, HoldsPublication, HoldsNotes, HoldsActions, Snapshot.ValidLimits;
    match step
    case Enable(limits) => EnableOwns(s, limits, valid);
    case Start(t, r, call) =>
      if t !in s.threads && r < |s.runtimes| {
        var th := Thread(r, call, Entered, None, false);
        assert NoteOwnerHolds(s, r) && ActionOwnerHolds(s, r);
        EnterOwns(SharedOf(s, r), th, t, valid);
        ApplyOwns(s, t, th, Enter(SharedOf(s, r), th, valid));
      }
    case Go(t, prepared) =>
      if t in s.threads {
        var th := s.threads[t];
        assert NoteOwnerHolds(s, th.runtime) && ActionOwnerHolds(s, th.runtime);
        AdvanceOwns(SharedOf(s, th.runtime), th, t, prepared);
        ApplyOwns(s, t, th, Advance(SharedOf(s, th.runtime), th, t, prepared));
      }
  }

  lemma EnableOwns(s: System, limits: Snapshot.Limits, valid: Validity)
    requires Owned(s)
    ensures Owned(Next(s, Enable(limits), valid))
  {
    hide HoldsPublication, HoldsNotes, HoldsActions, Snapshot.ValidLimits;
    var s' := Next(s, Enable(limits), valid);
    forall r | 0 <= r < |s'.runtimes|
      ensures NoteOwnerHolds(s', r) && ActionOwnerHolds(s', r)
    {
      if r < |s.runtimes| {
        assert NoteOwnerHolds(s, r) && ActionOwnerHolds(s, r);
      }
    }
  }

  lemma ThreadsInRange(s: System, valid: Validity)
    requires ThreadsOk(s, valid)
    ensures forall t | t in s.threads :: s.threads[t].runtime < |s.runtimes|
  {
    hide ThreadInv;
    forall t | t in s.threads
      ensures s.threads[t].runtime < |s.runtimes|
    {
      assert ThreadOk(s, t, valid);
    }
  }

  /** In every reachable state, whoever owns a mutex is a call at a place where it holds that mutex. */
  lemma {:induction false} OwnersHold(steps: seq<Step>, valid: Validity)
    ensures Owned(Run(steps, valid))
    decreases |steps|
  {
    if steps != [] {
      hide Next, Owned, RuntimesOk, ThreadsOk, LogOk;
      var last := |steps| - 1;
      OwnersHold(steps[..last], valid);
      EveryRun(steps[..last], valid);
      ThreadsInRange(Run(steps[..last], valid), valid);
      StepOwns(Run(steps[..last], valid), steps[last], valid);
    }
  }

  // ---------------------------------------------------------------- every step is progress or waiting

  /** How many steps a call has still to make at most. */
  function Remaining(th: Thread): nat {
    match th.call
    case Publish(_) =>
      (match th.pc
       case Entered => 8 case Locked => 7 case Gate => 6 case Checked(_) => 5 case Prepared(_) => 4
       case Confirmed(_) => 3 case Stored(_) => 2 case Queued => 1 case _ => 0)
    case Close =>
      (match th.pc
       case Entered => 5 case Locked => 4 case Withdrawn => 3 case ActionsCleared => 2 case NotesCleared => 1 case _ => 0)
    case Host(_) => (match th.pc case Entered => 4 case Locked => 3 case Loaded => 2 case Gate => 1 case _ => 0)
    case _ => (match th.pc case Entered => 4 case Loaded => 3 case Locked => 2 case Gate => 1 case _ => 0)
  }

  /** The mutex that a call waits for is taken. */
  predicate Waits(a: Shared, th: Thread) {
    match th.call
    case Publish(_) => (th.pc.Entered? && a.publisher.Some?) || (th.pc.Stored? && a.rt.noteOwner.Some?)
    case Close =>
      || (th.pc.Entered? && a.publisher.Some?) || (th.pc.Withdrawn? && a.rt.actionOwner.Some?)
      || (th.pc.ActionsCleared? && a.rt.noteOwner.Some?)
    case Host(_) => th.pc.Entered? && a.rt.noteOwner.Some?
    case Announce(_, _) => th.pc.Loaded? && a.rt.noteOwner.Some?
    case Drain => th.pc.Entered? && a.rt.noteOwner.Some?
    case Submit(_) => th.pc.Loaded? && a.rt.actionOwner.Some?
    case Pop => th.pc.Entered? && a.rt.actionOwner.Some?
  }

  /** A call that is not finished and does not wait comes closer to its end with every step; any other step of a call
      changes nothing. */
  lemma AdvanceDescends(a: Shared, th: Thread, t: nat, prepared: bool)
    requires Shape(th)
    ensures var e := Advance(a, th, t, prepared);
            if th.pc.Done? || Waits(a, th) then e == Stay(a, th, th.pc)
            else Remaining(After(a, th, e)) < Remaining(th)
  {
    hide Notes.Step, Actions.Step, Snapshot.Find;
  }

  /** The call can make a step. */
  ghost predicate CanMove(s: System, t: nat) {
    && t in s.threads && s.threads[t].runtime < |s.runtimes| && !s.threads[t].pc.Done?
    && !Waits(SharedOf(s, s.threads[t].runtime), s.threads[t])
  }

  ghost predicate Unfinished(s: System, t: nat) {
    t in s.threads && !s.threads[t].pc.Done?
  }

  /** A holder of a queue's mutex never waits. */
  lemma QueueHolderMoves(s: System, t: nat)
    requires t in s.threads && s.threads[t].runtime < |s.runtimes| && (HoldsNotes(s.threads[t]) || HoldsActions(s.threads[t]))
    ensures CanMove(s, t)
  {
  }

  /** A holder of the publication mutex waits only for the holder of a queue's mutex. */
  lemma PublisherMovesOrWaits(s: System, t: nat)
    requires Owned(s) && t in s.threads && s.threads[t].runtime < |s.runtimes| && HoldsPublication(s.threads[t])
    ensures exists u :: CanMove(s, u)
  {
    var r := s.threads[t].runtime;
    assert NoteOwnerHolds(s, r) && ActionOwnerHolds(s, r);
    hide HoldsNotes, HoldsActions;
    var rt := s.runtimes[r];
    if Waits(SharedOf(s, r), s.threads[t]) {
      var u := if s.threads[t].pc.Withdrawn? then rt.actionOwner.value else rt.noteOwner.value;
      QueueHolderMoves(s, u);
    } else {
      assert CanMove(s, t);
    }
  }

  lemma SomeoneMoves(s: System, t: nat)
    requires Owned(s) && Unfinished(s, t) && forall u | u in s.threads :: s.threads[u].runtime < |s.runtimes|
    ensures exists u :: CanMove(s, u)
  {
    var r := s.threads[t].runtime;
    assert NoteOwnerHolds(s, r) && ActionOwnerHolds(s, r);
    hide HoldsPublication, HoldsNotes, HoldsActions;
    var th, rt := s.threads[t], s.runtimes[r];
    if !Waits(SharedOf(s, r), th) {
      assert CanMove(s, t);
    } else if (th.call.Publish? || th.call.Close?) && th.pc.Entered? {
      PublisherMovesOrWaits(s, s.publisher.value);
    } else if th.call.Submit? || th.call.Pop? || th.pc.Withdrawn? {
      QueueHolderMoves(s, rt.actionOwner.value);
    } else {
      QueueHolderMoves(s, rt.noteOwner.value);
    }
  }

  /** No deadlock: in every reachable state with an unfinished call, some call can make a step. */
  lemma NoDeadlock(steps: seq<Step>, t: nat, valid: Validity)
    requires Unfinished(Run(steps, valid), t)
    ensures exists u :: CanMove(Run(steps, valid), u)
  {
    hide Run, Owned, Unfinished, CanMove, RuntimesOk, ThreadsOk, LogOk;
    OwnersHold(steps, valid);
    EveryRun(steps, valid);
    ThreadsInRange(Run(steps, valid), valid);
    SomeoneMoves(Run(steps, valid), t);
  }

  // ---------------------------------------------------------------- all calls can finish

  /** What is left to do for the threads numbered below `n`. */
  function Work(threads: map<nat, Thread>, n: nat): nat {
    if n == 0 then 0 else Work(threads, n - 1) + if n - 1 in threads then Remaining(threads[n - 1]) else 0
  }

  lemma {:induction false} WorkDrops(threads: map<nat, Thread>, n: nat, t: nat, th: Thread)
    requires t in threads
    ensures Work(threads[t := th], n) == Work(threads, n) - (if t < n then Remaining(threads[t]) - Remaining(th) else 0)
    decreases n
  {
    hide Remaining;
    if n > 0 {
      WorkDrops(threads, n - 1, t, th);
    }
  }

  ghost predicate Below(threads: map<nat, Thread>, n: nat) {
    forall t | t in threads :: t < n
  }

  ghost predicate AllDone(s: System) {
    forall t | t in s.threads :: s.threads[t].pc.Done?
  }

  /** A step of a call that can move leaves less work, and no step of any call makes more. */
  lemma GoDescends(s: System, t: nat, prepared: bool, n: nat, valid: Validity)
    requires ThreadsOk(s, valid) && Below(s.threads, n)
    ensures var s' := Next(s, Go(t, prepared), valid);
            && Below(s'.threads, n) && Work(s'.threads, n) <= Work(s.threads, n)
            && (CanMove(s, t) ==> Work(s'.threads, n) < Work(s.threads, n))
  {
    hide Advance, Work, Remaining, Waits, PublishInv, CloseInv, HostInv, NoteInv, ActionInv;
    if t in s.threads {
      assert ThreadOk(s, t, valid);
      var th := s.threads[t];
      var a := SharedOf(s, th.runtime);
      AdvanceDescends(a, th, t, prepared);
      WorkDrops(s.threads, n, t, After(a, th, Advance(a, th, t, prepared)));
    }
  }

  lemma {:induction false} FinishFrom(steps: seq<Step>, n: nat, valid: Validity) returns (more: seq<Step>)
    requires Below(Run(steps, valid).threads, n)
    ensures forall i | 0 <= i < |more| :: more[i].Go?
    ensures AllDone(Run(steps + more, valid))
    decreases Work(Run(steps, valid).threads, n)
  {
    hide Work, Next, CanMove, RuntimesOk, ThreadsOk, LogOk;
    var s := Run(steps, valid);
    if AllDone(s) {
      assert steps + [] == steps;
      return [];
    }
    var t :| t in s.threads && !s.threads[t].pc.Done?;
    NoDeadlock(steps, t, valid);
    var u :| CanMove(s, u);
    EveryRun(steps, valid);
    GoDescends(s, u, true, n, valid);
    var next := steps + [Go(u, true)];
    assert next[..|steps|] == steps;
    assert Run(next, valid) == Next(s, Go(u, true), valid);
    hide Run, AllDone;
    var rest := FinishFrom(next, n, valid);
    more := [Go(u, true)] + rest;
    assert steps + more == next + rest;
  }

  lemma {:induction false} SomeBound(keys: set<nat>) returns (n: nat)
    ensures forall k | k in keys :: k < n
    decreases |keys|
  {
    if keys == {} {
      return 0;
    }
    var k :| k in keys;
    var m := SomeBound(keys - {k});
    n := if m > k then m else k + 1;
    forall j | j in keys
      ensures j < n
    {
      assert j == k || j in keys - {k};
    }
  }

  /** From every reachable state the calls that are under way can all be brought to their end, with no new call and no
      call given up, and then every mutex is free. */
  lemma EveryCallCanFinish(steps: seq<Step>, valid: Validity) returns (more: seq<Step>)
    ensures forall i | 0 <= i < |more| :: more[i].Go?
    ensures AllDone(Run(steps + more, valid)) && AllFree(Run(steps + more, valid))
  {
    hide Run, AllDone, AllFree;
    var n := SomeBound(Run(steps, valid).threads.Keys);
    more := FinishFrom(steps, n, valid);
    OwnersHold(steps + more, valid);
    DoneIsFree(Run(steps + more, valid));
  }

  ghost predicate AllFree(s: System) {
    s.publisher.None? && forall r | 0 <= r < |s.runtimes| :: s.runtimes[r].noteOwner.None? && s.runtimes[r].actionOwner.None?
  }

  lemma DoneIsFree(s: System)
    requires Owned(s) && AllDone(s)
    ensures AllFree(s)
  {
    forall r | 0 <= r < |s.runtimes|
      ensures s.runtimes[r].noteOwner.None? && s.runtimes[r].actionOwner.None?
    {
      assert NoteOwnerHolds(s, r) && ActionOwnerHolds(s, r);
    }
  }
}
