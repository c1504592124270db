/** Why every interleaving keeps the invariant: each step is examined on its own runtime, and every other thread relies
    on what no step may do to it. */
module PublicationProofs {
  import opened Options
  import opened Snapshot
  import opened Publication
  import Diff
  import Notifications
  import Actions
  import Notes = NotificationRuns

  // ---------------------------------------------------------------- what a step does to others

  /** What every other thread `u` may rely on when a thread steps from `a` to `b`. */
  ghost predicate Rely(a: Shared, b: Shared, u: nat) {
    && b.rt.limits == a.rt.limits && (!a.rt.live ==> !b.rt.live) && a.rt.phase <= b.rt.phase && a.rt.views <= b.rt.views
    && (a.publisher == Some(u) ==>
          && b.publisher == a.publisher && b.last == a.last && b.rt.views == a.rt.views && b.rt.phase == a.rt.phase
          && b.rt.notes.commits == a.rt.notes.commits)
    && (a.rt.noteOwner == Some(u) ==> b.rt.noteOwner == Some(u) && b.rt.notes == a.rt.notes && (a.rt.phase < 3 ==> b.rt.phase < 3))
    && (a.rt.actionOwner == Some(u) ==> b.rt.actionOwner == Some(u) && (a.rt.phase < 2 ==> b.rt.phase < 2))
  }

  lemma RelyKeepsThread(a: Shared, b: Shared, th: Thread, u: nat, valid: Validity)
    requires ThreadInv(a, th, u, valid) && Rely(a, b, u)
    ensures ThreadInv(b, th, u, valid)
  {
  }

  // ---------------------------------------------------------------- one step, seen from its own runtime

  function After(s: Shared, th: Thread, e: Effect): Thread {
    Thread(th.runtime, th.call, e.pc, e.seen, th.changed || Changed(s, e.shared))
  }

  /** `other` tells that a publisher other than `t` stands between its store and its diff. */
  ghost predicate Pre(s: Shared, th: Thread, t: nat, other: bool, valid: Validity) {
    && ThreadInv(s, th, t, valid) && RuntimeInv(s.rt, other || Storing(th), s.last, valid)
    && (other ==> s.publisher.Some? && s.publisher != Some(t))
  }

  /** The only way in which committed snapshots change. */
  ghost predicate Grows(s: Shared, b: Shared) {
    || (b.rt.views == s.rt.views && b.last == s.last)
    || (exists v: View :: b.rt.views == s.rt.views + [v] && s.last < v.generation == b.last)
  }

  ghost predicate Post(s: Shared, th: Thread, t: nat, e: Effect, other: bool, valid: Validity) {
    var th', b := After(s, th, e), e.shared;
    && ThreadInv(b, th', t, valid) && RuntimeInv(b.rt, other || Storing(th'), b.last, valid)
    && (forall u | u != t :: Rely(s, b, u))
    && (s.publisher.Some? && s.publisher != Some(t) ==> b.publisher == s.publisher && b.last == s.last)
    && (b.publisher == s.publisher || b.publisher.None? || b.publisher == Some(t))
    && Grows(s, b)
  }

  lemma StaysPut(s: Shared, th: Thread, t: nat, pc: Pc, other: bool, valid: Validity)
    requires Pre(s, th, t, other, valid) && ThreadInv(s, th.(pc := pc), t, valid) && Storing(th) == Storing(th.(pc := pc))
    ensures Post(s, th, t, Stay(s, th, pc), other, valid)
  {
    hide ThreadInv, RuntimeInv;
    assert After(s, th, Stay(s, th, pc)) == th.(pc := pc);
  }

  lemma ViewsGrow(views: seq<View>, limits: Limits, last: nat, valid: Validity, v: View)
    requires ViewsOk(views, limits, last, valid) && valid(v, limits) && last < v.generation
    requires views != [] ==> views[|views| - 1].root == v.root
    ensures ViewsOk(views + [v], limits, v.generation, valid)
  {
  }

  lemma DiffsWait(commits: seq<Notes.Commit>, views: seq<View>, v: View)
    requires DiffsOk(commits, views, false)
    ensures DiffsOk(commits, views + [v], true) && |commits| == |views|
  {
    forall i | 0 <= i < |commits|
      ensures commits[i].after == (views + [v])[i] && commits[i].before == Latest((views + [v])[..i])
    {
      assert (views + [v])[..i] == views[..i];
    }
  }

  lemma NotesStayBehind(l: Notes.Ledger, phase: nat, views: seq<View>, v: View, limits: Limits, last: nat, valid: Validity)
    requires NotesOk(l, phase, Latest(views)) && ViewsOk(views, limits, last, valid) && last < v.generation
    ensures NotesOk(l, phase, Latest(views + [v]))
  {
    hide Notes.Inv;
  }

  lemma ConfirmedStores(s: Shared, th: Thread, t: nat, prepared: bool, valid: Validity)
    requires Pre(s, th, t, false, valid) && th.call.Publish? && th.pc.Confirmed?
    ensures Post(s, th, t, PublishStep(s, th, t, prepared), false, valid)
  {
    hide ViewsOk, DiffsOk, NotesOk, ActionsOk;
    var e, view, views := PublishStep(s, th, t, prepared), th.call.view, s.rt.views;
    ViewsGrow(views, s.rt.limits, s.last, valid, view);
    DiffsWait(s.rt.notes.commits, views, view);
    NotesStayBehind(s.rt.notes, s.rt.phase, views, view, s.rt.limits, s.last, valid);
    var b := Shared(s.rt.(snapshot := Some(view), views := views + [view]), s.publisher, view.generation);
    assert RuntimeInv(b.rt, true, b.last, valid) by {
      hide ThreadInv, PublishInv, Rely;
    }
    assert ThreadInv(b, After(s, th, e), t, valid) by {
      hide RuntimeInv, Rely;
      assert (views + [view])[..|views|] == views;
    }
    hide RuntimeInv, ThreadInv;
    forall u | u != t
      ensures Rely(s, b, u)
    {
  }
  }

  /** Taking or releasing the publication mutex disturbs nobody. */
  lemma PublisherMoves(s: Shared, th: Thread, t: nat, owner: Option<nat>, pc: Pc, other: bool, valid: Validity)
    requires Pre(s, th, t, other, valid) && (s.publisher.None? || s.publisher == Some(t)) && (owner.None? || owner == Some(t))
    requires ThreadInv(s.(publisher := owner), th.(pc := pc), t, valid) && Storing(th) == Storing(th.(pc := pc))
    ensures Post(s, th, t, Effect(s.(publisher := owner), pc, th.seen), other, valid)
  {
    hide ThreadInv, RuntimeInv;
    assert After(s, th, Effect(s.(publisher := owner), pc, th.seen)) == th.(pc := pc);
  }

  lemma DiffsCatchUp(commits: seq<Notes.Commit>, views: seq<View>, c: Notes.Commit)
    requires DiffsOk(commits, views, true) && c.after == views[|views| - 1] && c.before == Latest(views[..|views| - 1])
    ensures DiffsOk(commits + [c], views, false)
  {
  }

  /** No committed snapshot that has been diffed is newer than the latest one. */
  lemma LatestReaches(commits: seq<Notes.Commit>, views: seq<View>, between: bool, limits: Limits, last: nat, valid: Validity)
    requires DiffsOk(commits, views, between) && ViewsOk(views, limits, last, valid) && views != []
    ensures Notes.Reaches(commits, views[|views| - 1].generation)
  {
    forall i | 0 <= i < |commits|
      ensures commits[i].after.generation <= views[|views| - 1].generation
    {
      assert commits[i].after == views[i];
    }
  }

  lemma NotesDiffed(l: Notes.Ledger, phase: nat, latest: View, before: Option<View>)
    requires NotesOk(l, phase, Some(latest)) && Notes.Reaches(l.commits, latest.generation) && phase < 3
    ensures NotesOk(Notes.Step(l, Notes.QueueDiff(before, latest)), phase, Some(latest))
  {
    Notes.DiffKeepsInv(l, before, latest);
    hide Notes.Inv, Notes.OneMarker, Notifications.DiffQueued;
  }

  lemma StoredQueues(s: Shared, th: Thread, t: nat, prepared: bool, valid: Validity)
    requires Pre(s, th, t, false, valid) && th.call.Publish? && th.pc.Stored? && s.rt.noteOwner.None?
    ensures Post(s, th, t, PublishStep(s, th, t, prepared), false, valid)
  {
    hide ViewsOk, DiffsOk, NotesOk, ActionsOk;
    var view, views, before, l := th.call.view, s.rt.views, th.pc.before, s.rt.notes;
    LatestReaches(l.commits, views, true, s.rt.limits, s.last, valid);
    NotesDiffed(l, s.rt.phase, view, before);
    DiffsCatchUp(l.commits, views, Notes.Commit(before, view, |l.delivered|));
    var notes := Notes.Step(l, Notes.QueueDiff(before, view));
    assert notes.commits == l.commits + [Notes.Commit(before, view, |l.delivered|)];
    hide Notes.Step;
    var b := s.(rt := s.rt.(notes := notes));
    assert RuntimeInv(b.rt, false, b.last, valid) by {
      hide ThreadInv, PublishInv, Rely;
    }
    assert ThreadInv(b, After(s, th, PublishStep(s, th, t, prepared)), t, valid) by {
      hide RuntimeInv, Rely;
    }
    hide RuntimeInv, ThreadInv;
    forall u | u != t
      ensures Rely(s, b, u)
    {
  }
  }

  lemma PublishLocal(s: Shared, th: Thread, t: nat, prepared: bool, other: bool, valid: Validity)
    requires Pre(s, th, t, other, valid) && th.call.Publish?
    ensures Post(s, th, t, PublishStep(s, th, t, prepared), other, valid)
  {
    hide ViewsOk, DiffsOk, NotesOk, ActionsOk, Post;
    var e := PublishStep(s, th, t, prepared);
    if th.pc.Confirmed? {
      ConfirmedStores(s, th, t, prepared, valid);
    } else if th.pc.Stored? && s.rt.noteOwner.None? {
      StoredQueues(s, th, t, prepared, valid);
    } else if e.shared == s {
      StaysPut(s, th, t, e.pc, other, valid);
    } else {
      PublisherMoves(s, th, t, e.shared.publisher, e.pc, other, valid);
    }
  }

  // ---------------------------------------------------------------- the closer

  lemma PhaseRises(a: Actions.Ledger, n: Notes.Ledger, phase: nat, latest: Option<View>)
    requires ActionsOk(a, phase) && NotesOk(n, phase, latest)
    ensures ActionsOk(a, Maximum(phase, 1)) && NotesOk(n, Maximum(phase, 1), latest) && NotesOk(n, Maximum(phase, 2), latest)
    ensures ActionsOk(Actions.Step(a, Actions.Clear), Maximum(phase, 2))
    ensures NotesOk(Notes.Step(n, Notes.Clear), Maximum(phase, 3), latest)
    ensures Notes.Step(n, Notes.Clear).commits == n.commits
    ensures phase >= 2 ==> ActionsOk(a, Maximum(phase, 3))
  {
    Actions.ClearKeepsInv(a);
    Notes.ClearKeepsInv(n);
    hide Actions.Inv, Notes.Inv, Notes.OneMarker;
  }

  /** The state after one of the closer's three clearing steps. */
  ghost function Clearing(s: Shared, pc: Pc): Shared {
    if pc.Locked? then s.(rt := SetPhase(s.rt.(snapshot := None), 1))
    else if pc.Withdrawn? then s.(rt := SetPhase(s.rt.(actions := Actions.Step(s.rt.actions, Actions.Clear)), 2))
    else s.(rt := SetPhase(s.rt.(notes := Notes.Step(s.rt.notes, Notes.Clear)), 3))
  }

  lemma ClearingKeepsRuntime(s: Shared, th: Thread, t: nat, valid: Validity)
    requires Pre(s, th, t, false, valid) && th.call.Close? && (th.pc.Locked? || th.pc.Withdrawn? || th.pc.ActionsCleared?)
    ensures RuntimeInv(Clearing(s, th.pc).rt, false, s.last, valid)
  {
    hide ViewsOk, DiffsOk, NotesOk, ActionsOk;
    PhaseRises(s.rt.actions, s.rt.notes, s.rt.phase, Latest(s.rt.views));
    hide Actions.Step, Notes.Step;
  }

  lemma ClearingIsQuiet(s: Shared, th: Thread, t: nat, u: nat)
    requires CloseInv(s, th, t) && u != t && Notes.Step(s.rt.notes, Notes.Clear).commits == s.rt.notes.commits
    requires th.pc.Locked? || (th.pc.Withdrawn? && s.rt.actionOwner.None?) || (th.pc.ActionsCleared? && s.rt.noteOwner.None?)
    ensures Rely(s, Clearing(s, th.pc), u)
  {
    hide Actions.Step, Notes.Step;
  }

  lemma CloserClears(s: Shared, th: Thread, t: nat, valid: Validity)
    requires Pre(s, th, t, false, valid) && th.call.Close?
    requires th.pc.Locked? || (th.pc.Withdrawn? && s.rt.actionOwner.None?) || (th.pc.ActionsCleared? && s.rt.noteOwner.None?)
    ensures Post(s, th, t, CloseStep(s, th, t), false, valid)
  {
    hide ViewsOk, DiffsOk, NotesOk, ActionsOk;
    var e, b := CloseStep(s, th, t), Clearing(s, th.pc);
    assert Notes.Step(s.rt.notes, Notes.Clear).commits == s.rt.notes.commits;
    hide Actions.Step, Notes.Step;
    assert e.shared == b;
    assert ThreadInv(b, After(s, th, e), t, valid) by {
      hide RuntimeInv, Rely;
    }
    ClearingKeepsRuntime(s, th, t, valid);
    hide RuntimeInv, ThreadInv;
    forall u | u != t
      ensures Rely(s, b, u)
    {
      ClearingIsQuiet(s, th, t, u);
    }
  }

  lemma CloseLocal(s: Shared, th: Thread, t: nat, other: bool, valid: Validity)
    requires Pre(s, th, t, other, valid) && th.call.Close?
    ensures Post(s, th, t, CloseStep(s, th, t), other, valid)
  {
    hide ViewsOk, DiffsOk, NotesOk, ActionsOk, Post, Actions.Step, Notes.Step, SetPhase;
    var e := CloseStep(s, th, t);
    if th.pc.Locked? || (th.pc.Withdrawn? && s.rt.actionOwner.None?) || (th.pc.ActionsCleared? && s.rt.noteOwner.None?) {
      CloserClears(s, th, t, valid);
    } else if e.shared == s {
      StaysPut(s, th, t, e.pc, other, valid);
    } else {
      PublisherMoves(s, th, t, e.shared.publisher, e.pc, other, valid);
    }
  }

  // ---------------------------------------------------------------- users of the notification mutex

  /** Steps that touch only the notification queue and its mutex. */
  function NotesSet(s: Shared, owner: Option<nat>, notes: Notes.Ledger): Shared {
    s.(rt := s.rt.(noteOwner := owner, notes := notes))
  }

  lemma NotesMove(
    s: Shared, th: Thread, t: nat, owner: Option<nat>, notes: Notes.Ledger, pc: Pc, other: bool, valid: Validity)
    requires Pre(s, th, t, other, valid) && !th.call.Publish? && !th.call.Close?
    requires (s.rt.noteOwner.None? || s.rt.noteOwner == Some(t)) && (owner.None? || owner == Some(t))
    requires notes.commits == s.rt.notes.commits && NotesOk(notes, s.rt.phase, Latest(s.rt.views))
    requires ThreadInv(NotesSet(s, owner, notes), After(s, th, Effect(NotesSet(s, owner, notes), pc, th.seen)), t, valid)
    ensures Post(s, th, t, Effect(NotesSet(s, owner, notes), pc, th.seen), other, valid)
  {
    hide ViewsOk, DiffsOk, NotesOk, ActionsOk, ThreadInv;
  }

  /** Loading the snapshot changes only what the thread knows. */
  lemma SnapshotLoaded(s: Shared, th: Thread, t: nat, other: bool, valid: Validity)
    requires Pre(s, th, t, other, valid) && !th.call.Publish?
    requires ThreadInv(s, th.(pc := Loaded, seen := s.rt.snapshot), t, valid)
    ensures Post(s, th, t, Effect(s, Loaded, s.rt.snapshot), other, valid)
  {
    hide ThreadInv, RuntimeInv;
    assert After(s, th, Effect(s, Loaded, s.rt.snapshot)) == th.(pc := Loaded, seen := s.rt.snapshot);
  }

  lemma NoneNewerThanLatest(views: seq<View>, limits: Limits, last: nat, valid: Validity, v: View)
    requires ViewsOk(views, limits, last, valid) && v in views
    ensures v.generation <= views[|views| - 1].generation
  {
    hide AllAccepted;
  }

  lemma NotesHosted(l: Notes.Ledger, phase: nat, latest: View, v: View, focusGained: bool)
    requires NotesOk(l, phase, Some(latest)) && phase < 3 && Notes.Reaches(l.commits, v.generation)
    requires v.generation <= latest.generation
    ensures NotesOk(Notes.Step(l, Notes.Host(v, focusGained)), phase, Some(latest))
    ensures Notes.Step(l, Notes.Host(v, focusGained)).commits == l.commits
  {
    Notes.HostKeepsInv(l, v, focusGained);
    hide Notes.Inv, Notes.OneMarker, Notifications.HostInvalidated;
  }

  lemma HostLocal(s: Shared, th: Thread, t: nat, other: bool, valid: Validity)
    requires Pre(s, th, t, other, valid) && th.call.Host?
    ensures Post(s, th, t, HostStep(s, th, t), other, valid)
  {
    hide ViewsOk, DiffsOk, NotesOk, ActionsOk, Post, Notes.Step, Notes.Reaches;
    var e := HostStep(s, th, t);
    if th.pc.Gate? {
      var l := Notes.Step(s.rt.notes, Notes.Host(th.seen.value, th.call.focusGained));
      NoneNewerThanLatest(s.rt.views, s.rt.limits, s.last, valid, th.seen.value);
      NotesHosted(s.rt.notes, s.rt.phase, s.rt.views[|s.rt.views| - 1], th.seen.value, th.call.focusGained);
      NotesMove(s, th, t, None, l, Done(true), other, valid);
    } else if th.pc.Locked? && s.rt.snapshot.Some? {
      LatestReaches(s.rt.notes.commits, s.rt.views, other || Storing(th), s.rt.limits, s.last, valid);
      SnapshotLoaded(s, th, t, other, valid);
    } else if e.shared == s {
      StaysPut(s, th, t, e.pc, other, valid);
    } else {
      NotesMove(s, th, t, e.shared.rt.noteOwner, s.rt.notes, e.pc, other, valid);
    }
  }

  lemma NotesAnnounced(l: Notes.Ledger, phase: nat, latest: Option<View>, op: Notes.Op)
    requires NotesOk(l, phase, latest) && phase < 3 && (op.Drain? || (op.Announce? && op.note.kind == Diff.LiveRegionChanged))
    ensures NotesOk(Notes.Step(l, op), phase, latest) && Notes.Step(l, op).commits == l.commits
  {
    if op.Drain? {
      Notes.DrainKeepsInv(l);
    } else {
      Notes.AnnounceKeepsInv(l, op.note);
    }
    hide Notes.Inv, Notes.OneMarker;
  }

  lemma AnnounceLocal(s: Shared, th: Thread, t: nat, other: bool, valid: Validity)
    requires Pre(s, th, t, other, valid) && th.call.Announce?
    ensures Post(s, th, t, AnnounceStep(s, th, t), other, valid)
  {
    hide ViewsOk, DiffsOk, NotesOk, ActionsOk, Post, Notes.Step, Find;
    var e := AnnounceStep(s, th, t);
    if th.pc.Gate? && th.seen.Some? {
      var v := th.seen.value;
      var note := Notifications.Announcing(v, th.call.node, th.call.announcement);
      NotesAnnounced(s.rt.notes, s.rt.phase, Latest(s.rt.views), Notes.Announce(note));
      NotesMove(s, th, t, None, Notes.Step(s.rt.notes, Notes.Announce(note)), Done(true), other, valid);
    } else if th.pc.Entered? && e.pc.Loaded? {
      SnapshotLoaded(s, th, t, other, valid);
    } else if e.shared == s {
      StaysPut(s, th, t, e.pc, other, valid);
    } else {
      NotesMove(s, th, t, e.shared.rt.noteOwner, s.rt.notes, e.pc, other, valid);
    }
  }

  lemma DrainLocal(s: Shared, th: Thread, t: nat, other: bool, valid: Validity)
    requires Pre(s, th, t, other, valid) && th.call.Drain?
    ensures Post(s, th, t, DrainStep(s, th, t), other, valid)
  {
    hide ViewsOk, DiffsOk, NotesOk, ActionsOk, Post, Notes.Step;
    var e := DrainStep(s, th, t);
    if th.pc.Gate? {
      NotesAnnounced(s.rt.notes, s.rt.phase, Latest(s.rt.views), Notes.Drain);
      NotesMove(s, th, t, None, Notes.Step(s.rt.notes, Notes.Drain), Done(true), other, valid);
    } else if e.shared == s {
      StaysPut(s, th, t, e.pc, other, valid);
    } else {
      NotesMove(s, th, t, e.shared.rt.noteOwner, s.rt.notes, e.pc, other, valid);
    }
  }

  // ---------------------------------------------------------------- users of the action mutex

  function ActionsSet(s: Shared, owner: Option<nat>, actions: Actions.Ledger): Shared {
    s.(rt := s.rt.(actionOwner := owner, actions := actions))
  }

  lemma ActionsMove(
    s: Shared, th: Thread, t: nat, owner: Option<nat>, actions: Actions.Ledger, pc: Pc, other: bool, valid: Validity)
    requires Pre(s, th, t, other, valid) && !th.call.Publish? && !th.call.Close?
    requires (s.rt.actionOwner.None? || s.rt.actionOwner == Some(t)) && (owner.None? || owner == Some(t))
    requires ActionsOk(actions, s.rt.phase)
    requires ThreadInv(ActionsSet(s, owner, actions), After(s, th, Effect(ActionsSet(s, owner, actions), pc, th.seen)), t, valid)
    ensures Post(s, th, t, Effect(ActionsSet(s, owner, actions), pc, th.seen), other, valid)
  {
    hide ViewsOk, DiffsOk, NotesOk, ActionsOk, ThreadInv;
  }

  lemma ActionsDone(l: Actions.Ledger, phase: nat, op: Actions.Op)
    requires ActionsOk(l, phase) && phase < 2 && !op.Clear?
    ensures ActionsOk(Actions.Step(l, op), phase)
  {
    Actions.StepKeepsInv(l, op);
    if op.Submit? {
      Actions.SubmitEffect(l.state, op.request, op.generation);
    }
    hide Actions.Inv, Actions.Submitted;
  }

  lemma SubmitLocal(s: Shared, th: Thread, t: nat, other: bool, valid: Validity)
    requires Pre(s, th, t, other, valid) && th.call.Submit?
    ensures Post(s, th, t, SubmitStep(s, th, t), other, valid)
  {
    hide ViewsOk, DiffsOk, NotesOk, ActionsOk, Post, Actions.Step, Find;
    var e := SubmitStep(s, th, t);
    if th.pc.Gate? && th.seen.Some? {
      var op := Actions.Submit(th.call.request, th.seen.value.generation);
      ActionsDone(s.rt.actions, s.rt.phase, op);
      ActionsMove(s, th, t, None, Actions.Step(s.rt.actions, op), Done(true), other, valid);
    } else if th.pc.Entered? && e.pc.Loaded? {
      SnapshotLoaded(s, th, t, other, valid);
    } else if e.shared == s {
      StaysPut(s, th, t, e.pc, other, valid);
    } else {
      ActionsMove(s, th, t, e.shared.rt.actionOwner, s.rt.actions, e.pc, other, valid);
    }
  }

  lemma PopLocal(s: Shared, th: Thread, t: nat, other: bool, valid: Validity)
    requires Pre(s, th, t, other, valid) && th.call.Pop?
    ensures Post(s, th, t, PopStep(s, th, t), other, valid)
  {
    hide ViewsOk, DiffsOk, NotesOk, ActionsOk, Post, Actions.Step;
    var e := PopStep(s, th, t);
    if th.pc.Gate? {
      ActionsDone(s.rt.actions, s.rt.phase, Actions.Pop);
      ActionsMove(s, th, t, None, Actions.Step(s.rt.actions, Actions.Pop), Done(true), other, valid);
    } else if e.shared == s {
      StaysPut(s, th, t, e.pc, other, valid);
    } else {
      ActionsMove(s, th, t, e.shared.rt.actionOwner, s.rt.actions, e.pc, other, valid);
    }
  }

  lemma AdvanceLocal(s: Shared, th: Thread, t: nat, prepared: bool, other: bool, valid: Validity)
    requires Pre(s, th, t, other, valid)
    ensures Post(s, th, t, Advance(s, th, t, prepared), other, valid)
  {
    hide Pre, Post, PublishStep, CloseStep, HostStep, AnnounceStep, DrainStep, SubmitStep, PopStep;
    match th.call
    case Publish(_) => PublishLocal(s, th, t, prepared, other, valid);
    case Close => CloseLocal(s, th, t, other, valid);
    case Host(_) => HostLocal(s, th, t, other, valid);
    case Announce(_, _) => AnnounceLocal(s, th, t, other, valid);
    case Submit(_) => SubmitLocal(s, th, t, other, valid);
    case Drain => DrainLocal(s, th, t, other, valid);
    case Pop => PopLocal(s, th, t, other, valid);
  }

  /** A call enters without disturbing anyone; the thread is new. */
  lemma EnterLocal(s: Shared, th: Thread, t: nat, other: bool, valid: Validity)
    requires RuntimeInv(s.rt, other, s.last, valid) && th.pc.Entered? && th.seen.None? && !th.changed
    ensures Post(s, th, t, Enter(s, th, valid), other, valid)
  {
    hide ViewsOk, DiffsOk, NotesOk, ActionsOk;
    var e := Enter(s, th, valid);
    assert ThreadInv(e.shared, After(s, th, e), t, valid);
    assert RuntimeInv(e.shared.rt, other, e.shared.last, valid);
    hide ThreadInv, RuntimeInv;
  }

  // ---------------------------------------------------------------- the whole system

  lemma LastRises(rt: Runtime, between: bool, last: nat, later: nat, valid: Validity)
    requires RuntimeInv(rt, between, last, valid) && last <= later
    ensures RuntimeInv(rt, between, later, valid)
  {
    hide AllAccepted, DiffsOk, NotesOk, ActionsOk, GateOk;
  }

  /** Only the stepping thread's own standing decides whether its runtime is between store and diff. */
  lemma BetweenAfter(s: System, t: nat, th: Thread, e: Effect, other: bool, r: nat, valid: Validity)
    requires th.runtime < |s.runtimes| && (t in s.threads ==> s.threads[t].runtime == th.runtime)
    requires Post(SharedOf(s, th.runtime), th, t, e, other, valid)
    requires other == (Between(s, th.runtime) && s.publisher != Some(t))
    ensures Between(Apply(s, t, th, e), r) ==
            if r == th.runtime then other || Storing(After(SharedOf(s, th.runtime), th, e)) else Between(s, r)
  {
    hide RuntimeInv, Rely, Grows;
    var th', b := After(SharedOf(s, th.runtime), th, e), e.shared;
    assert Storing(th') ==> b.publisher == Some(t);
    hide ThreadInv;
  }

  lemma ApplyKeepsRuntimes(s: System, t: nat, th: Thread, e: Effect, other: bool, valid: Validity)
    requires RuntimesOk(s, valid) && th.runtime < |s.runtimes| && (t in s.threads ==> s.threads[t].runtime == th.runtime)
    requires Post(SharedOf(s, th.runtime), th, t, e, other, valid)
    requires other == (Between(s, th.runtime) && s.publisher != Some(t))
    ensures RuntimesOk(Apply(s, t, th, e), valid)
  {
    hide RuntimeInv, ThreadInv, Rely, Storing;
    var s' := Apply(s, t, th, e);
    assert s.last <= s'.last;
    forall r | 0 <= r < |s'.runtimes|
      ensures RuntimeInv(s'.runtimes[r], Between(s', r), s'.last, valid)
    {
      hide Between, Grows;
      BetweenAfter(s, t, th, e, other, r, valid);
      if r != th.runtime {
        assert RuntimeInv(s.runtimes[r], Between(s, r), s.last, valid);
        LastRises(s.runtimes[r], Between(s, r), s.last, s'.last, valid);
      }
    }
  }

  lemma ApplyKeepsThreads(s: System, t: nat, th: Thread, e: Effect, other: bool, valid: Validity)
    requires ThreadsOk(s, valid) && th.runtime < |s.runtimes| && Post(SharedOf(s, th.runtime), th, t, e, other, valid)
    ensures ThreadsOk(Apply(s, t, th, e), valid)
  {
    hide RuntimeInv, ThreadInv, Grows, Storing;
    var s' := Apply(s, t, th, e);
    forall u | u in s'.threads
      ensures ThreadOk(s', u, valid)
    {
      if u == t {
        assert SharedOf(s', th.runtime) == e.shared;
      } else {
        assert ThreadOk(s, u, valid);
        var r := s.threads[u].runtime;
        assert Rely(SharedOf(s, r), SharedOf(s', r), u);
        RelyKeepsThread(SharedOf(s, r), SharedOf(s', r), s.threads[u], u, valid);
      }
    }
  }

  lemma ApplyKeepsLog(s: System, t: nat, th: Thread, e: Effect)
    requires LogOk(s) && th.runtime < |s.runtimes| && Grows(SharedOf(s, th.runtime), e.shared)
    ensures LogOk(Apply(s, t, th, e))
  {
    var s', r, views := Apply(s, t, th, e), th.runtime, s.runtimes[th.runtime].views;
    var views' := e.shared.rt.views;
    assert views <= views';
    if |views'| > |views| {
      assert views'[|views|] in views';
    }
    forall i | 0 <= i < |s'.committed|
      ensures s'.committed[i].runtime < |s'.runtimes| && s'.committed[i].view in s'.runtimes[s'.committed[i].runtime].views
    {
      if i < |s.committed| {
        assert s.committed[i].view in s.runtimes[s.committed[i].runtime].views;
      }
    }
  }

  lemma StartKeepsInv(s: System, t: nat, r: nat, call: Call, valid: Validity)
    requires Inv(s, valid)
    ensures Inv(Next(s, Start(t, r, call), valid), valid)
  {
    hide RuntimeInv, ThreadInv, Enter, Rely, Storing;
    if t !in s.threads && r < |s.runtimes| {
      var th := Thread(r, call, Entered, None, false);
      var other := Between(s, r) && s.publisher != Some(t);
      assert RuntimeInv(s.runtimes[r], other, s.last, valid);
      EnterLocal(SharedOf(s, r), th, t, other, valid);
      var e := Enter(SharedOf(s, r), th, valid);
      ApplyKeepsRuntimes(s, t, th, e, other, valid);
      ApplyKeepsThreads(s, t, th, e, other, valid);
      ApplyKeepsLog(s, t, th, e);
    }
  }

  lemma ThreadReady(s: System, t: nat, valid: Validity)
    requires RuntimesOk(s, valid) && ThreadsOk(s, valid) && t in s.threads
    ensures var th := s.threads[t];
            th.runtime < |s.runtimes| &&
            Pre(SharedOf(s, th.runtime), th, t, Between(s, th.runtime) && s.publisher != Some(t), valid)
  {
    hide RuntimeInv;
    assert ThreadOk(s, t, valid);
    var th := s.threads[t];
    assert Storing(th) ==> s.publisher == Some(t);
    hide ThreadInv;
    assert RuntimeInv(s.runtimes[th.runtime], Between(s, th.runtime), s.last, valid);
  }

  lemma GoKeepsInv(s: System, t: nat, prepared: bool, valid: Validity)
    requires Inv(s, valid)
    ensures Inv(Next(s, Go(t, prepared), valid), valid)
  {
    hide RuntimeInv, ThreadInv, Advance, Rely, Storing;
    if t in s.threads {
      ThreadReady(s, t, valid);
      var th := s.threads[t];
      var a, other := SharedOf(s, th.runtime), Between(s, th.runtime) && s.publisher != Some(t);
      AdvanceLocal(a, th, t, prepared, other, valid);
      var e := Advance(a, th, t, prepared);
      ApplyKeepsRuntimes(s, t, th, e, other, valid);
      ApplyKeepsThreads(s, t, th, e, other, valid);
      ApplyKeepsLog(s, t, th, e);
    }
  }

  lemma NewRuntimeOk(limits: Limits, last: nat, valid: Validity)
    requires ValidLimits(limits)
    ensures RuntimeInv(NewRuntime(limits), false, last, valid)
  {
  }

  lemma EnableKeepsInv(s: System, limits: Limits, valid: Validity)
    requires Inv(s, valid)
    ensures Inv(Next(s, Enable(limits), valid), valid)
  {
    hide RuntimeInv, ThreadInv, NewRuntime, ValidLimits;
    var s' := Next(s, Enable(limits), valid);
    if s' != s {
      NewRuntimeOk(limits, s.last, valid);
      var n := |s.runtimes|;
      assert !Between(s', n) by {
        if s.publisher.Some? && s.publisher.value in s.threads {
          assert ThreadOk(s, s.publisher.value, valid);
        }
      }
      forall r | 0 <= r < |s'.runtimes|
        ensures RuntimeInv(s'.runtimes[r], Between(s', r), s'.last, valid)
      {
        if r < n {
          assert RuntimeInv(s.runtimes[r], Between(s, r), s.last, valid);
          assert Between(s', r) == Between(s, r);
        }
      }
      forall t | t in s'.threads
        ensures ThreadOk(s', t, valid)
      {
        assert ThreadOk(s, t, valid);
      }
    }
  }

  /** Every interleaving of every number of calls keeps the invariant. */
  lemma {:induction false} EveryRun(steps: seq<Step>, valid: Validity)
    ensures Inv(Run(steps, valid), valid)
    decreases |steps|
  {
    if steps != [] {
      var s, step := Run(steps[..|steps| - 1], valid), steps[|steps| - 1];
      EveryRun(steps[..|steps| - 1], valid);
      hide Inv, Next;
      match step
      case Enable(limits) => EnableKeepsInv(s, limits, valid);
      case Start(t, r, call) => StartKeepsInv(s, t, r, call, valid);
      case Go(t, prepared) => GoKeepsInv(s, t, prepared, valid);
    }
  }
}
