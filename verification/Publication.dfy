/** Publication and transport as a step system.

    Any number of threads call into a window's accessibility bridge. Every atomic load, store and exchange, and every
    acquisition of a mutex, is a step of its own; code that only touches data its mutex protects is one step. */
module Publication {
  import opened Options
  import opened Snapshot
  import Diff
  import Notifications
  import Actions
  import Notes = NotificationRuns

  /** Which snapshots validation accepts under which limits; the protocol works for any such test. */
  type Validity = (View, Limits) -> bool

  datatype Call =
    | Publish(view: View)
    | Close
    | Host(focusGained: bool)
    | Announce(node: NodeId, announcement: Notifications.Announcement)
    | Submit(request: Actions.Request)
    | Drain
    | Pop

  /** Where a call stands. `Gate` is reached by seeing the runtime live while holding the call's mutex. */
  datatype Pc =
    | Entered
    | Loaded
    | Locked
    | Gate
    | Checked(before: Option<View>)
    | Prepared(before: Option<View>)
    | Confirmed(before: Option<View>)
    | Stored(before: Option<View>)
    | Queued
    | Withdrawn
    | ActionsCleared
    | NotesCleared
    | Done(ok: bool)

  /** A call in progress: its runtime, where it stands, and the snapshot it has loaded, if any. `changed` records
      whether it has changed anything but mutexes. */
  datatype Thread = Thread(runtime: nat, call: Call, pc: Pc, seen: Option<View>, changed: bool)

  /** One activation of the bridge. `views` lists its committed snapshots and `phase` how far its closer got:
      snapshot withdrawn (1), actions cleared (2), notifications cleared (3). */
  datatype Runtime = Runtime(
    limits: Limits, live: bool, snapshot: Option<View>, actionOwner: Option<nat>, noteOwner: Option<nat>,
    actions: Actions.Ledger, notes: Notes.Ledger, views: seq<View>, phase: nat)

  /** What a step of one thread can touch; `publisher` holds the publication mutex. */
  datatype Shared = Shared(rt: Runtime, publisher: Option<nat>, last: nat)

  datatype Effect = Effect(shared: Shared, pc: Pc, seen: Option<View>)

  function Latest(views: seq<View>): Option<View> {
    if views == [] then None else Some(views[|views| - 1])
  }

  function Maximum(n: nat, m: nat): nat {
    if n < m then m else n
  }

  function SetPhase(rt: Runtime, phase: nat): Runtime {
    rt.(phase := Maximum(rt.phase, phase))
  }

  // ---------------------------------------------------------------- one step of one call

  /** The steps of a call that change nothing but its own standing. */
  function Stay(s: Shared, th: Thread, pc: Pc): Effect {
    Effect(s, pc, th.seen)
  }

  /** `Facade::publish`. `prepared` is the platform's answer. */
  ghost function PublishStep(s: Shared, th: Thread, t: nat, prepared: bool): Effect
    requires th.call.Publish?
  {
    var view, fail := th.call.view, Effect(s.(publisher := None), Done(false), th.seen);
    match th.pc
    case Entered => if s.publisher.None? then Effect(s.(publisher := Some(t)), Locked, th.seen) else Stay(s, th, Entered)
    case Locked => if s.rt.live then Stay(s, th, Gate) else fail
    case Gate =>
      var before := s.rt.snapshot;
      if view.generation <= s.last || (before.Some? && before.value.root != view.root) then fail
      else Stay(s, th, Checked(before))
    case Checked(before) => if prepared then Stay(s, th, Prepared(before)) else fail
    case Prepared(before) => if s.rt.live then Stay(s, th, Confirmed(before)) else fail
    case Confirmed(before) =>
      Effect(s.(rt := s.rt.(snapshot := Some(view), views := s.rt.views + [view]), last := view.generation), Stored(before), th.seen)
    case Stored(before) =>
      if s.rt.noteOwner.Some? then Stay(s, th, th.pc)
      else Effect(s.(rt := s.rt.(notes := Notes.Step(s.rt.notes, Notes.QueueDiff(before, view)))), Queued, th.seen)
    case Queued => Effect(s.(publisher := None), Done(true), th.seen)
    case _ => Stay(s, th, th.pc)
  }

  /** `closeAccessibility`, for the thread whose exchange found the runtime live. */
  ghost function CloseStep(s: Shared, th: Thread, t: nat): Effect {
    match th.pc
    case Entered => if s.publisher.None? then Effect(s.(publisher := Some(t)), Locked, th.seen) else Stay(s, th, Entered)
    case Locked => Effect(s.(rt := SetPhase(s.rt.(snapshot := None), 1)), Withdrawn, th.seen)
    case Withdrawn =>
      if s.rt.actionOwner.Some? then Stay(s, th, th.pc)
      else Effect(s.(rt := SetPhase(s.rt.(actions := Actions.Step(s.rt.actions, Actions.Clear)), 2)), ActionsCleared, th.seen)
    case ActionsCleared =>
      if s.rt.noteOwner.Some? then Stay(s, th, th.pc)
      else Effect(s.(rt := SetPhase(s.rt.(notes := Notes.Step(s.rt.notes, Notes.Clear)), 3)), NotesCleared, th.seen)
    case NotesCleared => Effect(s.(publisher := None), Done(true), th.seen)
    case _ => Stay(s, th, th.pc)
  }

  function LockNotes(s: Shared, th: Thread, t: nat): Effect {
    if s.rt.noteOwner.None? then Effect(s.(rt := s.rt.(noteOwner := Some(t))), Locked, th.seen) else Stay(s, th, th.pc)
  }

  function LockActions(s: Shared, th: Thread, t: nat): Effect {
    if s.rt.actionOwner.None? then Effect(s.(rt := s.rt.(actionOwner := Some(t))), Locked, th.seen) else Stay(s, th, th.pc)
  }

  ghost function NoteEffect(s: Shared, th: Thread, op: Notes.Op): Effect {
    Effect(s.(rt := s.rt.(notes := Notes.Step(s.rt.notes, op), noteOwner := None)), Done(true), th.seen)
  }

  function ActionEffect(s: Shared, th: Thread, op: Actions.Op): Effect {
    Effect(s.(rt := s.rt.(actions := Actions.Step(s.rt.actions, op), actionOwner := None)), Done(true), th.seen)
  }

  function DropNotes(s: Shared, th: Thread): Effect {
    Effect(s.(rt := s.rt.(noteOwner := None)), Done(false), th.seen)
  }

  function DropActions(s: Shared, th: Thread): Effect {
    Effect(s.(rt := s.rt.(actionOwner := None)), Done(false), th.seen)
  }

  /** `invalidateAccessibilityHost`: loads the snapshot and then the gate, both under the notification mutex. */
  ghost function HostStep(s: Shared, th: Thread, t: nat): Effect
    requires th.call.Host?
  {
    match th.pc
    case Entered => LockNotes(s, th, t)
    case Locked => if s.rt.snapshot.None? then DropNotes(s, th) else Effect(s, Loaded, s.rt.snapshot)
    case Loaded => if s.rt.live then Stay(s, th, Gate) else DropNotes(s, th)
    case Gate => if th.seen.None? then DropNotes(s, th) else NoteEffect(s, th, Notes.Host(th.seen.value, th.call.focusGained))
    case _ => Stay(s, th, th.pc)
  }

  /** `Facade::announce`: the snapshot is loaded before the mutex is taken. */
  ghost function AnnounceStep(s: Shared, th: Thread, t: nat): Effect
    requires th.call.Announce?
  {
    match th.pc
    case Entered =>
      var v := s.rt.snapshot;
      if v.None? || Find(v.value.nodes, Notifications.Subject(v.value, th.call.node)) == |v.value.nodes| then Stay(s, th, Done(false))
      else Effect(s, Loaded, v)
    case Loaded => LockNotes(s, th, t)
    case Locked => if s.rt.live then Stay(s, th, Gate) else DropNotes(s, th)
    case Gate =>
      if th.seen.None? then DropNotes(s, th)
      else
        var v := th.seen.value;
        NoteEffect(s, th, Notes.Announce(Notifications.Announcing(v, th.call.node, th.call.announcement)))
    case _ => Stay(s, th, th.pc)
  }

  ghost function DrainStep(s: Shared, th: Thread, t: nat): Effect {
    match th.pc
    case Entered => LockNotes(s, th, t)
    case Locked => if s.rt.live then Stay(s, th, Gate) else DropNotes(s, th)
    case Gate => NoteEffect(s, th, Notes.Drain)
    case _ => Stay(s, th, th.pc)
  }

  /** `submitAccessibilityAction`: the snapshot is loaded before the mutex is taken. */
  ghost function SubmitStep(s: Shared, th: Thread, t: nat): Effect
    requires th.call.Submit?
  {
    match th.pc
    case Entered =>
      var v := s.rt.snapshot;
      if v.None? || Find(v.value.nodes, th.call.request.node) == |v.value.nodes| then Stay(s, th, Done(false))
      else Effect(s, Loaded, v)
    case Loaded => LockActions(s, th, t)
    case Locked => if s.rt.live then Stay(s, th, Gate) else DropActions(s, th)
    case Gate =>
      if th.seen.None? then DropActions(s, th)
      else ActionEffect(s, th, Actions.Submit(th.call.request, th.seen.value.generation))
    case _ => Stay(s, th, th.pc)
  }

  function PopStep(s: Shared, th: Thread, t: nat): Effect {
    match th.pc
    case Entered => LockActions(s, th, t)
    case Locked => if s.rt.live then Stay(s, th, Gate) else DropActions(s, th)
    case Gate => ActionEffect(s, th, Actions.Pop)
    case _ => Stay(s, th, th.pc)
  }

  ghost function Advance(s: Shared, th: Thread, t: nat, prepared: bool): Effect {
    match th.call
    case Publish(_) => PublishStep(s, th, t, prepared)
    case Close => CloseStep(s, th, t)
    case Host(_) => HostStep(s, th, t)
    case Announce(_, _) => AnnounceStep(s, th, t)
    case Submit(_) => SubmitStep(s, th, t)
    case Drain => DrainStep(s, th, t)
    case Pop => PopStep(s, th, t)
  }

  /** The first access of a call. Calls on the owner thread that drain do not look at the gate yet; a closer exchanges it. */
  ghost function Enter(s: Shared, th: Thread, valid: Validity): Effect {
    match th.call
    case Publish(view) => Stay(s, th, if s.rt.live && valid(view, s.rt.limits) then Entered else Done(false))
    case Close => if s.rt.live then Effect(s.(rt := s.rt.(live := false)), Entered, th.seen) else Stay(s, th, Done(false))
    case Drain => Stay(s, th, Entered)
    case Pop => Stay(s, th, Entered)
    case _ => Stay(s, th, if s.rt.live then Entered else Done(false))
  }

  // ---------------------------------------------------------------- the system

  datatype Committed = Committed(runtime: nat, view: View)

  datatype System = System(
    runtimes: seq<Runtime>, last: nat, publisher: Option<nat>, threads: map<nat, Thread>, committed: seq<Committed>)

  /** `Start` may name any runtime: its caller may have loaded the pointer long ago. */
  datatype Step =
    | Enable(limits: Limits)
    | Start(thread: nat, runtime: nat, call: Call)
    | Go(thread: nat, prepared: bool)

  function SharedOf(s: System, r: nat): Shared
    requires r < |s.runtimes|
  {
    Shared(s.runtimes[r], s.publisher, s.last)
  }

  function Changed(a: Shared, b: Shared): bool {
    a.rt != b.rt || a.last != b.last
  }

  function Apply(s: System, t: nat, th: Thread, e: Effect): System
    requires th.runtime < |s.runtimes|
  {
    var r := th.runtime;
    var old_ := SharedOf(s, r);
    s.(runtimes := s.runtimes[r := e.shared.rt], last := e.shared.last, publisher := e.shared.publisher,
       threads := s.threads[t := Thread(r, th.call, e.pc, e.seen, th.changed || Changed(old_, e.shared))],
       committed := if |e.shared.rt.views| > |old_.rt.views| then s.committed + [Committed(r, e.shared.rt.views[|old_.rt.views|])]
                    else s.committed)
  }

  function NewRuntime(limits: Limits): Runtime {
    Runtime(limits, true, None, None, None, Actions.Begin(limits.actionQueue, 1), Notes.Begin(limits.notificationQueue), [], 0)
  }

  ghost function Next(s: System, step: Step, valid: Validity): System {
    match step
    case Enable(limits) =>
      if ValidLimits(limits) && (s.runtimes == [] || !s.runtimes[|s.runtimes| - 1].live) then
        s.(runtimes := s.runtimes + [NewRuntime(limits)])
      else s
    case Start(t, r, call) =>
      if t in s.threads || r >= |s.runtimes| then s
      else
        var th := Thread(r, call, Entered, None, false);
        Apply(s, t, th, Enter(SharedOf(s, r), th, valid))
    case Go(t, prepared) =>
      if t !in s.threads || s.threads[t].runtime >= |s.runtimes| then s
      else
        var th := s.threads[t];
        Apply(s, t, th, Advance(SharedOf(s, th.runtime), th, t, prepared))
  }

  ghost function Run(steps: seq<Step>, valid: Validity): System {
    if steps == [] then System([], 0, None, map[], [])
    else Next(Run(steps[..|steps| - 1], valid), steps[|steps| - 1], valid)
  }

  // ---------------------------------------------------------------- what holds of a runtime

  ghost predicate Ordered(views: seq<View>, last: nat) {
    && (forall i, j | 0 <= i < j < |views| :: views[i].generation < views[j].generation)
    && (forall i | 0 <= i < |views| :: 0 < views[i].generation <= last && views[i].root == views[0].root)
  }

  ghost predicate AllAccepted(views: seq<View>, limits: Limits, valid: Validity) {
    forall i | 0 <= i < |views| :: valid(views[i], limits)
  }

  /** Each diff that was queued compares one committed snapshot with the next. */
  ghost predicate Matched(commits: seq<Notes.Commit>, views: seq<View>) {
    && |commits| <= |views|
    && forall i | 0 <= i < |commits| :: commits[i].after == views[i] && commits[i].before == Latest(views[..i])
  }

  ghost predicate ActionsOk(l: Actions.Ledger, phase: nat) {
    Actions.Inv(l) && 0 < l.state.capacity && (l.cleared ==> phase >= 2) && (phase >= 2 ==> l.state.queue == [])
  }

  /** `latest` is the newest committed snapshot: a pending marker is never ahead of it. */
  ghost predicate NotesOk(l: Notes.Ledger, phase: nat, latest: Option<View>) {
    && Notes.Inv(l) && (l.cleared ==> phase >= 3)
    && (phase >= 3 ==> l.state.queue == [] && !l.state.pending)
    && (l.state.pending ==> latest.Some? && Notes.MarkerGeneration(l.state) <= latest.value.generation)
  }

  ghost predicate ViewsOk(views: seq<View>, limits: Limits, last: nat, valid: Validity) {
    Ordered(views, last) && AllAccepted(views, limits, valid)
  }

  /** `between` tells that a publisher has stored a snapshot and not yet queued its diff. */
  ghost predicate DiffsOk(commits: seq<Notes.Commit>, views: seq<View>, between: bool) {
    Matched(commits, views) && |commits| + (if between then 1 else 0) == |views|
  }

  ghost predicate GateOk(rt: Runtime) {
    if rt.phase == 0 then rt.snapshot == Latest(rt.views) else !rt.live && rt.snapshot.None?
  }

  ghost predicate RuntimeInv(rt: Runtime, between: bool, last: nat, valid: Validity) {
    && ActionsOk(rt.actions, rt.phase) && NotesOk(rt.notes, rt.phase, Latest(rt.views))
    && ViewsOk(rt.views, rt.limits, last, valid) && DiffsOk(rt.notes.commits, rt.views, between) && GateOk(rt)
  }

  // ---------------------------------------------------------------- what holds of a thread

  ghost predicate PublishInv(s: Shared, th: Thread, t: nat, valid: Validity)
    requires th.call.Publish?
  {
    var view, pc := th.call.view, th.pc;
    && (!pc.Done? ==> valid(view, s.rt.limits))
    && (!pc.Entered? && !pc.Done? ==> s.publisher == Some(t))
    && (!pc.Entered? && !pc.Locked? && !pc.Done? ==> s.rt.phase == 0)
    && (pc.Checked? || pc.Prepared? || pc.Confirmed? ==>
          && pc.before == Latest(s.rt.views) && s.last < view.generation
          && (pc.before.Some? ==> pc.before.value.root == view.root))
    && (pc.Stored? || pc.Queued? ==> s.rt.views != [] && s.rt.views[|s.rt.views| - 1] == view)
    && (pc == Done(true) ==> view in s.rt.views)
    && (pc.Stored? ==>
          && pc.before == Latest(s.rt.views[..|s.rt.views| - 1]) && |s.rt.notes.commits| + 1 == |s.rt.views|)
    && (!pc.Stored? && !pc.Queued? && pc != Done(true) ==> !th.changed)
  }

  ghost predicate CloseInv(s: Shared, th: Thread, t: nat) {
    var pc := th.pc;
    && (pc != Done(false) ==> !s.rt.live)
    && (pc.Locked? || pc.Withdrawn? || pc.ActionsCleared? || pc.NotesCleared? ==> s.publisher == Some(t))
    && (pc.Withdrawn? ==> s.rt.phase >= 1)
    && (pc.ActionsCleared? ==> s.rt.phase >= 2)
    && (pc.NotesCleared? || pc == Done(true) ==> s.rt.phase >= 3)
  }

  ghost predicate HostInv(s: Shared, th: Thread, t: nat) {
    var pc := th.pc;
    && (pc.Locked? || pc.Loaded? || pc.Gate? ==> s.rt.noteOwner == Some(t))
    && (pc.Loaded? || pc.Gate? ==>
          th.seen.Some? && th.seen.value in s.rt.views && Notes.Reaches(s.rt.notes.commits, th.seen.value.generation))
    && (pc.Gate? ==> s.rt.phase < 3)
  }

  ghost predicate NoteInv(s: Shared, th: Thread, t: nat) {
    && (th.pc.Locked? || th.pc.Gate? ==> s.rt.noteOwner == Some(t))
    && (th.pc.Gate? ==> s.rt.phase < 3)
  }

  ghost predicate ActionInv(s: Shared, th: Thread, t: nat) {
    && (th.pc.Locked? || th.pc.Gate? ==> s.rt.actionOwner == Some(t))
    && (th.pc.Gate? ==> s.rt.phase < 2)
  }

  /** The places that each kind of call can reach. */
  ghost predicate Shape(th: Thread) {
    match th.call
    case Publish(_) => !th.pc.Loaded? && !th.pc.Withdrawn? && !th.pc.ActionsCleared? && !th.pc.NotesCleared?
    case Close => th.pc.Entered? || th.pc.Locked? || th.pc.Withdrawn? || th.pc.ActionsCleared? || th.pc.NotesCleared? || th.pc.Done?
    case Drain => th.pc.Entered? || th.pc.Locked? || th.pc.Gate? || th.pc.Done?
    case Pop => th.pc.Entered? || th.pc.Locked? || th.pc.Gate? || th.pc.Done?
    case Host(_) => th.pc.Entered? || th.pc.Loaded? || th.pc.Locked? || th.pc.Gate? || th.pc.Done?
    case _ => th.pc.Entered? || ((th.pc.Loaded? || th.pc.Locked? || th.pc.Gate?) && th.seen.Some?) || th.pc.Done?
  }

  ghost predicate ThreadInv(s: Shared, th: Thread, t: nat, valid: Validity) {
    && Shape(th)
    && match th.call
       case Publish(_) => PublishInv(s, th, t, valid)
       case Close => CloseInv(s, th, t)
       case Host(_) => HostInv(s, th, t)
       case Announce(_, _) => NoteInv(s, th, t)
       case Drain => NoteInv(s, th, t)
       case Submit(_) => ActionInv(s, th, t)
       case Pop => ActionInv(s, th, t)
  }

  // ---------------------------------------------------------------- the whole system

  ghost predicate Storing(th: Thread) {
    th.call.Publish? && th.pc.Stored?
  }

  /** A publisher of this runtime has stored a snapshot and not yet queued its diff. */
  ghost predicate Between(s: System, r: nat) {
    && s.publisher.Some? && s.publisher.value in s.threads
    && s.threads[s.publisher.value].runtime == r && Storing(s.threads[s.publisher.value])
  }

  ghost predicate RuntimesOk(s: System, valid: Validity) {
    forall r | 0 <= r < |s.runtimes| :: RuntimeInv(s.runtimes[r], Between(s, r), s.last, valid)
  }

  ghost predicate ThreadOk(s: System, t: nat, valid: Validity)
    requires t in s.threads
  {
    s.threads[t].runtime < |s.runtimes| && ThreadInv(SharedOf(s, s.threads[t].runtime), s.threads[t], t, valid)
  }

  ghost predicate ThreadsOk(s: System, valid: Validity) {
    forall t | t in s.threads :: ThreadOk(s, t, valid)
  }

  /** Generations strictly increase over the life of the window, whatever the runtime. */
  ghost predicate LogOk(s: System) {
    && (forall i, j | 0 <= i < j < |s.committed| :: s.committed[i].view.generation < s.committed[j].view.generation)
    && s.last == (if s.committed == [] then 0 else s.committed[|s.committed| - 1].view.generation)
    && (forall i | 0 <= i < |s.committed| ::
          s.committed[i].runtime < |s.runtimes| && s.committed[i].view in s.runtimes[s.committed[i].runtime].views)
  }

  ghost predicate Inv(s: System, valid: Validity) {
    RuntimesOk(s, valid) && ThreadsOk(s, valid) && LogOk(s)
  }
}
