/** What the notification queue keeps through every step: one marker at most, and no committed change lost. */
module NotificationRuns {
  import opened Options
  import opened Snapshot
  import opened Diff
  import opened Notifications

  /** A publication whose diff has been queued; `position` is how many notifications had been delivered by then. */
  datatype Commit = Commit(before: Option<View>, after: View, position: nat)

  datatype Ledger = Ledger(state: NoteState, delivered: seq<Note>, commits: seq<Commit>, cleared: bool)

  datatype Op =
    | Host(view: View, focusGained: bool)
    | QueueDiff(before: Option<View>, after: View)
    | Announce(note: Note)
    | Drain
    | Clear

  function Stream(l: Ledger): seq<Note> {
    l.delivered + l.state.queue
  }

  function Begin(capacity: nat): Ledger {
    Ledger(NoteState([], capacity, false, 0), [], [], false)
  }

  ghost function Step(l: Ledger, op: Op): Ledger {
    var s := l.state;
    match op
    case Host(v, focusGained) => l.(state := HostInvalidated(s, v, focusGained))
    case QueueDiff(before, after) =>
      l.(state := DiffQueued(s, before, after), commits := l.commits + [Commit(before, after, |l.delivered|)])
    case Announce(note) => l.(state := Announced(s, note).0)
    case Drain => if s.queue == [] then l else l.(state := Drained(s), delivered := l.delivered + [s.queue[0]])
    case Clear => l.(state := Cleared(s), cleared := true)
  }

  // ---------------------------------------------------------------- the invariant

  /** The pending flag is set exactly when the queue holds a tree invalidation, and it never holds two. */
  ghost predicate OneMarker(s: NoteState) {
    var k := FirstMarker(s.queue);
    && (s.pending <==> k < |s.queue|)
    && forall i | k < i < |s.queue| :: s.queue[i].kind != TreeInvalidated
  }

  /** No commit is newer than this generation. */
  ghost predicate Reaches(commits: seq<Commit>, generation: nat) {
    forall i | 0 <= i < |commits| :: commits[i].after.generation <= generation
  }

  ghost function MarkerGeneration(s: NoteState): nat
    requires OneMarker(s) && s.pending
  {
    s.queue[FirstMarker(s.queue)].generation
  }

  ghost predicate MarkerCurrent(l: Ledger) {
    OneMarker(l.state) && (l.state.pending ==> Reaches(l.commits, MarkerGeneration(l.state)))
  }

  /** The records that a commit owes its consumer. */
  ghost function Owed(c: Commit): seq<Record> {
    if c.before.None? then [Record(TreeInvalidated, c.after.root, Name)] else Records(c.before.value, c.after)
  }

  /** The record itself, or a tree invalidation at least as new as the commit. */
  predicate Covers(n: Note, c: Commit, r: Record) {
    n == NoteOf(r, c.before, c.after) || (n.kind == TreeInvalidated && n.generation >= c.after.generation)
  }

  /** Delivered since the commit, or still queued. */
  ghost predicate CoveredRecord(stream: seq<Note>, c: Commit, r: Record) {
    exists i :: c.position <= i < |stream| && Covers(stream[i], c, r)
  }

  ghost predicate CoveredCommit(stream: seq<Note>, c: Commit) {
    forall r | r in Owed(c) :: CoveredRecord(stream, c, r)
  }

  ghost predicate NothingLost(l: Ledger) {
    forall i | 0 <= i < |l.commits| :: CoveredCommit(Stream(l), l.commits[i])
  }

  ghost predicate Positions(l: Ledger) {
    forall i | 0 <= i < |l.commits| :: l.commits[i].position <= |l.delivered|
  }

  ghost predicate Inv(l: Ledger) {
    && 0 < l.state.capacity && |l.state.queue| <= l.state.capacity && Positions(l) && MarkerCurrent(l)
    && (!l.cleared ==> NothingLost(l))
  }

  /** What the protocol around the queue guarantees of each step. */
  ghost predicate Allowed(l: Ledger, op: Op) {
    match op
    case Host(v, _) => Reaches(l.commits, v.generation)
    case QueueDiff(_, after) => Reaches(l.commits, after.generation)
    case Announce(note) => note.kind == LiveRegionChanged
    case _ => true
  }

  // ---------------------------------------------------------------- coverage

  lemma CoverageGrows(stream: seq<Note>, more: seq<Note>, c: Commit)
    requires CoveredCommit(stream, c) && stream <= more
    ensures CoveredCommit(more, c)
  {
    forall r | r in Owed(c)
      ensures CoveredRecord(more, c, r)
    {
      assert CoveredRecord(stream, c, r);
      var i :| c.position <= i < |stream| && Covers(stream[i], c, r);
      assert Covers(more[i], c, r);
    }
  }

  /** A current marker in the queue stands for every commit so far. */
  lemma MarkerCoversAll(l: Ledger)
    requires MarkerCurrent(l) && l.state.pending && Positions(l)
    ensures NothingLost(l)
  {
    var k := FirstMarker(l.state.queue);
    var stream, at := Stream(l), |l.delivered| + k;
    forall i | 0 <= i < |l.commits|
      ensures CoveredCommit(stream, l.commits[i])
    {
      var c := l.commits[i];
      forall r | r in Owed(c)
        ensures CoveredRecord(stream, c, r)
      {
        assert Covers(stream[at], c, r);
      }
    }
  }

  lemma AppendingLosesNothing(l: Ledger, m: Ledger)
    requires NothingLost(l) && Stream(l) <= Stream(m) && m.commits == l.commits
    ensures NothingLost(m)
  {
    forall i | 0 <= i < |m.commits|
      ensures CoveredCommit(Stream(m), m.commits[i])
    {
      CoverageGrows(Stream(l), Stream(m), l.commits[i]);
    }
  }

  // ---------------------------------------------------------------- appending an ordinary note

  lemma AppendKeepsMarker(s: NoteState, n: Note)
    requires OneMarker(s) && n.kind != TreeInvalidated
    ensures OneMarker(Append(s, n)) && (s.pending ==> MarkerGeneration(Append(s, n)) == MarkerGeneration(s))
  {
    var q, r := s.queue, s.queue + [n];
    var k := FirstMarker(q);
    assert forall i | 0 <= i < |q| :: r[i] == q[i];
    assert if k < |q| then FirstMarker(r) == k else FirstMarker(r) == |r|;
  }

  lemma FirstMarkerIs(q: seq<Note>, k: nat)
    requires k < |q| && q[k].kind == TreeInvalidated && forall i | 0 <= i < k :: q[i].kind != TreeInvalidated
    ensures FirstMarker(q) == k
  {
    var f := FirstMarker(q);
    assert f < |q| ==> q[f].kind == TreeInvalidated;
  }

  lemma AppendMarker(s: NoteState, n: Note)
    requires OneMarker(s) && !s.pending && n.kind == TreeInvalidated
    ensures var t := Append(s, n).(pending := true); OneMarker(t) && MarkerGeneration(t) == n.generation
  {
    var q, r := s.queue, s.queue + [n];
    assert forall i | 0 <= i < |q| :: r[i] == q[i];
    FirstMarkerIs(r, |q|);
  }

  lemma ReplaceMarker(s: NoteState, n: Note, t: NoteState)
    requires OneMarker(s) && s.pending && n.kind == TreeInvalidated && t.pending
    requires t.queue == s.queue[FirstMarker(s.queue) := n]
    ensures OneMarker(t) && MarkerGeneration(t) == n.generation
  {
    FirstMarkerIs(t.queue, FirstMarker(s.queue));
  }

  lemma SingleMarker(t: NoteState, n: Note)
    requires t.queue == [n] && n.kind == TreeInvalidated && t.pending
    ensures OneMarker(t) && MarkerGeneration(t) == n.generation
  {
    assert FirstMarker(t.queue) == 0;
  }

  // ---------------------------------------------------------------- the steps

  lemma HostMarks(s: NoteState, v: View, focusGained: bool)
    requires OneMarker(s) && 0 < s.capacity && |s.queue| <= s.capacity
    ensures var t := HostInvalidated(s, v, focusGained);
            && OneMarker(t) && t.pending && MarkerGeneration(t) == v.generation
            && t.capacity == s.capacity && |t.queue| <= t.capacity
  {
    var m := HostMarked(s, v);
    var k := FirstMarker(s.queue);
    if s.pending {
      ReplaceMarker(s, s.queue[k].(generation := v.generation, after := Some(v)), m);
    } else if |s.queue| == s.capacity {
      SingleMarker(m, Marker(Some(v), v));
    } else {
      AppendMarker(s, Marker(Some(v), v));
    }
    hide FirstMarker, HostMarked;
    if focusGained && FocusedNode(v.nodes) != 0 && |m.queue| < m.capacity {
      AppendKeepsMarker(m, NoteOf(Record(FocusChanged, FocusedNode(v.nodes), Name), Some(v), v));
    }
  }

  lemma HostKeepsInv(l: Ledger, v: View, focusGained: bool)
    requires Inv(l) && Allowed(l, Host(v, focusGained))
    ensures var m := Step(l, Host(v, focusGained));
            Inv(m) && m.state.pending && MarkerGeneration(m.state) == v.generation
  {
    HostMarks(l.state, v, focusGained);
    hide HostInvalidated, OneMarker;
    MarkerCoversAll(Step(l, Host(v, focusGained)));
  }

  predicate NoMarkerRecords(records: seq<Record>) {
    forall r | r in records :: r.kind != TreeInvalidated
  }

  lemma {:induction false} NodeRecordsAreOrdinary(before: seq<Node>, nodes: seq<Node>)
    ensures NoMarkerRecords(AllNodeRecords(before, nodes))
  {
    if nodes != [] {
      NodeRecordsAreOrdinary(before, nodes[..|nodes| - 1]);
      hide AllNodeRecords, Before;
      RecordsAreOrdinary(before, nodes[|nodes| - 1]);
    }
  }

  lemma OrdinaryRules()
    ensures forall a, b {:trigger NoMarkerRecords(a + b)} | NoMarkerRecords(a) && NoMarkerRecords(b) :: NoMarkerRecords(a + b)
    ensures forall c, k, n, p | k != TreeInvalidated :: NoMarkerRecords(If(c, k, n, p))
  {
  }

  lemma RecordsAreOrdinary(before: seq<Node>, node: Node)
    ensures NoMarkerRecords(RecordsOf(before, node))
  {
    var found := Before(before, node.id);
    assert NoMarkerRecords([]);
    OrdinaryRules();
    hide NoMarkerRecords, If, Before, Find, Focused;
    hide ValueDiffers, RangeDiffers, SelectionDiffers, TextDiffers, TextSelectionDiffers, MetadataDiffers;
  }

  function NotesOf(records: seq<Record>, before: Option<View>, after: View): (notes: seq<Note>)
    ensures |notes| == |records| && forall i | 0 <= i < |records| :: notes[i] == NoteOf(records[i], before, after)
  {
    seq(|records|, i requires 0 <= i < |records| => NoteOf(records[i], before, after))
  }

  lemma NotesAreOrdinary(records: seq<Record>, before: Option<View>, after: View)
    requires NoMarkerRecords(records)
    ensures var notes := NotesOf(records, before, after); forall i | 0 <= i < |notes| :: notes[i].kind != TreeInvalidated
  {
    assert forall i | 0 <= i < |records| :: records[i] in records;
  }

  /** Pushing in a row either appends every record, or ends with the marker alone. */
  lemma {:induction false} PushedShape(s: NoteState, records: seq<Record>, before: Option<View>, after: View)
    requires !s.pending && 0 < s.capacity && |s.queue| <= s.capacity
    ensures var t := AllPushed(s, records, before, after);
            && t.capacity == s.capacity && |t.queue| <= t.capacity
            && if t.pending then t.queue == [Marker(before, after)] else t.queue == s.queue + NotesOf(records, before, after)
    decreases |records|
  {
    if records == [] {
      assert s.queue + NotesOf([], before, after) == s.queue;
    } else {
      var last := |records| - 1;
      PushedShape(s, records[..last], before, after);
      assert NotesOf(records, before, after) == NotesOf(records[..last], before, after) + [NoteOf(records[last], before, after)];
    }
  }

  lemma {:induction false} AppendAllKeepsMarker(s: NoteState, notes: seq<Note>)
    requires OneMarker(s) && !s.pending && forall i | 0 <= i < |notes| :: notes[i].kind != TreeInvalidated
    ensures OneMarker(s.(queue := s.queue + notes))
  {
    var q := s.queue + notes;
    assert FirstMarker(s.queue) == |s.queue|;
    assert forall i | 0 <= i < |s.queue| :: q[i] == s.queue[i];
    assert forall i | |s.queue| <= i < |q| :: q[i] == notes[i - |s.queue|];
    assert FirstMarker(q) == |q|;
  }

  /** After a diff the queue has a marker of that generation, or has every record of the diff at its end. */
  lemma DiffMarks(s: NoteState, before: Option<View>, after: View)
    requires OneMarker(s) && 0 < s.capacity && |s.queue| <= s.capacity
    ensures var t := DiffQueued(s, before, after);
            && OneMarker(t) && t.capacity == s.capacity && |t.queue| <= t.capacity
            && (t.pending ==> MarkerGeneration(t) == after.generation)
            && (!t.pending ==> before.Some? && t.queue == s.queue + NotesOf(Records(before.value, after), before, after))
  {
    var t := DiffQueued(s, before, after);
    var k := FirstMarker(s.queue);
    if s.pending {
      ReplaceMarker(s, s.queue[k].(generation := after.generation, before := None, after := Some(after)), t);
    } else if before.None? {
      if |s.queue| == s.capacity {
        SingleMarker(t, Marker(before, after));
      } else {
        AppendMarker(s, Marker(before, after));
      }
    } else {
      DiffAppends(s, before.value, after);
    }
  }

  lemma DiffAppends(s: NoteState, before: View, after: View)
    requires OneMarker(s) && !s.pending && 0 < s.capacity && |s.queue| <= s.capacity
    ensures var t := DiffQueued(s, Some(before), after);
            && OneMarker(t) && t.capacity == s.capacity && |t.queue| <= t.capacity
            && (t.pending ==> MarkerGeneration(t) == after.generation)
            && (!t.pending ==> t.queue == s.queue + NotesOf(Records(before, after), Some(before), after))
  {
    var t, records := DiffQueued(s, Some(before), after), Records(before, after);
    NodeRecordsAreOrdinary(before.nodes, after.nodes);
    assert NoMarkerRecords(records);
    NotesAreOrdinary(records, Some(before), after);
    PushedShape(s, records, Some(before), after);
    hide Records, NoMarkerRecords, AllPushed;
    if t.pending {
      SingleMarker(t, Marker(Some(before), after));
    } else {
      AppendAllKeepsMarker(s, NotesOf(records, Some(before), after));
    }
  }

  lemma DiffLosesNothing(l: Ledger, before: Option<View>, after: View)
    requires NothingLost(l) && Positions(l)
    requires before.Some? && DiffQueued(l.state, before, after).queue ==
                              l.state.queue + NotesOf(Records(before.value, after), before, after)
    ensures NothingLost(Step(l, QueueDiff(before, after)))
  {
    hide DiffQueued, Records;
    var m := Step(l, QueueDiff(before, after));
    var records, n := Records(before.value, after), |l.commits|;
    assert Stream(m) == Stream(l) + NotesOf(records, before, after);
    var c := m.commits[n];
    forall r | r in Owed(c)
      ensures CoveredRecord(Stream(m), c, r)
    {
      var i :| 0 <= i < |records| && records[i] == r;
      assert Stream(m)[|Stream(l)| + i] == NoteOf(r, before, after);
      assert Covers(Stream(m)[|Stream(l)| + i], c, r);
    }
    forall i | 0 <= i < |m.commits|
      ensures CoveredCommit(Stream(m), m.commits[i])
    {
      if i < n {
        CoverageGrows(Stream(l), Stream(m), l.commits[i]);
      }
    }
  }

  lemma CommitsGrow(l: Ledger, before: Option<View>, after: View)
    requires Positions(l) && Reaches(l.commits, after.generation)
    ensures var m := Step(l, QueueDiff(before, after)); Positions(m) && Reaches(m.commits, after.generation)
  {
    hide DiffQueued;
  }

  lemma DiffKeepsInv(l: Ledger, before: Option<View>, after: View)
    requires Inv(l) && Allowed(l, QueueDiff(before, after))
    ensures var m := Step(l, QueueDiff(before, after));
            Inv(m) && (m.state.pending ==> MarkerGeneration(m.state) == after.generation)
  {
    var m := Step(l, QueueDiff(before, after));
    DiffMarks(l.state, before, after);
    CommitsGrow(l, before, after);
    hide DiffQueued, OneMarker, Records, CoveredCommit, Reaches, Positions, NotesOf;
    if !m.state.pending && !l.cleared {
      DiffLosesNothing(l, before, after);
    }
    hide NothingLost;
    if m.state.pending {
      MarkerCoversAll(m);
    }
  }

  lemma AnnounceKeepsInv(l: Ledger, note: Note)
    requires Inv(l) && Allowed(l, Announce(note))
    ensures var m := Step(l, Announce(note));
            Inv(m) && m.state.pending == l.state.pending &&
            (m.state.pending ==> MarkerGeneration(m.state) == MarkerGeneration(l.state))
  {
    var m := Step(l, Announce(note));
    AppendKeepsMarker(l.state, note);
    hide OneMarker, CoveredCommit;
    assert Stream(l) <= Stream(m);
    if !l.cleared {
      AppendingLosesNothing(l, m);
    }
  }

  lemma DrainMarks(s: NoteState)
    requires OneMarker(s) && s.queue != []
    ensures var t := Drained(s);
            OneMarker(t) && (t.pending ==> s.pending && MarkerGeneration(t) == MarkerGeneration(s))
  {
    var q := s.queue;
    assert FirstMarker(q) == if q[0].kind == TreeInvalidated then 0 else 1 + FirstMarker(q[1..]);
    if q[0].kind == TreeInvalidated {
      assert FirstMarker(q[1..]) == |q| - 1;
    }
  }

  lemma DrainKeepsInv(l: Ledger)
    requires Inv(l)
    ensures var m := Step(l, Drain);
            Inv(m) && (m.state.pending ==> l.state.pending && MarkerGeneration(m.state) == MarkerGeneration(l.state))
  {
    if l.state.queue != [] {
      var m := Step(l, Drain);
      DrainMarks(l.state);
      hide OneMarker, CoveredCommit;
      assert Stream(m) == Stream(l);
      if !l.cleared {
        AppendingLosesNothing(l, m);
      }
    }
  }

  lemma ClearKeepsInv(l: Ledger)
    requires Inv(l)
    ensures var m := Step(l, Clear); Inv(m) && !m.state.pending && m.state.queue == []
  {
  }

  /** Every step of the queue keeps one marker at most, keeps it current, and loses no committed change. */
  lemma StepKeepsInv(l: Ledger, op: Op)
    requires Inv(l) && Allowed(l, op)
    ensures Inv(Step(l, op))
  {
    hide Inv, Step;
    match op
    case Host(v, focusGained) => HostKeepsInv(l, v, focusGained);
    case QueueDiff(before, after) => DiffKeepsInv(l, before, after);
    case Announce(note) => AnnounceKeepsInv(l, note);
    case Drain => DrainKeepsInv(l);
    case Clear => ClearKeepsInv(l);
  }
}
