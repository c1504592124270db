/** What each operation does to the notification queue, said on the queue alone. */
module NotificationEffects {
  import opened Options
  import opened Counters
  import opened Snapshot
  import opened Diff
  import opened Notifications
  import opened NotificationRuns

  /** The node that a gained focus names: the last one in the focused state. */
  ghost predicate FocusedAt(nodes: seq<Node>, i: nat) {
    i < |nodes| && 2 in nodes[i].states && forall j | i < j < |nodes| :: 2 !in nodes[j].states
  }

  lemma {:induction false} FocusIsLast(nodes: seq<Node>, i: nat)
    requires FocusedAt(nodes, i)
    ensures FocusedNode(nodes) == nodes[i].id
    decreases |nodes|
  {
    var last := |nodes| - 1;
    if i < last {
      assert FocusedAt(nodes[..last], i);
      FocusIsLast(nodes[..last], i);
    }
  }

  lemma {:induction false} NoFocusIsZero(nodes: seq<Node>)
    requires forall j | 0 <= j < |nodes| :: 2 !in nodes[j].states
    ensures FocusedNode(nodes) == 0
    decreases |nodes|
  {
    if nodes != [] {
      NoFocusIsZero(nodes[..|nodes| - 1]);
    }
  }

  function TreeNote(generation: nat, root: NodeId, before: Option<View>, after: View): Note {
    Note(TreeInvalidated, generation, root, Name, before, Some(after), None)
  }

  /** One tree invalidation is brought up to date, and nothing else changes. */
  ghost predicate RefreshedAt(q: seq<Note>, k: nat, generation: nat, before: Option<View>, after: View, t: seq<Note>) {
    && k < |q| && q[k].kind == TreeInvalidated
    && t == q[k := Note(TreeInvalidated, generation, q[k].node, q[k].property, before, Some(after), q[k].announcement)]
  }

  /** The queue and the collapse count after a host invalidation, before the focus is noted. */
  ghost predicate HostBase(s: NoteState, v: View, base: seq<Note>, collapsed: nat) {
    if s.pending then
      collapsed == s.collapsed && exists k: nat :: k < |s.queue| && RefreshedAt(s.queue, k, v.generation, s.queue[k].before, v, base)
    else if |s.queue| < s.capacity then
      collapsed == s.collapsed && base == s.queue + [TreeNote(v.generation, v.root, Some(v), v)]
    else collapsed == Increment(s.collapsed) && base == [TreeNote(v.generation, v.root, Some(v), v)]
  }

  /** Host invalidation: a pending marker is refreshed, otherwise one is added, and only a full queue is collapsed for it;
      a gained focus is noted behind it if there is room. */
  lemma HostEffect(s: NoteState, v: View, focusGained: bool)
    requires OneMarker(s) && 0 < s.capacity && |s.queue| <= s.capacity
    ensures var t, focus := HostInvalidated(s, v, focusGained), if focusGained then FocusedNode(v.nodes) else 0;
            && t.pending && t.capacity == s.capacity
            && exists base, collapsed ::
                 && HostBase(s, v, base, collapsed)
                 && (if focus == 0 then t.queue == base && t.collapsed == collapsed
                     else if |base| < s.capacity then
                       && t.queue == base + [Note(FocusChanged, v.generation, focus, Name, Some(v), Some(v), None)]
                       && t.collapsed == collapsed
                     else t.queue == base && t.collapsed == Increment(collapsed))
  {
    hide FirstMarker, FocusedNode;
    var base := HostMarked(s, v);
    if s.pending {
      var k := FirstMarker(s.queue);
      assert RefreshedAt(s.queue, k, v.generation, s.queue[k].before, v, base.queue);
    }
    assert HostBase(s, v, base.queue, base.collapsed);
  }

  /** A row of records fits exactly when there is room for all of them; otherwise one marker stands for everything. */
  lemma {:induction false} PushedExactly(s: NoteState, records: seq<Record>, before: Option<View>, after: View)
    requires !s.pending && 0 < s.capacity && |s.queue| <= s.capacity
    ensures var t := AllPushed(s, records, before, after);
            if |s.queue| + |records| <= s.capacity then t == s.(queue := s.queue + NotesOf(records, before, after))
            else t == s.(queue := [TreeNote(after.generation, after.root, before, after)], pending := true,
                         collapsed := Increment(s.collapsed))
    decreases |records|
  {
    if records == [] {
      assert s.queue + NotesOf([], before, after) == s.queue;
    } else {
      var last := |records| - 1;
      PushedExactly(s, records[..last], before, after);
      assert NotesOf(records, before, after) == NotesOf(records[..last], before, after) + [NoteOf(records[last], before, after)];
    }
  }

  /** The diff of a publication: a pending marker is refreshed; a first snapshot invalidates the tree; otherwise every record
      is queued if all fit, and if not one marker replaces the whole queue. */
  lemma DiffEffect(s: NoteState, before: Option<View>, after: View)
    requires OneMarker(s) && 0 < s.capacity && |s.queue| <= s.capacity
    ensures var t, marker := DiffQueued(s, before, after), TreeNote(after.generation, after.root, before, after);
            if s.pending then
              && t == s.(queue := t.queue, collapsed := Increment(s.collapsed))
              && exists k: nat :: RefreshedAt(s.queue, k, after.generation, None, after, t.queue)
            else if before.None? then
              if |s.queue| < s.capacity then t == s.(queue := s.queue + [marker], pending := true)
              else t == s.(queue := [marker], pending := true, collapsed := Increment(s.collapsed))
            else
              var records := Records(before.value, after);
              if |s.queue| + |records| <= s.capacity then
                && |t.queue| == |s.queue| + |records| && t == s.(queue := t.queue) && s.queue <= t.queue
                && forall i | 0 <= i < |records| ::
                     t.queue[|s.queue| + i] ==
                     Note(records[i].kind, after.generation, records[i].node, records[i].property, before, Some(after), None)
              else t == s.(queue := [marker], pending := true, collapsed := Increment(s.collapsed))
  {
    hide Records, DiffQueued, RefreshedAt, NotesOf;
    if s.pending {
      DiffRefreshes(s, before, after);
    } else if before.None? {
      DiffBegins(s, after);
    } else {
      DiffReports(s, before.value, after);
      NotesAppended(s.queue, Records(before.value, after), before, after);
    }
  }

  lemma DiffRefreshes(s: NoteState, before: Option<View>, after: View)
    requires OneMarker(s) && s.pending
    ensures var t := DiffQueued(s, before, after);
            && t == s.(queue := t.queue, collapsed := Increment(s.collapsed))
            && exists k: nat :: RefreshedAt(s.queue, k, after.generation, None, after, t.queue)
  {
    var k := FirstMarker(s.queue);
    assert RefreshedAt(s.queue, k, after.generation, None, after, DiffQueued(s, before, after).queue);
  }

  lemma DiffBegins(s: NoteState, after: View)
    requires !s.pending && |s.queue| <= s.capacity
    ensures var t, marker := DiffQueued(s, None, after), TreeNote(after.generation, after.root, None, after);
            if |s.queue| < s.capacity then t == s.(queue := s.queue + [marker], pending := true)
            else t == s.(queue := [marker], pending := true, collapsed := Increment(s.collapsed))
  {
  }

  lemma DiffReports(s: NoteState, before: View, after: View)
    requires !s.pending && 0 < s.capacity && |s.queue| <= s.capacity
    ensures var t, records := DiffQueued(s, Some(before), after), Records(before, after);
            if |s.queue| + |records| <= s.capacity then t == s.(queue := s.queue + NotesOf(records, Some(before), after))
            else t == s.(queue := [TreeNote(after.generation, after.root, Some(before), after)], pending := true,
                         collapsed := Increment(s.collapsed))
  {
    hide Records, AllPushed, NotesOf;
    PushedExactly(s, Records(before, after), Some(before), after);
  }

  lemma NotesAppended(q: seq<Note>, records: seq<Record>, before: Option<View>, after: View)
    ensures var all := q + NotesOf(records, before, after);
            && |all| == |q| + |records| && q <= all
            && forall i | 0 <= i < |records| ::
                 all[|q| + i] ==
                 Note(records[i].kind, after.generation, records[i].node, records[i].property, before, Some(after), None)
  {
  }

  /** An announcement is refused exactly when the queue is full, and otherwise comes last. */
  lemma AnnounceEffect(s: NoteState, n: Note)
    requires |s.queue| <= s.capacity
    ensures var (t, ok) := Announced(s, n);
            && (ok <==> |s.queue| < s.capacity)
            && t == if |s.queue| < s.capacity then s.(queue := s.queue + [n]) else s
  {
  }

  /** Delivery takes the oldest notification, and the pending flag goes with the marker. */
  lemma DrainEffect(s: NoteState)
    requires OneMarker(s) && s.queue != []
    ensures var t := Drained(s);
            && s.queue == [s.queue[0]] + t.queue && t.capacity == s.capacity && t.collapsed == s.collapsed
            && (t.pending <==> exists i :: 0 <= i < |t.queue| && t.queue[i].kind == TreeInvalidated)
  {
    DrainMarks(s);
    var t := Drained(s);
    if t.pending {
      assert t.queue[FirstMarker(t.queue)].kind == TreeInvalidated;
    }
  }
}
