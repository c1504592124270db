/** The bounded queue of change notifications, which collapses under pressure to one tree invalidation. */
module Notifications {
  import opened Options
  import opened Counters
  import opened Ring
  import opened Snapshot
  import opened Diff

  datatype Announcement = Announcement(text: Bytes, priority: nat)

  /** A queued notification with the snapshots it retains and the announcement it carries. */
  datatype Note = Note(
    kind: Kind, generation: nat, node: NodeId, property: Property, before: Option<View>, after: Option<View>,
    announcement: Option<Announcement>)

  /** `pending` is `invalidationPending`. */
  datatype NoteState = NoteState(queue: seq<Note>, capacity: nat, pending: bool, collapsed: nat)

  /** The node that carries the focus, or zero. */
  function FocusedNode(nodes: seq<Node>): NodeId {
    if nodes == [] then 0
    else if Focused(nodes[|nodes| - 1]) then nodes[|nodes| - 1].id
    else FocusedNode(nodes[..|nodes| - 1])
  }

  function NoteOf(r: Record, before: Option<View>, after: View): Note {
    Note(r.kind, after.generation, r.node, r.property, before, Some(after), None)
  }

  /** The note for an announcement about a node, or about the root when no node is named. */
  function Announcing(v: View, node: NodeId, announcement: Announcement): Note {
    Note(LiveRegionChanged, v.generation, Subject(v, node), Name, None, Some(v), Some(announcement))
  }

  function Subject(v: View, node: NodeId): NodeId {
    if node != 0 then node else v.root
  }

  function Marker(before: Option<View>, after: View): Note {
    NoteOf(Record(TreeInvalidated, after.root, Name), before, after)
  }

  /** The first tree invalidation in the queue, or the queue length. */
  function FirstMarker(q: seq<Note>): (k: nat)
    ensures k <= |q| && (k < |q| ==> q[k].kind == TreeInvalidated)
    ensures forall i | 0 <= i < k :: q[i].kind != TreeInvalidated
  {
    if q == [] || q[0].kind == TreeInvalidated then 0 else 1 + FirstMarker(q[1..])
  }

  function Append(s: NoteState, n: Note): NoteState {
    s.(queue := s.queue + [n])
  }

  // ---------------------------------------------------------------- host invalidation

  function HostMarked(s: NoteState, v: View): NoteState {
    if s.pending then
      var k := FirstMarker(s.queue);
      if k < |s.queue| then s.(queue := s.queue[k := s.queue[k].(generation := v.generation, after := Some(v))]) else s
    else
      var t := if |s.queue| == s.capacity then s.(queue := [], collapsed := Increment(s.collapsed)) else s;
      Append(t, Marker(Some(v), v)).(pending := true)
  }

  function FocusNoted(s: NoteState, v: View, focusGained: bool): NoteState {
    var focused := FocusedNode(v.nodes);
    if !focusGained || focused == 0 then s
    else if |s.queue| < s.capacity then Append(s, NoteOf(Record(FocusChanged, focused, Name), Some(v), v))
    else s.(collapsed := Increment(s.collapsed))
  }

  /** `invalidateAccessibilityHost` once it holds the notification mutex, has a snapshot and has seen the runtime live. */
  function HostInvalidated(s: NoteState, v: View, focusGained: bool): NoteState {
    FocusNoted(HostMarked(s, v), v, focusGained)
  }

  // ---------------------------------------------------------------- the diff of a publication

  function Collapsed(s: NoteState, before: Option<View>, after: View): NoteState {
    s.(queue := [Marker(before, after)], pending := true, collapsed := Increment(s.collapsed))
  }

  function Pushed(s: NoteState, r: Record, before: Option<View>, after: View): NoteState {
    if s.pending then s
    else if |s.queue| == s.capacity then Collapsed(s, before, after)
    else Append(s, NoteOf(r, before, after))
  }

  function AllPushed(s: NoteState, records: seq<Record>, before: Option<View>, after: View): NoteState {
    if records == [] then s
    else Pushed(AllPushed(s, records[..|records| - 1], before, after), records[|records| - 1], before, after)
  }

  function Refreshed(s: NoteState, after: View): NoteState {
    var k := FirstMarker(s.queue);
    if k == |s.queue| then s
    else s.(queue := s.queue[k := s.queue[k].(generation := after.generation, before := None, after := Some(after))],
            collapsed := Increment(s.collapsed))
  }

  /** `queueDiff`. */
  ghost function DiffQueued(s: NoteState, before: Option<View>, after: View): NoteState {
    if s.pending then Refreshed(s, after)
    else if before.None? then Pushed(s, Record(TreeInvalidated, after.root, Name), before, after).(pending := true)
    else AllPushed(s, Records(before.value, after), before, after)
  }

  // ---------------------------------------------------------------- announcements, delivery, close

  function Announced(s: NoteState, n: Note): (NoteState, bool) {
    if |s.queue| == s.capacity then (s, false) else (Append(s, n), true)
  }

  function Drained(s: NoteState): NoteState {
    if s.queue == [] then s
    else s.(queue := s.queue[1..], pending := s.pending && s.queue[0].kind != TreeInvalidated)
  }

  function Cleared(s: NoteState): NoteState {
    s.(queue := [], pending := false)
  }

  // ---------------------------------------------------------------- pushing in a row

  lemma {:induction false} AllPushedConcat(s: NoteState, a: seq<Record>, b: seq<Record>, before: Option<View>, after: View)
    ensures AllPushed(s, a + b, before, after) == AllPushed(AllPushed(s, a, before, after), b, before, after)
    decreases |b|
  {
    hide Pushed;
    if b == [] {
      assert a + b == a;
    } else {
      var last := |b| - 1;
      assert (a + b)[..|a + b| - 1] == a + b[..last];
      AllPushedConcat(s, a, b[..last], before, after);
    }
  }

  lemma OnePushed(s: NoteState, r: Record, before: Option<View>, after: View)
    ensures AllPushed(s, [r], before, after) == Pushed(s, r, before, after)
  {
    hide Pushed;
    assert [r][..0] == [];
  }

  /** A snapshot as published: with its table of ids. */
  datatype Published = Published(view: View, index: seq<Entry>)

  class NotificationQueue {
    const ring: Ring<Note>
    var invalidationPending: bool
    var collapsed: nat

    constructor (capacity: nat)
      requires capacity > 0
      ensures Valid() && fresh(ring) && fresh(ring.slots) && Model() == NoteState([], capacity, false, 0)
    {
      ring := new Ring<Note>(capacity, Note(TreeInvalidated, 0, 0, Name, None, None, None));
      invalidationPending, collapsed := false, 0;
    }

    ghost predicate Valid()
      reads this, ring, ring.slots
    {
      ring.Valid() && ring.slots.Length > 0
    }

    ghost function Model(): NoteState
      requires Valid()
      reads this, ring, ring.slots
    {
      NoteState(ring.Contents(), ring.slots.Length, invalidationPending, collapsed)
    }

    method FindMarker() returns (k: nat)
      requires Valid()
      ensures k == FirstMarker(ring.Contents())
    {
      k := 0;
      ghost var q := ring.Contents();
      while k < ring.count
        invariant k <= ring.count && FirstMarker(q) == k + FirstMarker(q[k..])
      {
        var note := ring.At(k);
        assert q[k..][1..] == q[k + 1..];
        if note.kind == TreeInvalidated {
          return;
        }
        k := k + 1;
      }
    }

    method InvalidateHost(v: View, focusGained: bool)
      requires Valid()
      modifies this`invalidationPending, this`collapsed, ring, ring.slots
      ensures Valid() && Model() == HostInvalidated(old(Model()), v, focusGained)
    {
      MarkHost(v);
      var focused := FocusedNode(v.nodes);
      if focusGained && focused != 0 {
        if ring.count < ring.slots.Length {
          ring.PushBack(NoteOf(Record(FocusChanged, focused, Name), Some(v), v));
        } else {
          collapsed := Increment(collapsed);
        }
      }
    }

    method MarkHost(v: View)
      requires Valid()
      modifies this`invalidationPending, this`collapsed, ring, ring.slots
      ensures Valid() && Model() == HostMarked(old(Model()), v)
    {
      if invalidationPending {
        var k := FindMarker();
        if k < ring.count {
          var note := ring.At(k);
          ring.Put(k, note.(generation := v.generation, after := Some(v)));
        }
      } else {
        if ring.count == ring.slots.Length {
          ring.Clear();
          collapsed := Increment(collapsed);
        }
        invalidationPending := true;
        ring.PushBack(Marker(Some(v), v));
      }
    }

    method Collapse(before: Option<View>, after: View)
      requires Valid()
      modifies this`invalidationPending, this`collapsed, ring, ring.slots
      ensures Valid() && Model() == Collapsed(old(Model()), before, after)
    {
      ring.Clear();
      invalidationPending := true;
      collapsed := Increment(collapsed);
      ring.PushBack(Marker(before, after));
    }

    method Push(r: Record, before: Option<View>, after: View)
      requires Valid()
      modifies this`invalidationPending, this`collapsed, ring, ring.slots
      ensures Valid() && Model() == Pushed(old(Model()), r, before, after)
    {
      if invalidationPending {
        return;
      }
      if ring.count == ring.slots.Length {
        Collapse(before, after);
        return;
      }
      ring.PushBack(NoteOf(r, before, after));
    }

    /** Pushes one record if its comparison found a difference; `done` are the records pushed since `start`. */
    method PushIf(
      condition: bool, kind: Kind, node: NodeId, property: Property, before: Option<View>, after: View,
      ghost start: NoteState, ghost done: seq<Record>)
      returns (ghost more: seq<Record>)
      requires Valid() && Model() == AllPushed(start, done, before, after)
      modifies this`invalidationPending, this`collapsed, ring, ring.slots
      ensures Valid() && more == done + If(condition, kind, node, property) && Model() == AllPushed(start, more, before, after)
    {
      if condition {
        more := done + [Record(kind, node, property)];
        OnePushed(Model(), Record(kind, node, property), before, after);
        AllPushedConcat(start, done, [Record(kind, node, property)], before, after);
        Push(Record(kind, node, property), before, after);
      } else {
        more := done;
        assert done + [] == done;
      }
    }

    /** The comparisons of two versions of a node. */
    method PushNode(node: Node, old_: Node, before: Option<View>, after: View)
      requires Valid()
      modifies this`invalidationPending, this`collapsed, ring, ring.slots
      ensures Valid() && Model() == AllPushed(old(Model()), NodeRecords(node, old_), before, after)
    {
      hide AllPushed, ValueRecords, DetailRecords, AllEqual;
      AllPushedConcat(Model(), ValueRecords(node, old_), DetailRecords(node, old_), before, after);
      PushValues(node, old_, before, after);
      PushDetails(node, old_, before, after);
    }

    method PushValues(node: Node, old_: Node, before: Option<View>, after: View)
      requires Valid()
      modifies this`invalidationPending, this`collapsed, ring, ring.slots
      ensures Valid() && Model() == AllPushed(old(Model()), ValueRecords(node, old_), before, after)
    {
      ghost var start := Model();
      var id, n := node.id, node;
      assert AllPushed(start, [], before, after) == start;
      hide AllPushed, If, AllEqual, ValueDiffers, RangeDiffers;
      ghost var done := PushIf(n.name != old_.name, PropertyChanged, id, Name, before, after, start, []);
      assert [] + If(n.name != old_.name, PropertyChanged, id, Name) == If(n.name != old_.name, PropertyChanged, id, Name);
      done := PushIf(n.description != old_.description, PropertyChanged, id, Description, before, after, start, done);
      done := PushIf(ValueDiffers(n, old_), PropertyChanged, id, Value, before, after, start, done);
      done := PushIf(RangeDiffers(n.rangeValue, old_.rangeValue), PropertyChanged, id, Range, before, after, start, done);
      done := PushIf(n.scroll != old_.scroll, PropertyChanged, id, Scroll, before, after, start, done);
      done := PushIf(n.states != old_.states, PropertyChanged, id, Property.State, before, after, start, done);
    }

    method PushDetails(node: Node, old_: Node, before: Option<View>, after: View)
      requires Valid()
      modifies this`invalidationPending, this`collapsed, ring, ring.slots
      ensures Valid() && Model() == AllPushed(old(Model()), DetailRecords(node, old_), before, after)
    {
      ghost var start := Model();
      var id, n := node.id, node;
      assert AllPushed(start, [], before, after) == start;
      hide AllPushed, If, AllEqual, Focused, SelectionDiffers, TextDiffers, TextSelectionDiffers, MetadataDiffers;
      var focus := Focused(n) && !Focused(old_);
      ghost var done := PushIf(focus, FocusChanged, id, Name, before, after, start, []);
      assert [] + If(focus, FocusChanged, id, Name) == If(focus, FocusChanged, id, Name);
      done := PushIf(SelectionDiffers(n, old_), SelectionChanged, id, Name, before, after, start, done);
      done := PushIf(TextDiffers(n.text, old_.text), TextChanged, id, Name, before, after, start, done);
      done := PushIf(TextSelectionDiffers(n.text, old_.text), SelectionChanged, id, Text, before, after, start, done);
      done := PushIf(n.geometry != old_.geometry, PropertyChanged, id, Property.Geometry, before, after, start, done);
      done := PushIf(n.exposure != old_.exposure, PropertyChanged, id, Exposure, before, after, start, done);
      done := PushIf(MetadataDiffers(n, old_), PropertyChanged, id, Metadata, before, after, start, done);
    }

    /** `queueDiff`: refreshes the marker, or announces the first tree, or compares node by node. */
    method QueueDiff(before: Option<Published>, after: View)
      requires Valid()
      requires before.Some? ==> UniqueIds(before.value.view.nodes) && Indexed(before.value.index, before.value.view.nodes)
      modifies this`invalidationPending, this`collapsed, ring, ring.slots
      ensures Valid()
      ensures Model() == DiffQueued(old(Model()), if before.Some? then Some(before.value.view) else None, after)
    {
      if invalidationPending {
        var k := FindMarker();
        if k < ring.count {
          var note := ring.At(k);
          ring.Put(k, note.(generation := after.generation, before := None, after := Some(after)));
          collapsed := Increment(collapsed);
        }
      } else if before.None? {
        Push(Record(TreeInvalidated, after.root, Name), None, after);
        invalidationPending := true;
      } else {
        CompareNodes(before.value.view, before.value.index, after);
      }
    }

    method CompareNodes(before: View, index: seq<Entry>, after: View)
      requires Valid() && UniqueIds(before.nodes) && Indexed(index, before.nodes)
      modifies this`invalidationPending, this`collapsed, ring, ring.slots
      ensures Valid() && Model() == AllPushed(old(Model()), Records(before, after), Some(before), after)
    {
      hide AllEqual, RecordsOf, StructureDiffers, Pushed, Indexed, UniqueIds;
      ghost var start, b := Model(), before.nodes;
      var structure := |before.nodes| != |after.nodes|;
      for i := 0 to |after.nodes|
        invariant Valid() && Model() == AllPushed(start, AllNodeRecords(b, after.nodes[..i]), Some(before), after)
        invariant structure <==> |b| != |after.nodes| || AnyStructure(b, after.nodes[..i])
      {
        hide AnyStructure, AllPushed;
        RecordsGrow(b, after.nodes, i);
        StructureGrows(b, after.nodes, i);
        AllPushedConcat(start, AllNodeRecords(b, after.nodes[..i]), RecordsOf(b, after.nodes[i]), Some(before), after);
        var moved := CompareNode(before, index, after.nodes[i], after);
        structure := structure || moved;
      }
      assert after.nodes[..|after.nodes|] == after.nodes;
      ghost var all := PushIf(structure, StructureChanged, after.root, Name, Some(before), after, start, AllNodeRecords(b, after.nodes));
    }

    /** Compares one node with its earlier version, if there is one. */
    method CompareNode(before: View, index: seq<Entry>, node: Node, after: View) returns (structure: bool)
      requires Valid() && UniqueIds(before.nodes) && Indexed(index, before.nodes)
      modifies this`invalidationPending, this`collapsed, ring, ring.slots
      ensures Valid() && Model() == AllPushed(old(Model()), RecordsOf(before.nodes, node), Some(before), after)
      ensures structure <==> StructureDiffers(before.nodes, node)
    {
      hide AllEqual, NodeRecords, MovedNode, Pushed, Indexed, UniqueIds;
      var k := Lookup(index, before.nodes, node.id);
      if k == |before.nodes| {
        return true;
      }
      structure := MovedNode(node, before.nodes[k]);
      PushNode(node, before.nodes[k], Some(before), after);
    }

    /** The locked part of `announce`; `live` is the gate as loaded under the lock. */
    method Announce(live: bool, n: Note) returns (ok: bool)
      requires Valid()
      modifies ring, ring.slots
      ensures Valid()
      ensures if live then (Model(), ok) == Announced(old(Model()), n) else !ok && Model() == old(Model())
    {
      if !live || ring.count == ring.slots.Length {
        return false;
      }
      ring.PushBack(n);
      return true;
    }

    /** One round of `drainAccessibilityNotifications`. */
    method Drain(live: bool) returns (r: Option<Note>)
      requires Valid()
      modifies this`invalidationPending, ring, ring.slots
      ensures Valid()
      ensures if !live || old(ring.Contents()) == [] then r == None && Model() == old(Model())
              else r == Some(old(ring.Contents())[0]) && Model() == Drained(old(Model()))
    {
      if !live || ring.count == 0 {
        return None;
      }
      var note := ring.PopFront();
      if note.kind == TreeInvalidated {
        invalidationPending := false;
      }
      return Some(note);
    }

    /** The closer's part under the notification mutex. */
    method Close()
      requires Valid()
      modifies this`invalidationPending, ring, ring.slots
      ensures Valid() && Model() == Cleared(old(Model()))
    {
      ring.Clear();
      invalidationPending := false;
    }
  }

  lemma RecordsGrow(before: seq<Node>, nodes: seq<Node>, i: nat)
    requires i < |nodes|
    ensures AllNodeRecords(before, nodes[..i + 1]) == AllNodeRecords(before, nodes[..i]) + RecordsOf(before, nodes[i])
  {
    hide RecordsOf;
    assert nodes[..i + 1][..i] == nodes[..i];
  }

  lemma StructureGrows(before: seq<Node>, nodes: seq<Node>, i: nat)
    requires i < |nodes|
    ensures AnyStructure(before, nodes[..i + 1]) <==> AnyStructure(before, nodes[..i]) || StructureDiffers(before, nodes[i])
  {
    hide StructureDiffers;
    var a, b := nodes[..i], nodes[..i + 1];
    assert forall j | 0 <= j < i :: a[j] == b[j];
    if AnyStructure(before, a) {
      var j :| 0 <= j < |a| && StructureDiffers(before, a[j]);
      assert StructureDiffers(before, b[j]);
    }
    assert b[i] == nodes[i];
  }
}
