/** The change records that a publication produces from the snapshot before and the snapshot after. */
module Diff {
  import opened Options
  import opened Sequences
  import opened Snapshot

  datatype Kind =
    | TreeInvalidated
    | StructureChanged
    | PropertyChanged
    | FocusChanged
    | SelectionChanged
    | TextChanged
    | LiveRegionChanged

  datatype Property =
    | Name
    | Description
    | Value
    | State
    | Selection
    | Range
    | Scroll
    | Geometry
    | Text
    | Exposure
    | Metadata

  datatype Record = Record(kind: Kind, node: NodeId, property: Property)

  function If(condition: bool, kind: Kind, node: NodeId, property: Property): seq<Record> {
    if condition then [Record(kind, node, property)] else []
  }

  // ---------------------------------------------------------------- the comparisons, one per pushed record

  predicate MovedNode(node: Node, old_: Node) {
    node.parent != old_.parent || node.children != old_.children || node.role != old_.role
  }

  predicate ValueDiffers(node: Node, old_: Node) {
    || node.value != old_.value
    || (node.rangeValue.Some? && (old_.rangeValue.None? || node.rangeValue.value.value != old_.rangeValue.value.value))
  }

  predicate RangeDiffers(a: Option<RangeValue>, b: Option<RangeValue>) {
    || a.Some? != b.Some?
    || (a.Some? && !(a.value.minimum == b.value.minimum && a.value.maximum == b.value.maximum &&
                     a.value.smallChange == b.value.smallChange && a.value.largeChange == b.value.largeChange))
  }

  predicate Focused(node: Node) {
    STATE_FOCUSED in node.states
  }

  predicate Selected(node: Node) {
    STATE_SELECTED in node.states
  }

  predicate SelectionDiffers(node: Node, old_: Node) {
    || Selected(node) != Selected(old_)
    || node.selection.Some? != old_.selection.Some?
    || (node.selection.Some? && !(node.selection.value.activeNode == old_.selection.value.activeNode &&
                                  node.selection.value.selectedNodes == old_.selection.value.selectedNodes))
  }

  predicate TextDiffers(a: Option<TextContent>, b: Option<TextContent>) {
    a.Some? != b.Some? || (a.Some? && b.Some? && a.value.utf8 != b.value.utf8)
  }

  predicate TextSelectionDiffers(a: Option<TextContent>, b: Option<TextContent>) {
    a.Some? && b.Some? && (a.value.caret != b.value.caret || a.value.selection != b.value.selection)
  }

  predicate TextMetadataDiffers(a: Option<TextContent>, b: Option<TextContent>) {
    || a.Some? != b.Some?
    || (a.Some? && !(a.value.direction == b.value.direction && a.value.language == b.value.language &&
                     a.value.caret == b.value.caret && a.value.annotations == b.value.annotations &&
                     a.value.fragments == b.value.fragments))
  }

  predicate SelectionMetadataDiffers(a: Option<SelectionInfo>, b: Option<SelectionInfo>) {
    || a.Some? != b.Some?
    || (a.Some? && b.Some? && (a.value.multiSelectable != b.value.multiSelectable ||
                               a.value.selectionRequired != b.value.selectionRequired ||
                               a.value.activeNode != b.value.activeNode))
  }

  predicate MetadataDiffers(node: Node, old_: Node) {
    || node.actions != old_.actions || node.helpText != old_.helpText || node.language != old_.language
    || node.accessKey != old_.accessKey || node.keyboardShortcut != old_.keyboardShortcut
    || node.relations != old_.relations || TextMetadataDiffers(node.text, old_.text)
    || node.collection != old_.collection || node.virtualization != old_.virtualization
    || SelectionMetadataDiffers(node.selection, old_.selection)
  }

  function ValueRecords(node: Node, old_: Node): seq<Record> {
    var id := node.id;
    If(node.name != old_.name, PropertyChanged, id, Name)
    + If(node.description != old_.description, PropertyChanged, id, Description)
    + If(ValueDiffers(node, old_), PropertyChanged, id, Value)
    + If(RangeDiffers(node.rangeValue, old_.rangeValue), PropertyChanged, id, Range)
    + If(node.scroll != old_.scroll, PropertyChanged, id, Scroll)
    + If(node.states != old_.states, PropertyChanged, id, State)
  }

  function DetailRecords(node: Node, old_: Node): seq<Record> {
    var id := node.id;
    If(Focused(node) && !Focused(old_), FocusChanged, id, Name)
    + If(SelectionDiffers(node, old_), SelectionChanged, id, Name)
    + If(TextDiffers(node.text, old_.text), TextChanged, id, Name)
    + If(TextSelectionDiffers(node.text, old_.text), SelectionChanged, id, Text)
    + If(node.geometry != old_.geometry, PropertyChanged, id, Property.Geometry)
    + If(node.exposure != old_.exposure, PropertyChanged, id, Exposure)
    + If(MetadataDiffers(node, old_), PropertyChanged, id, Metadata)
  }

  /** The records for a node present in both snapshots, in the order they are pushed. */
  function NodeRecords(node: Node, old_: Node): seq<Record> {
    ValueRecords(node, old_) + DetailRecords(node, old_)
  }

  /** The node of the earlier snapshot with this id, if it has one. */
  ghost function Before(before: seq<Node>, id: NodeId): Option<Node> {
    var k := Find(before, id);
    if k < |before| then Some(before[k]) else None
  }

  ghost predicate StructureDiffers(before: seq<Node>, node: Node) {
    var found := Before(before, node.id);
    found.None? || MovedNode(node, found.value)
  }

  ghost function RecordsOf(before: seq<Node>, node: Node): seq<Record> {
    var found := Before(before, node.id);
    if found.None? then [] else NodeRecords(node, found.value)
  }

  ghost function AllNodeRecords(before: seq<Node>, nodes: seq<Node>): seq<Record> {
    if nodes == [] then [] else AllNodeRecords(before, nodes[..|nodes| - 1]) + RecordsOf(before, nodes[|nodes| - 1])
  }

  ghost predicate AnyStructure(before: seq<Node>, nodes: seq<Node>) {
    exists i | 0 <= i < |nodes| :: StructureDiffers(before, nodes[i])
  }

  /** The records of one publication: nodes in storage order, then structure last. */
  ghost function Records(before: View, after: View): seq<Record> {
    AllNodeRecords(before.nodes, after.nodes)
    + If(|before.nodes| != |after.nodes| || AnyStructure(before.nodes, after.nodes), StructureChanged, after.root, Name)
  }

  // ---------------------------------------------------------------- what silence means

  /** Equal in every field but the extensions. */
  predicate SameExceptExtensions(a: Node, b: Node) {
    a == b.(extensions := a.extensions)
  }

  /** Some node of the list is this one, up to extensions. */
  ghost predicate Represented(node: Node, nodes: seq<Node>) {
    exists j :: 0 <= j < |nodes| && SameExceptExtensions(node, nodes[j])
  }

  ghost predicate SameTree(a: seq<Node>, b: seq<Node>) {
    && (forall i | 0 <= i < |a| :: Represented(a[i], b))
    && (forall i | 0 <= i < |b| :: Represented(b[i], a))
  }

  lemma ConcatEmpty<T>(a: seq<T>, b: seq<T>)
    ensures a + b == [] <==> a == [] && b == []
  {
    assert |a + b| == |a| + |b|;
  }

  /** No comparison reports a difference exactly when the nodes agree on everything but extensions. */
  predicate Quiet(node: Node, old_: Node) {
    && node.name == old_.name && node.description == old_.description && !ValueDiffers(node, old_)
    && !RangeDiffers(node.rangeValue, old_.rangeValue) && node.scroll == old_.scroll && node.states == old_.states
    && !SelectionDiffers(node, old_) && !TextDiffers(node.text, old_.text) && !TextSelectionDiffers(node.text, old_.text)
    && node.geometry == old_.geometry && node.exposure == old_.exposure && !MetadataDiffers(node, old_)
  }

  lemma NoRecordIsQuiet(node: Node, old_: Node)
    ensures NodeRecords(node, old_) == [] <==> Quiet(node, old_)
  {
    hide ValueDiffers, RangeDiffers, SelectionDiffers, TextDiffers, TextSelectionDiffers, MetadataDiffers;
  }

  lemma QuietIsSame(node: Node, old_: Node)
    requires node.id == old_.id
    ensures Quiet(node, old_) && !MovedNode(node, old_) <==> SameExceptExtensions(node, old_)
  {
    if Quiet(node, old_) && !MovedNode(node, old_) {
      assert node.rangeValue == old_.rangeValue;
      assert node.selection == old_.selection;
      assert node.text == old_.text;
    }
  }

  lemma {:induction false} NoRecordAnywhere(before: seq<Node>, nodes: seq<Node>)
    ensures AllNodeRecords(before, nodes) == [] <==> forall i | 0 <= i < |nodes| :: RecordsOf(before, nodes[i]) == []
  {
    hide RecordsOf;
    if nodes != [] {
      var last := |nodes| - 1;
      NoRecordAnywhere(before, nodes[..last]);
      ConcatEmpty(AllNodeRecords(before, nodes[..last]), RecordsOf(before, nodes[last]));
      assert forall i | 0 <= i < last :: nodes[..last][i] == nodes[i];
    }
  }

  /** For one node: no record and no structural change exactly when the earlier snapshot has the same node. */
  lemma SilentNode(before: seq<Node>, node: Node)
    requires UniqueIds(before)
    ensures RecordsOf(before, node) == [] && !StructureDiffers(before, node) <==> Represented(node, before)
  {
    var k := Find(before, node.id);
    if k < |before| {
      NoRecordIsQuiet(node, before[k]);
      QuietIsSame(node, before[k]);
    }
    hide NodeRecords, MovedNode, Quiet;
    if Represented(node, before) {
      var j :| 0 <= j < |before| && SameExceptExtensions(node, before[j]);
      FindById(before, j);
    }
  }

  /** Where the nodes of `after` are all found in `before`, at which positions they are found. */
  ghost function Positions(before: seq<Node>, after: seq<Node>): (p: seq<nat>)
    ensures |p| == |after| && forall i | 0 <= i < |after| :: p[i] == Find(before, after[i].id)
  {
    seq(|after|, i requires 0 <= i < |after| => Find(before, after[i].id))
  }

  /** As many distinct nodes found as there are: none is missing. This is how a removed node is noticed. */
  lemma NoneRemoved(before: seq<Node>, after: seq<Node>, k: nat)
    requires UniqueIds(before) && UniqueIds(after) && |before| == |after| && k < |before|
    requires forall i | 0 <= i < |after| :: Find(before, after[i].id) < |before|
    ensures exists i | 0 <= i < |after| :: Find(before, after[i].id) == k
  {
    var p := Positions(before, after);
    forall i, j | 0 <= i < j < |p|
      ensures p[i] != p[j]
    {
      assert after[i].id != after[j].id;
      assert before[p[i]].id == after[i].id && before[p[j]].id == after[j].id;
    }
    AllPigeonholes(p, |p|, k);
    var i :| 0 <= i < |p| && p[i] == k;
    assert Find(before, after[i].id) == k;
  }

  lemma SilentBothWays(before: seq<Node>, after: seq<Node>)
    requires UniqueIds(before) && UniqueIds(after) && |before| == |after|
    requires forall i | 0 <= i < |after| :: Represented(after[i], before)
    ensures SameTree(after, before)
  {
    forall i | 0 <= i < |after|
      ensures Find(before, after[i].id) < |before| && SameExceptExtensions(after[i], before[Find(before, after[i].id)])
    {
      assert Represented(after[i], before);
      var j :| 0 <= j < |before| && SameExceptExtensions(after[i], before[j]);
      FindById(before, j);
    }
    forall k | 0 <= k < |before|
      ensures Represented(before[k], after)
    {
      NoneRemoved(before, after, k);
      var i :| 0 <= i < |after| && Find(before, after[i].id) == k;
      assert SameExceptExtensions(before[k], after[i]);
    }
  }

  lemma SameTreeIsNoLarger(a: seq<Node>, b: seq<Node>)
    requires UniqueIds(a) && UniqueIds(b) && SameTree(a, b)
    ensures |a| <= |b|
  {
    var p := Positions(b, a);
    forall i | 0 <= i < |a|
      ensures p[i] < |b|
    {
      assert Represented(a[i], b);
      var j :| 0 <= j < |b| && SameExceptExtensions(a[i], b[j]);
      FindById(b, j);
    }
    forall i, j | 0 <= i < j < |a|
      ensures p[i] != p[j]
    {
      assert a[i].id != a[j].id;
      assert b[p[i]].id == a[i].id && b[p[j]].id == a[j].id;
    }
    Pigeonhole(p, |b|);
  }

  /** A publication is silent exactly when both snapshots hold the same nodes, equal in every field except extensions,
      in whatever order they are stored. */
  lemma SilentExactlyWhenSame(before: View, after: View)
    requires UniqueIds(before.nodes) && UniqueIds(after.nodes)
    ensures Records(before, after) == [] <==> SameTree(after.nodes, before.nodes)
  {
    var b, a := before.nodes, after.nodes;
    NoRecordAnywhere(b, a);
    ConcatEmpty(AllNodeRecords(b, a), If(|b| != |a| || AnyStructure(b, a), StructureChanged, after.root, Name));
    forall i | 0 <= i < |a|
      ensures RecordsOf(b, a[i]) == [] && !StructureDiffers(b, a[i]) <==> Represented(a[i], b)
    {
      SilentNode(b, a[i]);
    }
    hide RecordsOf, StructureDiffers, Represented, AllNodeRecords;
    if Records(before, after) == [] {
      SilentBothWays(b, a);
    }
    if SameTree(a, b) {
      SameTreeIsNoLarger(a, b);
      SameTreeIsNoLarger(b, a);
    }
  }

  ghost function IdSet(nodes: seq<Node>): set<NodeId> {
    set i | 0 <= i < |nodes| :: nodes[i].id
  }

  lemma SameTreeSameIds(a: seq<Node>, b: seq<Node>)
    requires SameTree(a, b)
    ensures IdSet(a) == IdSet(b)
  {
    forall i | 0 <= i < |a|
      ensures a[i].id in IdSet(b)
    {
      assert Represented(a[i], b);
    }
    forall i | 0 <= i < |b|
      ensures b[i].id in IdSet(a)
    {
      assert Represented(b[i], a);
    }
  }
}
