/** Which records a publication produces, said on the fields of the two snapshots. */
module DiffRecords {
  import opened Options
  import opened Sequences
  import opened Snapshot
  import opened Diff

  // ---------------------------------------------------------------- what each record reports

  /** The two versions of one node differ in what this kind and property stand for. */
  predicate Differs(kind: Kind, property: Property, new_: Node, old_: Node) {
    match kind
    case PropertyChanged =>
      (match property
       case Name => new_.name != old_.name
       case Description => new_.description != old_.description
       case Value =>
         || new_.value != old_.value
         || (new_.rangeValue.Some? && (old_.rangeValue.None? || new_.rangeValue.value.value != old_.rangeValue.value.value))
       case Range =>
         || new_.rangeValue.Some? != old_.rangeValue.Some?
         || (new_.rangeValue.Some? && Bounds(new_.rangeValue.value) != Bounds(old_.rangeValue.value))
       case Scroll => new_.scroll != old_.scroll
       case State => new_.states != old_.states
       case Geometry => new_.geometry != old_.geometry
       case Exposure => new_.exposure != old_.exposure
       case Metadata => MetadataOf(new_) != MetadataOf(old_)
       case _ => false)
    case FocusChanged => property == Name && 2 in new_.states && 2 !in old_.states
    case SelectionChanged =>
      if property == Name then
        || (7 in new_.states) != (7 in old_.states)
        || new_.selection.Some? != old_.selection.Some?
        || (new_.selection.Some? && (new_.selection.value.activeNode != old_.selection.value.activeNode ||
                                     new_.selection.value.selectedNodes != old_.selection.value.selectedNodes))
      else
        && property == Text && new_.text.Some? && old_.text.Some?
        && (new_.text.value.caret != old_.text.value.caret || new_.text.value.selection != old_.text.value.selection)
    case TextChanged =>
      && property == Name
      && (new_.text.Some? != old_.text.Some? || (new_.text.Some? && new_.text.value.utf8 != old_.text.value.utf8))
    case _ => false
  }

  function Bounds(r: RangeValue): (real, real, real, real) {
    (r.minimum, r.maximum, r.smallChange, r.largeChange)
  }

  /** Everything that is reported as metadata: a node stripped of all that has a record of its own. */
  function MetadataOf(n: Node): Node {
    n.(id := 0, parent := 0, children := [], role := 0, name := [], description := [], value := [], states := {}, exposure := 0,
       extensions := [], geometry := None, rangeValue := None, scroll := None,
       selection := if n.selection.Some? then Some(n.selection.value.(selectedNodes := [])) else None,
       text := if n.text.Some? then Some(n.text.value.(utf8 := [], selection := [])) else None)
  }

  /** Node `i` of the later snapshot and node `j` of the earlier one have one id. */
  predicate Pair(before: View, after: View, i: nat, j: nat) {
    i < |after.nodes| && j < |before.nodes| && after.nodes[i].id == before.nodes[j].id
  }

  ghost predicate ReportsNode(before: View, after: View, r: Record) {
    exists i: nat, j: nat ::
      Pair(before, after, i, j) && r.node == after.nodes[i].id && Differs(r.kind, r.property, after.nodes[i], before.nodes[j])
  }

  ghost predicate Rearranged(before: View, after: View) {
    exists i: nat, j: nat ::
      && Pair(before, after, i, j)
      && (after.nodes[i].parent != before.nodes[j].parent || after.nodes[i].children != before.nodes[j].children ||
          after.nodes[i].role != before.nodes[j].role)
  }

  /** The record that the tree changed shape: its nodes are not the same, or one has moved or changed its role. */
  ghost predicate ReportsStructure(before: View, after: View, r: Record) {
    r == Record(StructureChanged, after.root, Name) && (IdSet(before.nodes) != IdSet(after.nodes) || Rearranged(before, after))
  }

  // ---------------------------------------------------------------- one node

  lemma IfRule(r: Record)
    ensures forall c, k, n, p :: r in If(c, k, n, p) <==> c && r == Record(k, n, p)
  {
  }

  lemma ValueRecordsReport(new_: Node, old_: Node, r: Record)
    ensures r in ValueRecords(new_, old_) <==>
              && r.node == new_.id && r.kind == PropertyChanged && r.property in {Name, Description, Value, Range, Scroll, State}
              && Differs(r.kind, r.property, new_, old_)
  {
    IfRule(r);
    hide If, MetadataOf;
  }

  lemma DetailRecordsReport(new_: Node, old_: Node, r: Record)
    ensures r in DetailRecords(new_, old_) <==>
              && r.node == new_.id && !(r.kind == PropertyChanged && r.property in {Name, Description, Value, Range, Scroll, State})
              && Differs(r.kind, r.property, new_, old_)
  {
    IfRule(r);
    MetadataReports(new_, old_);
    hide If, MetadataOf, MetadataDiffers;
  }

  lemma MetadataReports(new_: Node, old_: Node)
    ensures MetadataDiffers(new_, old_) <==> MetadataOf(new_) != MetadataOf(old_)
  {
    if !MetadataDiffers(new_, old_) {
      assert MetadataOf(new_).text == MetadataOf(old_).text;
      assert MetadataOf(new_).selection == MetadataOf(old_).selection;
    }
  }

  lemma NodeRecordsReport(new_: Node, old_: Node, r: Record)
    ensures r in NodeRecords(new_, old_) <==> r.node == new_.id && Differs(r.kind, r.property, new_, old_)
  {
    ValueRecordsReport(new_, old_, r);
    DetailRecordsReport(new_, old_, r);
    hide ValueRecords, DetailRecords, Differs;
  }

  // ---------------------------------------------------------------- all nodes

  lemma {:induction false} AllRecordsFrom(before: seq<Node>, nodes: seq<Node>, r: Record)
    ensures r in AllNodeRecords(before, nodes) <==> exists i :: 0 <= i < |nodes| && r in RecordsOf(before, nodes[i])
    decreases |nodes|
  {
    hide RecordsOf;
    if nodes != [] {
      var last := |nodes| - 1;
      AllRecordsFrom(before, nodes[..last], r);
      assert forall i | 0 <= i < last :: nodes[..last][i] == nodes[i];
    }
  }

  lemma RecordsOfPair(before: View, after: View, i: nat, r: Record)
    requires UniqueIds(before.nodes) && i < |after.nodes|
    ensures r in RecordsOf(before.nodes, after.nodes[i]) <==>
              exists j: nat ::
                Pair(before, after, i, j) && r.node == after.nodes[i].id && Differs(r.kind, r.property, after.nodes[i], before.nodes[j])
  {
    var k := Find(before.nodes, after.nodes[i].id);
    if k < |before.nodes| {
      NodeRecordsReport(after.nodes[i], before.nodes[k], r);
    }
    hide NodeRecords, Differs;
    forall j: nat | Pair(before, after, i, j)
      ensures j == k
    {
      FindById(before.nodes, j);
    }
    if k < |before.nodes| {
      assert Pair(before, after, i, k);
    }
  }

  lemma NodesReported(before: View, after: View, r: Record)
    requires UniqueIds(before.nodes)
    ensures r in AllNodeRecords(before.nodes, after.nodes) <==> ReportsNode(before, after, r)
  {
    AllRecordsFrom(before.nodes, after.nodes, r);
    forall i | 0 <= i < |after.nodes|
      ensures r in RecordsOf(before.nodes, after.nodes[i]) <==>
                exists j: nat ::
                  Pair(before, after, i, j) && r.node == after.nodes[i].id && Differs(r.kind, r.property, after.nodes[i], before.nodes[j])
    {
      RecordsOfPair(before, after, i, r);
    }
    hide AllNodeRecords, RecordsOf, Differs;
  }

  // ---------------------------------------------------------------- structure

  lemma MissingMeansOtherIds(before: View, after: View)
    requires UniqueIds(before.nodes) && UniqueIds(after.nodes)
    ensures IdSet(before.nodes) == IdSet(after.nodes) <==>
              |before.nodes| == |after.nodes| && forall i | 0 <= i < |after.nodes| :: Find(before.nodes, after.nodes[i].id) < |before.nodes|
  {
    var b, a := before.nodes, after.nodes;
    if IdSet(b) == IdSet(a) {
      forall i | 0 <= i < |a|
        ensures Find(b, a[i].id) < |b|
      {
        assert a[i].id in IdSet(b);
      }
      NoLarger(a, b);
      NoLarger(b, a);
    } else if |b| == |a| && forall i | 0 <= i < |a| :: Find(b, a[i].id) < |b| {
      forall i | 0 <= i < |a|
        ensures a[i].id in IdSet(b)
      {
        assert b[Find(b, a[i].id)].id == a[i].id;
      }
      forall k | 0 <= k < |b|
        ensures b[k].id in IdSet(a)
      {
        NoneRemoved(b, a, k);
      }
    }
  }

  lemma NoLarger(a: seq<Node>, b: seq<Node>)
    requires UniqueIds(a) && UniqueIds(b) && IdSet(a) == IdSet(b)
    ensures |a| <= |b|
  {
    var p := Positions(b, a);
    forall i | 0 <= i < |a|
      ensures p[i] < |b|
    {
      assert a[i].id in IdSet(b);
    }
    forall i, j | 0 <= i < j < |a|
      ensures p[i] != p[j]
    {
      assert a[i].id != a[j].id;
      assert b[p[i]].id == a[i].id && b[p[j]].id == a[j].id;
    }
    Pigeonhole(p, |b|);
  }

  lemma StructureReported(before: View, after: View)
    requires UniqueIds(before.nodes) && UniqueIds(after.nodes)
    ensures |before.nodes| != |after.nodes| || AnyStructure(before.nodes, after.nodes) <==>
              IdSet(before.nodes) != IdSet(after.nodes) || Rearranged(before, after)
  {
    var b, a := before.nodes, after.nodes;
    MissingMeansOtherIds(before, after);
    hide IdSet;
    forall i: nat, j: nat | Pair(before, after, i, j)
      ensures Find(b, a[i].id) == j
    {
      FindById(b, j);
    }
    forall i | 0 <= i < |a| && Find(b, a[i].id) < |b|
      ensures Pair(before, after, i, Find(b, a[i].id))
    {
    }
  }

  /** A record is in the list exactly when it reports a difference between the two versions of a node, or a change in the
      shape of the tree. */
  lemma RecordsExactly(before: View, after: View, r: Record)
    requires UniqueIds(before.nodes) && UniqueIds(after.nodes)
    ensures r in Records(before, after) <==> ReportsNode(before, after, r) || ReportsStructure(before, after, r)
  {
    NodesReported(before, after, r);
    StructureReported(before, after);
    IfRule(r);
    hide AllNodeRecords, AnyStructure, ReportsNode, Rearranged, IdSet, If;
  }

  // ---------------------------------------------------------------- nothing is reported twice

  lemma IfOnce(r: Record)
    ensures forall c, k, n, p :: multiset(If(c, k, n, p))[r] == if c && r == Record(k, n, p) then 1 else 0
  {
  }

  lemma ValueRecordsOnce(new_: Node, old_: Node, r: Record)
    ensures multiset(ValueRecords(new_, old_))[r] <= 1
  {
    IfOnce(r);
    hide If, ValueDiffers, RangeDiffers;
  }

  lemma DetailRecordsOnce(new_: Node, old_: Node, r: Record)
    ensures multiset(DetailRecords(new_, old_))[r] <= 1
  {
    IfOnce(r);
    hide If, Focused, SelectionDiffers, TextDiffers, TextSelectionDiffers, MetadataDiffers;
  }

  lemma NodeRecordsOnce(new_: Node, old_: Node, r: Record)
    ensures multiset(NodeRecords(new_, old_))[r] <= 1
  {
    ValueRecordsOnce(new_, old_, r);
    DetailRecordsOnce(new_, old_, r);
    ValueRecordsReport(new_, old_, r);
    DetailRecordsReport(new_, old_, r);
    hide ValueRecords, DetailRecords, Differs;
  }

  lemma NodeOfRecord(before: seq<Node>, node: Node, r: Record)
    ensures r in RecordsOf(before, node) ==> r.node == node.id && r.kind != StructureChanged
    ensures multiset(RecordsOf(before, node))[r] <= 1
  {
    var found := Before(before, node.id);
    hide Before;
    if found.Some? {
      NodeRecordsReport(node, found.value, r);
      NodeRecordsOnce(node, found.value, r);
    }
    hide NodeRecords;
  }

  lemma {:induction false} AllRecordsOnce(before: seq<Node>, nodes: seq<Node>, r: Record)
    requires UniqueIds(nodes)
    ensures multiset(AllNodeRecords(before, nodes))[r] <= 1
    ensures r in AllNodeRecords(before, nodes) ==> r.kind != StructureChanged && exists i :: 0 <= i < |nodes| && nodes[i].id == r.node
    decreases |nodes|
  {
    hide RecordsOf;
    if nodes != [] {
      var last := |nodes| - 1;
      assert UniqueIds(nodes[..last]);
      AllRecordsOnce(before, nodes[..last], r);
      NodeOfRecord(before, nodes[last], r);
      if r in AllNodeRecords(before, nodes[..last]) {
        var i :| 0 <= i < last && nodes[..last][i].id == r.node;
        assert nodes[i].id == r.node;
      }
    }
  }

  /** No change is reported twice. */
  lemma RecordsOnce(before: View, after: View, r: Record)
    requires UniqueIds(after.nodes)
    ensures multiset(Records(before, after))[r] <= 1
  {
    AllRecordsOnce(before.nodes, after.nodes, r);
    IfOnce(r);
    hide AllNodeRecords, AnyStructure, If;
  }
}
