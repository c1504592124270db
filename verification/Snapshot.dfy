/** The semantic snapshot that an application submits, and the limits it is held to. */
module Snapshot {
  import opened Options

  /** Application-owned node identity; zero means absent. */
  type NodeId = nat
  type Bytes = seq<bv8>

  const ROLE_TABLE: nat := 29
  const ROLE_CELL: nat := 31
  const ROLE_COLUMN_HEADER: nat := 32
  const ROLE_ROW_HEADER: nat := 33
  const ROLE_COUNT: nat := 55

  // State and action sets hold the positions of the bits that are set.
  const STATE_FOCUSABLE: nat := 1
  const STATE_FOCUSED: nat := 2
  const STATE_SELECTED: nat := 7
  const STATE_SELECTABLE: nat := 8
  const STATE_CHECKED: nat := 11
  const STATE_MIXED: nat := 12
  const STATE_COUNT: nat := 23
  const ACTION_FOCUS: nat := 0
  const ACTION_SET_VALUE: nat := 2
  const ACTION_SCROLL_TO: nat := 10
  const ACTION_REALIZE: nat := 13
  const ACTION_COUNT: nat := 14
  const EXPOSURE_COUNT: nat := 4
  const RELATION_COUNT: nat := 11
  const DIRECTION_COUNT: nat := 4
  const ANNOTATION_LANGUAGE: nat := 0
  const ANNOTATION_COUNT: nat := 5
  const INT32_MAX: nat := 0x7FFF_FFFF

  datatype Rect = Rect(x: real, y: real, width: real, height: real)

  datatype Geometry = Geometry(localBounds: Rect, toWindow: seq<real>, clippingBounds: Option<Rect>,
                               visible: bool, hitTestable: bool, hitTestOrder: nat)

  datatype RangeValue = RangeValue(value: real, minimum: real, maximum: real, smallChange: real, largeChange: real)

  datatype ScrollInfo = ScrollInfo(horizontalScrollable: bool, verticalScrollable: bool, horizontalPercent: real,
                                   verticalPercent: real, horizontalViewSize: real, verticalViewSize: real)

  datatype SelectionInfo = SelectionInfo(selectedNodes: seq<NodeId>, activeNode: NodeId, multiSelectable: bool,
                                         selectionRequired: bool)

  datatype CollectionInfo = CollectionInfo(rowCount: nat, columnCount: nat, rowIndex: nat, columnIndex: nat, rowSpan: nat,
                                           columnSpan: nat, positionInSet: nat, setSize: nat, level: nat)

  datatype VirtualizationInfo = VirtualizationInfo(virtualized: bool, realized: bool, canRealize: bool,
                                                   realizedChildCount: nat, totalChildCount: nat)

  datatype TextRange = TextRange(begin: nat, end: nat)

  datatype TextAnnotation = TextAnnotation(range: TextRange, kind: nat, value: Bytes, target: NodeId)

  datatype TextFragment = TextFragment(range: TextRange, bounds: Rect)

  datatype TextContent = TextContent(utf8: Bytes, direction: nat, language: Bytes, annotations: seq<TextAnnotation>,
                                     fragments: seq<TextFragment>, selection: seq<TextRange>, caret: Option<nat>)

  /** A span of 8-byte ids that fits a 64-bit address space. */
  type Targets = s: seq<NodeId> | |s| < 0x8000_0000_0000_0000

  datatype Relation = Relation(kind: nat, targets: Targets)

  datatype ExtensionValue =
    | BooleanValue(flag: bool)
    | SignedValue(signed: int)
    | UnsignedValue(unsigned: nat)
    | DoubleValue(double: real)
    | Utf8Value(text: Bytes)
    | ReferenceValue(node: NodeId)
    | ListValue(items: seq<ExtensionValue>)
    | UnknownValue

  datatype Extension = Extension(namespaceName: Bytes, name: Bytes, value: ExtensionValue)

  datatype Node = Node(
    id: NodeId, parent: NodeId, role: nat, states: set<nat>, actions: set<nat>,
    name: Bytes, description: Bytes, helpText: Bytes, value: Bytes, language: Bytes, accessKey: Bytes,
    keyboardShortcut: Bytes, exposure: nat,
    children: seq<NodeId>, relations: seq<Relation>, extensions: seq<Extension>,
    geometry: Option<Geometry>, rangeValue: Option<RangeValue>, scroll: Option<ScrollInfo>,
    selection: Option<SelectionInfo>, collection: Option<CollectionInfo>,
    virtualization: Option<VirtualizationInfo>, text: Option<TextContent>)

  datatype View = View(generation: nat, root: NodeId, nodes: seq<Node>)

  datatype Limits = Limits(
    nodes: nat, children: nat, relations: nat, extensions: nat, listItems: nat, nodeText: nat, totalText: nat,
    annotations: nat, fragments: nat, actionQueue: nat, notificationQueue: nat, actionText: nat, actionSelections: nat,
    announcement: nat, depth: nat, values: nat, targets: nat, textSelections: nat, providers: nat, textRanges: nat)

  predicate InRange(limit: nat) {
    0 < limit <= INT32_MAX
  }

  /** `validLimits`. */
  predicate ValidLimits(l: Limits) {
    && InRange(l.nodes) && InRange(l.children) && InRange(l.relations) && InRange(l.extensions) && InRange(l.listItems)
    && InRange(l.nodeText) && InRange(l.totalText) && InRange(l.annotations) && InRange(l.fragments)
    && InRange(l.actionQueue) && InRange(l.notificationQueue) && InRange(l.actionText) && InRange(l.actionSelections)
    && InRange(l.announcement) && InRange(l.depth) && InRange(l.values) && InRange(l.targets)
    && InRange(l.textSelections) && InRange(l.providers) && InRange(l.textRanges)
    && l.depth <= 32 && l.providers >= l.nodes
  }

  /** `validLimits` as the code computes it, over one list of all limits. */
  method CheckLimits(l: Limits) returns (ok: bool)
    ensures ok <==> ValidLimits(l)
  {
    var values := AllLimits(l);
    for k := 0 to |values|
      invariant forall i | 0 <= i < k :: 0 < values[i] <= INT32_MAX
    {
      if values[k] == 0 || values[k] > INT32_MAX {
        OneLimitOut(l, values, k);
        return false;
      }
    }
    AllLimitsIn(l, values);
    return l.depth <= 32 && l.providers >= l.nodes;
  }

  function AllLimits(l: Limits): seq<nat> {
    [l.nodes, l.children, l.relations, l.extensions, l.listItems, l.nodeText, l.totalText, l.annotations, l.fragments,
     l.actionQueue, l.notificationQueue, l.actionText, l.actionSelections, l.announcement, l.depth, l.values,
     l.targets, l.textSelections, l.providers, l.textRanges]
  }

  lemma OneLimitOut(l: Limits, values: seq<nat>, k: nat)
    requires values == AllLimits(l) && k < |values| && !InRange(values[k])
    ensures !ValidLimits(l)
  {
  }

  lemma AllLimitsIn(l: Limits, values: seq<nat>)
    requires values == AllLimits(l) && forall i | 0 <= i < |values| :: InRange(values[i])
    ensures ValidLimits(l) <==> l.depth <= 32 && l.providers >= l.nodes
  {
    assert InRange(values[0]) && InRange(values[1]) && InRange(values[2]) && InRange(values[3]) && InRange(values[4]);
    assert InRange(values[5]) && InRange(values[6]) && InRange(values[7]) && InRange(values[8]) && InRange(values[9]);
    assert InRange(values[10]) && InRange(values[11]) && InRange(values[12]) && InRange(values[13]) && InRange(values[14]);
    assert InRange(values[15]) && InRange(values[16]) && InRange(values[17]) && InRange(values[18]) && InRange(values[19]);
  }

  datatype Issue =
    | NoIssue
    | InvalidLimits
    | ZeroGeneration
    | EmptyTree
    | InvalidRoot
    | InvalidNodeId
    | DuplicateNodeId
    | MissingNode
    | ParentMismatch
    | DuplicateChild
    | Cycle
    | UnreachableNode
    | InvalidRole
    | InvalidAction
    | InvalidRelation
    | InvalidText
    | InvalidTextRange
    | InvalidGeometry
    | InvalidValue
    | InvalidExtension
    | InvalidState
    | InvalidSelection
    | InvalidCollection
    | InvalidVirtualization
    | LimitExceeded

  /** What the snapshot code asks of the Unicode library and of floating-point arithmetic. */
  datatype World = World(
    validUtf8: Bytes -> bool,
    boundary: (Bytes, nat) -> bool,
    finite: real -> bool,
    validRect: Rect -> bool,
    validGeometry: Geometry -> bool,
    validRange: RangeValue -> bool,
    validScroll: ScrollInfo -> bool)

  // ---------------------------------------------------------------- finding a node by its id

  ghost predicate UniqueIds(nodes: seq<Node>) {
    && (forall i | 0 <= i < |nodes| :: nodes[i].id != 0)
    && (forall i, j | 0 <= i < j < |nodes| :: nodes[i].id != nodes[j].id)
  }

  /** The storage index of the node with this id, or the node count when there is none. */
  ghost function Find(nodes: seq<Node>, id: NodeId): (k: nat)
    ensures k <= |nodes| && (k < |nodes| ==> nodes[k].id == id)
    ensures k == |nodes| ==> forall i | 0 <= i < |nodes| :: nodes[i].id != id
  {
    if exists i :: 0 <= i < |nodes| && nodes[i].id == id then
      var i :| 0 <= i < |nodes| && nodes[i].id == id;
      i
    else |nodes|
  }

  lemma FindById(nodes: seq<Node>, i: nat)
    requires UniqueIds(nodes) && i < |nodes|
    ensures Find(nodes, nodes[i].id) == i
  {
  }

  type Entry = (NodeId, nat)

  function EntryKey(e: Entry): int {
    e.0
  }

  /** A table of (id, storage index) pairs for all nodes, in order of id. */
  ghost predicate Indexed(index: seq<Entry>, nodes: seq<Node>) {
    && |index| == |nodes|
    && (forall i, j | 0 <= i < j < |index| :: index[i].0 < index[j].0)
    && (forall i | 0 <= i < |index| :: index[i].1 < |nodes| && nodes[index[i].1].id == index[i].0)
    && (forall k | 0 <= k < |nodes| :: (nodes[k].id, k) in index)
  }

  /** Binary search in the sorted table, as `lower_bound` performs it. */
  function Lookup(index: seq<Entry>, nodes: seq<Node>, id: NodeId): (k: nat)
    requires Indexed(index, nodes) && UniqueIds(nodes)
    ensures k == Find(nodes, id)
  {
    var low := LowerBound(index, id, 0, |index|);
    assert forall k | 0 <= k < |nodes| && nodes[k].id == id :: (id, k) in index;
    if low < |index| && index[low].0 == id then index[low].1 else |nodes|
  }

  function LowerBound(index: seq<Entry>, id: NodeId, low: nat, high: nat): (k: nat)
    requires low <= high <= |index|
    requires forall i, j | 0 <= i < j < |index| :: index[i].0 < index[j].0
    requires forall i | 0 <= i < low :: index[i].0 < id
    requires forall i | high <= i < |index| :: index[i].0 >= id
    ensures k <= |index|
    ensures forall i | 0 <= i < k :: index[i].0 < id
    ensures forall i | k <= i < |index| :: index[i].0 >= id
    decreases high - low
  {
    if low == high then low
    else
      var middle := (low + high) / 2;
      if index[middle].0 < id then LowerBound(index, id, middle + 1, high) else LowerBound(index, id, low, middle)
  }
}
