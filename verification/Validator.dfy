/** `validate`: the checks on every node, the two walks over the tree, and the containment tests that the
    preorder numbering answers. */
module Validator {
  import opened Options
  import opened Snapshot
  import opened Sequences
  import opened Tree
  import opened Budgets
  import opened NodeChecks

  // ---------------------------------------------------------------- what is accepted

  ghost function UpOf(nodes: seq<Node>): (up: seq<nat>)
    ensures |up| == |nodes| && forall i | 0 <= i < |nodes| :: up[i] == Find(nodes, nodes[i].parent)
  {
    seq(|nodes|, i requires 0 <= i < |nodes| => Find(nodes, nodes[i].parent))
  }

  ghost function KidsAt(nodes: seq<Node>, children: seq<NodeId>): (kids: seq<nat>)
    ensures |kids| == |children| && forall k | 0 <= k < |children| :: kids[k] == Find(nodes, children[k])
  {
    seq(|children|, k requires 0 <= k < |children| => Find(nodes, children[k]))
  }

  ghost function KidsOf(nodes: seq<Node>): (kids: seq<seq<nat>>)
    ensures |kids| == |nodes| && forall i | 0 <= i < |nodes| :: kids[i] == KidsAt(nodes, nodes[i].children)
  {
    seq(|nodes|, i requires 0 <= i < |nodes| => KidsAt(nodes, nodes[i].children))
  }

  ghost predicate ParentOk(nodes: seq<Node>, root: nat, i: nat)
    requires i < |nodes|
  {
    i != root ==> nodes[i].parent != 0 && Exists(nodes, nodes[i].parent)
  }

  /** Declared tables: the nodes that bound the cells below them. */
  function Tables(nodes: seq<Node>): (marked: seq<bool>)
    ensures |marked| == |nodes|
    ensures forall i | 0 <= i < |nodes| :: marked[i] <==> nodes[i].role == ROLE_TABLE && nodes[i].collection.Some?
  {
    seq(|nodes|, i requires 0 <= i < |nodes| => nodes[i].role == ROLE_TABLE && nodes[i].collection.Some?)
  }

  predicate IsCell(n: Node) {
    n.collection.Some? && (n.role == ROLE_CELL || n.role == ROLE_ROW_HEADER || n.role == ROLE_COLUMN_HEADER)
  }

  predicate CellFits(item: CollectionInfo, table: CollectionInfo) {
    SpanFits(table.rowCount, item.rowIndex, item.rowSpan) && SpanFits(table.columnCount, item.columnIndex, item.columnSpan)
  }

  /** Every selected node is a proper descendant of the node that selects it. */
  ghost predicate SelectionsDescend(nodes: seq<Node>, up: seq<nat>, i: nat)
    requires i < |nodes|
  {
    nodes[i].selection.Some? ==>
      forall k | 0 <= k < |nodes[i].selection.value.selectedNodes| ::
        Descends(up, Find(nodes, nodes[i].selection.value.selectedNodes[k]), i)
  }

  /** A cell or header lies, with its spans, inside its nearest declared table if it has one. */
  ghost predicate CellInTable(nodes: seq<Node>, up: seq<nat>, i: nat)
    requires i < |nodes| == |up|
  {
    IsCell(nodes[i]) ==>
      forall a | 0 <= a < |nodes| && IsNearest(up, Tables(nodes), i, a) ::
        CellFits(nodes[i].collection.value, nodes[a].collection.value)
  }

  ghost predicate OneFocus(nodes: seq<Node>) {
    forall i, j | 0 <= i < j < |nodes| :: !(STATE_FOCUSED in nodes[i].states && STATE_FOCUSED in nodes[j].states)
  }

  /** A complete statement of the snapshots that validation accepts. */
  ghost predicate Accepts(v: View, l: Limits, w: World) {
    var nodes, root := v.nodes, Find(v.nodes, v.root);
    && ValidLimits(l) && v.generation != 0 && nodes != [] && UniqueIds(nodes)
    && root < |nodes| && nodes[root].parent == 0
    && AllWithin(nodes, l) && OneFocus(nodes)
    && (forall i | 0 <= i < |nodes| :: NodeOk(nodes, i, w))
    && RootedTree(root, UpOf(nodes), KidsOf(nodes))
    && (forall i | 0 <= i < |nodes| :: SelectionsDescend(nodes, UpOf(nodes), i) && CellInTable(nodes, UpOf(nodes), i))
  }

  // ---------------------------------------------------------------- the id table

  /** Some other node has the id of this one. */
  ghost predicate SharesId(nodes: seq<Node>, i: nat) {
    i < |nodes| && exists j :: 0 <= j < |nodes| && j != i && nodes[j].id == nodes[i].id
  }

  method BuildIndex(nodes: seq<Node>) returns (issue: Issue, index: seq<Entry>, at: nat)
    ensures issue == NoIssue <==> UniqueIds(nodes)
    ensures issue == NoIssue ==> Indexed(index, nodes)
    ensures issue in {NoIssue, InvalidNodeId, DuplicateNodeId}
    ensures issue == InvalidNodeId ==> at < |nodes| && nodes[at].id == 0
    ensures issue == DuplicateNodeId ==> SharesId(nodes, at)
  {
    hide UniqueIds, Indexed, SortBy, SharesId;
    var zero;
    zero, index, at := CollectIds(nodes);
    if zero {
      return InvalidNodeId, index, at;
    }
    ghost var pairs := index;
    index := SortBy(index, EntryKey);
    SamePairs(pairs, index);
    var i := 1;
    while i < |index|
      invariant 1 <= i
      invariant forall a, b | 0 <= a < b < i && b < |index| :: index[a].0 < index[b].0
    {
      if index[i - 1].0 == index[i].0 {
        RepeatedId(nodes, pairs, index, i);
        return DuplicateNodeId, index, index[i].1;
      }
      assert EntryKey(index[i - 1]) <= EntryKey(index[i]);
      i := i + 1;
    }
    SortedIsIndexed(nodes, pairs, index);
    return NoIssue, index, 0;
  }

  method CollectIds(nodes: seq<Node>) returns (zero: bool, index: seq<Entry>, at: nat)
    ensures zero ==> !UniqueIds(nodes) && at < |nodes| && nodes[at].id == 0
    ensures !zero ==> |index| == |nodes| && forall k | 0 <= k < |nodes| :: index[k] == (nodes[k].id, k) && nodes[k].id != 0
  {
    index := [];
    for i := 0 to |nodes|
      invariant |index| == i && forall k | 0 <= k < i :: index[k] == (nodes[k].id, k) && nodes[k].id != 0
    {
      if nodes[i].id == 0 {
        return true, index, i;
      }
      index := index + [(nodes[i].id, i)];
    }
    return false, index, 0;
  }

  lemma SamePairs(a: seq<Entry>, b: seq<Entry>)
    requires multiset(a) == multiset(b)
    ensures forall x :: x in a <==> x in b
  {
    assert forall x :: (x in a <==> x in multiset(a)) && (x in b <==> x in multiset(b));
  }

  lemma RepeatedId(nodes: seq<Node>, pairs: seq<Entry>, index: seq<Entry>, i: nat)
    requires |pairs| == |nodes| && forall k | 0 <= k < |pairs| :: pairs[k] == (nodes[k].id, k)
    requires multiset(pairs) == multiset(index) && forall x :: x in pairs <==> x in index
    requires 1 <= i < |index| && index[i - 1].0 == index[i].0
    ensures !UniqueIds(nodes) && SharesId(nodes, index[i].1)
  {
    PermutationDistinct(pairs, index);
    assert index[i - 1] in pairs && index[i] in pairs && index[i - 1] != index[i];
    var a :| 0 <= a < |pairs| && pairs[a] == index[i - 1];
    var b :| 0 <= b < |pairs| && pairs[b] == index[i];
    assert nodes[a].id == nodes[b].id;
  }

  lemma SortedIsIndexed(nodes: seq<Node>, pairs: seq<Entry>, index: seq<Entry>)
    requires |pairs| == |index| == |nodes|
    requires forall k | 0 <= k < |pairs| :: pairs[k] == (nodes[k].id, k) && nodes[k].id != 0
    requires forall x :: x in pairs <==> x in index
    requires forall a, b | 0 <= a < b < |index| :: index[a].0 < index[b].0
    ensures UniqueIds(nodes) && Indexed(index, nodes)
  {
    forall k | 0 <= k < |nodes|
      ensures (nodes[k].id, k) in index
    {
      assert pairs[k] in pairs;
    }
    forall i | 0 <= i < |index|
      ensures index[i].1 < |nodes| && nodes[index[i].1].id == index[i].0
    {
      assert index[i] in pairs;
    }
    forall i, j | 0 <= i < j < |nodes|
      ensures nodes[i].id != nodes[j].id
    {
      assert pairs[i] in index && pairs[j] in index;
      var a :| 0 <= a < |index| && index[a] == pairs[i];
      var b :| 0 <= b < |index| && index[b] == pairs[j];
    }
  }

  // ---------------------------------------------------------------- children and incoming counts

  /** Whether some node before `i`, or `i` in its first `c` children, lists node `j` as a child. */
  ghost predicate Listed(nodes: seq<Node>, j: nat, i: nat, c: nat)
    requires j < |nodes| && i <= |nodes| && (i < |nodes| ==> c <= |nodes[i].children|)
  {
    var p := Find(nodes, nodes[j].parent);
    && p < |nodes|
    && ((p < i && nodes[j].id in nodes[p].children) || (p == i && nodes[j].id in nodes[i].children[..c]))
  }

  ghost predicate Counted(nodes: seq<Node>, incoming: seq<nat>, i: nat, c: nat)
    requires i <= |nodes| && (i < |nodes| ==> c <= |nodes[i].children|)
  {
    |incoming| == |nodes| && forall j | 0 <= j < |nodes| :: incoming[j] == if Listed(nodes, j, i, c) then 1 else 0
  }

  method CheckChildren(nodes: seq<Node>, index: seq<Entry>, ghost root: nat, i: nat, incoming: array<nat>) returns (issue: Issue)
    requires i < |nodes| && UniqueIds(nodes) && Indexed(index, nodes)
    requires Counted(nodes, incoming[..], i, 0)
    modifies incoming
    ensures issue == NoIssue <==> ChildrenOk(nodes, i)
    ensures issue == NoIssue ==> Counted(nodes, incoming[..], i + 1, 0)
    ensures Plain(issue)
    ensures issue != NoIssue ==> LinkFault(issue, nodes, i, root)
  {
    hide Indexed, Distinct, Listed;
    var n := nodes[i];
    var duplicate := HasDuplicates(n.children);
    if duplicate {
      return DuplicateChild;
    }
    for c := 0 to |n.children|
      invariant Counted(nodes, incoming[..], i, c)
      invariant forall k | 0 <= k < c ::
                  Exists(nodes, n.children[k]) && nodes[Find(nodes, n.children[k])].parent == n.id
    {
      var child := Lookup(index, nodes, n.children[c]);
      if child == |nodes| {
        return MissingNode;
      }
      if nodes[child].parent != n.id {
        return ParentMismatch;
      }
      ChildCount(nodes, i, c, child);
      ghost var before := incoming[..];
      incoming[child] := incoming[child] + 1;
      assert incoming[..] == before[child := before[child] + 1];
      if incoming[child] > 1 {
        assert false; // no node is listed twice once ids and child lists are free of repetitions
      }
    }
    NextCount(nodes, i);
    return NoIssue;
  }

  lemma ChildCount(nodes: seq<Node>, i: nat, c: nat, child: nat)
    requires UniqueIds(nodes) && i < |nodes| && Distinct(nodes[i].children) && c < |nodes[i].children|
    requires child < |nodes| && nodes[child].id == nodes[i].children[c] && nodes[child].parent == nodes[i].id
    ensures !Listed(nodes, child, i, c) && Listed(nodes, child, i, c + 1)
    ensures forall j | 0 <= j < |nodes| && j != child :: Listed(nodes, j, i, c) == Listed(nodes, j, i, c + 1)
  {
    FindById(nodes, i);
    var list := nodes[i].children;
    assert list[..c + 1] == list[..c] + [list[c]];
    assert list[c] !in list[..c];
  }

  lemma NextCount(nodes: seq<Node>, i: nat)
    requires i < |nodes|
    ensures forall j | 0 <= j < |nodes| :: Listed(nodes, j, i, |nodes[i].children|) == Listed(nodes, j, i + 1, 0)
  {
    assert nodes[i].children[..|nodes[i].children|] == nodes[i].children;
  }

  /** With all links checked, the incoming counts decide whether parents list their children. */
  lemma CountsDecideLinks(nodes: seq<Node>, root: nat)
    requires UniqueIds(nodes) && root < |nodes| && nodes[root].parent == 0
    requires forall i | 0 <= i < |nodes| :: ChildrenOk(nodes, i) && ParentOk(nodes, root, i)
    ensures !Listed(nodes, root, |nodes|, 0)
    ensures Linked(root, UpOf(nodes), KidsOf(nodes)) <==>
              forall i | 0 <= i < |nodes| && i != root :: Listed(nodes, i, |nodes|, 0)
  {
    hide Listed, Distinct, ChildrenOk, Find, Linked;
    var up, kids := UpOf(nodes), KidsOf(nodes);
    var listed := seq(|nodes|, i requires 0 <= i < |nodes| => Listed(nodes, i, |nodes|, 0));
    RootUnlisted(nodes, root);
    forall i | 0 <= i < |nodes|
      ensures Distinct(kids[i]) && forall k | 0 <= k < |kids[i]| :: kids[i][k] < |nodes| && up[kids[i][k]] == i
    {
      KidsPointBack(nodes, i);
    }
    forall i | 0 <= i < |nodes| && i != root
      ensures up[i] < |nodes| && (i in kids[up[i]] <==> listed[i])
    {
      assert ParentOk(nodes, root, i);
      ListedIsKid(nodes, i);
    }
    LinksFromLists(root, up, kids, listed);
    assert forall i | 0 <= i < |nodes| :: listed[i] == Listed(nodes, i, |nodes|, 0);
  }

  lemma LinksFromLists(root: nat, up: seq<nat>, kids: seq<seq<nat>>, listed: seq<bool>)
    requires |kids| == |up| == |listed| && root < |up| && up[root] == |up|
    requires forall i | 0 <= i < |up| ::
               Distinct(kids[i]) && forall k | 0 <= k < |kids[i]| :: kids[i][k] < |up| && up[kids[i][k]] == i
    requires forall i | 0 <= i < |up| && i != root :: up[i] < |up| && (i in kids[up[i]] <==> listed[i])
    ensures Linked(root, up, kids) <==> forall i | 0 <= i < |up| && i != root :: listed[i]
  {
  }

  lemma RootUnlisted(nodes: seq<Node>, root: nat)
    requires UniqueIds(nodes) && root < |nodes| && nodes[root].parent == 0
    ensures Find(nodes, nodes[root].parent) == |nodes| && !Listed(nodes, root, |nodes|, 0)
  {
  }

  lemma KidsPointBack(nodes: seq<Node>, i: nat)
    requires UniqueIds(nodes) && i < |nodes| && ChildrenOk(nodes, i)
    ensures var kids := KidsAt(nodes, nodes[i].children);
            Distinct(kids) && forall k | 0 <= k < |kids| :: kids[k] < |nodes| && Find(nodes, nodes[kids[k]].parent) == i
  {
    FindById(nodes, i);
    KidsDistinct(nodes, nodes[i].children);
  }

  lemma KidsDistinct(nodes: seq<Node>, children: seq<NodeId>)
    requires Distinct(children) && forall k | 0 <= k < |children| :: Exists(nodes, children[k])
    ensures Distinct(KidsAt(nodes, children))
  {
    var kids := KidsAt(nodes, children);
    forall a, b | 0 <= a < b < |kids|
      ensures kids[a] != kids[b]
    {
      assert nodes[kids[a]].id == children[a] && nodes[kids[b]].id == children[b];
    }
  }

  lemma ListedIsKid(nodes: seq<Node>, i: nat)
    requires UniqueIds(nodes) && i < |nodes| && Exists(nodes, nodes[i].parent)
    ensures var p := Find(nodes, nodes[i].parent); i in KidsAt(nodes, nodes[p].children) <==> Listed(nodes, i, |nodes|, 0)
  {
    var p := Find(nodes, nodes[i].parent);
    var children := nodes[p].children;
    FindById(nodes, i);
    if nodes[i].id in children {
      var k :| 0 <= k < |children| && children[k] == nodes[i].id;
      assert KidsAt(nodes, children)[k] == i;
    }
    if i in KidsAt(nodes, children) {
      var k :| 0 <= k < |children| && KidsAt(nodes, children)[k] == i;
      assert children[k] == nodes[i].id;
    }
  }

  // ---------------------------------------------------------------- one pass over the nodes

  /** What the pass over the nodes has established about the first `i` of them. */
  ghost predicate Checked(v: View, root: nat, l: Limits, w: World, i: nat)
    requires i <= |v.nodes|
  {
    && OneFocus(v.nodes[..i]) && TotalText(v.nodes[..i]) <= l.totalText
    && forall k | 0 <= k < i :: NodeOk(v.nodes, k, w) && NodeWithin(v.nodes[k], l) && ParentOk(v.nodes, root, k)
  }

  /** The issue names a fault of this node, or a limit that is exceeded by the node or, with it, in total. */
  ghost predicate Blamed(issue: Issue, v: View, at: nat, root: nat, l: Limits, w: World)
    requires at < |v.nodes|
  {
    if issue == LimitExceeded then !(NodeWithin(v.nodes[at], l) && TotalText(v.nodes[..at + 1]) <= l.totalText)
    else NodeFault(issue, v.nodes, at, root, exists k :: 0 <= k < at && STATE_FOCUSED in v.nodes[k].states, w)
  }

  method CheckNode(nodes: seq<Node>, index: seq<Entry>, root: nat, i: nat, focused: nat, incoming: array<nat>, budget: Budget)
    returns (issue: Issue, now: nat)
    requires UniqueIds(nodes) && Indexed(index, nodes) && i < |nodes| && focused <= 1
    requires Counted(nodes, incoming[..], i, 0)
    requires budget.Valid() && budget.nodeBytes == 0 && budget.extensionValues == 0
    modifies incoming, budget
    ensures issue == NoIssue <==>
              && NodeOk(nodes, i, budget.world) && NodeWithin(nodes[i], budget.limits) && ParentOk(nodes, root, i)
              && old(budget.bytes) + NodeText(nodes[i]) <= budget.limits.totalText
              && !(STATE_FOCUSED in nodes[i].states && focused == 1)
    ensures issue == LimitExceeded ==>
              !(NodeWithin(nodes[i], budget.limits) && old(budget.bytes) + NodeText(nodes[i]) <= budget.limits.totalText)
    ensures issue == LimitExceeded || Plain(issue)
    ensures issue != NoIssue && issue != LimitExceeded ==> NodeFault(issue, nodes, i, root, focused == 1, budget.world)
    ensures issue == NoIssue ==>
              && Counted(nodes, incoming[..], i + 1, 0) && now == (if STATE_FOCUSED in nodes[i].states then 1 else focused)
              && budget.Valid() && budget.bytes == old(budget.bytes) + NodeText(nodes[i])
  {
    hide UniqueIds, Indexed, FlagsOk, ChildrenOk, RelationsOk, ExtensionsOk, SelectionOk, CollectionOk, VirtualizationOk, TextOk;
    hide MetricsOk, HasNul, Counted, Plain, TextSum, ExtensionsText, TargetSum, ExtensionsWithin, BasicTexts, Find;
    hide FlagFault, LinkFault, RelationFault, ExtensionFault, FieldFault, ContentFault;
    var n, l, w := nodes[i], budget.limits, budget.world;
    issue, now := CheckFlags(n, focused);
    if issue != NoIssue {
      return;
    }
    issue := budget.Strings(BasicTexts(n));
    if issue != NoIssue {
      PlainText(issue);
      return;
    }
    issue := CheckLinks(nodes, index, root, i, incoming, l);
    if issue != NoIssue {
      return;
    }
    issue := CheckRelations(n.relations, nodes, index, l);
    if issue != NoIssue {
      return;
    }
    issue := CheckExtensions(n.extensions, nodes, index, budget);
    if issue != NoIssue {
      return;
    }
    issue := CheckFields(n, nodes, index, l, w);
    if issue != NoIssue {
      return;
    }
    if n.text.Some? {
      issue := CheckText(n, n.text.value, nodes, index, budget);
    }
  }

  lemma PlainText(issue: Issue)
    ensures issue == InvalidText ==> Plain(issue)
  {
  }

  /** The language, list-length, child and parent checks, in their order. */
  method CheckLinks(nodes: seq<Node>, index: seq<Entry>, root: nat, i: nat, incoming: array<nat>, l: Limits)
    returns (issue: Issue)
    requires UniqueIds(nodes) && Indexed(index, nodes) && i < |nodes|
    requires Counted(nodes, incoming[..], i, 0)
    modifies incoming
    ensures issue == NoIssue <==>
              !HasNul(nodes[i].language) && ListsWithin(nodes[i], l) && ChildrenOk(nodes, i) && ParentOk(nodes, root, i)
    ensures issue == LimitExceeded ==> !ListsWithin(nodes[i], l)
    ensures issue == LimitExceeded || Plain(issue)
    ensures issue != NoIssue && issue != LimitExceeded ==> LinkFault(issue, nodes, i, root)
    ensures issue == NoIssue ==> Counted(nodes, incoming[..], i + 1, 0)
  {
    hide UniqueIds, Indexed, ChildrenOk, HasNul, Counted, Find, Lookup;
    var n := nodes[i];
    if HasNul(n.language) {
      return InvalidText;
    }
    if |n.children| > l.children || |n.relations| > l.relations || |n.extensions| > l.extensions {
      return LimitExceeded;
    }
    issue := CheckChildren(nodes, index, root, i, incoming);
    if issue != NoIssue {
      return;
    }
    if i != root && (n.parent == 0 || Lookup(index, nodes, n.parent) == |nodes|) {
      return ParentMismatch;
    }
  }

  /** The geometry, range, scroll, selection, collection and virtualization checks, in their order. */
  method CheckFields(n: Node, nodes: seq<Node>, index: seq<Entry>, l: Limits, w: World) returns (issue: Issue)
    requires UniqueIds(nodes) && Indexed(index, nodes)
    ensures issue == NoIssue <==>
              && MetricsOk(n, w) && SelectionWithin(n, l) && (n.selection.Some? ==> SelectionOk(nodes, n.selection.value))
              && (n.collection.Some? ==> CollectionOk(n.collection.value))
              && (n.virtualization.Some? ==> VirtualizationOk(n, n.virtualization.value))
    ensures issue == LimitExceeded ==> !SelectionWithin(n, l)
    ensures issue == LimitExceeded || Plain(issue)
    ensures issue != NoIssue && issue != LimitExceeded ==> FieldFault(issue, nodes, n, w)
  {
    hide UniqueIds, Indexed, SelectionOk, CollectionOk, VirtualizationOk;
    if n.geometry.Some? && !w.validGeometry(n.geometry.value) {
      return InvalidGeometry;
    }
    if (n.rangeValue.Some? && !w.validRange(n.rangeValue.value)) || (n.scroll.Some? && !w.validScroll(n.scroll.value)) {
      return InvalidValue;
    }
    if n.selection.Some? {
      issue := CheckSelection(n.selection.value, nodes, index, l);
      if issue != NoIssue {
        return;
      }
    }
    if n.collection.Some? {
      var ok := CheckCollection(n.collection.value);
      if !ok {
        return InvalidCollection;
      }
    }
    if n.virtualization.Some? {
      var ok := CheckVirtualization(n, n.virtualization.value);
      if !ok {
        return InvalidVirtualization;
      }
    }
    return NoIssue;
  }

  method CheckNodes(v: View, index: seq<Entry>, root: nat, l: Limits, w: World)
    returns (issue: Issue, incoming: array<nat>, at: nat)
    requires ValidLimits(l) && UniqueIds(v.nodes) && Indexed(index, v.nodes) && |v.nodes| <= l.nodes
    ensures issue == NoIssue <==> Checked(v, root, l, w, |v.nodes|)
    ensures issue == LimitExceeded ==> !AllWithin(v.nodes, l)
    ensures issue == LimitExceeded || Plain(issue)
    ensures issue != NoIssue ==> at < |v.nodes| && Checked(v, root, l, w, at) && Blamed(issue, v, at, root, l, w)
    ensures issue == NoIssue ==> Counted(v.nodes, incoming[..], |v.nodes|, 0)
    ensures fresh(incoming)
  {
    hide UniqueIds, Indexed, NodeOk, NodeWithin, ParentOk, NodeText, Checked, AllWithin, Counted, TotalText, ValidLimits, NodeFault;
    var nodes := v.nodes;
    var budget := new Budget(l, w);
    incoming := new nat[|nodes|](_ => 0);
    var focused := 0;
    NothingListed(nodes, incoming[..]);
    CheckedNone(v, root, l, w);
    for i := 0 to |nodes|
      invariant budget.Valid() && budget.bytes == TotalText(nodes[..i])
      invariant Checked(v, root, l, w, i) && Counted(nodes, incoming[..], i, 0)
      invariant focused <= 1 && (focused == 1 <==> exists k :: 0 <= k < i && STATE_FOCUSED in nodes[k].states)
    {
      budget.NextNode();
      CheckedStep(v, root, l, w, i);
      issue, focused := CheckNode(nodes, index, root, i, focused, incoming, budget);
      if issue != NoIssue {
        return issue, incoming, i;
      }
    }
    assert nodes[..|nodes|] == nodes;
    return NoIssue, incoming, 0;
  }

  lemma CheckedNone(v: View, root: nat, l: Limits, w: World)
    ensures Checked(v, root, l, w, 0) && TotalText(v.nodes[..0]) == 0
  {
  }

  lemma CheckedStep(v: View, root: nat, l: Limits, w: World, i: nat)
    requires i < |v.nodes| && Checked(v, root, l, w, i)
    ensures TotalText(v.nodes[..i + 1]) == TotalText(v.nodes[..i]) + NodeText(v.nodes[i])
    ensures Checked(v, root, l, w, i + 1) <==>
              && NodeOk(v.nodes, i, w) && NodeWithin(v.nodes[i], l) && ParentOk(v.nodes, root, i)
              && TotalText(v.nodes[..i + 1]) <= l.totalText
              && !(STATE_FOCUSED in v.nodes[i].states && exists k :: 0 <= k < i && STATE_FOCUSED in v.nodes[k].states)
    ensures Checked(v, root, l, w, |v.nodes|) ==> Checked(v, root, l, w, i + 1)
    ensures AllWithin(v.nodes, l) ==> NodeWithin(v.nodes[i], l) && TotalText(v.nodes[..i + 1]) <= l.totalText
  {
    hide NodeOk, NodeWithin, ParentOk, NodeText;
    TotalPrefix(v.nodes, i);
    FocusStep(v.nodes, i);
    assert v.nodes[..|v.nodes|] == v.nodes;
  }

  lemma NothingListed(nodes: seq<Node>, incoming: seq<nat>)
    requires |incoming| == |nodes| && forall j | 0 <= j < |nodes| :: incoming[j] == 0
    ensures Counted(nodes, incoming, 0, 0)
  {
  }

  lemma FocusStep(nodes: seq<Node>, i: nat)
    requires i < |nodes| && OneFocus(nodes[..i])
    ensures OneFocus(nodes[..i + 1]) <==>
              !(STATE_FOCUSED in nodes[i].states && exists k :: 0 <= k < i && STATE_FOCUSED in nodes[k].states)
    ensures OneFocus(nodes) ==> OneFocus(nodes[..i + 1])
  {
    var some := exists k :: 0 <= k < i && STATE_FOCUSED in nodes[k].states;
    if STATE_FOCUSED in nodes[i].states && some {
      var k :| 0 <= k < i && STATE_FOCUSED in nodes[k].states;
      assert nodes[..i + 1][k] == nodes[k] && nodes[..i + 1][i] == nodes[i];
    }
    forall a, b | 0 <= a < b < i
      ensures !(STATE_FOCUSED in nodes[a].states && STATE_FOCUSED in nodes[b].states)
    {
      assert nodes[..i][a] == nodes[a] && nodes[..i][b] == nodes[b];
    }
  }

  // ---------------------------------------------------------------- resolved links

  function ResolveUp(nodes: seq<Node>, index: seq<Entry>): (up: seq<nat>)
    requires UniqueIds(nodes) && Indexed(index, nodes)
    ensures up == UpOf(nodes)
  {
    seq(|nodes|, i requires 0 <= i < |nodes| => Lookup(index, nodes, nodes[i].parent))
  }

  function ResolveChildren(nodes: seq<Node>, index: seq<Entry>, children: seq<NodeId>): (kids: seq<nat>)
    requires UniqueIds(nodes) && Indexed(index, nodes)
    ensures kids == KidsAt(nodes, children)
  {
    seq(|children|, k requires 0 <= k < |children| => Lookup(index, nodes, children[k]))
  }

  function ResolveKids(nodes: seq<Node>, index: seq<Entry>): (kids: seq<seq<nat>>)
    requires UniqueIds(nodes) && Indexed(index, nodes)
    ensures kids == KidsOf(nodes)
  {
    seq(|nodes|, i requires 0 <= i < |nodes| => ResolveChildren(nodes, index, nodes[i].children))
  }

  /** The loop over the incoming counts: every node but the root must be listed by its parent. */
  method CheckIncoming(nodes: seq<Node>, root: nat, incoming: array<nat>) returns (issue: Issue, at: nat)
    requires root < |nodes| && Counted(nodes, incoming[..], |nodes|, 0)
    ensures issue == NoIssue <==> forall i | 0 <= i < |nodes| && i != root :: Listed(nodes, i, |nodes|, 0)
    ensures issue == NoIssue || issue == ParentMismatch
    ensures issue != NoIssue ==> at < |nodes| && at != root && !Listed(nodes, at, |nodes|, 0)
  {
    hide Listed;
    for i := 0 to incoming.Length
      invariant forall k | 0 <= k < i && k != root :: Listed(nodes, k, |nodes|, 0)
    {
      if i != root && incoming[i] != 1 {
        return ParentMismatch, i;
      }
    }
    return NoIssue, 0;
  }

  /** The interval test on ordinals accepts exactly the proper descendants. */
  method CheckSelected(nodes: seq<Node>, index: seq<Entry>, i: nat, ordinal: seq<nat>, subtree: seq<nat>, ghost s: Shape)
    returns (ok: bool)
    requires UniqueIds(nodes) && Indexed(index, nodes) && i < |nodes| && NumberedTree(nodes, s, ordinal, subtree)
    requires nodes[i].selection.Some? ==> SelectionOk(nodes, nodes[i].selection.value)
    ensures ok <==> SelectionsDescend(nodes, s.up, i)
  {
    hide UniqueIds, Indexed, NumberedTree, Descends, Find, Lookup, Distinct;
    if nodes[i].selection.None? {
      return true;
    }
    var selected := nodes[i].selection.value.selectedNodes;
    SizesOf(nodes, s, ordinal, subtree);
    for k := 0 to |selected|
      invariant forall j | 0 <= j < k :: Descends(s.up, Find(nodes, selected[j]), i)
    {
      assert SelectedOk(nodes, selected[k]);
      var at := Lookup(index, nodes, selected[k]);
      OrdinalTest(nodes, s, ordinal, subtree, i, at);
      var position := ordinal[at];
      if position <= ordinal[i] || position >= ordinal[i] + subtree[i] {
        return false;
      }
    }
    return true;
  }

  /** Ordinals are preorder positions and subtree sizes are preorder lengths of this tree. */
  ghost predicate NumberedTree(nodes: seq<Node>, s: Shape, ordinal: seq<nat>, subtree: seq<nat>) {
    && s.Valid() && |s.up| == |ordinal| == |subtree| == |nodes|
    && (forall k | 0 <= k < |Preorder(s, s.root)| :: Preorder(s, s.root)[k] < |nodes| && ordinal[Preorder(s, s.root)[k]] == k)
    && (forall i | 0 <= i < |nodes| :: subtree[i] == |Preorder(s, i)|)
  }

  lemma SizesOf(nodes: seq<Node>, s: Shape, ordinal: seq<nat>, subtree: seq<nat>)
    requires NumberedTree(nodes, s, ordinal, subtree)
    ensures |ordinal| == |subtree| == |nodes|
  {
  }

  /** Node `j` is a proper descendant of node `i` exactly when its ordinal lies in the interval of `i`. */
  lemma OrdinalTest(nodes: seq<Node>, s: Shape, ordinal: seq<nat>, subtree: seq<nat>, i: nat, j: nat)
    requires NumberedTree(nodes, s, ordinal, subtree) && i < |nodes| && j < |nodes|
    ensures Descends(s.up, j, i) <==> ordinal[i] < ordinal[j] < ordinal[i] + subtree[i]
  {
    hide Preorder, Descends;
    RootPreorder(s);
    var t := Preorder(s, s.root);
    assert i in t && j in t;
    var pi :| 0 <= pi < |t| && t[pi] == i;
    var pj :| 0 <= pj < |t| && t[pj] == j;
    IntervalTest(s, i, j, pi, pj);
  }

  /** The grid link of a node decides whether a cell fits its nearest table. */
  lemma GridTest(nodes: seq<Node>, s: Shape, i: nat)
    requires s.Valid() && i < |nodes| == |s.up|
    ensures var a := Nearest(s, Tables(nodes), i);
            CellInTable(nodes, s.up, i) <==>
              (IsCell(nodes[i]) && a < |nodes| ==>
                 nodes[a].collection.Some? && CellFits(nodes[i].collection.value, nodes[a].collection.value))
  {
    hide Nearest, Descends, CellFits;
    NearestIsFirst(s, Tables(nodes), i);
    forall b | 0 <= b < |nodes| && IsNearest(s.up, Tables(nodes), i, b)
      ensures b == Nearest(s, Tables(nodes), i)
    {
      NearestIsUnique(s, Tables(nodes), i, b);
    }
  }

  /** The last loop of `validate`. */
  method CheckContainment(nodes: seq<Node>, index: seq<Entry>, ordinal: seq<nat>, subtree: seq<nat>, grid: seq<nat>,
                          ghost s: Shape)
    returns (issue: Issue, at: nat)
    requires UniqueIds(nodes) && Indexed(index, nodes) && NumberedTree(nodes, s, ordinal, subtree)
    requires |grid| == |nodes| && forall i | 0 <= i < |nodes| :: grid[i] == Nearest(s, Tables(nodes), i)
    requires forall i | 0 <= i < |nodes| && nodes[i].selection.Some? :: SelectionOk(nodes, nodes[i].selection.value)
    ensures issue == NoIssue <==> forall i | 0 <= i < |nodes| :: SelectionsDescend(nodes, s.up, i) && CellInTable(nodes, s.up, i)
    ensures issue in {NoIssue, InvalidSelection, InvalidCollection}
    ensures issue == InvalidSelection ==> at < |nodes| && !SelectionsDescend(nodes, s.up, at)
    ensures issue == InvalidCollection ==> at < |nodes| && !CellInTable(nodes, s.up, at)
  {
    hide UniqueIds, Indexed, SelectionsDescend, CellInTable, Nearest, Preorder, SelectionOk;
    for i := 0 to |nodes|
      invariant forall k | 0 <= k < i :: SelectionsDescend(nodes, s.up, k) && CellInTable(nodes, s.up, k)
    {
      var descend := CheckSelected(nodes, index, i, ordinal, subtree, s);
      if !descend {
        return InvalidSelection, i;
      }
      GridTest(nodes, s, i);
      var role := nodes[i].role;
      if nodes[i].collection.Some? && grid[i] < |nodes| &&
         (role == ROLE_CELL || role == ROLE_ROW_HEADER || role == ROLE_COLUMN_HEADER)
      {
        TableAt(nodes, s, i);
        var item, table := nodes[i].collection.value, nodes[grid[i]].collection.value;
        if Outside(table.rowCount, item.rowIndex, item.rowSpan) || Outside(table.columnCount, item.columnIndex, item.columnSpan) {
          return InvalidCollection, i;
        }
      }
    }
    return NoIssue, 0;
  }

  lemma TableAt(nodes: seq<Node>, s: Shape, i: nat)
    requires s.Valid() && i < |nodes| == |s.up| && Nearest(s, Tables(nodes), i) < |nodes|
    ensures nodes[Nearest(s, Tables(nodes), i)].collection.Some?
  {
    hide Nearest, Descends;
    NearestIsFirst(s, Tables(nodes), i);
  }

  /** What a structural issue says: a node that its parent does not list, a cycle, a node whose selection does not descend from
      it, or a cell that its table cannot hold. */
  ghost predicate StructureFault(issue: Issue, nodes: seq<Node>, root: nat, at: nat) {
    match issue
    case ParentMismatch => at < |nodes| && at != root && !Listed(nodes, at, |nodes|, 0)
    case UnreachableNode => HasCycle(UpOf(nodes))
    case InvalidSelection => at < |nodes| && !SelectionsDescend(nodes, UpOf(nodes), at)
    case InvalidCollection => at < |nodes| && !CellInTable(nodes, UpOf(nodes), at)
    case _ => false
  }

  /** The structural half of `validate`, from the incoming counts to the containment tests. */
  method CheckStructure(v: View, index: seq<Entry>, root: nat, incoming: array<nat>) returns (issue: Issue, at: nat)
    requires UniqueIds(v.nodes) && Indexed(index, v.nodes) && root < |v.nodes| && v.nodes[root].parent == 0
    requires Counted(v.nodes, incoming[..], |v.nodes|, 0)
    requires forall i | 0 <= i < |v.nodes| :: ChildrenOk(v.nodes, i) && ParentOk(v.nodes, root, i)
    requires forall i | 0 <= i < |v.nodes| && v.nodes[i].selection.Some? :: SelectionOk(v.nodes, v.nodes[i].selection.value)
    ensures issue == NoIssue <==>
              && RootedTree(root, UpOf(v.nodes), KidsOf(v.nodes))
              && forall i | 0 <= i < |v.nodes| :: SelectionsDescend(v.nodes, UpOf(v.nodes), i) && CellInTable(v.nodes, UpOf(v.nodes), i)
    ensures issue == ParentMismatch <==> !Linked(root, UpOf(v.nodes), KidsOf(v.nodes))
    ensures issue == UnreachableNode <==> Linked(root, UpOf(v.nodes), KidsOf(v.nodes)) && HasCycle(UpOf(v.nodes))
    ensures HasCycle(UpOf(v.nodes)) ==> issue == ParentMismatch || issue == UnreachableNode
    ensures issue in {NoIssue, ParentMismatch, UnreachableNode, InvalidSelection, InvalidCollection}
    ensures issue != NoIssue ==> StructureFault(issue, v.nodes, root, at)
  {
    hide UniqueIds, Indexed, ChildrenOk, ParentOk, SelectionOk, SelectionsDescend, CellInTable, Preorder, Nearest, Listed;
    hide LeadsTo, StructureFault;
    var nodes := v.nodes;
    CountsDecideLinks(nodes, root);
    if Linked(root, UpOf(nodes), KidsOf(nodes)) {
      TreeMeansNoCycle(root, UpOf(nodes), KidsOf(nodes));
    }
    if incoming[root] != 0 {
      assert false; // the root has no parent, so nothing may list it
    }
    issue, at := CheckIncoming(nodes, root, incoming);
    if issue != NoIssue {
      StructureBlamed(issue, nodes, root, at);
      return;
    }
    var up, kids := ResolveUp(nodes, index), ResolveKids(nodes, index);
    var work;
    ghost var rank;
    work, rank := BreadthFirst(root, kids, up);
    if |work| != |nodes| {
      StructureBlamed(UnreachableNode, nodes, root, 0);
      return UnreachableNode, 0;
    }
    ghost var s := Shape(root, up, kids, rank);
    var traversal, ordinal, grid := Traverse(root, up, kids, Tables(nodes), s);
    var subtree := SubtreeSizes(up, traversal, s, Tables(nodes), ordinal[..], grid[..]);
    NumberedFromTraversal(nodes, s, traversal, ordinal[..], grid[..], subtree[..]);
    issue, at := CheckContainment(nodes, index, ordinal[..], subtree[..], grid[..], s);
    if issue != NoIssue {
      StructureBlamed(issue, nodes, root, at);
    }
  }

  lemma StructureBlamed(issue: Issue, nodes: seq<Node>, root: nat, at: nat)
    requires issue in {ParentMismatch, UnreachableNode, InvalidSelection, InvalidCollection}
    requires issue == ParentMismatch ==> at < |nodes| && at != root && !Listed(nodes, at, |nodes|, 0)
    requires issue == UnreachableNode ==> HasCycle(UpOf(nodes))
    requires issue == InvalidSelection ==> at < |nodes| && !SelectionsDescend(nodes, UpOf(nodes), at)
    requires issue == InvalidCollection ==> at < |nodes| && !CellInTable(nodes, UpOf(nodes), at)
    ensures StructureFault(issue, nodes, root, at)
  {
  }

  lemma NumberedFromTraversal(nodes: seq<Node>, s: Shape, t: seq<nat>, ordinal: seq<nat>, grid: seq<nat>, subtree: seq<nat>)
    requires s.Valid() && |s.up| == |nodes| && t == Preorder(s, s.root) && Numbered(s, Tables(nodes), t, ordinal, grid)
    requires |subtree| == |nodes| && forall i | 0 <= i < |nodes| :: subtree[i] == |Preorder(s, i)|
    ensures NumberedTree(nodes, s, ordinal, subtree)
    ensures |grid| == |nodes| && forall i | 0 <= i < |nodes| :: grid[i] == Nearest(s, Tables(nodes), i)
  {
    hide Preorder, Nearest;
    RootPreorder(s);
    forall i | 0 <= i < |nodes|
      ensures grid[i] == Nearest(s, Tables(nodes), i)
    {
      assert i in t;
      var k :| 0 <= k < |t| && t[k] == i;
    }
  }

  // ---------------------------------------------------------------- the whole

  /** All links agree with each other, and still some node is its own ancestor. */
  ghost predicate CycleApart(nodes: seq<Node>, root: nat) {
    root < |nodes| && Linked(root, UpOf(nodes), KidsOf(nodes)) && HasCycle(UpOf(nodes))
  }

  /** The first node that fails its own checks is blamed; if none does, the structural fault is named. */
  ghost predicate Reported(issue: Issue, v: View, root: nat, l: Limits, w: World, at: nat) {
    if Checked(v, root, l, w, |v.nodes|) then StructureFault(issue, v.nodes, root, at)
    else at < |v.nodes| && Checked(v, root, l, w, at) && Blamed(issue, v, at, root, l, w)
  }

  /** The passes over the nodes, once ids and root are known to be in order. */
  method ValidateTree(v: View, index: seq<Entry>, root: nat, l: Limits, w: World) returns (issue: Issue, at: nat)
    requires ValidLimits(l) && v.generation != 0 && |v.nodes| <= l.nodes && UniqueIds(v.nodes) && Indexed(index, v.nodes)
    requires root == Find(v.nodes, v.root) < |v.nodes| && v.nodes[root].parent == 0
    ensures issue == NoIssue <==> Accepts(v, l, w)
    ensures issue == LimitExceeded ==> !AllWithin(v.nodes, l)
    ensures issue == LimitExceeded || issue == UnreachableNode || Plain(issue)
    ensures issue != NoIssue ==> Reported(issue, v, root, l, w, at)
    ensures issue == UnreachableNode ==> CycleApart(v.nodes, root)
    ensures HasCycle(UpOf(v.nodes)) ==> issue != NoIssue
  {
    hide UniqueIds, Indexed, Counted, ParentOk, RootedTree, SelectionsDescend, CellInTable, ValidLimits, ChildrenOk, SelectionOk;
    hide HasCycle, Linked, Checked, Blamed, StructureFault, Find, AllWithin, Accepts;
    AcceptsInPasses(v, root, l, w);
    var incoming;
    issue, incoming, at := CheckNodes(v, index, root, l, w);
    if issue != NoIssue {
      return;
    }
    issue, at := CheckStructure(v, index, root, incoming);
    LinkedTree(root, UpOf(v.nodes), KidsOf(v.nodes));
  }

  /** Validation accepts exactly the snapshots described by `Accepts`. It never reports a cycle: what is left of cycles
      after the links are checked is reported as unreachable. Every issue it reports is justified at the node it names. */
  method Validate(v: View, l: Limits, w: World) returns (issue: Issue, at: nat)
    ensures issue == NoIssue <==> Accepts(v, l, w)
    ensures issue == LimitExceeded ==> !AllWithin(v.nodes, l)
    ensures issue == InvalidLimits <==> !ValidLimits(l)
    ensures issue == ZeroGeneration <==> ValidLimits(l) && v.generation == 0
    ensures issue == EmptyTree <==> ValidLimits(l) && v.generation != 0 && v.nodes == []
    ensures issue == InvalidNodeId ==> at < |v.nodes| && v.nodes[at].id == 0
    ensures issue == DuplicateNodeId ==> SharesId(v.nodes, at)
    ensures issue == InvalidRoot ==> var r := Find(v.nodes, v.root); r == |v.nodes| || v.nodes[r].parent != 0
    ensures issue == UnreachableNode ==> UniqueIds(v.nodes) && CycleApart(v.nodes, Find(v.nodes, v.root))
    ensures (Plain(issue) && issue != NoIssue) || (issue == LimitExceeded && |v.nodes| <= l.nodes) ==>
              Reported(issue, v, Find(v.nodes, v.root), l, w, at)
    ensures HasCycle(UpOf(v.nodes)) ==> issue != NoIssue
    ensures issue != Cycle
  {
    hide UniqueIds, Indexed, NodeOk, RootedTree, SelectionsDescend, CellInTable, OneFocus, ValidLimits, NodeWithin;
    hide HasCycle, Linked, Reported, SharesId, CycleApart;
    var valid := CheckLimits(l);
    if !valid {
      return InvalidLimits, 0;
    }
    if v.generation == 0 {
      return ZeroGeneration, 0;
    }
    if v.nodes == [] {
      return EmptyTree, 0;
    }
    if |v.nodes| > l.nodes {
      return LimitExceeded, 0;
    }
    var index;
    issue, index, at := BuildIndex(v.nodes);
    if issue != NoIssue {
      return;
    }
    var root := Lookup(index, v.nodes, v.root);
    if root == |v.nodes| || v.nodes[root].parent != 0 {
      return InvalidRoot, 0;
    }
    issue, at := ValidateTree(v, index, root, l, w);
  }

  lemma LinkedTree(root: nat, up: seq<nat>, kids: seq<seq<nat>>)
    ensures RootedTree(root, up, kids) ==> !HasCycle(up)
  {
    if RootedTree(root, up, kids) {
      TreeMeansNoCycle(root, up, kids);
    }
  }

  /** Acceptance is what the pass over the nodes and the structural pass establish together. */
  lemma AcceptsInPasses(v: View, root: nat, l: Limits, w: World)
    requires ValidLimits(l) && v.generation != 0 && |v.nodes| <= l.nodes && UniqueIds(v.nodes)
    requires root == Find(v.nodes, v.root) < |v.nodes| && v.nodes[root].parent == 0
    ensures Accepts(v, l, w) <==>
              && Checked(v, root, l, w, |v.nodes|) && RootedTree(root, UpOf(v.nodes), KidsOf(v.nodes))
              && forall i | 0 <= i < |v.nodes| :: SelectionsDescend(v.nodes, UpOf(v.nodes), i) && CellInTable(v.nodes, UpOf(v.nodes), i)
    ensures Checked(v, root, l, w, |v.nodes|) ==>
              forall i | 0 <= i < |v.nodes| ::
                && ChildrenOk(v.nodes, i) && ParentOk(v.nodes, root, i)
                && (v.nodes[i].selection.Some? ==> SelectionOk(v.nodes, v.nodes[i].selection.value))
  {
    CheckedParts(v, root, l, w);
    hide RootedTree, SelectionsDescend, CellInTable, NodeOk, NodeWithin, ParentOk, OneFocus, AllWithin, UniqueIds, ValidLimits;
    hide ChildrenOk, SelectionOk, Find;
  }

  lemma CheckedParts(v: View, root: nat, l: Limits, w: World)
    ensures Accepts(v, l, w) && root == Find(v.nodes, v.root) ==> Checked(v, root, l, w, |v.nodes|)
    ensures |v.nodes| <= l.nodes && Checked(v, root, l, w, |v.nodes|) ==> AllWithin(v.nodes, l) && OneFocus(v.nodes)
    ensures Checked(v, root, l, w, |v.nodes|) ==>
              forall i | 0 <= i < |v.nodes| ::
                && ChildrenOk(v.nodes, i) && ParentOk(v.nodes, root, i)
                && (v.nodes[i].selection.Some? ==> SelectionOk(v.nodes, v.nodes[i].selection.value))
  {
    hide NodeWithin, FlagsOk, RelationsOk, ExtensionsOk, MetricsOk, TextOk, SelectionOk, ChildrenOk, SelectionsDescend, CellInTable;
    hide LeadsTo, UniqueIds, OneFocus, Find;
    assert v.nodes[..|v.nodes|] == v.nodes;
    if Accepts(v, l, w) && root == Find(v.nodes, v.root) {
      LinkedParents(v.nodes, root);
    }
    if Checked(v, root, l, w, |v.nodes|) {
      forall i | 0 <= i < |v.nodes|
        ensures ChildrenOk(v.nodes, i) && (v.nodes[i].selection.Some? ==> SelectionOk(v.nodes, v.nodes[i].selection.value))
      {
        assert NodeOk(v.nodes, i, w);
      }
    }
  }

  lemma LinkedParents(nodes: seq<Node>, root: nat)
    requires UniqueIds(nodes) && Linked(root, UpOf(nodes), KidsOf(nodes))
    ensures forall i | 0 <= i < |nodes| :: ParentOk(nodes, root, i)
  {
    forall i | 0 <= i < |nodes| && i != root
      ensures nodes[i].parent != 0
    {
      assert UpOf(nodes)[i] < |nodes|;
    }
  }
}
