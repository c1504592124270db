/** The checks that `validate` makes on one node at a time, each against a plain statement of what it accepts. */
module NodeChecks {
  import opened Options
  import opened Counters
  import opened Snapshot
  import opened Sequences
  import opened Budgets

  // ---------------------------------------------------------------- what is accepted

  ghost predicate Exists(nodes: seq<Node>, id: NodeId) {
    Find(nodes, id) < |nodes|
  }

  predicate FlagsOk(n: Node) {
    && n.role < ROLE_COUNT
    && (forall b | b in n.states :: b < STATE_COUNT)
    && (STATE_FOCUSED in n.states ==> STATE_FOCUSABLE in n.states)
    && !(STATE_MIXED in n.states && STATE_CHECKED in n.states)
    && (forall b | b in n.actions :: b < ACTION_COUNT)
    && n.exposure < EXPOSURE_COUNT
  }

  predicate HasNul(b: Bytes) {
    0 in b
  }

  ghost predicate ChildrenOk(nodes: seq<Node>, i: nat)
    requires i < |nodes|
  {
    && Distinct(nodes[i].children)
    && forall k | 0 <= k < |nodes[i].children| ::
         Exists(nodes, nodes[i].children[k]) && nodes[Find(nodes, nodes[i].children[k])].parent == nodes[i].id
  }

  ghost predicate RelationsOk(nodes: seq<Node>, rs: seq<Relation>) {
    && (forall i | 0 <= i < |rs| :: RelationOk(nodes, rs[i]))
    && (forall i | 0 <= i < |rs| :: rs[i].kind !in KindsOf(rs[..i]))
  }

  function KindsOf(rs: seq<Relation>): set<nat> {
    set r | r in rs :: r.kind
  }

  ghost predicate RelationOk(nodes: seq<Node>, r: Relation) {
    && r.kind < RELATION_COUNT && r.targets != [] && Distinct(r.targets)
    && forall k | 0 <= k < |r.targets| :: Exists(nodes, r.targets[k])
  }

  ghost predicate ReferencesOk(nodes: seq<Node>, v: ExtensionValue) {
    match v
    case ReferenceValue(node) => Exists(nodes, node)
    case ListValue(items) => forall i | 0 <= i < |items| :: ReferencesOk(nodes, items[i])
    case _ => true
  }

  ghost predicate ExtensionOk(nodes: seq<Node>, e: Extension, w: World) {
    && e.namespaceName != [] && e.name != [] && w.validUtf8(e.namespaceName) && w.validUtf8(e.name)
    && Known(e.value) && ValidScalars(e.value, w) && ReferencesOk(nodes, e.value)
  }

  ghost predicate ExtensionsOk(nodes: seq<Node>, es: seq<Extension>, w: World) {
    && (forall i | 0 <= i < |es| :: ExtensionOk(nodes, es[i], w))
    && (forall i | 0 <= i < |es| :: !Repeated(es, i))
  }

  /** An extension has the namespace and name of an earlier one. */
  predicate Repeated(es: seq<Extension>, k: nat)
    requires k < |es|
  {
    exists i | 0 <= i < k :: es[i].namespaceName == es[k].namespaceName && es[i].name == es[k].name
  }

  predicate MetricsOk(n: Node, w: World) {
    && (n.geometry.Some? ==> w.validGeometry(n.geometry.value))
    && (n.rangeValue.Some? ==> w.validRange(n.rangeValue.value))
    && (n.scroll.Some? ==> w.validScroll(n.scroll.value))
  }

  ghost predicate SelectionOk(nodes: seq<Node>, s: SelectionInfo) {
    && (|s.selectedNodes| > 1 ==> s.multiSelectable) && (s.selectionRequired ==> s.selectedNodes != [])
    && Distinct(s.selectedNodes) && (s.activeNode != 0 ==> s.activeNode in s.selectedNodes)
    && forall k | 0 <= k < |s.selectedNodes| :: SelectedOk(nodes, s.selectedNodes[k])
  }

  ghost predicate SelectedOk(nodes: seq<Node>, id: NodeId) {
    && Exists(nodes, id)
    && STATE_SELECTED in nodes[Find(nodes, id)].states && STATE_SELECTABLE in nodes[Find(nodes, id)].states
  }

  predicate SpanFits(count: nat, index: nat, span: nat) {
    index < count && index + span <= count
  }

  predicate CollectionOk(c: CollectionInfo) {
    && c.rowCount <= INT32_MAX && c.columnCount <= INT32_MAX && c.rowIndex <= INT32_MAX && c.columnIndex <= INT32_MAX
    && c.rowSpan <= INT32_MAX && c.columnSpan <= INT32_MAX && c.positionInSet <= INT32_MAX && c.setSize <= INT32_MAX
    && c.level <= INT32_MAX && c.rowSpan != 0 && c.columnSpan != 0
    && (c.rowCount != 0 ==> SpanFits(c.rowCount, c.rowIndex, c.rowSpan))
    && (c.columnCount != 0 ==> SpanFits(c.columnCount, c.columnIndex, c.columnSpan))
    && (c.setSize != 0 ==> c.positionInSet <= c.setSize)
  }

  predicate VirtualizationOk(n: Node, v: VirtualizationInfo) {
    && v.realizedChildCount <= v.totalChildCount && v.realizedChildCount <= |n.children| && (v.realized || v.virtualized)
    && (v.canRealize ==> ACTION_REALIZE in n.actions)
  }

  predicate RangeOk(text: Bytes, r: TextRange, w: World) {
    r.begin <= r.end <= |text| && w.boundary(text, r.begin) && w.boundary(text, r.end)
  }

  ghost predicate AnnotationOk(nodes: seq<Node>, text: Bytes, a: TextAnnotation, w: World) {
    && RangeOk(text, a.range, w) && a.kind < ANNOTATION_COUNT && (a.kind == ANNOTATION_LANGUAGE ==> !HasNul(a.value))
    && (a.target != 0 ==> Exists(nodes, a.target)) && w.validUtf8(a.value)
  }

  ghost predicate TextOk(nodes: seq<Node>, n: Node, t: TextContent, w: World) {
    && w.validUtf8(t.utf8) && w.validUtf8(t.language) && !HasNul(t.language) && t.direction < DIRECTION_COUNT
    && (|t.selection| > 1 ==> n.selection.Some? && n.selection.value.multiSelectable)
    && (forall k | 0 <= k < |t.annotations| :: AnnotationOk(nodes, t.utf8, t.annotations[k], w))
    && RangesOk(t, w)
  }

  /** A node that refers only to existing nodes, and whose own fields are in order. */
  ghost predicate NodeOk(nodes: seq<Node>, i: nat, w: World)
    requires i < |nodes|
  {
    var n := nodes[i];
    && FlagsOk(n) && (forall k | 0 <= k < |BasicTexts(n)| :: w.validUtf8(BasicTexts(n)[k])) && !HasNul(n.language)
    && ChildrenOk(nodes, i) && RelationsOk(nodes, n.relations) && ExtensionsOk(nodes, n.extensions, w) && MetricsOk(n, w)
    && (n.selection.Some? ==> SelectionOk(nodes, n.selection.value))
    && (n.collection.Some? ==> CollectionOk(n.collection.value))
    && (n.virtualization.Some? ==> VirtualizationOk(n, n.virtualization.value))
    && (n.text.Some? ==> TextOk(nodes, n, n.text.value, w))
  }

  // ---------------------------------------------------------------- what each issue says about a node

  /** `taken` tells that an earlier node has the focus. */
  predicate FlagFault(issue: Issue, n: Node, taken: bool) {
    match issue
    case InvalidRole => n.role >= ROLE_COUNT
    case InvalidState =>
      || (exists b :: b in n.states && b >= STATE_COUNT)
      || (STATE_FOCUSED in n.states && (STATE_FOCUSABLE !in n.states || taken))
      || (STATE_MIXED in n.states && STATE_CHECKED in n.states)
    case InvalidAction => exists b :: b in n.actions && b >= ACTION_COUNT
    case InvalidValue => n.exposure >= EXPOSURE_COUNT
    case _ => false
  }

  ghost predicate AnyAbsent(nodes: seq<Node>, ids: seq<NodeId>) {
    exists k :: 0 <= k < |ids| && !Exists(nodes, ids[k])
  }

  ghost predicate LinkFault(issue: Issue, nodes: seq<Node>, i: nat, root: nat)
    requires i < |nodes|
  {
    var n := nodes[i];
    match issue
    case InvalidText => HasNul(n.language)
    case DuplicateChild => !Distinct(n.children)
    case MissingNode => AnyAbsent(nodes, n.children)
    case ParentMismatch =>
      || (i != root && (n.parent == 0 || !Exists(nodes, n.parent)))
      || exists k :: 0 <= k < |n.children| && Exists(nodes, n.children[k]) && nodes[Find(nodes, n.children[k])].parent != n.id
    case _ => false
  }

  ghost predicate BadRelation(rs: seq<Relation>, k: nat) {
    k < |rs| && (rs[k].kind >= RELATION_COUNT || rs[k].targets == [] || !Distinct(rs[k].targets) || rs[k].kind in KindsOf(rs[..k]))
  }

  ghost predicate RelationFault(issue: Issue, nodes: seq<Node>, rs: seq<Relation>) {
    match issue
    case InvalidRelation => exists k: nat :: BadRelation(rs, k)
    case MissingNode => exists k :: 0 <= k < |rs| && AnyAbsent(nodes, rs[k].targets)
    case _ => false
  }

  predicate BadExtension(es: seq<Extension>, k: nat, w: World) {
    k < |es| && (es[k].namespaceName == [] || es[k].name == [] || Repeated(es, k) || !WellFormed(es[k].value, w))
  }

  predicate GarbledExtension(e: Extension, w: World) {
    !w.validUtf8(e.namespaceName) || !w.validUtf8(e.name) || !WellEncoded(e.value, w)
  }

  ghost predicate ExtensionFault(issue: Issue, nodes: seq<Node>, es: seq<Extension>, w: World) {
    match issue
    case InvalidExtension => exists k: nat :: BadExtension(es, k, w)
    case InvalidText => exists k :: 0 <= k < |es| && GarbledExtension(es[k], w)
    case MissingNode => exists k :: 0 <= k < |es| && !ReferencesOk(nodes, es[k].value)
    case _ => false
  }

  ghost predicate FieldFault(issue: Issue, nodes: seq<Node>, n: Node, w: World) {
    match issue
    case InvalidGeometry => n.geometry.Some? && !w.validGeometry(n.geometry.value)
    case InvalidValue =>
      (n.rangeValue.Some? && !w.validRange(n.rangeValue.value)) || (n.scroll.Some? && !w.validScroll(n.scroll.value))
    case InvalidSelection => n.selection.Some? && !SelectionOk(nodes, n.selection.value)
    case InvalidCollection => n.collection.Some? && !CollectionOk(n.collection.value)
    case InvalidVirtualization => n.virtualization.Some? && !VirtualizationOk(n, n.virtualization.value)
    case _ => false
  }

  predicate GarbledAnnotation(a: TextAnnotation, w: World) {
    a.kind >= ANNOTATION_COUNT || (a.kind == ANNOTATION_LANGUAGE && HasNul(a.value)) || !w.validUtf8(a.value)
  }

  ghost predicate AnnotationFault(issue: Issue, nodes: seq<Node>, text: Bytes, a: TextAnnotation, w: World) {
    match issue
    case InvalidText => GarbledAnnotation(a, w)
    case InvalidTextRange => !RangeOk(text, a.range, w)
    case MissingNode => a.target != 0 && !Exists(nodes, a.target)
    case _ => false
  }

  ghost predicate ContentFault(issue: Issue, nodes: seq<Node>, n: Node, t: TextContent, w: World) {
    || (issue == InvalidText && (!w.validUtf8(t.utf8) || !w.validUtf8(t.language) || HasNul(t.language) || t.direction >= DIRECTION_COUNT))
    || (issue == InvalidSelection && |t.selection| > 1 && (n.selection.None? || !n.selection.value.multiSelectable))
    || (issue == InvalidTextRange && !RangesOk(t, w))
    || (exists k :: 0 <= k < |t.annotations| && AnnotationFault(issue, nodes, t.utf8, t.annotations[k], w))
  }

  /** The node has the fault that the issue names. */
  ghost predicate NodeFault(issue: Issue, nodes: seq<Node>, i: nat, root: nat, taken: bool, w: World)
    requires i < |nodes|
  {
    var n := nodes[i];
    || FlagFault(issue, n, taken)
    || (issue == InvalidText && exists k :: 0 <= k < |BasicTexts(n)| && !w.validUtf8(BasicTexts(n)[k]))
    || LinkFault(issue, nodes, i, root) || RelationFault(issue, nodes, n.relations)
    || ExtensionFault(issue, nodes, n.extensions, w) || FieldFault(issue, nodes, n, w)
    || (n.text.Some? && ContentFault(issue, nodes, n, n.text.value, w))
  }

  // ---------------------------------------------------------------- the checks

  /** An issue that a node's own fields can raise apart from a limit. */
  predicate Plain(issue: Issue) {
    issue !in {LimitExceeded, Cycle, UnreachableNode, InvalidLimits, ZeroGeneration, EmptyTree, InvalidRoot, InvalidNodeId, DuplicateNodeId}
  }

  function IdKey(id: NodeId): int {
    id
  }

  /** Sort and look for equal neighbours. */
  method HasDuplicates(ids: seq<NodeId>) returns (found: bool)
    ensures found <==> !Distinct(ids)
  {
    var sorted := SortBy(ids, IdKey);
    var i := 1;
    while i < |sorted|
      invariant 1 <= i
      invariant forall a, b | 0 <= a < b < i && b < |sorted| :: sorted[a] < sorted[b]
    {
      if sorted[i - 1] == sorted[i] {
        if Distinct(ids) {
          PermutationDistinct(ids, sorted);
        }
        return true;
      }
      assert IdKey(sorted[i - 1]) <= IdKey(sorted[i]);
      i := i + 1;
    }
    PermutationDistinct(sorted, ids);
    return false;
  }

  method CheckFlags(n: Node, focused: nat) returns (issue: Issue, now: nat)
    requires focused <= 1
    ensures issue == NoIssue <==> FlagsOk(n) && !(STATE_FOCUSED in n.states && focused == 1)
    ensures Plain(issue) && (issue != NoIssue ==> FlagFault(issue, n, focused == 1))
    ensures issue == NoIssue ==> now == (if STATE_FOCUSED in n.states then 1 else focused)
  {
    now := focused;
    if n.role >= ROLE_COUNT {
      return InvalidRole, now;
    }
    if (exists b :: b in n.states && b >= STATE_COUNT) || (STATE_FOCUSED in n.states && STATE_FOCUSABLE !in n.states) ||
       (STATE_MIXED in n.states && STATE_CHECKED in n.states)
    {
      return InvalidState, now;
    }
    if STATE_FOCUSED in n.states {
      now := now + 1;
      if now > 1 {
        return InvalidState, now;
      }
    }
    if exists b :: b in n.actions && b >= ACTION_COUNT {
      return InvalidAction, now;
    }
    if n.exposure >= EXPOSURE_COUNT {
      return InvalidValue, now;
    }
    return NoIssue, now;
  }

  method CheckRelations(rs: seq<Relation>, nodes: seq<Node>, index: seq<Entry>, l: Limits) returns (issue: Issue)
    requires UniqueIds(nodes) && Indexed(index, nodes) && l.targets <= INT32_MAX
    ensures issue == NoIssue <==> RelationsOk(nodes, rs) && TargetSum(rs) <= l.targets
    ensures issue == LimitExceeded ==> TargetSum(rs) > l.targets
    ensures issue == LimitExceeded || Plain(issue)
    ensures issue != NoIssue && issue != LimitExceeded ==> RelationFault(issue, nodes, rs)
  {
    hide Indexed, UniqueIds, RelationOk, TargetSum, KindsOf, AnyAbsent, Distinct;
    var targets, kinds: set<nat> := 0, {};
    NoRelations(rs);
    for k := 0 to |rs|
      invariant targets == TargetSum(rs[..k]) <= l.targets
      invariant kinds == KindsOf(rs[..k])
      invariant forall i | 0 <= i < k :: RelationOk(nodes, rs[i]) && rs[i].kind !in KindsOf(rs[..i])
    {
      TargetPrefix(rs, k);
      KindsStep(rs, k);
      targets := Add64(targets, |rs[k].targets|);
      issue := CheckRelation(rs[k], rs[k].kind in kinds, targets > l.targets, nodes, index);
      if issue != NoIssue {
        assert issue == InvalidRelation ==> BadRelation(rs, k);
        return;
      }
      kinds := kinds + {rs[k].kind};
    }
    assert rs[..|rs|] == rs;
    return NoIssue;
  }

  lemma NoRelations(rs: seq<Relation>)
    ensures TargetSum(rs[..0]) == 0 && KindsOf(rs[..0]) == {}
  {
  }

  lemma KindsStep(rs: seq<Relation>, k: nat)
    requires k < |rs|
    ensures KindsOf(rs[..k + 1]) == KindsOf(rs[..k]) + {rs[k].kind}
  {
    assert rs[..k + 1] == rs[..k] + [rs[k]];
  }

  method CheckRelation(r: Relation, repeated: bool, tooMany: bool, nodes: seq<Node>, index: seq<Entry>) returns (issue: Issue)
    requires UniqueIds(nodes) && Indexed(index, nodes)
    ensures issue == NoIssue <==> RelationOk(nodes, r) && !repeated && !tooMany
    ensures issue == LimitExceeded ==> tooMany
    ensures issue == LimitExceeded || Plain(issue)
    ensures issue in {NoIssue, LimitExceeded, InvalidRelation, MissingNode}
    ensures issue == InvalidRelation ==> r.kind >= RELATION_COUNT || r.targets == [] || !Distinct(r.targets) || repeated
    ensures issue == MissingNode ==> AnyAbsent(nodes, r.targets)
  {
    hide Indexed, UniqueIds, Distinct, Find;
    if r.kind >= RELATION_COUNT || r.targets == [] {
      return InvalidRelation;
    }
    if repeated {
      return InvalidRelation;
    }
    if tooMany {
      return LimitExceeded;
    }
    var duplicate := HasDuplicates(r.targets);
    if duplicate {
      return InvalidRelation;
    }
    var missing := AnyMissing(r.targets, nodes, index);
    if missing {
      return MissingNode;
    }
    return NoIssue;
  }

  method AnyMissing(ids: seq<NodeId>, nodes: seq<Node>, index: seq<Entry>) returns (missing: bool)
    requires UniqueIds(nodes) && Indexed(index, nodes)
    ensures missing <==> exists k | 0 <= k < |ids| :: !Exists(nodes, ids[k])
  {
    for k := 0 to |ids|
      invariant forall i | 0 <= i < k :: Exists(nodes, ids[i])
    {
      if Lookup(index, nodes, ids[k]) == |nodes| {
        return true;
      }
    }
    return false;
  }

  predicate ReferencesFound(v: ExtensionValue, nodes: seq<Node>, index: seq<Entry>)
    requires UniqueIds(nodes) && Indexed(index, nodes)
    ensures ReferencesFound(v, nodes, index) == ReferencesOk(nodes, v)
  {
    match v
    case ReferenceValue(node) => Lookup(index, nodes, node) != |nodes|
    case ListValue(items) => forall i | 0 <= i < |items| :: ReferencesFound(items[i], nodes, index)
    case _ => true
  }

  method CheckExtensions(es: seq<Extension>, nodes: seq<Node>, index: seq<Entry>, budget: Budget) returns (issue: Issue)
    requires UniqueIds(nodes) && Indexed(index, nodes) && budget.Valid() && budget.extensionValues == 0
    modifies budget
    ensures issue == NoIssue <==>
              && ExtensionsOk(nodes, es, budget.world) && ExtensionsWithin(es, budget.limits)
              && old(budget.Room(ExtensionsText(es)))
    ensures issue == LimitExceeded ==> !(ExtensionsWithin(es, budget.limits) && old(budget.Room(ExtensionsText(es))))
    ensures issue == LimitExceeded || Plain(issue)
    ensures issue != NoIssue && issue != LimitExceeded ==> ExtensionFault(issue, nodes, es, budget.world)
    ensures issue == NoIssue ==>
              && budget.Valid() && budget.nodeBytes == old(budget.nodeBytes) + ExtensionsText(es)
              && budget.bytes == old(budget.bytes) + ExtensionsText(es)
  {
    hide ExtensionOk, ExtensionText, ExtensionsText, ExtensionsCount, Indexed, UniqueIds, Find, Shallow, Count, Repeated;
    hide GarbledExtension, ReferencesOk, WellFormed, ExtensionFault, ValidLimits, Known, ValidScalars;
    NoExtensions(es);
    for k := 0 to |es|
      invariant budget.Valid() && budget.extensionValues == ExtensionsCount(es[..k])
      invariant budget.nodeBytes == old(budget.nodeBytes) + ExtensionsText(es[..k])
      invariant budget.bytes == old(budget.bytes) + ExtensionsText(es[..k])
      invariant forall i | 0 <= i < k :: ExtensionOk(nodes, es[i], budget.world) && Shallow(es[i].value, 0, budget.limits)
      invariant forall i | 0 <= i < k :: !Repeated(es, i)
    {
      ExtensionsPrefix(es, k);
      var repeated := SeenBefore(es, k);
      issue := CheckExtension(es[k], repeated, nodes, index, budget);
      if issue != NoIssue {
        ExtensionBlamed(issue, nodes, es, k, budget.world);
        return;
      }
    }
    assert es[..|es|] == es;
    return NoIssue;
  }

  method SeenBefore(es: seq<Extension>, k: nat) returns (seen: bool)
    requires k < |es|
    ensures seen <==> Repeated(es, k)
  {
    for previous := 0 to k
      invariant forall i | 0 <= i < previous :: !(es[i].namespaceName == es[k].namespaceName && es[i].name == es[k].name)
    {
      if es[previous].namespaceName == es[k].namespaceName && es[previous].name == es[k].name {
        return true;
      }
    }
    return false;
  }

  /** A range that is turned round, leaves the text or splits a grapheme. */
  predicate Misplaced(text: Bytes, r: TextRange, w: World)
    ensures Misplaced(text, r, w) <==> !RangeOk(text, r, w)
  {
    r.begin > r.end || r.end > |text| || !w.boundary(text, r.begin) || !w.boundary(text, r.end)
  }

  lemma ExtensionBlamed(issue: Issue, nodes: seq<Node>, es: seq<Extension>, k: nat, w: World)
    requires k < |es| && issue in {LimitExceeded, InvalidExtension, InvalidText, MissingNode}
    requires issue == InvalidExtension ==>
               es[k].namespaceName == [] || es[k].name == [] || Repeated(es, k) || !WellFormed(es[k].value, w)
    requires issue == InvalidText ==> GarbledExtension(es[k], w)
    requires issue == MissingNode ==> !ReferencesOk(nodes, es[k].value)
    ensures issue != LimitExceeded ==> ExtensionFault(issue, nodes, es, w)
  {
    hide WellFormed, GarbledExtension, ReferencesOk, Repeated;
    assert issue == InvalidExtension ==> BadExtension(es, k, w);
  }

  lemma NoExtensions(es: seq<Extension>)
    ensures ExtensionsText(es[..0]) == 0 && ExtensionsCount(es[..0]) == 0
  {
  }

  method CheckExtension(e: Extension, repeated: bool, nodes: seq<Node>, index: seq<Entry>, budget: Budget)
    returns (issue: Issue)
    requires UniqueIds(nodes) && Indexed(index, nodes) && budget.Valid()
    modifies budget
    ensures issue == NoIssue <==>
              && !repeated && ExtensionOk(nodes, e, budget.world) && Shallow(e.value, 0, budget.limits)
              && old(budget.extensionValues) + Count(e.value) <= budget.limits.values && old(budget.Room(ExtensionText(e)))
    ensures issue == LimitExceeded ==>
              !(&& Shallow(e.value, 0, budget.limits)
                && old(budget.extensionValues) + Count(e.value) <= budget.limits.values && old(budget.Room(ExtensionText(e))))
    ensures issue == LimitExceeded || Plain(issue)
    ensures issue in {NoIssue, LimitExceeded, InvalidExtension, InvalidText, MissingNode}
    ensures issue == InvalidExtension ==> e.namespaceName == [] || e.name == [] || repeated || !WellFormed(e.value, budget.world)
    ensures issue == InvalidText ==> GarbledExtension(e, budget.world)
    ensures issue == MissingNode ==> !ReferencesOk(nodes, e.value)
    ensures issue == NoIssue ==>
              && budget.Valid() && budget.extensionValues == old(budget.extensionValues) + Count(e.value)
              && budget.nodeBytes == old(budget.nodeBytes) + ExtensionText(e)
              && budget.bytes == old(budget.bytes) + ExtensionText(e)
  {
    hide Indexed, UniqueIds, Find, Lookup, Known, ValidScalars, Shallow, ReferencesFound, ReferencesOk, WellFormed, WellEncoded;
    if e.namespaceName == [] || e.name == [] {
      return InvalidExtension;
    }
    if repeated {
      return InvalidExtension;
    }
    issue := budget.String(e.namespaceName);
    if issue != NoIssue {
      return;
    }
    issue := budget.String(e.name);
    if issue != NoIssue {
      return;
    }
    issue := budget.Extension(e.value, 0);
    if issue != NoIssue {
      return;
    }
    if !ReferencesFound(e.value, nodes, index) {
      return MissingNode;
    }
    return NoIssue;
  }

  /** Every value is compared as an unsigned 32-bit number; no subtraction falls below zero. */
  method CheckCollection(c: CollectionInfo) returns (ok: bool)
    ensures ok <==> CollectionOk(c)
  {
    var values := [c.rowCount, c.columnCount, c.rowIndex, c.columnIndex, c.rowSpan, c.columnSpan, c.positionInSet, c.setSize, c.level];
    for k := 0 to |values|
      invariant forall i | 0 <= i < k :: values[i] <= INT32_MAX
    {
      if values[k] > INT32_MAX {
        assert values[k] in values;
        return false;
      }
    }
    assert forall i | 0 <= i < 9 :: values[i] <= INT32_MAX;
    assert values[0] <= INT32_MAX && values[1] <= INT32_MAX && values[2] <= INT32_MAX && values[3] <= INT32_MAX;
    assert values[4] <= INT32_MAX && values[5] <= INT32_MAX && values[6] <= INT32_MAX && values[7] <= INT32_MAX && values[8] <= INT32_MAX;
    if c.rowSpan == 0 || c.columnSpan == 0 {
      return false;
    }
    if c.rowCount != 0 && Outside(c.rowCount, c.rowIndex, c.rowSpan) {
      return false;
    }
    if c.columnCount != 0 && Outside(c.columnCount, c.columnIndex, c.columnSpan) {
      return false;
    }
    return c.setSize == 0 || c.positionInSet <= c.setSize;
  }

  method CheckVirtualization(n: Node, v: VirtualizationInfo) returns (ok: bool)
    ensures ok <==> VirtualizationOk(n, v)
  {
    if v.realizedChildCount > v.totalChildCount || v.realizedChildCount > |n.children| || (!v.realized && !v.virtualized) {
      return false;
    }
    return !v.canRealize || ACTION_REALIZE in n.actions;
  }

  /** The comparison without a sum; the difference is taken only where it is not negative. */
  predicate Outside(count: nat, index: nat, span: nat)
    ensures Outside(count, index, span) <==> !SpanFits(count, index, span)
  {
    index >= count || var room: nat := count - index; span > room
  }

  method CheckSelection(s: SelectionInfo, nodes: seq<Node>, index: seq<Entry>, l: Limits) returns (issue: Issue)
    requires UniqueIds(nodes) && Indexed(index, nodes)
    ensures issue == NoIssue <==> SelectionOk(nodes, s) && |s.selectedNodes| <= l.nodes
    ensures issue == LimitExceeded ==> |s.selectedNodes| > l.nodes
    ensures issue == LimitExceeded || Plain(issue)
    ensures issue in {NoIssue, LimitExceeded, InvalidSelection} && (issue == InvalidSelection ==> !SelectionOk(nodes, s))
  {
    hide Indexed, UniqueIds, Distinct, Find, Lookup;
    if (!s.multiSelectable && |s.selectedNodes| > 1) || (s.selectionRequired && s.selectedNodes == []) {
      return InvalidSelection;
    }
    if |s.selectedNodes| > l.nodes {
      return LimitExceeded;
    }
    var duplicate := HasDuplicates(s.selectedNodes);
    if duplicate {
      return InvalidSelection;
    }
    if s.activeNode != 0 && s.activeNode !in s.selectedNodes {
      return InvalidSelection;
    }
    for k := 0 to |s.selectedNodes|
      invariant forall i | 0 <= i < k :: SelectedOk(nodes, s.selectedNodes[i])
    {
      var at := Lookup(index, nodes, s.selectedNodes[k]);
      if at == |nodes| || STATE_SELECTED !in nodes[at].states || STATE_SELECTABLE !in nodes[at].states {
        return InvalidSelection;
      }
    }
    return NoIssue;
  }

  method CheckText(n: Node, t: TextContent, nodes: seq<Node>, index: seq<Entry>, budget: Budget) returns (issue: Issue)
    requires UniqueIds(nodes) && Indexed(index, nodes) && budget.Valid()
    modifies budget
    ensures issue == NoIssue <==>
              && TextOk(nodes, n, t, budget.world) && ContentWithin(Some(t), budget.limits)
              && old(budget.Room(ContentText(Some(t))))
    ensures issue == LimitExceeded ==> !(ContentWithin(Some(t), budget.limits) && old(budget.Room(ContentText(Some(t)))))
    ensures issue == LimitExceeded || Plain(issue)
    ensures issue != NoIssue && issue != LimitExceeded ==> ContentFault(issue, nodes, n, t, budget.world)
    ensures issue == NoIssue ==>
              && budget.Valid() && budget.nodeBytes == old(budget.nodeBytes) + ContentText(Some(t))
              && budget.bytes == old(budget.bytes) + ContentText(Some(t))
  {
    hide Indexed, UniqueIds, Find, Lookup, RangesOk, HasNul, AnnotationOk, AnnotationFault;
    var w, l := budget.world, budget.limits;
    issue := budget.String(t.utf8);
    if issue != NoIssue {
      return;
    }
    issue := budget.String(t.language);
    if issue != NoIssue {
      return;
    }
    if HasNul(t.language) || t.direction >= DIRECTION_COUNT {
      return InvalidText;
    }
    if |t.annotations| > l.annotations || |t.fragments| > l.fragments || |t.selection| > l.textSelections {
      return LimitExceeded;
    }
    if |t.selection| > 1 && (n.selection.None? || !n.selection.value.multiSelectable) {
      return InvalidSelection;
    }
    issue := CheckAnnotations(t, nodes, index, budget);
    if issue != NoIssue {
      return;
    }
    issue := CheckRanges(t, w);
  }

  ghost predicate RangesOk(t: TextContent, w: World) {
    && (forall k | 0 <= k < |t.fragments| :: RangeOk(t.utf8, t.fragments[k].range, w) && w.validRect(t.fragments[k].bounds))
    && (forall k | 0 <= k < |t.selection| :: RangeOk(t.utf8, t.selection[k], w))
    && (t.caret.Some? ==> RangeOk(t.utf8, TextRange(t.caret.value, t.caret.value), w))
  }

  method CheckRanges(t: TextContent, w: World) returns (issue: Issue)
    ensures issue == NoIssue <==> RangesOk(t, w)
    ensures issue == NoIssue || issue == InvalidTextRange
  {
    for k := 0 to |t.fragments|
      invariant forall i | 0 <= i < k :: RangeOk(t.utf8, t.fragments[i].range, w) && w.validRect(t.fragments[i].bounds)
    {
      if Misplaced(t.utf8, t.fragments[k].range, w) || !w.validRect(t.fragments[k].bounds) {
        return InvalidTextRange;
      }
    }
    for k := 0 to |t.selection|
      invariant forall i | 0 <= i < k :: RangeOk(t.utf8, t.selection[i], w)
    {
      if Misplaced(t.utf8, t.selection[k], w) {
        return InvalidTextRange;
      }
    }
    if t.caret.Some? && Misplaced(t.utf8, TextRange(t.caret.value, t.caret.value), w) {
      return InvalidTextRange;
    }
    return NoIssue;
  }

  method CheckAnnotations(t: TextContent, nodes: seq<Node>, index: seq<Entry>, budget: Budget) returns (issue: Issue)
    requires UniqueIds(nodes) && Indexed(index, nodes) && budget.Valid()
    modifies budget
    ensures issue == NoIssue <==>
              && (forall k | 0 <= k < |t.annotations| :: AnnotationOk(nodes, t.utf8, t.annotations[k], budget.world))
              && old(budget.Room(AnnotationsText(t.annotations)))
    ensures issue == LimitExceeded ==> !old(budget.Room(AnnotationsText(t.annotations)))
    ensures issue == LimitExceeded || Plain(issue)
    ensures issue != NoIssue && issue != LimitExceeded ==>
              exists k :: 0 <= k < |t.annotations| && AnnotationFault(issue, nodes, t.utf8, t.annotations[k], budget.world)
    ensures issue == NoIssue ==>
              && budget.Valid() && budget.nodeBytes == old(budget.nodeBytes) + AnnotationsText(t.annotations)
              && budget.bytes == old(budget.bytes) + AnnotationsText(t.annotations)
  {
    hide Indexed, UniqueIds, AnnotationOk, AnnotationsText, AnnotationFault;
    NoAnnotations(t.annotations);
    for k := 0 to |t.annotations|
      invariant budget.Valid() && budget.nodeBytes == old(budget.nodeBytes) + AnnotationsText(t.annotations[..k])
      invariant budget.bytes == old(budget.bytes) + AnnotationsText(t.annotations[..k])
      invariant forall i | 0 <= i < k :: AnnotationOk(nodes, t.utf8, t.annotations[i], budget.world)
    {
      AnnotationsPrefix(t.annotations, k);
      issue := CheckAnnotation(t.utf8, t.annotations[k], nodes, index, budget);
      if issue != NoIssue {
        return;
      }
    }
    assert t.annotations[..|t.annotations|] == t.annotations;
    return NoIssue;
  }

  lemma NoAnnotations(xs: seq<TextAnnotation>)
    ensures AnnotationsText(xs[..0]) == 0
  {
  }

  method CheckAnnotation(text: Bytes, a: TextAnnotation, nodes: seq<Node>, index: seq<Entry>, budget: Budget)
    returns (issue: Issue)
    requires UniqueIds(nodes) && Indexed(index, nodes) && budget.Valid()
    modifies budget
    ensures budget.Valid()
    ensures issue == NoIssue <==> AnnotationOk(nodes, text, a, budget.world) && old(budget.Room(|a.value|))
    ensures issue == LimitExceeded ==> !old(budget.Room(|a.value|))
    ensures issue == LimitExceeded || Plain(issue)
    ensures issue != NoIssue && issue != LimitExceeded ==> AnnotationFault(issue, nodes, text, a, budget.world)
    ensures issue == NoIssue ==>
              budget.nodeBytes == old(budget.nodeBytes) + |a.value| && budget.bytes == old(budget.bytes) + |a.value|
  {
    hide Indexed, UniqueIds, Find, Lookup, RangeOk, HasNul;
    if Misplaced(text, a.range, budget.world) {
      return InvalidTextRange;
    }
    if a.kind >= ANNOTATION_COUNT || (a.kind == ANNOTATION_LANGUAGE && HasNul(a.value)) {
      return InvalidText;
    }
    if a.target != 0 && Lookup(index, nodes, a.target) == |nodes| {
      return MissingNode;
    }
    issue := budget.String(a.value);
  }
}
