/** Which node a mutation names, said without the procedure that finds it. */
module JsonPaths {
  import opened Options
  import opened JsonGrammar
  import opened JsonScanner
  import opened JsonParser
  import opened JsonEdits
  import opened JsonMutator

  // ---------------------------------------------------------------- what a path means

  predicate KeyIs(p: Property, name: Text) {
    p.key.StringNode? && p.key.value == name
  }

  /** Property `i` is the first of the object with this name. */
  ghost predicate NamedAt(node: Node, name: Text, i: nat) {
    && node.ObjectNode? && i < |node.properties| && KeyIs(node.properties[i], name)
    && forall j | 0 <= j < i :: !KeyIs(node.properties[j], name)
  }

  predicate EqualsScalar(node: Node, scalar: Scalar, numeric: Text -> int) {
    match scalar
    case TextScalar(text) => node.StringNode? && node.value == text
    case NumberScalar(number) => node.NumberNode? && numeric(node.text) == number
    case BooleanScalar(flag) => node.BooleanNode? && node.flag == flag
    case NullScalar => node.NullNode?
  }

  /** The item has the field, with the expected scalar. */
  ghost predicate HasField(item: Node, field: (Text, Scalar), numeric: Text -> int) {
    exists i: nat :: NamedAt(item, field.0, i) && EqualsScalar(item.properties[i].value, field.1, numeric)
  }

  /** The item has the field, and it is an array or an object. */
  ghost predicate CompoundField(item: Node, name: Text) {
    exists i: nat :: NamedAt(item, name, i) && (item.properties[i].value.ArrayNode? || item.properties[i].value.ObjectNode?)
  }

  ghost predicate Fulfils(item: Node, fields: seq<(Text, Scalar)>, numeric: Text -> int) {
    item.ObjectNode? && forall k | 0 <= k < |fields| :: HasField(item, fields[k], numeric)
  }

  /** Comparing this item with the fields in turn comes to one that is no scalar. */
  ghost predicate Incomparable(item: Node, fields: seq<(Text, Scalar)>, numeric: Text -> int) {
    exists k :: 0 <= k < |fields| && CompoundField(item, fields[k].0) && forall j | 0 <= j < k :: HasField(item, fields[j], numeric)
  }

  /** Item `i` is the only one that fulfils the selector, and all items can be compared. */
  ghost predicate SelectedAt(items: seq<Node>, fields: seq<(Text, Scalar)>, i: nat, numeric: Text -> int) {
    && i < |items| && Fulfils(items[i], fields, numeric)
    && (forall j | 0 <= j < |items| && j != i :: !Fulfils(items[j], fields, numeric))
    && (forall j | 0 <= j < |items| :: !Incomparable(items[j], fields, numeric))
  }

  ghost predicate PathLeads(node: Node, path: seq<Segment>, target: Node, numeric: Text -> int)
    decreases |path|
  {
    if path == [] then target == node
    else
      match path[0]
      case PropertySegment(name) =>
        exists i: nat :: NamedAt(node, name, i) && PathLeads(node.properties[i].value, path[1..], target, numeric)
      case MatchSegment(fields) =>
        node.ArrayNode? && exists i: nat :: SelectedAt(node.items, fields, i, numeric) && PathLeads(node.items[i], path[1..], target, numeric)
      case UnsupportedSegment => false
  }

  /** The item is an object whose id is this text. */
  ghost predicate HasId(item: Node, toolId: Text) {
    exists i: nat :: NamedAt(item, ID, i) && item.properties[i].value.StringNode? && item.properties[i].value.value == toolId
  }

  ghost predicate OnlyTool(items: seq<Node>, toolId: Text, i: nat) {
    i < |items| && HasId(items[i], toolId) && forall j | 0 <= j < |items| && j != i :: !HasId(items[j], toolId)
  }

  /** The mutation names this node: a string with the expected text, at the end of the path that starts at the only tool
      with the given id. */
  ghost predicate Names(root: Node, m: Mutation, target: Node, numeric: Text -> int) {
    && m.Mutation? && target.StringNode? && target.value == m.expected
    && exists t: nat, i: nat ::
         && NamedAt(root, TOOLS, t) && root.properties[t].value.ArrayNode?
         && OnlyTool(root.properties[t].value.items, m.toolId, i)
         && PathLeads(root.properties[t].value.items[i], m.path, target, numeric)
  }

  // ---------------------------------------------------------------- the lookups decide these relations

  lemma NamedIsFirst(node: Node, name: Text, i: nat, j: nat)
    requires NamedAt(node, name, j) && i <= |node.properties| && forall k | 0 <= k < i :: !KeyIs(node.properties[k], name)
    requires i < |node.properties| ==> KeyIs(node.properties[i], name)
    ensures j == i
  {
  }

  lemma {:induction false} LookupFinds(properties: seq<Property>, name: Text) returns (i: nat)
    ensures i <= |properties| && forall j | 0 <= j < i :: !KeyIs(properties[j], name)
    ensures i < |properties| ==> KeyIs(properties[i], name) && Lookup(properties, name) == Some(properties[i].value)
    ensures i == |properties| ==> Lookup(properties, name) == None
  {
    if properties == [] || KeyIs(properties[0], name) {
      i := 0;
    } else {
      var k := LookupFinds(properties[1..], name);
      i := k + 1;
      assert forall j | 1 <= j < i :: properties[1..][j - 1] == properties[j];
    }
  }

  /** One field decides as the comparison does. */
  lemma FieldDecides(item: Node, field: (Text, Scalar), numeric: Text -> int)
    requires item.ObjectNode?
    ensures var found := Lookup(item.properties, field.0);
            && (found.None? ==> !HasField(item, field, numeric) && !CompoundField(item, field.0))
            && (found.Some? && ScalarOf(found.value, numeric).Rejected? ==>
                  !HasField(item, field, numeric) && CompoundField(item, field.0))
            && (found.Some? && ScalarOf(found.value, numeric).Done? ==>
                  && !CompoundField(item, field.0)
                  && (HasField(item, field, numeric) <==> ScalarOf(found.value, numeric).value == field.1))
  {
    var i := LookupFinds(item.properties, field.0);
    if i < |item.properties| {
      assert NamedAt(item, field.0, i);
    }
    forall j: nat | NamedAt(item, field.0, j)
      ensures j == i && i < |item.properties|
    {
      NamedIsFirst(item, field.0, i, j);
    }
  }

  lemma {:induction false} FieldsDecide(item: Node, fields: seq<(Text, Scalar)>, numeric: Text -> int)
    requires item.ObjectNode?
    ensures var r := MatchesFields(item.properties, fields, numeric);
            && (r.Rejected? <==> Incomparable(item, fields, numeric))
            && (r.Done? ==> (r.value <==> Fulfils(item, fields, numeric)))
    decreases |fields|
  {
    hide HasField, CompoundField;
    if fields != [] {
      FieldDecides(item, fields[0], numeric);
      FieldsDecide(item, fields[1..], numeric);
      FieldsSplit(item, fields, numeric);
    }
  }

  lemma FieldsSplit(item: Node, fields: seq<(Text, Scalar)>, numeric: Text -> int)
    requires item.ObjectNode? && fields != []
    ensures Fulfils(item, fields, numeric) <==> HasField(item, fields[0], numeric) && Fulfils(item, fields[1..], numeric)
    ensures Incomparable(item, fields, numeric) <==>
              || CompoundField(item, fields[0].0)
              || (HasField(item, fields[0], numeric) && Incomparable(item, fields[1..], numeric))
  {
    hide HasField, CompoundField;
    var rest := fields[1..];
    assert forall k | 0 <= k < |rest| :: rest[k] == fields[k + 1];
    if Incomparable(item, fields, numeric) && !CompoundField(item, fields[0].0) {
      var k :| 0 <= k < |fields| && CompoundField(item, fields[k].0) && forall j | 0 <= j < k :: HasField(item, fields[j], numeric);
      assert CompoundField(item, rest[k - 1].0);
    }
    if HasField(item, fields[0], numeric) && Incomparable(item, rest, numeric) {
      var k :| 0 <= k < |rest| && CompoundField(item, rest[k].0) && forall j | 0 <= j < k :: HasField(item, rest[j], numeric);
      assert CompoundField(item, fields[k + 1].0);
      assert forall j | 0 < j < k + 1 :: fields[j] == rest[j - 1];
    }
    if HasField(item, fields[0], numeric) && Fulfils(item, rest, numeric) {
      assert forall k | 0 < k < |fields| :: fields[k] == rest[k - 1];
    }
  }

  // ---------------------------------------------------------------- picking one item of a list

  /** `at` lists, in order, where the flags are set. */
  ghost predicate Picked(flags: seq<bool>, at: seq<nat>) {
    && (forall a, b | 0 <= a < b < |at| :: at[a] < at[b])
    && (forall a | 0 <= a < |at| :: at[a] < |flags| && flags[at[a]])
    && (forall i | 0 <= i < |flags| && flags[i] :: i in at)
  }

  ghost predicate OnlyFlag(flags: seq<bool>, i: nat) {
    i < |flags| && flags[i] && forall j | 0 <= j < |flags| && j != i :: !flags[j]
  }

  lemma PickedOne(flags: seq<bool>, at: seq<nat>)
    requires Picked(flags, at)
    ensures |at| == 1 ==> OnlyFlag(flags, at[0])
    ensures forall i: nat | OnlyFlag(flags, i) :: at == [i]
  {
    assert |at| <= 1 || at[0] < at[1];
    forall i: nat | OnlyFlag(flags, i)
      ensures at == [i]
    {
      assert forall a | 0 <= a < |at| :: at[a] == i;
      assert i in at;
    }
  }

  function ShiftAll(at: seq<nat>): (r: seq<nat>)
    ensures |r| == |at| && forall a | 0 <= a < |at| :: r[a] == at[a] + 1
  {
    seq(|at|, a requires 0 <= a < |at| => at[a] + 1)
  }

  /** As `Picked`, with position zero left out of account. */
  ghost predicate PickedLater(flags: seq<bool>, at: seq<nat>) {
    && (forall a, b | 0 <= a < b < |at| :: at[a] < at[b])
    && (forall a | 0 <= a < |at| :: 0 < at[a] < |flags| && flags[at[a]])
    && (forall i | 1 <= i < |flags| && flags[i] :: i in at)
  }

  lemma PickedShifts(flags: seq<bool>, at: seq<nat>)
    requires flags != [] && Picked(flags[1..], at)
    ensures PickedLater(flags, ShiftAll(at))
  {
    var rest := ShiftAll(at);
    forall a | 0 <= a < |rest|
      ensures 0 < rest[a] < |flags| && flags[rest[a]]
    {
      assert flags[1..][at[a]] == flags[at[a] + 1];
    }
    forall i | 1 <= i < |flags| && flags[i]
      ensures i in rest
    {
      assert flags[1..][i - 1] && i - 1 in at;
      var a :| 0 <= a < |at| && at[a] == i - 1;
      assert rest[a] == i;
    }
  }

  lemma PickedInFront(flags: seq<bool>, rest: seq<nat>)
    requires flags != [] && PickedLater(flags, rest)
    ensures Picked(flags, (if flags[0] then [0] else []) + rest)
  {
    var more := (if flags[0] then [0] else []) + rest;
    var n := |more| - |rest|;
    assert forall a | n <= a < |more| :: more[a] == rest[a - n];
    forall i | 0 <= i < |flags| && flags[i]
      ensures i in more
    {
      if i > 0 {
        assert i in rest;
      }
    }
  }

  lemma PickedMore(flags: seq<bool>, at: seq<nat>)
    requires flags != [] && Picked(flags[1..], at)
    ensures Picked(flags, (if flags[0] then [0] else []) + ShiftAll(at))
  {
    hide Picked, PickedLater, ShiftAll;
    PickedShifts(flags, at);
    PickedInFront(flags, ShiftAll(at));
  }

  ghost function ToolFlags(items: seq<Node>, toolId: Text): (flags: seq<bool>)
    ensures |flags| == |items| && forall i | 0 <= i < |items| :: flags[i] == HasId(items[i], toolId)
  {
    seq(|items|, i requires 0 <= i < |items| => HasId(items[i], toolId))
  }

  lemma ToolDecides(item: Node, toolId: Text)
    ensures IsTool(item, toolId) <==> HasId(item, toolId)
  {
    if item.ObjectNode? {
      var i := LookupFinds(item.properties, ID);
      if i < |item.properties| {
        assert NamedAt(item, ID, i);
      }
      forall j: nat | NamedAt(item, ID, j)
        ensures j == i && i < |item.properties|
      {
        NamedIsFirst(item, ID, i, j);
      }
    }
  }

  lemma {:induction false} ToolsPicked(items: seq<Node>, toolId: Text) returns (at: seq<nat>)
    ensures Picked(ToolFlags(items, toolId), at) && |ToolsNamed(items, toolId)| == |at|
    ensures forall a | 0 <= a < |at| :: at[a] < |items| && ToolsNamed(items, toolId)[a] == items[at[a]]
  {
    hide HasId, IsTool, Picked;
    if items == [] {
      at := [];
      NothingPicked(ToolFlags(items, toolId));
    } else {
      var rest := ToolsPicked(items[1..], toolId);
      ToolDecides(items[0], toolId);
      assert ToolFlags(items, toolId)[1..] == ToolFlags(items[1..], toolId);
      PickedMore(ToolFlags(items, toolId), rest);
      at := (if HasId(items[0], toolId) then [0] else []) + ShiftAll(rest);
    }
  }

  lemma NothingPicked(flags: seq<bool>)
    requires flags == []
    ensures Picked(flags, [])
  {
  }

  ghost function MatchFlags(items: seq<Node>, fields: seq<(Text, Scalar)>, numeric: Text -> int): (flags: seq<bool>)
    ensures |flags| == |items| && forall i | 0 <= i < |items| :: flags[i] == Fulfils(items[i], fields, numeric)
  {
    seq(|items|, i requires 0 <= i < |items| => Fulfils(items[i], fields, numeric))
  }

  ghost predicate Comparable(items: seq<Node>, fields: seq<(Text, Scalar)>, numeric: Text -> int) {
    forall j | 0 <= j < |items| :: !Incomparable(items[j], fields, numeric)
  }

  lemma NotObject(item: Node, fields: seq<(Text, Scalar)>, numeric: Text -> int)
    requires !item.ObjectNode?
    ensures !Fulfils(item, fields, numeric) && !Incomparable(item, fields, numeric)
  {
  }

  lemma ComparableSplit(items: seq<Node>, fields: seq<(Text, Scalar)>, numeric: Text -> int)
    requires items != []
    ensures Comparable(items, fields, numeric) <==>
              !Incomparable(items[0], fields, numeric) && Comparable(items[1..], fields, numeric)
  {
    hide Incomparable;
    assert forall j | 1 <= j < |items| :: items[j] == items[1..][j - 1];
  }

  /** The listed positions hold the listed values, also with one more in front. */
  lemma InFront(items: seq<Node>, values: seq<Node>, at: seq<nat>, keep: bool)
    requires items != [] && |values| == |at|
    requires forall a | 0 <= a < |at| :: at[a] < |items[1..]| && values[a] == items[1..][at[a]]
    ensures var more, all := (if keep then [0] else []) + ShiftAll(at), (if keep then [items[0]] else []) + values;
            |all| == |more| && forall a | 0 <= a < |more| :: more[a] < |items| && all[a] == items[more[a]]
  {
  }

  lemma MatchingStep(items: seq<Node>, fields: seq<(Text, Scalar)>, numeric: Text -> int)
    requires items != []
    ensures var r, rest := MatchingItems(items, fields, numeric), MatchingItems(items[1..], fields, numeric);
            && (r.Done? <==> !Incomparable(items[0], fields, numeric) && rest.Done?)
            && (r.Done? ==> r.value == (if Fulfils(items[0], fields, numeric) then [items[0]] else []) + rest.value)
  {
    hide Fulfils, Incomparable, MatchesFields;
    if items[0].ObjectNode? {
      FieldsDecide(items[0], fields, numeric);
    } else {
      NotObject(items[0], fields, numeric);
    }
  }

  lemma {:induction false} MatchesPicked(items: seq<Node>, fields: seq<(Text, Scalar)>, numeric: Text -> int) returns (at: seq<nat>)
    ensures var r := MatchingItems(items, fields, numeric);
            && (r.Done? <==> Comparable(items, fields, numeric))
            && (r.Done? ==>
                  && Picked(MatchFlags(items, fields, numeric), at) && |r.value| == |at|
                  && forall a | 0 <= a < |at| :: at[a] < |items| && r.value[a] == items[at[a]])
    decreases |items|
  {
    hide Fulfils, Incomparable, Picked;
    if items == [] {
      at := [];
      NothingPicked(MatchFlags(items, fields, numeric));
    } else {
      var rest := MatchesPicked(items[1..], fields, numeric);
      MatchingStep(items, fields, numeric);
      ComparableSplit(items, fields, numeric);
      hide Comparable, MatchingItems, ShiftAll;
      at := (if Fulfils(items[0], fields, numeric) then [0] else []) + ShiftAll(rest);
      if MatchingItems(items, fields, numeric).Done? {
        InFront(items, MatchingItems(items[1..], fields, numeric).value, rest, Fulfils(items[0], fields, numeric));
        assert MatchFlags(items, fields, numeric)[1..] == MatchFlags(items[1..], fields, numeric);
        PickedMore(MatchFlags(items, fields, numeric), rest);
      }
    }
  }

  // ---------------------------------------------------------------- resolving means naming

  lemma PropertyDecides(node: Node, name: Text)
    ensures ObjectProperty(node, name).Done? ==>
              exists i: nat :: NamedAt(node, name, i) && ObjectProperty(node, name).value == node.properties[i].value
    ensures forall i: nat | NamedAt(node, name, i) :: ObjectProperty(node, name) == Done(node.properties[i].value)
  {
    if node.ObjectNode? {
      var i := LookupFinds(node.properties, name);
      if i < |node.properties| {
        assert NamedAt(node, name, i);
      }
      forall j: nat | NamedAt(node, name, j)
        ensures j == i && i < |node.properties|
      {
        NamedIsFirst(node, name, i, j);
      }
    }
  }

  lemma SelectionDecides(items: seq<Node>, fields: seq<(Text, Scalar)>, numeric: Text -> int)
    ensures var r := MatchingItems(items, fields, numeric);
            && (r.Done? && |r.value| == 1 ==> exists i: nat :: SelectedAt(items, fields, i, numeric) && r.value[0] == items[i])
            && (forall i: nat | SelectedAt(items, fields, i, numeric) :: r == Done([items[i]]))
  {
    hide Fulfils, Incomparable, MatchingItems, Picked;
    var at := MatchesPicked(items, fields, numeric);
    var r, flags := MatchingItems(items, fields, numeric), MatchFlags(items, fields, numeric);
    if r.Done? {
      PickedOne(flags, at);
      if |at| == 1 {
        assert SelectedAt(items, fields, at[0], numeric);
      }
    }
    forall i: nat | SelectedAt(items, fields, i, numeric)
      ensures r == Done([items[i]])
    {
      assert Comparable(items, fields, numeric);
      PickedOne(flags, at);
      assert OnlyFlag(flags, i);
      assert at == [i];
      assert r.value[0] == items[at[0]];
      assert r.value == [items[i]];
    }
  }

  lemma {:induction false} ResolveDecides(node: Node, path: seq<Segment>, target: Node, numeric: Text -> int)
    ensures ResolvePath(node, path, numeric) == Done(target) <==> PathLeads(node, path, target, numeric)
    decreases |path|
  {
    hide SelectedAt, NamedAt, MatchingItems, ObjectProperty;
    if path != [] && path[0].PropertySegment? {
      var name := path[0].name;
      PropertyDecides(node, name);
      NamedIsObject(node, name);
      if ObjectProperty(node, name).Done? {
        ResolveDecides(ObjectProperty(node, name).value, path[1..], target, numeric);
      }
    } else if path != [] && path[0].MatchSegment? && node.ArrayNode? {
      var r := MatchingItems(node.items, path[0].fields, numeric);
      SelectionDecides(node.items, path[0].fields, numeric);
      SelectedInRange(node.items, path[0].fields, numeric);
      if r.Done? && |r.value| == 1 {
        ResolveDecides(r.value[0], path[1..], target, numeric);
      }
    }
  }

  lemma NamedIsObject(node: Node, name: Text)
    ensures forall i: nat | NamedAt(node, name, i) :: node.ObjectNode? && i < |node.properties|
  {
  }

  lemma SelectedInRange(items: seq<Node>, fields: seq<(Text, Scalar)>, numeric: Text -> int)
    ensures forall i: nat | SelectedAt(items, fields, i, numeric) :: i < |items|
  {
  }

  lemma ToolSelectionDecides(items: seq<Node>, toolId: Text)
    ensures var named := ToolsNamed(items, toolId);
            && (|named| == 1 ==> exists i: nat :: OnlyTool(items, toolId, i) && named[0] == items[i])
            && (forall i: nat | OnlyTool(items, toolId, i) :: named == [items[i]])
  {
    hide HasId, ToolsNamed, Picked;
    var at := ToolsPicked(items, toolId);
    var named, flags := ToolsNamed(items, toolId), ToolFlags(items, toolId);
    PickedOne(flags, at);
    if |at| == 1 {
      assert OnlyTool(items, toolId, at[0]);
    }
    forall i: nat | OnlyTool(items, toolId, i)
      ensures named == [items[i]]
    {
      assert OnlyFlag(flags, i);
      assert at == [i];
    }
  }

  /** A mutation is located at a node exactly when it names that node. */
  lemma LocatedExactlyWhenNamed(root: Node, m: Mutation, target: Node, numeric: Text -> int)
    ensures LocateMutation(root, m, numeric) == Done(target) <==> Names(root, m, target, numeric)
  {
    hide PathLeads, NamedAt, OnlyTool, ToolsNamed, ResolvePath, ObjectProperty;
    if m.Mutation? {
      PropertyDecides(root, TOOLS);
      NamedIsObject(root, TOOLS);
      var tools := ObjectProperty(root, TOOLS);
      if tools.Done? && tools.value.ArrayNode? {
        var items := tools.value.items;
        ToolSelectionDecides(items, m.toolId);
        OnlyToolInRange(items, m.toolId);
        if |ToolsNamed(items, m.toolId)| == 1 {
          ResolveDecides(ToolsNamed(items, m.toolId)[0], m.path, target, numeric);
        }
      }
    }
  }

  lemma OnlyToolInRange(items: seq<Node>, toolId: Text)
    ensures forall i: nat | OnlyTool(items, toolId, i) :: i < |items|
  {
  }

  // ---------------------------------------------------------------- the whole mutation

  /** Every mutation of the list names a node. */
  ghost predicate AllNamed(root: Node, ms: seq<Mutation>, targets: seq<Node>, numeric: Text -> int) {
    |targets| == |ms| && forall i | 0 <= i < |ms| :: Names(root, ms[i], targets[i], numeric)
  }

  ghost predicate StartApart(targets: seq<Node>) {
    forall i, j | 0 <= i < j < |targets| :: targets[i].start != targets[j].start
  }

  /** The edits put each mutation's value over its target, and do nothing else. */
  ghost predicate EditsFor(edits: Edits, ms: seq<Mutation>, targets: seq<Node>) {
    && |targets| == |ms|
    && (forall i | 0 <= i < |ms| ::
          && ms[i].Mutation? && targets[i].start in edits && targets[i].start <= targets[i].end
          && edits[targets[i].start] == Edit(targets[i].end - targets[i].start, ms[i].value))
    && (forall k | k in edits :: exists i :: 0 <= i < |ms| && targets[i].start == k)
  }

  function TargetsOf(entries: seq<Entry>): (targets: seq<Node>)
    ensures |targets| == |entries| && forall i | 0 <= i < |entries| :: targets[i] == entries[i].target
  {
    seq(|entries|, i requires 0 <= i < |entries| => entries[i].target)
  }

  lemma LocateAllNames(root: Node, ms: seq<Mutation>, numeric: Text -> int)
    ensures var r := LocateAll(root, ms, numeric);
            && (r.Done? ==> AllNamed(root, ms, TargetsOf(r.value), numeric))
            && (forall targets | AllNamed(root, ms, targets, numeric) :: r.Done? && TargetsOf(r.value) == targets)
  {
    hide Names, LocateMutation, LocateAll;
    var r := LocateAll(root, ms, numeric);
    if r.Done? {
      forall i | 0 <= i < |ms|
        ensures Names(root, ms[i], TargetsOf(r.value)[i], numeric)
      {
        LocatedExactlyWhenNamed(root, ms[i], r.value[i].target, numeric);
      }
    }
    forall targets | AllNamed(root, ms, targets, numeric)
      ensures r.Done? && TargetsOf(r.value) == targets
    {
      forall i | 0 <= i < |ms|
        ensures LocateMutation(root, ms[i], numeric) == Done(targets[i])
      {
        LocatedExactlyWhenNamed(root, ms[i], targets[i], numeric);
      }
    }
  }

  lemma EntriesGiveEdits(source: Text, root: Node, ms: seq<Mutation>, numeric: Text -> int)
    requires ParseJson(source) == Ok(root) && LocateAll(root, ms, numeric).Done?
    requires DistinctTargets(LocateAll(root, ms, numeric).value)
    ensures var entries := LocateAll(root, ms, numeric).value; Usable(entries) && EditsFor(EditsOf(entries), ms, TargetsOf(entries))
  {
    hide LocateAll, LocateMutation, ParseJson, EditsOf;
    var entries := LocateAll(root, ms, numeric).value;
    UsableLocated(root, ms, numeric);
    forall i | 0 <= i < |ms|
      ensures ms[i].Mutation? && entries[i].target.start in EditsOf(entries) && entries[i].target.start <= entries[i].target.end
      ensures EditsOf(entries)[entries[i].target.start] == Edit(entries[i].target.end - entries[i].target.start, ms[i].value)
    {
      EntryHasEdit(entries, i);
      LocateInside(root, ms[i], numeric);
      SliceReparses(source, entries[i].target);
    }
    forall k | k in EditsOf(entries)
      ensures exists i :: 0 <= i < |ms| && TargetsOf(entries)[i].start == k
    {
      var i := EditFromEntry(entries, k);
      assert TargetsOf(entries)[i].start == k;
    }
  }

  /** What the mutation asks for: an accepted specification over an accepted source, a named target for every mutation, no
      two at one place, and in the edited tree every mutation still names a node, which now holds the new value. */
  ghost predicate Asked(source: Text, spec: Specification, targets: seq<Node>, edits: Edits, after: seq<Node>, numeric: Text -> int) {
    && spec.schemaVersion == 1 && spec.mutations.Some? && ParseJson(source).Ok?
    && AllNamed(ParseJson(source).value, spec.mutations.value, targets, numeric) && StartApart(targets)
    && EditsFor(edits, spec.mutations.value, targets)
    && NowHold(Retarget(ParseJson(source).value, source, edits), spec.mutations.value, after, numeric)
  }

  /** Every mutation, with its new value for the expected one, names a node of the edited tree. */
  ghost predicate NowHold(root: Node, ms: seq<Mutation>, after: seq<Node>, numeric: Text -> int) {
    && |after| == |ms|
    && forall i | 0 <= i < |ms| ::
         ms[i].Mutation? && Names(root, Mutation(ms[i].toolId, ms[i].path, ms[i].value, ms[i].value), after[i], numeric)
  }

  lemma VerifyingMeansHolding(root: Node, ms: seq<Mutation>, after: seq<Node>, numeric: Text -> int)
    ensures AllNamed(root, VerifyingAll(ms), after, numeric) <==> NowHold(root, ms, after, numeric)
  {
    hide PathLeads, NamedAt, OnlyTool;
    forall i | 0 <= i < |ms| && |after| == |ms|
      ensures Names(root, VerifyingAll(ms)[i], after[i], numeric) <==>
                ms[i].Mutation? && Names(root, Mutation(ms[i].toolId, ms[i].path, ms[i].value, ms[i].value), after[i], numeric)
    {
    }
    hide Names;
  }

  /** The mutation succeeds exactly when it is asked for in this sense, and then replaces exactly the named targets. */
  lemma SucceedsExactlyWhenAsked(source: Text, spec: Specification, numeric: Text -> int)
    ensures Mutated(source, spec, numeric).Done? <==>
              exists targets, edits, after :: Asked(source, spec, targets, edits, after, numeric)
    ensures forall targets, edits, after | Asked(source, spec, targets, edits, after, numeric) ::
              Mutated(source, spec, numeric) == Done(Substitute(source, 0, edits))
  {
    hide LocateAll, ParseJson, Retarget, Substitute, Names, EditsOf;
    if Mutated(source, spec, numeric).Done? {
      MutatedIsAsked(source, spec, numeric);
    }
    forall targets, edits, after | Asked(source, spec, targets, edits, after, numeric)
      ensures Mutated(source, spec, numeric) == Done(Substitute(source, 0, edits))
    {
      AskedIsMutated(source, spec, targets, edits, after, numeric);
    }
  }

  lemma MutatedIsAsked(source: Text, spec: Specification, numeric: Text -> int)
    requires Mutated(source, spec, numeric).Done?
    ensures exists targets, edits, after :: Asked(source, spec, targets, edits, after, numeric)
  {
    hide LocateAll, ParseJson, Retarget, Substitute, AllNamed, NowHold, EditsFor, EditsOf, Usable;
    var root, ms := ParseJson(source).value, spec.mutations.value;
    var entries := LocateAll(root, ms, numeric).value;
    LocateAllNames(root, ms, numeric);
    EntriesGiveEdits(source, root, ms, numeric);
    var edits := EditsOf(entries);
    LocateAllNames(Retarget(root, source, edits), VerifyingAll(ms), numeric);
    var after := TargetsOf(LocateAll(Retarget(root, source, edits), VerifyingAll(ms), numeric).value);
    VerifyingMeansHolding(Retarget(root, source, edits), ms, after, numeric);
    assert Asked(source, spec, TargetsOf(entries), edits, after, numeric);
  }

  lemma SameEdits(a: Edits, b: Edits, ms: seq<Mutation>, targets: seq<Node>)
    requires EditsFor(a, ms, targets) && EditsFor(b, ms, targets)
    ensures a == b
  {
    forall k | k in a
      ensures k in b && a[k] == b[k]
    {
      var i :| 0 <= i < |ms| && targets[i].start == k;
    }
    forall k | k in b
      ensures k in a
    {
      var i :| 0 <= i < |ms| && targets[i].start == k;
    }
  }

  lemma AskedIsMutated(source: Text, spec: Specification, targets: seq<Node>, edits: Edits, after: seq<Node>, numeric: Text -> int)
    requires Asked(source, spec, targets, edits, after, numeric)
    ensures Mutated(source, spec, numeric) == Done(Substitute(source, 0, edits))
  {
    hide LocateAll, ParseJson, Retarget, Substitute, AllNamed, NowHold, EditsFor, EditsOf, Usable;
    var root, ms := ParseJson(source).value, spec.mutations.value;
    LocateAllNames(root, ms, numeric);
    var entries := LocateAll(root, ms, numeric).value;
    EntriesGiveEdits(source, root, ms, numeric);
    SameEdits(EditsOf(entries), edits, ms, targets);
    VerifyingMeansHolding(Retarget(root, source, edits), ms, after, numeric);
    LocateAllNames(Retarget(root, source, edits), VerifyingAll(ms), numeric);
  }
}
