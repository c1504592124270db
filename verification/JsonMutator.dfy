/** Locating the targets of a mutation specification in the node tree, and `mutateProjectToolsSource`. */
module JsonMutator {
  import opened Options
  import opened JsonGrammar
  import opened JsonScanner
  import opened JsonParser
  import opened JsonEdits
  import opened Sequences

  // ---------------------------------------------------------------- specifications and outcomes

  /** A value that an array selector compares with; a number is compared after conversion. */
  datatype Scalar = TextScalar(text: Text) | NumberScalar(number: int) | BooleanScalar(flag: bool) | NullScalar

  datatype Segment = PropertySegment(name: Text) | MatchSegment(fields: seq<(Text, Scalar)>) | UnsupportedSegment

  datatype Mutation =
    | Mutation(toolId: Text, path: seq<Segment>, expected: Text, value: Text)
    | MalformedMutation

  datatype Specification = Specification(schemaVersion: int, mutations: Option<seq<Mutation>>)

  datatype MutationError =
    | BadSpecification
    | BadJson(error: Malformed)
    | BadMutation
    | NeedsObject
    | MissingProperty
    | UnsupportedPath
    | NeedsArray
    | NonScalarField
    | MatchCount(count: nat)
    | ToolCount(count: nat)
    | TargetNotString
    | UnexpectedValue
    | DuplicateTarget

  datatype Outcome<+T> = Done(value: T) | Rejected(error: MutationError)

  // ---------------------------------------------------------------- path resolution

  function Lookup(properties: seq<Property>, name: Text): Option<Node> {
    if properties == [] then None
    else if properties[0].key.StringNode? && properties[0].key.value == name then Some(properties[0].value)
    else Lookup(properties[1..], name)
  }

  function ObjectProperty(node: Node, name: Text): Outcome<Node> {
    if !node.ObjectNode? then Rejected(NeedsObject)
    else
      match Lookup(node.properties, name)
      case Some(value) => Done(value)
      case None => Rejected(MissingProperty)
  }

  function ScalarOf(node: Node, numeric: Text -> int): Outcome<Scalar> {
    match node
    case StringNode(value, _, _) => Done(TextScalar(value))
    case NumberNode(text, _, _) => Done(NumberScalar(numeric(text)))
    case BooleanNode(flag, _, _) => Done(BooleanScalar(flag))
    case NullNode(_, _) => Done(NullScalar)
    case _ => Rejected(NonScalarField)
  }

  /** Whether every selector field is a property with the expected scalar value; stops at the first that is not. */
  function MatchesFields(properties: seq<Property>, fields: seq<(Text, Scalar)>, numeric: Text -> int): Outcome<bool> {
    if fields == [] then Done(true)
    else
      match Lookup(properties, fields[0].0)
      case None => Done(false)
      case Some(value) =>
        match ScalarOf(value, numeric)
        case Rejected(error) => Rejected(error)
        case Done(scalar) =>
          if scalar == fields[0].1 then MatchesFields(properties, fields[1..], numeric) else Done(false)
  }

  function MatchingItems(items: seq<Node>, fields: seq<(Text, Scalar)>, numeric: Text -> int): Outcome<seq<Node>> {
    if items == [] then Done([])
    else
      match if items[0].ObjectNode? then MatchesFields(items[0].properties, fields, numeric) else Done(false)
      case Rejected(error) => Rejected(error)
      case Done(matches) =>
        match MatchingItems(items[1..], fields, numeric)
        case Rejected(error) => Rejected(error)
        case Done(rest) => Done(if matches then [items[0]] + rest else rest)
  }

  function ResolvePath(node: Node, path: seq<Segment>, numeric: Text -> int): Outcome<Node>
    decreases |path|
  {
    if path == [] then Done(node)
    else
      match path[0]
      case PropertySegment(name) =>
        (match ObjectProperty(node, name)
         case Rejected(error) => Rejected(error)
         case Done(next) => ResolvePath(next, path[1..], numeric))
      case UnsupportedSegment => Rejected(UnsupportedPath)
      case MatchSegment(fields) =>
        if !node.ArrayNode? then Rejected(NeedsArray)
        else
          match MatchingItems(node.items, fields, numeric)
          case Rejected(error) => Rejected(error)
          case Done(matches) =>
            if |matches| != 1 then Rejected(MatchCount(|matches|)) else ResolvePath(matches[0], path[1..], numeric)
  }

  const ID: Text := [0x69, 0x64]
  const TOOLS: Text := [0x74, 0x6F, 0x6F, 0x6C, 0x73]

  predicate IsTool(item: Node, toolId: Text) {
    item.ObjectNode? && var id := Lookup(item.properties, ID); id.Some? && id.value.StringNode? && id.value.value == toolId
  }

  function ToolsNamed(items: seq<Node>, toolId: Text): seq<Node> {
    if items == [] then []
    else (if IsTool(items[0], toolId) then [items[0]] else []) + ToolsNamed(items[1..], toolId)
  }

  function LocateMutation(root: Node, m: Mutation, numeric: Text -> int): Outcome<Node> {
    if m.MalformedMutation? then Rejected(BadMutation)
    else
      match ObjectProperty(root, TOOLS)
      case Rejected(error) => Rejected(error)
      case Done(tools) =>
        if !tools.ArrayNode? then Rejected(NeedsArray)
        else
          var named := ToolsNamed(tools.items, m.toolId);
          if |named| != 1 then Rejected(ToolCount(|named|))
          else
            match ResolvePath(named[0], m.path, numeric)
            case Rejected(error) => Rejected(error)
            case Done(target) =>
              if !target.StringNode? then Rejected(TargetNotString)
              else if target.value != m.expected then Rejected(UnexpectedValue)
              else Done(target)
  }

  // ---------------------------------------------------------------- nodes inside nodes

  /** `m` is `n` or a value somewhere inside it; object keys are not values. */
  ghost predicate Inside(n: Node, m: Node) {
    || m == n
    || (n.ArrayNode? && exists i | 0 <= i < |n.items| :: Inside(n.items[i], m))
    || (n.ObjectNode? && exists i | 0 <= i < |n.properties| :: Inside(n.properties[i].value, m))
  }

  lemma {:induction false} InsideTransitive(a: Node, b: Node, c: Node)
    requires Inside(a, b) && Inside(b, c)
    ensures Inside(a, c)
    decreases a
  {
    if a != b {
      if a.ArrayNode? {
        var i :| 0 <= i < |a.items| && Inside(a.items[i], b);
        InsideTransitive(a.items[i], b, c);
      } else {
        var i :| 0 <= i < |a.properties| && Inside(a.properties[i].value, b);
        InsideTransitive(a.properties[i].value, b, c);
      }
    }
  }

  lemma {:induction false} LookupIndex(properties: seq<Property>, name: Text) returns (i: nat)
    requires Lookup(properties, name).Some?
    ensures i < |properties| && properties[i].value == Lookup(properties, name).value
  {
    if properties[0].key.StringNode? && properties[0].key.value == name {
      i := 0;
    } else {
      var k := LookupIndex(properties[1..], name);
      i := k + 1;
    }
  }

  lemma PropertyInside(node: Node, name: Text)
    requires ObjectProperty(node, name).Done?
    ensures Inside(node, ObjectProperty(node, name).value)
  {
    var i := LookupIndex(node.properties, name);
    assert Inside(node.properties[i].value, node.properties[i].value);
  }

  lemma {:induction false} MatchingItemsAmong(items: seq<Node>, fields: seq<(Text, Scalar)>, numeric: Text -> int)
    ensures var r := MatchingItems(items, fields, numeric); r.Done? ==> forall x | x in r.value :: x in items
  {
    if items != [] {
      MatchingItemsAmong(items[1..], fields, numeric);
      assert forall x | x in items[1..] :: x in items;
    }
  }

  lemma {:induction false} ToolsNamedAmong(items: seq<Node>, toolId: Text)
    ensures forall x | x in ToolsNamed(items, toolId) :: x in items
  {
    if items != [] {
      ToolsNamedAmong(items[1..], toolId);
      assert forall x | x in items[1..] :: x in items;
    }
  }

  lemma ItemInside(node: Node, item: Node)
    requires node.ArrayNode? && item in node.items
    ensures Inside(node, item)
  {
    var i :| 0 <= i < |node.items| && node.items[i] == item;
    assert Inside(node.items[i], item);
  }

  lemma {:induction false} ResolveInside(node: Node, path: seq<Segment>, numeric: Text -> int)
    ensures var r := ResolvePath(node, path, numeric); r.Done? ==> Inside(node, r.value)
    decreases |path|
  {
    var r := ResolvePath(node, path, numeric);
    if path != [] && r.Done? {
      var next;
      if path[0].PropertySegment? {
        next := ObjectProperty(node, path[0].name).value;
        PropertyInside(node, path[0].name);
      } else {
        var matches := MatchingItems(node.items, path[0].fields, numeric).value;
        MatchingItemsAmong(node.items, path[0].fields, numeric);
        next := matches[0];
        ItemInside(node, next);
      }
      ResolveInside(next, path[1..], numeric);
      InsideTransitive(node, next, r.value);
    }
  }

  /** A located target is a string value of the tree that holds the expected text. */
  lemma LocateInside(root: Node, m: Mutation, numeric: Text -> int)
    requires LocateMutation(root, m, numeric).Done?
    ensures var target := LocateMutation(root, m, numeric).value;
            target.StringNode? && target.value == m.expected && Inside(root, target)
  {
    var tools := ObjectProperty(root, TOOLS).value;
    PropertyInside(root, TOOLS);
    var named := ToolsNamed(tools.items, m.toolId);
    ToolsNamedAmong(tools.items, m.toolId);
    ItemInside(tools, named[0]);
    InsideTransitive(root, tools, named[0]);
    ResolveInside(named[0], m.path, numeric);
    InsideTransitive(root, named[0], LocateMutation(root, m, numeric).value);
  }

  /** Every value node of the tree stands for a syntax tree whose text is the node's slice of the source. */
  lemma {:induction false} SubvalueOf(v: Value, source: Text, at: nat, m: Node) returns (w: Value)
    requires ValidValue(v) && Occurs(ValueText(v), source, at) && Inside(TreeOf(v, at), m)
    ensures ValidValue(w) && m == TreeOf(w, m.start) && Occurs(ValueText(w), source, m.start)
    ensures w.Str? ==> (m.start, |ValueText(w)|) in Leaves(v, at)
    decreases v
  {
    hide Occurs, ItemsText, MembersText, ItemNodes, PropertyNodes;
    if m == TreeOf(v, at) {
      w := v;
    } else if v.Array? {
      var inner := at + 1 + |v.open|;
      Append([OPEN_BRACKET], v.open, ItemsText(v.items));
      OccursSplit([OPEN_BRACKET] + v.open, ItemsText(v.items), source, at);
      var i :| 0 <= i < |ItemNodes(v.items, inner)| && Inside(ItemNodes(v.items, inner)[i], m);
      w := SubvalueOfItem(v.items, source, inner, i, m);
    } else {
      assert v.Object?;
      var inner := at + 1 + |v.open|;
      Append([OPEN_BRACE], v.open, MembersText(v.members));
      OccursSplit([OPEN_BRACE] + v.open, MembersText(v.members), source, at);
      var i :| 0 <= i < |PropertyNodes(v.members, inner)| && Inside(PropertyNodes(v.members, inner)[i].value, m);
      w := SubvalueOfProperty(v.members, {}, source, inner, i, m);
    }
  }

  lemma {:induction false} SubvalueOfItem(items: Items, source: Text, at: nat, i: nat, m: Node) returns (w: Value)
    requires ValidItems(items) && Occurs(ItemsText(items), source, at)
    requires i < |ItemNodes(items, at)| && Inside(ItemNodes(items, at)[i], m)
    ensures ValidValue(w) && m == TreeOf(w, m.start) && Occurs(ValueText(w), source, m.start)
    ensures w.Str? ==> (m.start, |ValueText(w)|) in ItemLeaves(items, at)
    decreases items
  {
    hide Occurs, ValueText, Leaves, Inside, TreeOf;
    var value := ValueText(items.value);
    if items.LastItem? {
      OccursSplit(value, items.after + [CLOSE_BRACKET], source, at);
    } else {
      var rest := [COMMA] + (items.gap + ItemsText(items.rest));
      OccursSplit(value, items.after + rest, source, at);
      OccursSplit(items.after, rest, source, at + |value|);
      OccursSplit([COMMA], items.gap + ItemsText(items.rest), source, at + |value| + |items.after|);
      OccursSplit(items.gap, ItemsText(items.rest), source, at + |value| + |items.after| + 1);
    }
    if i == 0 {
      w := SubvalueOf(items.value, source, at, m);
    } else {
      w := SubvalueOfItem(items.rest, source, NextItemAt(items, at), i - 1, m);
    }
  }

  lemma OccursMemberValue(m: Member, source: Text, at: nat)
    requires Occurs(MemberText(m), source, at)
    ensures Occurs(ValueText(m.value), source, ValueAt(m, at))
  {
    hide Occurs, ValueText;
    var value := ValueText(m.value) + m.after;
    OccursSplit(Quoted(m.key), m.beforeColon + ([COLON] + (m.afterColon + value)), source, at);
    OccursSplit(m.beforeColon, [COLON] + (m.afterColon + value), source, at + |Quoted(m.key)|);
    OccursSplit([COLON], m.afterColon + value, source, at + |Quoted(m.key)| + |m.beforeColon|);
    OccursSplit(m.afterColon, value, source, at + |Quoted(m.key)| + |m.beforeColon| + 1);
    OccursSplit(ValueText(m.value), m.after, source, ValueAt(m, at));
  }

  lemma {:induction false} SubvalueOfProperty(members: Members, seen: set<Text>, source: Text, at: nat, i: nat, m: Node)
    returns (w: Value)
    requires ValidMembers(members, seen) && Occurs(MembersText(members), source, at)
    requires i < |PropertyNodes(members, at)| && Inside(PropertyNodes(members, at)[i].value, m)
    ensures ValidValue(w) && m == TreeOf(w, m.start) && Occurs(ValueText(w), source, m.start)
    ensures w.Str? ==> (m.start, |ValueText(w)|) in MemberLeaves(members, at)
    decreases members
  {
    hide Occurs, MemberText, Leaves, Inside, TreeOf;
    var member := MemberText(members.member);
    if members.LastMember? {
      OccursSplit(member, [CLOSE_BRACE], source, at);
    } else {
      var rest := members.gap + MembersText(members.rest);
      OccursSplit(member, [COMMA] + rest, source, at);
      OccursSplit([COMMA], rest, source, at + |member|);
      OccursSplit(members.gap, MembersText(members.rest), source, at + |member| + 1);
    }
    if i == 0 {
      OccursMemberValue(members.member, source, at);
      w := SubvalueOf(members.member.value, source, ValueAt(members.member, at), m);
    } else {
      var next := seen + {Decode(members.member.key).value};
      w := SubvalueOfProperty(members.rest, next, source, NextMemberAt(members, at), i - 1, m);
    }
  }

  // ---------------------------------------------------------------- spans of the parse tree

  /** A node's slice of the source, parsed on its own, is the same node moved to offset zero. */
  lemma SliceReparses(source: Text, m: Node)
    requires ParseJson(source).Ok? && Inside(ParseJson(source).value, m)
    ensures m.start < m.end <= |source|
    ensures var r := ParseJson(source[m.start..m.end]); r.Ok? && m == Shift(r.value, m.start)
  {
    hide ParseDocument, ValueText, Shift, Inside, Leaves, TreeOf;
    DocumentSound(source);
    var d := ParseDocument(source).value;
    DocumentOccurs(d);
    var w := SubvalueOf(d.value, source, |d.lead|, m);
    ValueStart(w);
    ShiftTree(w, 0, m.start);
    ParseAlone(w);
    TreeSpan(w, m.start);
  }

  lemma TreeSpan(w: Value, at: nat)
    ensures TreeOf(w, at).start == at && TreeOf(w, at).end == at + |ValueText(w)|
  {
  }

  lemma ParseAlone(w: Value)
    requires ValidValue(w)
    ensures ParseJson(ValueText(w)) == Ok(TreeOf(w, 0))
  {
    hide ValueText, ParseDocument;
    DocumentComplete(Document([], w, []));
    assert DocumentText(Document([], w, [])) == ValueText(w);
  }

  function Shift(n: Node, delta: nat): Node {
    var start, end := n.start + delta, n.end + delta;
    match n
    case StringNode(value, _, _) => StringNode(value, start, end)
    case NumberNode(text, _, _) => NumberNode(text, start, end)
    case BooleanNode(flag, _, _) => BooleanNode(flag, start, end)
    case NullNode(_, _) => NullNode(start, end)
    case ArrayNode(items, _, _) => ArrayNode(ShiftItems(items, delta), start, end)
    case ObjectNode(properties, _, _) => ObjectNode(ShiftProperties(properties, delta), start, end)
  }

  function ShiftItems(items: seq<Node>, delta: nat): seq<Node> {
    if items == [] then [] else [Shift(items[0], delta)] + ShiftItems(items[1..], delta)
  }

  function ShiftProperties(properties: seq<Property>, delta: nat): seq<Property> {
    if properties == [] then [] else [ShiftProperty(properties[0], delta)] + ShiftProperties(properties[1..], delta)
  }

  function ShiftProperty(p: Property, delta: nat): Property {
    Property(Shift(p.key, delta), Shift(p.value, delta))
  }

  lemma {:induction false} ShiftTree(v: Value, at: nat, delta: nat)
    ensures TreeOf(v, at + delta) == Shift(TreeOf(v, at), delta)
    decreases v
  {
    match v
    case Array(open, items) => ShiftItemTree(items, at + 1 + |open|, delta);
    case Object(open, members) => ShiftMemberTree(members, at + 1 + |open|, delta);
    case _ =>
  }

  lemma {:induction false} ShiftItemTree(items: Items, at: nat, delta: nat)
    ensures ItemNodes(items, at + delta) == ShiftItems(ItemNodes(items, at), delta)
    decreases items
  {
    ShiftTree(items.value, at, delta);
    if items.NextItem? {
      ShiftItemTree(items.rest, NextItemAt(items, at), delta);
    }
  }

  lemma {:induction false} ShiftPropertyTree(m: Member, at: nat, delta: nat)
    ensures PropertyNode(m, at + delta) == ShiftProperty(PropertyNode(m, at), delta)
    decreases m
  {
    hide TreeOf, Decoded, ValueText, ShiftItems, ShiftProperties;
    ShiftTree(m.value, ValueAt(m, at), delta);
  }

  lemma {:induction false} ShiftMemberTree(members: Members, at: nat, delta: nat)
    ensures PropertyNodes(members, at + delta) == ShiftProperties(PropertyNodes(members, at), delta)
    decreases members
  {
    hide PropertyNode, ShiftProperty;
    ShiftPropertyTree(members.member, at, delta);
    if members.NextMember? {
      ShiftMemberTree(members.rest, NextMemberAt(members, at), delta);
    }
  }

  /** Spans in order: each item starts behind the end of the one before it, and all lie in the range. */
  ghost predicate ItemsNested(items: seq<Node>, low: nat, high: nat) {
    if items == [] then low <= high
    else low <= items[0].start && Nested(items[0]) && ItemsNested(items[1..], items[0].end + 1, high)
  }

  ghost predicate PropertiesNested(properties: seq<Property>, low: nat, high: nat) {
    if properties == [] then low <= high
    else
      && low <= properties[0].key.start && PropertyNested(properties[0])
      && PropertiesNested(properties[1..], properties[0].value.end + 1, high)
  }

  ghost predicate PropertyNested(p: Property) {
    p.key.start < p.key.end < p.value.start && Nested(p.value)
  }

  /** A node's span is not empty and strictly encloses the spans of its children, which do not overlap. */
  ghost predicate Nested(n: Node) {
    && n.start < n.end
    && match n
       case ArrayNode(items, start, end) => items == [] || ItemsNested(items, start + 1, end)
       case ObjectNode(properties, start, end) => properties == [] || PropertiesNested(properties, start + 1, end)
       case _ => true
  }

  lemma {:induction false} TreeNested(v: Value, at: nat)
    requires ValidValue(v)
    ensures Nested(TreeOf(v, at))
    decreases v
  {
    ValueStart(v);
    match v
    case Array(open, items) => ItemTreeNested(items, at + 1 + |open|, at + 1);
    case Object(open, members) => MemberTreeNested(members, {}, at + 1 + |open|, at + 1);
    case _ =>
  }

  lemma {:induction false} ItemTreeNested(items: Items, at: nat, low: nat)
    requires ValidItems(items) && low <= at
    ensures ItemsNested(ItemNodes(items, at), low, at + |ItemsText(items)|)
    decreases items
  {
    hide ValueText, Nested;
    TreeNested(items.value, at);
    if items.NextItem? {
      ItemTreeNested(items.rest, NextItemAt(items, at), at + |ValueText(items.value)| + 1);
    }
  }

  lemma {:induction false} MemberTreeNested(members: Members, seen: set<Text>, at: nat, low: nat)
    requires ValidMembers(members, seen) && low <= at
    ensures PropertiesNested(PropertyNodes(members, at), low, at + |MembersText(members)|)
    decreases members
  {
    hide ValueText, Nested, MemberText;
    var m := members.member;
    MemberLength(m, at);
    TreeNested(m.value, ValueAt(m, at));
    if members.NextMember? {
      var next := seen + {Decode(m.key).value};
      MemberTreeNested(members.rest, next, NextMemberAt(members, at), ValueAt(m, at) + |ValueText(m.value)| + 1);
    }
  }

  /** Every accepted source gives a tree with well-nested spans inside the text. */
  lemma SpansNested(source: Text)
    requires ParseJson(source).Ok?
    ensures Nested(ParseJson(source).value) && ParseJson(source).value.end <= |source|
  {
    DocumentSound(source);
    var d := ParseDocument(source).value;
    TreeNested(d.value, |d.lead|);
  }

  // ---------------------------------------------------------------- the mutation as a whole

  datatype Entry = Entry(target: Node, mutation: Mutation)

  function LocateAll(root: Node, mutations: seq<Mutation>, numeric: Text -> int): (r: Outcome<seq<Entry>>)
    ensures r.Done? ==> |r.value| == |mutations| && forall i | 0 <= i < |mutations| ::
              LocateMutation(root, mutations[i], numeric) == Done(r.value[i].target) && r.value[i].mutation == mutations[i]
    ensures r.Done? <==> forall i | 0 <= i < |mutations| :: LocateMutation(root, mutations[i], numeric).Done?
  {
    if mutations == [] then Done([])
    else
      var last := |mutations| - 1;
      match LocateAll(root, mutations[..last], numeric)
      case Rejected(error) => Rejected(error)
      case Done(entries) =>
        match LocateMutation(root, mutations[last], numeric)
        case Rejected(error) => Rejected(error)
        case Done(target) => Done(entries + [Entry(target, mutations[last])])
  }

  function EditOf(e: Entry): Edit
    requires e.mutation.Mutation?
  {
    Edit(if e.target.start <= e.target.end then e.target.end - e.target.start else 0, e.mutation.value)
  }

  ghost predicate Usable(entries: seq<Entry>) {
    forall i | 0 <= i < |entries| :: entries[i].mutation.Mutation?
  }

  /** The edits that a list of located mutations asks for. */
  function EditsOf(entries: seq<Entry>): Edits
    requires Usable(entries)
  {
    if entries == [] then map[]
    else
      var last := |entries| - 1;
      EditsOf(entries[..last])[entries[last].target.start := EditOf(entries[last])]
  }

  ghost predicate DistinctTargets(entries: seq<Entry>) {
    forall i, j | 0 <= i < j < |entries| :: entries[i].target.start != entries[j].target.start
  }

  lemma {:induction false} EditFromEntry(entries: seq<Entry>, k: nat) returns (i: nat)
    requires Usable(entries) && k in EditsOf(entries)
    ensures i < |entries| && entries[i].target.start == k && EditsOf(entries)[k] == EditOf(entries[i])
  {
    var last := |entries| - 1;
    if entries[last].target.start == k {
      i := last;
    } else {
      i := EditFromEntry(entries[..last], k);
    }
  }

  lemma {:induction false} EntryHasEdit(entries: seq<Entry>, i: nat)
    requires Usable(entries) && DistinctTargets(entries) && i < |entries|
    ensures entries[i].target.start in EditsOf(entries)
    ensures EditsOf(entries)[entries[i].target.start] == EditOf(entries[i])
  {
    var last := |entries| - 1;
    if i < last {
      EntryHasEdit(entries[..last], i);
    }
  }

  /** The edits depend only on which entries there are, not on their order. */
  lemma EditsIgnoreOrder(a: seq<Entry>, b: seq<Entry>)
    requires Usable(a) && Usable(b) && DistinctTargets(a) && DistinctTargets(b)
    requires forall x :: x in a <==> x in b
    ensures EditsOf(a) == EditsOf(b)
  {
    forall k | k in EditsOf(a)
      ensures k in EditsOf(b) && EditsOf(b)[k] == EditsOf(a)[k]
    {
      var i := EditFromEntry(a, k);
      assert a[i] in b;
      var j :| 0 <= j < |b| && b[j] == a[i];
      EntryHasEdit(b, j);
    }
    forall k | k in EditsOf(b)
      ensures k in EditsOf(a)
    {
      var i := EditFromEntry(b, k);
      assert b[i] in a;
      var j :| 0 <= j < |a| && a[j] == b[i];
      EntryHasEdit(a, j);
    }
  }

  lemma ReorderedTargets(a: seq<Entry>, b: seq<Entry>)
    requires multiset(a) == multiset(b) && DistinctTargets(a)
    ensures DistinctTargets(b) && forall x :: x in a <==> x in b
  {
    assert forall x :: (x in a <==> x in multiset(a)) && (x in b <==> x in multiset(b));
    PermutationDistinct(a, b);
    forall i, j | 0 <= i < j < |b|
      ensures b[i].target.start != b[j].target.start
    {
      assert b[i] in a && b[j] in a;
    }
  }

  /** The mutation with its new value expected, as the verification pass looks it up. */
  function Verifying(m: Mutation): Mutation {
    if m.Mutation? then m.(expected := m.value) else m
  }

  function VerifyingAll(ms: seq<Mutation>): seq<Mutation> {
    seq(|ms|, i requires 0 <= i < |ms| => Verifying(ms[i]))
  }

  /** `mutateProjectToolsSource` without splicing and without a second parse: all targets are replaced at
      once, and the new values are looked up in the edited tree. */
  ghost function Mutated(source: Text, spec: Specification, numeric: Text -> int): Outcome<Text> {
    if spec.schemaVersion != 1 || spec.mutations.None? then Rejected(BadSpecification)
    else
      match ParseJson(source)
      case Err(error) => Rejected(BadJson(error))
      case Ok(root) =>
        match LocateAll(root, spec.mutations.value, numeric)
        case Rejected(error) => Rejected(error)
        case Done(entries) =>
          if !DistinctTargets(entries) then Rejected(DuplicateTarget)
          else
            var edits := EditsOf(entries);
            match LocateAll(Retarget(root, source, edits), VerifyingAll(spec.mutations.value), numeric)
            case Rejected(error) => Rejected(error)
            case Done(_) => Done(Substitute(source, 0, edits))
  }

  lemma LocatedLeaf(source: Text, m: Mutation, numeric: Text -> int)
    requires ParseJson(source).Ok? && LocateMutation(ParseJson(source).value, m, numeric).Done?
    ensures var target := LocateMutation(ParseJson(source).value, m, numeric).value;
            var d := ParseDocument(source).value;
            target.start < target.end <= |source| && (target.start, target.end - target.start) in Leaves(d.value, |d.lead|)
  {
    hide ParseDocument, ValueText, LocateMutation, Inside, Leaves;
    LocateInside(ParseJson(source).value, m, numeric);
    var target := LocateMutation(ParseJson(source).value, m, numeric).value;
    DocumentSound(source);
    var d := ParseDocument(source).value;
    DocumentOccurs(d);
    var w := SubvalueOf(d.value, source, |d.lead|, target);
    LeavesSpread(d.value, |d.lead|);
    assert w.Str?;
  }

  /** Every entry located in a parsed source is a string leaf of its syntax tree. */
  ghost predicate AtLeaves(source: Text, entries: seq<Entry>) {
    && ParseDocument(source).Ok?
    && var d := ParseDocument(source).value;
       forall i | 0 <= i < |entries| ::
         var t := entries[i].target;
         t.start < t.end <= |source| && (t.start, t.end - t.start) in Leaves(d.value, |d.lead|)
  }

  lemma LocatedAtLeaves(source: Text, ms: seq<Mutation>, numeric: Text -> int)
    requires ParseJson(source).Ok? && LocateAll(ParseJson(source).value, ms, numeric).Done?
    ensures var entries := LocateAll(ParseJson(source).value, ms, numeric).value; Usable(entries) && AtLeaves(source, entries)
  {
    hide ParseDocument, LocateMutation, Leaves;
    var entries := LocateAll(ParseJson(source).value, ms, numeric).value;
    UsableLocated(ParseJson(source).value, ms, numeric);
    forall i | 0 <= i < |entries|
      ensures var t := entries[i].target;
              var d := ParseDocument(source).value;
              t.start < t.end <= |source| && (t.start, t.end - t.start) in Leaves(d.value, |d.lead|)
    {
      LocatedLeaf(source, ms[i], numeric);
    }
  }

  /** Targets with different starts do not overlap, so equal ranges are equal starts. */
  lemma TargetsApart(source: Text, entries: seq<Entry>, i: nat, j: nat)
    requires AtLeaves(source, entries) && i < |entries| && j < |entries|
    ensures var a, b := entries[i].target, entries[j].target;
            (a.start < b.start ==> a.end <= b.start) && (a.start == b.start ==> a.end == b.end)
  {
    hide ParseDocument, Leaves;
    var d := ParseDocument(source).value;
    LeavesSpread(d.value, |d.lead|);
  }

  lemma EditsHitTargets(source: Text, entries: seq<Entry>)
    requires Usable(entries) && AtLeaves(source, entries)
    ensures var d := ParseDocument(source).value; Targets(EditsOf(entries), Leaves(d.value, |d.lead|), 0, |source|)
  {
    hide ParseDocument, Leaves;
    var edits := EditsOf(entries);
    forall k | k in edits
      ensures var d := ParseDocument(source).value; (k, edits[k].length) in Leaves(d.value, |d.lead|)
    {
      var i := EditFromEntry(entries, k);
    }
  }

  /** When the mutation succeeds, its output parses, and to exactly the source's tree with the targeted
      string values replaced and all offsets moved along. */
  lemma MutationTheorem(source: Text, spec: Specification, numeric: Text -> int)
    requires Mutated(source, spec, numeric).Done?
    ensures ParseJson(source).Ok?
    ensures var entries := LocateAll(ParseJson(source).value, spec.mutations.value, numeric);
            entries.Done? && Usable(entries.value) && DistinctTargets(entries.value) &&
            var edits := EditsOf(entries.value);
            Mutated(source, spec, numeric).value == Substitute(source, 0, edits) &&
            ParseJson(Mutated(source, spec, numeric).value) == Ok(Retarget(ParseJson(source).value, source, edits))
  {
    hide ParseDocument, Retarget, Substitute;
    var entries := LocateAll(ParseJson(source).value, spec.mutations.value, numeric).value;
    LocatedAtLeaves(source, spec.mutations.value, numeric);
    EditsHitTargets(source, entries);
    SubstitutionTheorem(source, EditsOf(entries));
  }

  /** Listing the same mutations in another order changes neither success nor output. */
  lemma OrderIrrelevant(source: Text, a: seq<Mutation>, b: seq<Mutation>, numeric: Text -> int)
    requires multiset(a) == multiset(b)
    requires Mutated(source, Specification(1, Some(a)), numeric).Done?
    ensures Mutated(source, Specification(1, Some(b)), numeric) == Mutated(source, Specification(1, Some(a)), numeric)
  {
    hide ParseJson, LocateMutation, Retarget, Substitute;
    var root := ParseJson(source).value;
    assert forall m :: (m in a <==> m in multiset(a)) && (m in b <==> m in multiset(b));
    forall i | 0 <= i < |b|
      ensures LocateMutation(root, b[i], numeric).Done?
    {
      assert b[i] in a;
    }
    var ea, eb := LocateAll(root, a, numeric).value, LocateAll(root, b, numeric).value;
    SameEntries(root, a, b, numeric);
    EditsIgnoreOrder(ea, eb);
    var edited := Retarget(root, source, EditsOf(ea));
    forall i | 0 <= i < |b|
      ensures LocateMutation(edited, VerifyingAll(b)[i], numeric).Done?
    {
      assert b[i] in a;
      var j :| 0 <= j < |a| && a[j] == b[i];
      assert VerifyingAll(a)[j] == VerifyingAll(b)[i];
    }
  }

  lemma EntriesAmong(root: Node, a: seq<Mutation>, b: seq<Mutation>, numeric: Text -> int)
    requires LocateAll(root, a, numeric).Done? && LocateAll(root, b, numeric).Done?
    requires forall m :: m in a ==> m in b
    ensures var ea, eb := LocateAll(root, a, numeric).value, LocateAll(root, b, numeric).value; forall x :: x in ea ==> x in eb
  {
    hide LocateMutation;
    var ea, eb := LocateAll(root, a, numeric).value, LocateAll(root, b, numeric).value;
    forall i | 0 <= i < |a|
      ensures ea[i] in eb
    {
      assert a[i] in b;
      var j :| 0 <= j < |b| && b[j] == a[i];
      assert eb[j] == ea[i];
    }
  }

  lemma SameEntries(root: Node, a: seq<Mutation>, b: seq<Mutation>, numeric: Text -> int)
    requires multiset(a) == multiset(b)
    requires LocateAll(root, a, numeric).Done? && LocateAll(root, b, numeric).Done?
    requires DistinctTargets(LocateAll(root, a, numeric).value)
    ensures var ea, eb := LocateAll(root, a, numeric).value, LocateAll(root, b, numeric).value;
            Usable(ea) && Usable(eb) && DistinctTargets(eb) && forall x :: x in ea <==> x in eb
  {
    hide LocateMutation, LocateAll, Distinct, Usable;
    var ea, eb := LocateAll(root, a, numeric).value, LocateAll(root, b, numeric).value;
    assert forall m :: (m in a <==> m in multiset(a)) && (m in b <==> m in multiset(b));
    EntriesAmong(root, a, b, numeric);
    EntriesAmong(root, b, a, numeric);
    TargetsTellApart(root, a, numeric);
    PermutationDistinct(a, b);
    DistinctEntries(root, b, numeric);
    forall i, j | 0 <= i < j < |b|
      ensures eb[i].target.start != eb[j].target.start
    {
      assert eb[i] in ea && eb[j] in ea && eb[i] != eb[j];
    }
    UsableLocated(root, a, numeric);
    UsableLocated(root, b, numeric);
  }

  lemma TargetsTellApart(root: Node, a: seq<Mutation>, numeric: Text -> int)
    requires LocateAll(root, a, numeric).Done? && DistinctTargets(LocateAll(root, a, numeric).value)
    ensures Distinct(a)
  {
    hide LocateMutation;
    var entries := LocateAll(root, a, numeric).value;
    forall i, j | 0 <= i < j < |a|
      ensures a[i] != a[j]
    {
      assert entries[i].target.start != entries[j].target.start;
    }
  }

  lemma DistinctEntries(root: Node, b: seq<Mutation>, numeric: Text -> int)
    requires LocateAll(root, b, numeric).Done? && Distinct(b)
    ensures var entries := LocateAll(root, b, numeric).value; forall i, j | 0 <= i < j < |entries| :: entries[i] != entries[j]
  {
    hide LocateMutation;
  }

  lemma UsableLocated(root: Node, ms: seq<Mutation>, numeric: Text -> int)
    ensures LocateAll(root, ms, numeric).Done? ==> Usable(LocateAll(root, ms, numeric).value)
  {
  }

  method MutateProjectToolsSource(source: Text, spec: Specification, numeric: Text -> int) returns (r: Outcome<Text>)
    ensures r == Mutated(source, spec, numeric)
  {
    hide ParseJson, LocateMutation, Retarget, Substitute, Leaves, ParseDocument;
    if spec.schemaVersion != 1 || spec.mutations.None? {
      return Rejected(BadSpecification);
    }
    var mutations := spec.mutations.value;
    var parser := new JsonSourceParser(source);
    var root := parser.Parse();
    if root.Err? {
      return Rejected(BadJson(root.error));
    }
    var located := LocateAll(root.value, mutations, numeric);
    if located.Rejected? {
      return Rejected(located.error);
    }
    var entries := located.value;
    LocatedAtLeaves(source, mutations, numeric);

    var distinct := CheckRanges(source, entries);
    if !distinct {
      return Rejected(DuplicateTarget);
    }
    var output := SpliceAll(source, entries);
    EditsHitTargets(source, entries);
    SubstitutionTheorem(source, EditsOf(entries));

    var verifier := new JsonSourceParser(output);
    var verified := verifier.Parse();
    if verified.Err? {
      assert false; // the edited text always parses
    }
    var checks := LocateAll(verified.value, VerifyingAll(mutations), numeric);
    if checks.Rejected? {
      return Rejected(checks.error);
    }
    return Done(output);
  }

  /** The loop that refuses two mutations of one source range. */
  method CheckRanges(source: Text, entries: seq<Entry>) returns (distinct: bool)
    requires AtLeaves(source, entries)
    ensures distinct == DistinctTargets(entries)
  {
    hide AtLeaves;
    var ranges: set<(nat, nat)> := {};
    for n := 0 to |entries|
      invariant DistinctTargets(entries[..n])
      invariant forall p :: p in ranges <==> exists i | 0 <= i < n :: p == (entries[i].target.start, entries[i].target.end)
    {
      var range := (entries[n].target.start, entries[n].target.end);
      if range in ranges {
        return false;
      }
      forall i | 0 <= i < n
        ensures entries[i].target.start != entries[n].target.start
      {
        TargetsApart(source, entries, i, n);
        assert (entries[i].target.start, entries[i].target.end) in ranges;
      }
      ranges := ranges + {range};
    }
    assert entries[..|entries|] == entries;
    return true;
  }

  lemma SubstituteNothing(source: Text)
    ensures Substitute(source, 0, EditsOf([])) == source
  {
    SubstituteQuiet(source, 0, map[]);
  }

  function StartKey(e: Entry): int {
    -(e.target.start as int)
  }

  /** The splicing loop, from the last target to the first. */
  method SpliceAll(source: Text, entries: seq<Entry>) returns (output: Text)
    requires Usable(entries) && DistinctTargets(entries) && AtLeaves(source, entries)
    ensures output == Substitute(source, 0, EditsOf(entries))
  {
    hide AtLeaves, Substitute, Stringify, SortBy, SortedBy, DistinctTargets, EditsOf;
    var ordered := SortBy(entries, StartKey);
    ReorderedTargets(entries, ordered);
    OrderedAtLeaves(source, entries, ordered);
    EditsIgnoreOrder(entries, ordered);
    output := source;
    SubstituteNothing(source);
    assert ordered[..0] == [];
    for n := 0 to |ordered|
      invariant output == Substitute(source, 0, EditsOf(ordered[..n]))
    {
      var entry := ordered[n];
      SpliceEntry(source, ordered, n);
      output := output[..entry.target.start] + Stringify(entry.mutation.value) + output[entry.target.end..];
    }
    assert ordered[..|ordered|] == ordered;
  }

  lemma SpliceEntry(source: Text, ordered: seq<Entry>, n: nat)
    requires Usable(ordered) && DistinctTargets(ordered) && AtLeaves(source, ordered) && n < |ordered|
    requires SortedBy(ordered, StartKey)
    ensures var out, entry := Substitute(source, 0, EditsOf(ordered[..n])), ordered[n];
            entry.target.start <= entry.target.end <= |out| &&
            out[..entry.target.start] + Stringify(entry.mutation.value) + out[entry.target.end..]
            == Substitute(source, 0, EditsOf(ordered[..n + 1]))
  {
    hide AtLeaves, Substitute, Stringify;
    var entry, edits := ordered[n], EditsOf(ordered[..n]);
    forall k | k in edits
      ensures entry.target.end <= k
    {
      var i := EditFromEntry(ordered[..n], k);
      assert ordered[i].target.start >= entry.target.start;
      TargetsApart(source, ordered, n, i);
    }
    TargetInSource(source, ordered, n);
    SpliceStep(source, edits, entry.target.start, EditOf(entry));
    assert ordered[..n + 1][..n] == ordered[..n];
  }

  lemma OrderedAtLeaves(source: Text, a: seq<Entry>, b: seq<Entry>)
    requires Usable(a) && AtLeaves(source, a) && forall x :: x in b ==> x in a
    ensures Usable(b) && AtLeaves(source, b)
  {
    hide ParseDocument, Leaves;
    forall i | 0 <= i < |b|
      ensures b[i] in a
    {
    }
  }

  lemma TargetInSource(source: Text, entries: seq<Entry>, i: nat)
    requires AtLeaves(source, entries) && i < |entries|
    ensures entries[i].target.start < entries[i].target.end <= |source|
  {
  }
}
