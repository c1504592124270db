/** Replacing string tokens in JSON text, and what that does to the parse tree. */
module JsonEdits {
  import opened JsonGrammar
  import opened JsonScanner
  import opened JsonParser

  /** A string token of `length` source characters, to be rewritten as `JSON.stringify(value)`. */
  datatype Edit = Edit(length: nat, value: Text)

  /** Edits by the source offset of the token they replace. */
  type Edits = map<nat, Edit>

  // ---------------------------------------------------------------- simultaneous replacement

  /** The text `t`, which starts at source offset `at`, with every edited token replaced and every
      other character kept. The result does not depend on any order among the edits. */
  function Substitute(t: Text, at: nat, edits: Edits): Text {
    if t == [] then []
    else if at in edits && 0 < edits[at].length <= |t| then
      Stringify(edits[at].value) + Substitute(t[edits[at].length..], at + edits[at].length, edits)
    else [t[0]] + Substitute(t[1..], at + 1, edits)
  }

  /** No edited token starts in the source range from `low` to `high`. */
  ghost predicate Quiet(edits: Edits, low: nat, high: nat) {
    forall k | k in edits :: k < low || high <= k
  }

  /** Every edited token that starts in the source range is nonempty and ends in it. */
  ghost predicate Fits(edits: Edits, low: nat, high: nat) {
    forall k | k in edits && low <= k < high :: 0 < edits[k].length && k + edits[k].length <= high
  }

  lemma {:induction false} SubstituteQuiet(t: Text, at: nat, edits: Edits)
    requires Quiet(edits, at, at + |t|)
    ensures Substitute(t, at, edits) == t
  {
    if t != [] {
      SubstituteQuiet(t[1..], at + 1, edits);
    }
  }

  lemma DropOfAppend(a: Text, b: Text, n: nat)
    requires n <= |a|
    ensures (a + b)[n..] == a[n..] + b
  {
  }

  lemma SubstituteHead(t: Text, at: nat, edits: Edits, n: nat, head: Text)
    requires t != [] && n <= |t|
    requires if at in edits then 0 < n == edits[at].length && head == Stringify(edits[at].value) else n == 1 && head == [t[0]]
    ensures Substitute(t, at, edits) == head + Substitute(t[n..], at + n, edits)
  {
    hide Stringify;
  }

  lemma {:induction false} SubstituteAppend(a: Text, b: Text, at: nat, edits: Edits)
    requires Fits(edits, at, at + |a|)
    ensures Substitute(a + b, at, edits) == Substitute(a, at, edits) + Substitute(b, at + |a|, edits)
    decreases |a|
  {
    if a == [] {
      assert a + b == b;
    } else {
      hide Stringify, Substitute;
      var n := if at in edits then edits[at].length else 1;
      var head := if at in edits then Stringify(edits[at].value) else [a[0]];
      DropOfAppend(a, b, n);
      SubstituteHead(a, at, edits, n, head);
      SubstituteHead(a + b, at, edits, n, head);
      SubstituteAppend(a[n..], b, at + n, edits);
      Append(head, Substitute(a[n..], at + n, edits), Substitute(b, at + |a|, edits));
    }
  }

  lemma {:induction false} SubstituteSame(t: Text, at: nat, edits: Edits, other: Edits)
    requires forall k | at <= k :: (k in edits <==> k in other) && (k in edits ==> edits[k] == other[k])
    ensures Substitute(t, at, edits) == Substitute(t, at, other)
    decreases |t|
  {
    hide Stringify;
    if t == [] {
    } else if at in edits && 0 < edits[at].length <= |t| {
      SubstituteSame(t[edits[at].length..], at + edits[at].length, edits, other);
    } else {
      SubstituteSame(t[1..], at + 1, edits, other);
    }
  }

  lemma SubstituteAfter(s: Text, q: nat, edits: Edits)
    requires q <= |s| && Quiet(edits, 0, q)
    ensures Substitute(s, 0, edits) == s[..q] + Substitute(s[q..], q, edits)
  {
    assert s == s[..q] + s[q..];
    SubstituteQuiet(s[..q], 0, edits);
    SubstituteAppend(s[..q], s[q..], 0, edits);
  }

  lemma SubstituteFirst(s: Text, p: nat, edits: Edits)
    requires p in edits && 0 < edits[p].length && p + edits[p].length <= |s| && Quiet(edits, 0, p)
    ensures var q := p + edits[p].length;
            Substitute(s, 0, edits) == s[..p] + (Stringify(edits[p].value) + Substitute(s[q..], q, edits))
  {
    hide Stringify;
    SubstituteAfter(s, p, edits);
    assert s[p..][edits[p].length..] == s[p + edits[p].length..];
  }

  /** One right-to-left splice: replacing a token in text whose later tokens are already replaced
      is the simultaneous replacement of all of them. */
  lemma SpliceStep(s: Text, edits: Edits, p: nat, edit: Edit)
    requires 0 < edit.length && p + edit.length <= |s|
    requires Quiet(edits, 0, p + edit.length)
    ensures var out := Substitute(s, 0, edits);
            p + edit.length <= |out| &&
            out[..p] + Stringify(edit.value) + out[p + edit.length..] == Substitute(s, 0, edits[p := edit])
  {
    hide Substitute, Stringify;
    var q := p + edit.length;
    var all := edits[p := edit];
    var tail := Substitute(s[q..], q, edits);
    SubstituteAfter(s, q, edits);
    SubstituteFirst(s, p, all);
    SubstituteSame(s[q..], q, edits, all);
    assert (s[..q] + tail)[..p] == s[..p] && (s[..q] + tail)[q..] == tail;
    Append(s[..p], Stringify(edit.value), tail);
  }

  // ---------------------------------------------------------------- string leaves of a syntax tree

  /** Offset and length of every string token that is a value (object keys are not). */
  function Leaves(v: Value, at: nat): set<(nat, nat)> {
    match v
    case Str(body) => {(at, |Quoted(body)|)}
    case Array(open, items) => ItemLeaves(items, at + 1 + |open|)
    case Object(open, members) => MemberLeaves(members, at + 1 + |open|)
    case _ => {}
  }

  function NextItemAt(items: Items, at: nat): nat
    requires items.NextItem?
  {
    at + |ValueText(items.value)| + |items.after| + 1 + |items.gap|
  }

  function ItemLeaves(items: Items, at: nat): set<(nat, nat)> {
    Leaves(items.value, at) + if items.NextItem? then ItemLeaves(items.rest, NextItemAt(items, at)) else {}
  }

  function ValueAt(m: Member, at: nat): nat {
    at + |Quoted(m.key)| + |m.beforeColon| + 1 + |m.afterColon|
  }

  function NextMemberAt(members: Members, at: nat): nat
    requires members.NextMember?
  {
    at + |MemberText(members.member)| + 1 + |members.gap|
  }

  function MemberLeaves(members: Members, at: nat): set<(nat, nat)> {
    Leaves(members.member.value, ValueAt(members.member, at)) +
    if members.NextMember? then MemberLeaves(members.rest, NextMemberAt(members, at)) else {}
  }

  /** Leaves lie in a source range, are nonempty, and two of them do not overlap. */
  ghost predicate Spread(leaves: set<(nat, nat)>, low: nat, high: nat) {
    && (forall p | p in leaves :: low <= p.0 && 0 < p.1 && p.0 + p.1 <= high)
    && (forall p, q | p in leaves && q in leaves && p.0 <= q.0 :: p == q || p.0 + p.1 <= q.0)
  }

  lemma {:induction false} LeavesSpread(v: Value, at: nat)
    ensures Spread(Leaves(v, at), at, at + |ValueText(v)|)
    decreases v
  {
    match v
    case Array(open, items) => ItemLeavesSpread(items, at + 1 + |open|);
    case Object(open, members) => MemberLeavesSpread(members, at + 1 + |open|);
    case _ =>
  }

  lemma {:induction false} ItemLeavesSpread(items: Items, at: nat)
    ensures Spread(ItemLeaves(items, at), at, at + |ItemsText(items)|)
    decreases items
  {
    LeavesSpread(items.value, at);
    if items.NextItem? {
      ItemLeavesSpread(items.rest, NextItemAt(items, at));
    }
  }

  lemma {:induction false} MemberLeavesSpread(members: Members, at: nat)
    ensures Spread(MemberLeaves(members, at), at, at + |MembersText(members)|)
    decreases members
  {
    LeavesSpread(members.member.value, ValueAt(members.member, at));
    if members.NextMember? {
      MemberLeavesSpread(members.rest, NextMemberAt(members, at));
    }
  }

  // ---------------------------------------------------------------- editing a syntax tree

  /** The tree with the targeted string values replaced; offsets are those of the unedited source. */
  function EditValue(v: Value, at: nat, edits: Edits): Value {
    match v
    case Str(body) => if at in edits then Str(Escape(edits[at].value)) else v
    case Array(open, items) => Array(open, EditItems(items, at + 1 + |open|, edits))
    case Object(open, members) => Object(open, EditMembers(members, at + 1 + |open|, edits))
    case _ => v
  }

  function EditItems(items: Items, at: nat, edits: Edits): Items {
    var value := EditValue(items.value, at, edits);
    match items
    case LastItem(_, after) => LastItem(value, after)
    case NextItem(_, after, gap, rest) => NextItem(value, after, gap, EditItems(rest, NextItemAt(items, at), edits))
  }

  function EditMember(m: Member, at: nat, edits: Edits): Member {
    m.(value := EditValue(m.value, ValueAt(m, at), edits))
  }

  function EditMembers(members: Members, at: nat, edits: Edits): Members {
    match members
    case LastMember(m) => LastMember(EditMember(m, at, edits))
    case NextMember(m, gap, rest) =>
      NextMember(EditMember(m, at, edits), gap, EditMembers(rest, NextMemberAt(members, at), edits))
  }

  lemma {:induction false} EditValid(v: Value, at: nat, edits: Edits)
    requires ValidValue(v)
    ensures ValidValue(EditValue(v, at, edits))
    decreases v
  {
    match v
    case Str(body) =>
      if at in edits {
        DecodeOfEscape(edits[at].value);
      }
    case Array(open, items) => EditItemsValid(items, at + 1 + |open|, edits);
    case Object(open, members) => EditMembersValid(members, at + 1 + |open|, edits, {});
    case _ =>
  }

  lemma {:induction false} EditItemsValid(items: Items, at: nat, edits: Edits)
    requires ValidItems(items)
    ensures ValidItems(EditItems(items, at, edits))
    decreases items
  {
    EditValid(items.value, at, edits);
    if items.NextItem? {
      EditItemsValid(items.rest, NextItemAt(items, at), edits);
    }
  }

  lemma {:induction false} EditMembersValid(members: Members, at: nat, edits: Edits, seen: set<Text>)
    requires ValidMembers(members, seen)
    ensures ValidMembers(EditMembers(members, at, edits), seen)
    decreases members
  {
    EditValid(members.member.value, ValueAt(members.member, at), edits);
    if members.NextMember? {
      EditMembersValid(members.rest, NextMemberAt(members, at), edits, seen + {Decode(members.member.key).value});
    }
  }

  /** In a source range, the edits are at exactly these leaves or some of them. */
  ghost predicate Targets(edits: Edits, leaves: set<(nat, nat)>, low: nat, high: nat) {
    forall k | k in edits && low <= k < high :: (k, edits[k].length) in leaves
  }

  /** Substituting in a text that is `a` followed by `b`, when the edits respect the seam. */
  lemma Seam(a: Text, a': Text, b: Text, b': Text, at: nat, edits: Edits)
    requires Fits(edits, at, at + |a|) && Substitute(a, at, edits) == a'
    requires Substitute(b, at + |a|, edits) == b'
    ensures Substitute(a + b, at, edits) == a' + b'
  {
    SubstituteAppend(a, b, at, edits);
  }

  lemma QuietSeam(a: Text, b: Text, b': Text, at: nat, edits: Edits)
    requires Quiet(edits, at, at + |a|) && Substitute(b, at + |a|, edits) == b'
    ensures Substitute(a + b, at, edits) == a + b'
  {
    SubstituteQuiet(a, at, edits);
    Seam(a, a, b, b', at, edits);
  }

  lemma Enclosed(bracket: Unit, open: Text, inner: Text, inner': Text, at: nat, edits: Edits)
    requires Quiet(edits, at, at + 1 + |open|) && Substitute(inner, at + 1 + |open|, edits) == inner'
    ensures Substitute([bracket] + (open + inner), at, edits) == [bracket] + (open + inner')
  {
    QuietSeam(open, inner, inner', at + 1, edits);
    QuietSeam([bracket], open + inner, open + inner', at, edits);
  }

  lemma SubstituteLeaf(body: Text, at: nat, edits: Edits)
    requires Targets(edits, Leaves(Str(body), at), at, at + |Quoted(body)|)
    ensures Substitute(Quoted(body), at, edits) == ValueText(EditValue(Str(body), at, edits))
  {
    var t := Quoted(body);
    if at in edits {
      assert (at, edits[at].length) in Leaves(Str(body), at);
      assert t[|t|..] == [];
      assert Stringify(edits[at].value) + [] == Stringify(edits[at].value);
    } else {
      SubstituteQuiet(t, at, edits);
    }
  }

  lemma {:induction false} SubstituteIsEdit(v: Value, at: nat, edits: Edits)
    requires Targets(edits, Leaves(v, at), at, at + |ValueText(v)|)
    ensures Substitute(ValueText(v), at, edits) == ValueText(EditValue(v, at, edits))
    ensures Fits(edits, at, at + |ValueText(v)|)
    decreases v
  {
    hide Substitute, Quoted, Escape, ItemsText, MembersText, ItemLeaves, MemberLeaves, EditItems, EditMembers, NumberText;
    LeavesSpread(v, at);
    match v
    case Str(body) => SubstituteLeaf(body, at, edits);
    case Array(open, items) =>
      var inner := at + 1 + |open|;
      ItemLeavesSpread(items, inner);
      SubstituteIsEditItems(items, inner, edits);
      var items' := ItemsText(EditItems(items, inner, edits));
      Enclosed(OPEN_BRACKET, open, ItemsText(items), items', at, edits);
    case Object(open, members) =>
      var inner := at + 1 + |open|;
      MemberLeavesSpread(members, inner);
      SubstituteIsEditMembers(members, inner, edits);
      var members' := MembersText(EditMembers(members, inner, edits));
      Enclosed(OPEN_BRACE, open, MembersText(members), members', at, edits);
    case _ => SubstituteQuiet(ValueText(v), at, edits);
  }

  lemma {:induction false} SubstituteIsEditItems(items: Items, at: nat, edits: Edits)
    requires Targets(edits, ItemLeaves(items, at), at, at + |ItemsText(items)|)
    ensures Substitute(ItemsText(items), at, edits) == ItemsText(EditItems(items, at, edits))
    ensures Fits(edits, at, at + |ItemsText(items)|)
    decreases items
  {
    hide Substitute, ValueText, EditValue, Leaves;
    ItemLeavesSpread(items, at);
    LeavesSpread(items.value, at);
    var value, value' := ValueText(items.value), ValueText(EditValue(items.value, at, edits));
    var afterAt := at + |value|;
    if items.LastItem? {
      SubstituteIsEdit(items.value, at, edits);
      SubstituteQuiet(items.after + [CLOSE_BRACKET], afterAt, edits);
      Seam(value, value', items.after + [CLOSE_BRACKET], items.after + [CLOSE_BRACKET], at, edits);
    } else {
      var next := NextItemAt(items, at);
      ItemLeavesSpread(items.rest, next);
      SubstituteIsEdit(items.value, at, edits);
      SubstituteIsEditItems(items.rest, next, edits);
      var rest, rest' := ItemsText(items.rest), ItemsText(EditItems(items.rest, next, edits));
      QuietSeam(items.gap, rest, rest', afterAt + |items.after| + 1, edits);
      QuietSeam([COMMA], items.gap + rest, items.gap + rest', afterAt + |items.after|, edits);
      var tail, tail' := [COMMA] + (items.gap + rest), [COMMA] + (items.gap + rest');
      QuietSeam(items.after, tail, tail', afterAt, edits);
      Seam(value, value', items.after + tail, items.after + tail', at, edits);
    }
  }

  lemma MemberLength(m: Member, at: nat)
    ensures at + |MemberText(m)| == ValueAt(m, at) + |ValueText(m.value)| + |m.after|
  {
  }

  lemma {:induction false} SubstituteIsEditMember(m: Member, at: nat, edits: Edits)
    requires Targets(edits, Leaves(m.value, ValueAt(m, at)), at, at + |MemberText(m)|)
    ensures Substitute(MemberText(m), at, edits) == MemberText(EditMember(m, at, edits))
    ensures Fits(edits, at, at + |MemberText(m)|)
    decreases m
  {
    hide Substitute, ValueText, EditValue, Leaves;
    var valueAt := ValueAt(m, at);
    LeavesSpread(m.value, valueAt);
    SubstituteIsEdit(m.value, valueAt, edits);
    var value, value' := ValueText(m.value), ValueText(EditValue(m.value, valueAt, edits));
    var keyEnd := at + |Quoted(m.key)|;
    SubstituteQuiet(m.after, valueAt + |value|, edits);
    Seam(value, value', m.after, m.after, valueAt, edits);
    QuietSeam(m.afterColon, value + m.after, value' + m.after, keyEnd + |m.beforeColon| + 1, edits);
    var tail, tail' := m.afterColon + (value + m.after), m.afterColon + (value' + m.after);
    QuietSeam([COLON], tail, tail', keyEnd + |m.beforeColon|, edits);
    QuietSeam(m.beforeColon, [COLON] + tail, [COLON] + tail', keyEnd, edits);
    QuietSeam(Quoted(m.key), m.beforeColon + ([COLON] + tail), m.beforeColon + ([COLON] + tail'), at, edits);
  }

  lemma {:induction false} SubstituteIsEditMembers(members: Members, at: nat, edits: Edits)
    requires Targets(edits, MemberLeaves(members, at), at, at + |MembersText(members)|)
    ensures Substitute(MembersText(members), at, edits) == MembersText(EditMembers(members, at, edits))
    ensures Fits(edits, at, at + |MembersText(members)|)
    decreases members
  {
    hide Substitute, MemberText, EditMember, Leaves;
    MemberLeavesSpread(members, at);
    var m := members.member;
    MemberLength(m, at);
    LeavesSpread(m.value, ValueAt(m, at));
    var member, member' := MemberText(m), MemberText(EditMember(m, at, edits));
    var end := at + |member|;
    if members.LastMember? {
      SubstituteIsEditMember(m, at, edits);
      SubstituteQuiet([CLOSE_BRACE], end, edits);
      Seam(member, member', [CLOSE_BRACE], [CLOSE_BRACE], at, edits);
    } else {
      var next := NextMemberAt(members, at);
      MemberLeavesSpread(members.rest, next);
      SubstituteIsEditMember(m, at, edits);
      SubstituteIsEditMembers(members.rest, next, edits);
      var rest, rest' := MembersText(members.rest), MembersText(EditMembers(members.rest, next, edits));
      QuietSeam(members.gap, rest, rest', end + 1, edits);
      QuietSeam([COMMA], members.gap + rest, members.gap + rest', end, edits);
      Seam(member, member', [COMMA] + (members.gap + rest), [COMMA] + (members.gap + rest'), at, edits);
    }
  }

  // ---------------------------------------------------------------- where the edited tokens move to

  /** The offset in the edited text of offset `x` of the source. */
  function Moved(source: Text, edits: Edits, x: nat): nat {
    |Substitute(source[..if x <= |source| then x else |source|], 0, edits)|
  }

  /** The node tree of the edited text: targeted strings get their new value, and every offset moves. */
  function Retarget(n: Node, source: Text, edits: Edits): Node {
    var start, end := Moved(source, edits, n.start), Moved(source, edits, n.end);
    match n
    case StringNode(value, at, _) => StringNode(if at in edits then edits[at].value else value, start, end)
    case NumberNode(text, _, _) => NumberNode(text, start, end)
    case BooleanNode(flag, _, _) => BooleanNode(flag, start, end)
    case NullNode(_, _) => NullNode(start, end)
    case ArrayNode(items, _, _) => ArrayNode(RetargetItems(items, source, edits), start, end)
    case ObjectNode(properties, _, _) => ObjectNode(RetargetProperties(properties, source, edits), start, end)
  }

  function RetargetItems(items: seq<Node>, source: Text, edits: Edits): seq<Node> {
    if items == [] then [] else [Retarget(items[0], source, edits)] + RetargetItems(items[1..], source, edits)
  }

  function RetargetProperty(p: Property, source: Text, edits: Edits): Property {
    Property(Retarget(p.key, source, edits), Retarget(p.value, source, edits))
  }

  function RetargetProperties(properties: seq<Property>, source: Text, edits: Edits): seq<Property> {
    if properties == [] then []
    else [RetargetProperty(properties[0], source, edits)] + RetargetProperties(properties[1..], source, edits)
  }

  ghost predicate Occurs(t: Text, source: Text, at: nat) {
    at + |t| <= |source| && source[at..at + |t|] == t
  }

  lemma OccursSplit(a: Text, b: Text, source: Text, at: nat)
    requires Occurs(a + b, source, at)
    ensures Occurs(a, source, at) && Occurs(b, source, at + |a|)
  {
    var t := source[at..at + |a + b|];
    assert source[at..at + |a|] == t[..|a|] && (a + b)[..|a|] == a;
    assert source[at + |a|..at + |a| + |b|] == t[|a|..] && (a + b)[|a|..] == b;
  }

  /** The text `t` at offset `at` becomes `t'`, and no edited token reaches across its start. */
  ghost predicate Becomes(t: Text, t': Text, source: Text, at: nat, edits: Edits) {
    Occurs(t, source, at) && Fits(edits, 0, at) && Fits(edits, at, at + |t|) && Substitute(t, at, edits) == t'
  }

  lemma MovedStep(t: Text, t': Text, source: Text, at: nat, edits: Edits)
    requires Becomes(t, t', source, at, edits)
    ensures Moved(source, edits, at + |t|) == Moved(source, edits, at) + |t'| && Fits(edits, 0, at + |t|)
  {
    assert source[..at + |t|] == source[..at] + t;
    SubstituteAppend(source[..at], t, 0, edits);
  }

  /** Every character outside the replaced tokens is in the result, at its moved offset. */
  lemma OutsideUnchanged(source: Text, edits: Edits, x: nat)
    requires x < |source| && Fits(edits, 0, |source|)
    requires forall k | k in edits :: x < k || k + edits[k].length <= x
    ensures var out := Substitute(source, 0, edits); Moved(source, edits, x) < |out| && out[Moved(source, edits, x)] == source[x]
  {
    assert Fits(edits, 0, x);
    assert source == source[..x] + source[x..];
    SubstituteAppend(source[..x], source[x..], 0, edits);
  }

  lemma MovedQuiet(t: Text, source: Text, at: nat, edits: Edits)
    requires Occurs(t, source, at) && Fits(edits, 0, at) && Quiet(edits, at, at + |t|)
    ensures Moved(source, edits, at + |t|) == Moved(source, edits, at) + |t| && Fits(edits, 0, at + |t|)
  {
    SubstituteQuiet(t, at, edits);
    MovedStep(t, t, source, at, edits);
  }

  /** What is needed to follow an edit through a piece of the tree. */
  ghost predicate Ready(t: Text, leaves: set<(nat, nat)>, source: Text, at: nat, edits: Edits) {
    Occurs(t, source, at) && Fits(edits, 0, at) && Targets(edits, leaves, at, at + |t|)
  }

  lemma EnterBracket(bracket: Unit, open: Text, inner: Text, leaves: set<(nat, nat)>, source: Text, at: nat, edits: Edits)
    requires Ready([bracket] + (open + inner), leaves, source, at, edits)
    requires Spread(leaves, at + 1 + |open|, at + 1 + |open| + |inner|)
    ensures Ready(inner, leaves, source, at + 1 + |open|, edits)
    ensures Moved(source, edits, at + 1 + |open|) == Moved(source, edits, at) + 1 + |open|
  {
    hide Moved, Substitute, Occurs, Fits;
    var head := [bracket] + open;
    Append([bracket], open, inner);
    OccursSplit(head, inner, source, at);
    MovedQuiet(head, source, at, edits);
  }

  lemma {:induction false} EditTree(v: Value, source: Text, at: nat, edits: Edits)
    requires Ready(ValueText(v), Leaves(v, at), source, at, edits)
    ensures TreeOf(EditValue(v, at, edits), Moved(source, edits, at)) == Retarget(TreeOf(v, at), source, edits)
    decreases v
  {
    hide Moved, Substitute, Occurs, Fits, Spread, Targets, Escape, ItemNodes, PropertyNodes, EditItems, EditMembers;
    hide ItemsText, MembersText, ItemLeaves, MemberLeaves, NumberText;
    SubstituteIsEdit(v, at, edits);
    MovedStep(ValueText(v), ValueText(EditValue(v, at, edits)), source, at, edits);
    match v
    case Str(body) =>
      if at in edits {
        DecodeOfEscape(edits[at].value);
      }
    case Array(open, items) =>
      ItemLeavesSpread(items, at + 1 + |open|);
      EnterBracket(OPEN_BRACKET, open, ItemsText(items), ItemLeaves(items, at + 1 + |open|), source, at, edits);
      EditItemTree(items, source, at + 1 + |open|, edits);
    case Object(open, members) =>
      MemberLeavesSpread(members, at + 1 + |open|);
      EnterBracket(OPEN_BRACE, open, MembersText(members), MemberLeaves(members, at + 1 + |open|), source, at, edits);
      EditMemberTree(members, source, at + 1 + |open|, edits);
    case _ =>
  }

  /** What the two parts of an item list inherit from the whole, and how far the first part moves the second. */
  lemma NextItemReady(items: Items, source: Text, at: nat, edits: Edits)
    requires items.NextItem? && Ready(ItemsText(items), ItemLeaves(items, at), source, at, edits)
    ensures var next := NextItemAt(items, at);
            && Ready(ValueText(items.value), Leaves(items.value, at), source, at, edits)
            && Ready(ItemsText(items.rest), ItemLeaves(items.rest, next), source, next, edits)
            && Moved(source, edits, next) ==
               Moved(source, edits, at) + |ValueText(EditValue(items.value, at, edits))| + |items.after| + 1 + |items.gap|
  {
    hide Moved, Substitute, EditValue, Leaves, Occurs, Fits, ValueText;
    var value, next := ValueText(items.value), NextItemAt(items, at);
    var gap := items.after + [COMMA] + items.gap;
    LeavesSpread(items.value, at);
    assert ItemsText(items) == value + (gap + ItemsText(items.rest));
    OccursSplit(value, gap + ItemsText(items.rest), source, at);
    OccursSplit(gap, ItemsText(items.rest), source, at + |value|);
    ItemLeavesSpread(items.rest, next);
    SubstituteIsEdit(items.value, at, edits);
    MovedStep(value, ValueText(EditValue(items.value, at, edits)), source, at, edits);
    MovedQuiet(gap, source, at + |value|, edits);
  }

  lemma LastItemReady(items: Items, source: Text, at: nat, edits: Edits)
    requires items.LastItem? && Ready(ItemsText(items), ItemLeaves(items, at), source, at, edits)
    ensures Ready(ValueText(items.value), Leaves(items.value, at), source, at, edits)
  {
    hide Leaves, Occurs, Fits, ValueText;
    LeavesSpread(items.value, at);
    OccursSplit(ValueText(items.value), items.after + [CLOSE_BRACKET], source, at);
  }

  lemma {:induction false} EditItemTree(items: Items, source: Text, at: nat, edits: Edits)
    requires Ready(ItemsText(items), ItemLeaves(items, at), source, at, edits)
    ensures ItemNodes(EditItems(items, at, edits), Moved(source, edits, at))
         == RetargetItems(ItemNodes(items, at), source, edits)
    decreases items
  {
    hide Moved, TreeOf, Retarget, EditValue, Leaves, ValueText, ItemsText, Ready;
    if items.LastItem? {
      LastItemReady(items, source, at, edits);
      EditTree(items.value, source, at, edits);
    } else {
      NextItemReady(items, source, at, edits);
      EditTree(items.value, source, at, edits);
      EditItemTree(items.rest, source, NextItemAt(items, at), edits);
    }
  }

  lemma {:induction false} EditPropertyTree(m: Member, source: Text, at: nat, edits: Edits)
    requires Ready(MemberText(m), Leaves(m.value, ValueAt(m, at)), source, at, edits)
    ensures PropertyNode(EditMember(m, at, edits), Moved(source, edits, at))
         == RetargetProperty(PropertyNode(m, at), source, edits)
    decreases m
  {
    hide Moved, Substitute, TreeOf, EditValue, Leaves, Decode, Occurs, Fits, ValueText;
    var key, value, valueAt := Quoted(m.key), ValueText(m.value), ValueAt(m, at);
    var colon := m.beforeColon + [COLON] + m.afterColon;
    LeavesSpread(m.value, valueAt);
    assert MemberText(m) == key + (colon + (value + m.after));
    OccursSplit(key, colon + (value + m.after), source, at);
    OccursSplit(colon, value + m.after, source, at + |key|);
    OccursSplit(value, m.after, source, valueAt);
    MovedQuiet(key, source, at, edits);
    MovedQuiet(colon, source, at + |key|, edits);
    EditTree(m.value, source, valueAt, edits);
  }

  /** What the two parts of a member list inherit from the whole, and how far the first part moves the second. */
  lemma NextMemberReady(members: Members, source: Text, at: nat, edits: Edits)
    requires members.NextMember? && Ready(MembersText(members), MemberLeaves(members, at), source, at, edits)
    ensures var m, next := members.member, NextMemberAt(members, at);
            && Ready(MemberText(m), Leaves(m.value, ValueAt(m, at)), source, at, edits)
            && Ready(MembersText(members.rest), MemberLeaves(members.rest, next), source, next, edits)
            && Moved(source, edits, next) ==
               Moved(source, edits, at) + |MemberText(EditMember(m, at, edits))| + 1 + |members.gap|
  {
    hide Moved, Substitute, EditMember, Leaves, MemberText, Occurs, Fits;
    var m, next := members.member, NextMemberAt(members, at);
    var member, gap := MemberText(m), [COMMA] + members.gap;
    MemberLength(m, at);
    LeavesSpread(m.value, ValueAt(m, at));
    assert MembersText(members) == member + (gap + MembersText(members.rest));
    OccursSplit(member, gap + MembersText(members.rest), source, at);
    OccursSplit(gap, MembersText(members.rest), source, at + |member|);
    MemberLeavesSpread(members.rest, next);
    SubstituteIsEditMember(m, at, edits);
    MovedStep(member, MemberText(EditMember(m, at, edits)), source, at, edits);
    MovedQuiet(gap, source, at + |member|, edits);
  }

  lemma LastMemberReady(members: Members, source: Text, at: nat, edits: Edits)
    requires members.LastMember? && Ready(MembersText(members), MemberLeaves(members, at), source, at, edits)
    ensures var m := members.member; Ready(MemberText(m), Leaves(m.value, ValueAt(m, at)), source, at, edits)
  {
    hide Leaves, MemberText, Occurs, Fits;
    MemberLength(members.member, at);
    LeavesSpread(members.member.value, ValueAt(members.member, at));
    OccursSplit(MemberText(members.member), [CLOSE_BRACE], source, at);
  }

  lemma {:induction false} EditMemberTree(members: Members, source: Text, at: nat, edits: Edits)
    requires Ready(MembersText(members), MemberLeaves(members, at), source, at, edits)
    ensures PropertyNodes(EditMembers(members, at, edits), Moved(source, edits, at))
         == RetargetProperties(PropertyNodes(members, at), source, edits)
    decreases members
  {
    hide Moved, PropertyNode, RetargetProperty, EditMember, Leaves, MemberText, MembersText, Ready;
    if members.LastMember? {
      LastMemberReady(members, source, at, edits);
      EditPropertyTree(members.member, source, at, edits);
    } else {
      NextMemberReady(members, source, at, edits);
      EditPropertyTree(members.member, source, at, edits);
      MemberLength(EditMember(members.member, at, edits), Moved(source, edits, at));
      EditMemberTree(members.rest, source, NextMemberAt(members, at), edits);
    }
  }

  /** Replacing string tokens in the text of a document parses, and gives the tree with exactly those
      string values replaced and every offset moved. */
  lemma SubstitutionTheorem(source: Text, edits: Edits)
    requires ParseDocument(source).Ok?
    requires var d := ParseDocument(source).value; Targets(edits, Leaves(d.value, |d.lead|), 0, |source|)
    ensures ParseJson(Substitute(source, 0, edits)) == Ok(Retarget(ParseJson(source).value, source, edits))
  {
    hide Substitute, Leaves, EditValue, TreeOf, Retarget, ParseValue, ValueText;
    DocumentSound(source);
    var d := ParseDocument(source).value;
    var at := |d.lead|;
    LeavesSpread(d.value, at);
    var edited := Document(d.lead, EditValue(d.value, at, edits), d.trail);
    SubstituteDocument(d, edits);
    EditValid(d.value, at, edits);
    DocumentComplete(edited);
    DocumentOccurs(d);
    assert Moved(source, edits, at) == at by {
      assert source[..at] == d.lead;
      SubstituteQuiet(d.lead, 0, edits);
    }
    EditTree(d.value, source, at, edits);
  }

  lemma SubstituteDocument(d: Document, edits: Edits)
    requires Targets(edits, Leaves(d.value, |d.lead|), 0, |DocumentText(d)|)
    ensures Substitute(DocumentText(d), 0, edits)
         == DocumentText(Document(d.lead, EditValue(d.value, |d.lead|, edits), d.trail))
  {
    hide Substitute, Leaves, EditValue, ValueText;
    var at, value, value' := |d.lead|, ValueText(d.value), ValueText(EditValue(d.value, |d.lead|, edits));
    LeavesSpread(d.value, at);
    SubstituteIsEdit(d.value, at, edits);
    SubstituteQuiet(d.trail, at + |value|, edits);
    Seam(value, value', d.trail, d.trail, at, edits);
    QuietSeam(d.lead, value + d.trail, value' + d.trail, 0, edits);
  }

  lemma DocumentOccurs(d: Document)
    ensures Occurs(d.lead, DocumentText(d), 0) && Occurs(ValueText(d.value), DocumentText(d), |d.lead|)
  {
    hide ValueText;
    var source := DocumentText(d);
    assert source[0..|source|] == source;
    OccursSplit(d.lead, ValueText(d.value) + d.trail, source, 0);
    OccursSplit(ValueText(d.value), d.trail, source, |d.lead|);
  }
}
