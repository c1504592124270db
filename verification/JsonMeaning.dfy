/** What a parsed tree stands for: each node with the piece of grammar it was read from. */
module JsonMeaning {
  import opened Options
  import opened JsonGrammar
  import opened JsonStrings
  import opened JsonScanner
  import opened JsonParser

  ghost predicate SpelledAs(body: Text, value: Text) {
    exists pieces :: Spells(pieces, body, value)
  }

  /** The node has the kind, the value and the children, in number and order, that the syntax says. */
  ghost predicate StandsFor(n: Node, v: Value)
    decreases v
  {
    match v
    case Str(body) => n.StringNode? && SpelledAs(body, n.value)
    case Num(number) => n.NumberNode? && n.text == NumberText(number)
    case Lit(literal) =>
      (match literal
       case True => n.BooleanNode? && n.flag
       case False => n.BooleanNode? && !n.flag
       case Null => n.NullNode?)
    case EmptyArray(_) => n.ArrayNode? && n.items == []
    case Array(_, items) => n.ArrayNode? && ItemsStandFor(n.items, items)
    case EmptyObject(_) => n.ObjectNode? && n.properties == []
    case Object(_, members) => n.ObjectNode? && MembersStandFor(n.properties, members)
  }

  ghost predicate ItemsStandFor(nodes: seq<Node>, items: Items)
    decreases items
  {
    match items
    case LastItem(value, _) => |nodes| == 1 && StandsFor(nodes[0], value)
    case NextItem(value, _, _, rest) => nodes != [] && StandsFor(nodes[0], value) && ItemsStandFor(nodes[1..], rest)
  }

  ghost predicate MemberStandsFor(p: Property, m: Member)
    decreases m
  {
    p.key.StringNode? && SpelledAs(m.key, p.key.value) && StandsFor(p.value, m.value)
  }

  ghost predicate MembersStandFor(properties: seq<Property>, members: Members)
    decreases members
  {
    match members
    case LastMember(m) => |properties| == 1 && MemberStandsFor(properties[0], m)
    case NextMember(m, _, rest) => properties != [] && MemberStandsFor(properties[0], m) && MembersStandFor(properties[1..], rest)
  }

  lemma BodySpells(body: Text)
    requires ValidString(body)
    ensures SpelledAs(body, Decoded(body))
  {
    DecodesExactly(body, Decoded(body));
  }

  lemma {:induction false} TreeStandsFor(v: Value, at: nat)
    requires ValidValue(v)
    ensures StandsFor(TreeOf(v, at), v)
    decreases v
  {
    hide SpelledAs, Decoded, ItemsStandFor, MembersStandFor, ItemNodes, PropertyNodes, NumberText;
    match v
    case Str(body) => BodySpells(body);
    case Array(open, items) => ItemTreesStandFor(items, at + 1 + |open|);
    case Object(open, members) => MemberTreesStandFor(members, {}, at + 1 + |open|);
    case _ =>
  }

  lemma {:induction false} ItemTreesStandFor(items: Items, at: nat)
    requires ValidItems(items)
    ensures ItemsStandFor(ItemNodes(items, at), items)
    decreases items
  {
    TreeStandsFor(items.value, at);
    hide StandsFor, TreeOf, ValueText;
    if items.NextItem? {
      var next := at + |ValueText(items.value)| + |items.after| + 1 + |items.gap|;
      ItemTreesStandFor(items.rest, next);
      assert ItemNodes(items, at)[1..] == ItemNodes(items.rest, next);
    }
  }

  lemma {:induction false} MemberTreesStandFor(members: Members, seen: set<Text>, at: nat)
    requires ValidMembers(members, seen)
    ensures MembersStandFor(PropertyNodes(members, at), members)
    decreases members
  {
    var m := members.member;
    MemberTreeStandsFor(m, at);
    hide MemberStandsFor, PropertyNode, MemberText;
    if members.NextMember? {
      var next := at + |MemberText(m)| + 1 + |members.gap|;
      MemberTreesStandFor(members.rest, seen + {Decode(m.key).value}, next);
      assert PropertyNodes(members, at)[1..] == PropertyNodes(members.rest, next);
    }
  }

  lemma {:induction false} MemberTreeStandsFor(m: Member, at: nat)
    requires ValidMember(m)
    ensures MemberStandsFor(PropertyNode(m, at), m)
    decreases m
  {
    BodySpells(m.key);
    TreeStandsFor(m.value, at + |Quoted(m.key)| + |m.beforeColon| + 1 + |m.afterColon|);
    hide StandsFor, TreeOf, SpelledAs;
  }

  ghost predicate ReadsAs(source: Text, d: Document, root: Node) {
    ValidDocument(d) && DocumentText(d) == source && StandsFor(root, d.value)
  }

  /** The tree of an accepted source stands for a document of the grammar with exactly that text. */
  lemma ParsedTreeStandsFor(source: Text)
    requires ParseJson(source).Ok?
    ensures exists d :: ReadsAs(source, d, ParseJson(source).value)
  {
    hide ParseDocument, StandsFor, TreeOf;
    DocumentSound(source);
    var d := ParseDocument(source).value;
    TreeStandsFor(d.value, |d.lead|);
    assert ReadsAs(source, d, ParseJson(source).value);
  }
}
