/** The node tree with source offsets, and the imperative `JsonSourceParser` that builds it. */
module JsonParser {
  import opened Options
  import opened JsonGrammar
  import opened JsonScanner

  /** A parsed value and the half-open range of source offsets it came from. */
  datatype Node =
    | StringNode(value: Text, start: nat, end: nat)
    | NumberNode(text: Text, start: nat, end: nat)
    | BooleanNode(flag: bool, start: nat, end: nat)
    | NullNode(start: nat, end: nat)
    | ArrayNode(items: seq<Node>, start: nat, end: nat)
    | ObjectNode(properties: seq<Property>, start: nat, end: nat)

  datatype Property = Property(key: Node, value: Node)

  function Decoded(body: Text): Text {
    if Decode(body).Some? then Decode(body).value else []
  }

  /** The node for a syntax tree whose text starts at offset `at`. */
  function TreeOf(v: Value, at: nat): Node {
    var end := at + |ValueText(v)|;
    match v
    case Str(body) => StringNode(Decoded(body), at, end)
    case Num(number) => NumberNode(NumberText(number), at, end)
    case Lit(literal) => if literal.Null? then NullNode(at, end) else BooleanNode(literal.True?, at, end)
    case EmptyArray(_) => ArrayNode([], at, end)
    case Array(open, items) => ArrayNode(ItemNodes(items, at + 1 + |open|), at, end)
    case EmptyObject(_) => ObjectNode([], at, end)
    case Object(open, members) => ObjectNode(PropertyNodes(members, at + 1 + |open|), at, end)
  }

  function ItemNodes(items: Items, at: nat): seq<Node> {
    match items
    case LastItem(value, _) => [TreeOf(value, at)]
    case NextItem(value, after, gap, rest) =>
      [TreeOf(value, at)] + ItemNodes(rest, at + |ValueText(value)| + |after| + 1 + |gap|)
  }

  function PropertyNode(m: Member, at: nat): Property {
    var valueAt := at + |Quoted(m.key)| + |m.beforeColon| + 1 + |m.afterColon|;
    Property(StringNode(Decoded(m.key), at, at + |Quoted(m.key)|), TreeOf(m.value, valueAt))
  }

  function PropertyNodes(members: Members, at: nat): seq<Property> {
    match members
    case LastMember(m) => [PropertyNode(m, at)]
    case NextMember(m, gap, rest) => [PropertyNode(m, at)] + PropertyNodes(rest, at + |MemberText(m)| + 1 + |gap|)
  }

  /** `parseJsonSource`. */
  function ParseJson(source: Text): Result<Node> {
    match ParseDocument(source)
    case Ok(d) => Ok(TreeOf(d.value, |d.lead|))
    case Err(error) => Err(error)
  }

  // ---------------------------------------------------------------- one step of each parsing routine

  /** The outcome of a parsing routine that started at offset `start` of `source` and stopped at `end`. */
  ghost predicate Agrees(p: Parsed<Value>, source: Text, start: nat, end: nat, r: Result<Node>) {
    match p
    case Got(v, rest) => r == Ok(TreeOf(v, start)) && start < end <= |source| && source[end..] == rest
    case Failed(error) => r == Err(error)
  }

  lemma Advance(source: Text, at: nat, head: Text, rest: Text)
    requires at <= |source| && source[at..] == head + rest
    ensures at + |head| <= |source| && source[at + |head|..] == rest
  {
    assert source[at..][|head|..] == source[at + |head|..];
  }

  lemma TokenAgrees(p: Parsed<Value>, source: Text, start: nat, node: Node)
    requires p.Got? && ValidValue(p.value)
    requires start <= |source| && source[start..] == ValueText(p.value) + p.rest && node == TreeOf(p.value, start)
    ensures Agrees(p, source, start, start + |ValueText(p.value)|, Ok(node))
  {
    ValueStart(p.value);
    Advance(source, start, ValueText(p.value), p.rest);
  }

  lemma ScanStep(source: Text, at: nat)
    requires at < |source|
    ensures var scan := ScanString(source[at..]);
            if source[at] == QUOTE then scan == Closed(0)
            else if source[at] == BACKSLASH then
              scan == if at + 1 == |source| then Open(Malformed(UnterminatedEscape, 0)) else Further(2, ScanString(source[at + 2..]))
            else if source[at] < 0x20 then scan == Open(Malformed(UnescapedControl, |source| - at - 1))
            else scan == Further(1, ScanString(source[at + 1..]))
  {
    assert source[at..][1..] == source[at + 1..];
    assert at + 2 <= |source| ==> source[at..][2..] == source[at + 2..];
  }

  lemma ScanEmpty(t: Text)
    requires t == []
    ensures ScanString(t) == Open(Malformed(UnterminatedString, 0))
  {
  }

  lemma StringFromScan(source: Text, start: nat)
    requires start < |source| && source[start] == QUOTE
    ensures var scan := ScanString(source[start + 1..]);
            ParseString(source[start..]) ==
              if scan.Open? then Failed(scan.error)
              else
                var end := start + 1 + scan.length;
                var body := source[start + 1..end];
                if Decode(body).None? then Failed(Malformed(BadStringToken, |source| - end - 1)) else Got(body, source[end + 1..])
  {
    var scan := ScanString(source[start + 1..]);
    assert source[start..][1..] == source[start + 1..];
    if scan.Closed? {
      assert source[start + 1..][..scan.length] == source[start + 1..start + 1 + scan.length];
      assert source[start..][scan.length + 2..] == source[start + 2 + scan.length..];
    }
  }

  /** Where the array loop stands: `done` are the nodes so far and `now` is what is still to be read. */
  ghost predicate ItemsSoFar(all: Parsed<Items>, first: nat, done: seq<Node>, now: Parsed<Items>, at: nat) {
    match now
    case Failed(error) => all == Failed(error)
    case Got(items, rest) => all.Got? && all.rest == rest && ItemNodes(all.value, first) == done + ItemNodes(items, at)
  }

  lemma ItemsBegin(all: Parsed<Items>, at: nat)
    ensures ItemsSoFar(all, at, [], all, at)
  {
  }

  lemma ItemsStep(all: Parsed<Items>, first: nat, done: seq<Node>, t: Text, at: nat)
    requires ItemsSoFar(all, first, done, ParseItems(t), at)
    ensures var p := ParseValue(t);
            if p.Failed? then all == Failed(p.error)
            else
              var u := CutSpace(p.rest).tail;
              var nodes := done + [TreeOf(p.value, at)];
              if u != [] && u[0] == CLOSE_BRACKET then
                all.Got? && all.rest == u[1..] && ItemNodes(all.value, first) == nodes
              else if u == [] || u[0] != COMMA then all == Failed(Malformed(ExpectedArraySeparator, |u| - 1))
              else
                var v := CutSpace(u[1..]).tail;
                ItemsSoFar(all, first, nodes, ParseItems(v), at + (|t| - |v|))
  {
    hide ParseValue, TreeOf, CutSpace, ValueText;
    ValueSound(t);
    var value := ParseValue(t);
    if value.Got? {
      var u := CutSpace(value.rest).tail;
      if u != [] && u[0] == COMMA {
        var v := CutSpace(u[1..]).tail;
        var more := ParseItems(v);
        if more.Got? {
          assert done + ([TreeOf(value.value, at)] + ItemNodes(more.value, at + (|t| - |v|)))
              == done + [TreeOf(value.value, at)] + ItemNodes(more.value, at + (|t| - |v|));
        }
      }
    }
  }

  lemma ArrayAgrees(source: Text, start: nat, end: nat, nodes: seq<Node>)
    requires start < |source| && source[start] == OPEN_BRACKET
    requires ParseArray(source[start..]).Got? && end <= |source| && source[end..] == ParseArray(source[start..]).rest
    requires match ParseArray(source[start..]).value
             case EmptyArray(_) => nodes == []
             case Array(open, items) => nodes == ItemNodes(items, start + 1 + |open|)
             case _ => false
    ensures Agrees(ParseArray(source[start..]), source, start, end, Ok(ArrayNode(nodes, start, end)))
  {
    hide ParseArray, ItemNodes, ValueText;
    ArraySound(source[start..]);
    TokenAgrees(ParseArray(source[start..]), source, start, TreeOf(ParseArray(source[start..]).value, start));
  }

  ghost predicate MembersSoFar(all: Parsed<Members>, first: nat, done: seq<Property>, now: Parsed<Members>, at: nat) {
    match now
    case Failed(error) => all == Failed(error)
    case Got(members, rest) =>
      all.Got? && all.rest == rest && PropertyNodes(all.value, first) == done + PropertyNodes(members, at)
  }

  lemma MembersBegin(all: Parsed<Members>, at: nat)
    ensures MembersSoFar(all, at, [], all, at)
  {
  }

  lemma MembersStep(all: Parsed<Members>, first: nat, done: seq<Property>, t: Text, seen: set<Text>, at: nat)
    requires MembersSoFar(all, first, done, ParseMembers(t, seen), at)
    ensures var p := ParseMember(t, seen);
            if p.Failed? then all == Failed(p.error)
            else
              var u := p.rest;
              var properties := done + [PropertyNode(p.value, at)];
              if u != [] && u[0] == CLOSE_BRACE then
                all.Got? && all.rest == u[1..] && PropertyNodes(all.value, first) == properties
              else if u == [] || u[0] != COMMA then all == Failed(Malformed(ExpectedObjectSeparator, |u| - 1))
              else
                var v := CutSpace(u[1..]).tail;
                MembersSoFar(all, first, properties, ParseMembers(v, seen + {Decoded(p.value.key)}), at + (|t| - |v|))
  {
    hide ParseMember, PropertyNode, CutSpace, MemberText;
    MemberSound(t, seen);
    var member := ParseMember(t, seen);
    if member.Got? {
      var u := member.rest;
      if u != [] && u[0] == COMMA {
        var v := CutSpace(u[1..]).tail;
        var more := ParseMembers(v, seen + {Decoded(member.value.key)});
        if more.Got? {
          assert done + ([PropertyNode(member.value, at)] + PropertyNodes(more.value, at + (|t| - |v|)))
              == done + [PropertyNode(member.value, at)] + PropertyNodes(more.value, at + (|t| - |v|));
        }
      }
    }
  }

  lemma ObjectAgrees(source: Text, start: nat, end: nat, properties: seq<Property>)
    requires start < |source| && source[start] == OPEN_BRACE
    requires ParseObject(source[start..]).Got? && end <= |source| && source[end..] == ParseObject(source[start..]).rest
    requires match ParseObject(source[start..]).value
             case EmptyObject(_) => properties == []
             case Object(open, members) => properties == PropertyNodes(members, start + 1 + |open|)
             case _ => false
    ensures Agrees(ParseObject(source[start..]), source, start, end, Ok(ObjectNode(properties, start, end)))
  {
    hide ParseObject, PropertyNodes, ValueText;
    ObjectSound(source[start..]);
    TokenAgrees(ParseObject(source[start..]), source, start, TreeOf(ParseObject(source[start..]).value, start));
  }

  // ---------------------------------------------------------------- the parser object

  class JsonSourceParser {
    const source: Text
    var offset: nat

    constructor (source: Text)
      ensures this.source == source && offset == 0
    {
      this.source := source;
      offset := 0;
    }

    /** `fail`: the offset at which the error is reported. */
    function Fail(kind: ParseError, at: nat): Malformed {
      Malformed(kind, |source| - at)
    }

    method Parse() returns (r: Result<Node>)
      requires offset == 0
      modifies this
      ensures r == ParseJson(source)
    {
      assert source[0..] == source;
      SkipWhitespace();
      r := ParseValue();
      if r.Ok? {
        SkipWhitespace();
        if offset != |source| {
          return Err(Fail(TrailingContent, offset));
        }
      }
    }

    method SkipWhitespace()
      requires offset <= |source|
      modifies this
      ensures old(offset) <= offset <= |source|
      ensures source[offset..] == CutSpace(source[old(offset)..]).tail
    {
      ghost var start := offset;
      while offset < |source| && IsSpace(source[offset])
        invariant start <= offset <= |source|
        invariant CutSpace(source[start..]).tail == CutSpace(source[offset..]).tail
      {
        assert source[offset..][1..] == source[offset + 1..];
        offset := offset + 1;
      }
    }

    method ParseValue() returns (r: Result<Node>)
      requires offset <= |source|
      modifies this
      ensures offset <= |source|
      ensures Agrees(JsonScanner.ParseValue(source[old(offset)..]), source, old(offset), offset, r)
      decreases |source| - offset, 0
    {
      if offset == |source| {
        r := ParseNumber();
      } else if source[offset] == OPEN_BRACE {
        r := ParseObject();
      } else if source[offset] == OPEN_BRACKET {
        r := ParseArray();
      } else if source[offset] == QUOTE {
        r := ParseString();
      } else if source[offset] == LOWER_T {
        r := ParseLiteral(True);
      } else if source[offset] == LOWER_F {
        r := ParseLiteral(False);
      } else if source[offset] == LOWER_N {
        r := ParseLiteral(Null);
      } else {
        r := ParseNumber();
      }
    }

    method ParseString() returns (r: Result<Node>)
      requires offset < |source| && source[offset] == QUOTE
      modifies this
      ensures offset <= |source|
      ensures match JsonScanner.ParseString(source[old(offset)..])
              case Got(body, rest) =>
                source[offset..] == rest && offset == old(offset) + |Quoted(body)| &&
                r == Ok(StringNode(Decoded(body), old(offset), offset))
              case Failed(error) => r == Err(error)
    {
      hide Decode, ScanString, JsonScanner.ParseString;
      var start := offset;
      StringFromScan(source, start);
      offset := offset + 1;
      var error := SkipBody();
      if error.Some? {
        return Err(error.value);
      }
      var value := Decode(source[start + 1..offset - 1]);
      if value.None? {
        return Err(Fail(BadStringToken, offset));
      }
      return Ok(StringNode(value.value, start, offset));
    }

    /** The scan for the closing quote, which moves past it. */
    method SkipBody() returns (error: Option<Malformed>)
      requires offset <= |source|
      modifies this
      ensures old(offset) <= offset <= |source|
      ensures match ScanString(source[old(offset)..])
              case Closed(length) => error == None && offset == old(offset) + length + 1
              case Open(e) => error == Some(e)
    {
      hide ScanString;
      ghost var start := offset;
      assert ScanString(source[start..]) == Further(0, ScanString(source[start..]));
      while offset < |source|
        invariant start <= offset <= |source|
        invariant ScanString(source[start..]) == Further(offset - start, ScanString(source[offset..]))
      {
        ScanStep(source, offset);
        var character := source[offset];
        if character == QUOTE {
          offset := offset + 1;
          return None;
        } else if character == BACKSLASH {
          if offset + 1 >= |source| {
            return Some(Fail(UnterminatedEscape, offset + 1));
          }
          offset := offset + 2;
        } else if character < 0x20 {
          return Some(Fail(UnescapedControl, offset + 1));
        } else {
          offset := offset + 1;
        }
      }
      ScanEmpty(source[offset..]);
      return Some(Fail(UnterminatedString, offset));
    }

    method ParseArray() returns (r: Result<Node>)
      requires offset < |source| && source[offset] == OPEN_BRACKET
      modifies this
      ensures offset <= |source|
      ensures Agrees(JsonScanner.ParseArray(source[old(offset)..]), source, old(offset), offset, r)
      decreases |source| - offset - 1, 2
    {
      hide JsonScanner.ParseItems, CutSpace, ItemNodes, TreeOf;
      var start := offset;
      offset := offset + 1;
      assert source[start..][1..] == source[start + 1..];
      SkipWhitespace();
      if offset < |source| && source[offset] == CLOSE_BRACKET {
        assert source[offset..][1..] == source[offset + 1..];
        offset := offset + 1;
        ArrayAgrees(source, start, offset, []);
        return Ok(ArrayNode([], start, offset));
      }
      var items := ParseElements();
      if items.Err? {
        return Err(items.error);
      }
      ArrayAgrees(source, start, offset, items.value);
      r := Ok(ArrayNode(items.value, start, offset));
    }

    /** The loop of `parseArray`. */
    method ParseElements() returns (r: Result<seq<Node>>)
      requires offset <= |source|
      modifies this
      ensures offset <= |source|
      ensures match ParseItems(source[old(offset)..])
              case Got(items, rest) => r == Ok(ItemNodes(items, old(offset))) && source[offset..] == rest
              case Failed(error) => r == Err(error)
      decreases |source| - offset, 1
    {
      hide JsonScanner.ParseValue, JsonScanner.ParseItems, CutSpace, ItemNodes, TreeOf, ItemsSoFar;
      var items: seq<Node> := [];
      ghost var first := offset;
      ghost var all := ParseItems(source[first..]);
      ItemsBegin(all, first);
      while true
        invariant first <= offset <= |source|
        invariant ItemsSoFar(all, first, items, ParseItems(source[offset..]), offset)
        decreases |source| - offset
      {
        ItemsStep(all, first, items, source[offset..], offset);
        var value := ParseValue();
        if value.Err? {
          return Err(value.error);
        }
        items := items + [value.value];
        SkipWhitespace();
        if offset < |source| && source[offset] == CLOSE_BRACKET {
          assert source[offset..][1..] == source[offset + 1..];
          offset := offset + 1;
          return Ok(items);
        }
        if offset == |source| || source[offset] != COMMA {
          return Err(Fail(ExpectedArraySeparator, offset + 1));
        }
        assert source[offset..][1..] == source[offset + 1..];
        offset := offset + 1;
        SkipWhitespace();
      }
    }

    method ParseObject() returns (r: Result<Node>)
      requires offset < |source| && source[offset] == OPEN_BRACE
      modifies this
      ensures offset <= |source|
      ensures Agrees(JsonScanner.ParseObject(source[old(offset)..]), source, old(offset), offset, r)
      decreases |source| - offset - 1, 2
    {
      hide JsonScanner.ParseMembers, CutSpace, PropertyNodes, TreeOf;
      var start := offset;
      offset := offset + 1;
      assert source[start..][1..] == source[start + 1..];
      SkipWhitespace();
      if offset < |source| && source[offset] == CLOSE_BRACE {
        assert source[offset..][1..] == source[offset + 1..];
        offset := offset + 1;
        ObjectAgrees(source, start, offset, []);
        return Ok(ObjectNode([], start, offset));
      }
      var properties := ParseProperties();
      if properties.Err? {
        return Err(properties.error);
      }
      ObjectAgrees(source, start, offset, properties.value);
      r := Ok(ObjectNode(properties.value, start, offset));
    }

    /** The loop of `parseObject`. */
    method ParseProperties() returns (r: Result<seq<Property>>)
      requires offset <= |source|
      modifies this
      ensures offset <= |source|
      ensures match ParseMembers(source[old(offset)..], {})
              case Got(members, rest) => r == Ok(PropertyNodes(members, old(offset))) && source[offset..] == rest
              case Failed(error) => r == Err(error)
      decreases |source| - offset, 1
    {
      hide JsonScanner.ParseMember, JsonScanner.ParseMembers, CutSpace, PropertyNodes, PropertyNode, TreeOf, MembersSoFar;
      var properties: seq<Property> := [];
      var keys: set<Text> := {};
      ghost var first := offset;
      ghost var all := ParseMembers(source[first..], {});
      MembersBegin(all, first);
      while true
        invariant first <= offset <= |source|
        invariant MembersSoFar(all, first, properties, ParseMembers(source[offset..], keys), offset)
        decreases |source| - offset
      {
        MembersStep(all, first, properties, source[offset..], keys, offset);
        var property := ParseProperty(keys);
        if property.Err? {
          return Err(property.error);
        }
        properties := properties + [property.value];
        keys := keys + {property.value.key.value};
        if offset < |source| && source[offset] == CLOSE_BRACE {
          assert source[offset..][1..] == source[offset + 1..];
          offset := offset + 1;
          return Ok(properties);
        }
        if offset == |source| || source[offset] != COMMA {
          return Err(Fail(ExpectedObjectSeparator, offset + 1));
        }
        assert source[offset..][1..] == source[offset + 1..];
        offset := offset + 1;
        SkipWhitespace();
      }
    }

    /** The part of the object loop from a key to the white space behind its value. */
    method ParseProperty(keys: set<Text>) returns (r: Result<Property>)
      requires offset <= |source|
      modifies this
      ensures offset <= |source|
      ensures match ParseMember(source[old(offset)..], keys)
              case Got(m, rest) =>
                r == Ok(PropertyNode(m, old(offset))) && offset > old(offset) && source[offset..] == rest &&
                r.value.key.StringNode? && r.value.key.value == Decoded(m.key)
              case Failed(error) => r == Err(error)
      decreases |source| - offset, 0
    {
      hide JsonScanner.ParseMemberValue, TreeOf, JsonScanner.ParseString;
      if offset == |source| || source[offset] != QUOTE {
        return Err(Fail(KeyNotString, offset));
      }
      ghost var body := JsonScanner.ParseString(source[offset..]);
      var key := ParseString();
      if key.Err? {
        return Err(key.error);
      }
      if key.value.value in keys {
        return Err(Fail(DuplicateKey, offset));
      }
      var value := ParsePropertyValue(body.value);
      if value.Err? {
        return Err(value.error);
      }
      r := Ok(Property(key.value, value.value));
    }

    method ParsePropertyValue(ghost key: Text) returns (r: Result<Node>)
      requires offset <= |source|
      modifies this
      ensures offset <= |source|
      ensures match ParseMemberValue(key, source[old(offset)..])
              case Got(m, rest) =>
                r == Ok(TreeOf(m.value, old(offset) + |m.beforeColon| + 1 + |m.afterColon|)) &&
                offset > old(offset) && source[offset..] == rest
              case Failed(error) => r == Err(error)
      decreases |source| - offset, 1
    {
      hide JsonScanner.ParseValue, CutSpace, TreeOf;
      SkipWhitespace();
      if offset == |source| || source[offset] != COLON {
        return Err(Fail(ExpectedColon, offset + 1));
      }
      assert source[offset..][1..] == source[offset + 1..];
      offset := offset + 1;
      SkipWhitespace();
      r := ParseValue();
      if r.Ok? {
        SkipWhitespace();
      }
    }

    method ParseLiteral(literal: Literal) returns (r: Result<Node>)
      requires offset <= |source|
      modifies this
      ensures offset <= |source|
      ensures Agrees(JsonScanner.ParseLiteral(literal, source[old(offset)..]), source, old(offset), offset, r)
    {
      var start, token := offset, LiteralText(literal);
      if |source| - offset < |token| || source[offset..offset + |token|] != token {
        assert |token| <= |source[offset..]| ==> source[offset..][..|token|] == source[offset..offset + |token|];
        return Err(Fail(InvalidLiteral, offset));
      }
      assert source[offset..][..|token|] == source[offset..offset + |token|];
      offset := offset + |token|;
      assert source[start..][|token|..] == source[offset..];
      r := Ok(if literal.Null? then NullNode(start, offset) else BooleanNode(literal.True?, start, offset));
    }

    method ParseNumber() returns (r: Result<Node>)
      requires offset <= |source|
      modifies this
      ensures offset <= |source|
      ensures Agrees(JsonScanner.ParseNumber(source[old(offset)..]), source, old(offset), offset, r)
    {
      hide JsonScanner.ParseNumber;
      var start := offset;
      var matched := JsonScanner.ParseNumber(source[offset..]);
      if matched.Failed? {
        return Err(matched.error);
      }
      TokenAgrees(matched, source, start, TreeOf(matched.value, start));
      offset := offset + |NumberText(matched.value.number)|;
      r := Ok(NumberNode(NumberText(matched.value.number), start, offset));
    }
  }
}
