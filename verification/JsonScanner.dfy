/** The recursive descent of `JsonSourceParser` as functions on the text that is still to be read,
    with the proof that it accepts exactly the grammar. */
module JsonScanner {
  import opened Options
  import opened JsonGrammar

  datatype ParseError =
    | TrailingContent
    | UnterminatedEscape
    | UnescapedControl
    | UnterminatedString
    | BadStringToken
    | KeyNotString
    | DuplicateKey
    | ExpectedColon
    | ExpectedObjectSeparator
    | ExpectedArraySeparator
    | InvalidLiteral
    | ExpectedValue

  /** What is wrong, and how much of the text lies behind the offset that is reported. An offset one past the end, where
      a separator was looked for, leaves -1. */
  datatype Malformed = Malformed(kind: ParseError, left: int)

  datatype Result<+T> = Ok(value: T) | Err(error: Malformed)

  /** A parsed piece of text and what is left behind it. */
  datatype Parsed<+T> = Got(value: T, rest: Text) | Failed(error: Malformed)

  /** A text cut in two. */
  datatype Cut = Cut(head: Text, tail: Text)

  /** `skipWhitespace`: the longest run of white space, and what follows it. */
  function CutSpace(t: Text): (c: Cut)
    ensures t == c.head + c.tail && AllSpace(c.head) && (c.tail != [] ==> !IsSpace(c.tail[0]))
  {
    if t == [] || !IsSpace(t[0]) then Cut([], t)
    else
      var c := CutSpace(t[1..]);
      Cut([t[0]] + c.head, c.tail)
  }

  function CutDigits(t: Text): (c: Cut)
    ensures t == c.head + c.tail && AllDigits(c.head) && (c.tail != [] ==> !IsDigit(c.tail[0]))
  {
    if t == [] || !IsDigit(t[0]) then Cut([], t)
    else
      var c := CutDigits(t[1..]);
      Cut([t[0]] + c.head, c.tail)
  }

  datatype Scan = Closed(length: nat) | Open(error: Malformed)

  function Further(n: nat, scan: Scan): Scan {
    if scan.Closed? then Closed(n + scan.length) else scan
  }

  /** The scan for the closing quote: an escaped character is skipped unseen. */
  function ScanString(t: Text): (r: Scan)
    ensures r.Closed? ==> r.length < |t| && t[r.length] == QUOTE
  {
    if t == [] then Open(Malformed(UnterminatedString, 0))
    else if t[0] == QUOTE then Closed(0)
    else if t[0] == BACKSLASH then if |t| == 1 then Open(Malformed(UnterminatedEscape, 0)) else Further(2, ScanString(t[2..]))
    else if t[0] < 0x20 then Open(Malformed(UnescapedControl, |t| - 1))
    else Further(1, ScanString(t[1..]))
  }

  function ParseString(t: Text): (r: Parsed<Text>)
    requires t != [] && t[0] == QUOTE
    ensures r.Got? ==> ValidString(r.value) && |r.rest| < |t| && t == Quoted(r.value) + r.rest
  {
    var scan := ScanString(t[1..]);
    if scan.Open? then Failed(scan.error)
    else
      var body := t[1..][..scan.length];
      assert t == Quoted(body) + t[scan.length + 2..];
      if Decode(body).None? then Failed(Malformed(BadStringToken, |t| - scan.length - 2)) else Got(body, t[scan.length + 2..])
  }

  function ParseLiteral(l: Literal, t: Text): (r: Parsed<Value>)
    ensures r.Got? ==> r.value == Lit(l) && |r.rest| < |t| && t == LiteralText(l) + r.rest
  {
    var n := |LiteralText(l)|;
    if n <= |t| && t[..n] == LiteralText(l) then Got(Lit(l), t[n..]) else Failed(Malformed(InvalidLiteral, |t|))
  }

  /** `(?:\.[0-9]+)?` */
  function ParseFraction(t: Text): (r: (Option<Text>, Text))
    ensures r.0.Some? ==> |r.0.value| > 0 && AllDigits(r.0.value)
    ensures t == FractionText(r.0) + r.1
  {
    if t != [] && t[0] == DOT && CutDigits(t[1..]).head != [] then
      var c := CutDigits(t[1..]);
      assert t == [DOT] + (c.head + c.tail);
      (Some(c.head), c.tail)
    else (None, t)
  }

  function ParseSign(t: Text): (r: (Option<Unit>, Text))
    ensures r.0.Some? ==> r.0.value == PLUS || r.0.value == MINUS
    ensures t == SignText(r.0) + r.1
  {
    if t != [] && (t[0] == PLUS || t[0] == MINUS) then (Some(t[0]), t[1..]) else (None, t)
  }

  /** `(?:[eE][+-]?[0-9]+)?` */
  function ParseExponent(t: Text): (r: (Option<Exponent>, Text))
    ensures r.0.Some? ==> ValidExponent(r.0.value)
    ensures t == ExponentText(r.0) + r.1
  {
    if t == [] || !(t[0] == LOWER_E || t[0] == UPPER_E) then (None, t)
    else
      var (sign, u) := ParseSign(t[1..]);
      var c := CutDigits(u);
      if c.head == [] then (None, t)
      else
        Append(SignText(sign), c.head, c.tail);
        Append([t[0]], SignText(sign) + c.head, c.tail);
        (Some(Exponent(t[0], sign, c.head)), c.tail)
  }

  function ParseWhole(t: Text): (r: Parsed<Text>)
    ensures r.Got? ==> ValidWhole(r.value) && t == r.value + r.rest
  {
    if t == [] || !IsDigit(t[0]) then Failed(Malformed(ExpectedValue, |t|))
    else if t[0] == ZERO then Got([ZERO], t[1..])
    else
      var c := CutDigits(t);
      Got(c.head, c.tail)
  }

  function ParseNumber(t: Text): (r: Parsed<Value>)
    ensures r.Got? ==> r.value.Num? && ValidNumber(r.value.number) && t == NumberText(r.value.number) + r.rest
  {
    var minus := t != [] && t[0] == MINUS;
    match ParseWhole(if minus then t[1..] else t)
    case Failed(_) => Failed(Malformed(ExpectedValue, |t|))
    case Got(whole, u) =>
      var (fraction, v) := ParseFraction(u);
      var (exponent, rest) := ParseExponent(v);
      Append(FractionText(fraction), ExponentText(exponent), rest);
      Append(whole, FractionText(fraction) + ExponentText(exponent), rest);
      assert minus ==> t == [MINUS] + t[1..];
      Append(if minus then [MINUS] else [], whole + (FractionText(fraction) + ExponentText(exponent)), rest);
      Got(Num(Number(minus, whole, fraction, exponent)), rest)
  }

  lemma Append(a: Text, b: Text, c: Text)
    ensures (a + b) + c == a + (b + c)
  {
  }

  function ParseValue(t: Text): (r: Parsed<Value>)
    ensures r.Got? ==> |r.rest| < |t|
    decreases |t|, 0
  {
    if t == [] then Failed(Malformed(ExpectedValue, |t|))
    else if t[0] == OPEN_BRACE then ParseObject(t)
    else if t[0] == OPEN_BRACKET then ParseArray(t)
    else if t[0] == QUOTE then
      match ParseString(t)
      case Got(body, rest) => Got(Str(body), rest)
      case Failed(error) => Failed(error)
    else if t[0] == LOWER_T then ParseLiteral(True, t)
    else if t[0] == LOWER_F then ParseLiteral(False, t)
    else if t[0] == LOWER_N then ParseLiteral(Null, t)
    else ParseNumber(t)
  }

  function ParseArray(t: Text): (r: Parsed<Value>)
    requires t != []
    ensures r.Got? ==> |r.rest| < |t|
    decreases |t| - 1, 2
  {
    var open := CutSpace(t[1..]);
    if open.tail != [] && open.tail[0] == CLOSE_BRACKET then Got(EmptyArray(open.head), open.tail[1..])
    else
      match ParseItems(open.tail)
      case Got(items, rest) => Got(Array(open.head, items), rest)
      case Failed(error) => Failed(error)
  }

  function ParseItems(t: Text): (r: Parsed<Items>)
    ensures r.Got? ==> |r.rest| < |t|
    decreases |t|, 1
  {
    match ParseValue(t)
    case Failed(error) => Failed(error)
    case Got(value, rest) =>
      var after := CutSpace(rest);
      var u := after.tail;
      if u != [] && u[0] == CLOSE_BRACKET then Got(LastItem(value, after.head), u[1..])
      else if u == [] || u[0] != COMMA then Failed(Malformed(ExpectedArraySeparator, |u| - 1))
      else
        var gap := CutSpace(u[1..]);
        match ParseItems(gap.tail)
        case Got(items, end) => Got(NextItem(value, after.head, gap.head, items), end)
        case Failed(error) => Failed(error)
  }

  function ParseObject(t: Text): (r: Parsed<Value>)
    requires t != []
    ensures r.Got? ==> |r.rest| < |t|
    decreases |t| - 1, 2
  {
    var open := CutSpace(t[1..]);
    if open.tail != [] && open.tail[0] == CLOSE_BRACE then Got(EmptyObject(open.head), open.tail[1..])
    else
      match ParseMembers(open.tail, {})
      case Got(members, rest) => Got(Object(open.head, members), rest)
      case Failed(error) => Failed(error)
  }

  /** The part of a member behind its key, with the white space after its value. */
  function ParseMemberValue(key: Text, t: Text): (r: Parsed<Member>)
    ensures r.Got? ==> |r.rest| < |t| && r.value.key == key
    decreases |t|, 1
  {
    var before := CutSpace(t);
    if before.tail == [] || before.tail[0] != COLON then Failed(Malformed(ExpectedColon, |before.tail| - 1))
    else
      var colon := CutSpace(before.tail[1..]);
      match ParseValue(colon.tail)
      case Failed(error) => Failed(error)
      case Got(value, end) =>
        var after := CutSpace(end);
        Got(Member(key, before.head, colon.head, value, after.head), after.tail)
  }

  function ParseMember(t: Text, seen: set<Text>): (r: Parsed<Member>)
    ensures r.Got? ==> |r.rest| < |t| && ValidString(r.value.key)
    decreases |t|, 0
  {
    if t == [] || t[0] != QUOTE then Failed(Malformed(KeyNotString, |t|))
    else
      match ParseString(t)
      case Failed(error) => Failed(error)
      case Got(key, rest) => if Decode(key).value in seen then Failed(Malformed(DuplicateKey, |rest|)) else ParseMemberValue(key, rest)
  }

  function ParseMembers(t: Text, seen: set<Text>): (r: Parsed<Members>)
    ensures r.Got? ==> |r.rest| < |t|
    decreases |t|, 1
  {
    match ParseMember(t, seen)
    case Failed(error) => Failed(error)
    case Got(member, u) =>
      if u != [] && u[0] == CLOSE_BRACE then Got(LastMember(member), u[1..])
      else if u == [] || u[0] != COMMA then Failed(Malformed(ExpectedObjectSeparator, |u| - 1))
      else
        var gap := CutSpace(u[1..]);
        match ParseMembers(gap.tail, seen + {Decode(member.key).value})
        case Got(members, end) => Got(NextMember(member, gap.head, members), end)
        case Failed(error) => Failed(error)
  }

  function ParseDocument(t: Text): Result<Document> {
    var lead := CutSpace(t);
    match ParseValue(lead.tail)
    case Failed(error) => Err(error)
    case Got(value, rest) =>
      var end := CutSpace(rest).tail;
      if end == [] then Ok(Document(lead.head, value, rest)) else Err(Malformed(TrailingContent, |end|))
  }

  // ---------------------------------------------------------------- soundness

  lemma {:induction false} ValueSound(t: Text)
    ensures var r := ParseValue(t); r.Got? ==> ValidValue(r.value) && t == ValueText(r.value) + r.rest
    decreases |t|, 0
  {
    if t != [] && t[0] == OPEN_BRACE {
      ObjectSound(t);
    } else if t != [] && t[0] == OPEN_BRACKET {
      ArraySound(t);
    }
  }

  lemma Enclose(t: Text, open: Text, inner: Text, rest: Text)
    requires t != [] && t[1..] == open + (inner + rest)
    ensures t == [t[0]] + (open + inner) + rest
  {
    Append(open, inner, rest);
    Append([t[0]], open + inner, rest);
  }

  lemma {:induction false} ArraySound(t: Text)
    requires t != [] && t[0] == OPEN_BRACKET
    ensures var r := ParseArray(t); r.Got? ==> ValidValue(r.value) && t == ValueText(r.value) + r.rest
    decreases |t| - 1, 2
  {
    var open := CutSpace(t[1..]);
    if open.tail != [] && open.tail[0] == CLOSE_BRACKET {
      Enclose(t, open.head, [CLOSE_BRACKET], open.tail[1..]);
    } else if ParseItems(open.tail).Got? {
      ItemsSound(open.tail);
      Enclose(t, open.head, ItemsText(ParseItems(open.tail).value), ParseItems(open.tail).rest);
    }
  }

  lemma {:induction false} ObjectSound(t: Text)
    requires t != [] && t[0] == OPEN_BRACE
    ensures var r := ParseObject(t); r.Got? ==> ValidValue(r.value) && t == ValueText(r.value) + r.rest
    decreases |t| - 1, 2
  {
    var open := CutSpace(t[1..]);
    if open.tail != [] && open.tail[0] == CLOSE_BRACE {
      Enclose(t, open.head, [CLOSE_BRACE], open.tail[1..]);
    } else if ParseMembers(open.tail, {}).Got? {
      MembersSound(open.tail, {});
      Enclose(t, open.head, MembersText(ParseMembers(open.tail, {}).value), ParseMembers(open.tail, {}).rest);
    }
  }

  lemma {:induction false} ItemsSound(t: Text)
    ensures var r := ParseItems(t); r.Got? ==> ValidItems(r.value) && t == ItemsText(r.value) + r.rest
    decreases |t|, 1
  {
    hide ParseValue, ValueText, CutSpace;
    var r := ParseItems(t);
    if r.Got? {
      ValueSound(t);
      var value := ValueText(r.value.value);
      var after := CutSpace(ParseValue(t).rest);
      var u := after.tail;
      var end;
      if r.value.LastItem? {
        end := [CLOSE_BRACKET];
        assert u == end + r.rest;
      } else {
        var gap := CutSpace(u[1..]);
        ItemsSound(gap.tail);
        var items := ItemsText(r.value.rest);
        end := [COMMA] + (gap.head + items);
        Append(gap.head, items, r.rest);
        Append([COMMA], gap.head + items, r.rest);
        assert u == [COMMA] + u[1..];
      }
      Append(after.head, end, r.rest);
      Append(value, after.head + end, r.rest);
    }
  }

  lemma MemberGlue(m: Member, t: Text, colon: Text, value: Text, end: Text, r: Text)
    requires t == m.beforeColon + colon
    requires colon != [] && colon[0] == COLON && colon[1..] == m.afterColon + value
    requires value == ValueText(m.value) + end && end == m.after + r
    ensures Quoted(m.key) + t == MemberText(m) + r
  {
    var v := ValueText(m.value);
    assert colon == [COLON] + colon[1..];
    Append(v, m.after, r);
    Append(m.afterColon, v + m.after, r);
    Append([COLON], m.afterColon + (v + m.after), r);
    Append(m.beforeColon, [COLON] + (m.afterColon + (v + m.after)), r);
    Append(Quoted(m.key), m.beforeColon + ([COLON] + (m.afterColon + (v + m.after))), r);
  }

  lemma {:induction false} MemberValueSound(key: Text, t: Text)
    requires ValidString(key)
    ensures var r := ParseMemberValue(key, t); r.Got? ==> ValidMember(r.value) && Quoted(key) + t == MemberText(r.value) + r.rest
    decreases |t|, 1
  {
    hide ParseValue, ValueText, CutSpace;
    var r := ParseMemberValue(key, t);
    if r.Got? {
      var before := CutSpace(t);
      var colon := CutSpace(before.tail[1..]);
      ValueSound(colon.tail);
      MemberGlue(r.value, t, before.tail, colon.tail, ParseValue(colon.tail).rest, r.rest);
    }
  }

  lemma {:induction false} MemberSound(t: Text, seen: set<Text>)
    ensures var r := ParseMember(t, seen);
            r.Got? ==> ValidMember(r.value) && Decode(r.value.key).value !in seen && t == MemberText(r.value) + r.rest
    decreases |t|, 0
  {
    if ParseMember(t, seen).Got? {
      MemberValueSound(ParseString(t).value, ParseString(t).rest);
    }
  }

  lemma {:induction false} MembersSound(t: Text, seen: set<Text>)
    ensures var r := ParseMembers(t, seen); r.Got? ==> ValidMembers(r.value, seen) && t == MembersText(r.value) + r.rest
    decreases |t|, 1
  {
    hide ParseMember, MemberText, CutSpace;
    var r := ParseMembers(t, seen);
    if r.Got? {
      MemberSound(t, seen);
      var m := r.value.member;
      var u := ParseMember(t, seen).rest;
      assert u == [u[0]] + u[1..];
      if r.value.LastMember? {
        Append(MemberText(m), [CLOSE_BRACE], r.rest);
      } else {
        var gap := CutSpace(u[1..]);
        MembersSound(gap.tail, seen + {Decode(m.key).value});
        var members := MembersText(r.value.rest);
        Append(gap.head, members, r.rest);
        Append([COMMA], gap.head + members, r.rest);
        Append(MemberText(m), [COMMA] + (gap.head + members), r.rest);
      }
    }
  }

  // ---------------------------------------------------------------- completeness

  lemma {:induction false} CutSpaceOf(w: Text, r: Text)
    requires AllSpace(w) && (r != [] ==> !IsSpace(r[0]))
    ensures CutSpace(w + r) == Cut(w, r)
  {
    if w == [] {
      assert w + r == r;
    } else {
      CutSpaceOf(w[1..], r);
      assert (w + r)[1..] == w[1..] + r;
      assert w == [w[0]] + w[1..];
    }
  }

  lemma {:induction false} CutDigitsOf(d: Text, r: Text)
    requires AllDigits(d) && (r != [] ==> !IsDigit(r[0]))
    ensures CutDigits(d + r) == Cut(d, r)
  {
    if d == [] {
      assert d + r == r;
    } else {
      CutDigitsOf(d[1..], r);
      assert (d + r)[1..] == d[1..] + r;
      assert d == [d[0]] + d[1..];
    }
  }

  lemma {:induction false} ScanOfValid(body: Text, r: Text)
    requires ValidString(body)
    ensures ScanString(body + ([QUOTE] + r)) == Closed(|body|)
    decreases |body|
  {
    var t := body + ([QUOTE] + r);
    if body == [] {
    } else if body[0] == BACKSLASH {
      assert t[2..] == body[2..] + ([QUOTE] + r);
      if |body| >= 6 && body[1] == LOWER_U && AllHex(body[2..6]) {
        ScanOfValid(body[6..], r);
        var four := body[2..];
        forall k | 2 <= k < 6
          ensures t[k] != QUOTE && t[k] != BACKSLASH && t[k] >= 0x20
        {
          assert body[2..6][k - 2] == t[k];
          assert HexValue(body[2..6][k - 2]).Some?;
        }
        ScanPlain(t[2..], 4);
        assert t[2..][4..] == body[6..] + ([QUOTE] + r);
      } else {
        ScanOfValid(body[2..], r);
      }
    } else {
      ScanOfValid(body[1..], r);
      assert t[1..] == body[1..] + ([QUOTE] + r);
    }
  }

  lemma {:induction false} ScanPlain(t: Text, n: nat)
    requires n <= |t| && forall k | 0 <= k < n :: t[k] != QUOTE && t[k] != BACKSLASH && t[k] >= 0x20
    ensures ScanString(t[n..]).Closed? ==> ScanString(t) == Closed(n + ScanString(t[n..]).length)
  {
    if n > 0 {
      ScanPlain(t[1..], n - 1);
      assert t[1..][n - 1..] == t[n..];
    } else {
      assert t[0..] == t;
    }
  }

  lemma StringComplete(body: Text, r: Text)
    requires ValidString(body)
    ensures ParseString(Quoted(body) + r) == Got(body, r)
  {
    var t := Quoted(body) + r;
    assert t[1..] == body + ([QUOTE] + r);
    ScanOfValid(body, r);
    assert t[1..][..|body|] == body;
    assert t[|body| + 2..] == r;
  }

  /** What may stand behind a value: nothing, white space, or a separator or closing bracket. */
  predicate Stops(r: Text) {
    r == [] || IsSpace(r[0]) || r[0] == COMMA || r[0] == CLOSE_BRACKET || r[0] == CLOSE_BRACE
  }

  lemma Tail(u: Unit, r: Text)
    ensures ([u] + r)[0] == u && ([u] + r)[1..] == r
  {
  }

  lemma FractionComplete(f: Option<Text>, r: Text)
    requires f.Some? ==> |f.value| > 0 && AllDigits(f.value)
    requires r != [] ==> !IsDigit(r[0]) && r[0] != DOT
    ensures ParseFraction(FractionText(f) + r) == (f, r)
  {
    if f.Some? {
      Append([DOT], f.value, r);
      Tail(DOT, f.value + r);
      CutDigitsOf(f.value, r);
    } else {
      assert FractionText(f) + r == r;
    }
  }

  lemma SignComplete(s: Option<Unit>, r: Text)
    requires s.Some? ==> s.value == PLUS || s.value == MINUS
    requires r != [] && IsDigit(r[0])
    ensures ParseSign(SignText(s) + r) == (s, r)
  {
    if s.Some? {
      Tail(s.value, r);
    } else {
      assert SignText(s) + r == r;
    }
  }

  lemma ExponentComplete(e: Option<Exponent>, r: Text)
    requires (e.Some? ==> ValidExponent(e.value)) && Stops(r)
    ensures ParseExponent(ExponentText(e) + r) == (e, r)
  {
    if e.Some? {
      var x := e.value;
      var s := SignText(x.sign);
      Append([x.marker], s + x.digits, r);
      Append(s, x.digits, r);
      Tail(x.marker, s + (x.digits + r));
      CutDigitsOf(x.digits, r);
      assert IsDigit(x.digits[0]) && (x.digits + r)[0] == x.digits[0];
      SignComplete(x.sign, x.digits + r);
    } else {
      assert ExponentText(e) + r == r;
    }
  }

  lemma WholeComplete(w: Text, r: Text)
    requires ValidWhole(w) && (r != [] ==> !IsDigit(r[0]))
    ensures ParseWhole(w + r) == Got(w, r)
  {
    assert IsDigit(w[0]) && (w + r)[0] == w[0];
    if w[0] == ZERO {
      assert w == [ZERO];
      Tail(ZERO, r);
    } else {
      CutDigitsOf(w, r);
    }
  }

  lemma NumberComplete(n: Number, r: Text)
    requires ValidNumber(n) && Stops(r)
    ensures ParseNumber(NumberText(n) + r) == Got(Num(n), r)
  {
    var f, e := FractionText(n.fraction), ExponentText(n.exponent);
    var sign := if n.minus then [MINUS] else [];
    var u := n.whole + (f + (e + r));
    Append(sign, n.whole + (f + e), r);
    Append(n.whole, f + e, r);
    Append(f, e, r);
    if n.minus {
      Tail(MINUS, u);
    } else {
      assert sign + u == u;
      assert IsDigit(n.whole[0]) && u[0] == n.whole[0];
    }
    ExponentComplete(n.exponent, r);
    FractionComplete(n.fraction, e + r);
    WholeComplete(n.whole, f + (e + r));
  }

  lemma ValueStart(v: Value)
    requires ValidValue(v)
    ensures ValueText(v) != [] && !IsSpace(ValueText(v)[0])
    ensures ValueText(v)[0] != CLOSE_BRACKET && ValueText(v)[0] != CLOSE_BRACE
  {
    if v.Num? {
      assert IsDigit(v.number.whole[0]);
    }
  }

  lemma ItemsStart(items: Items)
    requires ValidItems(items)
    ensures ItemsText(items) != [] && !IsSpace(ItemsText(items)[0]) && ItemsText(items)[0] != CLOSE_BRACKET
  {
    ValueStart(items.value);
  }

  lemma {:induction false} ValueComplete(v: Value, r: Text)
    requires ValidValue(v) && Stops(r)
    ensures ParseValue(ValueText(v) + r) == Got(v, r)
    decreases v
  {
    match v
    case Str(body) => StringComplete(body, r);
    case Num(number) =>
      NumberComplete(number, r);
      assert IsDigit(number.whole[0]);
      assert (ValueText(v) + r)[0] == ValueText(v)[0];
    case Lit(literal) =>
      var t := ValueText(v) + r;
      assert t[..|LiteralText(literal)|] == LiteralText(literal) && t[|LiteralText(literal)|..] == r;
    case EmptyArray(inside) => ArrayComplete(v, inside, [CLOSE_BRACKET], r);
    case Array(open, items) => ArrayComplete(v, open, ItemsText(items), r);
    case EmptyObject(inside) => ObjectComplete(v, inside, [CLOSE_BRACE], r);
    case Object(open, members) => ObjectComplete(v, open, MembersText(members), r);
  }

  lemma {:induction false} ArrayComplete(v: Value, open: Text, inner: Text, r: Text)
    requires (v == EmptyArray(open) && inner == [CLOSE_BRACKET]) || (v.Array? && v.open == open && inner == ItemsText(v.items))
    requires ValidValue(v)
    ensures ParseArray(ValueText(v) + r) == Got(v, r) && (ValueText(v) + r)[0] == OPEN_BRACKET
    decreases v, 0
  {
    Append([OPEN_BRACKET], open + inner, r);
    Append(open, inner, r);
    Tail(OPEN_BRACKET, open + (inner + r));
    if v.Array? {
      ItemsStart(v.items);
      ItemsComplete(v.items, r);
    } else {
      Tail(CLOSE_BRACKET, r);
    }
    assert (inner + r)[0] == inner[0];
    CutSpaceOf(open, inner + r);
  }

  lemma {:induction false} ObjectComplete(v: Value, open: Text, inner: Text, r: Text)
    requires (v == EmptyObject(open) && inner == [CLOSE_BRACE]) || (v.Object? && v.open == open && inner == MembersText(v.members))
    requires ValidValue(v)
    ensures ParseObject(ValueText(v) + r) == Got(v, r) && (ValueText(v) + r)[0] == OPEN_BRACE
    decreases v, 0
  {
    Append([OPEN_BRACE], open + inner, r);
    Append(open, inner, r);
    Tail(OPEN_BRACE, open + (inner + r));
    if v.Object? {
      MembersStart(v.members);
      MembersComplete(v.members, {}, r);
    } else {
      Tail(CLOSE_BRACE, r);
    }
    assert (inner + r)[0] == inner[0];
    CutSpaceOf(open, inner + r);
  }

  lemma {:induction false} ItemsComplete(items: Items, r: Text)
    requires ValidItems(items)
    ensures ParseItems(ItemsText(items) + r) == Got(items, r)
    decreases items
  {
    hide ValueText, CutSpace, ParseValue;
    var value, after := ValueText(items.value), items.after;
    var end;
    if items.LastItem? {
      end := [CLOSE_BRACKET];
      Tail(CLOSE_BRACKET, r);
    } else {
      var gap, rest := items.gap, ItemsText(items.rest);
      end := [COMMA] + (gap + rest);
      Append([COMMA], gap + rest, r);
      Append(gap, rest, r);
      Tail(COMMA, gap + (rest + r));
      ItemsStart(items.rest);
      assert (rest + r)[0] == rest[0];
      CutSpaceOf(gap, rest + r);
      ItemsComplete(items.rest, r);
    }
    Append(value, after + end, r);
    Append(after, end, r);
    ValueComplete(items.value, after + (end + r));
    CutSpaceOf(after, end + r);
  }

  lemma {:induction false} MemberComplete(m: Member, seen: set<Text>, r: Text)
    requires ValidMember(m) && Decode(m.key).value !in seen
    requires r != [] && (r[0] == COMMA || r[0] == CLOSE_BRACE)
    ensures ParseMember(MemberText(m) + r, seen) == Got(m, r)
    decreases m
  {
    hide ValueText, Decode, CutSpace, ParseValue, ParseString;
    var before, colon, value, after := m.beforeColon, m.afterColon, ValueText(m.value), m.after;
    var tail := colon + (value + (after + r));
    Tail(COLON, tail);
    MemberGlue(m, before + ([COLON] + tail), [COLON] + tail, value + (after + r), after + r, r);
    StringComplete(m.key, before + ([COLON] + tail));
    CutSpaceOf(before, [COLON] + tail);
    ValueStart(m.value);
    assert (value + (after + r))[0] == value[0];
    CutSpaceOf(colon, value + (after + r));
    ValueComplete(m.value, after + r);
    CutSpaceOf(after, r);
  }

  lemma {:induction false} MembersComplete(members: Members, seen: set<Text>, r: Text)
    requires ValidMembers(members, seen)
    ensures ParseMembers(MembersText(members) + r, seen) == Got(members, r)
    decreases members
  {
    hide MemberText, CutSpace, ParseMember;
    var m := members.member;
    if members.LastMember? {
      Append(MemberText(m), [CLOSE_BRACE], r);
      Tail(CLOSE_BRACE, r);
      MemberComplete(m, seen, [CLOSE_BRACE] + r);
    } else {
      var gap, rest := members.gap, MembersText(members.rest);
      Append(MemberText(m), [COMMA] + (gap + rest), r);
      Append([COMMA], gap + rest, r);
      Append(gap, rest, r);
      Tail(COMMA, gap + (rest + r));
      MemberComplete(m, seen, [COMMA] + (gap + (rest + r)));
      MembersStart(members.rest);
      assert (rest + r)[0] == rest[0];
      CutSpaceOf(gap, rest + r);
      MembersComplete(members.rest, seen + {Decode(m.key).value}, r);
    }
  }

  lemma MembersStart(members: Members)
    ensures MembersText(members) != [] && MembersText(members)[0] == QUOTE
  {
    assert MemberText(members.member)[0] == QUOTE;
  }

  // ---------------------------------------------------------------- the grammar is accepted exactly

  lemma DocumentSound(t: Text)
    requires ParseDocument(t).Ok?
    ensures ValidDocument(ParseDocument(t).value) && DocumentText(ParseDocument(t).value) == t
  {
    ValueSound(CutSpace(t).tail);
  }

  lemma DocumentComplete(d: Document)
    requires ValidDocument(d)
    ensures ParseDocument(DocumentText(d)) == Ok(d)
  {
    ValueStart(d.value);
    assert (ValueText(d.value) + d.trail)[0] == ValueText(d.value)[0];
    CutSpaceOf(d.lead, ValueText(d.value) + d.trail);
    ValueComplete(d.value, d.trail);
    CutSpaceOf(d.trail, []);
    assert d.trail + [] == d.trail;
  }

  /** The parser accepts a text exactly when the grammar derives it without a repeated key, and the
      derivation it finds is the only one. */
  lemma AcceptsExactlyTheGrammar(t: Text)
    ensures ParseDocument(t).Ok? <==> exists d :: ValidDocument(d) && DocumentText(d) == t
    ensures forall d, e :: ValidDocument(d) && ValidDocument(e) && DocumentText(d) == DocumentText(e) ==> d == e
  {
    if ParseDocument(t).Ok? {
      DocumentSound(t);
    }
    forall d | ValidDocument(d) && DocumentText(d) == t
      ensures ParseDocument(t).Ok?
    {
      DocumentComplete(d);
    }
    forall d, e | ValidDocument(d) && ValidDocument(e) && DocumentText(d) == DocumentText(e)
      ensures d == e
    {
      DocumentComplete(d);
      DocumentComplete(e);
    }
  }
}
