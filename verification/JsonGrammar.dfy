/** The grammar of JSON text (RFC 8259, sections 2 and 4 to 7) as concrete syntax trees.

    Text is a sequence of UTF-16 code units, which is what a JavaScript string is. A syntax tree keeps
    every character, white space included, so that rendering a tree gives back its source text; nothing
    in this module knows how text is scanned. */
module JsonGrammar {
  import opened Options

  type Unit = n: int | 0 <= n < 0x1_0000
  type Text = seq<Unit>

  const TAB: Unit := 0x09
  const LINE_FEED: Unit := 0x0A
  const CARRIAGE_RETURN: Unit := 0x0D
  const SPACE: Unit := 0x20
  const QUOTE: Unit := 0x22
  const PLUS: Unit := 0x2B
  const COMMA: Unit := 0x2C
  const MINUS: Unit := 0x2D
  const DOT: Unit := 0x2E
  const ZERO: Unit := 0x30
  const COLON: Unit := 0x3A
  const UPPER_E: Unit := 0x45
  const OPEN_BRACKET: Unit := 0x5B
  const BACKSLASH: Unit := 0x5C
  const CLOSE_BRACKET: Unit := 0x5D
  const LOWER_E: Unit := 0x65
  const LOWER_F: Unit := 0x66
  const LOWER_N: Unit := 0x6E
  const LOWER_T: Unit := 0x74
  const LOWER_U: Unit := 0x75
  const OPEN_BRACE: Unit := 0x7B
  const CLOSE_BRACE: Unit := 0x7D

  predicate IsSpace(u: Unit) {
    u == SPACE || u == TAB || u == CARRIAGE_RETURN || u == LINE_FEED
  }

  predicate IsDigit(u: Unit) {
    ZERO <= u <= ZERO + 9
  }

  predicate AllSpace(t: Text) {
    forall i | 0 <= i < |t| :: IsSpace(t[i])
  }

  predicate AllDigits(t: Text) {
    forall i | 0 <= i < |t| :: IsDigit(t[i])
  }

  // ---------------------------------------------------------------- string tokens

  function HexValue(u: Unit): Option<nat> {
    if ZERO <= u <= ZERO + 9 then Some(u - ZERO)
    else if 0x41 <= u <= 0x46 then Some(u - 0x41 + 10)
    else if 0x61 <= u <= 0x66 then Some(u - 0x61 + 10)
    else None
  }

  function HexDigit(d: nat): Unit
    requires d < 16
  {
    if d < 10 then ZERO + d else 0x61 + d - 10
  }

  predicate AllHex(t: Text) {
    forall i | 0 <= i < |t| :: HexValue(t[i]).Some?
  }

  function HexUnit(t: Text): Unit
    requires |t| == 4 && AllHex(t)
  {
    HexValue(t[0]).value * 0x1000 + HexValue(t[1]).value * 0x100 + HexValue(t[2]).value * 0x10 + HexValue(t[3]).value
  }

  /** The code unit named by a two-character escape, by the character after the backslash. */
  function ShortEscape(u: Unit): Option<Unit> {
    if u == QUOTE || u == BACKSLASH || u == 0x2F then Some(u)
    else if u == 0x62 then Some(0x08)
    else if u == LOWER_F then Some(0x0C)
    else if u == LOWER_N then Some(LINE_FEED)
    else if u == 0x72 then Some(CARRIAGE_RETURN)
    else if u == LOWER_T then Some(TAB)
    else None
  }

  function Prepend(u: Unit, t: Option<Text>): Option<Text> {
    if t.Some? then Some([u] + t.value) else None
  }

  /** What `JSON.parse` makes of the text between the quotes of a string token; None when it throws. */
  function Decode(body: Text): Option<Text> {
    if body == [] then Some([])
    else if body[0] == BACKSLASH then
      if |body| >= 6 && body[1] == LOWER_U && AllHex(body[2..6]) then Prepend(HexUnit(body[2..6]), Decode(body[6..]))
      else if |body| >= 2 && ShortEscape(body[1]).Some? then Prepend(ShortEscape(body[1]).value, Decode(body[2..]))
      else None
    else if body[0] == QUOTE || body[0] < 0x20 then None
    else Prepend(body[0], Decode(body[1..]))
  }

  function UnicodeEscape(u: Unit): Text {
    var r := u % 0x1000;
    var q := r % 0x100;
    [BACKSLASH, LOWER_U, HexDigit(u / 0x1000), HexDigit(r / 0x100), HexDigit(q / 0x10), HexDigit(q % 0x10)]
  }

  predicate HighSurrogate(u: Unit) {
    0xD800 <= u < 0xDC00
  }

  predicate LowSurrogate(u: Unit) {
    0xDC00 <= u < 0xE000
  }

  /** How `JSON.stringify` writes one code unit that is not half of a surrogate pair. */
  function EscapeUnit(u: Unit): Text {
    if u == QUOTE || u == BACKSLASH then [BACKSLASH, u]
    else if u == 0x08 then [BACKSLASH, 0x62]
    else if u == TAB then [BACKSLASH, LOWER_T]
    else if u == LINE_FEED then [BACKSLASH, LOWER_N]
    else if u == 0x0C then [BACKSLASH, LOWER_F]
    else if u == CARRIAGE_RETURN then [BACKSLASH, 0x72]
    else if u < 0x20 || HighSurrogate(u) || LowSurrogate(u) then UnicodeEscape(u)
    else [u]
  }

  /** The text `JSON.stringify` writes between the quotes for a string value. */
  function Escape(value: Text): Text {
    if value == [] then []
    else if |value| >= 2 && HighSurrogate(value[0]) && LowSurrogate(value[1]) then value[..2] + Escape(value[2..])
    else EscapeUnit(value[0]) + Escape(value[1..])
  }

  function Quoted(body: Text): Text {
    [QUOTE] + body + [QUOTE]
  }

  /** `JSON.stringify` of a string. */
  function Stringify(value: Text): Text {
    Quoted(Escape(value))
  }

  lemma HexDigitValue(d: nat)
    requires d < 16
    ensures HexValue(HexDigit(d)) == Some(d)
  {
  }

  lemma HexUnitOfEscape(u: Unit)
    ensures var e := UnicodeEscape(u); AllHex(e[2..6]) && HexUnit(e[2..6]) == u
  {
    var r := u % 0x1000;
    var q := r % 0x100;
    HexDigitValue(u / 0x1000);
    HexDigitValue(r / 0x100);
    HexDigitValue(q / 0x10);
    HexDigitValue(q % 0x10);
    assert UnicodeEscape(u)[2..6] == [HexDigit(u / 0x1000), HexDigit(r / 0x100), HexDigit(q / 0x10), HexDigit(q % 0x10)];
  }

  lemma DecodeEscapedUnit(u: Unit, rest: Text)
    ensures Decode(EscapeUnit(u) + rest) == Prepend(u, Decode(rest))
  {
    var e := EscapeUnit(u);
    var t := e + rest;
    assert t[|e|..] == rest;
    if |e| == 6 {
      HexUnitOfEscape(u);
      assert t[2..6] == e[2..6];
    } else if |e| == 2 {
      assert t[2..] == rest;
      assert t[0] == BACKSLASH && t[1] == e[1] && t[1] != LOWER_U;
    } else {
      assert t[0] == u && t[1..] == rest;
    }
  }

  /** Writing a string with `JSON.stringify` and reading it back gives the same string, for every string. */
  lemma {:induction false} DecodeOfEscape(value: Text)
    ensures Decode(Escape(value)) == Some(value)
  {
    if value == [] {
    } else if |value| >= 2 && HighSurrogate(value[0]) && LowSurrogate(value[1]) {
      DecodeOfEscape(value[2..]);
      var t := value[..2] + Escape(value[2..]);
      assert t[1..] == [value[1]] + Escape(value[2..]);
      assert t[1..][1..] == Escape(value[2..]);
      assert Decode(t[1..]) == Prepend(value[1], Some(value[2..]));
      assert value == [value[0]] + ([value[1]] + value[2..]);
    } else {
      DecodeOfEscape(value[1..]);
      DecodeEscapedUnit(value[0], Escape(value[1..]));
      assert value == [value[0]] + value[1..];
    }
  }

  // ---------------------------------------------------------------- number tokens

  datatype Exponent = Exponent(marker: Unit, sign: Option<Unit>, digits: Text)

  datatype Number = Number(minus: bool, whole: Text, fraction: Option<Text>, exponent: Option<Exponent>)

  predicate ValidWhole(t: Text) {
    |t| > 0 && AllDigits(t) && (t[0] == ZERO ==> |t| == 1)
  }

  predicate ValidExponent(e: Exponent) {
    && (e.marker == LOWER_E || e.marker == UPPER_E)
    && (e.sign.Some? ==> e.sign.value == PLUS || e.sign.value == MINUS)
    && |e.digits| > 0 && AllDigits(e.digits)
  }

  predicate ValidNumber(n: Number) {
    && ValidWhole(n.whole)
    && (n.fraction.Some? ==> |n.fraction.value| > 0 && AllDigits(n.fraction.value))
    && (n.exponent.Some? ==> ValidExponent(n.exponent.value))
  }

  function FractionText(f: Option<Text>): Text {
    if f.Some? then [DOT] + f.value else []
  }

  function SignText(s: Option<Unit>): Text {
    if s.Some? then [s.value] else []
  }

  function ExponentText(e: Option<Exponent>): Text {
    if e.Some? then [e.value.marker] + (SignText(e.value.sign) + e.value.digits) else []
  }

  function NumberText(n: Number): Text {
    (if n.minus then [MINUS] else []) + (n.whole + (FractionText(n.fraction) + ExponentText(n.exponent)))
  }

  // ---------------------------------------------------------------- values and documents

  datatype Literal = True | False | Null

  function LiteralText(l: Literal): Text {
    match l
    case True => [LOWER_T, 0x72, LOWER_U, LOWER_E]
    case False => [LOWER_F, 0x61, 0x6C, 0x73, LOWER_E]
    case Null => [LOWER_N, LOWER_U, 0x6C, 0x6C]
  }

  datatype Value =
    | Str(body: Text)
    | Num(number: Number)
    | Lit(literal: Literal)
    | EmptyArray(inside: Text)
    | Array(open: Text, items: Items)
    | EmptyObject(inside: Text)
    | Object(open: Text, members: Members)

  datatype Items =
    | LastItem(value: Value, after: Text)
    | NextItem(value: Value, after: Text, gap: Text, rest: Items)

  datatype Member = Member(key: Text, beforeColon: Text, afterColon: Text, value: Value, after: Text)

  datatype Members =
    | LastMember(member: Member)
    | NextMember(member: Member, gap: Text, rest: Members)

  datatype Document = Document(lead: Text, value: Value, trail: Text)

  function ValueText(v: Value): Text {
    match v
    case Str(body) => Quoted(body)
    case Num(number) => NumberText(number)
    case Lit(literal) => LiteralText(literal)
    case EmptyArray(inside) => [OPEN_BRACKET] + (inside + [CLOSE_BRACKET])
    case Array(open, items) => [OPEN_BRACKET] + (open + ItemsText(items))
    case EmptyObject(inside) => [OPEN_BRACE] + (inside + [CLOSE_BRACE])
    case Object(open, members) => [OPEN_BRACE] + (open + MembersText(members))
  }

  /** Items up to and including the closing bracket. */
  function ItemsText(items: Items): Text {
    match items
    case LastItem(value, after) => ValueText(value) + (after + [CLOSE_BRACKET])
    case NextItem(value, after, gap, rest) => ValueText(value) + (after + ([COMMA] + (gap + ItemsText(rest))))
  }

  function MemberText(m: Member): Text {
    Quoted(m.key) + (m.beforeColon + ([COLON] + (m.afterColon + (ValueText(m.value) + m.after))))
  }

  /** Members up to and including the closing brace. */
  function MembersText(members: Members): Text {
    match members
    case LastMember(member) => MemberText(member) + [CLOSE_BRACE]
    case NextMember(member, gap, rest) => MemberText(member) + ([COMMA] + (gap + MembersText(rest)))
  }

  function DocumentText(d: Document): Text {
    d.lead + (ValueText(d.value) + d.trail)
  }

  predicate ValidString(body: Text) {
    Decode(body).Some?
  }

  predicate ValidValue(v: Value) {
    match v
    case Str(body) => ValidString(body)
    case Num(number) => ValidNumber(number)
    case Lit(_) => true
    case EmptyArray(inside) => AllSpace(inside)
    case Array(open, items) => AllSpace(open) && ValidItems(items)
    case EmptyObject(inside) => AllSpace(inside)
    case Object(open, members) => AllSpace(open) && ValidMembers(members, {})
  }

  predicate ValidItems(items: Items) {
    match items
    case LastItem(value, after) => ValidValue(value) && AllSpace(after)
    case NextItem(value, after, gap, rest) => ValidValue(value) && AllSpace(after) && AllSpace(gap) && ValidItems(rest)
  }

  predicate ValidMember(m: Member) {
    ValidString(m.key) && AllSpace(m.beforeColon) && AllSpace(m.afterColon) && ValidValue(m.value) && AllSpace(m.after)
  }

  /** Well-formed members whose decoded keys repeat neither each other nor a key in `seen`. */
  predicate ValidMembers(members: Members, seen: set<Text>) {
    && ValidMember(members.member)
    && Decode(members.member.key).value !in seen
    && match members
       case LastMember(_) => true
       case NextMember(m, gap, rest) => AllSpace(gap) && ValidMembers(rest, seen + {Decode(m.key).value})
  }

  predicate ValidDocument(d: Document) {
    AllSpace(d.lead) && ValidValue(d.value) && AllSpace(d.trail)
  }
}
