/** String tokens as section 7 of RFC 8259 describes them: a row of characters, each written in one of three ways. */
module JsonStrings {
  import opened Options
  import opened JsonGrammar

  /** One code unit: written as it is, with a two-character escape, or with four hexadecimal digits. */
  datatype Piece = Plain(unit: Unit) | Short(letter: Unit) | Numeric(a: Unit, b: Unit, c: Unit, d: Unit)

  predicate HexLetter(u: Unit) {
    0x30 <= u <= 0x39 || 0x41 <= u <= 0x46 || 0x61 <= u <= 0x66
  }

  function Digit(u: Unit): (d: nat)
    requires HexLetter(u)
    ensures d < 16
  {
    if u <= 0x39 then u - 0x30 else if u <= 0x46 then u - 0x41 + 10 else u - 0x61 + 10
  }

  predicate WellWritten(p: Piece) {
    match p
    case Plain(u) => u >= 0x20 && u != 0x22 && u != 0x5C
    case Short(letter) => letter in {0x22, 0x5C, 0x2F, 0x62, 0x66, 0x6E, 0x72, 0x74}
    case Numeric(a, b, c, d) => HexLetter(a) && HexLetter(b) && HexLetter(c) && HexLetter(d)
  }

  function Written(p: Piece): Text {
    match p
    case Plain(u) => [u]
    case Short(letter) => [0x5C, letter]
    case Numeric(a, b, c, d) => [0x5C, 0x75, a, b, c, d]
  }

  function Meaning(p: Piece): Unit
    requires WellWritten(p)
  {
    match p
    case Plain(u) => u
    case Short(letter) =>
      if letter == 0x62 then 0x08 else if letter == 0x66 then 0x0C else if letter == 0x6E then 0x0A
      else if letter == 0x72 then 0x0D else if letter == 0x74 then 0x09 else letter
    case Numeric(a, b, c, d) => Digit(a) * 0x1000 + Digit(b) * 0x100 + Digit(c) * 0x10 + Digit(d)
  }

  ghost predicate AllWellWritten(pieces: seq<Piece>) {
    forall i | 0 <= i < |pieces| :: WellWritten(pieces[i])
  }

  function WrittenAll(pieces: seq<Piece>): Text {
    if pieces == [] then [] else Written(pieces[0]) + WrittenAll(pieces[1..])
  }

  function MeaningAll(pieces: seq<Piece>): Text
    requires forall i | 0 <= i < |pieces| :: WellWritten(pieces[i])
  {
    if pieces == [] then [] else [Meaning(pieces[0])] + MeaningAll(pieces[1..])
  }

  lemma {:induction false} PiecesDecode(pieces: seq<Piece>)
    requires AllWellWritten(pieces)
    ensures Decode(WrittenAll(pieces)) == Some(MeaningAll(pieces))
  {
    if pieces != [] {
      PiecesDecode(pieces[1..]);
      PieceDecodes(pieces[0], WrittenAll(pieces[1..]));
    }
  }

  lemma PieceDecodes(p: Piece, rest: Text)
    requires WellWritten(p)
    ensures Decode(Written(p) + rest) == Prepend(Meaning(p), Decode(rest))
  {
    var t := Written(p) + rest;
    assert t[|Written(p)|..] == rest;
    if p.Numeric? {
      HexDecodes(p);
      assert t[2..6] == [p.a, p.b, p.c, p.d];
      hide HexUnit, Meaning, AllHex;
    } else if p.Short? {
      assert t[1] == p.letter;
    }
  }

  lemma HexDecodes(p: Piece)
    requires p.Numeric? && WellWritten(p)
    ensures var h := [p.a, p.b, p.c, p.d]; AllHex(h) && HexUnit(h) == Meaning(p)
  {
    var h := [p.a, p.b, p.c, p.d];
    assert h[0] == p.a && h[1] == p.b && h[2] == p.c && h[3] == p.d;
  }

  /** The first piece of a body that decodes. */
  lemma FirstPiece(body: Text) returns (p: Piece)
    requires body != [] && Decode(body).Some?
    ensures WellWritten(p) && |Written(p)| <= |body| && body == Written(p) + body[|Written(p)|..]
  {
    if body[0] != BACKSLASH {
      p := Plain(body[0]);
    } else if |body| >= 6 && body[1] == LOWER_U && AllHex(body[2..6]) {
      var h := body[2..6];
      assert h[0] == body[2] && h[1] == body[3] && h[2] == body[4] && h[3] == body[5];
      p := Numeric(body[2], body[3], body[4], body[5]);
    } else {
      p := Short(body[1]);
    }
  }

  lemma {:induction false} DecodedInPieces(body: Text) returns (pieces: seq<Piece>)
    requires Decode(body).Some?
    ensures AllWellWritten(pieces) && WrittenAll(pieces) == body && MeaningAll(pieces) == Decode(body).value
    decreases |body|
  {
    if body == [] {
      pieces := [];
    } else {
      var p := FirstPiece(body);
      var rest := body[|Written(p)|..];
      PieceDecodes(p, rest);
      var more := DecodedInPieces(rest);
      pieces := [p] + more;
      assert pieces[1..] == more;
    }
  }

  ghost predicate Spells(pieces: seq<Piece>, body: Text, value: Text) {
    AllWellWritten(pieces) && WrittenAll(pieces) == body && MeaningAll(pieces) == value
  }

  /** A token body stands for a value exactly when it is written piece by piece with that meaning. */
  lemma DecodesExactly(body: Text, value: Text)
    ensures Decode(body) == Some(value) <==> exists pieces :: Spells(pieces, body, value)
  {
    if Decode(body) == Some(value) {
      var pieces := DecodedInPieces(body);
      assert Spells(pieces, body, value);
    }
    if pieces :| Spells(pieces, body, value) {
      PiecesDecode(pieces);
    }
  }

  // ---------------------------------------------------------------- how a value is written back

  /** Needs an escape: a quote, a backslash, a control character, or half of a surrogate pair. */
  predicate MustEscape(value: Text, i: nat)
    requires i < |value|
  {
    || value[i] == 0x22 || value[i] == 0x5C || value[i] < 0x20
    || (0xD800 <= value[i] < 0xE000 && !PairedAt(value, i))
  }

  /** The unit belongs to a high half followed by a low half, counting from the left. */
  predicate PairedAt(value: Text, i: nat)
    requires i < |value|
  {
    || (0xD800 <= value[i] < 0xDC00 && i + 1 < |value| && 0xDC00 <= value[i + 1] < 0xE000)
    || (0xDC00 <= value[i] < 0xE000 && i > 0 && 0xD800 <= value[i - 1] < 0xDC00)
  }

  /** What needs no escape is written as it is. */
  lemma {:induction false} WrittenVerbatim(value: Text)
    requires forall i | 0 <= i < |value| :: !MustEscape(value, i)
    ensures Escape(value) == value
    decreases |value|
  {
    if value != [] {
      assert !MustEscape(value, 0);
      if |value| >= 2 && HighSurrogate(value[0]) && LowSurrogate(value[1]) {
        Shorter(value, 2);
        WrittenVerbatim(value[2..]);
      } else {
        Shorter(value, 1);
        WrittenVerbatim(value[1..]);
      }
    }
  }

  lemma Shorter(value: Text, n: nat)
    requires n <= |value| && (n == 1 || n == 2) && (forall i | 0 <= i < |value| :: !MustEscape(value, i))
    requires n == 1 ==> !HighSurrogate(value[0])
    requires n == 2 ==> LowSurrogate(value[1])
    ensures forall i | 0 <= i < |value[n..]| :: !MustEscape(value[n..], i)
  {
    forall i | 0 <= i < |value[n..]|
      ensures !MustEscape(value[n..], i)
    {
      assert !MustEscape(value, n + i);
    }
  }

  /** The escape of a single unit: short where there is a letter for it, otherwise four lower-case digits. */
  lemma EscapesShort(u: Unit)
    ensures u in {0x22, 0x5C} ==> EscapeUnit(u) == [0x5C, u]
    ensures u == 0x08 ==> EscapeUnit(u) == [0x5C, 0x62]
    ensures u == 0x09 ==> EscapeUnit(u) == [0x5C, 0x74]
    ensures u == 0x0A ==> EscapeUnit(u) == [0x5C, 0x6E]
    ensures u == 0x0C ==> EscapeUnit(u) == [0x5C, 0x66]
    ensures u == 0x0D ==> EscapeUnit(u) == [0x5C, 0x72]
    ensures u < 0x20 && u !in {0x08, 0x09, 0x0A, 0x0C, 0x0D} ==>
              |EscapeUnit(u)| == 6 && EscapeUnit(u)[..4] == [0x5C, 0x75, 0x30, 0x30] &&
              forall i | 4 <= i < 6 :: 0x30 <= EscapeUnit(u)[i] <= 0x39 || 0x61 <= EscapeUnit(u)[i] <= 0x66
  {
  }
}
