/** Section 7 of RFC 8259: every way of spelling a string is read as that string. */
module JsonStrings {
  import opened Wrappers
  import opened Bytes
  import opened JsonValue
  import opened JsonText
  import opened JsonReader
  import opened Unicode

  const LETTER_U: byte := 0x75

  /** The two-character escapes: the letter behind the backslash, and what it stands for. */
  const SHORT_ESCAPES: seq<(byte, byte)> := [
    (0x22, 0x22), (0x5C, 0x5C), (0x2F, 0x2F), (0x62, 0x08),
    (0x66, 0x0C), (0x6E, 0x0A), (0x72, 0x0D), (0x74, 0x09)]

  /** How a byte or a code point may be written: as it is, as a two-character escape, or as
      one or two "\u" escapes. */
  datatype Piece = Plain(c: byte) | Short(k: nat) | Code(cp: nat, escapes: bytes) {
    /** What the reader takes. It lets control characters stand for themselves, and does not
        look at how surrogates are paired. */
    predicate Readable() {
      match this
      case Plain(c) => c != QUOTE && c != BACKSLASH
      case Short(k) => k < |SHORT_ESCAPES|
      case Code(cp, e) => [BACKSLASH, LETTER_U] <= e && DecodeCodePoint(e[2..]) == Some((cp, []))
    }

    /** What the standard allows. */
    predicate Legal() {
      match this
      case Plain(c) => c >= 0x20 && c != QUOTE && c != BACKSLASH
      case Short(k) => k < |SHORT_ESCAPES|
      case Code(cp, e) => SpelledAt(e, cp) && |e| == if cp < 0x10000 then 6 else 12
    }

    function Text(): bytes
      requires Readable()
    {
      match this
      case Plain(c) => [c]
      case Short(k) => [BACKSLASH, SHORT_ESCAPES[k].0]
      case Code(_, e) => e
    }

    function Meaning(): bytes
      requires Readable()
    {
      match this
      case Plain(c) => [c]
      case Short(k) => [SHORT_ESCAPES[k].1]
      case Code(cp, _) => CodePointToUTF8(cp)
    }
  }

  predicate AllReadable(ps: seq<Piece>) {
    forall p <- ps :: p.Readable()
  }

  function Text(ps: seq<Piece>): bytes
    requires AllReadable(ps)
  {
    if ps == [] then [] else ps[0].Text() + Text(ps[1..])
  }

  function Meaning(ps: seq<Piece>): bytes
    requires AllReadable(ps)
  {
    if ps == [] then [] else ps[0].Meaning() + Meaning(ps[1..])
  }

  lemma LegalReadable(p: Piece)
    requires p.Legal()
    ensures p.Readable()
  {
    if p.Code? {
      hide DecodeCodePoint, SpelledAt;
      SpelledCodePoint(p.escapes, p.cp);
      SpelledStarts(p.escapes, p.cp);
      assert p.escapes[|p.escapes|..] == [];
    }
  }

  lemma SpelledStarts(s: bytes, cp: nat)
    requires SpelledAt(s, cp)
    ensures [BACKSLASH, LETTER_U] <= s
  {
  }

  // --------------------------------------------------------------- decoding

  lemma ShortDecodes(k: nat)
    requires k < |SHORT_ESCAPES|
    ensures SHORT_ESCAPES[k].0 != LETTER_U && Unescaped(SHORT_ESCAPES[k].0) == Some(SHORT_ESCAPES[k].1)
  {
  }

  /** Only the letters of the table mean something. */
  lemma UnescapedIff(letter: byte)
    ensures Unescaped(letter).Some? <==> exists k | 0 <= k < |SHORT_ESCAPES| :: SHORT_ESCAPES[k].0 == letter
  {
    if Unescaped(letter).Some? {
      assert SHORT_ESCAPES[0].0 == letter || SHORT_ESCAPES[1].0 == letter || SHORT_ESCAPES[2].0 == letter
          || SHORT_ESCAPES[3].0 == letter || SHORT_ESCAPES[4].0 == letter || SHORT_ESCAPES[5].0 == letter
          || SHORT_ESCAPES[6].0 == letter || SHORT_ESCAPES[7].0 == letter;
    }
    if k :| 0 <= k < |SHORT_ESCAPES| && SHORT_ESCAPES[k].0 == letter {
      ShortDecodes(k);
    }
  }

  lemma CodePointInMore(s: bytes, more: bytes)
    requires DecodeCodePoint(s).Some?
    ensures DecodeCodePoint(s + more) == Some((DecodeCodePoint(s).value.0, DecodeCodePoint(s).value.1 + more))
  {
    hide HexValue;
    var t := s + more;
    assert t[4..] == s[4..] + more;
    if 0xD800 <= DecodeHex4(s).value <= 0xDBFF {
      assert t[4..][2..] == s[4..][2..] + more && t[4..][6..] == s[4..][6..] + more;
    }
  }

  lemma PieceDecodes(p: Piece, rest: bytes)
    requires p.Readable()
    ensures DecodeChars(p.Text() + rest) == Cons(p.Meaning(), DecodeChars(rest))
  {
    hide DecodeCodePoint, Unescaped, CodePointToUTF8;
    match p {
      case Plain(c) =>
        assert ([c] + rest)[1..] == rest;
      case Short(k) =>
        ShortDecodes(k);
        assert (p.Text() + rest)[2..] == rest;
      case Code(cp, e) =>
        CodeDecodes(cp, e, rest);
    }
  }

  lemma CodeDecodes(cp: nat, e: bytes, rest: bytes)
    requires [BACKSLASH, LETTER_U] <= e && DecodeCodePoint(e[2..]) == Some((cp, []))
    ensures DecodeChars(e + rest) == Cons(CodePointToUTF8(cp), DecodeChars(rest))
  {
    hide DecodeCodePoint, Unescaped, CodePointToUTF8;
    var t := e + rest;
    CodePointInMore(e[2..], rest);
    assert [] + rest == rest;
    assert t[0] == e[0] && t[1] == e[1] && t[2..] == e[2..] + rest;
  }

  /** A spelled string, with more text behind it. */
  lemma {:induction false} PiecesDecode(ps: seq<Piece>, rest: bytes)
    requires AllReadable(ps)
    ensures DecodeChars(Text(ps) + rest) == Cons(Meaning(ps), DecodeChars(rest))
  {
    hide DecodeChars, Piece.Readable, Piece.Text, Piece.Meaning;
    if ps == [] {
      assert [] + rest == rest;
      ConsNothing(DecodeChars(rest));
    } else {
      assert ps[0] in ps;
      PiecesDecode(ps[1..], rest);
      PieceDecodes(ps[0], Text(ps[1..]) + rest);
      Assoc(ps[0].Text(), Text(ps[1..]), rest);
      ConsTwice(ps[0].Meaning(), Meaning(ps[1..]), DecodeChars(rest));
    }
  }

  lemma ConsNothing(r: Option<bytes>)
    ensures Cons([], r) == r
  {
    if r.Some? {
      assert [] + r.value == r.value;
    }
  }

  lemma ConsTwice(a: bytes, b: bytes, r: Option<bytes>)
    ensures Cons(a, Cons(b, r)) == Cons(a + b, r)
  {
    if r.Some? {
      Assoc(a, b, r.value);
    }
  }

  lemma NothingDecodes(s: bytes)
    requires s == [] || s[0] == QUOTE
    ensures DecodeChars(s) == Some([])
  {
  }

  /** The pieces of a text that is decoded, up to the first quote that is not escaped. */
  lemma {:induction false} PiecesOf(s: bytes) returns (ps: seq<Piece>, rest: bytes)
    requires DecodeChars(s).Some?
    ensures AllReadable(ps) && s == Text(ps) + rest && (rest == [] || rest[0] == QUOTE)
    decreases |s|
  {
    if s == [] || s[0] == QUOTE {
      ps, rest := [], s;
      assert Text(ps) + rest == s;
    } else {
      hide DecodeChars, Piece.Readable, Piece.Text, DecodeCodePoint;
      var p, t := FirstPiece(s);
      var more;
      more, rest := PiecesOf(t);
      ps := [p] + more;
      assert ps[1..] == more;
      Assoc(p.Text(), Text(more), rest);
    }
  }

  lemma FirstPiece(s: bytes) returns (p: Piece, t: bytes)
    requires DecodeChars(s).Some? && s != [] && s[0] != QUOTE
    ensures p.Readable() && s == p.Text() + t && |t| < |s| && DecodeChars(t).Some?
  {
    hide DecodeCodePoint, CodePointToUTF8, Unescaped;
    if s[0] != BACKSLASH {
      p, t := Plain(s[0]), s[1..];
    } else if s[1] == LETTER_U {
      var (cp, rest) := DecodeCodePoint(s[2..]).value;
      var e;
      e := CodePointText(s[2..]);
      p, t := Code(cp, [BACKSLASH, LETTER_U] + e), rest;
      assert p.escapes[2..] == e;
      assert s == [BACKSLASH, LETTER_U] + s[2..];
      Assoc([BACKSLASH, LETTER_U], e, rest);
    } else {
      UnescapedIff(s[1]);
      var k :| 0 <= k < |SHORT_ESCAPES| && SHORT_ESCAPES[k].0 == s[1];
      p, t := Short(k), s[2..];
      assert s == [s[0], s[1]] + s[2..];
    }
  }

  lemma CodePointText(s: bytes) returns (e: bytes)
    requires DecodeCodePoint(s).Some?
    ensures s == e + DecodeCodePoint(s).value.1 && DecodeCodePoint(e) == Some((DecodeCodePoint(s).value.0, []))
  {
    hide HexValue;
    var rest := DecodeCodePoint(s).value.1;
    var n := |s| - |rest|;
    e := s[..n];
    assert rest == s[n..] by {
      assert s[4..] == s[4..] && (|s| >= 10 ==> s[4..][6..] == s[10..]);
    }
    assert e[4..] == s[4..n];
    if n == 10 {
      assert e[4..][2..] == e[6..] && s[4..][2..] == s[6..] && e[4..][6..] == [];
    }
  }

  /** `s` is made of these pieces, up to its end or a quote. */
  ghost predicate MadeOf(s: bytes, ps: seq<Piece>, rest: bytes, v: bytes) {
    AllReadable(ps) && s == Text(ps) + rest && (rest == [] || rest[0] == QUOTE) && v == Meaning(ps)
  }

  /** Exactly the texts made of such pieces are decoded, and each to what its pieces mean. */
  lemma DecodesIff(s: bytes, v: bytes)
    ensures DecodeChars(s) == Some(v) <==> exists ps: seq<Piece>, rest: bytes :: MadeOf(s, ps, rest, v)
  {
    hide DecodeChars, AllReadable, Text, Meaning;
    if ps: seq<Piece>, rest: bytes :| MadeOf(s, ps, rest, v) {
      PiecesDecode(ps, rest);
      NothingDecodes(rest);
      assert v + [] == v;
    }
    if DecodeChars(s) == Some(v) {
      var ps, rest := PiecesOf(s);
      PiecesDecode(ps, rest);
      NothingDecodes(rest);
      assert Meaning(ps) + [] == Meaning(ps);
      assert MadeOf(s, ps, rest, v);
    }
  }

  /** A backslash in front of any other letter, or at the end, makes the string an error,
      whatever was read before it. */
  lemma OtherLetterRejected(ps: seq<Piece>, rest: bytes)
    requires AllReadable(ps)
    requires rest != [] ==> rest[0] != LETTER_U && forall k | 0 <= k < |SHORT_ESCAPES| :: SHORT_ESCAPES[k].0 != rest[0]
    ensures DecodeChars(Text(ps) + [BACKSLASH] + rest) == None
  {
    hide Text, Meaning, AllReadable;
    var t := [BACKSLASH] + rest;
    Assoc(Text(ps), [BACKSLASH], rest);
    PiecesDecode(ps, t);
    if rest != [] {
      UnescapedIff(rest[0]);
    }
  }

  // ---------------------------------------------------------------- reading

  lemma PieceScans(p: Piece, rest: bytes)
    requires p.Readable()
    ensures ScanString(p.Text() + rest) == (ScanString(rest).0, |p.Text()| + ScanString(rest).1)
  {
    hide ScanString, DecodeCodePoint;
    if p.Code? {
      CodeScans(p.cp, p.escapes, rest);
    } else {
      OneOrTwoScan(p, rest);
    }
  }

  lemma OneOrTwoScan(p: Piece, rest: bytes)
    requires p.Readable() && !p.Code?
    ensures ScanString(p.Text() + rest) == (ScanString(rest).0, |p.Text()| + ScanString(rest).1)
  {
    var t := p.Text() + rest;
    assert t[|p.Text()|..] == rest;
    if p.Plain? {
      OneScans(t);
    } else {
      assert t[0] == BACKSLASH && |t| > 1 && t[2..] == rest;
    }
  }

  lemma CodeScans(cp: nat, e: bytes, rest: bytes)
    requires [BACKSLASH, LETTER_U] <= e && DecodeCodePoint(e[2..]) == Some((cp, []))
    ensures ScanString(e + rest) == (ScanString(rest).0, |e| + ScanString(rest).1)
  {
    hide ScanString, DecodeHex4;
    assert e[2..][4..] == e[6..];
    EscapeScans(e, rest);
    assert [] + rest == rest;
    if 0xD800 <= DecodeHex4(e[2..]).value <= 0xDBFF {
      assert e[6..][2..] == e[8..] && e[6..][6..] == e[12..];
      EscapeScans(e[6..], rest);
    }
  }

  /** readString passes over an escape, since hexadecimal digits are no quotes. */
  lemma EscapeScans(e: bytes, rest: bytes)
    requires |e| >= 6 && e[0] == BACKSLASH && e[1] == LETTER_U && DecodeHex4(e[2..]).Some?
    ensures var behind := e[6..] + rest; ScanString(e + rest) == (ScanString(behind).0, 6 + ScanString(behind).1)
  {
    var t := e + rest;
    HexIsNoMark(e[2..]);
    assert t[2] == e[2] && t[3] == e[3] && t[4] == e[4] && t[5] == e[5] && t[6..] == e[6..] + rest;
    assert t[2..][1..] == t[3..] && t[3..][1..] == t[4..] && t[4..][1..] == t[5..] && t[5..][1..] == t[6..];
    OneScans(t[2..]);
    OneScans(t[3..]);
    OneScans(t[4..]);
    OneScans(t[5..]);
    assert ScanString(t) == (ScanString(t[2..]).0, 2 + ScanString(t[2..]).1);
  }

  lemma HexIsNoMark(s: bytes)
    requires DecodeHex4(s).Some?
    ensures |s| >= 4 && forall i | 0 <= i < 4 :: s[i] != QUOTE && s[i] != BACKSLASH
  {
  }

  lemma OneScans(s: bytes)
    requires s != [] && s[0] != QUOTE && s[0] != BACKSLASH
    ensures ScanString(s) == (ScanString(s[1..]).0, 1 + ScanString(s[1..]).1)
  {
  }

  lemma {:induction false} PiecesScan(ps: seq<Piece>, rest: bytes)
    requires AllReadable(ps)
    ensures ScanString(Text(ps) + [QUOTE] + rest) == (true, |Text(ps)| + 1)
  {
    hide Piece.Readable, Piece.Text, ScanString;
    if ps == [] {
      assert [] + [QUOTE] + rest == [QUOTE] + rest;
      QuoteEnds(rest);
    } else {
      assert ps[0] in ps;
      PiecesScan(ps[1..], rest);
      PieceScans(ps[0], Text(ps[1..]) + [QUOTE] + rest);
      assert Text(ps) + [QUOTE] + rest == ps[0].Text() + (Text(ps[1..]) + [QUOTE] + rest);
    }
  }

  lemma QuoteEnds(rest: bytes)
    ensures ScanString([QUOTE] + rest) == (true, 1)
  {
  }

  function Quoted(ps: seq<Piece>): (r: bytes)
    requires AllReadable(ps)
    ensures |r| >= 2 && r[0] == QUOTE
  {
    [QUOTE] + Text(ps) + [QUOTE]
  }

  /** A string in quotes, spelled in any way the reader takes, is one token, and decodes to the
      string that is spelled. */
  lemma StringIsOneToken(ps: seq<Piece>, rest: bytes)
    requires AllReadable(ps)
    ensures TokenAt(Quoted(ps) + rest) == Token(JsonReader.StringToken, Quoted(ps), rest)
    ensures DecodeString(Quoted(ps)) == Some(Meaning(ps))
  {
    hide Piece.Readable, Text, Meaning, ScanString, DecodeChars;
    PiecesScan(ps, rest);
    var quoted := Quoted(ps);
    var t := quoted + rest;
    assert t[1..] == Text(ps) + [QUOTE] + rest;
    assert t[..|quoted|] == quoted && t[|quoted|..] == rest;
    assert quoted[1..|quoted| - 1] == Text(ps);
    assert Text(ps) + [] == Text(ps);
    PiecesDecode(ps, []);
    NothingDecodes([]);
    assert Meaning(ps) + [] == Meaning(ps);
  }

  /** In particular strings that are spelled as the standard allows; the value ends at a NUL. */
  lemma StringRead(ps: seq<Piece>, rest: bytes, scan: Scan)
    requires forall p <- ps :: p.Legal()
    ensures AllReadable(ps)
    ensures DecodeString(Quoted(ps)) == Some(Meaning(ps))
    ensures ParseValue(Quoted(ps) + rest, scan) == Some((Str(UpToNul(Meaning(ps))), rest))
  {
    forall p | p in ps ensures p.Readable() {
      LegalReadable(p);
    }
    hide Piece.Legal, Piece.Readable, Quoted, TokenAt, DecodeString, Meaning, AllReadable;
    StringIsOneToken(ps, rest);
    var t := Quoted(ps) + rest;
    NoSpaceFirst(t);
    QuotedValue(t, Quoted(ps), rest, Meaning(ps), scan);
  }

  lemma NoSpaceFirst(s: bytes)
    requires s != [] && !IsSpace(s[0])
    ensures SkipSpaces(s) == s
  {
  }

  lemma QuotedValue(t: bytes, quoted: bytes, rest: bytes, v: bytes, scan: Scan)
    requires |quoted| >= 2 && Significant(t) == Token(JsonReader.StringToken, quoted, rest)
    requires DecodeString(quoted) == Some(v)
    ensures ParseValue(t, scan) == Some((Str(UpToNul(v)), rest))
  {
    hide Significant, DecodeString;
  }

  // ---------------------------------------------------------------- writing

  /** The piece the writers choose for a character. */
  function Chosen(c: byte): Piece {
    if c == 0x22 then Short(0)
    else if c == 0x5C then Short(1)
    else if c == 0x08 then Short(3)
    else if c == 0x0C then Short(4)
    else if c == 0x0A then Short(5)
    else if c == 0x0D then Short(6)
    else if c == 0x09 then Short(7)
    else Plain(c)
  }

  function AllChosen(s: bytes): (ps: seq<Piece>)
    ensures |ps| == |s| && forall i | 0 <= i < |s| :: ps[i] == Chosen(s[i])
  {
    if s == [] then [] else [Chosen(s[0])] + AllChosen(s[1..])
  }

  predicate LegalCharacter(c: byte) {
    c >= 0x20 || c in [0x08, 0x09, 0x0A, 0x0C, 0x0D]
  }

  lemma ChosenText(c: byte)
    ensures Chosen(c).Readable() && Chosen(c).Text() == EscapeChar(c) && Chosen(c).Meaning() == [c]
    ensures Chosen(c).Legal() <==> LegalCharacter(c)
    ensures NEWLINE !in EscapeChar(c) && 0x0D !in EscapeChar(c)
  {
  }

  /** The writers escape quotes, backslashes and the five control characters for which the
      table has a letter, and write everything else as it is; no line end is left. */
  lemma {:induction false} EscapeSpells(s: bytes)
    ensures AllReadable(AllChosen(s)) && Text(AllChosen(s)) == Escape(s) && Meaning(AllChosen(s)) == s
    ensures NEWLINE !in Escape(s) && 0x0D !in Escape(s)
  {
    if s != [] {
      hide Piece.Readable, Piece.Text, Piece.Meaning, Chosen, EscapeChar;
      EscapeSpells(s[1..]);
      ChosenText(s[0]);
      assert AllChosen(s)[1..] == AllChosen(s[1..]) && s == [s[0]] + s[1..];
    }
  }

  /** So what they write is what the standard allows exactly when the string holds no other
      control character. */
  lemma EscapeLegalIff(s: bytes)
    ensures (forall p <- AllChosen(s) :: p.Legal()) <==> forall c <- s :: LegalCharacter(c)
  {
    hide Piece.Legal, LegalCharacter, Chosen;
    var ps := AllChosen(s);
    forall i | 0 <= i < |s| ensures ps[i].Legal() <==> LegalCharacter(s[i]) {
      ChosenText(s[i]);
    }
    if forall p <- ps :: p.Legal() {
      forall c | c in s ensures LegalCharacter(c) {
        var i :| 0 <= i < |s| && s[i] == c;
        assert ps[i] in ps;
      }
    }
  }
}
