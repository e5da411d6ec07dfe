/** The grammar that Json::Reader reads: exactly which texts are accepted, and as what. */
module JsonGrammar {
  import opened Wrappers
  import opened Bytes
  import opened JsonValue
  import opened JsonText
  import opened JsonReader
  import opened JsonRoundTrip
  import Strings = JsonStrings
  import opened JsonTokens

  /** White space and comments. */
  datatype Gap = Gap(comments: seq<(bytes, bytes)>, space: bytes) {
    ghost predicate Ok() {
      Skippable(comments) && SkipSpaces(space) == []
    }

    function Text(): bytes {
      Skipped(comments) + space
    }
  }

  // ------------------------------------------------------------------- gaps

  lemma SpaceIgnored(space: bytes, s: bytes)
    requires SkipSpaces(space) == []
    ensures SkipSpaces(space + s) == SkipSpaces(s) && ReadToken(space + s) == ReadToken(s)
    ensures Significant(space + s) == Significant(s)
  {
    hide SkipSpaces, TokenAt;
    SkipSpacesConcat(space, s);
  }

  lemma GapIgnored(g: Gap, s: bytes)
    requires g.Ok()
    ensures Significant(g.Text() + s) == Significant(s)
  {
    hide SkipSpaces, Significant, Skippable, Skipped;
    Assoc(Skipped(g.comments), g.space, s);
    CommentsIgnored(g.comments, g.space + s);
    SpaceIgnored(g.space, s);
  }

  /** A token that counts, with what follows it. */
  ghost predicate IsToken(text: bytes, behind: bytes) {
    && text != [] && !IsSpace(text[0])
    && var t := TokenAt(text + behind);
       t.text == text && t.rest == behind && t.kind != Comment
  }

  lemma TokenRead(g: Gap, text: bytes, behind: bytes)
    requires g.Ok() && IsToken(text, behind)
    ensures Significant(g.Text() + (text + behind)) == TokenAt(text + behind)
    ensures SkipSpaces(text + behind) == text + behind
  {
    hide TokenAt, Gap.Ok, Gap.Text;
    GapIgnored(g, text + behind);
    Strings.NoSpaceFirst(text + behind);
  }

  lemma {:induction false} SpacesOf(s: bytes) returns (space: bytes)
    ensures SkipSpaces(space) == [] && s == space + SkipSpaces(s)
  {
    if s != [] && IsSpace(s[0]) {
      var more := SpacesOf(s[1..]);
      space := [s[0]] + more;
      assert s == [s[0]] + s[1..] && space[1..] == more;
    } else {
      space := [];
    }
  }

  lemma TokenSplits(s: bytes)
    requires TokenAt(s).text != []
    ensures s == TokenAt(s).text + TokenAt(s).rest
  {
    hide ScanString, ScanComment, ScanNumber, HexValue;
  }

  /** What stands in front of the next token that counts, and that token. */
  lemma {:induction false} GapOf(s: bytes) returns (g: Gap, text: bytes)
    requires Significant(s).text != []
    ensures g.Ok() && IsToken(text, Significant(s).rest) && s == g.Text() + (text + Significant(s).rest)
    ensures Significant(s) == TokenAt(text + Significant(s).rest)
    decreases |s|
  {
    hide TokenAt, SkipSpaces, IsComment, Skippable;
    var space := SpacesOf(s);
    var u := SkipSpaces(s);
    if TokenAt(u).kind == Comment {
      RestNotEmpty(TokenAt(u).rest);
      CommentOf(u);
      var more;
      more, text := GapOf(TokenAt(u).rest);
      var c := TokenAt(u).text;
      g := Gap([(space, c)] + more.comments, more.space);
      SkippableCons(space, c, more.comments);
      GapRegrouped(space, c, Skipped(more.comments), more.space, text + Significant(s).rest);
    } else {
      text := TokenAt(u).text;
      TokenSplits(u);
      g := Gap([], space);
      NothingSkipped();
      assert [] + space == space;
    }
  }

  lemma RestNotEmpty(s: bytes)
    requires Significant(s).text != []
    ensures s != []
  {
  }

  lemma NothingSkipped()
    ensures Skippable([]) && Skipped([]) == []
  {
  }

  lemma SkippableCons(space: bytes, c: bytes, cs: seq<(bytes, bytes)>)
    requires SkipSpaces(space) == [] && IsComment(c) && Skippable(cs)
    ensures Skippable([(space, c)] + cs) && Skipped([(space, c)] + cs) == space + c + Skipped(cs)
  {
    hide SkipSpaces, IsComment;
    assert ([(space, c)] + cs)[1..] == cs;
  }

  lemma GapRegrouped(a: bytes, b: bytes, c: bytes, d: bytes, e: bytes)
    ensures a + (b + ((c + d) + e)) == (a + b + c) + d + e
  {
    Assoc(a + b + c, d, e);
    Assoc(a + b, c, d + e);
    Assoc(a, b, c + (d + e));
    Assoc(c, d, e);
  }

  // ---------------------------------------------------------------- scalars

  predicate NumberText(s: bytes) {
    s != [] && (IsDigit(s[0]) || s[0] == MINUS) && forall c <- s :: IsNumberChar(c)
  }

  ghost predicate StringIs(text: bytes, v: bytes) {
    exists ps: seq<Strings.Piece> :: Strings.AllReadable(ps) && text == Strings.Quoted(ps) && v == Strings.Meaning(ps)
  }

  /** A literal, a number up to where number characters end, or a string. */
  ghost predicate ScalarIs(text: bytes, v: Value, behind: bytes, scan: Scan) {
    || (text == NULL_TEXT && v == Null) || (text == TRUE_TEXT && v == Bool(true))
    || (text == FALSE_TEXT && v == Bool(false))
    || (NumberText(text) && (behind == [] || !IsNumberChar(behind[0])) && DecodeNumber(text, scan) == Some(v))
    || exists s: bytes :: StringIs(text, s) && v == Str(UpToNul(s))
  }

  lemma WordToken(text: bytes, behind: bytes)
    requires text == NULL_TEXT || text == TRUE_TEXT || text == FALSE_TEXT
    ensures IsToken(text, behind)
    ensures TokenAt(text + behind).kind
            == if text == NULL_TEXT then NullToken else if text == TRUE_TEXT then TrueToken else FalseToken
  {
    var t := text + behind;
    assert t[..|text|] == text && t[|text|..] == behind && t[1..] == text[1..] + behind && t[0] == text[0];
  }

  lemma StringIsToken(text: bytes, v: bytes, behind: bytes)
    requires StringIs(text, v)
    ensures |text| >= 2 && IsToken(text, behind) && TokenAt(text + behind).kind == JsonReader.StringToken
    ensures DecodeString(text) == Some(v)
  {
    hide TokenAt, DecodeString, Strings.Quoted, Strings.Meaning, Strings.AllReadable;
    var ps: seq<Strings.Piece> :|
      Strings.AllReadable(ps) && text == Strings.Quoted(ps) && v == Strings.Meaning(ps);
    Strings.StringIsOneToken(ps, behind);
  }

  lemma NumberIsToken(text: bytes, behind: bytes)
    requires NumberText(text) && (behind == [] || !IsNumberChar(behind[0]))
    ensures IsToken(text, behind) && TokenAt(text + behind).kind == JsonReader.NumberToken
  {
    hide IsNumberChar, TokenAt, Significant;
    NumberIsOneToken(text, behind);
    FirstIsNoSpace(text, behind);
  }

  lemma FirstIsNoSpace(text: bytes, behind: bytes)
    requires text != [] && (IsDigit(text[0]) || text[0] == MINUS)
    requires Significant(text + behind) == Token(JsonReader.NumberToken, text, behind)
    ensures !IsSpace(text[0]) && TokenAt(text + behind) == Token(JsonReader.NumberToken, text, behind)
  {
    hide TokenAt;
    var s := text + behind;
    Strings.NoSpaceFirst(s);
    NotAComment(s);
  }

  lemma NotAComment(s: bytes)
    requires s != [] && (IsDigit(s[0]) || s[0] == MINUS)
    ensures TokenAt(s).kind == JsonReader.NumberToken
  {
  }

  /** What ParseValue makes of each kind of token. */
  lemma ScalarValue(s: bytes, scan: Scan)
    ensures var t := Significant(s); t.kind == JsonReader.StringToken ==> |t.text| >= 2
    ensures var t := Significant(s); t.kind == JsonReader.NumberToken ==> t.text != []
    ensures
      var t := Significant(s);
      var r := ParseValue(s, scan);
      match t.kind
      case NullToken => r == Some((Null, t.rest))
      case TrueToken => r == Some((Bool(true), t.rest))
      case FalseToken => r == Some((Bool(false), t.rest))
      case NumberToken =>
        if DecodeNumber(t.text, scan).None? then r == None else r == Some((DecodeNumber(t.text, scan).value, t.rest))
      case StringToken =>
        if DecodeString(t.text).None? then r == None else r == Some((Str(UpToNul(DecodeString(t.text).value)), t.rest))
      case ArrayBegin => true
      case ObjectBegin => true
      case _ => r == None
  {
    hide Significant, DecodeNumber, DecodeString, UpToNul, ParseElements, ParseMembers;
    SignificantText(s);
  }

  lemma ScalarReads(g: Gap, text: bytes, v: Value, behind: bytes, scan: Scan)
    requires g.Ok() && ScalarIs(text, v, behind, scan)
    ensures ParseValue(g.Text() + (text + behind), scan) == Some((v, behind)) && IsToken(text, behind)
    ensures text[0] != RBRACKET
  {
    hide ParseValue, Significant, TokenAt, DecodeNumber, DecodeString, UpToNul, StringIs, IsNumberChar;
    var s := g.Text() + (text + behind);
    if s: bytes :| StringIs(text, s) && v == Str(UpToNul(s)) {
      StringIsToken(text, s, behind);
      StringStarts(text, s);
    } else if NumberText(text) && (behind == [] || !IsNumberChar(behind[0])) {
      NumberIsToken(text, behind);
    } else {
      WordToken(text, behind);
    }
    TokenRead(g, text, behind);
    ScalarValue(s, scan);
  }

  lemma StringStarts(text: bytes, s: bytes)
    requires StringIs(text, s)
    ensures text != [] && text[0] == QUOTE
  {
  }

  /** A string token that decodes is spelled in pieces. */
  lemma StringOf(text: bytes, behind: bytes)
    requires TokenAt(text + behind) == Token(JsonReader.StringToken, text, behind) && |text| >= 2
    requires DecodeString(text).Some?
    ensures StringIs(text, DecodeString(text).value)
  {
    hide ScanString, DecodeChars, Strings.Meaning, Strings.AllReadable, Strings.Text;
    var s := text + behind;
    StringShape(s, text, behind);
    var inside := text[1..|text| - 1];
    var ps, rest := Strings.PiecesOf(inside);
    Strings.PiecesDecode(ps, rest);
    Strings.NothingDecodes(rest);
    assert Strings.Meaning(ps) + [] == Strings.Meaning(ps);
    if rest != [] {
      assert rest == [QUOTE] + rest[1..];
      var more := rest[1..] + ([QUOTE] + behind);
      assert s[1..] == Strings.Text(ps) + [QUOTE] + more;
      Strings.PiecesScan(ps, more);
    } else {
      assert text == [QUOTE] + inside + [QUOTE];
      assert inside == Strings.Text(ps) + [] == Strings.Text(ps);
      assert text == Strings.Quoted(ps);
    }
  }

  lemma StringShape(s: bytes, text: bytes, behind: bytes)
    requires s == text + behind && TokenAt(s) == Token(JsonReader.StringToken, text, behind) && |text| >= 2
    ensures ScanString(s[1..]) == (true, |text| - 1)
    ensures text == [QUOTE] + text[1..|text| - 1] + [QUOTE]
  {
    hide ScanComment, ScanNumber;
    var n := ScanString(s[1..]).1;
    ScanEndsInQuote(s[1..]);
    assert s[..1 + n] == text;
    assert s[1..][n - 1] == s[n] == text[n];
  }

  lemma {:induction false} ScanEndsInQuote(s: bytes)
    requires ScanString(s).0
    ensures s[ScanString(s).1 - 1] == QUOTE
  {
    if s[0] != QUOTE {
      ScanEndsInQuote(s[if s[0] == BACKSLASH && |s| > 1 then 2 else 1..]);
    }
  }

  // -------------------------------------------------------------- documents

  /** A value as it is written: a scalar; "[" and "]" with nothing but white space between
      them; an array, each element but the last followed by some token; an object. */
  datatype Doc =
    | Scalar(gap: Gap, text: bytes, v: Value)
    | Hollow(gap: Gap, space: bytes)
    | Elements(gap: Gap, items: seq<Item>, last: Doc, close: Gap)
    | Members(gap: Gap, members: seq<Member>, end: Option<Gap>)

  datatype Item = Item(doc: Doc, behind: Gap, sep: bytes)

  /** A member with what follows its value: a separator, or the "}" that ends the object. An
      `end` of the object is only there when the "}" does not follow a value. */
  datatype Member = Member(gap: Gap, name: bytes, named: bytes, space: bytes, doc: Doc, behind: Gap, sep: bytes)

  function DocText(d: Doc): bytes
    decreases d
  {
    match d
    case Scalar(gap, text, _) => gap.Text() + text
    case Hollow(gap, space) => gap.Text() + ([LBRACKET] + (space + [RBRACKET]))
    case Elements(gap, items, last, close) =>
      gap.Text() + ([LBRACKET] + (ItemsText(items) + (DocText(last) + (close.Text() + [RBRACKET]))))
    case Members(gap, members, end) => gap.Text() + ([LBRACE] + (MembersText(members) + EndText(end)))
  }

  function ItemsText(items: seq<Item>): bytes
    decreases items
  {
    if items == [] then []
    else
      assert items decreases to items[0];
      DocText(items[0].doc) + (items[0].behind.Text() + (items[0].sep + ItemsText(items[1..])))
  }

  function MembersText(members: seq<Member>): bytes
    decreases members
  {
    if members == [] then []
    else
      assert members decreases to members[0];
      var m := members[0];
      m.gap.Text() + (m.name + (m.space + ([COLON] +
      (DocText(m.doc) + (m.behind.Text() + (m.sep + MembersText(members[1..])))))))
  }

  function EndText(end: Option<Gap>): bytes {
    match end
    case None => []
    case Some(g) => g.Text() + [RBRACE]
  }

  function DocValue(d: Doc): Value
    decreases d
  {
    match d
    case Scalar(_, _, v) => v
    case Hollow(_, _) => Array([])
    case Elements(_, items, last, _) => Array(Numbered(ItemValues(items) + [DocValue(last)], 0))
    case Members(_, members, _) => Object(PutAll([], MemberValues(members)))
  }

  function ItemValues(items: seq<Item>): seq<Value>
    decreases items
  {
    if items == [] then []
    else
      assert items decreases to items[0];
      [DocValue(items[0].doc)] + ItemValues(items[1..])
  }

  function MemberValues(members: seq<Member>): seq<(bytes, Value)>
    decreases members
  {
    if members == [] then []
    else
      assert members decreases to members[0];
      [(UpToNul(members[0].named), DocValue(members[0].doc))] + MemberValues(members[1..])
  }

  /** `d` may be written in front of `behind`. */
  ghost predicate DocFits(d: Doc, behind: bytes, scan: Scan)
    decreases d
  {
    match d
    case Scalar(gap, text, v) => gap.Ok() && ScalarIs(text, v, behind, scan)
    case Hollow(gap, space) => gap.Ok() && SkipSpaces(space) == []
    case Elements(gap, items, last, close) =>
      var tail := close.Text() + ([RBRACKET] + behind);
      && gap.Ok() && close.Ok() && ItemsFit(items, DocText(last) + tail, scan) && DocFits(last, tail, scan)
    case Members(gap, members, end) => gap.Ok() && MembersFit(members, end, [], behind, scan)
  }

  /** The token behind an element is anything but a closing bracket. */
  ghost predicate ItemsFit(items: seq<Item>, behind: bytes, scan: Scan)
    decreases items
  {
    items != [] ==>
      assert items decreases to items[0];
      var it, rest := items[0], ItemsText(items[1..]) + behind;
      && DocFits(it.doc, it.behind.Text() + (it.sep + rest), scan) && it.behind.Ok()
      && IsToken(it.sep, rest) && TokenAt(it.sep + rest).kind != ArrayEnd
      && ItemsFit(items[1..], behind, scan)
  }

  /** The token behind a member ends the object if it is "}"; otherwise it is a comma, or any
      token at all behind a comment. A "}" may also come first, or behind the separator of a
      member whose name is empty; `last` is the name before. */
  ghost predicate MembersFit(members: seq<Member>, end: Option<Gap>, last: bytes, behind: bytes, scan: Scan)
    decreases members
  {
    if members == [] then end.Some? && end.value.Ok() && last == []
    else
      assert members decreases to members[0];
      var m, rest := members[0], MembersText(members[1..]) + (EndText(end) + behind);
      && m.gap.Ok() && StringIs(m.name, m.named) && SkipSpaces(m.space) == [] && m.behind.Ok()
      && DocFits(m.doc, m.behind.Text() + (m.sep + rest), scan)
      && if |members| == 1 && end.None? then m.sep == [RBRACE]
         else
           && IsToken(m.sep, rest) && TokenAt(m.sep + rest).kind != ObjectEnd
           && (m.behind.comments == [] ==> m.sep == [COMMA])
           && MembersFit(members[1..], end, m.named, behind, scan)
  }

  // ------------------------------------------------- what is written is read

  predicate IsMark(c: byte) {
    c == LBRACE || c == RBRACE || c == LBRACKET || c == RBRACKET || c == COMMA || c == COLON
  }

  function MarkKind(c: byte): Kind
    requires IsMark(c)
  {
    if c == LBRACE then ObjectBegin
    else if c == RBRACE then ObjectEnd
    else if c == LBRACKET then ArrayBegin
    else if c == RBRACKET then ArrayEnd
    else if c == COMMA then ArraySeparator
    else MemberSeparator
  }

  lemma MarkToken(c: byte, behind: bytes)
    requires IsMark(c)
    ensures IsToken([c], behind) && TokenAt([c] + behind) == Token(MarkKind(c), [c], behind)
  {
    var s := [c] + behind;
    assert s[..1] == [c] && s[1..] == behind;
  }

  lemma MarkRead(g: Gap, c: byte, behind: bytes)
    requires g.Ok() && IsMark(c)
    ensures Significant(g.Text() + ([c] + behind)) == Token(MarkKind(c), [c], behind)
  {
    hide TokenAt, Significant, Gap.Text, Gap.Ok, MarkKind;
    MarkToken(c, behind);
    TokenRead(g, [c], behind);
  }

  /** A document never starts with a closing bracket, not even behind white space. */
  lemma DocStarts(d: Doc, behind: bytes, scan: Scan)
    requires DocFits(d, behind, scan)
    ensures var s := SkipSpaces(DocText(d) + behind); s != [] && s[0] != RBRACKET
  {
    hide ParseValue, TokenAt, SkipSpaces, ScalarIs, DecodeNumber, ItemsText, ItemsFit, MembersText, MembersFit;
    match d {
      case Scalar(gap, text, v) =>
        ScalarReads(gap, text, v, behind, scan);
        Assoc(gap.Text(), text, behind);
        GapStarts(gap, text + behind);
      case Hollow(gap, space) =>
        Assoc(gap.Text(), [LBRACKET] + (space + [RBRACKET]), behind);
        GapStarts(gap, [LBRACKET] + (space + [RBRACKET]) + behind);
      case Elements(gap, items, last, close) =>
        var x := ItemsText(items) + (DocText(last) + (close.Text() + [RBRACKET]));
        Assoc(gap.Text(), [LBRACKET] + x, behind);
        GapStarts(gap, [LBRACKET] + x + behind);
      case Members(gap, members, end) =>
        var x := MembersText(members) + EndText(end);
        Assoc(gap.Text(), [LBRACE] + x, behind);
        GapStarts(gap, [LBRACE] + x + behind);
    }
  }

  /** A gap with comments starts with white space and a comment. */
  lemma GapSplit(g: Gap, s: bytes) returns (more: bytes)
    requires g.comments != []
    ensures g.Text() + s == g.comments[0].0 + (g.comments[0].1 + more)
  {
    var c, rest := g.comments[0], Skipped(g.comments[1..]);
    more := rest + (g.space + s);
    Assoc(c.0 + c.1 + rest, g.space, s);
    Assoc(c.0 + c.1, rest, g.space + s);
    Assoc(c.0, c.1, more);
  }

  lemma FirstComment(g: Gap)
    requires g.Ok() && g.comments != []
    ensures SkipSpaces(g.comments[0].0) == [] && IsComment(g.comments[0].1)
  {
    hide SkipSpaces, IsComment;
  }

  lemma GapStarts(g: Gap, s: bytes)
    requires g.Ok() && s != [] && !IsSpace(s[0]) && s[0] != RBRACKET
    ensures var t := SkipSpaces(g.Text() + s); t != [] && t[0] != RBRACKET
  {
    hide SkipSpaces, IsComment, TokenAt, Skippable;
    Strings.NoSpaceFirst(s);
    if g.comments == [] {
      assert [] + g.space == g.space;
      SkipSpacesConcat(g.space, s);
    } else {
      hide Gap.Text, Gap.Ok;
      FirstComment(g);
      var c := g.comments[0];
      var more := GapSplit(g, s);
      SkipSpacesConcat(c.0, c.1 + more);
      CommentToken(c.1, more);
      CommentStarts(c.1);
    }
  }

  lemma CommentStarts(c: bytes)
    requires IsComment(c)
    ensures c != [] && c[0] == SLASH
  {
    hide FindMark;
  }

  lemma ArrayValue(s: bytes, rest: bytes, scan: Scan)
    requires Significant(s) == Token(ArrayBegin, [LBRACKET], rest)
    ensures
      var inner := SkipSpaces(rest);
      ParseValue(s, scan)
      == if inner != [] && inner[0] == RBRACKET then Some((Array([]), inner[1..]))
         else match ParseElements(rest, scan)
              case None => None
              case Some((vs, end)) => Some((Array(Numbered(vs, 0)), end))
  {
    hide Significant, ParseElements, ParseMembers, SkipSpaces, DecodeNumber, DecodeString;
  }

  lemma ObjectValue(s: bytes, rest: bytes, scan: Scan)
    requires Significant(s) == Token(ObjectBegin, [LBRACE], rest)
    ensures ParseValue(s, scan)
            == match ParseMembers(rest, [], scan)
               case None => None
               case Some((ms, end)) => Some((Object(PutAll([], ms)), end))
  {
    hide Significant, ParseElements, ParseMembers, SkipSpaces, DecodeNumber, DecodeString;
  }

  lemma ElementsEnd(s: bytes, v: Value, b: bytes, rest: bytes, scan: Scan)
    requires ParseValue(s, scan) == Some((v, b)) && Significant(b) == Token(ArrayEnd, [RBRACKET], rest)
    ensures ParseElements(s, scan) == Some(([v], rest))
  {
    hide ParseValue, Significant;
  }

  /** A document is read as its value, and exactly the document is taken. */
  lemma {:induction false} DocReads(d: Doc, behind: bytes, scan: Scan)
    requires DocFits(d, behind, scan)
    ensures ParseValue(DocText(d) + behind, scan) == Some((DocValue(d), behind))
    decreases d
  {
    hide ParseValue, ParseElements, ParseMembers, Significant, SkipSpaces, ScalarIs, Gap.Text, Gap.Ok, DecodeNumber;
    match d {
      case Scalar(gap, text, v) =>
        Assoc(gap.Text(), text, behind);
        ScalarReads(gap, text, v, behind, scan);
      case Hollow(gap, space) =>
        HollowReads(gap, space, behind, scan);
      case Elements(gap, items, last, close) =>
        var tail := close.Text() + ([RBRACKET] + behind);
        var inside := ItemsText(items) + (DocText(last) + tail);
        ElementsRegrouped(gap.Text(), ItemsText(items), DocText(last), close.Text(), behind);
        MarkRead(gap, LBRACKET, inside);
        InsideStarts(items, last, tail, scan);
        DocReads(last, tail, scan);
        ItemsRead(items, last, close, behind, scan);
        ArrayValue(DocText(d) + behind, inside, scan);
      case Members(gap, members, end) =>
        var inside := MembersText(members) + (EndText(end) + behind);
        Assoc(MembersText(members), EndText(end), behind);
        Assoc([LBRACE], MembersText(members) + EndText(end), behind);
        Assoc(gap.Text(), [LBRACE] + (MembersText(members) + EndText(end)), behind);
        MarkRead(gap, LBRACE, inside);
        MembersRead(members, end, [], behind, scan);
        ObjectValue(DocText(d) + behind, inside, scan);
    }
  }

  lemma ElementsRegrouped(a: bytes, b: bytes, c: bytes, d: bytes, e: bytes)
    ensures a + ([LBRACKET] + (b + (c + (d + [RBRACKET])))) + e == a + ([LBRACKET] + (b + (c + (d + ([RBRACKET] + e)))))
  {
    Assoc(d, [RBRACKET], e);
    Assoc(c, d + [RBRACKET], e);
    Assoc(b, c + (d + [RBRACKET]), e);
    Assoc([LBRACKET], b + (c + (d + [RBRACKET])), e);
    Assoc(a, [LBRACKET] + (b + (c + (d + [RBRACKET]))), e);
  }

  lemma HollowReads(gap: Gap, space: bytes, behind: bytes, scan: Scan)
    requires gap.Ok() && SkipSpaces(space) == []
    ensures
      var d := Hollow(gap, space);
      ParseValue(DocText(d) + behind, scan) == Some((DocValue(d), behind))
  {
    hide ParseValue, ParseElements, Significant, SkipSpaces, Gap.Text, Gap.Ok;
    var d := Hollow(gap, space);
    var inside := space + ([RBRACKET] + behind);
    Assoc(space, [RBRACKET], behind);
    Assoc([LBRACKET], space + [RBRACKET], behind);
    Assoc(gap.Text(), [LBRACKET] + (space + [RBRACKET]), behind);
    MarkRead(gap, LBRACKET, inside);
    SpaceIgnored(space, [RBRACKET] + behind);
    Strings.NoSpaceFirst([RBRACKET] + behind);
    assert ([RBRACKET] + behind)[1..] == behind;
    ArrayValue(DocText(d) + behind, inside, scan);
  }

  lemma InsideStarts(items: seq<Item>, last: Doc, tail: bytes, scan: Scan)
    requires ItemsFit(items, DocText(last) + tail, scan) && DocFits(last, tail, scan)
    ensures var s := SkipSpaces(ItemsText(items) + (DocText(last) + tail)); s != [] && s[0] != RBRACKET
  {
    hide SkipSpaces, DocFits, TokenAt, Gap.Text;
    if items == [] {
      assert [] + (DocText(last) + tail) == DocText(last) + tail;
      DocStarts(last, tail, scan);
    } else {
      assert items decreases to items[0];
      var it := items[0];
      var rest := ItemsText(items[1..]) + (DocText(last) + tail);
      ItemRegrouped(DocText(it.doc), it.behind.Text(), it.sep, ItemsText(items[1..]), DocText(last) + tail);
      DocStarts(it.doc, it.behind.Text() + (it.sep + rest), scan);
    }
  }

  lemma ItemRegrouped(a: bytes, b: bytes, c: bytes, d: bytes, e: bytes)
    ensures a + (b + (c + d)) + e == a + (b + (c + (d + e)))
  {
    Assoc(c, d, e);
    Assoc(b, c + d, e);
    Assoc(a, b + (c + d), e);
  }

  lemma {:induction false} ItemsRead(items: seq<Item>, last: Doc, close: Gap, behind: bytes, scan: Scan)
    requires close.Ok()
    requires ItemsFit(items, DocText(last) + (close.Text() + ([RBRACKET] + behind)), scan)
    requires ParseValue(DocText(last) + (close.Text() + ([RBRACKET] + behind)), scan)
             == Some((DocValue(last), close.Text() + ([RBRACKET] + behind)))
    ensures ParseElements(ItemsText(items) + (DocText(last) + (close.Text() + ([RBRACKET] + behind))), scan)
            == Some((ItemValues(items) + [DocValue(last)], behind))
    decreases items
  {
    hide ParseValue, ParseElements, Significant, TokenAt, DocFits, DocText, DocValue, Gap.Text, Gap.Ok;
    var tail := close.Text() + ([RBRACKET] + behind);
    if items == [] {
      MarkRead(close, RBRACKET, behind);
      assert [] + (DocText(last) + tail) == DocText(last) + tail && [] + [DocValue(last)] == [DocValue(last)];
      ElementsEnd(DocText(last) + tail, DocValue(last), tail, behind, scan);
    } else {
      assert items decreases to items[0];
      var it := items[0];
      var rest := ItemsText(items[1..]) + (DocText(last) + tail);
      var after := it.behind.Text() + (it.sep + rest);
      ItemRegrouped(DocText(it.doc), it.behind.Text(), it.sep, ItemsText(items[1..]), DocText(last) + tail);
      DocReads(it.doc, after, scan);
      TokenRead(it.behind, it.sep, rest);
      ItemsRead(items[1..], last, close, behind, scan);
      AnyTokenSeparates(DocValue(it.doc), DocText(it.doc) + after, after, scan);
      Assoc([DocValue(it.doc)], ItemValues(items[1..]), [DocValue(last)]);
    }
  }

  lemma MembersRound(s: bytes, last: bytes, name: bytes, named: bytes, r1: bytes, r2: bytes, v: Value, r3: bytes,
                     scan: Scan)
    requires Significant(s) == Token(JsonReader.StringToken, name, r1) && |name| >= 2
    requires DecodeString(name) == Some(named) && ReadToken(r1) == Token(MemberSeparator, [COLON], r2)
    requires ParseValue(r2, scan) == Some((v, r3))
    ensures
      var comma, end := ReadToken(r3).kind, Significant(r3);
      ParseMembers(s, last, scan)
      == if comma != ObjectEnd && comma != ArraySeparator && comma != Comment then None
         else if end.kind == ObjectEnd then Some(([(UpToNul(named), v)], end.rest))
         else match ParseMembers(end.rest, named, scan)
              case None => None
              case Some((ms, after)) => Some(([(UpToNul(named), v)] + ms, after))
  {
    hide Significant, DecodeString, ReadToken, ParseValue, UpToNul;
  }

  lemma MembersEnd(s: bytes, rest: bytes, scan: Scan)
    requires Significant(s) == Token(ObjectEnd, [RBRACE], rest)
    ensures ParseMembers(s, [], scan) == Some(([], rest))
  {
    hide Significant, DecodeString, ReadToken, ParseValue, UpToNul;
  }

  /** The very next token, comments included. */
  lemma NextToken(g: Gap, text: bytes, behind: bytes)
    requires g.Ok() && IsToken(text, behind)
    ensures ReadToken(g.Text() + (text + behind)).kind
            == if g.comments == [] then TokenAt(text + behind).kind else Comment
  {
    hide TokenAt, SkipSpaces, IsComment, Skippable;
    var s := text + behind;
    Strings.NoSpaceFirst(s);
    if g.comments == [] {
      assert [] + g.space == g.space;
      SkipSpacesConcat(g.space, s);
    } else {
      hide Gap.Text, Gap.Ok, IsToken;
      FirstComment(g);
      var c := g.comments[0];
      var more := GapSplit(g, s);
      SkipSpacesConcat(c.0, c.1 + more);
      CommentToken(c.1, more);
    }
  }

  lemma MemberRegrouped(a: bytes, b: bytes, c: bytes, d: bytes, e: bytes, f: bytes, g: bytes, h: bytes)
    ensures a + (b + (c + ([COLON] + (d + (e + (f + g)))))) + h
            == a + (b + (c + ([COLON] + (d + (e + (f + (g + h)))))))
  {
    Assoc(f, g, h);
    Assoc(e, f + g, h);
    Assoc(d, e + (f + g), h);
    Assoc([COLON], d + (e + (f + g)), h);
    Assoc(c, [COLON] + (d + (e + (f + g))), h);
    Assoc(b, c + ([COLON] + (d + (e + (f + g)))), h);
    Assoc(a, b + (c + ([COLON] + (d + (e + (f + g))))), h);
  }

  /** A name and its colon are read. */
  lemma NameReads(gap: Gap, name: bytes, named: bytes, space: bytes, r2: bytes)
    requires gap.Ok() && StringIs(name, named) && SkipSpaces(space) == []
    ensures
      var r1 := space + ([COLON] + r2);
      && Significant(gap.Text() + (name + r1)) == Token(JsonReader.StringToken, name, r1) && |name| >= 2
      && DecodeString(name) == Some(named) && ReadToken(r1) == Token(MemberSeparator, [COLON], r2)
  {
    hide Significant, TokenAt, SkipSpaces, DecodeString, StringIs, Gap.Text, Gap.Ok;
    var r1 := space + ([COLON] + r2);
    StringIsToken(name, named, r1);
    TokenRead(gap, name, r1);
    SpaceIgnored(space, [COLON] + r2);
    Strings.NoSpaceFirst([COLON] + r2);
    MarkToken(COLON, r2);
  }

  /** The separator of a member lets reading go on. */
  lemma SeparatorAllowed(behind: Gap, sep: bytes, rest: bytes)
    requires behind.Ok() && IsToken(sep, rest)
    requires sep == [RBRACE] || (behind.comments == [] ==> sep == [COMMA])
    ensures
      var comma := ReadToken(behind.Text() + (sep + rest)).kind;
      comma == ObjectEnd || comma == ArraySeparator || comma == Comment
  {
    hide ReadToken, Gap.Text, TokenAt;
    NextToken(behind, sep, rest);
    MarkToken(COMMA, rest);
    MarkToken(RBRACE, rest);
  }

  lemma {:induction false} MembersRead(members: seq<Member>, end: Option<Gap>, last: bytes, behind: bytes, scan: Scan)
    requires MembersFit(members, end, last, behind, scan)
    ensures ParseMembers(MembersText(members) + (EndText(end) + behind), last, scan)
            == Some((MemberValues(members), behind))
    decreases members
  {
    hide ParseValue, ParseMembers, Significant, TokenAt, DocFits, DocText, DocValue, Gap.Text, Gap.Ok, StringIs,
         ReadToken, SkipSpaces, DecodeString;
    if members == [] {
      var g := end.value;
      Assoc(g.Text(), [RBRACE], behind);
      assert [] + (g.Text() + ([RBRACE] + behind)) == g.Text() + ([RBRACE] + behind);
      MarkRead(g, RBRACE, behind);
      MembersEnd(g.Text() + ([RBRACE] + behind), behind, scan);
    } else {
      assert members decreases to members[0];
      var m := members[0];
      var rest := MembersText(members[1..]) + (EndText(end) + behind);
      var r3 := m.behind.Text() + (m.sep + rest);
      var r2 := DocText(m.doc) + r3;
      var s := m.gap.Text() + (m.name + (m.space + ([COLON] + r2)));
      MemberRegrouped(m.gap.Text(), m.name, m.space, DocText(m.doc), m.behind.Text(), m.sep,
                      MembersText(members[1..]), EndText(end) + behind);
      NameReads(m.gap, m.name, m.named, m.space, r2);
      DocReads(m.doc, r3, scan);
      MembersRound(s, last, m.name, m.named, m.space + ([COLON] + r2), r2, DocValue(m.doc), r3, scan);
      if |members| == 1 && end.None? {
        MarkToken(RBRACE, rest);
        assert [] + ([] + behind) == behind && members[1..] == [];
        assert MemberValues(members) == [(UpToNul(m.named), DocValue(m.doc))] + [];
        assert MemberValues(members) == [(UpToNul(m.named), DocValue(m.doc))];
      } else {
        MembersRead(members[1..], end, m.named, behind, scan);
        assert MemberValues(members) == [(UpToNul(m.named), DocValue(m.doc))] + MemberValues(members[1..]);
      }
      TokenRead(m.behind, m.sep, rest);
      SeparatorAllowed(m.behind, m.sep, rest);
    }
  }

  // ------------------------------------------------- what is read was written

  lemma {:induction false} TokenNotEmpty(s: bytes)
    ensures Significant(s).text == [] ==> Significant(s) == Token(EndOfStream, [], [])
    decreases |s|
  {
    hide SkipSpaces, TokenAt;
    TokenTaken(SkipSpaces(s));
    if ReadToken(s).kind == Comment {
      TokenNotEmpty(ReadToken(s).rest);
    }
  }

  lemma TokenTaken(s: bytes)
    ensures TokenAt(s).text == [] ==> TokenAt(s) == Token(EndOfStream, [], [])
  {
    hide ScanString, ScanComment, ScanNumber;
  }

  lemma MarkOf(text: bytes, behind: bytes)
    requires IsToken(text, behind)
    ensures
      var k := TokenAt(text + behind).kind;
      && (k == ArrayBegin ==> text == [LBRACKET]) && (k == ArrayEnd ==> text == [RBRACKET])
      && (k == ObjectBegin ==> text == [LBRACE]) && (k == ObjectEnd ==> text == [RBRACE])
      && (k == ArraySeparator ==> text == [COMMA]) && (k == MemberSeparator ==> text == [COLON])
  {
    hide ScanString, ScanComment, ScanNumber;
    var s := text + behind;
    assert s[..1] == [s[0]];
  }

  lemma WordOf(text: bytes, behind: bytes)
    requires IsToken(text, behind)
    ensures
      var k := TokenAt(text + behind).kind;
      && (k == NullToken ==> text == NULL_TEXT) && (k == TrueToken ==> text == TRUE_TEXT)
      && (k == FalseToken ==> text == FALSE_TEXT)
  {
    hide ScanString, ScanComment, ScanNumber;
    var s := text + behind;
    var k := TokenAt(s).kind;
    if k == NullToken {
      LiteralText(s, NULL_TEXT);
    } else if k == TrueToken {
      LiteralText(s, TRUE_TEXT);
    } else if k == FalseToken {
      LiteralText(s, FALSE_TEXT);
    }
  }

  lemma LiteralText(s: bytes, literal: bytes)
    requires s != [] && literal != [] && s[0] == literal[0] && literal[1..] <= s[1..]
    ensures s[..|literal|] == literal
  {
    assert s[..|literal|] == [s[0]] + s[1..][..|literal| - 1];
  }

  lemma NumberOf(text: bytes, behind: bytes)
    requires IsToken(text, behind) && TokenAt(text + behind).kind == JsonReader.NumberToken
    ensures NumberText(text) && (behind == [] || !IsNumberChar(behind[0]))
  {
    hide ScanString, ScanComment;
    var s := text + behind;
    NumberTaken(s[1..]);
    var n := ScanNumber(s[1..]);
    assert text == s[..1 + n] && behind == s[1 + n..];
    forall c | c in text ensures IsNumberChar(c) {
      var i :| 0 <= i < |text| && text[i] == c;
      assert i > 0 ==> c == s[1..][..n][i - 1];
    }
  }

  lemma {:induction false} NumberTaken(s: bytes)
    ensures (forall c <- s[..ScanNumber(s)] :: IsNumberChar(c))
    ensures ScanNumber(s) < |s| ==> !IsNumberChar(s[ScanNumber(s)])
  {
    if s != [] && IsNumberChar(s[0]) {
      NumberTaken(s[1..]);
      assert s[..ScanNumber(s)] == [s[0]] + s[1..][..ScanNumber(s[1..])];
    }
  }

  lemma ScalarOf(text: bytes, behind: bytes, v: Value, scan: Scan)
    requires IsToken(text, behind)
    requires
      match TokenAt(text + behind).kind
      case NullToken => v == Null
      case TrueToken => v == Bool(true)
      case FalseToken => v == Bool(false)
      case NumberToken => text != [] && DecodeNumber(text, scan) == Some(v)
      case StringToken => |text| >= 2 && DecodeString(text).Some? && v == Str(UpToNul(DecodeString(text).value))
      case _ => false
    ensures ScalarIs(text, v, behind, scan)
  {
    hide TokenAt, DecodeNumber, DecodeString, StringIs, UpToNul, NumberText;
    match TokenAt(text + behind).kind {
      case NumberToken => NumberOf(text, behind);
      case StringToken => StringOf(text, behind);
      case _ => WordOf(text, behind);
    }
  }

  /** The document at the start of a text that is read. */
  lemma {:induction false} DocOf(s: bytes, scan: Scan) returns (d: Doc)
    requires ParseValue(s, scan).Some?
    ensures var behind := ParseValue(s, scan).value.1; DocFits(d, behind, scan) && s == DocText(d) + behind
    decreases |s|, 1
  {
    hide ParseValue, ParseElements, ParseMembers, Significant, TokenAt, SkipSpaces, DecodeNumber, DecodeString,
         ScalarIs, Gap.Ok, Gap.Text, UpToNul;
    var t := Significant(s);
    TokenNotEmpty(s);
    ScalarValue(s, scan);
    var g, text := GapOf(s);
    MarkOf(text, t.rest);
    if t.kind == ArrayBegin {
      d := ArrayOf(s, g, scan);
    } else if t.kind == ObjectBegin {
      ObjectValue(s, t.rest, scan);
      var members, end := MembersOf(t.rest, [], scan);
      var behind := ParseValue(s, scan).value.1;
      d := Members(g, members, end);
      Assoc(MembersText(members), EndText(end), behind);
      Assoc([LBRACE], MembersText(members) + EndText(end), behind);
      Assoc(g.Text(), [LBRACE] + (MembersText(members) + EndText(end)), behind);
    } else {
      d := Scalar(g, text, ParseValue(s, scan).value.0);
      ScalarOf(text, t.rest, d.v, scan);
      Assoc(g.Text(), text, t.rest);
    }
  }

  lemma {:induction false} ArrayOf(s: bytes, g: Gap, scan: Scan) returns (d: Doc)
    requires ParseValue(s, scan).Some? && Significant(s) == Token(ArrayBegin, [LBRACKET], Significant(s).rest)
    requires g.Ok() && s == g.Text() + ([LBRACKET] + Significant(s).rest)
    ensures var behind := ParseValue(s, scan).value.1; DocFits(d, behind, scan) && s == DocText(d) + behind
    decreases |s|, 0
  {
    hide ParseValue, ParseElements, Significant, SkipSpaces, Gap.Ok, Gap.Text;
    var rest := Significant(s).rest;
    ArrayValue(s, rest, scan);
    var behind := ParseValue(s, scan).value.1;
    var inner := SkipSpaces(rest);
    if inner != [] && inner[0] == RBRACKET {
      var space := SpacesOf(rest);
      d := Hollow(g, space);
      assert inner == [RBRACKET] + behind;
      Assoc(space, [RBRACKET], behind);
      Assoc([LBRACKET], space + [RBRACKET], behind);
      Assoc(g.Text(), [LBRACKET] + (space + [RBRACKET]), behind);
    } else {
      var items, last, close := ElementsOf(rest, scan);
      d := Elements(g, items, last, close);
      ElementsRegrouped(g.Text(), ItemsText(items), DocText(last), close.Text(), behind);
    }
  }

  lemma ElementsStages(s: bytes, scan: Scan) returns (v: Value, b: bytes)
    requires ParseElements(s, scan).Some?
    ensures ParseValue(s, scan) == Some((v, b)) && Significant(b).text != []
    ensures Significant(b).kind == ArrayEnd ==> ParseElements(s, scan).value.1 == Significant(b).rest
    ensures Significant(b).kind != ArrayEnd ==>
              && ParseElements(Significant(b).rest, scan).Some?
              && ParseElements(s, scan).value.1 == ParseElements(Significant(b).rest, scan).value.1
  {
    hide ParseValue, Significant;
    v, b := ParseValue(s, scan).value.0, ParseValue(s, scan).value.1;
    TokenNotEmpty(b);
    NothingRead(scan);
  }

  lemma NothingRead(scan: Scan)
    ensures ParseValue([], scan) == None && ParseElements([], scan) == None
  {
    assert SkipSpaces([]) == [];
    assert TokenAt([]) == Token(EndOfStream, [], []);
    ScalarValue([], scan);
  }

  lemma {:induction false} ElementsOf(s: bytes, scan: Scan) returns (items: seq<Item>, last: Doc, close: Gap)
    requires ParseElements(s, scan).Some?
    ensures
      var behind := ParseElements(s, scan).value.1;
      var tail := close.Text() + ([RBRACKET] + behind);
      && close.Ok() && ItemsFit(items, DocText(last) + tail, scan) && DocFits(last, tail, scan)
      && s == ItemsText(items) + (DocText(last) + tail)
    decreases |s|, 2
  {
    hide ParseValue, ParseElements, Significant, TokenAt, DocFits, DocText, Gap.Ok, Gap.Text;
    var v, b := ElementsStages(s, scan);
    var d := DocOf(s, scan);
    var g, sep := GapOf(b);
    MarkOf(sep, Significant(b).rest);
    if Significant(b).kind == ArrayEnd {
      items, last, close := [], d, g;
      assert [] + s == s;
    } else {
      var more;
      more, last, close := ElementsOf(Significant(b).rest, scan);
      items := [Item(d, g, sep)] + more;
      assert items[1..] == more;
      var tail := close.Text() + ([RBRACKET] + ParseElements(s, scan).value.1);
      ItemRegrouped(DocText(d), g.Text(), sep, ItemsText(more), DocText(last) + tail);
    }
  }

  /** The stages of one round of readObject at a name. */
  lemma MembersStages(s: bytes, last: bytes, scan: Scan) returns (named: bytes, r2: bytes, v: Value, r3: bytes)
    requires ParseMembers(s, last, scan).Some? && Significant(s).kind != ObjectEnd
    ensures
      var t := Significant(s);
      && t.kind == JsonReader.StringToken && |t.text| >= 2 && DecodeString(t.text) == Some(named)
      && ReadToken(t.rest).kind == MemberSeparator && ReadToken(t.rest).rest == r2
      && ParseValue(r2, scan) == Some((v, r3))
    ensures
      var comma, end := ReadToken(r3).kind, Significant(r3);
      && (comma == ObjectEnd || comma == ArraySeparator || comma == Comment) && end.text != []
      && (if end.kind == ObjectEnd then ParseMembers(s, last, scan).value.1 == end.rest
          else ParseMembers(end.rest, named, scan).Some?
               && ParseMembers(s, last, scan).value.1 == ParseMembers(end.rest, named, scan).value.1)
  {
    hide Significant, DecodeString, ReadToken, ParseValue, UpToNul;
    SignificantText(s);
    var t := Significant(s);
    named := DecodeString(t.text).value;
    r2 := ReadToken(t.rest).rest;
    v, r3 := ParseValue(r2, scan).value.0, ParseValue(r2, scan).value.1;
    TokenNotEmpty(r3);
    NoMembersRead(named, scan);
  }

  lemma NoMembersRead(last: bytes, scan: Scan)
    ensures ParseMembers([], last, scan) == None
  {
    assert SkipSpaces([]) == [];
    assert TokenAt([]) == Token(EndOfStream, [], []);
  }

  lemma EmptyMembers(s: bytes, last: bytes, scan: Scan)
    requires ParseMembers(s, last, scan).Some? && Significant(s).kind == ObjectEnd
    ensures last == [] && ParseMembers(s, last, scan).value.1 == Significant(s).rest
  {
    hide Significant, DecodeString, ReadToken, ParseValue, UpToNul;
  }

  /** The white space in front of a colon, and the colon. */
  lemma ColonOf(s: bytes) returns (space: bytes)
    requires ReadToken(s).kind == MemberSeparator
    ensures SkipSpaces(space) == [] && s == space + ([COLON] + ReadToken(s).rest)
  {
    hide SkipSpaces, TokenAt;
    space := SpacesOf(s);
    ColonTaken(SkipSpaces(s));
  }

  lemma ColonTaken(s: bytes)
    requires TokenAt(s).kind == MemberSeparator
    ensures s == [COLON] + TokenAt(s).rest
  {
    hide ScanString, ScanComment, ScanNumber;
    assert s == [s[0]] + s[1..];
  }

  /** The separator of a member, and what stands in front of it. */
  lemma SeparatorOf(r3: bytes) returns (g: Gap, sep: bytes)
    requires Significant(r3).text != []
    requires var comma := ReadToken(r3).kind; comma == ObjectEnd || comma == ArraySeparator || comma == Comment
    ensures
      var rest := Significant(r3).rest;
      && g.Ok() && IsToken(sep, rest) && r3 == g.Text() + (sep + rest) && Significant(r3) == TokenAt(sep + rest)
      && (Significant(r3).kind == ObjectEnd ==> sep == [RBRACE])
      && (Significant(r3).kind != ObjectEnd ==> (g.comments == [] ==> sep == [COMMA]))
  {
    hide Significant, ReadToken, TokenAt, Gap.Ok, Gap.Text;
    g, sep := GapOf(r3);
    MarkOf(sep, Significant(r3).rest);
    NextToken(g, sep, Significant(r3).rest);
  }

  lemma {:induction false} MembersOf(s: bytes, last: bytes, scan: Scan) returns (members: seq<Member>, end: Option<Gap>)
    requires ParseMembers(s, last, scan).Some?
    ensures
      var behind := ParseMembers(s, last, scan).value.1;
      MembersFit(members, end, last, behind, scan) && s == MembersText(members) + (EndText(end) + behind)
    decreases |s|, 2
  {
    hide ParseValue, ParseMembers, Significant, TokenAt, ReadToken, DocFits, DocText, Gap.Ok, Gap.Text, SkipSpaces,
         StringIs, DecodeString;
    var behind := ParseMembers(s, last, scan).value.1;
    TokenNotEmpty(s);
    if Significant(s).kind == ObjectEnd {
      EmptyMembers(s, last, scan);
      var g, text := GapOf(s);
      MarkOf(text, behind);
      members, end := [], Some(g);
      Assoc(g.Text(), [RBRACE], behind);
      assert [] + s == s;
    } else {
      var named, r2, v, r3 := MembersStages(s, last, scan);
      var gap, name := GapOf(s);
      StringOf(name, Significant(s).rest);
      var space := ColonOf(Significant(s).rest);
      var d := DocOf(r2, scan);
      var g, sep := SeparatorOf(r3);
      var rest := Significant(r3).rest;
      var m := Member(gap, name, named, space, d, g, sep);
      if Significant(r3).kind == ObjectEnd {
        members, end := [m], None;
        assert [] + ([] + behind) == behind && [] + behind == behind && members[1..] == [];
        MemberRegrouped(gap.Text(), name, space, DocText(d), g.Text(), sep, [], [] + behind);
        assert sep + [] == sep;
      } else {
        var more;
        more, end := MembersOf(rest, named, scan);
        members := [m] + more;
        assert members[1..] == more;
        LastMember(more, end, named, behind, scan);
        MemberRegrouped(gap.Text(), name, space, DocText(d), g.Text(), sep, MembersText(more), EndText(end) + behind);
      }
    }
  }

  /** Behind a separator something follows. */
  lemma LastMember(members: seq<Member>, end: Option<Gap>, last: bytes, behind: bytes, scan: Scan)
    requires MembersFit(members, end, last, behind, scan)
    ensures members != [] || end.Some?
  {
  }

  /** Exactly the texts that start with a document of this grammar are read, and each as the
      document's value: brackets close, members have names and colons. What is more liberal
      than the standard: comments; any token between the elements of an array, and behind a
      comment between members; raw control characters and any pairing of surrogates in
      strings; whatever follows the document. */
  lemma ParseIff(text: bytes, v: Value, scan: Scan)
    ensures Parse(text, scan) == Some(v) <==>
            exists d: Doc, rest: bytes :: DocFits(d, rest, scan) && text == DocText(d) + rest && v == DocValue(d)
  {
    hide ParseValue, DocFits, DocText, DocValue;
    if d: Doc, rest: bytes :| DocFits(d, rest, scan) && text == DocText(d) + rest && v == DocValue(d) {
      DocReads(d, rest, scan);
    }
    if Parse(text, scan) == Some(v) {
      var d := DocOf(text, scan);
      var rest := ParseValue(text, scan).value.1;
      DocReads(d, rest, scan);
      assert DocFits(d, rest, scan) && text == DocText(d) + rest && v == DocValue(d);
    }
  }
}
