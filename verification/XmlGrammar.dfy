/** The grammar that tinyxml2 reads: exactly which texts are accepted, and as what. */
module XmlGrammar {
  import opened Wrappers
  import opened Bytes
  import opened XmlText
  import opened XmlTree
  import opened XmlReader
  import opened XmlRoundTrip

  // ------------------------------------------------------------- attributes

  /** An attribute as it is written: white space, name, "=" in white space, quoted value. */
  datatype Attribute = Attribute(space: bytes, name: bytes, before: bytes, behind: bytes, quote: byte, raw: bytes) {
    ghost predicate Ok() {
      && Blank(space) && IsName(name) && Blank(before) && Blank(behind)
      && (quote == QUOT || quote == APOS) && quote !in raw
    }

    function Text(): bytes {
      space + (name + (before + ([EQUALS] + (behind + ([quote] + (raw + [quote]))))))
    }

    function Meaning(): (bytes, bytes) {
      (name, Decode(raw, 0, [], TEXT_ELEMENT))
    }
  }

  function AttributeTexts(attrs: seq<Attribute>): bytes {
    if attrs == [] then [] else attrs[0].Text() + AttributeTexts(attrs[1..])
  }

  function Meanings(attrs: seq<Attribute>): seq<(bytes, bytes)> {
    if attrs == [] then [] else [attrs[0].Meaning()] + Meanings(attrs[1..])
  }

  ghost predicate AttributesOk(attrs: seq<Attribute>) {
    forall i | 0 <= i < |attrs| :: attrs[i].Ok()
  }

  ghost predicate Distinct(attrs: seq<Attribute>) {
    forall i, j | 0 <= i < j < |attrs| :: attrs[i].name != attrs[j].name
  }

  /** None of the names has been met before. */
  ghost predicate Fresh(before: seq<(bytes, bytes)>, attrs: seq<Attribute>) {
    forall i | 0 <= i < |attrs| :: !HasName(before, attrs[i].name)
  }

  lemma FreshStep(before: seq<(bytes, bytes)>, attrs: seq<Attribute>)
    requires attrs != []
    ensures Fresh(before, attrs) && Distinct(attrs) <==>
              && !HasName(before, attrs[0].name)
              && Fresh(before + [attrs[0].Meaning()], attrs[1..]) && Distinct(attrs[1..])
  {
    var a, now := attrs[0], before + [attrs[0].Meaning()];
    assert forall i | 0 < i < |attrs| :: attrs[i] == attrs[1..][i - 1];
    forall b: bytes ensures HasName(now, b) <==> HasName(before, b) || a.name == b {
      assert now[|before|] == a.Meaning();
    }
    if !HasName(before, a.name) && Fresh(now, attrs[1..]) && Distinct(attrs[1..]) {
      forall i, j | 0 <= i < j < |attrs| ensures attrs[i].name != attrs[j].name {
        assert attrs[j] in attrs[1..];
      }
    }
  }

  /** White space, and the mark that ends a tag. */
  function TagEnd(space: bytes, sealed: bool): bytes {
    space + if sealed then [SLASH, GT] else [GT]
  }

  lemma AttributeReads(a: Attribute, rest: bytes)
    requires a.Ok()
    ensures SkipWhiteSpace(a.Text() + rest) == a.Text()[|a.space|..] + rest
    ensures ParseAttribute(a.Text()[|a.space|..] + rest) == Some((a.Meaning(), rest))
    ensures var s := a.Text()[|a.space|..] + rest; s != [] && IsNameStart(s[0])
  {
    hide Decode, IsName, ParseAttribute, SkipWhiteSpace, Blank;
    var value := [a.quote] + (a.raw + [a.quote]);
    var t := a.name + (a.before + ([EQUALS] + (a.behind + value)));
    assert a.Text() == a.space + t && a.Text()[|a.space|..] == t;
    NameNonEmpty(a.name);
    assert (t + rest)[0] == a.name[0];
    Assoc(a.space, t, rest);
    SkipBlank(a.space, t + rest);
    NameIsSolid(a.name);
    NothingToSkip(t + rest);
    AttributeInEitherQuotes(a.name, a.before, a.behind, a.quote, a.raw, rest);
    QuotedRegrouped(a, rest);
  }

  lemma NameIsSolid(name: bytes)
    requires IsName(name)
    ensures name != [] && !IsWhiteSpace(name[0])
  {
  }

  lemma QuotedRegrouped(a: Attribute, rest: bytes)
    ensures a.name + (a.before + ([EQUALS] + (a.behind + ([a.quote] + (a.raw + [a.quote]))))) + rest
            == a.name + (a.before + ([EQUALS] + (a.behind + ([a.quote] + (a.raw + ([a.quote] + rest))))))
  {
    Assoc(a.raw, [a.quote], rest);
    Assoc([a.quote], a.raw + [a.quote], rest);
    Assoc(a.behind, [a.quote] + (a.raw + [a.quote]), rest);
    Assoc([EQUALS], a.behind + ([a.quote] + (a.raw + [a.quote])), rest);
    Assoc(a.before, [EQUALS] + (a.behind + ([a.quote] + (a.raw + [a.quote]))), rest);
    Assoc(a.name, a.before + ([EQUALS] + (a.behind + ([a.quote] + (a.raw + [a.quote])))), rest);
  }

  /** One round of ParseAttributes at a name. */
  lemma AttributesRound(s: bytes, before: seq<(bytes, bytes)>)
    requires SkipWhiteSpace(s) != [] && IsNameStart(SkipWhiteSpace(s)[0])
    requires ParseAttribute(SkipWhiteSpace(s)).Some?
    ensures
      var r := ParseAttribute(SkipWhiteSpace(s)).value;
      ParseAttributes(s, before) == if HasName(before, r.0.0) then None else ParseAttributes(r.1, before + [r.0])
  {
    hide ParseAttribute, SkipWhiteSpace, HasName;
  }

  lemma EndReads(space: bytes, sealed: bool, rest: bytes, before: seq<(bytes, bytes)>)
    requires Blank(space)
    ensures ParseAttributes(TagEnd(space, sealed) + rest, before) == Some((sealed, before, rest))
  {
    hide ParseAttribute, Blank;
    var mark := if sealed then [SLASH, GT] else [GT];
    Assoc(space, mark, rest);
    SkipBlank(space, mark + rest);
    NothingToSkip(mark + rest);
    assert (mark + rest)[|mark|..] == rest;
  }

  lemma {:induction false} AttributesRead(attrs: seq<Attribute>, space: bytes, sealed: bool, rest: bytes,
                                          before: seq<(bytes, bytes)>)
    requires AttributesOk(attrs) && Distinct(attrs) && Fresh(before, attrs) && Blank(space)
    ensures ParseAttributes(AttributeTexts(attrs) + TagEnd(space, sealed) + rest, before)
            == Some((sealed, before + Meanings(attrs), rest))
    decreases |attrs|
  {
    hide ParseAttributes, ParseAttribute, SkipWhiteSpace, Attribute.Ok, Attribute.Text, Attribute.Meaning,
         HasName, Distinct, Fresh, TagEnd;
    if attrs == [] {
      assert [] + TagEnd(space, sealed) == TagEnd(space, sealed) && before + [] == before;
      EndReads(space, sealed, rest, before);
    } else {
      var a, end := attrs[0], TagEnd(space, sealed);
      assert AttributesOk(attrs[1..]);
      var more := AttributeTexts(attrs[1..]) + end + rest;
      assert AttributeTexts(attrs) + end + rest == a.Text() + more;
      AttributeReads(a, more);
      AttributesRound(a.Text() + more, before);
      FreshStep(before, attrs);
      MeaningName(a);
      AttributesRead(attrs[1..], space, sealed, rest, before + [a.Meaning()]);
      Assoc(before, [a.Meaning()], Meanings(attrs[1..]));
    }
  }

  lemma MeaningName(a: Attribute)
    ensures a.Meaning().0 == a.name
  {
  }

  lemma {:induction false} NameTaken(s: bytes)
    ensures forall c <- s[..NameLength(s)] :: IsNameChar(c)
    ensures NameLength(s) < |s| ==> !IsNameChar(s[NameLength(s)])
  {
    if s != [] && IsNameChar(s[0]) {
      NameTaken(s[1..]);
      assert s[..NameLength(s)] == [s[0]] + s[1..][..NameLength(s[1..])];
    }
  }

  lemma {:induction false} SpaceTaken(s: bytes) returns (space: bytes)
    ensures Blank(space) && s == space + SkipWhiteSpace(s)
  {
    if s != [] && IsWhiteSpace(s[0]) {
      var more := SpaceTaken(s[1..]);
      space := [s[0]] + more;
      assert s == [s[0]] + s[1..];
    } else {
      space := [];
    }
  }

  /** What ParseAttribute has read was written as an attribute. */
  lemma AttributeOf(s: bytes) returns (a: Attribute)
    requires ParseAttribute(s).Some?
    ensures a.Ok() && a.space == [] && s == a.Text() + ParseAttribute(s).value.1
    ensures a.Meaning() == ParseAttribute(s).value.0
  {
    hide Decode, FindMark, SkipWhiteSpace, NameLength;
    var n := ParseName(s);
    var name := s[..n];
    NameTaken(s);
    assert name[0] == s[0] && IsName(name);
    var t := SkipWhiteSpace(s[n..]);
    var u := SkipWhiteSpace(t[1..]);
    var before := SpaceTaken(s[n..]);
    var behind := SpaceTaken(t[1..]);
    var body := u[1..];
    var end := FindMark(body, [u[0]]);
    var rest := body[end + 1..];
    a := Attribute([], name, before, behind, u[0], body[..end]);
    QuoteNotIn(body, u[0]);
    assert body == body[..end] + ([u[0]] + rest);
    assert u == [u[0]] + body && t == [EQUALS] + t[1..] && s == name + s[n..];
    QuotedRegrouped(a, rest);
    assert a.Text() == a.name + (a.before + ([EQUALS] + (a.behind + ([a.quote] + (a.raw + [a.quote])))));
  }

  lemma NotQuoteAt(body: bytes, quote: byte, i: nat)
    requires i < FindMark(body, [quote]) <= |body|
    ensures body[i] != quote
  {
    hide FindMark;
    NoneBefore(body, [quote], i);
    assert body[i..i + 1] == [body[i]];
  }

  lemma QuoteNotIn(body: bytes, quote: byte)
    requires FindMark(body, [quote]) < |body|
    ensures quote !in body[..FindMark(body, [quote])] && body[FindMark(body, [quote])] == quote
  {
    hide FindMark;
    var k := FindMark(body, [quote]);
    var head := body[..k];
    assert body[k] == body[k..k + 1][0];
    forall i | 0 <= i < |head| ensures head[i] != quote {
      NotQuoteAt(body, quote, i);
    }
  }

  /** What ParseAttributes has read was written as attributes with different names. */
  lemma {:induction false} AttributesOf(s: bytes, before: seq<(bytes, bytes)>)
    returns (attrs: seq<Attribute>, space: bytes)
    requires ParseAttributes(s, before).Some?
    ensures
      var (sealed, all, rest) := ParseAttributes(s, before).value;
      && AttributesOk(attrs) && Distinct(attrs) && Fresh(before, attrs) && Blank(space)
      && s == AttributeTexts(attrs) + TagEnd(space, sealed) + rest && all == before + Meanings(attrs)
    decreases |s|
  {
    hide ParseAttribute, SkipWhiteSpace, Attribute.Ok, Attribute.Text, Attribute.Meaning, HasName, Distinct, Fresh,
         Blank;
    var first := SpaceTaken(s);
    var t := SkipWhiteSpace(s);
    if IsNameStart(t[0]) {
      var a := AttributeOf(t);
      var rest := ParseAttribute(t).value.1;
      var more;
      more, space := AttributesOf(rest, before + [a.Meaning()]);
      var b := Shifted(a, first, rest);
      attrs := [b] + more;
      assert attrs[1..] == more;
      MeaningName(a);
      FreshStep(before, attrs);
      Assoc(before, [b.Meaning()], Meanings(more));
      var (sealed, _, end) := ParseAttributes(s, before).value;
      AttributesRegrouped(b.Text(), AttributeTexts(more), TagEnd(space, sealed), end);
    } else {
      attrs, space := [], first;
      NothingWritten(before);
      assert before + [] == before;
      if t[0] == GT {
        assert t == [GT] + t[1..];
        assert s == [] + (first + [GT]) + t[1..];
      } else {
        assert t == [SLASH, GT] + t[2..];
        assert s == [] + (first + [SLASH, GT]) + t[2..];
      }
    }
  }

  lemma NothingWritten(before: seq<(bytes, bytes)>)
    ensures Distinct([]) && Fresh(before, [])
  {
  }

  /** The same attribute behind white space. */
  lemma Shifted(a: Attribute, space: bytes, rest: bytes) returns (b: Attribute)
    requires a.Ok() && a.space == [] && Blank(space)
    ensures b.Ok() && b.name == a.name && b.Meaning() == a.Meaning() && space + (a.Text() + rest) == b.Text() + rest
    ensures b.space == space
  {
    b := a.(space := space);
    assert a.Text() == [] + (a.name + (a.before + ([EQUALS] + (a.behind + ([a.quote] + (a.raw + [a.quote]))))));
    Assoc(space, a.Text(), rest);
  }

  lemma AttributesRegrouped(a: bytes, b: bytes, c: bytes, d: bytes)
    ensures a + (b + c + d) == (a + b) + c + d
  {
  }

  // ------------------------------------------------------------------- tags

  /** A tag behind its "<". White space may stand in front of the name, of the attributes and
      of the end; only the first attribute needs some. */
  datatype TagText = TagText(space: bytes, slash: bool, name: bytes, attrs: seq<Attribute>, end: bytes, sealed: bool) {
    ghost predicate Ok() {
      && Blank(space) && IsName(name) && AttributesOk(attrs) && Distinct(attrs) && Blank(end)
      && (attrs != [] ==> attrs[0].space != [])
    }

    function Text(): bytes {
      space + ((if slash then [SLASH] else []) + (name + (AttributeTexts(attrs) + TagEnd(end, sealed))))
    }

    function Meaning(rest: bytes): Tag {
      Tag(if sealed then CLOSED else if slash then CLOSING else OPEN, name, Meanings(attrs), rest)
    }
  }

  lemma BlankHead(s: bytes)
    requires Blank(s) && s != []
    ensures IsWhiteSpace(s[0]) && !IsNameChar(s[0])
  {
    assert s[0] in s;
  }

  /** The name of a tag ends where it should. */
  lemma NameStops(t: TagText, rest: bytes)
    requires t.Ok()
    ensures var s := AttributeTexts(t.attrs) + TagEnd(t.end, t.sealed) + rest; s != [] && !IsNameChar(s[0])
  {
    hide IsName, Distinct;
    if t.attrs != [] {
      var a := t.attrs[0];
      assert a.Ok();
      BlankHead(a.space);
      assert a.Text()[0] == a.space[0];
    } else if t.end != [] {
      BlankHead(t.end);
    }
  }

  lemma TagReads(t: TagText, rest: bytes)
    requires t.Ok()
    ensures ParseTag(t.Text() + rest) == Some(t.Meaning(rest))
  {
    hide ParseAttributes, ParseName, SkipWhiteSpace, IsName, Distinct, AttributesOk, Blank, AttributeTexts, TagEnd,
         IsNameChar;
    var slash := if t.slash then [SLASH] else [];
    var more := AttributeTexts(t.attrs) + TagEnd(t.end, t.sealed);
    var u := t.name + (more + rest);
    var s := slash + u;
    NameStops(t, rest);
    NameIsSolid(t.name);
    NameIsNoSlash(t.name);
    TagRegrouped(t.space, slash, t.name, more, rest);
    SkipBlank(t.space, s);
    NothingToSkip(s);
    NameRead(t.name, more + rest);
    assert t.slash ==> s[1..] == u;
    assert !t.slash ==> s == u && s[0] == t.name[0];
    assert Fresh([], t.attrs);
    AttributesRead(t.attrs, t.end, t.sealed, rest, []);
    assert [] + Meanings(t.attrs) == Meanings(t.attrs);
  }

  lemma NameIsNoSlash(name: bytes)
    requires IsName(name)
    ensures name[0] != SLASH && !IsWhiteSpace(SLASH)
  {
  }

  lemma TagRegrouped(a: bytes, b: bytes, c: bytes, d: bytes, e: bytes)
    ensures a + (b + (c + d)) + e == a + (b + (c + (d + e)))
  {
    Assoc(c, d, e);
    Assoc(b, c + d, e);
    Assoc(a, b + (c + d), e);
  }

  /** The stages of ParseTag. */
  lemma TagStages(s: bytes) returns (slash: bool, u: bytes)
    requires ParseTag(s).Some?
    ensures SkipWhiteSpace(s) == (if slash then [SLASH] else []) + u
    ensures ParseName(u) > 0 && ParseAttributes(u[ParseName(u)..], []).Some?
    ensures
      var r := ParseAttributes(u[ParseName(u)..], []).value;
      ParseTag(s).value == Tag(if r.0 then CLOSED else if slash then CLOSING else OPEN, u[..ParseName(u)], r.1, r.2)
  {
    hide ParseAttributes, SkipWhiteSpace, ParseName;
    var v := SkipWhiteSpace(s);
    slash := v != [] && v[0] == SLASH;
    u := if slash then v[1..] else v;
    assert slash ==> v == [SLASH] + u;
    assert !slash ==> v == [] + u;
  }

  lemma NameOf(u: bytes)
    requires ParseName(u) > 0
    ensures
      var n := ParseName(u);
      IsName(u[..n]) && u == u[..n] + u[n..] && (n < |u| ==> !IsNameChar(u[n]))
  {
    NameTaken(u);
    assert u[..ParseName(u)][0] == u[0];
  }

  /** What ParseTag has read was written as a tag. */
  lemma TagOf(s: bytes) returns (t: TagText)
    requires ParseTag(s).Some?
    ensures t.Ok() && s == t.Text() + ParseTag(s).value.rest && ParseTag(s).value == t.Meaning(ParseTag(s).value.rest)
  {
    hide ParseTag, ParseAttributes, ParseName, IsName, SkipWhiteSpace, Distinct, AttributesOk, Blank, AttributeTexts,
         TagEnd, Fresh, Meanings;
    var space := SpaceTaken(s);
    var slash, u := TagStages(s);
    var n := ParseName(u);
    NameOf(u);
    var attrs, end := AttributesOf(u[n..], []);
    var (sealed, all, rest) := ParseAttributes(u[n..], []).value;
    t := TagText(space, slash, u[..n], attrs, end, sealed);
    assert [] + Meanings(attrs) == Meanings(attrs);
    TagRegrouped(space, if slash then [SLASH] else [], u[..n], AttributeTexts(attrs) + TagEnd(end, sealed), rest);
    if attrs != [] {
      RestNotEmpty(attrs, TagEnd(end, sealed) + rest);
      Assoc(AttributeTexts(attrs), TagEnd(end, sealed), rest);
      FirstHasSpace(attrs, u[n..], TagEnd(end, sealed), rest);
    }
  }

  lemma RestNotEmpty(attrs: seq<Attribute>, rest: bytes)
    requires attrs != []
    ensures AttributeTexts(attrs) + rest != []
  {
    assert attrs[0].Text() != [];
  }

  lemma FirstByteOf(a: Attribute)
    requires a.Ok()
    ensures a.Text() != [] && (a.space == [] ==> IsNameStart(a.Text()[0]))
  {
  }

  lemma FirstHasSpace(attrs: seq<Attribute>, s: bytes, end: bytes, rest: bytes)
    requires attrs != [] && AttributesOk(attrs) && s != [] && !IsNameChar(s[0])
    requires s == AttributeTexts(attrs) + end + rest
    ensures attrs[0].space != []
  {
    FirstByteOf(attrs[0]);
    assert s[0] == attrs[0].Text()[0];
  }

  // ------------------------------------------------------------------ nodes

  /** Text up to the next tag, a marked stretch, an element sealed by "/>", or an element with
      its content and its end tag. */
  datatype Item =
    | Run(raw: bytes)
    | Stretch(space: bytes, kind: Kind, raw: bytes)
    | Empty(space: bytes, tag: TagText)
    | Full(space: bytes, tag: TagText, inner: seq<Item>, ending: bytes, endTag: TagText)

  function ItemText(it: Item): bytes
    decreases it
  {
    match it
    case Run(raw) => raw
    case Stretch(space, kind, raw) => space + (Open(kind) + (raw + Close(kind)))
    case Empty(space, tag) => space + ([LT] + tag.Text())
    case Full(space, tag, inner, ending, endTag) =>
      space + ([LT] + (tag.Text() + (Texts(inner) + (ending + ([LT] + endTag.Text())))))
  }

  function Texts(items: seq<Item>): bytes
    decreases items
  {
    if items == [] then [] else ItemText(items[0]) + Texts(items[1..])
  }

  function ItemNode(it: Item): Node
    decreases it
  {
    match it
    case Run(raw) => Text(Decode(raw, 0, [], TEXT_ELEMENT))
    case Stretch(_, kind, raw) => Marked(kind, Decode(raw, 0, [], MARKUP))
    case Empty(_, tag) => Element(tag.name, Meanings(tag.attrs), [])
    case Full(_, tag, inner, _, _) => Element(tag.name, Meanings(tag.attrs), Nodes(inner))
  }

  function Nodes(items: seq<Item>): seq<Node>
    decreases items
  {
    if items == [] then [] else [ItemNode(items[0])] + Nodes(items[1..])
  }

  const DASHES: bytes := [0x2D, 0x2D]
  const CDATA_WORD: bytes := [0x5B, 0x43, 0x44, 0x41, 0x54, 0x41, 0x5B]

  /** `it` may stand in front of `behind`, inside `depth` elements and after these nodes. */
  ghost predicate ItemFits(it: Item, behind: bytes, depth: nat, top: bool, before: seq<Node>)
    decreases it, 0
  {
    match it
    case Run(raw) => !Blank(raw) && LT !in raw && |behind| > 1 && behind[0] == LT
    case Stretch(space, kind, raw) =>
      && Blank(space) && FindMark(raw + (Close(kind) + behind), Close(kind)) == |raw|
      && (kind.Unknown? ==>
            !(DASHES <= raw + (Close(kind) + behind)) && !(CDATA_WORD <= raw + (Close(kind) + behind)))
      && (kind.Declaration? ==> WellLocated(top, before))
    case Empty(space, tag) => Blank(space) && tag.Ok() && tag.sealed
    case Full(space, tag, inner, ending, endTag) =>
      && Blank(space) && tag.Ok() && !tag.slash && !tag.sealed
      && Blank(ending) && endTag.Ok() && endTag.slash && !endTag.sealed && endTag.name == tag.name
      && depth + 1 < MAX_DEPTH
      && AllFit(inner, ending + ([LT] + (endTag.Text() + behind)), depth + 1, false, [])
  }

  ghost predicate AllFit(items: seq<Item>, behind: bytes, depth: nat, top: bool, before: seq<Node>)
    decreases items, 1
  {
    items != [] ==>
      && ItemFits(items[0], Texts(items[1..]) + behind, depth, top, before)
      && AllFit(items[1..], behind, depth, top, before + [ItemNode(items[0])])
  }

  /** Where a list of nodes ends: nothing but white space is left, or an end tag follows. */
  ghost predicate EndTagAt(s: bytes, space: bytes, t: TagText, rest: bytes) {
    Blank(space) && t.Ok() && t.slash && !t.sealed && s == space + ([LT] + (t.Text() + rest))
  }

  /** A declaration stands in the document itself, behind nothing but declarations. */
  ghost predicate DeclarationsFirst(nodes: seq<Node>, top: bool) {
    forall i | 0 <= i < |nodes| && IsDeclaration(nodes[i]) :: top && forall j | 0 <= j < i :: IsDeclaration(nodes[j])
  }

  lemma DeclarationNext(before: seq<Node>, node: Node, top: bool)
    requires DeclarationsFirst(before, top)
    ensures DeclarationsFirst(before + [node], top) <==> (IsDeclaration(node) ==> WellLocated(top, before))
  {
    var nodes := before + [node];
    assert forall i | 0 <= i < |before| :: nodes[i] == before[i];
    assert nodes[|before|] == node;
  }

  /** Where declarations fit is where they come first. */
  lemma {:induction false} DeclarationsFit(items: seq<Item>, behind: bytes, depth: nat, top: bool, before: seq<Node>)
    requires AllFit(items, behind, depth, top, before) && DeclarationsFirst(before, top)
    ensures DeclarationsFirst(before + Nodes(items), top)
  {
    if items == [] {
      assert before + [] == before;
    } else {
      hide ItemText, DeclarationsFirst, Decode, Blank, WellLocated;
      DeclarationNext(before, ItemNode(items[0]), top);
      DeclarationsFit(items[1..], behind, depth, top, before + [ItemNode(items[0])]);
      Assoc(before, [ItemNode(items[0])], Nodes(items[1..]));
    }
  }

  // ------------------------------------------------- what is written is read

  lemma RunStep(raw: bytes, behind: bytes, depth: nat, top: bool, before: seq<Node>)
    requires ItemFits(Run(raw), behind, depth, top, before)
    ensures ParseChildren(raw + behind, depth, top, before)
            == ParseChildren(behind, depth, top, before + [ItemNode(Run(raw))])
  {
    hide ParseTag, Decode, FindMark, SkipWhiteSpace, Blank;
    var s := raw + behind;
    RunShows(raw, behind);
    NoMarkIn(raw, LT);
    assert behind == [LT] + behind[1..];
    FindFirstMark(raw, [LT], behind[1..]);
    assert s[..|raw|] == raw && s[|raw|..] == behind;
  }

  lemma {:induction false} RunShows(raw: bytes, behind: bytes)
    requires !Blank(raw) && LT !in raw
    ensures var t := SkipWhiteSpace(raw + behind); t != [] && t[0] != LT
  {
    assert (raw + behind)[1..] == raw[1..] + behind && raw == [raw[0]] + raw[1..];
    if IsWhiteSpace(raw[0]) {
      RunShows(raw[1..], behind);
    }
  }

  lemma StretchStep(s: bytes, kind: Kind, raw: bytes, rest: bytes, depth: nat, top: bool, before: seq<Node>)
    requires SkipWhiteSpace(s) == Open(kind) + (raw + (Close(kind) + rest))
    requires Identify(SkipWhiteSpace(s)) == MarkedHeader(kind)
    requires FindMark(raw + (Close(kind) + rest), Close(kind)) == |raw|
    requires kind.Declaration? ==> WellLocated(top, before)
    ensures ParseChildren(s, depth, top, before)
            == ParseChildren(rest, depth, top, before + [Marked(kind, Decode(raw, 0, [], MARKUP))])
  {
    hide ParseTag, Decode, FindMark, WellLocated, Identify, Open, Close, SkipWhiteSpace;
    DropFront(Open(kind), raw + (Close(kind) + rest));
    MarkedRest(kind, raw, rest);
  }

  /** How a stretch is told from the others by its start. */
  lemma StretchIdentified(kind: Kind, body: bytes)
    requires kind.Unknown? ==> !(DASHES <= body) && !(CDATA_WORD <= body)
    ensures Identify(Open(kind) + body) == MarkedHeader(kind)
  {
    var t := Open(kind) + body;
    assert t[..|Open(kind)|] == Open(kind) && t[|Open(kind)|..] == body;
    assert Open(Comment) == Open(Unknown) + DASHES && Open(CData) == Open(Unknown) + CDATA_WORD;
    assert t[1] == Open(kind)[1];
    if kind.Unknown? {
      PrefixBehind(Open(Unknown), DASHES, body);
      PrefixBehind(Open(Unknown), CDATA_WORD, body);
    } else if kind.CData? {
      assert t[2] == Open(kind)[2];
    }
  }

  lemma PrefixBehind(a: bytes, b: bytes, c: bytes)
    ensures a + b <= a + c <==> b <= c
  {
    if a + b <= a + c {
      assert (a + c)[|a|..|a| + |b|] == b;
      assert c[..|b|] == (a + c)[|a|..|a| + |b|];
    }
    if b <= c {
      assert (a + c)[..|a + b|] == a + c[..|b|];
    }
  }

  /** The text of an element's tag is taken for one. */
  lemma TagIdentified(t: TagText, rest: bytes)
    requires t.Ok()
    ensures Identify([LT] + (t.Text() + rest)) == ElementHeader
    ensures SkipWhiteSpace([LT] + (t.Text() + rest)) == [LT] + (t.Text() + rest)
    ensures ([LT] + (t.Text() + rest))[1..] == t.Text() + rest
  {
    var s := [LT] + (t.Text() + rest);
    TagStarts(t, rest);
    hide TagText.Text;
    assert s[1] == (t.Text() + rest)[0];
    NothingToSkip(s);
  }

  lemma TagStarts(t: TagText, rest: bytes)
    requires t.Ok()
    ensures t.Text() != [] && var c := (t.Text() + rest)[0]; c != 0x21 && c != 0x3F
  {
    hide IsName, AttributeTexts, TagEnd, AttributesOk, Distinct;
    NameNonEmpty(t.name);
    if t.space != [] {
      BlankHead(t.space);
      assert t.Text()[0] == t.space[0];
    } else if t.slash {
      assert t.Text()[0] == SLASH;
    } else {
      assert t.Text()[0] == t.name[0];
    }
  }

  lemma EmptyStep(s: bytes, t: TagText, rest: bytes, depth: nat, top: bool, before: seq<Node>)
    requires t.Ok() && t.sealed && SkipWhiteSpace(s) == [LT] + (t.Text() + rest)
    ensures ParseChildren(s, depth, top, before)
            == ParseChildren(rest, depth, top, before + [Element(t.name, Meanings(t.attrs), [])])
  {
    hide ParseTag, SkipWhiteSpace, TagText.Ok, TagText.Text, Identify;
    TagIdentified(t, rest);
    TagReads(t, rest);
  }

  lemma EndTagStep(s: bytes, t: TagText, rest: bytes, depth: nat, top: bool, before: seq<Node>)
    requires t.Ok() && t.slash && !t.sealed && SkipWhiteSpace(s) == [LT] + (t.Text() + rest)
    ensures ParseChildren(s, depth, top, before) == Good(before, Some(t.name), rest)
  {
    hide ParseTag, SkipWhiteSpace, TagText.Ok, TagText.Text, Identify;
    TagIdentified(t, rest);
    TagReads(t, rest);
  }

  lemma FullStep(s: bytes, t: TagText, inside: bytes, nodes: seq<Node>, rest: bytes, depth: nat, top: bool,
                 before: seq<Node>)
    requires t.Ok() && !t.slash && !t.sealed && SkipWhiteSpace(s) == [LT] + (t.Text() + inside) && inside != []
    requires depth + 1 < MAX_DEPTH && ParseChildren(inside, depth + 1, false, []) == Good(nodes, Some(t.name), rest)
    ensures ParseChildren(s, depth, top, before)
            == ParseChildren(rest, depth, top, before + [Element(t.name, Meanings(t.attrs), nodes)])
  {
    hide ParseTag, SkipWhiteSpace, TagText.Ok, TagText.Text, Identify;
    TagIdentified(t, inside);
    TagReads(t, inside);
  }

  lemma SpaceSkipped(space: bytes, s: bytes)
    requires Blank(space) && s != [] && s[0] == LT
    ensures SkipWhiteSpace(space + s) == s
  {
    SkipBlank(space, s);
    NothingToSkip(s);
  }

  /** One item is read as its node. */
  lemma {:induction false} ItemReads(it: Item, behind: bytes, depth: nat, top: bool, before: seq<Node>)
    requires ItemFits(it, behind, depth, top, before)
    ensures ParseChildren(ItemText(it) + behind, depth, top, before)
            == ParseChildren(behind, depth, top, before + [ItemNode(it)])
    decreases it, 0
  {
    hide ParseChildren, SkipWhiteSpace, TagText.Ok, TagText.Text, Blank, FindMark, Decode, WellLocated, Identify;
    match it {
      case Run(raw) =>
        RunStep(raw, behind, depth, top, before);
      case Stretch(space, kind, raw) =>
        StretchReads(space, kind, raw, behind, depth, top, before);
      case Empty(space, tag) =>
        Assoc([LT], tag.Text(), behind);
        Assoc(space, [LT] + tag.Text(), behind);
        SpaceSkipped(space, [LT] + (tag.Text() + behind));
        EmptyStep(ItemText(it) + behind, tag, behind, depth, top, before);
      case Full(space, tag, inner, ending, endTag) =>
        var close := [LT] + (endTag.Text() + behind);
        var inside := Texts(inner) + (ending + close);
        ItemsRead(inner, ending + close, depth + 1, false, []);
        assert [] + Nodes(inner) == Nodes(inner);
        SpaceSkipped(ending, close);
        EndTagStep(ending + close, endTag, behind, depth + 1, false, Nodes(inner));
        FullRegrouped(space, tag.Text(), Texts(inner), ending, endTag.Text(), behind);
        SpaceSkipped(space, [LT] + (tag.Text() + inside));
        FullStep(ItemText(it) + behind, tag, inside, Nodes(inner), behind, depth, top, before);
    }
  }

  lemma FullRegrouped(a: bytes, b: bytes, c: bytes, d: bytes, e: bytes, f: bytes)
    ensures a + ([LT] + (b + (c + (d + ([LT] + e))))) + f == a + ([LT] + (b + (c + (d + ([LT] + (e + f))))))
  {
    Assoc([LT], e, f);
    Assoc(d, [LT] + e, f);
    Assoc(c, d + ([LT] + e), f);
    Assoc(b, c + (d + ([LT] + e)), f);
    Assoc([LT], b + (c + (d + ([LT] + e))), f);
    Assoc(a, [LT] + (b + (c + (d + ([LT] + e)))), f);
  }

  lemma StretchReads(space: bytes, kind: Kind, raw: bytes, behind: bytes, depth: nat, top: bool, before: seq<Node>)
    requires ItemFits(Stretch(space, kind, raw), behind, depth, top, before)
    ensures
      var it := Stretch(space, kind, raw);
      ParseChildren(ItemText(it) + behind, depth, top, before)
      == ParseChildren(behind, depth, top, before + [ItemNode(it)])
  {
    hide ParseChildren, SkipWhiteSpace, Blank, FindMark, Decode, WellLocated, Identify, Open, Close;
    var body := raw + (Close(kind) + behind);
    StretchIdentified(kind, body);
    Assoc(raw, Close(kind), behind);
    Assoc(Open(kind), raw + Close(kind), behind);
    Assoc(space, Open(kind) + (raw + Close(kind)), behind);
    OpensWithMark(kind, body);
    SpaceSkipped(space, Open(kind) + body);
    StretchStep(space + (Open(kind) + body), kind, raw, behind, depth, top, before);
  }

  lemma OpensWithMark(kind: Kind, body: bytes)
    ensures (Open(kind) + body)[0] == LT
  {
  }

  lemma {:induction false} ItemsRead(items: seq<Item>, behind: bytes, depth: nat, top: bool, before: seq<Node>)
    requires AllFit(items, behind, depth, top, before)
    ensures ParseChildren(Texts(items) + behind, depth, top, before)
            == ParseChildren(behind, depth, top, before + Nodes(items))
    decreases items, 1
  {
    hide ParseChildren, ItemText, ItemNode, ItemFits;
    if items == [] {
      assert [] + behind == behind && before + [] == before;
    } else {
      assert items decreases to items[0];
      var more := Texts(items[1..]) + behind;
      Assoc(ItemText(items[0]), Texts(items[1..]), behind);
      ItemReads(items[0], more, depth, top, before);
      ItemsRead(items[1..], behind, depth, top, before + [ItemNode(items[0])]);
      Assoc(before, [ItemNode(items[0])], Nodes(items[1..]));
    }
  }

  // ------------------------------------------------- what is read was written

  ghost predicate ListEnds(s: bytes) {
    Blank(s) || exists space: bytes, t: TagText, rest: bytes :: EndTagAt(s, space, t, rest)
  }

  lemma RunOf(s: bytes, depth: nat, top: bool, before: seq<Node>) returns (it: Item, rest: bytes)
    requires ParseChildren(s, depth, top, before).Good?
    requires SkipWhiteSpace(s) != [] && Identify(SkipWhiteSpace(s)) == TextHeader
    ensures s == ItemText(it) + rest && |rest| < |s| && ItemFits(it, rest, depth, top, before)
  {
    hide ParseTag, Decode, SkipWhiteSpace;
    var end := FindMark(s, [LT]);
    it, rest := Run(s[..end]), s[end..];
    QuoteNotIn(s, LT);
    assert s == s[..end] + rest;
    if Blank(s[..end]) {
      SpaceSkipped(s[..end], rest);
    }
  }

  lemma StretchOf(s: bytes, depth: nat, top: bool, before: seq<Node>) returns (it: Item, rest: bytes)
    requires ParseChildren(s, depth, top, before).Good?
    requires SkipWhiteSpace(s) != [] && Identify(SkipWhiteSpace(s)).MarkedHeader?
    ensures s == ItemText(it) + rest && |rest| < |s| && ItemFits(it, rest, depth, top, before)
  {
    hide ParseChildren, SkipWhiteSpace, WellLocated, FindMark, Identify, Blank, Open, Close;
    var t := SkipWhiteSpace(s);
    var kind := Identify(t).kind;
    var space := SpaceTaken(s);
    var body := t[|Open(kind)|..];
    rest := StretchRest(s, depth, top, before);
    var raw := body[..FindMark(body, Close(kind))];
    it := Stretch(space, kind, raw);
    assert t == Open(kind) + body;
    StretchSplit(kind, body);
    NotTheOthers(kind, body);
    Assoc(raw, Close(kind), rest);
    Assoc(Open(kind), raw + Close(kind), rest);
    Assoc(space, Open(kind) + (raw + Close(kind)), rest);
  }

  lemma SplitTwice(s: bytes, i: nat, j: nat)
    requires i <= j <= |s|
    ensures s == s[..i] + (s[i..j] + s[j..])
  {
  }

  lemma StretchSplit(kind: Kind, body: bytes)
    requires FindMark(body, Close(kind)) < |body|
    ensures var end := FindMark(body, Close(kind)); body == body[..end] + (Close(kind) + body[end + |Close(kind)|..])
  {
    hide FindMark, Close;
    var end := FindMark(body, Close(kind));
    SplitTwice(body, end, end + |Close(kind)|);
  }

  lemma StretchRest(s: bytes, depth: nat, top: bool, before: seq<Node>) returns (rest: bytes)
    requires ParseChildren(s, depth, top, before).Good?
    requires SkipWhiteSpace(s) != [] && Identify(SkipWhiteSpace(s)).MarkedHeader?
    ensures
      var t := SkipWhiteSpace(s);
      var kind := Identify(t).kind;
      var body := t[|Open(kind)|..];
      var end := FindMark(body, Close(kind));
      && end < |body| && rest == body[end + |Close(kind)|..] && (kind.Declaration? ==> WellLocated(top, before))
  {
    hide ParseTag, Decode, SkipWhiteSpace, WellLocated, FindMark, Identify, Open, Close;
    var t := SkipWhiteSpace(s);
    var kind := Identify(t).kind;
    var body := t[|Open(kind)|..];
    rest := body[FindMark(body, Close(kind)) + |Close(kind)|..];
  }

  lemma NotTheOthers(kind: Kind, body: bytes)
    requires Identify(Open(kind) + body) == MarkedHeader(kind)
    ensures kind.Unknown? ==> !(DASHES <= body) && !(CDATA_WORD <= body)
  {
    if kind.Unknown? {
      assert Open(Comment) == Open(Unknown) + DASHES && Open(CData) == Open(Unknown) + CDATA_WORD;
      PrefixBehind(Open(Unknown), DASHES, body);
      PrefixBehind(Open(Unknown), CDATA_WORD, body);
    }
  }

  /** What the reader makes of a tag that starts a node or ends the list. */
  lemma TagCases(s: bytes, depth: nat, top: bool, before: seq<Node>) returns (tag: Tag)
    requires ParseChildren(s, depth, top, before).Good?
    requires SkipWhiteSpace(s) != [] && Identify(SkipWhiteSpace(s)).ElementHeader?
    ensures SkipWhiteSpace(s)[0] == LT && ParseTag(SkipWhiteSpace(s)[1..]) == Some(tag)
    ensures tag.closing.OPEN? ==>
              && tag.rest != [] && depth + 1 < MAX_DEPTH
              && var inside := ParseChildren(tag.rest, depth + 1, false, []);
                 inside.Good? && inside.endTag == Some(tag.name)
  {
    hide ParseTag, SkipWhiteSpace;
    tag := ParseTag(SkipWhiteSpace(s)[1..]).value;
  }

  lemma {:induction false} ElementOf(s: bytes, depth: nat, top: bool, before: seq<Node>, tag: Tag)
    returns (it: Item, rest: bytes)
    requires ParseChildren(s, depth, top, before).Good?
    requires SkipWhiteSpace(s) != [] && Identify(SkipWhiteSpace(s)).ElementHeader?
    requires ParseTag(SkipWhiteSpace(s)[1..]) == Some(tag) && !tag.closing.CLOSING?
    ensures s == ItemText(it) + rest && |rest| < |s| && ItemFits(it, rest, depth, top, before)
    decreases |s|, 0
  {
    hide ParseTag, SkipWhiteSpace, ParseChildren, ParseDeep, Identify, Blank, TagText.Ok, TagText.Text, AllFit,
         Meanings;
    var same := TagCases(s, depth, top, before);
    var space := SpaceTaken(s);
    var t := SkipWhiteSpace(s);
    var spelled := TagOf(t[1..]);
    assert t == [LT] + t[1..];
    if tag.closing.CLOSED? {
      it, rest := Empty(space, spelled), tag.rest;
      Assoc([LT], spelled.Text(), rest);
      Assoc(space, [LT] + spelled.Text(), rest);
    } else {
      var inner, behind := ItemsOf(tag.rest, depth + 1, false, []);
      ItemsRead(inner, behind, depth + 1, false, []);
      assert [] + Nodes(inner) == Nodes(inner);
      var ending, endTag;
      ending, endTag, rest := EndOf(behind, depth + 1, Nodes(inner));
      it := Full(space, spelled, inner, ending, endTag);
      FullRegrouped(space, spelled.Text(), Texts(inner), ending, endTag.Text(), rest);
    }
  }

  /** A list that ends in an end tag. */
  lemma EndOf(s: bytes, depth: nat, nodes: seq<Node>) returns (space: bytes, t: TagText, rest: bytes)
    requires ListEnds(s) && ParseChildren(s, depth, false, nodes).Good?
    requires ParseChildren(s, depth, false, nodes).endTag.Some?
    ensures EndTagAt(s, space, t, rest) && ParseChildren(s, depth, false, nodes).endTag == Some(t.name)
  {
    hide ParseChildren, TagText.Ok, TagText.Text, SkipWhiteSpace;
    if Blank(s) {
      BlankEnds(s, depth, false, nodes);
    }
    space, t, rest :| EndTagAt(s, space, t, rest);
    EndTagReads(s, space, t, rest, depth, false, nodes);
  }

  lemma BlankEnds(s: bytes, depth: nat, top: bool, nodes: seq<Node>)
    requires Blank(s)
    ensures ParseChildren(s, depth, top, nodes) == Good(nodes, None, [])
  {
    SkipNothing(s);
  }

  lemma EndTagReads(s: bytes, space: bytes, t: TagText, rest: bytes, depth: nat, top: bool, nodes: seq<Node>)
    requires EndTagAt(s, space, t, rest)
    ensures ParseChildren(s, depth, top, nodes) == Good(nodes, Some(t.name), rest)
  {
    hide ParseChildren, TagText.Ok, TagText.Text, SkipWhiteSpace, Blank;
    SpaceSkipped(space, [LT] + (t.Text() + rest));
    EndTagStep(s, t, rest, depth, top, nodes);
  }

  /** The items of a text that is read, up to where the list of nodes ends. */
  lemma {:induction false} ItemsOf(s: bytes, depth: nat, top: bool, before: seq<Node>)
    returns (items: seq<Item>, rest: bytes)
    requires ParseChildren(s, depth, top, before).Good?
    ensures AllFit(items, rest, depth, top, before) && s == Texts(items) + rest && ListEnds(rest)
    decreases |s|, 1
  {
    hide ParseChildren, SkipWhiteSpace, ItemFits, ItemText, ItemNode, Identify, ParseTag, TagText.Ok, TagText.Text;
    var t := SkipWhiteSpace(s);
    items, rest := [], s;
    assert Texts([]) + s == s;
    if t == [] {
      SkipNothing(s);
      return;
    }
    var it, behind;
    match Identify(t) {
      case TextHeader =>
        it, behind := RunOf(s, depth, top, before);
      case MarkedHeader(_) =>
        it, behind := StretchOf(s, depth, top, before);
      case ElementHeader =>
        var tag := TagCases(s, depth, top, before);
        if tag.closing.CLOSING? {
          ClosingEnds(s, tag);
          return;
        }
        it, behind := ElementOf(s, depth, top, before, tag);
    }
    ItemReads(it, behind, depth, top, before);
    var more;
    more, rest := ItemsOf(behind, depth, top, before + [ItemNode(it)]);
    items := [it] + more;
    assert items[1..] == more;
    Assoc(ItemText(it), Texts(more), rest);
  }

  lemma ClosingEnds(s: bytes, tag: Tag)
    requires SkipWhiteSpace(s) != [] && SkipWhiteSpace(s)[0] == LT
    requires ParseTag(SkipWhiteSpace(s)[1..]) == Some(tag) && tag.closing.CLOSING?
    ensures ListEnds(s)
  {
    hide ParseTag, SkipWhiteSpace, TagText.Ok, TagText.Text, Blank;
    var space := SpaceTaken(s);
    var t := SkipWhiteSpace(s);
    var spelled := TagOf(t[1..]);
    assert t == [LT] + t[1..];
    assert EndTagAt(s, space, spelled, tag.rest);
  }

  // -------------------------------------------------------------- documents

  /** A document: white space, perhaps a byte order mark, the nodes, and white space or an end
      tag, behind which nothing is looked at. */
  ghost predicate IsDocument(text: bytes, space: bytes, mark: bool, items: seq<Item>, rest: bytes) {
    var body := Texts(items) + rest;
    && Blank(space) && body != [] && text == space + ((if mark then BOM else []) + body)
    && (!mark ==> !IsWhiteSpace(body[0]) && !(BOM <= body))
    && AllFit(items, rest, 1, true, []) && ListEnds(rest)
  }

  lemma BodyOf(text: bytes, space: bytes, mark: bool, body: bytes)
    requires Blank(space) && body != [] && text == space + ((if mark then BOM else []) + body)
    requires !mark ==> !IsWhiteSpace(body[0]) && !(BOM <= body)
    ensures Parse(text) == match ParseChildren(body, 1, true, [])
                           case Bad => None
                           case Good(children, _, _) => Some(children)
  {
    hide ParseChildren, SkipWhiteSpace, Blank;
    var u := (if mark then BOM else []) + body;
    SkipBlank(space, u);
    NothingToSkip(u);
    assert mark ==> u[3..] == body && u[..3] == BOM;
    assert !mark ==> u == body;
  }

  lemma BodyRead(text: bytes) returns (space: bytes, mark: bool, body: bytes)
    requires Parse(text).Some?
    ensures Blank(space) && body != [] && text == space + ((if mark then BOM else []) + body)
    ensures !mark ==> !IsWhiteSpace(body[0]) && !(BOM <= body)
  {
    hide ParseDeep, SkipWhiteSpace, Blank;
    space := SpaceTaken(text);
    var t := SkipWhiteSpace(text);
    mark := BOM <= t;
    body := if mark then t[3..] else t;
    assert t == (if mark then BOM else []) + body;
  }

  /** Exactly the documents of this grammar are read, and each as its nodes: every element has
      its own end tag, no tag has the same attribute twice, a declaration follows nothing but
      declarations, no stretch is left open, and nesting stays below the limit. */
  lemma ParseIff(text: bytes, nodes: seq<Node>)
    ensures Parse(text) == Some(nodes) <==>
            exists space: bytes, mark: bool, items: seq<Item>, rest: bytes ::
              IsDocument(text, space, mark, items, rest) && nodes == Nodes(items)
  {
    hide ParseChildren, Parse, AllFit, Texts, Nodes, ListEnds;
    if space: bytes, mark: bool, items: seq<Item>, rest: bytes :|
      IsDocument(text, space, mark, items, rest) && nodes == Nodes(items)
    {
      DocumentReads(text, space, mark, items, rest);
    }
    if Parse(text) == Some(nodes) {
      var space, mark, body := BodyRead(text);
      BodyOf(text, space, mark, body);
      var items, rest := ItemsOf(body, 1, true, []);
      assert IsDocument(text, space, mark, items, rest);
      DocumentReads(text, space, mark, items, rest);
    }
  }

  lemma DocumentReads(text: bytes, space: bytes, mark: bool, items: seq<Item>, rest: bytes)
    requires IsDocument(text, space, mark, items, rest)
    ensures Parse(text) == Some(Nodes(items))
  {
    hide ParseChildren, Parse, AllFit, Texts, Nodes, TagText.Ok, TagText.Text;
    BodyOf(text, space, mark, Texts(items) + rest);
    ItemsRead(items, rest, 1, true, []);
    assert [] + Nodes(items) == Nodes(items);
    if Blank(rest) {
      BlankEnds(rest, 1, true, Nodes(items));
    } else {
      var gap: bytes, t: TagText, end: bytes :| EndTagAt(rest, gap, t, end);
      EndTagReads(rest, gap, t, end, 1, true, Nodes(items));
    }
  }
}
