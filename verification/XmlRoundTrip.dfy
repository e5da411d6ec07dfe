/** Parsing any layout of a tree's pieces gives the tree back. */
module XmlRoundTrip {
  import opened Wrappers
  import opened Bytes
  import opened XmlText
  import opened XmlTree
  import opened XmlReader

  // --------------------------------------------------------------- searching

  lemma {:induction false} FindFirstMark(v: bytes, mark: bytes, rest: bytes)
    requires mark != [] && !Contains(v, mark)
    requires forall k | 0 <= k < |mark| - 1 :: mark[k] != mark[|mark| - 1]
    ensures FindMark(v + (mark + rest), mark) == |v|
  {
    var s := v + (mark + rest);
    if v == [] {
      assert s == mark + rest;
    } else {
      assert s[1..] == v[1..] + (mark + rest);
      NotYet(v, mark, rest);
      FindFirstMark(v[1..], mark, rest);
    }
  }

  /** The mark cannot start in `v` and end behind it: its last byte is nowhere else in it. */
  lemma NotYet(v: bytes, mark: bytes, rest: bytes)
    requires v != [] && mark != [] && !Contains(v, mark)
    requires forall k | 0 <= k < |mark| - 1 :: mark[k] != mark[|mark| - 1]
    ensures !(mark <= v + (mark + rest))
  {
    var s, last := v + (mark + rest), |mark| - 1;
    if |mark| <= |v| {
      assert s[..|mark|] == v[..|mark|];
    } else {
      assert s[last] == mark[last - |v|];
    }
  }

  lemma {:induction false} NoMarkIn(v: bytes, c: byte)
    requires c !in v
    ensures !Contains(v, [c])
  {
    if v != [] {
      assert v[0] in v && forall x <- v[1..] :: x in v;
      NoMarkIn(v[1..], c);
    }
  }

  lemma {:induction false} EscapedHasNo(v: bytes, restricted: bool, c: byte)
    requires c == LT || (c == QUOT && !restricted)
    ensures c !in Escape(v, restricted)
  {
    if v != [] {
      EscapedHasNo(v[1..], restricted, c);
      EntityPlain(v[0], restricted, c);
    }
  }

  lemma EntityPlain(x: byte, restricted: bool, c: byte)
    requires c == LT || (c == QUOT && !restricted)
    ensures c !in EscapeChar(x, restricted)
  {
  }

  /** Without entities only line ends change. */
  lemma {:induction false} DecodeMarkup(t: bytes, p: nat, out: bytes)
    requires |out| <= p <= |t|
    ensures Decode(t, p, out, MARKUP) == out + Normalize(t[p..])
    decreases |t| - p
  {
    hide DecodeStep, Decode, Fold, Pace, Normalize;
    if p == |t| {
      DecodeEnd(t, out, MARKUP);
      NothingNormalized(t[p..]);
      assert out + [] == out;
    } else {
      var u := t[p..];
      MarkupStep(u, t[|out|]);
      DecodeRound(t, p, out, MARKUP, [Fold(u[0])], Pace(u));
      assert u[Pace(u)..] == t[p + Pace(u)..];
      DecodeMarkup(t, p + Pace(u), out + [Fold(u[0])]);
      NormalizeStep(u);
      Assoc(out, [Fold(u[0])], Normalize(u[Pace(u)..]));
    }
  }

  lemma NothingNormalized(s: bytes)
    requires s == []
    ensures Normalize(s) == []
  {
  }

  lemma MarkupStep(u: bytes, stale: byte)
    requires u != []
    ensures DecodeStep(u, MARKUP, stale) == ([Fold(u[0])], Pace(u))
  {
  }

  lemma MarkupDecodes(v: bytes)
    ensures Decode(v, 0, [], MARKUP) == Normalize(v)
  {
    DecodeMarkup(v, 0, []);
    assert v[0..] == v && [] + Normalize(v) == Normalize(v);
  }

  // -------------------------------------------------------------------- tags

  function NormAttributes(attrs: seq<(bytes, bytes)>): seq<(bytes, bytes)> {
    if attrs == [] then [] else [(attrs[0].0, Normalize(attrs[0].1))] + NormAttributes(attrs[1..])
  }

  lemma {:induction false} NameEnds(name: bytes, rest: bytes)
    requires (forall c <- name :: IsNameChar(c)) && (rest == [] || !IsNameChar(rest[0]))
    ensures NameLength(name + rest) == |name|
  {
    if name == [] {
      assert name + rest == rest;
    } else {
      assert name[0] in name && (name + rest)[1..] == name[1..] + rest;
      assert forall c <- name[1..] :: c in name;
      NameEnds(name[1..], rest);
    }
  }

  lemma NameRead(name: bytes, rest: bytes)
    requires IsName(name) && (rest == [] || !IsNameChar(rest[0]))
    ensures ParseName(name + rest) == |name| && (name + rest)[..|name|] == name && (name + rest)[|name|..] == rest
  {
    NameEnds(name, rest);
  }

  lemma AttributeParsed(s: bytes, n: nat, t: bytes, u: bytes, end: nat)
    requires 0 < n < |s| && ParseName(s) == n && SkipWhiteSpace(s[n..]) == t && t != [] && t[0] == EQUALS
    requires SkipWhiteSpace(t[1..]) == u && u != [] && (u[0] == QUOT || u[0] == APOS)
    requires FindMark(u[1..], [u[0]]) == end < |u[1..]|
    ensures ParseAttribute(s) == Some(((s[..n], Decode(u[1..][..end], 0, [], TEXT_ELEMENT)), u[1..][end + 1..]))
  {
    hide ParseName, SkipWhiteSpace, FindMark, Decode;
  }

  /** Section 3.1 of the XML recommendation: an attribute value may stand in either kind of
      quotes, and white space around the "=" does not matter. */
  lemma AttributeInEitherQuotes(name: bytes, before: bytes, behind: bytes, quote: byte, value: bytes, rest: bytes)
    requires IsName(name) && Blank(before) && Blank(behind)
    requires (quote == QUOT || quote == APOS) && quote !in value
    ensures ParseAttribute(name + (before + ([EQUALS] + (behind + ([quote] + (value + ([quote] + rest)))))))
            == Some(((name, Decode(value, 0, [], TEXT_ELEMENT)), rest))
  {
    hide Decode, FindMark, IsName, NameLength, Blank, SkipWhiteSpace, ParseName, ParseAttribute;
    var body := value + ([quote] + rest);
    var u := [quote] + body;
    var t := [EQUALS] + (behind + u);
    var s := name + (before + t);
    EqualsEndsName(before, t);
    NameRead(name, before + t);
    NameNonEmpty(name);
    SkipBlank(before, t);
    SkipBlank(behind, u);
    NothingToSkip(t);
    NothingToSkip(u);
    assert t[1..] == behind + u && u[1..] == body;
    NoMarkIn(value, quote);
    FindFirstMark(value, [quote], rest);
    assert body[..|value|] == value && body[|value| + 1..] == rest;
    AttributeParsed(s, |name|, t, u, |value|);
  }

  lemma NothingToSkip(s: bytes)
    requires s != [] && !IsWhiteSpace(s[0])
    ensures SkipWhiteSpace(s) == s
  {
  }

  lemma EqualsEndsName(before: bytes, t: bytes)
    requires Blank(before) && t != [] && t[0] == EQUALS
    ensures before + t != [] && !IsNameChar((before + t)[0])
  {
    if before != [] {
      assert before[0] in before;
    }
  }

  /** Behind a name: `="value"`. */
  function Assigned(value: bytes, rest: bytes): bytes {
    [EQUALS] + ([QUOT] + (Escape(value, false) + ([QUOT] + rest)))
  }

  lemma AttributeRead(a: (bytes, bytes), rest: bytes)
    requires AttributeOk(a)
    ensures ParseAttribute(a.0 + Assigned(a.1, rest)) == Some(((a.0, Normalize(a.1)), rest))
  {
    hide Escape, Decode, Normalize, FindMark, IsName, NameLength;
    var e := Escape(a.1, false);
    var s := a.0 + Assigned(a.1, rest);
    NameRead(a.0, Assigned(a.1, rest));
    var t := s[|a.0|..];
    assert t == Assigned(a.1, rest) && SkipWhiteSpace(t) == t;
    var u := t[1..];
    assert u == [QUOT] + (e + ([QUOT] + rest)) && SkipWhiteSpace(u) == u;
    var body := u[1..];
    assert body == e + ([QUOT] + rest);
    EscapedHasNo(a.1, false, QUOT);
    NoMarkIn(e, QUOT);
    FindFirstMark(e, [QUOT], rest);
    assert body[..|e|] == e && body[|e| + 1..] == rest;
    DecodeEscape(a.1, false);
    assert a.0 != [] by {
      NameNonEmpty(a.0);
    }
  }

  lemma NameNonEmpty(name: bytes)
    requires IsName(name)
    ensures name != [] && IsNameStart(name[0])
  {
  }

  lemma AttributeTextSplit(a: (bytes, bytes), rest: bytes)
    ensures AttributeText(a) + rest == [SPACE] + (a.0 + Assigned(a.1, rest))
  {
  }

  lemma SkipOne(s: bytes)
    requires s != [] && !IsWhiteSpace(s[0])
    ensures SkipWhiteSpace([SPACE] + s) == s
  {
    assert ([SPACE] + s)[1..] == s;
  }

  /** One attribute of a tag is read. */
  lemma AttributeStep(a: (bytes, bytes), rest: bytes, before: seq<(bytes, bytes)>)
    requires AttributeOk(a) && !HasName(before, a.0)
    ensures ParseAttributes(AttributeText(a) + rest, before) == ParseAttributes(rest, before + [(a.0, Normalize(a.1))])
  {
    hide AttributeText, ParseAttribute, Assigned, Escape, Normalize, HasName;
    var s := a.0 + Assigned(a.1, rest);
    AttributeTextSplit(a, rest);
    NameNonEmpty(a.0);
    assert s[0] == a.0[0];
    SkipOne(s);
    AttributeRead(a, rest);
  }

  predicate NewNames(before: seq<(bytes, bytes)>, attrs: seq<(bytes, bytes)>) {
    forall a <- attrs :: !HasName(before, a.0)
  }

  lemma NewNamesStep(before: seq<(bytes, bytes)>, attrs: seq<(bytes, bytes)>)
    requires attrs != [] && NewNames(before, attrs) && DistinctNames(attrs)
    ensures !HasName(before, attrs[0].0)
    ensures NewNames(before + [(attrs[0].0, Normalize(attrs[0].1))], attrs[1..]) && DistinctNames(attrs[1..])
  {
    var now := before + [(attrs[0].0, Normalize(attrs[0].1))];
    forall a | a in attrs[1..] ensures !HasName(now, a.0) {
      var i :| 0 < i < |attrs| && attrs[i] == a;
      assert !HasName(before, a.0) && attrs[0].0 != a.0;
    }
  }

  lemma {:induction false} AttributesRead(attrs: seq<(bytes, bytes)>, end: bytes, before: seq<(bytes, bytes)>)
    requires (forall a <- attrs :: AttributeOk(a)) && DistinctNames(attrs) && NewNames(before, attrs)
    ensures ParseAttributes(AttributesText(attrs) + end, before) == ParseAttributes(end, before + NormAttributes(attrs))
    decreases |attrs|
  {
    if attrs == [] {
      assert [] + end == end && before + [] == before;
    } else {
      hide ParseAttributes, AttributeText, Normalize, HasName, NewNames, AttributeOk, DistinctNames;
      var a := attrs[0];
      assert a in attrs && forall x <- attrs[1..] :: x in attrs;
      NewNamesStep(before, attrs);
      Assoc(AttributeText(a), AttributesText(attrs[1..]), end);
      AttributeStep(a, AttributesText(attrs[1..]) + end, before);
      AttributesRead(attrs[1..], end, before + [(a.0, Normalize(a.1))]);
      Assoc(before, [(a.0, Normalize(a.1))], NormAttributes(attrs[1..]));
    }
  }

  lemma TagEnds(rest: bytes, attrs: seq<(bytes, bytes)>)
    ensures ParseAttributes([GT] + rest, attrs) == Some((false, attrs, rest))
    ensures ParseAttributes([SLASH, GT] + rest, attrs) == Some((true, attrs, rest))
  {
    assert ([GT] + rest)[1..] == rest && ([SLASH, GT] + rest)[2..] == rest;
  }

  predicate TagOk(name: bytes, attrs: seq<(bytes, bytes)>) {
    IsName(name) && (forall a <- attrs :: AttributeOk(a)) && DistinctNames(attrs)
  }

  /** What follows a name in a tag does not belong to the name. */
  lemma AttributesTextStart(attrs: seq<(bytes, bytes)>, end: bytes)
    requires end != [] && !IsNameChar(end[0])
    ensures AttributesText(attrs) + end != [] && !IsNameChar((AttributesText(attrs) + end)[0])
  {
    if attrs != [] {
      assert AttributeText(attrs[0])[0] == SPACE;
    }
  }

  /** An opening tag is read as its name and attributes; `sealed` tells "/>" from ">". */
  lemma OpeningTagRead(name: bytes, attrs: seq<(bytes, bytes)>, sealed: bool, rest: bytes)
    requires TagOk(name, attrs)
    ensures
      ParseTag((Head(name, attrs) + (if sealed then [SLASH, GT] else [GT]) + rest)[1..])
      == Some(Tag(if sealed then CLOSED else OPEN, name, NormAttributes(attrs), rest))
  {
    hide ParseAttributes, AttributesText, NormAttributes, IsName, AttributeOk, DistinctNames, ParseName;
    var mark := if sealed then [SLASH, GT] else [GT];
    var end := mark + rest;
    var u := AttributesText(attrs) + end;
    assert (Head(name, attrs) + mark + rest)[1..] == name + u;
    NameNonEmpty(name);
    assert SkipWhiteSpace(name + u) == name + u;
    AttributesTextStart(attrs, end);
    NameRead(name, u);
    assert NewNames([], attrs);
    AttributesRead(attrs, end, []);
    assert [] + NormAttributes(attrs) == NormAttributes(attrs);
    TagEnds(rest, NormAttributes(attrs));
  }

  lemma EndTagRead(name: bytes, rest: bytes)
    requires IsName(name)
    ensures ParseTag((EndTag(name) + rest)[1..]) == Some(Tag(CLOSING, name, [], rest))
  {
    hide ParseAttributes, IsName, ParseName;
    var u := [GT] + rest;
    var t := (EndTag(name) + rest)[1..];
    assert t == [SLASH] + (name + u) && SkipWhiteSpace(t) == t && t[1..] == name + u;
    NameNonEmpty(name);
    NameRead(name, u);
    TagEnds(rest, []);
  }

  // ------------------------------------------------------------------- nodes

  /** What a node reads back as. */
  function Norm(n: Node): Node
    decreases n
  {
    match n
    case Element(name, attrs, children) => Element(name, NormAttributes(attrs), NormAll(children))
    case Text(v) => Text(Normalize(v))
    case Marked(kind, v) => Marked(kind, Normalize(v))
  }

  function NormAll(ns: seq<Node>): (r: seq<Node>)
    ensures |r| == |ns|
    decreases ns
  {
    if ns == [] then [] else [Norm(ns[0])] + NormAll(ns[1..])
  }

  lemma MarkedIdentified(kind: Kind, v: bytes, rest: bytes)
    requires MarkedOk(kind, v)
    ensures Identify(Open(kind) + (v + (Close(kind) + rest))) == MarkedHeader(kind)
  {
    var t := Open(kind) + (v + (Close(kind) + rest));
    assert t[..|Open(kind)|] == Open(kind);
    assert t[1] == Open(kind)[1];
    if kind.Unknown? {
      UnknownStart(v, [GT] + rest);
    } else if kind.CData? {
      assert t[2] == Open(kind)[2];
    }
  }

  /** "<!" followed by `v` and ">" is neither a comment nor CDATA. */
  lemma UnknownStart(v: bytes, rest: bytes)
    requires !([0x2D, 0x2D] <= v) && !(Open(CData)[2..] <= v) && rest != [] && rest[0] == GT
    ensures !(Open(Comment) <= [LT, 0x21] + (v + rest)) && !(Open(CData) <= [LT, 0x21] + (v + rest))
  {
    var t := [LT, 0x21] + (v + rest);
    if |v| < 2 {
      assert t[2 + |v|] == GT;
    } else {
      assert t[2] == v[0] && t[3] == v[1];
    }
    if |v| < 7 {
      assert t[2 + |v|] == GT;
    } else {
      assert t[2..9] == v[..7];
      assert Open(CData) == [LT, 0x21] + Open(CData)[2..];
    }
  }

  /** A marked stretch is read as a node. */
  lemma MarkedStep(kind: Kind, v: bytes, ls: seq<bytes>, s: bytes, depth: nat, top: bool, before: seq<Node>)
    returns (rest: bytes)
    requires MarkedOk(kind, v) && Laid(Lex(Marked(kind, v)) + ls, s)
    requires kind.Declaration? ==> WellLocated(top, before)
    ensures Laid(ls, rest)
    ensures ParseChildren(s, depth, top, before)
            == ParseChildren(rest, depth, top, before + [Norm(Marked(kind, v))])
  {
    hide Laid, ParseChildren, Open, Close, MarkedOk, WellLocated, SkipWhiteSpace, Normalize;
    var l := Open(kind) + v + Close(kind);
    assert Lex(Marked(kind, v)) == [l];
    assert IsMarkup(l);
    rest := LaidMarkup(l, ls, s);
    assert l + rest == Open(kind) + (v + (Close(kind) + rest));
    MarkedParsed(kind, v, s, rest, depth, top, before);
  }

  lemma MarkedParsed(kind: Kind, v: bytes, s: bytes, rest: bytes, depth: nat, top: bool, before: seq<Node>)
    requires MarkedOk(kind, v) && SkipWhiteSpace(s) == Open(kind) + (v + (Close(kind) + rest))
    requires kind.Declaration? ==> WellLocated(top, before)
    ensures ParseChildren(s, depth, top, before)
            == ParseChildren(rest, depth, top, before + [Marked(kind, Normalize(v))])
  {
    hide ParseTag, MarkedOk, Decode, Normalize, FindMark, WellLocated, Identify, Open, Close, SkipWhiteSpace;
    MarkedIdentified(kind, v, rest);
    DropFront(Open(kind), v + (Close(kind) + rest));
    MarkedFound(kind, v, rest);
    MarkedRest(kind, v, rest);
    MarkupDecodes(v);
  }

  lemma MarkedFound(kind: Kind, v: bytes, rest: bytes)
    requires MarkedOk(kind, v)
    ensures FindMark(v + (Close(kind) + rest), Close(kind)) == |v|
  {
    FindFirstMark(v, Close(kind), rest);
  }

  lemma MarkedRest(kind: Kind, v: bytes, rest: bytes)
    ensures
      var body := v + (Close(kind) + rest);
      body[..|v|] == v && body[|v| + |Close(kind)|..] == rest
  {
  }

  lemma LaidMarkup(l: bytes, ls: seq<bytes>, s: bytes) returns (rest: bytes)
    requires IsMarkup(l) && Laid([l] + ls, s)
    ensures SkipWhiteSpace(s) == l + rest && Laid(ls, rest)
  {
    assert ([l] + ls)[1..] == ls;
    rest := SkipWhiteSpace(s)[|l|..];
  }

  lemma LaidText(l: bytes, ls: seq<bytes>, s: bytes) returns (rest: bytes)
    requires l != [] && l[0] != LT && ls != [] && Laid([l] + ls, s)
    ensures s == l + rest && IsMarkup(rest) && Laid(ls, rest)
  {
    assert ([l] + ls)[1..] == ls;
    rest := s[|l|..];
  }

  /** Text that is not blank shows something other than markup behind its white space. */
  lemma {:induction false} TextShows(v: bytes, rest: bytes)
    requires !Blank(v)
    ensures
      var t := SkipWhiteSpace(Escape(v, true) + rest);
      t != [] && t[0] != LT
  {
    var e := Escape(v[1..], true);
    var x := EscapeChar(v[0], true);
    assert Escape(v, true) + rest == x + (e + rest);
    if IsWhiteSpace(v[0]) {
      assert x == [v[0]] && (x + (e + rest))[1..] == e + rest;
      assert v == [v[0]] + v[1..];
      TextShows(v[1..], rest);
    } else {
      assert x[0] != LT && !IsWhiteSpace(x[0]);
    }
  }

  /** Text up to the next tag is read as a node. */
  lemma TextStep(v: bytes, ls: seq<bytes>, s: bytes, depth: nat, top: bool, before: seq<Node>)
    returns (rest: bytes)
    requires NoNul(v) && !Blank(v) && ls != [] && Laid(Lex(Text(v)) + ls, s)
    ensures Laid(ls, rest) && IsMarkup(rest)
    ensures ParseChildren(s, depth, top, before) == ParseChildren(rest, depth, top, before + [Norm(Text(v))])
  {
    hide ParseTag, Decode, Normalize, FindMark, Escape, SkipWhiteSpace, Blank, NoNul;
    var e := Escape(v, true);
    EscapedHasNo(v, true, LT);
    TextNonEmpty(v);
    rest := LaidText(e, ls, s);
    TextShows(v, rest);
    NoMarkIn(e, LT);
    assert rest == [LT] + rest[1..];
    FindFirstMark(e, [LT], rest[1..]);
    assert s[..|e|] == e && s[|e|..] == rest;
    DecodeEscape(v, true);
  }

  lemma TextNonEmpty(v: bytes)
    requires !Blank(v)
    ensures Escape(v, true) != [] && Escape(v, true)[0] != LT
  {
  }

  /** An element without children is read as a node. */
  lemma ClosedStep(n: Node, ls: seq<bytes>, s: bytes, depth: nat, top: bool, before: seq<Node>)
    returns (rest: bytes)
    requires n.Element? && n.children == [] && TagOk(n.name, n.attributes) && Laid(Lex(n) + ls, s)
    ensures Laid(ls, rest)
    ensures ParseChildren(s, depth, top, before) == ParseChildren(rest, depth, top, before + [Norm(n)])
  {
    hide ParseTag, TagOk, Head, NormAttributes, SkipWhiteSpace;
    rest := LaidMarkup(Head(n.name, n.attributes) + [SLASH, GT], ls, s);
    var t := SkipWhiteSpace(s);
    OpeningTagRead(n.name, n.attributes, true, rest);
    ElementIdentified(n.name, n.attributes, [SLASH, GT] + rest);
    assert t == Head(n.name, n.attributes) + ([SLASH, GT] + rest);
    assert NormAll([]) == [];
  }

  lemma ElementIdentified(name: bytes, attrs: seq<(bytes, bytes)>, rest: bytes)
    requires TagOk(name, attrs)
    ensures Identify(Head(name, attrs) + rest) == ElementHeader
  {
    NameNonEmpty(name);
    var t := Head(name, attrs) + rest;
    assert t[0] == LT && t[1] == name[0];
  }

  /** The end tag of an element ends the list of children. */
  lemma EndTagStep(name: bytes, ls: seq<bytes>, s: bytes, depth: nat, top: bool, before: seq<Node>)
    returns (rest: bytes)
    requires IsName(name) && Laid([EndTag(name)] + ls, s)
    ensures Laid(ls, rest)
    ensures ParseChildren(s, depth, top, before) == Good(before, Some(name), rest)
  {
    hide ParseTag, IsName, SkipWhiteSpace, EndTag, Identify;
    rest := LaidMarkup(EndTag(name), ls, s);
    EndTagRead(name, rest);
    EndTagIdentified(name, rest);
  }

  lemma EndTagIdentified(name: bytes, rest: bytes)
    ensures Identify(EndTag(name) + rest) == ElementHeader
  {
    var t := EndTag(name) + rest;
    assert t[0] == LT && t[1] == SLASH;
  }

  /** An element with children, given how its children read. */
  lemma OpenStep(n: Node, s: bytes, inner: bytes, depth: nat, top: bool, before: seq<Node>, inside: Parsed)
    requires n.Element? && TagOk(n.name, n.attributes) && inner != []
    requires SkipWhiteSpace(s) == Head(n.name, n.attributes) + [GT] + inner
    requires inside == ParseDeep(inner, depth + 1, false)
    ensures inside.Bad? ==> ParseChildren(s, depth, top, before) == Bad
    ensures inside.Good? && inside.endTag == Some(n.name) ==>
              ParseChildren(s, depth, top, before)
              == ParseChildren(inside.rest, depth, top,
                               before + [Element(n.name, NormAttributes(n.attributes), inside.children)])
  {
    hide ParseTag, TagOk, Head, NormAttributes, SkipWhiteSpace, ParseDeep;
    OpeningTagRead(n.name, n.attributes, false, inner);
    ElementIdentified(n.name, n.attributes, [GT] + inner);
    assert SkipWhiteSpace(s) == Head(n.name, n.attributes) + ([GT] + inner);
  }

  // ------------------------------------------------------------------- trees

  /** Elements with children nest less deep than the limit, `depth` of them being open. */
  predicate DepthOk(ns: seq<Node>, depth: nat)
    decreases ns, 0
  {
    ns != [] ==>
      (assert ns decreases to ns[0]; NodeDepthOk(ns[0], depth)) && DepthOk(ns[1..], depth)
  }

  predicate NodeDepthOk(n: Node, depth: nat)
    decreases n, 1
  {
    n.Element? && n.children != [] ==>
      (assert n decreases to n.children; depth + 1 < MAX_DEPTH && DepthOk(n.children, depth + 1))
  }

  ghost predicate AllOk(ns: seq<Node>) {
    Separate(ns) && forall n <- ns :: NodeOk(n)
  }

  lemma AllOkSplit(ns: seq<Node>)
    requires AllOk(ns) && ns != []
    ensures NodeOk(ns[0]) && AllOk(ns[1..]) && (|ns| > 1 && ns[0].Text? ==> !ns[1].Text?)
  {
    assert forall n <- ns[1..] :: n in ns;
    assert forall i | 0 < i < |ns[1..]| :: ns[1..][i - 1] == ns[i] && ns[1..][i] == ns[i + 1];
  }

  /** What follows nodes: an end tag, or nothing at all where no text may end. */
  predicate TailOk(ns: seq<Node>, tail: seq<bytes>) {
    tail == [] ==> forall n <- ns :: !n.Text?
  }

  /** The pieces of nodes are read as these nodes, unless they nest too deep. */
  lemma {:induction false} ParseAll(ns: seq<Node>, tail: seq<bytes>, s: bytes, depth: nat, top: bool, before: seq<Node>)
    returns (rest: bytes)
    requires AllOk(ns) && TailOk(ns, tail) && Laid(LexAll(ns) + tail, s)
    ensures DepthOk(ns, depth) ==> Laid(tail, rest)
    ensures ParseChildren(s, depth, top, before)
            == if DepthOk(ns, depth) then ParseChildren(rest, depth, top, before + NormAll(ns)) else Bad
    decreases ns, 0
  {
    hide Laid, ParseChildren, NodeOk, AllOk, Lex, Norm, NodeDepthOk, TailOk;
    if ns == [] {
      assert [] + tail == tail && before + [] == before;
      rest := s;
    } else {
      assert ns decreases to ns[0];
      AllOkSplit(ns);
      TailOkSplit(ns, tail);
      Assoc(Lex(ns[0]), LexAll(ns[1..]), tail);
      rest := ParseNode(ns[0], LexAll(ns[1..]) + tail, s, depth, top, before);
      if NodeDepthOk(ns[0], depth) {
        rest := ParseAll(ns[1..], tail, rest, depth, top, before + [Norm(ns[0])]);
        Assoc(before, [Norm(ns[0])], NormAll(ns[1..]));
      }
    }
  }

  lemma TailOkSplit(ns: seq<Node>, tail: seq<bytes>)
    requires TailOk(ns, tail) && ns != []
    ensures TailOk(ns[1..], tail)
    ensures ns[0].Text? ==> LexAll(ns[1..]) + tail != []
  {
    assert ns[0] in ns && forall n <- ns[1..] :: n in ns;
  }

  lemma {:induction false} ParseNode(n: Node, ls: seq<bytes>, s: bytes, depth: nat, top: bool, before: seq<Node>)
    returns (rest: bytes)
    requires NodeOk(n) && (n.Text? ==> ls != []) && Laid(Lex(n) + ls, s)
    ensures NodeDepthOk(n, depth) ==> Laid(ls, rest)
    ensures ParseChildren(s, depth, top, before)
            == if NodeDepthOk(n, depth) then ParseChildren(rest, depth, top, before + [Norm(n)]) else Bad
    decreases n, 1
  {
    hide Laid, ParseChildren, Lex, Norm, Blank;
    match n
    case Text(v) => rest := TextStep(v, ls, s, depth, top, before);
    case Marked(kind, v) => rest := MarkedStep(kind, v, ls, s, depth, top, before);
    case Element(name, attrs, children) =>
      if children == [] {
        rest := ClosedStep(n, ls, s, depth, top, before);
      } else {
        assert n decreases to n.children;
        rest := ParseOpen(n, ls, s, depth, top, before);
      }
  }

  lemma {:induction false} ParseOpen(n: Node, ls: seq<bytes>, s: bytes, depth: nat, top: bool, before: seq<Node>)
    returns (rest: bytes)
    requires n.Element? && n.children != [] && NodeOk(n) && Laid(Lex(n) + ls, s)
    ensures NodeDepthOk(n, depth) ==> Laid(ls, rest)
    ensures ParseChildren(s, depth, top, before)
            == if NodeDepthOk(n, depth) then ParseChildren(rest, depth, top, before + [Norm(n)]) else Bad
    decreases n, 0
  {
    hide Laid, ParseChildren, TagOk, AttributeOk, DistinctNames, Separate, IsName, Head, SkipWhiteSpace, DepthOk, Lex,
         LexAll, EndTag, NormAttributes, NormAll;
    assert n decreases to n.children;
    var tail := [EndTag(n.name)] + ls;
    OpenLexed(n, ls);
    var inner := LaidMarkup(Head(n.name, n.attributes) + [GT], LexAll(n.children) + tail, s);
    OpenNodeOk(n);
    LaidNonEmpty(LexAll(n.children) + tail, inner);
    var inside := ParseDeep(inner, depth + 1, false);
    OpenStep(n, s, inner, depth, top, before, inside);
    rest := inner;
    if depth + 1 < MAX_DEPTH {
      var after := ParseAll(n.children, tail, inner, depth + 1, false, []);
      assert [] + NormAll(n.children) == NormAll(n.children);
      if DepthOk(n.children, depth + 1) {
        rest := EndTagStep(n.name, ls, after, depth + 1, false, NormAll(n.children));
      }
    }
  }

  lemma OpenLexed(n: Node, ls: seq<bytes>)
    requires n.Element? && n.children != []
    ensures Lex(n) + ls == [Head(n.name, n.attributes) + [GT]] + (LexAll(n.children) + ([EndTag(n.name)] + ls))
  {
    hide Head, EndTag, LexAll;
  }

  lemma OpenNodeOk(n: Node)
    requires n.Element? && NodeOk(n)
    ensures TagOk(n.name, n.attributes) && IsName(n.name) && AllOk(n.children)
    ensures forall ls: seq<bytes> :: TailOk(n.children, [EndTag(n.name)] + ls)
  {
  }

  lemma LaidNonEmpty(ls: seq<bytes>, s: bytes)
    requires Laid(ls, s) && ls != []
    ensures s != []
  {
  }
}
