/** XMLDocument::Parse and the ParseDeep methods as functions on the text that is still to
    be read. The text is taken up to its first NUL. */
module XmlReader {
  import opened Wrappers
  import opened Bytes
  import opened XmlText
  import opened XmlTree

  /** TINYXML2_MAX_ELEMENT_DEPTH */
  const MAX_DEPTH: nat := 100

  // ------------------------------------------------------------------- tags

  function NameLength(s: bytes): (n: nat)
    ensures n <= |s|
  {
    if s != [] && IsNameChar(s[0]) then 1 + NameLength(s[1..]) else 0
  }

  /** ParseName: 0 when no name starts here. */
  function ParseName(s: bytes): (n: nat)
    ensures n <= |s|
  {
    if s == [] || !IsNameStart(s[0]) then 0 else NameLength(s)
  }

  /** XMLAttribute::ParseDeep */
  function ParseAttribute(s: bytes): (r: Option<((bytes, bytes), bytes)>)
    ensures r.Some? ==> |r.value.1| < |s|
  {
    var n := ParseName(s);
    var t := SkipWhiteSpace(s[n..]);
    if n == 0 || n == |s| || t == [] || t[0] != EQUALS then None
    else
      var u := SkipWhiteSpace(t[1..]);
      if u == [] || (u[0] != QUOT && u[0] != APOS) then None
      else
        var body := u[1..];
        var end := FindMark(body, [u[0]]);
        if end == |body| then None
        else Some(((s[..n], Decode(body[..end], 0, [], TEXT_ELEMENT)), body[end + 1..]))
  }

  predicate HasName(attrs: seq<(bytes, bytes)>, name: bytes) {
    exists a <- attrs :: a.0 == name
  }

  /** ParseAttributes: whether the tag is sealed by "/>", its attributes, and what follows. */
  function ParseAttributes(s: bytes, before: seq<(bytes, bytes)>): (r: Option<(bool, seq<(bytes, bytes)>, bytes)>)
    ensures r.Some? ==> |r.value.2| < |s|
    decreases |s|
  {
    var t := SkipWhiteSpace(s);
    if t == [] then None
    else if IsNameStart(t[0]) then
      match ParseAttribute(t)
      case None => None
      case Some((a, rest)) => if HasName(before, a.0) then None else ParseAttributes(rest, before + [a])
    else if t[0] == GT then Some((false, before, t[1..]))
    else if t[0] == SLASH && |t| > 1 && t[1] == GT then Some((true, before, t[2..]))
    else None
  }

  /** OPEN for <foo>, CLOSED for <foo/>, CLOSING for </foo>. */
  datatype ClosingType = OPEN | CLOSED | CLOSING

  datatype Tag = Tag(closing: ClosingType, name: bytes, attributes: seq<(bytes, bytes)>, rest: bytes)

  /** XMLElement::ParseDeep up to the end of the tag, behind the "<". */
  function ParseTag(s: bytes): (r: Option<Tag>)
    ensures r.Some? ==> |r.value.rest| < |s|
  {
    var t := SkipWhiteSpace(s);
    var closing := t != [] && t[0] == SLASH;
    var u := if closing then t[1..] else t;
    var n := ParseName(u);
    if n == 0 then None
    else match ParseAttributes(u[n..], [])
      case None => None
      case Some((sealed, attrs, rest)) =>
        Some(Tag(if sealed then CLOSED else if closing then CLOSING else OPEN, u[..n], attrs, rest))
  }

  // ------------------------------------------------------------------ nodes

  datatype Header = MarkedHeader(kind: Kind) | ElementHeader | TextHeader

  /** XMLDocument::Identify, behind white space. */
  function Identify(t: bytes): (h: Header)
    ensures h.MarkedHeader? ==> Open(h.kind) <= t
  {
    if Open(Declaration) <= t then MarkedHeader(Declaration)
    else if Open(Comment) <= t then MarkedHeader(Comment)
    else if Open(CData) <= t then MarkedHeader(CData)
    else if Open(Unknown) <= t then MarkedHeader(Unknown)
    else if [LT] <= t then ElementHeader
    else TextHeader
  }

  /** The children read so far, and the end tag that was met, if any. */
  datatype Parsed = Bad | Good(children: seq<Node>, endTag: Option<bytes>, rest: bytes)

  /** A declaration must come before everything else in the document. */
  predicate WellLocated(top: bool, before: seq<Node>) {
    top && (before == [] || (IsDeclaration(before[0]) && IsDeclaration(before[|before| - 1])))
  }

  /** XMLNode::ParseDeep, when `depth` nodes are being read including this one. */
  function ParseDeep(s: bytes, depth: nat, top: bool): (r: Parsed)
    ensures r.Good? ==> |r.rest| <= |s|
    decreases |s|, 1
  {
    if depth >= MAX_DEPTH then Bad else ParseChildren(s, depth, top, [])
  }

  /** The loop of XMLNode::ParseDeep. The end tag is read here, one level down from the
      element it belongs to. */
  function ParseChildren(s: bytes, depth: nat, top: bool, before: seq<Node>): (r: Parsed)
    ensures r.Good? ==> |r.rest| <= |s|
    decreases |s|, 0
  {
    var t := SkipWhiteSpace(s);
    if t == [] then Good(before, None, [])
    else match Identify(t)
      case MarkedHeader(kind) =>
        var body := t[|Open(kind)|..];
        var end := FindMark(body, Close(kind));
        if end == |body| || (kind.Declaration? && !WellLocated(top, before)) then Bad
        else
          ParseChildren(body[end + |Close(kind)|..], depth, top,
                        before + [Marked(kind, Decode(body[..end], 0, [], MARKUP))])
      case TextHeader =>
        var end := FindMark(s, [LT]);
        assert s[0] != LT;
        if end + 1 >= |s| then Bad
        else ParseChildren(s[end..], depth, top, before + [Text(Decode(s[..end], 0, [], TEXT_ELEMENT))])
      case ElementHeader =>
        match ParseTag(t[1..])
        case None => Bad
        case Some(tag) =>
          match tag.closing
          case CLOSING => Good(before, Some(tag.name), tag.rest)
          case CLOSED => ParseChildren(tag.rest, depth, top, before + [Element(tag.name, tag.attributes, [])])
          case OPEN =>
            if tag.rest == [] then Bad
            else match ParseDeep(tag.rest, depth + 1, false)
              case Bad => Bad
              case Good(children, endTag, rest) =>
                if endTag != Some(tag.name) then Bad
                else ParseChildren(rest, depth, top, before + [Element(tag.name, tag.attributes, children)])
  }

  const BOM: bytes := [0xEF, 0xBB, 0xBF]

  /** XMLDocument::Parse: the nodes of the document, or an error. */
  function Parse(text: bytes): Option<seq<Node>> {
    var t := SkipWhiteSpace(text);
    var u := if BOM <= t then t[3..] else t;
    if text == [] || u == [] then None
    else match ParseDeep(u, 1, true)
      case Bad => None
      case Good(children, _, _) => Some(children)
  }
}
