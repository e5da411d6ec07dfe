/** The document tree of tinyxml2 and the pieces its printed text is made of. */
module XmlTree {
  import opened Bytes
  import opened XmlText

  const SPACE: byte := 0x20
  const SLASH: byte := 0x2F
  const EQUALS: byte := 0x3D

  /** What is read and written as raw text between two marks. */
  datatype Kind = Comment | CData | Declaration | Unknown

  datatype Node =
    | Element(name: bytes, attributes: seq<(bytes, bytes)>, children: seq<Node>)
    | Text(value: bytes)
    | Marked(kind: Kind, value: bytes)

  function Open(kind: Kind): (r: bytes)
    ensures |r| > 1 && r[0] == LT
  {
    match kind
    case Comment => [LT, 0x21, 0x2D, 0x2D]
    case CData => [LT, 0x21, 0x5B, 0x43, 0x44, 0x41, 0x54, 0x41, 0x5B]
    case Declaration => [LT, 0x3F]
    case Unknown => [LT, 0x21]
  }

  function Close(kind: Kind): (r: bytes)
    ensures r != []
  {
    match kind
    case Comment => [0x2D, 0x2D, GT]
    case CData => [0x5D, 0x5D, GT]
    case Declaration => [0x3F, GT]
    case Unknown => [GT]
  }

  lemma MarksSpelled(kind: Kind)
    ensures
      match kind
      case Comment => Ascii(Open(kind), "<!--") && Ascii(Close(kind), "-->")
      case CData => Ascii(Open(kind), "<![CDATA[") && Ascii(Close(kind), "]]>")
      case Declaration => Ascii(Open(kind), "<?") && Ascii(Close(kind), "?>")
      case Unknown => Ascii(Open(kind), "<!") && Ascii(Close(kind), ">")
  {
  }

  // ------------------------------------------------------------- characters

  /** isspace in the C locale; bytes above 127 never count. */
  predicate IsWhiteSpace(c: byte) {
    c == 0x20 || 0x09 <= c <= 0x0D
  }

  predicate IsNameStart(c: byte) {
    c >= 128 || 0x41 <= c <= 0x5A || 0x61 <= c <= 0x7A || c == 0x3A || c == 0x5F
  }

  predicate IsNameChar(c: byte) {
    IsNameStart(c) || 0x30 <= c <= 0x39 || c == 0x2E || c == 0x2D
  }

  /** Names start with a letter, ":" or "_" and go on with these, digits, "." and "-"; bytes
      above 127 are taken for letters. */
  lemma NameCharacters(c: byte)
    ensures IsNameStart(c) <==> c >= 128 || 'A' as int <= c <= 'Z' as int || 'a' as int <= c <= 'z' as int
                                || c == ':' as int || c == '_' as int
    ensures IsNameChar(c) <==>
              IsNameStart(c) || '0' as int <= c <= '9' as int || c == '.' as int || c == '-' as int
    ensures IsWhiteSpace(c) <==> c == ' ' as int || '\t' as int <= c <= '\r' as int
  {
  }

  predicate IsName(s: bytes) {
    s != [] && IsNameStart(s[0]) && forall c <- s :: IsNameChar(c)
  }

  predicate Blank(s: bytes) {
    forall c <- s :: IsWhiteSpace(c)
  }

  function SkipWhiteSpace(s: bytes): (r: bytes)
    ensures |r| <= |s| && (r != [] ==> !IsWhiteSpace(r[0]))
  {
    if s != [] && IsWhiteSpace(s[0]) then SkipWhiteSpace(s[1..]) else s
  }

  lemma {:induction false} SkipBlank(ws: bytes, s: bytes)
    requires Blank(ws)
    ensures SkipWhiteSpace(ws + s) == SkipWhiteSpace(s)
  {
    if ws == [] {
      assert ws + s == s;
    } else {
      assert ws[0] in ws && (ws + s)[1..] == ws[1..] + s;
      assert forall c <- ws[1..] :: c in ws;
      SkipBlank(ws[1..], s);
    }
  }

  lemma {:induction false} SkipNothing(s: bytes)
    ensures Blank(s) <==> SkipWhiteSpace(s) == []
  {
    if s != [] {
      SkipNothing(s[1..]);
      assert s == [s[0]] + s[1..];
    }
  }

  // -------------------------------------------------------------- searching

  predicate Contains(s: bytes, mark: bytes) {
    FindMark(s, mark) < |s|
  }

  // --------------------------------------------------------------- lexemes

  function AttributeText(a: (bytes, bytes)): (r: bytes)
    ensures r != []
  {
    [SPACE] + a.0 + [EQUALS, QUOT] + Escape(a.1, false) + [QUOT]
  }

  function AttributesText(attrs: seq<(bytes, bytes)>): bytes {
    if attrs == [] then [] else AttributeText(attrs[0]) + AttributesText(attrs[1..])
  }

  /** An opening tag up to its end mark. */
  function Head(name: bytes, attrs: seq<(bytes, bytes)>): (r: bytes)
    ensures r != [] && r[0] == LT
  {
    [LT] + name + AttributesText(attrs)
  }

  function EndTag(name: bytes): (r: bytes)
    ensures |r| > 1 && r[0] == LT
  {
    [LT, SLASH] + name + [GT]
  }

  /** The pieces of a node's text: tags, marked stretches and escaped text. */
  function Lex(n: Node): (r: seq<bytes>)
    ensures r != []
    decreases n
  {
    match n
    case Element(name, attrs, children) =>
      if children == [] then [Head(name, attrs) + [SLASH, GT]]
      else [Head(name, attrs) + [GT]] + LexAll(children) + [EndTag(name)]
    case Text(v) => [Escape(v, true)]
    case Marked(kind, v) => [Open(kind) + v + Close(kind)]
  }

  function LexAll(ns: seq<Node>): seq<bytes>
    decreases ns
  {
    if ns == [] then [] else Lex(ns[0]) + LexAll(ns[1..])
  }

  predicate IsMarkup(l: bytes) {
    |l| > 1 && l[0] == LT
  }

  /** `s` is the pieces `ls`, with white space allowed in front of markup that does not
      follow text, and at the end behind markup. */
  predicate Laid(ls: seq<bytes>, s: bytes) {
    if ls == [] then Blank(s)
    else if IsMarkup(ls[0]) then
      var t := SkipWhiteSpace(s);
      ls[0] <= t && Laid(ls[1..], t[|ls[0]|..])
    else
      && ls[0] != [] && ls[0] <= s
      && (if |ls| == 1 then s[|ls[0]|..] == []
          else IsMarkup(s[|ls[0]|..]) && Laid(ls[1..], s[|ls[0]|..]))
  }

  // ------------------------------------------------------------ well-formed

  predicate DistinctNames(attrs: seq<(bytes, bytes)>) {
    forall i, j | 0 <= i < j < |attrs| :: attrs[i].0 != attrs[j].0
  }

  predicate AttributeOk(a: (bytes, bytes)) {
    IsName(a.0) && NoNul(a.1)
  }

  predicate MarkedOk(kind: Kind, v: bytes) {
    && NoNul(v) && !Contains(v, Close(kind))
    && (kind.Unknown? ==> !([0x2D, 0x2D] <= v) && !(Open(CData)[2..] <= v))
  }

  /** Names are names, text is not blank, marked text does not contain its end mark, and
      there is no declaration. */
  ghost predicate NodeOk(n: Node)
    decreases n
  {
    match n
    case Element(name, attrs, children) =>
      && IsName(name) && (forall a <- attrs :: AttributeOk(a)) && DistinctNames(attrs)
      && (forall c <- children :: NodeOk(c)) && Separate(children)
    case Text(v) => NoNul(v) && !Blank(v)
    case Marked(kind, v) => MarkedOk(kind, v) && !kind.Declaration?
  }

  /** No two texts are neighbours. */
  predicate Separate(ns: seq<Node>) {
    forall i | 0 < i < |ns| :: !(ns[i - 1].Text? && ns[i].Text?)
  }

  predicate IsDeclaration(n: Node) {
    n.Marked? && n.kind.Declaration?
  }

  predicate AllDeclarations(ns: seq<Node>) {
    forall n <- ns :: IsDeclaration(n)
  }
}
