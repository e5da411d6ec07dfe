/** The white space that XMLPrinter adds: none in the compact form; in the indented form line
    ends and four spaces for each level, but no line ends where text has been written. */
module XmlLayout {
  import opened Bytes
  import opened XmlText
  import opened XmlTree

  const INDENT_SIZE: nat := 4

  function Spaces(n: nat): (r: bytes)
    ensures |r| == n && XmlTree.Blank(r) && forall c <- r :: c == SPACE
  {
    if n == 0 then [] else [SPACE] + Spaces(n - 1)
  }

  /** How deep the element lies whose text was last written, -1 if it has been closed; and
      whether nothing has been printed yet. */
  datatype Style = Style(textDepth: int, first: bool) {
    /** A line may be broken. */
    predicate Breaks(compact: bool) {
      !compact && !first && textDepth < 0
    }

    /** Behind the end tag of an element. */
    function Closed(depth: nat): Style {
      Style(if textDepth == depth then -1 else textDepth, first)
    }
  }

  datatype Printed = Printed(text: bytes, style: Style)

  function Line(depth: nat): bytes {
    [LF] + Spaces(INDENT_SIZE * depth)
  }

  /** In front of an element: indented even where no line is broken. */
  function BeforeElement(depth: nat, st: Style, compact: bool): bytes {
    (if st.Breaks(compact) then [LF] else []) + if compact then [] else Spaces(INDENT_SIZE * depth)
  }

  function BeforeMarked(depth: nat, st: Style, compact: bool): bytes {
    if st.Breaks(compact) then Line(depth) else []
  }

  function BeforeEndTag(depth: nat, st: Style, compact: bool): bytes {
    if compact || st.textDepth >= 0 then [] else Line(depth)
  }

  function BehindElement(depth: nat, compact: bool): bytes {
    if depth == 0 && !compact then [LF] else []
  }

  /** The text of a node that is printed inside `depth` elements. */
  function PrintNode(n: Node, depth: nat, st: Style, compact: bool): Printed
    decreases n
  {
    match n
    case Text(v) => Printed(Escape(v, true), Style(depth - 1, st.first))
    case Marked(kind, v) =>
      var text := Open(kind) + v + Close(kind);
      if kind.CData? then Printed(text, Style(depth - 1, st.first))
      else Printed(BeforeMarked(depth, st, compact) + text, Style(st.textDepth, false))
    case Element(name, attrs, children) =>
      var inside := Style(st.textDepth, false);
      var open := BeforeElement(depth, st, compact) + Head(name, attrs);
      if children == [] then
        Printed(open + [SLASH, GT] + BehindElement(depth, compact), inside.Closed(depth))
      else
        var p := PrintAll(children, depth + 1, inside, compact);
        Printed(open + [GT] + p.text + BeforeEndTag(depth, p.style, compact) + EndTag(name)
                + BehindElement(depth, compact),
                p.style.Closed(depth))
  }

  /** Siblings, one after the other. */
  function PrintAll(ns: seq<Node>, depth: nat, st: Style, compact: bool): Printed
    decreases ns
  {
    if ns == [] then Printed([], st)
    else
      assert ns decreases to ns[0];
      var p := PrintNode(ns[0], depth, st, compact);
      var q := PrintAll(ns[1..], depth, p.style, compact);
      Printed(p.text + q.text, q.style)
  }

  lemma {:induction false} PrintAllConcat(a: seq<Node>, b: seq<Node>, depth: nat, st: Style, compact: bool)
    ensures
      var p := PrintAll(a, depth, st, compact);
      var q := PrintAll(b, depth, p.style, compact);
      PrintAll(a + b, depth, st, compact) == Printed(p.text + q.text, q.style)
  {
    hide PrintNode;
    if a == [] {
      var q := PrintAll(b, depth, st, compact);
      assert a + b == b && [] + q.text == q.text;
    } else {
      assert (a + b)[1..] == a[1..] + b;
      var p := PrintNode(a[0], depth, st, compact);
      PrintAllConcat(a[1..], b, depth, p.style, compact);
      var q := PrintAll(a[1..], depth, p.style, compact);
      Assoc(p.text, q.text, PrintAll(b, depth, q.style, compact).text);
    }
  }

  // ----------------------------------------------------------------- compact

  /** The compact form adds nothing: it is the pieces of the tree, put together. */
  lemma {:induction false} CompactIsPlain(n: Node, depth: nat, st: Style)
    ensures PrintNode(n, depth, st, true).text == Flatten(Lex(n))
    decreases n
  {
    match n {
      case Text(v) =>
        FlattenOne(Escape(v, true));
      case Marked(kind, v) =>
        FlattenOne(Open(kind) + v + Close(kind));
        assert [] + (Open(kind) + v + Close(kind)) == Open(kind) + v + Close(kind);
      case Element(_, _, children) =>
        assert n decreases to n.children;
        AllCompactIsPlain(children, depth + 1, Style(st.textDepth, false));
        ElementText(n, depth, st);
        ElementPieces(n);
    }
  }

  /** An element in the compact form. */
  lemma ElementText(n: Node, depth: nat, st: Style)
    requires n.Element?
    ensures
      var head := Head(n.name, n.attributes);
      PrintNode(n, depth, st, true).text
      == if n.children == [] then head + [SLASH, GT]
         else head + [GT] + PrintAll(n.children, depth + 1, Style(st.textDepth, false), true).text + EndTag(n.name)
  {
    hide Head, EndTag, PrintAll;
    var head := Head(n.name, n.attributes);
    NothingAdded(head + [SLASH, GT]);
    NothingAdded(head);
    var x := head + [GT] + PrintAll(n.children, depth + 1, Style(st.textDepth, false), true).text;
    NothingAdded(x);
    NothingAdded(x + EndTag(n.name));
  }

  lemma NothingAdded(s: bytes)
    ensures [] + [] + s == s && s + [] == s
  {
  }

  lemma ElementPieces(n: Node)
    requires n.Element?
    ensures
      var head := Head(n.name, n.attributes);
      Flatten(Lex(n)) == if n.children == [] then head + [SLASH, GT]
                         else head + [GT] + Flatten(LexAll(n.children)) + EndTag(n.name)
  {
    hide Head, EndTag, LexAll, Flatten;
    var head := Head(n.name, n.attributes);
    FlattenOne(head + [SLASH, GT]);
    FlattenOne(head + [GT]);
    FlattenOne(EndTag(n.name));
    FlattenAppend([head + [GT]], LexAll(n.children));
    FlattenAppend([head + [GT]] + LexAll(n.children), [EndTag(n.name)]);
  }

  lemma FlattenOne(l: bytes)
    ensures Flatten([l]) == l
  {
    assert [l][1..] == [] && l + [] == l;
  }

  lemma {:induction false} AllCompactIsPlain(ns: seq<Node>, depth: nat, st: Style)
    ensures PrintAll(ns, depth, st, true).text == Flatten(LexAll(ns))
    decreases ns
  {
    if ns != [] {
      hide PrintNode, Lex;
      assert ns decreases to ns[0];
      CompactIsPlain(ns[0], depth, st);
      AllCompactIsPlain(ns[1..], depth, PrintNode(ns[0], depth, st, true).style);
      FlattenAppend(Lex(ns[0]), LexAll(ns[1..]));
    }
  }

  // ---------------------------------------------------------------- indented

  /** No text and no CDATA anywhere. */
  predicate TextFree(n: Node)
    decreases n
  {
    match n
    case Text(_) => false
    case Marked(kind, _) => !kind.CData?
    case Element(_, _, children) => AllTextFree(children)
  }

  predicate AllTextFree(ns: seq<Node>)
    decreases ns
  {
    ns != [] ==> (assert ns decreases to ns[0]; TextFree(ns[0])) && AllTextFree(ns[1..])
  }

  /** A node on lines of its own: its children one level deeper, its end tag at its own
      level. */
  function Pretty(n: Node, depth: nat): bytes
    decreases n
  {
    match n
    case Text(v) => Escape(v, true)
    case Marked(kind, v) => Open(kind) + v + Close(kind)
    case Element(name, attrs, children) =>
      if children == [] then Head(name, attrs) + [SLASH, GT]
      else Head(name, attrs) + [GT] + PrettyLines(children, depth + 1) + Line(depth) + EndTag(name)
  }

  function PrettyLines(ns: seq<Node>, depth: nat): bytes
    decreases ns
  {
    if ns == [] then []
    else
      assert ns decreases to ns[0];
      Line(depth) + Pretty(ns[0], depth) + PrettyLines(ns[1..], depth)
  }

  const ON_LINE := Style(-1, false)

  /** Without text, each node inside an element starts a line that is indented by its level,
      and so does each end tag. */
  lemma {:induction false} IndentedIsPretty(n: Node, depth: nat)
    requires TextFree(n) && depth > 0
    ensures PrintNode(n, depth, ON_LINE, false) == Printed(Line(depth) + Pretty(n, depth), ON_LINE)
    decreases n
  {
    if n.Element? {
      hide Head, EndTag, Spaces;
      assert n decreases to n.children;
      ElementIsPretty(n, depth);
      BehindBreak(depth, Pretty(n, depth));
      assert PrintNode(n, depth, ON_LINE, false).text == Line(depth) + Pretty(n, depth) + [];
      assert Line(depth) + Pretty(n, depth) + [] == Line(depth) + Pretty(n, depth);
    }
  }

  lemma BehindBreak(depth: nat, text: bytes)
    ensures BeforeElement(depth, ON_LINE, false) == Line(depth)
    ensures depth == 0 ==> BeforeElement(depth, Style(-1, true), false) == []
  {
  }

  /** An element's text behind its indentation. */
  lemma {:induction false} ElementIsPretty(n: Node, depth: nat)
    requires TextFree(n) && n.Element?
    ensures forall first ::
              PrintNode(n, depth, Style(-1, first), false)
              == Printed(BeforeElement(depth, Style(-1, first), false) + Pretty(n, depth) + BehindElement(depth, false),
                         ON_LINE)
    decreases n, 0
  {
    hide Head, EndTag, BeforeElement, BehindElement, Line;
    assert n decreases to n.children;
    var head := Head(n.name, n.attributes);
    if n.children != [] {
      AllIndentedArePretty(n.children, depth + 1);
    }
    forall first
      ensures PrintNode(n, depth, Style(-1, first), false)
              == Printed(BeforeElement(depth, Style(-1, first), false) + Pretty(n, depth) + BehindElement(depth, false),
                         ON_LINE)
    {
      var b := BeforeElement(depth, Style(-1, first), false);
      if n.children == [] {
        Assoc(b, head, [SLASH, GT]);
      } else {
        var x := PrettyLines(n.children, depth + 1);
        FiveAfter(b, head, [GT], x, Line(depth), EndTag(n.name));
      }
    }
  }

  lemma FiveAfter(a: bytes, b: bytes, c: bytes, d: bytes, e: bytes, f: bytes)
    ensures a + b + c + d + e + f == a + (b + c + d + e + f)
  {
    Assoc(a, b, c);
    Assoc(a, b + c, d);
    Assoc(a, b + c + d, e);
    Assoc(a, b + c + d + e, f);
  }

  lemma {:induction false} AllIndentedArePretty(ns: seq<Node>, depth: nat)
    requires AllTextFree(ns) && depth > 0
    ensures PrintAll(ns, depth, ON_LINE, false) == Printed(PrettyLines(ns, depth), ON_LINE)
    decreases ns
  {
    if ns != [] {
      hide PrintNode, Pretty, Line;
      assert ns decreases to ns[0];
      IndentedIsPretty(ns[0], depth);
      AllIndentedArePretty(ns[1..], depth);
    }
  }

  /** The document itself: a line end in front of every node but the first, and one more
      behind each element. */
  function PrettyDocument(ns: seq<Node>, first: bool): bytes {
    if ns == [] then []
    else
      (if first then [] else [LF]) + Pretty(ns[0], 0) + (if ns[0].Element? then [LF] else [])
      + PrettyDocument(ns[1..], false)
  }

  lemma {:induction false} DocumentIsPretty(ns: seq<Node>, first: bool)
    requires AllTextFree(ns)
    ensures PrintAll(ns, 0, Style(-1, first), false).text == PrettyDocument(ns, first)
    decreases |ns|
  {
    if ns != [] {
      hide Pretty, PrintNode;
      DocumentIsPretty(ns[1..], false);
      TopIsPretty(ns[0], first);
    }
  }

  lemma TopIsPretty(n: Node, first: bool)
    requires TextFree(n)
    ensures PrintNode(n, 0, Style(-1, first), false)
            == Printed((if first then [] else [LF]) + Pretty(n, 0) + (if n.Element? then [LF] else []), ON_LINE)
  {
    var b := if first then [] else [LF];
    assert Spaces(INDENT_SIZE * 0) == [] && b + [] == b;
    if n.Element? {
      ElementIsPretty(n, 0);
    } else {
      assert b + Pretty(n, 0) + [] == b + Pretty(n, 0);
    }
  }
}
