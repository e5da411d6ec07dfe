/** XMLPrinter: the state machine that prints a document, compact or indented, and what
    the indentation does to text. */
module XmlPrinter {
  import opened Bytes
  import opened XmlText
  import opened XmlTree
  import opened XmlLayout
  import opened XmlStrPair

  // ------------------------------------------------------- text and indentation

  /** What a node reads back as when it is printed at `depth`: in the indented form the
      spaces in front of an element become part of a text that comes right before it. */
  function Pad(n: Node, depth: nat, compact: bool): Node
    decreases n
  {
    match n
    case Element(name, attrs, children) => Element(name, attrs, PadAll(children, depth + 1, compact))
    case _ => n
  }

  function PadAll(ns: seq<Node>, depth: nat, compact: bool): (r: seq<Node>)
    ensures |r| == |ns|
    decreases ns
  {
    if ns == [] then []
    else
      [if ns[0].Text? && !compact && |ns| > 1 && ns[1].Element? then Text(ns[0].value + Spaces(4 * depth))
       else Pad(ns[0], depth, compact)]
      + PadAll(ns[1..], depth, compact)
  }

  // --------------------------------------------------------------- appending

  predicate EndsInText(ls: seq<bytes>) {
    ls != [] && !IsMarkup(ls[|ls| - 1])
  }

  /** Laid out with nothing behind the last piece. */
  predicate Tight(ls: seq<bytes>, s: bytes) {
    if ls == [] then s == []
    else if IsMarkup(ls[0]) then
      var t := SkipWhiteSpace(s);
      ls[0] <= t && Tight(ls[1..], t[|ls[0]|..])
    else
      && ls[0] != [] && ls[0] <= s
      && (if |ls| == 1 then s[|ls[0]|..] == []
          else IsMarkup(s[|ls[0]|..]) && Tight(ls[1..], s[|ls[0]|..]))
  }

  lemma {:induction false} TightIsLaid(ls: seq<bytes>, s: bytes)
    requires Tight(ls, s)
    ensures Laid(ls, s)
    decreases |ls|
  {
    if ls == [] {
    } else if IsMarkup(ls[0]) {
      TightIsLaid(ls[1..], SkipWhiteSpace(s)[|ls[0]|..]);
    } else if |ls| > 1 {
      TightIsLaid(ls[1..], s[|ls[0]|..]);
    }
  }

  /** White space may follow markup. */
  lemma {:induction false} LaidBlank(ls: seq<bytes>, s: bytes, ws: bytes)
    requires Laid(ls, s) && XmlTree.Blank(ws) && (EndsInText(ls) ==> ws == [])
    ensures Laid(ls, s + ws)
    decreases |ls|
  {
    if ws == [] {
      assert s + ws == s;
    } else if ls == [] {
    } else if IsMarkup(ls[0]) {
      var t := SkipWhiteSpace(s);
      SkipConcat(s, ws);
      assert (t + ws)[|ls[0]|..] == t[|ls[0]|..] + ws;
      LaidBlank(ls[1..], t[|ls[0]|..], ws);
    } else {
      var t := s[|ls[0]|..];
      assert (s + ws)[|ls[0]|..] == t + ws;
      LaidBlank(ls[1..], t, ws);
    }
  }

  lemma {:induction false} SkipConcat(s: bytes, t: bytes)
    ensures SkipWhiteSpace(s) != [] ==> SkipWhiteSpace(s + t) == SkipWhiteSpace(s) + t
    ensures SkipWhiteSpace(s) == [] ==> SkipWhiteSpace(s + t) == SkipWhiteSpace(t)
  {
    if s == [] {
      assert s + t == t;
    } else {
      assert (s + t)[1..] == s[1..] + t;
      SkipConcat(s[1..], t);
    }
  }

  /** Markup may be appended to any layout. */
  lemma {:induction false} AppendMarkup(ls: seq<bytes>, s: bytes, m: bytes)
    requires Laid(ls, s) && IsMarkup(m) && !IsWhiteSpace(m[0])
    ensures Tight(ls + [m], s + m)
    decreases |ls|
  {
    if ls == [] {
      SkipBlank(s, m);
      assert [] + [m] == [m] && [m][1..] == [];
    } else if IsMarkup(ls[0]) {
      var t := SkipWhiteSpace(s);
      SkipConcat(s, m);
      assert (t + m)[|ls[0]|..] == t[|ls[0]|..] + m;
      AppendMarkup(ls[1..], t[|ls[0]|..], m);
      assert ls + [m] == [ls[0]] + (ls[1..] + [m]);
    } else {
      var t := s[|ls[0]|..];
      assert (s + m)[|ls[0]|..] == t + m;
      if |ls| == 1 {
        assert t + m == m && ls[1..] == [];
        AppendMarkup([], t, m);
      } else {
        AppendMarkup(ls[1..], t, m);
      }
      assert ls + [m] == [ls[0]] + (ls[1..] + [m]);
    }
  }

  /** Text may be appended where nothing follows the last markup. */
  lemma {:induction false} AppendText(ls: seq<bytes>, s: bytes, l: bytes)
    requires Tight(ls, s) && !EndsInText(ls) && l != [] && l[0] != LT
    ensures Tight(ls + [l], s + l)
    decreases |ls|
  {
    if ls == [] {
      assert [] + [l] == [l] && s + l == l && [l][1..] == [];
    } else if IsMarkup(ls[0]) {
      var t := SkipWhiteSpace(s);
      SkipConcat(s, l);
      assert (t + l)[|ls[0]|..] == t[|ls[0]|..] + l;
      AppendText(ls[1..], t[|ls[0]|..], l);
      assert ls + [l] == [ls[0]] + (ls[1..] + [l]);
    } else {
      var t := s[|ls[0]|..];
      assert (s + l)[|ls[0]|..] == t + l;
      AppendText(ls[1..], t, l);
      assert ls + [l] == [ls[0]] + (ls[1..] + [l]);
    }
  }

  /** The last text, if that is what comes last, with spaces behind it. */
  function PadLast(ls: seq<bytes>, sp: bytes): seq<bytes> {
    if EndsInText(ls) then ls[..|ls| - 1] + [ls[|ls| - 1] + sp] else ls
  }

  lemma PadLastSplit(ls: seq<bytes>, sp: bytes)
    requires EndsInText(ls)
    ensures |ls| == 1 ==> PadLast(ls, sp) == [ls[0] + sp]
    ensures |ls| > 1 ==>
              && EndsInText(ls[1..]) && ls[1..][|ls| - 2] == ls[|ls| - 1]
              && PadLast(ls, sp) == [ls[0]] + PadLast(ls[1..], sp) && PadLast(ls[1..], sp) != []
  {
    if |ls| == 1 {
      assert ls[..0] + [ls[0] + sp] == [ls[0] + sp];
    } else {
      assert ls[1..][..|ls| - 2] == ls[1..|ls| - 1];
    }
  }

  lemma TightOne(l: bytes)
    requires l != [] && l[0] != LT
    ensures Tight([l], l)
  {
  }

  lemma TightMarkup(l: bytes, ls: seq<bytes>, s: bytes, rest: bytes)
    requires IsMarkup(l) && SkipWhiteSpace(s) == l + rest
    ensures Tight([l] + ls, s) <==> Tight(ls, rest)
  {
    assert ([l] + ls)[1..] == ls && (l + rest)[|l|..] == rest;
  }

  lemma TightText(l: bytes, ls: seq<bytes>, rest: bytes)
    requires l != [] && !IsMarkup(l) && ls != []
    ensures Tight([l] + ls, l + rest) <==> IsMarkup(rest) && Tight(ls, rest)
  {
    assert ([l] + ls)[1..] == ls && (l + rest)[|l|..] == rest;
  }

  lemma TightSplit(ls: seq<bytes>, s: bytes) returns (rest: bytes)
    requires Tight(ls, s) && |ls| > 1
    ensures Tight(ls[1..], rest)
    ensures IsMarkup(ls[0]) ==> SkipWhiteSpace(s) == ls[0] + rest
    ensures !IsMarkup(ls[0]) ==> ls[0] != [] && s == ls[0] + rest && IsMarkup(rest)
  {
    rest := if IsMarkup(ls[0]) then SkipWhiteSpace(s)[|ls[0]|..] else s[|ls[0]|..];
  }

  lemma {:induction false} AppendSpaces(ls: seq<bytes>, s: bytes, sp: bytes)
    requires Tight(ls, s) && EndsInText(ls) && ls[|ls| - 1] != [] && ls[|ls| - 1][0] != LT
    ensures Tight(PadLast(ls, sp), s + sp)
    decreases |ls|
  {
    PadLastSplit(ls, sp);
    if |ls| == 1 {
      assert s == ls[0];
      TightOne(ls[0] + sp);
    } else {
      hide Tight, PadLast, SkipWhiteSpace;
      var rest := TightSplit(ls, s);
      AppendSpaces(ls[1..], rest, sp);
      SkipConcat(s, sp);
      Assoc(ls[0], rest, sp);
      if IsMarkup(ls[0]) {
        TightMarkup(ls[0], PadLast(ls[1..], sp), s + sp, rest + sp);
      } else {
        assert IsMarkup(rest + sp);
        TightText(ls[0], PadLast(ls[1..], sp), rest + sp);
      }
    }
  }

  lemma FourMore(n: nat)
    ensures Spaces(4 * (n + 1)) == [SPACE, SPACE, SPACE, SPACE] + Spaces(4 * n)
  {
    assert Spaces(4 * n + 1) == [SPACE] + Spaces(4 * n);
    assert Spaces(4 * n + 2) == [SPACE] + Spaces(4 * n + 1);
    assert Spaces(4 * n + 3) == [SPACE] + Spaces(4 * n + 2);
  }

  lemma NoSpaces()
    ensures Spaces(0) == []
  {
  }

  // ------------------------------------------------------------- the printer

  class Printer {
    /** What has been written, without the closing NUL. */
    var buffer: bytes
    var stack: seq<bytes>
    var depth: nat
    var textDepth: int
    var elementJustOpened: bool
    var firstElement: bool
    const compact: bool

    constructor (compact: bool)
      ensures this.compact == compact && Fresh()
    {
      this.compact := compact;
      buffer, stack, depth, textDepth := [], [], 0, -1;
      elementJustOpened, firstElement := false, true;
    }

    ghost predicate Fresh()
      reads this
    {
      buffer == [] && stack == [] && depth == 0 && textDepth == -1 && !elementJustOpened && firstElement
    }

    ghost function Now(): Style
      reads this
    {
      Style(textDepth, firstElement)
    }

    /** The text with the tag closed that is still open. */
    ghost function Sealed(): bytes
      reads this
    {
      if elementJustOpened then buffer + [GT] else buffer
    }

    /** The pieces `ls` have been printed. */
    ghost predicate Shows(ls: seq<bytes>)
      reads this
    {
      && Laid(ls, Sealed()) && (depth > 0 ==> Tight(ls, Sealed()))
      && (EndsInText(ls) ==> depth > 0 && textDepth == depth - 1 && ls[|ls| - 1] != [] && ls[|ls| - 1][0] != LT)
    }

    method Write(data: bytes)
      modifies this`buffer
      ensures buffer == old(buffer) + data
    {
      buffer := buffer + data;
    }

    method PrintSpace(n: nat) returns (ghost ws: bytes)
      modifies this`buffer
      ensures buffer == old(buffer) + ws && ws == Spaces(4 * n)
    {
      hide Spaces;
      ws := [];
      assert buffer + [] == buffer && [] + Spaces(4 * n) == Spaces(4 * n);
      NoSpaces();
      for i := 0 to n
        invariant buffer == old(buffer) + ws && ws + Spaces(4 * (n - i)) == Spaces(4 * n)
      {
        FourMore(n - i - 1);
        Assoc(ws, [SPACE, SPACE, SPACE, SPACE], Spaces(4 * (n - i - 1)));
        Assoc(old(buffer), ws, [SPACE, SPACE, SPACE, SPACE]);
        Write([SPACE, SPACE, SPACE, SPACE]);
        ws := ws + [SPACE, SPACE, SPACE, SPACE];
      }
      assert ws + [] == ws;
    }

    method SealElementIfJustOpened()
      modifies this`buffer, this`elementJustOpened
      ensures buffer == Sealed() == old(Sealed()) && !elementJustOpened
    {
      if elementJustOpened {
        elementJustOpened := false;
        Write([GT]);
      }
    }
  
    /** The white space in front of markup, where there is any. */
    method Separate(ghost ls: seq<bytes>)
      requires Shows(ls) && !elementJustOpened
      modifies this`buffer
      ensures Laid(ls, buffer)
      ensures EndsInText(ls) ==> buffer == old(buffer)
      ensures buffer == old(buffer) + BeforeMarked(depth, Now(), compact)
    {
      hide Laid, Tight, Spaces;
      assert buffer + [] == buffer;
      if textDepth < 0 && !firstElement && !compact {
        Write([LF]);
        ghost var ws := PrintSpace(depth);
        Assoc(old(buffer), [LF], ws);
        LaidBlank(ls, old(buffer), [LF] + ws);
      }
    }

    /** OpenElement: `base` is what stands in front of the tag. */
    method OpenElement(name: bytes, ghost ls: seq<bytes>) returns (ghost base: bytes)
      requires Shows(ls)
      modifies this
      ensures buffer == base + ([LT] + name) && Laid(Before(ls, old(depth), compact), base)
      ensures base == old(Sealed()) + BeforeElement(old(depth), old(Now()), compact) && textDepth == old(textDepth)
      ensures stack == old(stack) + [name] && depth == old(depth) + 1
      ensures elementJustOpened && !firstElement
    {
      hide Laid, Tight, PadLast, EndsInText, Spaces;
      SealElementIfJustOpened();
      stack := stack + [name];
      ghost var was := buffer;
      if textDepth < 0 && !firstElement && !compact {
        Write([LF]);
      }
      ghost var ws: bytes := [];
      if !compact {
        ws := PrintSpace(depth);
      }
      base := buffer;
      IndentRegrouped(was, old(Now()).Breaks(compact), ws);
      IndentLaid(ls, was, base, ws, depth, textDepth, compact);
      Write([LT]);
      Write(name);
      Assoc(base, [LT], name);
      elementJustOpened := true;
      firstElement := false;
      depth := depth + 1;
    }

    method PushAttribute(name: bytes, value: bytes)
      requires elementJustOpened && NoNul(value)
      modifies this`buffer
      ensures buffer == old(buffer) + AttributeText((name, value))
    {
      hide Escape;
      Write([SPACE]);
      Write(name);
      Write([EQUALS, QUOT]);
      var escaped := PrintString(value, false);
      Write(escaped);
      Write([QUOT]);
    }

    /** CloseElement: "/>" right behind the opening tag, or an end tag of its own. */
    method CloseElement(ghost ls: seq<bytes>, ghost front: seq<bytes>, ghost base: bytes, ghost head: bytes)
      requires depth > 0 && stack != []
      requires if elementJustOpened then buffer == base + head && head != [] && head[0] == LT && Laid(front, base)
               else Shows(ls)
      modifies this
      ensures depth == old(depth) - 1 && stack == old(stack[..|stack| - 1])
      ensures !elementJustOpened && firstElement == old(firstElement)
      ensures Shows(if old(elementJustOpened) then front + [head + [SLASH, GT]]
                    else ls + [EndTag(old(stack[|stack| - 1]))])
      ensures buffer == old(buffer)
                        + (if old(elementJustOpened) then [SLASH, GT]
                           else BeforeEndTag(depth, old(Now()), compact) + EndTag(old(stack[|stack| - 1])))
                        + BehindElement(depth, compact)
      ensures Now() == old(Now()).Closed(depth)
    {
      hide Laid, Tight, EndsInText, Spaces, EndTag;
      depth := depth - 1;
      var name := stack[|stack| - 1];
      stack := stack[..|stack| - 1];
      ghost var all: seq<bytes>;
      if elementJustOpened {
        Write([SLASH, GT]);
        Assoc(base, head, [SLASH, GT]);
        MarkupShown(front, base, head + [SLASH, GT]);
        all := front + [head + [SLASH, GT]];
      } else {
        CloseOnNewLine(name, ls);
        all := ls + [EndTag(name)];
      }
      assert buffer + [] == buffer;
      if textDepth == depth {
        textDepth := -1;
      }
      if depth == 0 && !compact {
        LaidBlank(all, buffer, [LF]);
        Write([LF]);
      }
      elementJustOpened := false;
    }

    /** An end tag of its own, on a line of its own where lines are broken. */
    method CloseOnNewLine(name: bytes, ghost ls: seq<bytes>)
      requires Laid(ls, buffer) && (textDepth < 0 ==> !EndsInText(ls))
      modifies this`buffer
      ensures buffer == old(buffer) + (BeforeEndTag(depth, Now(), compact) + EndTag(name))
      ensures
        var all := ls + [EndTag(name)];
        Tight(all, buffer) && Laid(all, buffer) && !EndsInText(all)
    {
      hide Laid, Tight, EndsInText, Spaces, EndTag;
      ghost var gap := BeforeEndTag(depth, Now(), compact);
      assert buffer + [] == buffer;
      if textDepth < 0 && !compact {
        Write([LF]);
        ghost var ws := PrintSpace(depth);
        Assoc(old(buffer), [LF], ws);
        LaidBlank(ls, old(buffer), [LF] + ws);
      }
      assert buffer == old(buffer) + gap && Laid(ls, buffer);
      EndTagStarts(name);
      MarkupShown(ls, buffer, EndTag(name));
      EndRegrouped(old(buffer), gap, EndTag(name));
      WriteEndTag(name);
    }

    method WriteEndTag(name: bytes)
      modifies this`buffer
      ensures buffer == old(buffer) + EndTag(name)
    {
      Write([LT, SLASH]);
      Write(name);
      Write([GT]);
    }

    /** PushText: CDATA is marked, other text is escaped. */
    method PushText(text: bytes, cdata: bool, ghost ls: seq<bytes>)
      requires Shows(ls) && NoNul(text)
      requires !cdata ==> depth > 0 && !EndsInText(ls) && !XmlTree.Blank(text)
      modifies this
      ensures depth == old(depth) && stack == old(stack) && firstElement == old(firstElement)
      ensures !elementJustOpened
      ensures Shows(ls + Lex(if cdata then Marked(CData, text) else Text(text)))
      ensures buffer == old(Sealed()) + if cdata then Open(CData) + text + Close(CData) else Escape(text, true)
      ensures Now() == Style(depth - 1, old(firstElement))
    {
      hide Laid, Tight, Escape, XmlTree.Blank;
      textDepth := depth - 1;
      SealElementIfJustOpened();
      if cdata {
        ghost var l := Open(CData) + text + Close(CData);
        AppendMarkup(ls, buffer, l);
        TightIsLaid(ls + [l], buffer + l);
        Write(Open(CData));
        Write(text);
        Write(Close(CData));
        assert buffer == old(Sealed()) + l;
      } else {
        TextStarts(text);
        ghost var l := Escape(text, true);
        AppendText(ls, buffer, l);
        TightIsLaid(ls + [l], buffer + l);
        var escaped := PrintString(text, true);
        Write(escaped);
      }
    }

    /** PushComment, PushDeclaration and PushUnknown, which differ in their marks only. */
    method PushMarked(kind: Kind, value: bytes, ghost ls: seq<bytes>)
      requires Shows(ls)
      modifies this
      ensures depth == old(depth) && stack == old(stack) && !firstElement && !elementJustOpened
      ensures Shows(ls + Lex(Marked(kind, value)))
      ensures buffer == old(Sealed()) + (BeforeMarked(depth, old(Now()), compact) + (Open(kind) + value + Close(kind)))
      ensures textDepth == old(textDepth)
    {
      hide Laid, Tight, EndsInText, Open, Close, BeforeMarked;
      SealElementIfJustOpened();
      Separate(ls);
      firstElement := false;
      ghost var l := Open(kind) + value + Close(kind);
      MarkupShown(ls, buffer, l);
      ghost var was := buffer;
      Write(Open(kind));
      Write(value);
      Write(Close(kind));
      Assoc(was, Open(kind), value);
      Assoc(was, Open(kind) + value, Close(kind));
      Assoc(old(Sealed()), BeforeMarked(depth, old(Now()), compact), l);
    }

    /** XMLNode::Accept with this printer as the visitor. */
    method Accept(n: Node, ghost ls: seq<bytes>)
      requires NodeOk(n) || (n.Marked? && MarkedOk(n.kind, n.value))
      requires Shows(ls) && (n.Text? ==> depth > 0 && !EndsInText(ls))
      modifies this
      ensures depth == old(depth) && stack == old(stack) && !elementJustOpened
      ensures Shows((if n.Element? then Before(ls, depth, compact) else ls) + Lex(Pad(n, depth, compact)))
      ensures
        var p := PrintNode(n, depth, old(Now()), compact);
        buffer == old(Sealed()) + p.text && Now() == p.style
      decreases n, 2
    {
      hide Laid, Tight, XmlTree.Blank, BeforeMarked;
      match n
      case Text(v) => PushText(v, false, ls);
      case Marked(kind, v) =>
        if kind == CData {
          PushText(v, true, ls);
        } else {
          PushMarked(kind, v, ls);
        }
      case Element(_, _, _) => AcceptElement(n, ls);
    }

    method AcceptElement(n: Node, ghost ls: seq<bytes>)
      requires n.Element? && NodeOk(n) && Shows(ls)
      modifies this
      ensures depth == old(depth) && stack == old(stack) && !elementJustOpened
      ensures Shows(Before(ls, depth, compact) + Lex(Pad(n, depth, compact)))
      ensures
        var p := PrintNode(n, depth, old(Now()), compact);
        buffer == old(Sealed()) + p.text && Now() == p.style
      decreases n, 1
    {
      hide Laid, Tight, EndsInText, PadLast, PadAll, Lex, LexAll, NodeOk, PrintAll, PrintNode, BeforeElement,
           BeforeEndTag, BehindElement, Head, EndTag, Before, Pad;
      assert n decreases to n.children;
      ghost var front := Before(ls, depth, compact);
      ElementOk(n);
      ghost var base := OpenElement(n.name, ls);
      ghost var head := Head(n.name, n.attributes);
      WriteAttributes(n, base);
      HeadStarts(n);
      ghost var inside := AcceptContent(n, front, base, head);
      CloseElement(inside, front, base, head);
      ElementLexemes(n, front, inside, old(depth), compact);
      ElementPrinted(n, old(depth), old(Now()), compact, old(Sealed()));
      assert (old(stack) + [n.name])[..|old(stack)|] == old(stack);
    }

    /** The children of an element whose tag is still open, if there are any. */
    method AcceptContent(n: Node, ghost front: seq<bytes>, ghost base: bytes, ghost head: bytes)
      returns (ghost inside: seq<bytes>)
      requires n.Element? && NodeOk(n) && depth > 0 && elementJustOpened && !firstElement
      requires buffer == base + head && head == Head(n.name, n.attributes) && Laid(front, base)
      modifies this
      ensures depth == old(depth) && stack == old(stack) && elementJustOpened == (n.children == [])
      ensures inside == front + [head + [GT]]
                        + if n.children == [] then [] else LexAll(PadAll(n.children, depth, compact))
      ensures n.children != [] ==> Shows(inside)
      ensures n.children == [] ==> buffer == old(buffer) && Now() == old(Now())
      ensures n.children != [] ==>
                var p := PrintAll(n.children, depth, old(Now()), compact);
                buffer == base + head + [GT] + p.text && Now() == p.style
      decreases n, 0
    {
      hide Laid, Tight, PadAll, LexAll, NodeOk, PrintAll, Head;
      assert n decreases to n.children;
      ElementOk(n);
      HeadStarts(n);
      inside := front + [head + [GT]];
      if n.children != [] {
        AppendMarkup(front, base, head + [GT]);
        TightIsLaid(inside, base + (head + [GT]));
        Assoc(base, head, [GT]);
        assert !EndsInText(inside);
        inside := AcceptAll(n.children, inside);
      }
    }

    method WriteAttributes(n: Node, ghost base: bytes)
      requires n.Element? && (forall a <- n.attributes :: NoNul(a.1))
      requires elementJustOpened && buffer == base + ([LT] + n.name)
      modifies this`buffer
      ensures buffer == base + Head(n.name, n.attributes)
    {
      hide AttributeText;
      ghost var start := [LT] + n.name;
      for i := 0 to |n.attributes|
        invariant buffer + AttributesText(n.attributes[i..]) == base + (start + AttributesText(n.attributes))
      {
        var a := n.attributes[i];
        assert n.attributes[i..][0] == a && n.attributes[i..][1..] == n.attributes[i + 1..];
        Assoc(buffer, AttributeText(a), AttributesText(n.attributes[i + 1..]));
        PushAttribute(a.0, a.1);
        assert (a.0, a.1) == a;
      }
      assert n.attributes[|n.attributes|..] == [];
      assert buffer + [] == buffer;
    }

    /** The loop over the siblings. */
    method AcceptAll(ns: seq<Node>, ghost ls: seq<bytes>) returns (ghost all: seq<bytes>)
      requires (forall n <- ns :: NodeOk(n) || (n.Marked? && MarkedOk(n.kind, n.value))) && XmlTree.Separate(ns)
      requires Shows(ls) && !EndsInText(ls) && (depth == 0 ==> forall n <- ns :: !n.Text?)
      modifies this
      ensures depth == old(depth) && stack == old(stack)
      ensures ns != [] ==> !elementJustOpened
      ensures all == ls + LexAll(PadAll(ns, depth, compact)) && Shows(all)
      ensures
        var p := PrintAll(ns, depth, old(Now()), compact);
        Sealed() == old(Sealed()) + p.text && Now() == p.style
      decreases ns, 2
    {
      hide Laid, Tight, PadLast, Lex, Pad, NodeOk, PrintNode, PrintAll;
      all := ls;
      NoPad(ls, Spaces(4 * depth));
      JoinStart(ls, ns, depth, compact);
      PrintStart(ns, depth, Now(), compact, Sealed());
      for i := 0 to |ns|
        invariant depth == old(depth) && stack == old(stack) && (i > 0 ==> !elementJustOpened)
        invariant Shows(all) && (i < |ns| && EndsInText(all) ==> !ns[i].Text?)
        invariant Joined(all, ns[i..], depth, compact) == ls + LexAll(PadAll(ns, depth, compact))
        invariant Done(ns, i, depth, old(Now()), compact, old(Sealed()), Sealed(), Now())
      {
        PrintStep(ns, i, depth, old(Now()), compact, old(Sealed()), Sealed(), Now());
        assert ns decreases to ns[i];
        assert ns[i] in ns && ns[i..][0] == ns[i] && ns[i..][1..] == ns[i + 1..];
        ghost var n, before := ns[i], all;
        Accept(ns[i], all);
        all := (if n.Element? then Before(all, depth, compact) else all) + Lex(Pad(n, depth, compact));
        TextOk(n);
        JoinStep(before, ns[i..], depth, compact);
        LastPiece(n, if n.Element? then Before(before, depth, compact) else before, depth, compact);
      }
      assert ns[|ns|..] == [];
      JoinEnd(all, depth, compact);
      PrintEnd(ns, depth, old(Now()), compact, old(Sealed()), Sealed(), Now());
    }
  }

  // ----------------------------------------------------------- exact text

  lemma IndentRegrouped(was: bytes, breaks: bool, ws: bytes)
    ensures was + [LF] + ws == was + ([LF] + ws) && was + ws == was + ([] + ws) && was + [] == was
  {
    Assoc(was, [LF], ws);
    assert [] + ws == ws;
  }

  lemma EndRegrouped(was: bytes, gap: bytes, tag: bytes)
    ensures was + gap + tag == was + (gap + tag) && was + tag == was + ([] + tag)
  {
    Assoc(was, gap, tag);
    assert [] + tag == tag;
  }

  lemma EndTagStarts(name: bytes)
    ensures |EndTag(name)| > 1 && EndTag(name)[0] == LT
  {
  }

  /** What has been written of an element, piece by piece, is its text. */
  lemma ElementPrinted(n: Node, depth: nat, st: Style, compact: bool, was: bytes)
    requires n.Element?
    ensures
      var p := PrintNode(n, depth, st, compact);
      var head := was + BeforeElement(depth, st, compact) + Head(n.name, n.attributes);
      if n.children == [] then
        && p.style == Style(st.textDepth, false).Closed(depth)
        && was + p.text == head + [SLASH, GT] + BehindElement(depth, compact)
      else
        var q := PrintAll(n.children, depth + 1, Style(st.textDepth, false), compact);
        && p.style == q.style.Closed(depth)
        && was + p.text
           == head + [GT] + q.text + (BeforeEndTag(depth, q.style, compact) + EndTag(n.name))
              + BehindElement(depth, compact)
  {
    hide PrintAll, BeforeElement, BeforeEndTag, BehindElement, Head, EndTag;
    var b, h, e := BeforeElement(depth, st, compact), Head(n.name, n.attributes), BehindElement(depth, compact);
    if n.children == [] {
      FourBehind(was, b, h, [SLASH, GT], e);
    } else {
      var q := PrintAll(n.children, depth + 1, Style(st.textDepth, false), compact);
      var gap := BeforeEndTag(depth, q.style, compact);
      FourBehind(was, b, h, [GT], q.text);
      var x := b + h + [GT] + q.text;
      Assoc(was, x, gap);
      Assoc(was, x + gap, EndTag(n.name));
      Assoc(was, x + gap + EndTag(n.name), e);
      Assoc(was + x, gap, EndTag(n.name));
    }
  }

  lemma FourBehind(a: bytes, b: bytes, c: bytes, d: bytes, e: bytes)
    ensures a + b + c + d + e == a + (b + c + d + e)
  {
    Assoc(a, b, c);
    Assoc(a, b + c, d);
    Assoc(a, b + c + d, e);
  }

  /** The first `i` siblings have been printed. */
  ghost predicate Done(ns: seq<Node>, i: nat, depth: nat, st: Style, compact: bool, was: bytes, now: bytes,
                       style: Style)
  {
    && i <= |ns|
    && var p := PrintAll(ns[..i], depth, st, compact);
       now == was + p.text && style == p.style
  }

  lemma PrintStart(ns: seq<Node>, depth: nat, st: Style, compact: bool, was: bytes)
    ensures Done(ns, 0, depth, st, compact, was, was, st)
  {
    assert ns[..0] == [] && was + [] == was;
  }

  /** What one more sibling adds. */
  lemma PrintStep(ns: seq<Node>, i: nat, depth: nat, st: Style, compact: bool, was: bytes, now: bytes, style: Style)
    requires i < |ns| && Done(ns, i, depth, st, compact, was, now, style)
    ensures
      var p := PrintNode(ns[i], depth, style, compact);
      Done(ns, i + 1, depth, st, compact, was, now + p.text, p.style)
  {
    hide PrintNode;
    var p := PrintNode(ns[i], depth, style, compact);
    assert ns[..i + 1] == ns[..i] + [ns[i]];
    PrintAllConcat(ns[..i], [ns[i]], depth, st, compact);
    assert [ns[i]][1..] == [] && p.text + [] == p.text;
    Assoc(was, PrintAll(ns[..i], depth, st, compact).text, p.text);
  }

  lemma PrintEnd(ns: seq<Node>, depth: nat, st: Style, compact: bool, was: bytes, now: bytes, style: Style)
    requires Done(ns, |ns|, depth, st, compact, was, now, style)
    ensures var p := PrintAll(ns, depth, st, compact); now == was + p.text && style == p.style
  {
    assert ns[..|ns|] == ns;
  }

  /** The pieces in front of an element, once it has been indented. */
  function Before(ls: seq<bytes>, depth: nat, compact: bool): seq<bytes> {
    if compact then ls else PadLast(ls, Spaces(4 * depth))
  }

  lemma NoPad(ls: seq<bytes>, sp: bytes)
    requires !EndsInText(ls)
    ensures PadLast(ls, sp) == ls
  {
  }

  lemma IndentLaid(ls: seq<bytes>, was: bytes, base: bytes, ws: bytes, depth: nat, textDepth: int, compact: bool)
    requires Laid(ls, was) && (depth > 0 ==> Tight(ls, was))
    requires EndsInText(ls) ==>
               depth > 0 && textDepth == depth - 1 && ls[|ls| - 1] != [] && ls[|ls| - 1][0] != LT
    requires ws == if compact then [] else Spaces(4 * depth)
    requires base == was + ws || (!compact && textDepth < 0 && base == was + [LF] + ws)
    ensures Laid(Before(ls, depth, compact), base)
  {
    hide Laid, Tight, Spaces;
    if EndsInText(ls) && !compact {
      AppendSpaces(ls, was, ws);
      TightIsLaid(PadLast(ls, ws), base);
    } else if compact {
      assert was + [] == was;
    } else {
      LaidBlank(ls, was, ws);
      Assoc(was, [LF], ws);
      LaidBlank(ls, was, [LF] + ws);
    }
  }

  lemma TextStarts(v: bytes)
    requires !XmlTree.Blank(v)
    ensures Escape(v, true) != [] && Escape(v, true)[0] != LT
  {
  }

  lemma TextOk(n: Node)
    requires NodeOk(n) || n.Marked?
    ensures n.Text? ==> !XmlTree.Blank(n.value)
  {
  }

  /** Markup appended to a layout, as the printer's state sees it. */
  lemma MarkupShown(ls: seq<bytes>, s: bytes, m: bytes)
    requires Laid(ls, s) && |m| > 1 && m[0] == LT
    ensures Tight(ls + [m], s + m) && Laid(ls + [m], s + m) && !EndsInText(ls + [m])
  {
    AppendMarkup(ls, s, m);
    TightIsLaid(ls + [m], s + m);
  }

  lemma ElementOk(n: Node)
    requires n.Element? && NodeOk(n)
    ensures XmlTree.Separate(n.children)
    ensures forall c <- n.children :: NodeOk(c)
    ensures forall a <- n.attributes :: NoNul(a.1)
  {
    assert forall a <- n.attributes :: AttributeOk(a);
  }

  lemma HeadStarts(n: Node)
    requires n.Element? && NodeOk(n)
    ensures Head(n.name, n.attributes) != [] && Head(n.name, n.attributes)[0] == LT
    ensures IsMarkup(Head(n.name, n.attributes) + [GT])
  {
  }

  lemma ElementLexemes(n: Node, front: seq<bytes>, inside: seq<bytes>, depth: nat, compact: bool)
    requires n.Element?
    requires inside == front + [Head(n.name, n.attributes) + [GT]]
                       + if n.children == [] then [] else LexAll(PadAll(n.children, depth + 1, compact))
    ensures front + Lex(Pad(n, depth, compact))
            == if n.children == [] then front + [Head(n.name, n.attributes) + [SLASH, GT]]
               else inside + [EndTag(n.name)]
  {
    hide Head, LexAll;
  }

  // --------------------------------------------------------------- siblings

  /** All pieces, when `ls` have been printed and `rest` are to come. */
  function Joined(ls: seq<bytes>, rest: seq<Node>, depth: nat, compact: bool): seq<bytes> {
    (if rest != [] && rest[0].Element? then Before(ls, depth, compact) else ls) + LexAll(PadAll(rest, depth, compact))
  }

  lemma JoinStart(ls: seq<bytes>, ns: seq<Node>, depth: nat, compact: bool)
    requires !EndsInText(ls)
    ensures Joined(ls, ns[0..], depth, compact) == ls + LexAll(PadAll(ns, depth, compact))
  {
    NoPad(ls, Spaces(4 * depth));
    assert ns[0..] == ns;
  }

  lemma JoinEnd(ls: seq<bytes>, depth: nat, compact: bool)
    ensures Joined(ls, [], depth, compact) == ls
  {
    assert ls + [] == ls;
  }

  /** The last piece of a node is text exactly if the node is. */
  lemma LastPiece(n: Node, ls: seq<bytes>, depth: nat, compact: bool)
    requires n.Text? ==> !XmlTree.Blank(n.value)
    ensures EndsInText(ls + Lex(Pad(n, depth, compact))) <==> n.Text?
  {
    var p := Lex(Pad(n, depth, compact));
    assert (ls + p)[|ls + p| - 1] == p[|p| - 1];
    if n.Text? {
      TextStarts(n.value);
    }
  }

  lemma {:induction false} EscapeSpaces(n: nat)
    ensures Escape(Spaces(n), true) == Spaces(n)
  {
    if n > 0 {
      assert Spaces(n)[1..] == Spaces(n - 1);
      EscapeSpaces(n - 1);
    }
  }

  lemma LexPadAll(rest: seq<Node>, depth: nat, compact: bool)
    requires rest != []
    ensures
      var padded := rest[0].Text? && !compact && |rest| > 1 && rest[1].Element?;
      LexAll(PadAll(rest, depth, compact))
      == (if padded then [Escape(rest[0].value, true) + Spaces(4 * depth)] else Lex(Pad(rest[0], depth, compact)))
         + LexAll(PadAll(rest[1..], depth, compact))
  {
    hide Lex, Pad, Spaces, Escape;
    var all := PadAll(rest, depth, compact);
    assert all[1..] == PadAll(rest[1..], depth, compact);
    if rest[0].Text? && !compact && |rest| > 1 && rest[1].Element? {
      TextPiece(rest[0].value, Spaces(4 * depth));
      EscapeSpaces(4 * depth);
    }
  }

  lemma TextPiece(v: bytes, sp: bytes)
    ensures Lex(Text(v + sp)) == [Escape(v, true) + Escape(sp, true)]
  {
    EscapeConcat(v, sp, true);
  }

  lemma PadLastAppended(ls: seq<bytes>, l: bytes, sp: bytes)
    requires !IsMarkup(l)
    ensures PadLast(ls + [l], sp) == ls + [l + sp]
  {
    assert (ls + [l])[..|ls|] == ls;
  }

  /** One sibling later. */
  lemma JoinStep(ls: seq<bytes>, rest: seq<Node>, depth: nat, compact: bool)
    requires rest != [] && (rest[0].Text? ==> !XmlTree.Blank(rest[0].value))
    ensures
      Joined(ls, rest, depth, compact)
      == Joined((if rest[0].Element? then Before(ls, depth, compact) else ls) + Lex(Pad(rest[0], depth, compact)),
                rest[1..], depth, compact)
  {
    hide LexAll, PadAll, PadLast, EndsInText, Spaces, Pad, XmlTree.Blank, Escape;
    var n, sp := rest[0], Spaces(4 * depth);
    var front := if n.Element? then Before(ls, depth, compact) else ls;
    var now := front + Lex(Pad(n, depth, compact));
    var behind := LexAll(PadAll(rest[1..], depth, compact));
    LexPadAll(rest, depth, compact);
    LastPiece(n, front, depth, compact);
    if n.Text? && !compact && |rest| > 1 && rest[1].Element? {
      TextStarts(n.value);
      PadText(n, depth, compact);
      PadLastAppended(ls, Escape(n.value, true), sp);
      Assoc(ls, [Escape(n.value, true) + sp], behind);
    } else {
      if !n.Text? {
        NoPad(now, sp);
      }
      Assoc(front, Lex(Pad(n, depth, compact)), behind);
    }
  }

  lemma PadText(n: Node, depth: nat, compact: bool)
    requires n.Text?
    ensures Lex(Pad(n, depth, compact)) == [Escape(n.value, true)]
  {
  }
}
