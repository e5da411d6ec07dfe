/** Whole documents: printing, then parsing. */
module XmlDocument {
  import opened Wrappers
  import opened Bytes
  import opened XmlText
  import opened XmlTree
  import opened XmlReader
  import opened XmlRoundTrip
  import opened XmlPrinter
  import opened XmlLayout

  /** Declarations first, and no text outside of elements. */
  ghost predicate DocumentOk(declarations: seq<Node>, body: seq<Node>) {
    && (forall n <- declarations :: IsDeclaration(n) && MarkedOk(n.kind, n.value))
    && AllOk(body) && (forall n <- body :: !n.Text?)
    && declarations + body != []
  }

  // ---------------------------------------------------------------- printing

  lemma DocumentPrintable(declarations: seq<Node>, body: seq<Node>)
    requires DocumentOk(declarations, body)
    ensures
      var doc := declarations + body;
      && (forall n <- doc :: NodeOk(n) || (n.Marked? && MarkedOk(n.kind, n.value)))
      && doc != [] && XmlTree.Separate(doc) && forall n <- doc :: !n.Text?
  {
    var doc := declarations + body;
    forall n | n in doc ensures !n.Text? && (NodeOk(n) || (n.Marked? && MarkedOk(n.kind, n.value))) {
      assert n in declarations || n in body;
    }
    forall i | 0 < i < |doc| ensures !(doc[i - 1].Text? && doc[i].Text?) {
      assert doc[i] in doc;
    }
  }

  /** XMLDocument::Print: the text is a layout of the document's pieces, with the spaces
      that indentation adds to text. */
  method Print(declarations: seq<Node>, body: seq<Node>, compact: bool) returns (text: bytes)
    requires DocumentOk(declarations, body)
    ensures Laid(LexAll(PadAll(declarations + body, 0, compact)), text)
    ensures text == PrintAll(declarations + body, 0, Style(-1, true), compact).text
  {
    hide Laid, PrintAll, LexAll, PadAll, XmlTree.Separate, DocumentOk;
    var printer := new Printer(compact);
    DocumentPrintable(declarations, body);
    assert Laid([], []) by {
      NothingLaid();
    }
    ghost var all := printer.AcceptAll(declarations + body, []);
    text := printer.buffer;
    ghost var printed := PrintAll(declarations + body, 0, Style(-1, true), compact);
    assert [] + printed.text == printed.text;
    assert [] + LexAll(PadAll(declarations + body, 0, compact)) == LexAll(PadAll(declarations + body, 0, compact));
  }

  lemma NothingLaid()
    ensures Laid([], [])
  {
  }

  // ----------------------------------------------------------------- reading

  lemma {:induction false} LexAllConcat(a: seq<Node>, b: seq<Node>)
    ensures LexAll(a + b) == LexAll(a) + LexAll(b)
  {
    if a == [] {
      assert a + b == b;
    } else {
      assert (a + b)[1..] == a[1..] + b;
      LexAllConcat(a[1..], b);
      Assoc(Lex(a[0]), LexAll(a[1..]), LexAll(b));
    }
  }

  lemma {:induction false} NormAllConcat(a: seq<Node>, b: seq<Node>)
    ensures NormAll(a + b) == NormAll(a) + NormAll(b)
  {
    if a == [] {
      assert a + b == b;
    } else {
      assert (a + b)[1..] == a[1..] + b;
      NormAllConcat(a[1..], b);
    }
  }

  lemma {:induction false} ParseDeclarations(ds: seq<Node>, tail: seq<bytes>, s: bytes, before: seq<Node>)
    returns (rest: bytes)
    requires forall n <- ds :: IsDeclaration(n) && MarkedOk(n.kind, n.value)
    requires AllDeclarations(before) && Laid(LexAll(ds) + tail, s)
    ensures Laid(tail, rest)
    ensures ParseChildren(s, 1, true, before) == ParseChildren(rest, 1, true, before + NormAll(ds))
    decreases |ds|
  {
    hide Laid, ParseChildren, Lex, MarkedOk;
    if ds == [] {
      assert [] + tail == tail && before + [] == before;
      rest := s;
    } else {
      var d := ds[0];
      assert d in ds && forall n <- ds[1..] :: n in ds;
      Assoc(Lex(d), LexAll(ds[1..]), tail);
      rest := MarkedStep(d.kind, d.value, LexAll(ds[1..]) + tail, s, 1, true, before);
      rest := ParseDeclarations(ds[1..], tail, rest, before + [Norm(d)]);
      Assoc(before, [Norm(d)], NormAll(ds[1..]));
    }
  }

  /** At the end of the document nothing is left to read. */
  lemma ParseEnd(s: bytes, before: seq<Node>)
    requires Laid([], s)
    ensures ParseChildren(s, 1, true, before) == Good(before, None, [])
  {
    SkipNothing(s);
  }

  /** Any layout of a document's pieces is read as that document, unless it nests too deep. */
  lemma DocumentRead(declarations: seq<Node>, body: seq<Node>, text: bytes)
    requires DocumentOk(declarations, body) && Laid(LexAll(declarations + body), text)
    ensures Parse(text) == if DepthOk(body, 1) then Some(NormAll(declarations + body)) else None
  {
    hide Laid, ParseChildren, LexAll, MarkedOk, AllOk, DepthOk;
    LexAllConcat(declarations, body);
    DocumentStart(declarations, body, text);
    var s := SkipWhiteSpace(text);
    assert ParseDeep(s, 1, true) == ParseChildren(s, 1, true, []);
    assert LexAll(body) + [] == LexAll(body);
    var rest := ParseDeclarations(declarations, LexAll(body), s, []);
    assert [] + NormAll(declarations) == NormAll(declarations);
    rest := ParseAll(body, [], rest, 1, true, NormAll(declarations));
    NormAllConcat(declarations, body);
    if DepthOk(body, 1) {
      ParseEnd(rest, NormAll(declarations + body));
    }
  }

  /** The text starts with markup, so there is no byte order mark to skip. */
  lemma DocumentStart(declarations: seq<Node>, body: seq<Node>, text: bytes)
    requires DocumentOk(declarations, body) && Laid(LexAll(declarations + body), text)
    ensures
      var s := SkipWhiteSpace(text);
      text != [] && s != [] && !(BOM <= s) && Laid(LexAll(declarations + body), s)
  {
    var doc := declarations + body;
    var ls := LexAll(doc);
    assert doc[0] in declarations || doc[0] in body;
    assert IsMarkup(Lex(doc[0])[0]);
    assert ls[0] == Lex(doc[0])[0];
    var s := SkipWhiteSpace(text);
    assert SkipWhiteSpace(s) == s;
    assert s[0] == LT;
  }

  // -------------------------------------------------- when nothing is changed

  /** No value holds a carriage return. */
  predicate CrFree(n: Node)
    decreases n
  {
    match n
    case Element(_, attrs, children) => (forall a <- attrs :: CR !in a.1) && CrFreeAll(children)
    case Text(v) => CR !in v
    case Marked(_, v) => CR !in v
  }

  predicate CrFreeAll(ns: seq<Node>)
    decreases ns
  {
    ns != [] ==> CrFree(ns[0]) && CrFreeAll(ns[1..])
  }

  predicate TextThenElement(ns: seq<Node>) {
    |ns| > 1 && ns[0].Text? && ns[1].Element?
  }

  /** No text comes right before an element. */
  predicate Tidy(n: Node)
    decreases n
  {
    n.Element? ==> (assert n decreases to n.children; TidyAll(n.children))
  }

  predicate TidyAll(ns: seq<Node>)
    decreases ns
  {
    ns != [] ==> !TextThenElement(ns) && Tidy(ns[0]) && TidyAll(ns[1..])
  }

  lemma {:induction false} NormAttributesIff(attrs: seq<(bytes, bytes)>)
    ensures NormAttributes(attrs) == attrs <==> forall a <- attrs :: CR !in a.1
  {
    if attrs != [] {
      hide Normalize;
      NormAttributesIff(attrs[1..]);
      NormalizeIff(attrs[0].1);
      var r := NormAttributes(attrs);
      assert r[1..] == NormAttributes(attrs[1..]);
      assert attrs == [attrs[0]] + attrs[1..];
      assert (forall a <- attrs :: CR !in a.1) <==> CR !in attrs[0].1 && (forall a <- attrs[1..] :: CR !in a.1) by {
        assert attrs[0] in attrs && forall a <- attrs[1..] :: a in attrs;
        assert forall a <- attrs :: a == attrs[0] || a in attrs[1..];
      }
    }
  }

  /** Padded text never reads back as it was. */
  lemma PaddedDiffers(v: bytes, sp: bytes)
    requires sp != [] && forall c <- sp :: c == SPACE
    ensures Normalize(v + sp) != v
  {
    if CR in v {
      NormalizeNoCr(v + sp);
    } else {
      assert CR !in v + sp;
      NormalizeNoCr(v + sp);
    }
  }

  lemma {:induction false} RereadIff(n: Node, depth: nat, compact: bool)
    ensures Norm(Pad(n, depth, compact)) == n <==> CrFree(n) && (compact || Tidy(n))
    decreases n, 0
  {
    match n
    case Text(v) => NormalizeIff(v);
    case Marked(_, v) => NormalizeIff(v);
    case Element(name, attrs, children) =>
      assert n decreases to n.children;
      hide NormAttributes, NormAll, PadAll, CrFreeAll, TidyAll;
      NormAttributesIff(attrs);
      RereadAllIff(children, depth + 1, compact);
  }

  /** Nodes read back unchanged exactly when no value holds a carriage return and, in the
      indented form, no text comes right before an element. */
  lemma {:induction false} RereadAllIff(ns: seq<Node>, depth: nat, compact: bool)
    requires depth > 0 || forall n <- ns :: !n.Text?
    ensures NormAll(PadAll(ns, depth, compact)) == ns <==> CrFreeAll(ns) && (compact || TidyAll(ns))
    decreases ns, 1
  {
    if ns != [] {
      hide Norm, Pad, CrFree, Tidy, Spaces;
      assert ns decreases to ns[0];
      assert ns[0] in ns && forall n <- ns[1..] :: n in ns;
      RereadIff(ns[0], depth, compact);
      RereadAllIff(ns[1..], depth, compact);
      PadAllSplit(ns, depth, compact);
      assert ns == [ns[0]] + ns[1..];
      if !compact && TextThenElement(ns) {
        NormText(ns[0].value + Spaces(4 * depth));
        PaddedDiffers(ns[0].value, Spaces(4 * depth));
        assert ns[0] == Text(ns[0].value);
      }
    }
  }

  lemma NormText(v: bytes)
    ensures Norm(Text(v)) == Text(Normalize(v))
  {
  }

  lemma PadAllSplit(ns: seq<Node>, depth: nat, compact: bool)
    requires ns != []
    ensures
      var r := NormAll(PadAll(ns, depth, compact));
      && r[0] == Norm(if !compact && TextThenElement(ns) then Text(ns[0].value + Spaces(4 * depth))
                      else Pad(ns[0], depth, compact))
      && r[1..] == NormAll(PadAll(ns[1..], depth, compact))
  {
    hide Norm, Pad, Spaces;
    var p := PadAll(ns, depth, compact);
    assert p[1..] == PadAll(ns[1..], depth, compact);
  }

  // ------------------------------------------------------ padding is harmless

  lemma {:induction false} PadOk(n: Node, depth: nat, compact: bool)
    requires NodeOk(n)
    ensures NodeOk(Pad(n, depth, compact))
    ensures forall d: nat :: NodeDepthOk(Pad(n, depth, compact), d) <==> NodeDepthOk(n, d)
    decreases n, 0
  {
    if n.Element? {
      hide TidyAll, IsName, AttributeOk, DistinctNames, PadAll, DepthOk;
      assert n decreases to n.children;
      PadAllOk(n.children, depth + 1, compact);
      PadElementOk(n, PadAll(n.children, depth + 1, compact));
      forall d: nat ensures NodeDepthOk(Pad(n, depth, compact), d) <==> NodeDepthOk(n, d) {
        assert DepthOk(PadAll(n.children, depth + 1, compact), d + 1) <==> DepthOk(n.children, d + 1);
      }
    }
  }

  lemma PadElementOk(n: Node, children: seq<Node>)
    requires n.Element? && NodeOk(n) && AllOk(children)
    ensures NodeOk(Element(n.name, n.attributes, children))
  {
  }

  lemma {:induction false} PadAllOk(ns: seq<Node>, depth: nat, compact: bool)
    requires forall n <- ns :: NodeOk(n)
    requires XmlTree.Separate(ns)
    ensures AllOk(PadAll(ns, depth, compact))
    ensures forall d: nat :: DepthOk(PadAll(ns, depth, compact), d) <==> DepthOk(ns, d)
    ensures forall i | 0 <= i < |ns| :: PadAll(ns, depth, compact)[i].Text? == ns[i].Text?
    decreases ns, 1
  {
    if ns != [] {
      hide Pad, Spaces, NodeDepthOk, NodeOk, XmlTree.Blank;
      assert ns decreases to ns[0];
      assert ns[0] in ns && forall n <- ns[1..] :: n in ns;
      SeparateRest(ns);
      PadOk(ns[0], depth, compact);
      PadAllOk(ns[1..], depth, compact);
      PadSameKind(ns[0], depth, compact);
      PaddedTextOk(ns[0], Spaces(4 * depth));
      AllOkCons(ns, PadAll(ns, depth, compact));
      forall d: nat ensures DepthOk(PadAll(ns, depth, compact), d) <==> DepthOk(ns, d) {
        DepthCons(ns, d);
        DepthCons(PadAll(ns, depth, compact), d);
      }
    }
  }

  lemma SeparateRest(ns: seq<Node>)
    requires XmlTree.Separate(ns) && ns != []
    ensures XmlTree.Separate(ns[1..])
  {
    assert forall i | 0 < i < |ns[1..]| :: ns[1..][i - 1] == ns[i] && ns[1..][i] == ns[i + 1];
  }

  lemma DepthCons(ns: seq<Node>, d: nat)
    requires ns != []
    ensures DepthOk(ns, d) <==> NodeDepthOk(ns[0], d) && DepthOk(ns[1..], d)
  {
  }

  lemma PadSameKind(n: Node, depth: nat, compact: bool)
    ensures Pad(n, depth, compact).Text? == n.Text?
  {
  }

  lemma PaddedTextOk(n: Node, sp: bytes)
    requires NodeOk(n) && forall c <- sp :: c == SPACE
    ensures n.Text? ==> NodeOk(Text(n.value + sp))
    ensures n.Text? ==> forall d: nat :: NodeDepthOk(Text(n.value + sp), d) && NodeDepthOk(n, d)
  {
    if n.Text? {
      var c :| c in n.value && !IsWhiteSpace(c);
      assert c in n.value + sp;
    }
  }

  lemma AllOkCons(ns: seq<Node>, padded: seq<Node>)
    requires ns != [] && |padded| == |ns| && XmlTree.Separate(ns)
    requires NodeOk(padded[0]) && AllOk(padded[1..])
    requires forall i | 0 <= i < |ns| - 1 :: padded[1..][i].Text? == ns[1..][i].Text?
    requires padded[0].Text? == ns[0].Text?
    ensures AllOk(padded)
    ensures forall i | 0 <= i < |ns| :: padded[i].Text? == ns[i].Text?
  {
    forall i | 0 <= i < |ns| ensures padded[i].Text? == ns[i].Text? {
      if i > 0 {
        assert padded[1..][i - 1] == padded[i] && ns[1..][i - 1] == ns[i];
      }
    }
    forall n | n in padded ensures NodeOk(n) {
      assert n == padded[0] || n in padded[1..];
    }
  }

  // ------------------------------------------------------------- round trip

  lemma {:induction false} PadDeclarations(ds: seq<Node>, body: seq<Node>, compact: bool)
    requires forall n <- ds :: n.Marked?
    ensures PadAll(ds + body, 0, compact) == ds + PadAll(body, 0, compact)
    decreases |ds|
  {
    if ds == [] {
      assert [] + body == body && [] + PadAll(body, 0, compact) == PadAll(body, 0, compact);
    } else {
      assert ds[0] in ds && forall n <- ds[1..] :: n in ds;
      assert (ds + body)[1..] == ds[1..] + body;
      PadDeclarations(ds[1..], body, compact);
      assert ds == [ds[0]] + ds[1..];
    }
  }

  lemma PaddedDocumentOk(declarations: seq<Node>, body: seq<Node>, compact: bool)
    requires DocumentOk(declarations, body)
    ensures DocumentOk(declarations, PadAll(body, 0, compact))
    ensures PadAll(declarations + body, 0, compact) == declarations + PadAll(body, 0, compact)
    ensures DepthOk(PadAll(body, 0, compact), 1) <==> DepthOk(body, 1)
  {
    hide PadAll, MarkedOk, NodeOk, DepthOk;
    PadAllOk(body, 0, compact);
    PadDeclarations(declarations, body, compact);
    var padded := PadAll(body, 0, compact);
    forall n | n in padded ensures !n.Text? {
      var i :| 0 <= i < |padded| && padded[i] == n;
      assert body[i] in body;
    }
  }

  /** Printing a document and parsing the text gives the document back exactly when it does
      not nest too deep, holds no carriage return and, in the indented form, has no text
      right before an element. */
  lemma PrintParseIff(declarations: seq<Node>, body: seq<Node>, compact: bool, text: bytes)
    requires DocumentOk(declarations, body)
    requires Laid(LexAll(PadAll(declarations + body, 0, compact)), text)
    ensures
      Parse(text)
      == if DepthOk(body, 1) then Some(NormAll(PadAll(declarations + body, 0, compact))) else None
    ensures
      Parse(text) == Some(declarations + body)
      <==> DepthOk(body, 1) && CrFreeAll(declarations + body) && (compact || TidyAll(declarations + body))
  {
    hide Laid, LexAll, PadAll, Parse, NormAll, DepthOk, CrFreeAll, TidyAll, DocumentOk;
    PaddedDocumentOk(declarations, body, compact);
    DocumentRead(declarations, PadAll(body, 0, compact), text);
    DocumentPrintable(declarations, body);
    RereadAllIff(declarations + body, 0, compact);
  }
}
