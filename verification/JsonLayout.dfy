/** The layout of styled JSON text, apart from the writer that produces it: what stands on a
    line of its own, how far it is indented, and that it is the same text to the reader. */
module JsonLayout {
  import opened Bytes
  import opened JsonValue
  import opened JsonText
  import opened JsonRoundTrip
  import opened JsonWriter
  import JsonStrings

  const RIGHT_MARGIN: nat := 74
  const INDENT_SIZE: nat := 3

  /** Values that pushValue takes in one piece. */
  predicate Simple(v: Value) {
    !(v.Array? || v.Object?) || Size(v) == 0
  }

  /** The text of a value without any spacing. */
  function Plain(v: Value): bytes {
    Glue(Lex(v), false)
  }

  predicate Blank(s: bytes) {
    forall c <- s :: c == SPACE
  }

  /** The indentation of a line at some level of nesting. */
  function Indentation(depth: nat): (s: bytes)
    ensures |s| == INDENT_SIZE * depth && Blank(s)
  {
    seq(INDENT_SIZE * depth, _ => SPACE)
  }

  function Line(depth: nat): bytes {
    [NEWLINE] + Indentation(depth)
  }

  // ------------------------------------------------------------- the layout

  /** The lengths of the first `n` elements, written plainly. */
  function Widths(es: seq<(nat, Value)>, n: nat): nat {
    if n == 0 then 0 else Widths(es, n - 1) + |Plain(ElementAt(es, n - 1))|
  }

  predicate AllSimple(es: seq<(nat, Value)>) {
    forall k | 0 <= k < Size(Array(es)) :: Simple(ElementAt(es, k))
  }

  /** Arrays of simple values, few enough and short enough, stand on one line. */
  predicate Fits(es: seq<(nat, Value)>) {
    var size := Size(Array(es));
    && size * 3 < RIGHT_MARGIN && AllSimple(es)
    && 4 + (size - 1) * 2 + Widths(es, size) < RIGHT_MARGIN
  }

  /** Elements side by side, from `index` on. */
  function Row(es: seq<(nat, Value)>, index: nat): bytes
    decreases Size(Array(es)) - index
  {
    if index >= Size(Array(es)) then []
    else (if index > 0 then [COMMA, SPACE] else []) + Plain(ElementAt(es, index)) + Row(es, index + 1)
  }

  /** The width that is compared with the margin is that of the line as it would be written. */
  lemma FitsIff(es: seq<(nat, Value)>)
    requires Size(Array(es)) > 0
    ensures Fits(es) <==>
              && Size(Array(es)) * 3 < RIGHT_MARGIN && AllSimple(es)
              && |[LBRACKET, SPACE] + Row(es, 0) + [SPACE, RBRACKET]| < RIGHT_MARGIN
  {
    hide Plain, ElementAt;
    RowWidth(es, 0);
    var row, size := Row(es, 0), Size(Array(es));
    assert Widths(es, 0) == 0;
    assert |[LBRACKET, SPACE] + row + [SPACE, RBRACKET]| == 4 + (size - 1) * 2 + Widths(es, size);
  }

  lemma {:induction false} RowWidth(es: seq<(nat, Value)>, index: nat)
    requires index <= Size(Array(es))
    ensures var size := Size(Array(es));
      |Row(es, index)| + Widths(es, index)
      == Widths(es, size) + 2 * (if index == 0 && size > 0 then size - 1 else size - index)
    decreases Size(Array(es)) - index
  {
    hide Plain, ElementAt;
    if index < Size(Array(es)) {
      RowWidth(es, index + 1);
    }
  }

  /** The text of a value whose first line starts at nesting `depth`. */
  function Layout(v: Value, depth: nat): bytes
    decreases Weight(v), 1, 0
  {
    match v
    case Array(es) =>
      if Size(v) == 0 then [LBRACKET, RBRACKET]
      else if Fits(es) then [LBRACKET, SPACE] + Row(es, 0) + [SPACE, RBRACKET]
      else [LBRACKET] + ElementLines(es, 0, depth + 1) + Line(depth) + [RBRACKET]
    case Object(ms) =>
      if ms == [] then [LBRACE, RBRACE]
      else [LBRACE] + MemberLines(ms, 0, depth + 1) + Line(depth) + [RBRACE]
    case _ => Plain(v)
  }

  /** Each element starts a line. */
  function ElementLines(es: seq<(nat, Value)>, index: nat, depth: nat): bytes
    requires index < Size(Array(es))
    decreases Weight(Array(es)), 0, Size(Array(es)) - index
  {
    ElementLighter(es, index);
    Line(depth) + Layout(ElementAt(es, index), depth)
    + if index + 1 == Size(Array(es)) then [] else [COMMA] + ElementLines(es, index + 1, depth)
  }

  /** Each member starts a line. */
  function MemberLines(ms: seq<(bytes, Value)>, k: nat, depth: nat): bytes
    requires k < |ms|
    decreases Weight(Object(ms)), 0, |ms| - k
  {
    MemberLighter(ms, k);
    Line(depth) + Quote(ms[k].0) + [SPACE, COLON, SPACE] + Layout(ms[k].1, depth)
    + if k + 1 == |ms| then [] else [COMMA] + MemberLines(ms, k + 1, depth)
  }

  lemma {:induction false} ElementAtLighter(es: seq<(nat, Value)>, index: nat)
    ensures Weight(ElementAt(es, index)) <= ElementsWeight(es)
  {
    if es != [] {
      ElementAtLighter(es[1..], index);
    }
  }

  lemma ElementLighter(es: seq<(nat, Value)>, index: nat)
    ensures Weight(ElementAt(es, index)) < Weight(Array(es))
  {
    hide ElementsWeight, ElementAt;
    ElementAtLighter(es, index);
  }

  lemma {:induction false} MemberAtLighter(ms: seq<(bytes, Value)>, k: nat)
    requires k < |ms|
    ensures Weight(ms[k].1) <= MembersWeight(ms)
  {
    if k > 0 {
      MemberAtLighter(ms[1..], k - 1);
    }
  }

  lemma MemberLighter(ms: seq<(bytes, Value)>, k: nat)
    requires k < |ms|
    ensures Weight(ms[k].1) < Weight(Object(ms))
  {
    hide MembersWeight;
    MemberAtLighter(ms, k);
  }

  // ---------------------------------------------------------- same lexemes

  lemma {:induction false} BlankSkipped(s: bytes)
    requires Blank(s)
    ensures SkipSpaces(s) == []
  {
    if s != [] {
      assert s[0] in s && forall c <- s[1..] :: c in s;
      BlankSkipped(s[1..]);
    }
  }

  /** A single mark, or quoted text, is its own lexeme. */
  lemma OneLexeme(l: bytes)
    requires l != [] && !IsSpace(l[0])
    ensures Spaced([l], l)
  {
    SolidHead(l, []);
    assert l + [] == l && [l] + [] == [l];
    NothingSpaced([]);
    SpacedCons(l, [], l, []);
  }

  lemma PlainSpaced(v: Value)
    requires RealFree(v)
    ensures Spaced(Lex(v), Plain(v))
  {
    hide Spaced, Lex, Glue, RealFree;
    LexSolid(v);
    GlueSpaced(Lex(v), false, []);
    assert Plain(v) + [] == Plain(v);
  }

  lemma EmptyText(v: Value)
    requires Wf(v) && (v.Array? || v.Object?) && Size(v) == 0
    ensures Plain(v) == if v.Array? then [LBRACKET, RBRACKET] else [LBRACE, RBRACE]
  {
    var open := if v.Array? then [LBRACKET] else [LBRACE];
    var close := if v.Array? then [RBRACKET] else [RBRACE];
    assert Lex(v) == [open, close];
    GlueOne(close, false);
    assert [open, close][1..] == [close];
  }

  /** What fits on one line looks the same at every level. */
  lemma SimpleLayout(v: Value, depth: nat)
    requires Printable(v) && Simple(v)
    ensures Layout(v, depth) == Plain(v)
  {
    if v.Array? || v.Object? {
      EmptyText(v);
    }
  }

  lemma MarkSpaced(before: bytes, mark: bytes, after: bytes)
    requires SkipSpaces(before) == SkipSpaces(after) == [] && mark != [] && !IsSpace(mark[0])
    ensures Spaced([mark], before + mark + after)
  {
    hide Spaced, SkipSpaces;
    OneLexeme(mark);
    NothingSpaced(before);
    NothingSpaced(after);
    SpacedConcat([], before, [mark], mark);
    assert [] + [mark] == [mark];
    SpacedConcat([mark], before + mark, [], after);
    assert [mark] + [] == [mark];
  }

  lemma LineSpaced(depth: nat)
    ensures SkipSpaces(Line(depth)) == [] && Spaced([], Line(depth))
  {
    BlankSkipped(Indentation(depth));
    assert Line(depth)[1..] == Indentation(depth);
  }

  lemma MarksSpaced()
    ensures Spaced([[LBRACKET]], [LBRACKET]) && Spaced([[RBRACKET]], [RBRACKET])
    ensures Spaced([[LBRACE]], [LBRACE]) && Spaced([[RBRACE]], [RBRACE]) && Spaced([[COMMA]], [COMMA])
    ensures Spaced([[LBRACKET]], [LBRACKET, SPACE]) && Spaced([[RBRACKET]], [SPACE, RBRACKET])
    ensures Spaced([[COMMA]], [COMMA, SPACE]) && Spaced([[COLON]], [SPACE, COLON, SPACE])
  {
    hide Spaced;
    OneLexeme([LBRACKET]);
    OneLexeme([RBRACKET]);
    OneLexeme([LBRACE]);
    OneLexeme([RBRACE]);
    OneLexeme([COMMA]);
    BlankSkipped([SPACE]);
    BlankSkipped([]);
    MarkSpaced([], [LBRACKET], [SPACE]);
    MarkSpaced([SPACE], [RBRACKET], []);
    MarkSpaced([], [COMMA], [SPACE]);
    MarkSpaced([SPACE], [COLON], [SPACE]);
    assert [] + [LBRACKET] + [SPACE] == [LBRACKET, SPACE] && [SPACE] + [RBRACKET] + [] == [SPACE, RBRACKET];
    assert [] + [COMMA] + [SPACE] == [COMMA, SPACE] && [SPACE] + [COLON] + [SPACE] == [SPACE, COLON, SPACE];
  }

  lemma QuoteSpaced(name: bytes)
    ensures Spaced([Quote(name)], Quote(name))
  {
    OneLexeme(Quote(name));
  }

  lemma SpacedJoin(a: seq<bytes>, s: bytes, b: seq<bytes>, t: bytes, c: seq<bytes>, u: bytes)
    requires Spaced(a, s) && Spaced(b, t) && Spaced(c, u)
    ensures Spaced(a + b + c, s + t + u)
  {
    hide Spaced;
    SpacedConcat(a, s, b, t);
    SpacedConcat(a + b, s + t, c, u);
  }

  lemma ElementOk(es: seq<(nat, Value)>, index: nat)
    requires Printable(Array(es))
    ensures Printable(ElementAt(es, index)) && Weight(ElementAt(es, index)) < Weight(Array(es)) && IndicesFrom(es, 0)
  {
    hide Weight, ElementsWeight;
    PrintableElementAt(es, index);
    ElementLighter(es, index);
  }

  /** The layout is the lexemes of the value with white space between them. */
  lemma {:induction false} LayoutSpaced(v: Value, depth: nat)
    requires Printable(v)
    ensures Spaced(Lex(v), Layout(v, depth))
    decreases Weight(v), 1, 0
  {
    hide Spaced, Plain, Lex, LexElements, LexMembers, Fits, Row, ElementLines, MemberLines, Line, Weight;
    if Simple(v) {
      SimpleLayout(v, depth);
      PlainSpaced(v);
    } else if v.Array? {
      ArraySpaced(v.es, depth);
    } else {
      ObjectSpaced(v.ms, depth);
    }
  }

  lemma {:induction false} ArraySpaced(es: seq<(nat, Value)>, depth: nat)
    requires Printable(Array(es)) && Size(Array(es)) > 0
    ensures Spaced(Lex(Array(es)), Layout(Array(es), depth))
    decreases Weight(Array(es)), 0, Size(Array(es)) + 1
  {
    hide Spaced, Plain, LexElements, Fits, Row, ElementLines, Line, Weight, Size, Wf, RealFree, Remaining;
    MarksSpaced();
    ElementOk(es, 0);
    BracketLexemes(es, [[LBRACKET]] + LexElements(es, 0));
    BehindStart(es);
    if Fits(es) {
      RowSpaced(es, 0);
      SpacedJoin([[LBRACKET]], [LBRACKET, SPACE], LexElements(es, 0), Row(es, 0), [[RBRACKET]], [SPACE, RBRACKET]);
    } else {
      ElementLinesSpaced(es, 0, depth + 1);
      LineThen([RBRACKET], [[RBRACKET]], depth);
      RemainingStart(es);
      SpacedJoin([[LBRACKET]], [LBRACKET], LexElements(es, 0), ElementLines(es, 0, depth + 1),
                 [[RBRACKET]], Line(depth) + [RBRACKET]);
      Assoc([LBRACKET] + ElementLines(es, 0, depth + 1), Line(depth), [RBRACKET]);
    }
  }

  lemma RemainingStart(es: seq<(nat, Value)>)
    requires IndicesFrom(es, 0)
    ensures Remaining(es, 0) == LexElements(es, 0)
  {
  }

  /** White space in front of some text. */
  lemma LineThen(text: bytes, ls: seq<bytes>, depth: nat)
    requires Spaced(ls, text)
    ensures Spaced(ls, Line(depth) + text)
  {
    hide Spaced, Line;
    LineSpaced(depth);
    SpacedConcat([], Line(depth), ls, text);
    assert [] + ls == ls;
  }

  lemma {:induction false} RowSpaced(es: seq<(nat, Value)>, index: nat)
    requires Printable(Array(es)) && IndicesFrom(es, 0)
    ensures Spaced(ElementsBehind(es, index), Row(es, index))
    decreases Size(Array(es)) - index
  {
    hide Spaced, Plain, Lex, LexElements, Remaining, ElementAt, Wf, RealFree;
    MarksSpaced();
    NothingSpaced([]);
    if index < Size(Array(es)) {
      ElementOk(es, index);
      PlainSpaced(ElementAt(es, index));
      RowSpaced(es, index + 1);
      ElementsBehindStep(es, index, []);
      var comma, text := if index > 0 then [[COMMA]] else [], if index > 0 then [COMMA, SPACE] else [];
      SpacedJoin(comma, text, Lex(ElementAt(es, index)), Plain(ElementAt(es, index)),
                 ElementsBehind(es, index + 1), Row(es, index + 1));
      assert [] + ElementsBehind(es, index) == ElementsBehind(es, index) && [] + comma == comma;
    }
  }

  lemma {:induction false} ElementLinesSpaced(es: seq<(nat, Value)>, index: nat, depth: nat)
    requires Printable(Array(es)) && IndicesFrom(es, 0) && index < Size(Array(es))
    ensures Spaced(Remaining(es, index), ElementLines(es, index, depth))
    decreases Weight(Array(es)), 0, Size(Array(es)) - index
  {
    hide Spaced, Plain, Lex, LexElements, Remaining, ElementAt, Wf, RealFree, Layout, Line, Weight;
    ElementOk(es, index);
    var v := ElementAt(es, index);
    LayoutSpaced(v, depth);
    LineThen(Layout(v, depth), Lex(v), depth);
    RemainingStep(es, index);
    if index + 1 < Size(Array(es)) {
      MarksSpaced();
      ElementLinesSpaced(es, index + 1, depth);
      SpacedJoin(Lex(v), Line(depth) + Layout(v, depth), [[COMMA]], [COMMA],
                 Remaining(es, index + 1), ElementLines(es, index + 1, depth));
      Assoc(Lex(v), [[COMMA]], Remaining(es, index + 1));
      Assoc(Line(depth) + Layout(v, depth), [COMMA], ElementLines(es, index + 1, depth));
    } else {
      assert Lex(v) + [] == Lex(v) && Line(depth) + Layout(v, depth) + [] == Line(depth) + Layout(v, depth);
    }
  }

  lemma MemberOk(ms: seq<(bytes, Value)>, k: nat)
    requires Printable(Object(ms)) && k < |ms|
    ensures Printable(ms[k].1) && Weight(ms[k].1) < Weight(Object(ms))
  {
    hide Weight, MembersWeight;
    assert ms[k] in ms;
    MemberLighter(ms, k);
  }

  lemma {:induction false} ObjectSpaced(ms: seq<(bytes, Value)>, depth: nat)
    requires Printable(Object(ms)) && ms != []
    ensures Spaced(Lex(Object(ms)), Layout(Object(ms), depth))
    decreases Weight(Object(ms)), 0, |ms| + 1
  {
    hide Spaced, LexMembers, MemberLines, Line, Weight, Wf, RealFree;
    MarksSpaced();
    BraceLexemes(ms, [[LBRACE]] + LexMembers(ms));
    MemberLinesSpaced(ms, 0, depth + 1);
    assert ms[0..] == ms;
    LineThen([RBRACE], [[RBRACE]], depth);
    SpacedJoin([[LBRACE]], [LBRACE], LexMembers(ms), MemberLines(ms, 0, depth + 1), [[RBRACE]], Line(depth) + [RBRACE]);
    Assoc([LBRACE] + MemberLines(ms, 0, depth + 1), Line(depth), [RBRACE]);
  }

  lemma {:induction false} MemberLinesSpaced(ms: seq<(bytes, Value)>, k: nat, depth: nat)
    requires Printable(Object(ms)) && k < |ms|
    ensures Spaced(LexMembers(ms[k..]), MemberLines(ms, k, depth))
    decreases Weight(Object(ms)), 0, |ms| - k
  {
    hide Spaced, Lex, LexMembers, Wf, RealFree, Layout, Line, Weight, Quote;
    MemberOk(ms, k);
    var name, v := Quote(ms[k].0), ms[k].1;
    MarksSpaced();
    LayoutSpaced(v, depth);
    QuoteSpaced(ms[k].0);
    LineThen(name, [name], depth);
    SpacedJoin([name], Line(depth) + name, [[COLON]], [SPACE, COLON, SPACE], Lex(v), Layout(v, depth));
    assert [name] + [[COLON]] == [name, [COLON]];
    MembersStep(ms, k);
    var ls, text := [name, [COLON]] + Lex(v), Line(depth) + name + [SPACE, COLON, SPACE] + Layout(v, depth);
    if k + 1 < |ms| {
      MemberLinesSpaced(ms, k + 1, depth);
      SpacedJoin(ls, text, [[COMMA]], [COMMA], LexMembers(ms[k + 1..]), MemberLines(ms, k + 1, depth));
      Assoc(ls, [[COMMA]], LexMembers(ms[k + 1..]));
      Assoc(text, [COMMA], MemberLines(ms, k + 1, depth));
    } else {
      assert ls + [] == ls && text + [] == text;
    }
  }

  // ------------------------------------------------------------ indentation

  predicate Opens(c: byte) {
    c == LBRACKET || c == LBRACE
  }

  predicate Closes(c: byte) {
    c == RBRACKET || c == RBRACE
  }

  /** Where a character stands: how many brackets are open, and whether it is in a string. */
  datatype Place = Place(depth: int, quoted: bool, escaped: bool) {
    function Behind(c: byte): Place {
      if quoted && escaped then Place(depth, true, false)
      else if quoted then Place(depth, c != QUOTE, c == BACKSLASH)
      else if c == QUOTE then Place(depth, true, false)
      else Place(depth + (if Opens(c) then 1 else 0) - (if Closes(c) then 1 else 0), false, false)
    }
  }

  function After(s: bytes, at: Place): Place {
    if s == [] then at else After(s[1..], at.Behind(s[0]))
  }

  /** A line that starts outside strings with three spaces for each open bracket, except for
      the one it closes first. */
  ghost predicate LineAt(s: bytes, at: Place) {
    && !at.quoted
    && exists n: nat ::
      && Indentation(n) <= s && |s| > INDENT_SIZE * n && s[INDENT_SIZE * n] != SPACE
      && n == at.depth - if Closes(s[INDENT_SIZE * n]) then 1 else 0
  }

  /** Every line but the first is indented by its nesting. */
  ghost predicate Indented(s: bytes, at: Place) {
    forall i | 0 <= i < |s| && s[i] == NEWLINE :: LineAt(s[i + 1..], After(s[..i], at))
  }

  lemma {:induction false} AfterConcat(a: bytes, b: bytes, at: Place)
    ensures After(a + b, at) == After(b, After(a, at))
  {
    if a == [] {
      assert a + b == b;
    } else {
      assert (a + b)[1..] == a[1..] + b;
      AfterConcat(a[1..], b, at.Behind(a[0]));
    }
  }

  lemma LineAtMore(s: bytes, more: bytes, at: Place)
    requires LineAt(s, at)
    ensures LineAt(s + more, at)
  {
    var n: nat :|
      && Indentation(n) <= s && |s| > INDENT_SIZE * n && s[INDENT_SIZE * n] != SPACE
      && n == at.depth - if Closes(s[INDENT_SIZE * n]) then 1 else 0;
    assert Indentation(n) <= s + more;
  }

  lemma IndentedConcat(a: bytes, b: bytes, at: Place)
    requires Indented(a, at) && Indented(b, After(a, at))
    ensures Indented(a + b, at) && After(a + b, at) == After(b, After(a, at))
  {
    hide LineAt, After;
    var s := a + b;
    AfterConcat(a, b, at);
    forall i | 0 <= i < |s| && s[i] == NEWLINE ensures LineAt(s[i + 1..], After(s[..i], at)) {
      if i < |a| {
        assert s[..i] == a[..i] && s[i + 1..] == a[i + 1..] + b;
        LineAtMore(a[i + 1..], b, After(a[..i], at));
      } else {
        var j := i - |a|;
        assert s[..i] == a + b[..j] && s[i + 1..] == b[j + 1..];
        AfterConcat(a, b[..j], at);
      }
    }
  }

  /** Text without line ends. */
  lemma FlatIndented(s: bytes, at: Place)
    requires NEWLINE !in s
    ensures Indented(s, at)
  {
  }

  /** Text that neither opens nor closes anything. */
  lemma {:induction false} InertAfter(s: bytes, at: Place)
    requires !at.quoted && !at.escaped && forall c <- s :: c != QUOTE && !Opens(c) && !Closes(c)
    ensures After(s, at) == at
  {
    if s != [] {
      assert s[0] in s && forall c <- s[1..] :: c in s;
      InertAfter(s[1..], at);
    }
  }

  lemma {:induction false} EscapeAfter(s: bytes, at: Place)
    requires at.quoted && !at.escaped
    ensures After(Escape(s), at) == at
  {
    if s != [] {
      hide EscapeChar;
      EscapeAfter(s[1..], at);
      EscapeCharAfter(s[0], at);
      AfterConcat(EscapeChar(s[0]), Escape(s[1..]), at);
    }
  }

  lemma EscapeCharAfter(c: byte, at: Place)
    requires at.quoted && !at.escaped
    ensures After(EscapeChar(c), at) == at
  {
    var e := EscapeChar(c);
    OneAfter(e[0], at);
    if |e| == 2 {
      assert e == [BACKSLASH] + [e[1]];
      AfterConcat([BACKSLASH], [e[1]], at);
      OneAfter(e[1], at.Behind(BACKSLASH));
    }
  }

  /** A quoted string is closed again, and has no line ends. */
  lemma QuoteAfter(s: bytes, at: Place)
    requires !at.quoted && !at.escaped
    ensures After(Quote(s), at) == at && NEWLINE !in Quote(s)
  {
    JsonStrings.EscapeSpells(s);
    hide Escape;
    var inside := at.Behind(QUOTE);
    AfterConcat([QUOTE] + Escape(s), [QUOTE], at);
    AfterConcat([QUOTE], Escape(s), at);
    OneAfter(QUOTE, at);
    EscapeAfter(s, inside);
    OneAfter(QUOTE, inside);
  }

  lemma OneAfter(c: byte, at: Place)
    ensures After([c], at) == at.Behind(c)
  {
    assert [c][1..] == [];
  }

  lemma ScalarAfter(v: Value, at: Place)
    requires Printable(v) && !v.Array? && !v.Object? && !at.quoted && !at.escaped
    ensures Plain(v) != [] && After(Plain(v), at) == at && NEWLINE !in Plain(v)
    ensures var s := Plain(v); s[0] != SPACE && !Closes(s[0]) && s[|s| - 1] != SPACE
  {
    ScalarText(v, false);
    if v.Str? {
      hide Escape, After;
      QuoteAfter(v.s, at);
    } else {
      hide After;
      InertAfter(Plain(v), at);
    }
  }

  function Outside(depth: int): Place {
    Place(depth, false, false)
  }

  lemma PlainAfter(v: Value, depth: int)
    requires Printable(v) && Simple(v)
    ensures Plain(v) != [] && After(Plain(v), Outside(depth)) == Outside(depth) && NEWLINE !in Plain(v)
    ensures var s := Plain(v); s[0] != SPACE && !Closes(s[0]) && s[|s| - 1] != SPACE
  {
    if v.Array? || v.Object? {
      EmptyText(v);
      MarksAfter(depth);
    } else {
      ScalarAfter(v, Outside(depth));
    }
  }

  lemma MarksAfter(depth: int)
    ensures After([LBRACKET], Outside(depth)) == After([LBRACE], Outside(depth)) == Outside(depth + 1)
    ensures After([RBRACKET], Outside(depth)) == After([RBRACE], Outside(depth)) == Outside(depth - 1)
    ensures After([COMMA], Outside(depth)) == Outside(depth)
    ensures After([LBRACKET, RBRACKET], Outside(depth)) == Outside(depth)
    ensures After([LBRACE, RBRACE], Outside(depth)) == Outside(depth)
    ensures After([COMMA, SPACE], Outside(depth)) == After([SPACE, COLON, SPACE], Outside(depth)) == Outside(depth)
    ensures After([LBRACKET, SPACE], Outside(depth)) == Outside(depth + 1)
    ensures After([SPACE, RBRACKET], Outside(depth)) == Outside(depth - 1)
  {
    OneAfter(LBRACKET, Outside(depth));
    OneAfter(LBRACE, Outside(depth));
    OneAfter(RBRACKET, Outside(depth));
    OneAfter(RBRACE, Outside(depth));
    OneAfter(RBRACKET, Outside(depth + 1));
    OneAfter(RBRACE, Outside(depth + 1));
    hide After;
    AfterConcat([LBRACKET], [RBRACKET], Outside(depth));
    AfterConcat([LBRACE], [RBRACE], Outside(depth));
    AfterConcat([LBRACKET], [SPACE], Outside(depth));
    AfterConcat([SPACE], [RBRACKET], Outside(depth));
    InertAfter([SPACE], Outside(depth));
    InertAfter([SPACE], Outside(depth + 1));
    InertAfter([COMMA], Outside(depth));
    InertAfter([COMMA, SPACE], Outside(depth));
    InertAfter([SPACE, COLON, SPACE], Outside(depth));
    assert [LBRACKET] + [RBRACKET] == [LBRACKET, RBRACKET] && [LBRACE] + [RBRACE] == [LBRACE, RBRACE];
    assert [LBRACKET] + [SPACE] == [LBRACKET, SPACE] && [SPACE] + [RBRACKET] == [SPACE, RBRACKET];
  }

  lemma LineStarts(depth: nat, text: bytes, level: int)
    requires text != [] && text[0] != SPACE && depth == level - if Closes(text[0]) then 1 else 0
    ensures LineAt(Indentation(depth) + text, Outside(level))
  {
    var s := Indentation(depth) + text;
    assert Indentation(depth) <= s && s[INDENT_SIZE * depth] == text[0];
  }

  lemma BlankIsFlat(s: bytes)
    requires Blank(s)
    ensures NEWLINE !in s && forall c <- s :: c != QUOTE && !Opens(c) && !Closes(c)
  {
  }

  /** A line of its own, at the right level for what it starts with. */
  lemma LineIndented(depth: nat, text: bytes, level: int)
    requires text != [] && text[0] != SPACE && Indented(text, Outside(level))
    requires depth == level - if Closes(text[0]) then 1 else 0
    ensures
      var s := Line(depth) + text;
      Indented(s, Outside(level)) && After(s, Outside(level)) == After(text, Outside(level))
  {
    hide After, LineAt, Indentation, Indented;
    var blanks, at := Indentation(depth), Outside(level);
    var behind := blanks + text;
    LineStarts(depth, text, level);
    BlankIsFlat(blanks);
    FlatIndented(blanks, at);
    InertAfter(blanks, at);
    IndentedConcat(blanks, text, at);
    InertAfter([NEWLINE], at);
    AfterConcat([NEWLINE], behind, at);
    NewlineIndented(behind, at);
    Assoc([NEWLINE], blanks, text);
  }

  lemma NewlineIndented(behind: bytes, at: Place)
    requires LineAt(behind, at) && Indented(behind, at) && After([NEWLINE], at) == at
    ensures Indented([NEWLINE] + behind, at)
  {
    hide LineAt, After;
    var s := [NEWLINE] + behind;
    forall i | 0 <= i < |s| && s[i] == NEWLINE ensures LineAt(s[i + 1..], After(s[..i], at)) {
      if i == 0 {
        NothingAfter(at);
        assert s[..0] == [] && s[1..] == behind;
      } else {
        assert s[..i] == [NEWLINE] + behind[..i - 1] && s[i + 1..] == behind[i..];
        AfterConcat([NEWLINE], behind[..i - 1], at);
      }
    }
  }

  lemma NothingAfter(at: Place)
    ensures After([], at) == at
  {
  }

  /** An array that fits on one line holds no line end. */
  lemma {:induction false} RowFlat(es: seq<(nat, Value)>, index: nat, depth: int)
    requires Printable(Array(es)) && Fits(es)
    ensures NEWLINE !in Row(es, index) && After(Row(es, index), Outside(depth)) == Outside(depth)
    decreases Size(Array(es)) - index
  {
    hide After, Plain, ElementAt, Wf, RealFree;
    if index < Size(Array(es)) {
      hide Fits;
      ElementOk(es, index);
      FitsSimple(es, index);
      var v := ElementAt(es, index);
      var comma := if index > 0 then [COMMA, SPACE] else [];
      PlainAfter(v, depth);
      MarksAfter(depth);
      NothingAfter(Outside(depth));
      RowFlat(es, index + 1, depth);
      AfterConcat(comma, Plain(v), Outside(depth));
      AfterConcat(comma + Plain(v), Row(es, index + 1), Outside(depth));
    } else {
      NothingAfter(Outside(depth));
    }
  }

  lemma FitsSimple(es: seq<(nat, Value)>, index: nat)
    requires Fits(es) && index < Size(Array(es))
    ensures Simple(ElementAt(es, index))
  {
  }

  /** Three pieces of text, one behind the other. */
  lemma IndentedJoin(a: bytes, b: bytes, c: bytes, at: Place)
    requires Indented(a, at) && Indented(b, After(a, at)) && Indented(c, After(b, After(a, at)))
    ensures Indented(a + b + c, at) && After(a + b + c, at) == After(c, After(b, After(a, at)))
  {
    hide Indented, After;
    IndentedConcat(a, b, at);
    IndentedConcat(a + b, c, at);
  }

  /** Every line is indented by three spaces for each bracket around what it starts with, and
      closing brackets stand at the level of the line that opened them. */
  lemma {:induction false} LayoutIndented(v: Value, depth: nat)
    requires Printable(v)
    ensures Indented(Layout(v, depth), Outside(depth)) && After(Layout(v, depth), Outside(depth)) == Outside(depth)
    ensures Layout(v, depth) != [] && Layout(v, depth)[0] != SPACE && !Closes(Layout(v, depth)[0])
    decreases Weight(v), 1, 0
  {
    hide Plain, Fits, Row, ElementLines, MemberLines, Line, Weight, Indented, After;
    if Simple(v) {
      SimpleLayout(v, depth);
      PlainAfter(v, depth);
      FlatIndented(Plain(v), Outside(depth));
    } else if v.Array? {
      ArrayIndented(v.es, depth);
    } else {
      ObjectIndented(v.ms, depth);
    }
  }

  lemma {:induction false} ArrayIndented(es: seq<(nat, Value)>, depth: nat)
    requires Printable(Array(es)) && Size(Array(es)) > 0
    ensures
      var s := Layout(Array(es), depth);
      Indented(s, Outside(depth)) && After(s, Outside(depth)) == Outside(depth) && s[0] == LBRACKET
    decreases Weight(Array(es)), 0, Size(Array(es)) + 1
  {
    hide Plain, Fits, Row, ElementLines, Line, Weight, Indented, After, Size, Wf, RealFree;
    MarksAfter(depth);
    MarksAfter(depth + 1);
    FlatIndented([LBRACKET], Outside(depth));
    FlatIndented([LBRACKET, SPACE], Outside(depth));
    FlatIndented([RBRACKET], Outside(depth + 1));
    FlatIndented([SPACE, RBRACKET], Outside(depth + 1));
    if Fits(es) {
      RowFlat(es, 0, depth + 1);
      FlatIndented(Row(es, 0), Outside(depth + 1));
      IndentedJoin([LBRACKET, SPACE], Row(es, 0), [SPACE, RBRACKET], Outside(depth));
    } else {
      ElementLinesIndented(es, 0, depth + 1);
      LineIndented(depth, [RBRACKET], depth + 1);
      IndentedJoin([LBRACKET], ElementLines(es, 0, depth + 1), Line(depth) + [RBRACKET], Outside(depth));
      Assoc([LBRACKET] + ElementLines(es, 0, depth + 1), Line(depth), [RBRACKET]);
    }
  }

  lemma {:induction false} ElementLinesIndented(es: seq<(nat, Value)>, index: nat, depth: nat)
    requires Printable(Array(es)) && index < Size(Array(es))
    ensures
      var s := ElementLines(es, index, depth);
      Indented(s, Outside(depth)) && After(s, Outside(depth)) == Outside(depth)
    decreases Weight(Array(es)), 0, Size(Array(es)) - index
  {
    hide Plain, Layout, Line, Weight, Indented, After, Wf, RealFree, ElementAt;
    ElementOk(es, index);
    var v := ElementAt(es, index);
    var line := Line(depth) + Layout(v, depth);
    LayoutIndented(v, depth);
    LineIndented(depth, Layout(v, depth), depth);
    if index + 1 < Size(Array(es)) {
      MarksAfter(depth);
      FlatIndented([COMMA], Outside(depth));
      ElementLinesIndented(es, index + 1, depth);
      IndentedJoin(line, [COMMA], ElementLines(es, index + 1, depth), Outside(depth));
      Assoc(line, [COMMA], ElementLines(es, index + 1, depth));
    } else {
      assert line + [] == line;
    }
  }

  lemma {:induction false} ObjectIndented(ms: seq<(bytes, Value)>, depth: nat)
    requires Printable(Object(ms)) && ms != []
    ensures
      var s := Layout(Object(ms), depth);
      Indented(s, Outside(depth)) && After(s, Outside(depth)) == Outside(depth) && s[0] == LBRACE
    decreases Weight(Object(ms)), 0, |ms| + 1
  {
    hide MemberLines, Line, Weight, Indented, After, Wf, RealFree;
    MarksAfter(depth);
    MarksAfter(depth + 1);
    FlatIndented([LBRACE], Outside(depth));
    FlatIndented([RBRACE], Outside(depth + 1));
    MemberLinesIndented(ms, 0, depth + 1);
    LineIndented(depth, [RBRACE], depth + 1);
    IndentedJoin([LBRACE], MemberLines(ms, 0, depth + 1), Line(depth) + [RBRACE], Outside(depth));
    Assoc([LBRACE] + MemberLines(ms, 0, depth + 1), Line(depth), [RBRACE]);
  }

  lemma {:induction false} MemberLinesIndented(ms: seq<(bytes, Value)>, k: nat, depth: nat)
    requires Printable(Object(ms)) && k < |ms|
    ensures
      var s := MemberLines(ms, k, depth);
      Indented(s, Outside(depth)) && After(s, Outside(depth)) == Outside(depth)
    decreases Weight(Object(ms)), 0, |ms| - k
  {
    hide Layout, Line, Weight, Indented, After, Wf, RealFree, Quote;
    MemberOk(ms, k);
    var name, v := Quote(ms[k].0), ms[k].1;
    QuoteAfter(ms[k].0, Outside(depth));
    FlatIndented(name, Outside(depth));
    LineIndented(depth, name, depth);
    MarksAfter(depth);
    FlatIndented([SPACE, COLON, SPACE], Outside(depth));
    LayoutIndented(v, depth);
    IndentedJoin(Line(depth) + name, [SPACE, COLON, SPACE], Layout(v, depth), Outside(depth));
    var line := Line(depth) + name + [SPACE, COLON, SPACE] + Layout(v, depth);
    if k + 1 < |ms| {
      FlatIndented([COMMA], Outside(depth));
      MemberLinesIndented(ms, k + 1, depth);
      IndentedJoin(line, [COMMA], MemberLines(ms, k + 1, depth), Outside(depth));
      Assoc(line, [COMMA], MemberLines(ms, k + 1, depth));
    } else {
      assert line + [] == line;
    }
  }

  /** The last character is never a space or a line end. */
  lemma LayoutEnds(v: Value, depth: nat)
    requires Printable(v)
    ensures Layout(v, depth) != []
    ensures var last := Layout(v, depth)[|Layout(v, depth)| - 1]; last != SPACE && last != NEWLINE
  {
    hide Plain, Fits, Row, ElementLines, MemberLines, Line;
    if Simple(v) {
      SimpleLayout(v, depth);
      PlainAfter(v, 0);
    }
  }
}
