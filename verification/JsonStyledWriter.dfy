/** Json::StyledWriter on comment-free values: an array is put on one line when its
    children are short, from a cache of child texts filled while measuring them. */
module JsonStyledWriter {
  import opened Wrappers
  import opened Bytes
  import opened JsonValue
  import opened JsonText
  import opened JsonReader
  import opened JsonRoundTrip
  import opened JsonWriter
  import opened JsonLayout

  /** childValues_ holds the direct rendering of every element, once each. */
  ghost predicate Cached(childValues: seq<bytes>, es: seq<(nat, Value)>) {
    && |childValues| == Size(Array(es))
    && forall k | 0 <= k < |childValues| :: Simple(ElementAt(es, k)) && childValues[k] == Plain(ElementAt(es, k))
  }

  /** Nothing has been written yet, or a space is the last character: writeIndent adds
      nothing more. */
  predicate AtIndentation(document: bytes, depth: nat) {
    if document == [] then depth == 0 else document[|document| - 1] == SPACE
  }

  /** The last line has been started, and is not at an indentation. */
  predicate InLine(document: bytes) {
    document != [] && document[|document| - 1] != SPACE && document[|document| - 1] != NEWLINE
  }

  class StyledWriter {
    var document: bytes
    var indentString: bytes
    var childValues: seq<bytes>
    var addChildValues: bool
    const rightMargin: int := 74
    const indentSize: nat := 3

    constructor ()
      ensures indentString == Indentation(0)
    {
      document, indentString, childValues, addChildValues := [], [], [], false;
    }

    method Write(root: Value) returns (text: bytes)
      requires Printable(root)
      modifies this
      ensures text == document == Layout(root, 0) + [NEWLINE] && indentString == []
      ensures Spaced(Lex(root), text)
      ensures Indented(text[..|text| - 1], Outside(0))
    {
      hide Spaced, Lex, Wf, RealFree, Layout, Indented;
      document := [];
      addChildValues := false;
      indentString := [];
      WriteValue(root, 0);
      assert [] + Layout(root, 0) == Layout(root, 0);
      document := document + [NEWLINE];
      text := document;
      LayoutSpaced(root, 0);
      NewlineIsSpace();
      NothingSpaced([NEWLINE]);
      SpacedConcat(Lex(root), Layout(root, 0), [], [NEWLINE]);
      assert Lex(root) + [] == Lex(root);
      LayoutIndented(root, 0);
      assert text[..|text| - 1] == Layout(root, 0);
    }

    method WriteValue(v: Value, ghost depth: nat)
      requires Printable(v) && indentString == Indentation(depth)
      requires if addChildValues then Simple(v) else AtIndentation(document, depth)
      modifies this
      ensures indentString == old(indentString) && addChildValues == old(addChildValues)
      ensures addChildValues ==> document == old(document) && childValues == old(childValues) + [Plain(v)]
      ensures !addChildValues ==> document == old(document) + Layout(v, depth)
      decreases Weight(v), 3
    {
      hide Glue, LexElements, LexMembers, ElementLines, MemberLines, Row, Fits, Line;
      var text: bytes;
      match v {
        case Null => text := NULL_TEXT;
        case Int(i) => text := IntegerToString(i);
        case UInt(u) => text := IntegerToString(u);
        case Real(_) => assert false;
        case Str(s) => text := QuotedString(s);
        case Bool(b) => text := if b then TRUE_TEXT else FALSE_TEXT;
        case Array(es) =>
          WriteArrayValue(es, depth);
          return;
        case Object(ms) =>
          if Names(ms) == [] {
            EmptyText(v);
            PushValue([LBRACE, RBRACE]);
          } else {
            WriteObjectValue(ms, depth);
          }
          return;
      }
      ScalarText(v, false);
      PushValue(text);
    }

    method PushValue(text: bytes)
      modifies this`document, this`childValues
      ensures addChildValues ==> document == old(document) && childValues == old(childValues) + [text]
      ensures !addChildValues ==> document == old(document) + text && childValues == old(childValues)
    {
      if addChildValues {
        childValues := childValues + [text];
      } else {
        document := document + text;
      }
    }

    /** Behind a space nothing is added; otherwise the document ends in a line end, which is
        added when it is missing and something stands in front of it, and the indentation. */
    method WriteIndent()
      modifies this`document
      ensures old(document) != [] && old(document)[|old(document)| - 1] == SPACE ==> document == old(document)
      ensures !(old(document) != [] && old(document)[|old(document)| - 1] == SPACE) ==>
                document == old(document)
                            + (if old(document) == [] || old(document)[|old(document)| - 1] == NEWLINE then []
                               else [NEWLINE])
                            + indentString
    {
      if document != [] {
        var last := document[|document| - 1];
        if last == SPACE {
          return;
        }
        if last != NEWLINE {
          document := document + [NEWLINE];
        }
      }
      document := document + indentString;
    }

    method WriteWithIndent(text: bytes, ghost depth: nat)
      requires indentString == Indentation(depth) && (AtIndentation(document, depth) || InLine(document))
      modifies this`document
      ensures document == old(document) + (if InLine(old(document)) then Line(depth) else []) + text
    {
      WriteIndent();
      document := document + text;
      OnLine(old(document), depth, text);
    }

    method Indent(ghost depth: nat)
      requires indentString == Indentation(depth)
      modifies this`indentString
      ensures indentString == Indentation(depth + 1)
    {
      indentString := indentString + seq(indentSize, _ => SPACE);
    }

    /** The source asserts that there is enough to take back. */
    method Unindent()
      requires |indentString| >= indentSize
      modifies this`indentString
      ensures indentString == old(indentString[..|indentString| - indentSize])
    {
      indentString := indentString[..|indentString| - indentSize];
    }

    method WriteArrayValue(es: seq<(nat, Value)>, ghost depth: nat)
      requires Printable(Array(es)) && indentString == Indentation(depth)
      requires if addChildValues then Size(Array(es)) == 0 else AtIndentation(document, depth)
      modifies this
      ensures indentString == old(indentString) && addChildValues == old(addChildValues)
      ensures addChildValues ==>
                document == old(document) && childValues == old(childValues) + [Plain(Array(es))]
      ensures !addChildValues ==> document == old(document) + Layout(Array(es), depth)
      decreases Weight(Array(es)), 2
    {
      hide Glue, LexElements, Lex, Plain, Wf, RealFree, Cached, ElementLines, Row, Fits, Line, Indentation;
      if Size(Array(es)) == 0 {
        EmptyText(Array(es));
        PushValue([LBRACKET, RBRACKET]);
      } else {
        var multi := IsMultilineArray(es, depth);
        if multi {
          WriteLines(es, depth);
        } else {
          WriteOneLine(es);
        }
      }
    }

    /** Whether the array does not fit on one line. The cache then is empty, or complete. */
    method IsMultilineArray(es: seq<(nat, Value)>, ghost depth: nat) returns (multi: bool)
      requires Printable(Array(es)) && indentString == Indentation(depth) && !addChildValues
      modifies this
      ensures indentString == old(indentString) && !addChildValues && document == old(document)
      ensures multi <==> !Fits(es)
      ensures Cached(childValues, es) || (multi && childValues == [])
      decreases Weight(Array(es)), 0
    {
      hide Glue, LexElements, Lex, Plain, Wf, RealFree, Layout, Size, ElementAt, Indentation;
      var size := Size(Array(es));
      multi := size * 3 >= rightMargin;
      childValues := [];
      var index := 0;
      while index < size && !multi
        invariant index <= size
        invariant !multi ==> size * 3 < rightMargin && forall k | 0 <= k < index :: Simple(ElementAt(es, k))
        invariant multi ==> !Fits(es)
      {
        var child := ElementAt(es, index);
        multi := (child.Array? || child.Object?) && Size(child) > 0;
        index := index + 1;
      }
      if !multi {
        addChildValues := true;
        var lineLength := 4 + (size - 1) * 2;
        index := 0;
        while index < size
          invariant index <= size && |childValues| == index
          invariant lineLength == 4 + (size - 1) * 2 + Widths(es, index)
          invariant forall k | 0 <= k < index :: childValues[k] == Plain(ElementAt(es, k))
          invariant addChildValues && indentString == old(indentString) && document == old(document)
        {
          ElementOk(es, index);
          WriteValue(ElementAt(es, index), depth);
          lineLength := lineLength + |childValues[index]|;
          index := index + 1;
        }
        addChildValues := false;
        multi := lineLength >= rightMargin;
      }
    }

    method WriteOneLine(es: seq<(nat, Value)>)
      requires Size(Array(es)) > 0 && Fits(es) && Cached(childValues, es)
      modifies this`document
      ensures forall depth :: document == old(document) + Layout(Array(es), depth)
    {
      hide Plain, Size, ElementAt, Row, Fits;
      document := document + [LBRACKET, SPACE];
      for index := 0 to Size(Array(es))
        invariant document + Row(es, index) == old(document) + [LBRACKET, SPACE] + Row(es, 0)
      {
        RowStep(es, index, document);
        if index > 0 {
          document := document + [COMMA, SPACE];
        }
        document := document + childValues[index];
      }
      RowEnds(es, document);
      document := document + [SPACE, RBRACKET];
      Assoc(old(document), [LBRACKET, SPACE] + Row(es, 0), [SPACE, RBRACKET]);
      Assoc(old(document), [LBRACKET, SPACE], Row(es, 0));
    }

    method WriteLines(es: seq<(nat, Value)>, ghost depth: nat)
      requires Printable(Array(es)) && Size(Array(es)) > 0 && !addChildValues && !Fits(es)
      requires indentString == Indentation(depth) && AtIndentation(document, depth)
      requires Cached(childValues, es) || childValues == []
      modifies this
      ensures indentString == old(indentString) && !addChildValues
      ensures document == old(document) + Layout(Array(es), depth)
      decreases Weight(Array(es)), 1
    {
      hide Plain, Wf, RealFree, Size, ElementAt, Cached, Fits, ElementLines, Layout, Line, Indentation;
      WriteWithIndent([LBRACKET], depth);
      Indent(depth);
      var hasChildValue := childValues != [];
      ghost var lines := old(document) + [LBRACKET] + ElementLines(es, 0, depth + 1);
      var index := 0;
      while true
        invariant index < Size(Array(es)) && indentString == Indentation(depth + 1) && !addChildValues
        invariant hasChildValue ==> Cached(childValues, es)
        invariant InLine(document) && document + ElementLines(es, index, depth + 1) == lines
        decreases Size(Array(es)) - index
      {
        ElementLinesStep(es, index, depth + 1, document);
        WriteElementLine(es, index, hasChildValue, depth + 1);
        index := index + 1;
        if index == Size(Array(es)) {
          break;
        }
        document := document + [COMMA];
      }
      Unindent();
      OneLess(depth);
      WriteWithIndent([RBRACKET], depth);
      ArrayClosed(es, depth, old(document));
    }

    method WriteElementLine(es: seq<(nat, Value)>, index: nat, hasChildValue: bool, ghost depth: nat)
      requires Printable(Array(es)) && index < Size(Array(es)) && !addChildValues && depth > 0
      requires indentString == Indentation(depth) && InLine(document)
      requires hasChildValue ==> Cached(childValues, es)
      modifies this
      ensures indentString == old(indentString) && !addChildValues
      ensures hasChildValue ==> childValues == old(childValues)
      ensures document == old(document) + (Line(depth) + Layout(ElementAt(es, index), depth)) && InLine(document)
      decreases Weight(Array(es)), 0
    {
      hide Plain, Wf, RealFree, Size, ElementAt, Layout;
      var v := ElementAt(es, index);
      ElementOk(es, index);
      LayoutEnds(v, depth);
      Assoc(old(document), Line(depth), Layout(v, depth));
      if hasChildValue {
        SimpleLayout(v, depth);
        WriteWithIndent(childValues[index], depth);
      } else {
        WriteIndent();
        Assoc(old(document), [NEWLINE], Indentation(depth));
        assert document == old(document) + Line(depth);
        assert document[|document| - 1] == SPACE;
        WriteValue(v, depth);
      }
    }

    method WriteObjectValue(ms: seq<(bytes, Value)>, ghost depth: nat)
      requires Printable(Object(ms)) && ms != [] && !addChildValues
      requires indentString == Indentation(depth) && AtIndentation(document, depth)
      modifies this
      ensures indentString == old(indentString) && !addChildValues
      ensures document == old(document) + Layout(Object(ms), depth)
      decreases Weight(Object(ms)), 1
    {
      hide Plain, Wf, RealFree, MemberAt, MemberLines, Layout, Line, Indentation;
      var members := Names(ms);
      WriteWithIndent([LBRACE], depth);
      Indent(depth);
      ghost var lines := old(document) + [LBRACE] + MemberLines(ms, 0, depth + 1);
      var k := 0;
      while true
        invariant k < |ms| && indentString == Indentation(depth + 1) && !addChildValues
        invariant InLine(document) && document + MemberLines(ms, k, depth + 1) == lines
        decreases |ms| - k
      {
        MemberLinesStep(ms, k, depth + 1, document);
        WriteMemberLine(ms, k, depth + 1);
        k := k + 1;
        if k == |members| {
          break;
        }
        document := document + [COMMA];
      }
      Unindent();
      OneLess(depth);
      WriteWithIndent([RBRACE], depth);
      ObjectClosed(ms, depth, old(document));
    }

    method WriteMemberLine(ms: seq<(bytes, Value)>, k: nat, ghost depth: nat)
      requires Printable(Object(ms)) && k < |ms| && !addChildValues
      requires indentString == Indentation(depth) && InLine(document)
      modifies this
      ensures indentString == old(indentString) && !addChildValues
      ensures document == old(document) + MemberLine(ms[k].0, ms[k].1, depth) && InLine(document)
      decreases Weight(Object(ms)), 0
    {
      hide Plain, MemberAt, Quote, Layout, Line, Weight;
      PrintableMember(ms, k);
      MemberOk(ms, k);
      var name := Names(ms)[k];
      var child := MemberAt(ms, name);
      var quoted := QuotedString(name);
      WriteWithIndent(quoted, depth);
      document := document + [SPACE, COLON, SPACE];
      WriteValue(child, depth);
      LayoutEnds(child, depth);
      MemberLineText(name, child, depth, old(document));
    }
  }

  lemma OnLine(document: bytes, depth: nat, text: bytes)
    ensures document + [NEWLINE] + Indentation(depth) + text == document + Line(depth) + text
    ensures document == [] && depth == 0 ==> document + [] + Indentation(depth) + text == document + [] + text
  {
    Assoc(document, [NEWLINE], Indentation(depth));
  }

  lemma OneLess(depth: nat)
    ensures Indentation(depth + 1)[..INDENT_SIZE * depth] == Indentation(depth)
    ensures |Indentation(depth + 1)| - INDENT_SIZE == INDENT_SIZE * depth
  {
  }

  lemma RowStep(es: seq<(nat, Value)>, index: nat, before: bytes)
    requires index < Size(Array(es))
    ensures before + Row(es, index)
            == before + (if index > 0 then [COMMA, SPACE] else []) + Plain(ElementAt(es, index)) + Row(es, index + 1)
    ensures before + [] == before
  {
    hide Plain, ElementAt, Size;
    var comma := if index > 0 then [COMMA, SPACE] else [];
    var v := Plain(ElementAt(es, index));
    Assoc(before, comma + v, Row(es, index + 1));
    Assoc(before, comma, v);
  }

  lemma RowEnds(es: seq<(nat, Value)>, before: bytes)
    ensures before + Row(es, Size(Array(es))) == before
  {
  }

  lemma ElementLinesStep(es: seq<(nat, Value)>, index: nat, depth: nat, before: bytes)
    requires index < Size(Array(es))
    ensures
      var line := before + (Line(depth) + Layout(ElementAt(es, index), depth));
      before + ElementLines(es, index, depth)
      == if index + 1 == Size(Array(es)) then line else line + [COMMA] + ElementLines(es, index + 1, depth)
  {
    hide Layout, ElementAt, Size, Line;
    var line := Line(depth) + Layout(ElementAt(es, index), depth);
    if index + 1 == Size(Array(es)) {
      assert line + [] == line;
    } else {
      Assoc(before, line, [COMMA] + ElementLines(es, index + 1, depth));
      Assoc(before + line, [COMMA], ElementLines(es, index + 1, depth));
    }
  }

  lemma ArrayClosed(es: seq<(nat, Value)>, depth: nat, before: bytes)
    requires Size(Array(es)) > 0 && !Fits(es)
    ensures before + [LBRACKET] + ElementLines(es, 0, depth + 1) + Line(depth) + [RBRACKET]
            == before + Layout(Array(es), depth)
  {
    hide Fits, ElementLines, Line, Size;
    Closed(before, [LBRACKET], ElementLines(es, 0, depth + 1), Line(depth), [RBRACKET]);
  }

  lemma Closed(a: bytes, b: bytes, c: bytes, d: bytes, e: bytes)
    ensures a + b + c + d + e == a + (b + c + d + e)
  {
  }

  /** A member on its line. */
  function MemberLine(name: bytes, v: Value, depth: nat): bytes {
    Line(depth) + Quote(name) + [SPACE, COLON, SPACE] + Layout(v, depth)
  }

  lemma MemberLineText(name: bytes, v: Value, depth: nat, before: bytes)
    ensures before + Line(depth) + Quote(name) + [SPACE, COLON, SPACE] + Layout(v, depth)
            == before + MemberLine(name, v, depth)
  {
    hide Layout, Line, Quote;
    Closed(before, Line(depth), Quote(name), [SPACE, COLON, SPACE], Layout(v, depth));
  }

  lemma MemberLinesStep(ms: seq<(bytes, Value)>, k: nat, depth: nat, before: bytes)
    requires k < |ms|
    ensures
      var line := before + MemberLine(ms[k].0, ms[k].1, depth);
      before + MemberLines(ms, k, depth)
      == if k + 1 == |ms| then line else line + [COMMA] + MemberLines(ms, k + 1, depth)
  {
    hide Layout, Line, Quote;
    var line := MemberLine(ms[k].0, ms[k].1, depth);
    if k + 1 == |ms| {
      assert line + [] == line;
    } else {
      Assoc(before, line, [COMMA] + MemberLines(ms, k + 1, depth));
      Assoc(before + line, [COMMA], MemberLines(ms, k + 1, depth));
    }
  }

  lemma ObjectClosed(ms: seq<(bytes, Value)>, depth: nat, before: bytes)
    requires ms != []
    ensures before + [LBRACE] + MemberLines(ms, 0, depth + 1) + Line(depth) + [RBRACE]
            == before + Layout(Object(ms), depth)
  {
    hide MemberLines, Line;
    Closed(before, [LBRACE], MemberLines(ms, 0, depth + 1), Line(depth), [RBRACE]);
  }

  /** Styled and fast text of a value parse to the same thing, which is the value in
      normal form exactly when all its integers are read exactly. */
  lemma StyledAgreesWithFast(v: Value, styled: bytes, fast: bytes, yaml: bool, scan: Scan)
    requires Printable(v) && Spaced(Lex(v), styled) && fast == Glue(Lex(v), yaml) + [NEWLINE]
    ensures Parse(styled, scan) == Parse(fast, scan)
    ensures Parse(styled, scan) == Some(Norm(v)) <==> ExactTree(v)
  {
    hide Lex, Spaced, Glue, Norm, ExactTree, Parse, RealFree, Wf;
    FastRoundTripIff(v, yaml, fast, scan);
    RoundTripIff(v, styled, scan);
    SpacingIrrelevant(v, styled, fast, scan);
  }
}
