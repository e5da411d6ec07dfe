/** Json::FastWriter and the printing of scalars. */
module JsonWriter {
  import opened Wrappers
  import opened Bytes
  import opened JsonValue
  import opened JsonText
  import opened JsonReader
  import opened JsonRoundTrip

  // ---------------------------------------------------------------- scalars

  /** uintToString: digits are stored downwards from `current`; the closing NUL is the
      end of the buffer. */
  method UintToString(value: nat, buffer: array<byte>) returns (current: nat)
    requires value <= 2 * (MAX_INT + 1) && buffer.Length == 32
    modifies buffer
    ensures 21 <= current <= 31 && buffer[current..31] == Decimal(value)
  {
    hide Decimal;
    DecimalStep(value);
    current := 31;
    buffer[31] := 0;
    var n: nat := value;
    current := current - 1;
    buffer[current] := 0x30 + n % 10;
    n := n / 10;
    ghost var bound: nat := 1_000_000_000;
    while n != 0
      invariant 21 <= current <= 30 && buffer.Length == 32
      invariant n < bound && Limit(bound, current)
      invariant Decimal(value) == if n == 0 then buffer[current..31] else Decimal(n) + buffer[current..31]
      decreases n
    {
      DecimalStep(n);
      ghost var was := buffer[current..31];
      current := current - 1;
      buffer[current] := 0x30 + n % 10;
      assert buffer[current..31] == [0x30 + n % 10] + was;
      if n >= 10 {
        Assoc(Decimal(n / 10), [0x30 + n % 10], was);
      }
      n := n / 10;
      bound := bound / 10;
    }
  }

  lemma DecimalStep(n: nat)
    ensures Decimal(n) == if n < 10 then [0x30 + n] else Decimal(n / 10) + [0x30 + n % 10]
  {
  }

  /** What is left of the number fits the room that is left. */
  ghost predicate Limit(bound: nat, current: nat) {
    || (bound == 1_000_000_000 && current == 30) || (bound == 100_000_000 && current == 29)
    || (bound == 10_000_000 && current == 28) || (bound == 1_000_000 && current == 27)
    || (bound == 100_000 && current == 26) || (bound == 10_000 && current == 25)
    || (bound == 1_000 && current == 24) || (bound == 100 && current == 23)
    || (bound == 10 && current == 22) || (bound == 1 && current == 21)
  }

  /** valueToString for Int and UInt; the buffer of 32 never overflows. */
  method IntegerToString(value: int) returns (text: bytes)
    requires MIN_INT <= value <= MAX_UINT
    ensures text == IntText(value)
  {
    var buffer := new byte[32];
    var current := UintToString(if value < 0 then -value else value, buffer);
    text := buffer[current..31];
    if value < 0 {
      current := current - 1;
      buffer[current] := MINUS;
      assert buffer[current..31] == [MINUS] + text;
      text := buffer[current..31];
    }
  }

  predicate IsControl(c: byte) {
    0 < c <= 0x1F
  }

  lemma {:induction false} NothingToEscape(s: bytes)
    requires forall c <- s :: EscapeLetter(c) == 0
    ensures Escape(s) == s
  {
    if s != [] {
      assert EscapeLetter(s[0]) == 0;
      assert forall c <- s[1..] :: c in s;
      NothingToEscape(s[1..]);
      assert s == [s[0]] + s[1..];
    }
  }

  /** valueToQuotedString: the shortcut for plain text and the long way agree. */
  method QuotedString(value: bytes) returns (result: bytes)
    ensures result == Quote(value)
  {
    var plain := true;
    for i := 0 to |value|
      invariant plain ==> forall k | 0 <= k < i :: EscapeLetter(value[k]) == 0
    {
      if EscapeLetter(value[i]) != 0 || IsControl(value[i]) {
        plain := false;
      }
    }
    if plain {
      NothingToEscape(value);
      return [QUOTE] + value + [QUOTE];
    }
    result := [QUOTE];
    for i := 0 to |value|
      invariant result + Escape(value[i..]) == [QUOTE] + Escape(value)
    {
      assert value[i..][0] == value[i] && value[i..][1..] == value[i + 1..];
      Assoc(result, EscapeChar(value[i]), Escape(value[i + 1..]));
      result := result + EscapeChar(value[i]);
    }
    assert value[|value|..] == [];
    result := result + [QUOTE];
  }

  // ---------------------------------------------------------- visiting trees

  /** How many arrays and objects a value holds: what recursion consumes. */
  function Weight(v: Value): nat
    decreases v
  {
    match v
    case Array(es) => 1 + ElementsWeight(es)
    case Object(ms) => 1 + MembersWeight(ms)
    case _ => 0
  }

  function ElementsWeight(es: seq<(nat, Value)>): nat
    decreases es, 0
  {
    if es == [] then 0
    else
      assert es decreases to es[0];
      Weight(es[0].1) + ElementsWeight(es[1..])
  }

  function MembersWeight(ms: seq<(bytes, Value)>): nat
    decreases ms, 0
  {
    if ms == [] then 0
    else
      assert ms decreases to ms[0];
      Weight(ms[0].1) + MembersWeight(ms[1..])
  }

  ghost predicate Printable(v: Value) {
    Wf(v) && RealFree(v)
  }

  lemma {:induction false} PrintableElementAt(es: seq<(nat, Value)>, index: nat)
    requires forall e <- es :: Printable(e.1)
    ensures Printable(ElementAt(es, index)) && Weight(ElementAt(es, index)) <= ElementsWeight(es)
  {
    if es != [] {
      assert es[0] in es && forall e <- es[1..] :: e in es;
      PrintableElementAt(es[1..], index);
    }
  }

  lemma {:induction false} PrintableMember(ms: seq<(bytes, Value)>, k: nat)
    requires k < |ms| && (forall m <- ms :: Printable(m.1)) && NamesFrom(ms)
    ensures MemberAt(ms, ms[k].0) == ms[k].1 && CString(ms[k].0)
    ensures Printable(ms[k].1) && Weight(ms[k].1) <= MembersWeight(ms)
  {
    assert ms[0] in ms && forall m <- ms[1..] :: m in ms;
    if k > 0 {
      NamesAfterAllLess(ms[1..], ms[0].0);
      assert ms[k] in ms[1..];
      StrLessIrreflexive(ms[0].0);
      PrintableMember(ms[1..], k - 1);
    }
  }

  /** The elements at `index` and behind. */
  function From(es: seq<(nat, Value)>, index: nat): seq<(nat, Value)> {
    if es != [] && es[0].0 < index then From(es[1..], index) else es
  }

  lemma {:induction false} FromFacts(es: seq<(nat, Value)>, first: nat, index: nat)
    requires IndicesFrom(es, first) && first <= index
    ensures
      var rest := From(es, index);
      && IndicesFrom(rest, index)
      && (index < Size(Array(es)) <==> rest != [])
      && ElementAt(es, index) == (if rest != [] && rest[0].0 == index then rest[0].1 else Null)
      && From(es, index + 1) == (if rest != [] && rest[0].0 == index then rest[1..] else rest)
  {
    if es != [] && es[0].0 < index {
      FromFacts(es[1..], es[0].0 + 1, index);
      if |es| > 1 {
        assert es[1..][|es| - 2] == es[|es| - 1];
      }
    } else if es != [] {
      LastIndex(es, first);
      if es[0].0 == index {
        assert IndicesFrom(es[1..], index + 1);
      } else {
        HoleAt(es, index);
      }
    }
  }

  lemma {:induction false} LastIndex(es: seq<(nat, Value)>, first: nat)
    requires IndicesFrom(es, first) && es != []
    ensures first <= es[0].0 <= es[|es| - 1].0
  {
    if |es| > 1 {
      LastIndex(es[1..], es[0].0 + 1);
    }
  }

  /** Lexemes of the elements from `index` on, holes included. */
  function Remaining(es: seq<(nat, Value)>, index: nat): seq<bytes>
    requires IndicesFrom(es, 0)
  {
    FromFacts(es, 0, index);
    LexElements(From(es, index), index)
  }

  lemma RemainingStep(es: seq<(nat, Value)>, index: nat)
    requires IndicesFrom(es, 0) && index < Size(Array(es))
    ensures Remaining(es, index)
            == Lex(ElementAt(es, index))
               + if index + 1 == Size(Array(es)) then [] else [[COMMA]] + Remaining(es, index + 1)
  {
    FromFacts(es, 0, index);
    FromFacts(es, 0, index + 1);
    var rest := From(es, index);
    if rest[0].0 == index {
      assert |rest| == 1 <==> rest[1..] == [];
    } else {
      assert [NULL_TEXT, [COMMA]] + Remaining(es, index + 1) == [NULL_TEXT] + ([[COMMA]] + Remaining(es, index + 1));
    }
  }

  lemma MembersStep(ms: seq<(bytes, Value)>, k: nat)
    requires k < |ms|
    ensures LexMembers(ms[k..])
            == [Quote(ms[k].0), [COLON]] + Lex(ms[k].1)
               + if k + 1 == |ms| then [] else [[COMMA]] + LexMembers(ms[k + 1..])
  {
    assert ms[k..][0] == ms[k] && ms[k..][1..] == ms[k + 1..];
  }

  function Names(ms: seq<(bytes, Value)>): seq<bytes> {
    seq(|ms|, i requires 0 <= i < |ms| => ms[i].0)
  }

  // ------------------------------------------------------------- the writer

  /** Lexemes without spacing, except that YAML has a space behind each colon. */
  function Glue(ls: seq<bytes>, yaml: bool): bytes {
    if ls == [] then [] else (if yaml && ls[0] == [COLON] then [COLON, SPACE] else ls[0]) + Glue(ls[1..], yaml)
  }

  lemma {:induction false} GlueConcat(a: seq<bytes>, b: seq<bytes>, yaml: bool)
    ensures Glue(a + b, yaml) == Glue(a, yaml) + Glue(b, yaml)
  {
    if a == [] {
      assert a + b == b;
    } else {
      assert (a + b)[1..] == a[1..] + b;
      GlueConcat(a[1..], b, yaml);
    }
  }

  lemma GlueOne(l: bytes, yaml: bool)
    ensures Glue([l], yaml) == if yaml && l == [COLON] then [COLON, SPACE] else l
  {
    assert [l][1..] == [];
  }

  class FastWriter {
    var document: bytes
    var yaml: bool

    constructor ()
      ensures !yaml
    {
      document, yaml := [], false;
    }

    method EnableYamlCompatibility()
      modifies this
      ensures yaml && document == old(document)
    {
      yaml := true;
    }

    method Write(root: Value) returns (text: bytes)
      requires Printable(root)
      modifies this`document
      ensures text == document == Glue(Lex(root), yaml) + [NEWLINE]
    {
      document := [];
      WriteValue(root);
      document := document + [NEWLINE];
      text := document;
    }

    method WriteValue(v: Value)
      requires Printable(v)
      modifies this`document
      ensures document == old(document) + Glue(Lex(v), yaml)
      decreases Weight(v), 2
    {
      var text: bytes;
      match v {
        case Null => text := NULL_TEXT;
        case Int(i) => text := IntegerToString(i);
        case UInt(u) => text := IntegerToString(u);
        case Real(_) => assert false;
        case Str(s) => text := QuotedString(s);
        case Bool(b) => text := if b then TRUE_TEXT else FALSE_TEXT;
        case Array(es) =>
          WriteArray(es);
          return;
        case Object(ms) =>
          WriteObject(ms);
          return;
      }
      ScalarText(v, yaml);
      document := document + text;
    }

    method WriteArray(es: seq<(nat, Value)>)
      requires Printable(Array(es))
      modifies this`document
      ensures document == old(document) + Glue(Lex(Array(es)), yaml)
      decreases Weight(Array(es)), 1
    {
      hide Glue, Lex, LexElements, Remaining, ElementAt;
      ghost var ls := [[LBRACKET]];
      GlueOne([LBRACKET], yaml);
      BehindStart(es);
      document := document + [LBRACKET];
      var size := Size(Array(es));
      for index := 0 to size
        invariant document == old(document) + Glue(ls, yaml)
        invariant ls + ElementsBehind(es, index) == [[LBRACKET]] + LexElements(es, 0)
      {
        ls := WriteElement(es, index, old(document), ls);
      }
      BracketLexemes(es, ls);
      GlueConcat(ls, [[RBRACKET]], yaml);
      GlueOne([RBRACKET], yaml);
      document := document + [RBRACKET];
    }

    method WriteElement(es: seq<(nat, Value)>, index: nat, ghost start: bytes, ghost ls: seq<bytes>)
      returns (ghost more: seq<bytes>)
      requires Printable(Array(es)) && index < Size(Array(es))
      requires document == start + Glue(ls, yaml)
      requires ls + ElementsBehind(es, index) == [[LBRACKET]] + LexElements(es, 0)
      modifies this`document
      ensures document == start + Glue(more, yaml)
      ensures more + ElementsBehind(es, index + 1) == [[LBRACKET]] + LexElements(es, 0)
      decreases Weight(Array(es)), 0
    {
      hide Glue, Lex, LexElements, Remaining, ElementAt, Size;
      PrintableElementAt(es, index);
      ElementsBehindStep(es, index, ls);
      more := WriteComma(index > 0, start, ls);
      more := WriteBehind(ElementAt(es, index), start, more);
    }

    method WriteObject(ms: seq<(bytes, Value)>)
      requires Printable(Object(ms))
      modifies this`document
      ensures document == old(document) + Glue(Lex(Object(ms)), yaml)
      decreases Weight(Object(ms)), 1
    {
      hide Glue, Lex, LexMembers, MemberAt;
      ghost var ls := [[LBRACE]];
      var members := Names(ms);
      GlueOne([LBRACE], yaml);
      MembersBehindStart(ms);
      document := document + [LBRACE];
      for k := 0 to |members|
        invariant document == old(document) + Glue(ls, yaml)
        invariant ls + MembersBehind(ms, k) == [[LBRACE]] + LexMembers(ms)
      {
        ls := WriteMember(ms, k, old(document), ls);
      }
      BraceLexemes(ms, ls);
      GlueConcat(ls, [[RBRACE]], yaml);
      GlueOne([RBRACE], yaml);
      document := document + [RBRACE];
    }

    method WriteMember(ms: seq<(bytes, Value)>, k: nat, ghost start: bytes, ghost ls: seq<bytes>)
      returns (ghost more: seq<bytes>)
      requires Printable(Object(ms)) && k < |ms|
      requires document == start + Glue(ls, yaml)
      requires ls + MembersBehind(ms, k) == [[LBRACE]] + LexMembers(ms)
      modifies this`document
      ensures document == start + Glue(more, yaml)
      ensures more + MembersBehind(ms, k + 1) == [[LBRACE]] + LexMembers(ms)
      decreases Weight(Object(ms)), 0
    {
      hide Glue, Lex, LexMembers, MemberAt;
      PrintableMember(ms, k);
      MembersBehindStep(ms, k, ls);
      more := WriteComma(k > 0, start, ls);
      more := WriteName(Names(ms)[k], start, more);
      more := WriteBehind(MemberAt(ms, Names(ms)[k]), start, more);
    }

    method WriteComma(needed: bool, ghost start: bytes, ghost ls: seq<bytes>) returns (ghost more: seq<bytes>)
      requires document == start + Glue(ls, yaml)
      modifies this`document
      ensures document == start + Glue(more, yaml) && more == ls + if needed then [[COMMA]] else []
    {
      hide Glue;
      more := ls;
      if needed {
        GlueConcat(more, [[COMMA]], yaml);
        GlueOne([COMMA], yaml);
        document := document + [COMMA];
        more := more + [[COMMA]];
      }
    }

    method WriteName(name: bytes, ghost start: bytes, ghost ls: seq<bytes>) returns (ghost more: seq<bytes>)
      requires document == start + Glue(ls, yaml)
      modifies this`document
      ensures document == start + Glue(more, yaml) && more == ls + [Quote(name), [COLON]]
    {
      hide Glue, Quote;
      var quoted := QuotedString(name);
      document := document + quoted;
      document := document + if yaml then [COLON, SPACE] else [COLON];
      GlueName(ls, quoted, yaml);
      more := ls + [quoted, [COLON]];
    }

    method WriteBehind(v: Value, ghost start: bytes, ghost ls: seq<bytes>) returns (ghost more: seq<bytes>)
      requires Printable(v) && document == start + Glue(ls, yaml)
      modifies this`document
      ensures document == start + Glue(more, yaml) && more == ls + Lex(v)
      decreases Weight(v), 3
    {
      hide Glue, Lex;
      WriteValue(v);
      GlueConcat(ls, Lex(v), yaml);
      more := ls + Lex(v);
    }
  }

  lemma ScalarText(v: Value, yaml: bool)
    requires Printable(v) && !v.Array? && !v.Object?
    ensures |Lex(v)| == 1 && Glue(Lex(v), yaml) == Lex(v)[0]
  {
    GlueOne(Lex(v)[0], yaml);
    if v.Int? {
      assert IntText(v.i)[0] != COLON;
    }
  }

  lemma GlueName(ls: seq<bytes>, name: bytes, yaml: bool)
    requires |name| > 1
    ensures Glue(ls + [name, [COLON]], yaml) == Glue(ls, yaml) + name + if yaml then [COLON, SPACE] else [COLON]
  {
    hide Glue;
    assert ls + [name, [COLON]] == ls + [name] + [[COLON]];
    GlueConcat(ls + [name], [[COLON]], yaml);
    GlueConcat(ls, [name], yaml);
    GlueOne(name, yaml);
    GlueOne([COLON], yaml);
  }

  /** What is still to be written of an array before element `index`. */
  function ElementsBehind(es: seq<(nat, Value)>, index: nat): seq<bytes>
    requires IndicesFrom(es, 0)
  {
    if index >= Size(Array(es)) then []
    else if index == 0 then Remaining(es, 0)
    else [[COMMA]] + Remaining(es, index)
  }

  function MembersBehind(ms: seq<(bytes, Value)>, k: nat): seq<bytes> {
    if k >= |ms| then [] else if k == 0 then LexMembers(ms) else [[COMMA]] + LexMembers(ms[k..])
  }

  lemma BehindStart(es: seq<(nat, Value)>)
    requires IndicesFrom(es, 0)
    ensures ElementsBehind(es, 0) == LexElements(es, 0)
  {
  }

  lemma MembersBehindStart(ms: seq<(bytes, Value)>)
    ensures MembersBehind(ms, 0) == LexMembers(ms)
  {
  }

  lemma ElementsBehindStep(es: seq<(nat, Value)>, index: nat, ls: seq<bytes>)
    requires IndicesFrom(es, 0) && index < Size(Array(es))
    ensures ls + ElementsBehind(es, index)
            == ls + (if index > 0 then [[COMMA]] else []) + Lex(ElementAt(es, index)) + ElementsBehind(es, index + 1)
  {
    hide Lex, Remaining, LexElements, ElementAt;
    RemainingStep(es, index);
  }

  lemma MembersBehindStep(ms: seq<(bytes, Value)>, k: nat, ls: seq<bytes>)
    requires k < |ms|
    ensures ls + MembersBehind(ms, k)
            == ls + (if k > 0 then [[COMMA]] else []) + [Quote(ms[k].0), [COLON]] + Lex(ms[k].1)
               + MembersBehind(ms, k + 1)
  {
    hide Lex, LexMembers, Quote;
    MembersStep(ms, k);
    var comma := if k > 0 then [[COMMA]] else [];
    assert MembersBehind(ms, k) == comma + LexMembers(ms[k..]) by {
      assert ms[0..] == ms;
    }
    Regroup(ls, comma, [Quote(ms[k].0), [COLON]], Lex(ms[k].1), MembersBehind(ms, k + 1));
  }

  lemma Regroup(a: seq<bytes>, b: seq<bytes>, c: seq<bytes>, d: seq<bytes>, e: seq<bytes>)
    ensures a + (b + (c + d + e)) == a + b + c + d + e
  {
  }

  lemma BracketLexemes(es: seq<(nat, Value)>, ls: seq<bytes>)
    requires IndicesFrom(es, 0) && ls == [[LBRACKET]] + LexElements(es, 0)
    ensures ls + [[RBRACKET]] == Lex(Array(es))
  {
  }

  lemma BraceLexemes(ms: seq<(bytes, Value)>, ls: seq<bytes>)
    requires ls == [[LBRACE]] + LexMembers(ms)
    ensures ls + [[RBRACE]] == Lex(Object(ms))
  {
  }

  // ------------------------------------------------------- what the text is

  ghost predicate Solid(ls: seq<bytes>) {
    forall l <- ls :: l != [] && !IsSpace(l[0])
  }

  lemma SolidConcat(a: seq<bytes>, b: seq<bytes>)
    requires Solid(a) && Solid(b)
    ensures Solid(a + b)
  {
  }

  lemma SolidMarks()
    ensures Solid([]) && Solid([NULL_TEXT, [COMMA]]) && Solid([[COMMA]])
  {
  }

  lemma {:induction false} LexSolid(v: Value)
    requires RealFree(v)
    ensures Solid(Lex(v))
    decreases v
  {
    match v
    case Array(es) =>
      if IndicesFrom(es, 0) {
        LexElementsSolid(es, 0);
      }
    case Object(ms) => LexMembersSolid(ms);
    case _ =>
  }

  lemma {:induction false} LexElementsSolid(es: seq<(nat, Value)>, next: nat)
    requires IndicesFrom(es, next) && forall e <- es :: RealFree(e.1)
    ensures Solid(LexElements(es, next))
    decreases es, if es == [] then 0 else es[0].0 - next
  {
    hide Solid, Lex, RealFree;
    SolidMarks();
    if es == [] {
    } else if next < es[0].0 {
      LexElementsSolid(es, next + 1);
      SolidConcat([NULL_TEXT, [COMMA]], LexElements(es, next + 1));
    } else {
      assert es[0] in es && forall e <- es[1..] :: e in es;
      assert es decreases to es[0];
      assert es[0] decreases to es[0].1;
      LexSolid(es[0].1);
      LexElementsSolid(es[1..], next + 1);
      SolidConcat([[COMMA]], LexElements(es[1..], next + 1));
      SolidConcat(Lex(es[0].1), if |es| == 1 then [] else [[COMMA]] + LexElements(es[1..], next + 1));
    }
  }

  lemma {:induction false} LexMembersSolid(ms: seq<(bytes, Value)>)
    requires forall m <- ms :: RealFree(m.1)
    ensures Solid(LexMembers(ms))
    decreases ms, 0
  {
    if ms != [] {
      assert ms[0] in ms && forall m <- ms[1..] :: m in ms;
      assert ms decreases to ms[0];
      assert ms[0] decreases to ms[0].1;
      LexSolid(ms[0].1);
      LexMembersSolid(ms[1..]);
    }
  }

  lemma SolidHead(l: bytes, rest: bytes)
    requires l != [] && !IsSpace(l[0])
    ensures SkipSpaces(l + rest) == l + rest
  {
  }

  lemma {:induction false} GlueSpaced(ls: seq<bytes>, yaml: bool, end: bytes)
    requires Solid(ls) && SkipSpaces(end) == []
    ensures Spaced(ls, Glue(ls, yaml) + end)
  {
    hide SkipSpaces, Spaced;
    if ls == [] {
      NothingSpaced(end);
      assert Glue(ls, yaml) + end == end;
    } else {
      var rest := Glue(ls[1..], yaml) + end;
      assert Solid(ls[1..]) by {
        assert forall l <- ls[1..] :: l in ls;
      }
      GlueSpaced(ls[1..], yaml, end);
      var gap := if yaml && ls[0] == [COLON] then [SPACE] else [];
      assert Glue(ls, yaml) + end == ls[0] + (gap + rest);
      if gap == [] {
        assert gap + rest == rest;
      } else {
        SpacedBehindSpace(ls[1..], rest);
      }
      assert ls[0] in ls;
      SolidHead(ls[0], gap + rest);
      SpacedCons(ls[0], ls[1..], Glue(ls, yaml) + end, gap + rest);
      assert ls == [ls[0]] + ls[1..];
    }
  }

  lemma SpacedBehindSpace(ls: seq<bytes>, s: bytes)
    requires Spaced(ls, s)
    ensures Spaced(ls, [SPACE] + s)
  {
    assert SkipSpaces([SPACE] + s) == SkipSpaces(s) by {
      assert ([SPACE] + s)[1..] == s;
    }
    hide Spaced, SkipSpaces;
    SpacedSkips(ls, s);
    SpacedSkips(ls, [SPACE] + s);
  }

  lemma NothingSpaced(s: bytes)
    ensures SkipSpaces(s) == [] <==> Spaced([], s)
  {
  }

  lemma NewlineIsSpace()
    ensures SkipSpaces([NEWLINE]) == []
  {
    assert [NEWLINE][1..] == [];
  }

  /** Parsing what FastWriter writes gives the value back, up to the normal form, exactly
      when every integer in it is read exactly; YAML spacing makes no difference. */
  lemma FastRoundTripIff(v: Value, yaml: bool, text: bytes, scan: Scan)
    requires Printable(v) && text == Glue(Lex(v), yaml) + [NEWLINE]
    ensures Parse(text, scan) == Some(Norm(v)) <==> ExactTree(v)
    ensures Spaced(Lex(v), text)
  {
    hide Lex, Spaced, Glue, Norm, ExactTree, Parse, RealFree, Wf, SkipSpaces;
    LexSolid(v);
    NewlineIsSpace();
    GlueSpaced(Lex(v), yaml, [NEWLINE]);
    RoundTripIff(v, text, scan);
  }
}
