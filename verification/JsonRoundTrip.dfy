/** Reading back what was written, with any spacing between the lexemes. */
module JsonRoundTrip {
  import opened Wrappers
  import opened Bytes
  import opened JsonValue
  import opened JsonText
  import opened JsonReader

  // ---------------------------------------------------------------- strings

  lemma {:induction false} DecodeEscape(s: bytes)
    ensures DecodeChars(Escape(s)) == Some(s)
  {
    if s != [] {
      var c := s[0];
      var e := Escape(s[1..]);
      DecodeEscape(s[1..]);
      assert s == [c] + s[1..];
      if EscapeLetter(c) != 0 {
        assert Escape(s)[2..] == e;
      } else {
        assert Escape(s)[1..] == e;
      }
    }
  }

  lemma {:induction false} ScanEscape(s: bytes, rest: bytes)
    ensures ScanString(Escape(s) + [QUOTE] + rest) == (true, |Escape(s)| + 1)
  {
    if s == [] {
      assert [] + [QUOTE] + rest == [QUOTE] + rest;
    } else {
      hide Escape, EscapeChar, ScanString;
      EscapeCons(s, rest);
      ScanEscape(s[1..], rest);
      ScanEscapeChar(s[0], Escape(s[1..]) + [QUOTE] + rest);
    }
  }

  lemma EscapeCons(s: bytes, rest: bytes)
    requires s != []
    ensures Escape(s) == EscapeChar(s[0]) + Escape(s[1..])
    ensures Escape(s) + [QUOTE] + rest == EscapeChar(s[0]) + (Escape(s[1..]) + [QUOTE] + rest)
  {
    hide EscapeChar;
  }

  /** readString passes over one written character at a time. */
  lemma ScanEscapeChar(c: byte, t: bytes)
    ensures ScanString(EscapeChar(c) + t) == (ScanString(t).0, |EscapeChar(c)| + ScanString(t).1)
  {
    assert (EscapeChar(c) + t)[|EscapeChar(c)|..] == t;
  }

  lemma StringToken(s: bytes, rest: bytes)
    ensures TokenAt(Quote(s) + rest) == Token(JsonReader.StringToken, Quote(s), rest)
    ensures DecodeString(Quote(s)) == Some(s)
  {
    var t := Quote(s) + rest;
    assert t[1..] == Escape(s) + [QUOTE] + rest;
    ScanEscape(s, rest);
    assert t[..|Quote(s)|] == Quote(s) && t[|Quote(s)|..] == rest;
    assert Quote(s)[1..|Quote(s)| - 1] == Escape(s);
    DecodeEscape(s);
  }

  lemma {:induction false} UpToNulKeeps(s: bytes)
    requires CString(s)
    ensures UpToNul(s) == s
  {
    if s != [] {
      assert s[0] in s;
      assert forall c <- s[1..] :: c in s;
      UpToNulKeeps(s[1..]);
      assert s == [s[0]] + s[1..];
    }
  }

  // ---------------------------------------------------------------- numbers

  lemma {:induction false} ScanDigits(ds: bytes, rest: bytes)
    requires forall c <- ds :: IsDigit(c)
    requires rest == [] || !IsNumberChar(rest[0])
    ensures ScanNumber(ds + rest) == |ds|
  {
    if ds == [] {
      assert ds + rest == rest;
    } else {
      assert ds[0] in ds;
      assert forall c <- ds[1..] :: c in ds;
      assert (ds + rest)[1..] == ds[1..] + rest;
      ScanDigits(ds[1..], rest);
    }
  }

  lemma IntTextDigits(i: int)
    ensures forall k :: 0 < k < |IntText(i)| ==> IsDigit(IntText(i)[k])
    ensures forall c <- IntText(i)[1..] :: IsDigit(c)
    ensures !LooksReal(IntText(i))
  {
    var text, ds := IntText(i), Decimal(if i < 0 then -i else i);
    forall k | 0 < k < |text| ensures IsDigit(text[k]) {
      assert text[k] in ds;
    }
    if i >= 0 {
      assert text[0] in ds;
    }
  }

  lemma NumberTokenText(i: int, rest: bytes)
    requires rest == [] || !IsNumberChar(rest[0])
    ensures TokenAt(IntText(i) + rest) == Token(NumberToken, IntText(i), rest)
  {
    var text := IntText(i);
    IntTextDigits(i);
    ScanDigits(text[1..], rest);
    hide IntText, ScanNumber;
    var t := text + rest;
    assert t[1..] == text[1..] + rest;
    assert t[..|text|] == text && t[|text|..] == rest;
  }

  lemma {:induction false} DecodeDigitsAppend(a: bytes, c: byte, value: nat, threshold: nat)
    requires IsDigit(c)
    ensures DecodeDigits(a + [c], value, threshold) ==
      match DecodeDigits(a, value, threshold)
      case Exact(n) => if n >= threshold then TooLarge else Exact(n * 10 + (c - 0x30))
      case TooLarge => TooLarge
      case NotANumber => NotANumber
  {
    if a == [] {
      assert a + [c] == [c] && [c][1..] == [];
    } else {
      assert (a + [c])[1..] == a[1..] + [c];
      if IsDigit(a[0]) && value < threshold {
        DecodeDigitsAppend(a[1..], c, value * 10 + (a[0] - 0x30), threshold);
      }
    }
  }

  lemma {:induction false} DecodeDecimal(n: nat, threshold: nat)
    requires threshold > 0
    ensures DecodeDigits(Decimal(n), 0, threshold) == if n / 10 < threshold then Exact(n) else TooLarge
  {
    if n < 10 {
      assert Decimal(n)[1..] == [];
    } else {
      DecodeDecimal(n / 10, threshold);
      DecodeDigitsAppend(Decimal(n / 10), 0x30 + n % 10, 0, threshold);
    }
  }

  /** The integers the reader takes as integers, before it falls back to double. */
  predicate ExactInt(i: int) {
    -2147483639 <= i <= 4294967289
  }

  /** The value an integer's text is read back as. */
  function RereadInt(i: int, scan: Scan): Option<Value> {
    if ExactInt(i) then Some(if i <= MAX_INT then Int(i) else UInt(i)) else DecodeDouble(IntText(i), scan)
  }

  lemma ThresholdExact(i: int)
    ensures (if i < 0 then -i else i) / 10 < Threshold(i < 0) <==> ExactInt(i)
  {
  }

  lemma DecodeIntText(i: int, scan: Scan)
    ensures DecodeNumber(IntText(i), scan) == RereadInt(i, scan)
  {
    var text := IntText(i);
    var n := if i < 0 then -i else i;
    IntTextDigits(i);
    ThresholdExact(i);
    DecodeDecimal(n, Threshold(i < 0));
    if i < 0 {
      assert text[1..] == Decimal(-i);
    } else {
      assert text[0] in text;
    }
    hide LooksReal, IntText, DecodeDigits, Threshold, Decimal;
  }

  // ----------------------------------------------------------------- values

  /** What the text of a value is read back as: itself, except that array holes become
      null, small unsigned integers become signed, and integers outside the exact range
      become doubles, or make the reader fail. */
  function Reread(v: Value, scan: Scan): Option<Value>
    decreases v
  {
    match v
    case Int(i) => RereadInt(i, scan)
    case UInt(u) => RereadInt(u, scan)
    case Real(_) => None
    case Array(es) =>
      if !IndicesFrom(es, 0) then None else
      (match RereadElements(es, 0, scan)
       case None => None
       case Some(vs) => Some(Array(Numbered(vs, 0))))
    case Object(ms) =>
      (match RereadMembers(ms, scan)
       case None => None
       case Some(xs) => Some(Object(xs)))
    case _ => Some(v)
  }

  function ConsOption<T>(x: T, xs: Option<seq<T>>): Option<seq<T>> {
    if xs.None? then None else Some([x] + xs.value)
  }

  /** A parser's result: the value, if any, and the text behind it. */
  function Attach<T>(r: Option<T>, rest: bytes): Option<(T, bytes)> {
    if r.None? then None else Some((r.value, rest))
  }

  function RereadElements(es: seq<(nat, Value)>, next: nat, scan: Scan): Option<seq<Value>>
    requires IndicesFrom(es, next)
    decreases es, if es == [] then 0 else es[0].0 - next
  {
    if es == [] then Some([])
    else if next < es[0].0 then ConsOption(Null, RereadElements(es, next + 1, scan))
    else
      assert es decreases to es[0];
      var v := Reread(es[0].1, scan);
      if v.None? then None else ConsOption(v.value, RereadElements(es[1..], next + 1, scan))
  }

  function RereadMembers(ms: seq<(bytes, Value)>, scan: Scan): Option<seq<(bytes, Value)>>
    decreases ms, 0
  {
    if ms == [] then Some([])
    else
      assert ms decreases to ms[0];
      var v := Reread(ms[0].1, scan);
      if v.None? then None else ConsOption((ms[0].0, v.value), RereadMembers(ms[1..], scan))
  }

  lemma {:induction false} RereadKeepsNames(ms: seq<(bytes, Value)>, last: bytes, scan: Scan)
    requires RereadMembers(ms, scan).Some?
    ensures NamesAfter(ms, last) ==> NamesAfter(RereadMembers(ms, scan).value, last)
    ensures NamesFrom(ms) ==> NamesFrom(RereadMembers(ms, scan).value)
  {
    if ms != [] {
      RereadKeepsNames(ms[1..], ms[0].0, scan);
      var xs := RereadMembers(ms, scan).value;
      assert xs[1..] == RereadMembers(ms[1..], scan).value;
    }
  }

  /** What may follow a value: nothing, or a separator or closing bracket. */
  predicate Ends(tail: seq<bytes>) {
    tail == [] || tail[0] == [COMMA] || tail[0] == [RBRACKET] || tail[0] == [RBRACE]
  }

  lemma EndsNumber(tail: seq<bytes>, rest: bytes)
    requires Ends(tail) && Spaced(tail, rest)
    ensures rest == [] || !IsNumberChar(rest[0])
  {
    if rest != [] && !IsSpace(rest[0]) {
      assert SkipSpaces(rest) == rest;
    }
  }

  function Punctuation(c: byte): Kind {
    if c == LBRACE then ObjectBegin
    else if c == RBRACE then ObjectEnd
    else if c == LBRACKET then ArrayBegin
    else if c == RBRACKET then ArrayEnd
    else if c == COMMA then ArraySeparator
    else if c == COLON then MemberSeparator
    else ErrorToken
  }

  lemma PunctuationToken(c: byte, ls: seq<bytes>, s: bytes) returns (rest: bytes)
    requires Punctuation(c) != ErrorToken && Spaced([[c]] + ls, s)
    ensures Spaced(ls, rest) && SkipSpaces(s) == [c] + rest
    ensures ReadToken(s) == Significant(s) == Token(Punctuation(c), [c], rest)
  {
    rest := SpacedUncons([[c]] + ls, s);
    assert ([[c]] + ls)[1..] == ls;
    assert ([c] + rest)[..1] == [c] && ([c] + rest)[1..] == rest;
  }

  function ScalarKind(v: Value): Kind {
    match v
    case Null => NullToken
    case Bool(b) => if b then TrueToken else FalseToken
    case Str(_) => JsonReader.StringToken
    case _ => NumberToken
  }

  lemma LiteralToken(v: Value, rest: bytes)
    requires v.Null? || v.Bool?
    ensures TokenAt(Lex(v)[0] + rest) == Token(ScalarKind(v), Lex(v)[0], rest)
  {
    var l := Lex(v)[0];
    assert (l + rest)[1..] == l[1..] + rest;
    assert (l + rest)[..|l|] == l && (l + rest)[|l|..] == rest;
  }

  /** A scalar's single lexeme. */
  lemma ScalarToken(v: Value, tail: seq<bytes>, s: bytes) returns (rest: bytes)
    requires Wf(v) && !v.Array? && !v.Object? && !v.Real?
    requires Spaced(Lex(v) + tail, s) && Ends(tail)
    ensures Spaced(tail, rest)
    ensures Significant(s) == Token(ScalarKind(v), Lex(v)[0], rest)
  {
    rest := SpacedUncons(Lex(v) + tail, s);
    assert (Lex(v) + tail)[1..] == tail;
    EndsNumber(tail, rest);
    hide TokenAt, Spaced, SkipSpaces, Quote, IntText, IsNumberChar;
    match v
    case Str(x) => StringToken(x, rest);
    case Int(i) => NumberTokenText(i, rest);
    case UInt(u) => NumberTokenText(u, rest);
    case _ => LiteralToken(v, rest);
  }

  lemma ParseScalar(v: Value, tail: seq<bytes>, s: bytes, scan: Scan) returns (rest: bytes)
    requires Wf(v) && !v.Array? && !v.Object? && !v.Real?
    requires Spaced(Lex(v) + tail, s) && Ends(tail)
    ensures Spaced(tail, rest)
    ensures ParseValue(s, scan) == Attach(Reread(v, scan), rest)
  {
    hide TokenAt, Spaced, Significant, ParseValue, DecodeNumber, DecodeString, Quote, IntText;
    rest := ScalarToken(v, tail, s);
    ScalarValue(s, scan);
    match v
    case Str(x) =>
      StringToken(x, rest);
      UpToNulKeeps(x);
    case Int(i) => DecodeIntText(i, scan);
    case UInt(u) => DecodeIntText(u, scan);
    case _ =>
  }

  /** readValue on a token that is a value by itself. */
  lemma ScalarValue(s: bytes, scan: Scan)
    ensures
      var t := Significant(s);
      && (t.kind == NumberToken ==>
            && t.text != []
            && ParseValue(s, scan)
               == if DecodeNumber(t.text, scan).None? then None
                  else Some((DecodeNumber(t.text, scan).value, t.rest)))
      && (t.kind == JsonReader.StringToken ==>
            && |t.text| >= 2
            && ParseValue(s, scan)
               == if DecodeString(t.text).None? then None
                  else Some((Str(UpToNul(DecodeString(t.text).value)), t.rest)))
      && (t.kind == TrueToken ==> ParseValue(s, scan) == Some((Bool(true), t.rest)))
      && (t.kind == FalseToken ==> ParseValue(s, scan) == Some((Bool(false), t.rest)))
      && (t.kind == NullToken ==> ParseValue(s, scan) == Some((Null, t.rest)))
  {
    hide Significant, DecodeNumber, DecodeString, UpToNul;
    SignificantText(s);
  }

  /** Where a value's text begins: with one lexeme, never a closing bracket. */
  lemma LexStart(v: Value)
    requires RealFree(v)
    ensures Lex(v) != [] && Lex(v)[0] != [] && Lex(v)[0][0] != RBRACKET
  {
    match v
    case Int(i) => IntStart(i);
    case UInt(u) => IntStart(u);
    case _ =>
  }

  lemma IntStart(i: int)
    ensures IntText(i)[0] != RBRACKET
  {
    assert IntText(i)[0] in IntText(i);
  }

  lemma ElementsStart(es: seq<(nat, Value)>, next: nat, more: seq<bytes>, s: bytes)
    requires es != [] && IndicesFrom(es, next) && (forall e <- es :: RealFree(e.1))
    requires Spaced(LexElements(es, next) + more, s)
    ensures SkipSpaces(s) != [] && SkipSpaces(s)[0] != RBRACKET
  {
    var ls := LexElements(es, next);
    assert es[0] in es;
    LexStart(es[0].1);
    assert ls != [] && ls[0] != [] && ls[0][0] != RBRACKET;
    var rest := SpacedUncons(ls + more, s);
    assert (ls[0] + rest)[0] == ls[0][0];
  }

  lemma TailEnds(c: byte, ls: seq<bytes>)
    requires c == COMMA || c == RBRACKET || c == RBRACE
    ensures Ends([[c]] + ls)
  {
  }

  /** The main lemma: the reader consumes exactly the lexemes of the value. */
  lemma {:induction false} ParseSpaced(v: Value, tail: seq<bytes>, s: bytes, scan: Scan) returns (rest: bytes)
    requires Wf(v) && RealFree(v) && Spaced(Lex(v) + tail, s) && Ends(tail)
    ensures Reread(v, scan).Some? ==> Spaced(tail, rest)
    ensures ParseValue(s, scan) == Attach(Reread(v, scan), rest)
    decreases v
  {
    match v
    case Array(es) => rest := ParseArray(es, tail, s, scan);
    case Object(ms) => rest := ParseObject(ms, tail, s, scan);
    case _ => rest := ParseScalar(v, tail, s, scan);
  }

  lemma {:induction false} ParseArray(es: seq<(nat, Value)>, tail: seq<bytes>, s: bytes, scan: Scan)
    returns (rest: bytes)
    requires Wf(Array(es)) && RealFree(Array(es)) && Spaced(Lex(Array(es)) + tail, s) && Ends(tail)
    ensures Reread(Array(es), scan).Some? ==> Spaced(tail, rest)
    ensures ParseValue(s, scan) == Attach(Reread(Array(es), scan), rest)
    decreases es, 1, 0
  {
    ArrayLexemes(es, tail);
    hide Lex, Spaced, SkipSpaces, Significant, ReadToken, ParseValue, ParseElements, Reread, LexElements,
         RereadElements;
    var close := [[RBRACKET]] + tail;
    var body := PunctuationToken(LBRACKET, LexElements(es, 0) + close, s);
    if es == [] {
      EmptyElements();
      assert [] + close == close;
      rest := PunctuationToken(RBRACKET, tail, body);
      EmptyArrayValue(s, body, rest, scan);
    } else {
      ElementsStart(es, 0, close, body);
      rest := ParseElementsSpaced(es, 0, tail, body, scan);
      ArrayValue(es, s, body, rest, scan);
    }
  }

  lemma ArrayLexemes(es: seq<(nat, Value)>, tail: seq<bytes>)
    requires Wf(Array(es)) && RealFree(Array(es))
    ensures IndicesFrom(es, 0) && ElementsOk(es)
    ensures Lex(Array(es)) + tail == [[LBRACKET]] + (LexElements(es, 0) + ([[RBRACKET]] + tail))
  {
    hide LexElements;
    var inner := LexElements(es, 0);
    assert [[LBRACKET]] + inner + [[RBRACKET]] + tail == [[LBRACKET]] + (inner + ([[RBRACKET]] + tail));
  }

  lemma EmptyArrayValue(s: bytes, body: bytes, rest: bytes, scan: Scan)
    requires Significant(s) == Token(ArrayBegin, [LBRACKET], body) && SkipSpaces(body) == [RBRACKET] + rest
    ensures ParseValue(s, scan) == Attach(Reread(Array([]), scan), rest)
  {
    hide Significant, SkipSpaces;
    EmptyElements();
    assert ([RBRACKET] + rest)[1..] == rest;
  }

  /** What readValue makes of the elements that readArray has read. */
  lemma ArrayValue(es: seq<(nat, Value)>, s: bytes, body: bytes, rest: bytes, scan: Scan)
    requires IndicesFrom(es, 0)
    requires Significant(s) == Token(ArrayBegin, [LBRACKET], body)
    requires SkipSpaces(body) != [] && SkipSpaces(body)[0] != RBRACKET
    requires ParseElements(body, scan) == Attach(RereadElements(es, 0, scan), rest)
    ensures ParseValue(s, scan) == Attach(Reread(Array(es), scan), rest)
    ensures Reread(Array(es), scan).Some? ==> RereadElements(es, 0, scan).Some?
  {
    hide Significant, SkipSpaces, ParseElements, RereadElements;
  }

  lemma EmptyElements()
    ensures LexElements([], 0) == [] && forall scan: Scan :: RereadElements([], 0, scan) == Some([])
  {
  }

  function ConsElement(v: Value, r: Option<(seq<Value>, bytes)>): Option<(seq<Value>, bytes)> {
    if r.None? then None else Some(([v] + r.value.0, r.value.1))
  }

  /** One turn of the loop in readArray. */
  lemma ElementsStep(s: bytes, v: Value, after: bytes, t: Token, scan: Scan)
    requires ParseValue(s, scan) == Some((v, after)) && t == Significant(after)
    ensures t.kind == ArrayEnd ==> ParseElements(s, scan) == Some(([v], t.rest))
    ensures t.kind != ArrayEnd ==> ParseElements(s, scan) == ConsElement(v, ParseElements(t.rest, scan))
  {
    hide ParseValue, Significant;
  }

  lemma ElementsCombine(s: bytes, v: Value, vs: Option<seq<Value>>, follow: bytes, rest: bytes, scan: Scan)
    requires ParseElements(s, scan) == ConsElement(v, ParseElements(follow, scan))
    requires ParseElements(follow, scan) == Attach(vs, rest)
    ensures ParseElements(s, scan) == Attach(ConsOption(v, vs), rest)
  {
    hide ParseElements;
  }

  lemma ElementsFail(s: bytes, scan: Scan)
    requires ParseValue(s, scan).None?
    ensures ParseElements(s, scan).None?
  {
    hide ParseValue, Significant;
  }

  lemma RereadHole(es: seq<(nat, Value)>, next: nat, scan: Scan)
    requires es != [] && IndicesFrom(es, next) && next < es[0].0
    ensures RereadElements(es, next, scan) == ConsOption(Null, RereadElements(es, next + 1, scan))
    ensures LexElements(es, next) == [NULL_TEXT, [COMMA]] + LexElements(es, next + 1)
  {
  }

  /** A value at the head of the elements, behind which a comma or the bracket follows. */
  lemma RereadHead(es: seq<(nat, Value)>, next: nat, scan: Scan)
    requires es != [] && IndicesFrom(es, next) && next == es[0].0
    ensures Reread(es[0].1, scan).None? ==> RereadElements(es, next, scan).None?
    ensures Reread(es[0].1, scan).Some? ==>
      RereadElements(es, next, scan) == ConsOption(Reread(es[0].1, scan).value, RereadElements(es[1..], next + 1, scan))
    ensures |es| == 1 ==> es[1..] == []
  {
    hide Reread;
  }

  /** The lexemes behind the first element. */
  function MoreElements(es: seq<(nat, Value)>, next: nat, close: seq<bytes>): seq<bytes>
    requires es != [] && IndicesFrom(es, next) && next == es[0].0
  {
    if |es| == 1 then close else [[COMMA]] + (LexElements(es[1..], next + 1) + close)
  }

  lemma ElementLexemes(es: seq<(nat, Value)>, next: nat, close: seq<bytes>)
    requires es != [] && IndicesFrom(es, next) && next == es[0].0
    ensures LexElements(es, next) + close == Lex(es[0].1) + MoreElements(es, next, close)
  {
    hide Lex;
    var v, more := Lex(es[0].1), LexElements(es[1..], next + 1);
    if |es| == 1 {
      assert v + [] == v;
    } else {
      Assoc(v, [[COMMA]] + more, close);
      Assoc([[COMMA]], more, close);
    }
  }

  lemma MoreElementsEnds(es: seq<(nat, Value)>, next: nat, tail: seq<bytes>)
    requires es != [] && IndicesFrom(es, next) && next == es[0].0
    ensures Ends(MoreElements(es, next, [[RBRACKET]] + tail))
    ensures |es| == 1 ==> MoreElements(es, next, [[RBRACKET]] + tail) == [[RBRACKET]] + tail
    ensures |es| > 1 ==>
      MoreElements(es, next, [[RBRACKET]] + tail)
      == [[COMMA]] + (LexElements(es[1..], next + 1) + ([[RBRACKET]] + tail))
  {
  }

  ghost predicate ElementsOk(es: seq<(nat, Value)>) {
    forall e <- es :: Wf(e.1) && RealFree(e.1)
  }

  lemma ElementsOkSplit(es: seq<(nat, Value)>)
    requires ElementsOk(es) && es != []
    ensures Wf(es[0].1) && RealFree(es[0].1) && ElementsOk(es[1..])
  {
    assert es[0] in es;
    assert forall e <- es[1..] :: e in es;
  }

  lemma LastElement(es: seq<(nat, Value)>, next: nat, s: bytes, after: bytes, rest: bytes, scan: Scan)
    requires |es| == 1 && IndicesFrom(es, next) && next == es[0].0
    requires Reread(es[0].1, scan).Some? && ParseValue(s, scan) == Attach(Reread(es[0].1, scan), after)
    requires Significant(after) == Token(ArrayEnd, [RBRACKET], rest)
    ensures ParseElements(s, scan) == Attach(RereadElements(es, next, scan), rest)
  {
    RereadHead(es, next, scan);
    EmptyElements();
    hide Reread, RereadElements, ParseElements, ParseValue, Significant;
    var w := Reread(es[0].1, scan).value;
    ElementsStep(s, w, after, Significant(after), scan);
    assert [w] + [] == [w];
  }

  lemma AnotherElement(es: seq<(nat, Value)>, next: nat, s: bytes, after: bytes, follow: bytes, rest: bytes, scan: Scan)
    requires |es| > 1 && IndicesFrom(es, next) && next == es[0].0
    requires Reread(es[0].1, scan).Some? && ParseValue(s, scan) == Attach(Reread(es[0].1, scan), after)
    requires Significant(after) == Token(ArraySeparator, [COMMA], follow)
    requires ParseElements(follow, scan) == Attach(RereadElements(es[1..], next + 1, scan), rest)
    ensures ParseElements(s, scan) == Attach(RereadElements(es, next, scan), rest)
    ensures RereadElements(es, next, scan).Some? ==> RereadElements(es[1..], next + 1, scan).Some?
  {
    RereadHead(es, next, scan);
    hide Reread, RereadElements, ParseElements, ParseValue, Significant;
    var w := Reread(es[0].1, scan).value;
    ElementsStep(s, w, after, Significant(after), scan);
    ElementsCombine(s, w, RereadElements(es[1..], next + 1, scan), follow, rest, scan);
  }

  lemma HoleLexemes(more: seq<bytes>, close: seq<bytes>)
    ensures [NULL_TEXT, [COMMA]] + more + close == Lex(Null) + ([[COMMA]] + (more + close))
  {
  }

  lemma {:induction false} ParseElementsSpaced(es: seq<(nat, Value)>, next: nat, tail: seq<bytes>, s: bytes, scan: Scan)
    returns (rest: bytes)
    requires es != [] && IndicesFrom(es, next) && ElementsOk(es)
    requires Spaced(LexElements(es, next) + ([[RBRACKET]] + tail), s)
    ensures RereadElements(es, next, scan).Some? ==> Spaced(tail, rest)
    ensures ParseElements(s, scan) == Attach(RereadElements(es, next, scan), rest)
    decreases es, 0, es[0].0 - next
  {
    hide Lex, Spaced, SkipSpaces, Significant, ReadToken, ParseValue, ParseElements, Reread, RereadElements,
         LexElements, Wf, RealFree, ElementsOk, MoreElements, ConsOption, Ends;
    var close := [[RBRACKET]] + tail;
    rest := [];
    if next < es[0].0 {
      RereadHole(es, next, scan);
      var more := LexElements(es, next + 1);
      HoleLexemes(more, close);
      var follow;
      rest, follow := NullThenComma(more + close, s, scan);
      rest := ParseElementsSpaced(es, next + 1, tail, follow, scan);
      ElementsCombine(s, Null, RereadElements(es, next + 1, scan), follow, rest, scan);
    } else {
      assert es decreases to es[0];
      assert es[0] decreases to es[0].1;
      ElementsOkSplit(es);
      var v := es[0].1;
      RereadHead(es, next, scan);
      var more := MoreElements(es, next, close);
      ElementLexemes(es, next, close);
      MoreElementsEnds(es, next, tail);
      var after := ParseSpaced(v, more, s, scan);
      if Reread(v, scan).None? {
        ElementsFail(s, scan);
      } else if |es| == 1 {
        rest := PunctuationToken(RBRACKET, tail, after);
        LastElement(es, next, s, after, rest, scan);
      } else {
        var follow := PunctuationToken(COMMA, LexElements(es[1..], next + 1) + close, after);
        rest := ParseElementsSpaced(es[1..], next + 1, tail, follow, scan);
        AnotherElement(es, next, s, after, follow, rest, scan);
      }
    }
  }

  lemma NullThenComma(more: seq<bytes>, s: bytes, scan: Scan) returns (after: bytes, follow: bytes)
    requires Spaced(Lex(Null) + ([[COMMA]] + more), s)
    ensures Spaced(more, follow)
    ensures ParseElements(s, scan) == ConsElement(Null, ParseElements(follow, scan))
  {
    TailEnds(COMMA, more);
    after := ParseScalar(Null, [[COMMA]] + more, s, scan);
    hide Spaced, SkipSpaces, Significant, ReadToken, ParseValue, ParseElements;
    follow := PunctuationToken(COMMA, more, after);
    ElementsStep(s, Null, after, Significant(after), scan);
  }

  function ConsMember(name: bytes, v: Value, r: Option<(seq<(bytes, Value)>, bytes)>)
    : Option<(seq<(bytes, Value)>, bytes)>
  {
    if r.None? then None else Some(([(name, v)] + r.value.0, r.value.1))
  }

  /** A name and a colon are at the head of the members. */
  ghost predicate MemberHead(s: bytes, name: bytes, afterName: bytes, afterColon: bytes) {
    && Significant(s) == Token(JsonReader.StringToken, Quote(name), afterName)
    && DecodeString(Quote(name)) == Some(name) && UpToNul(name) == name
    && ReadToken(afterName) == Token(MemberSeparator, [COLON], afterColon)
  }

  lemma MembersFail(s: bytes, last: bytes, name: bytes, afterName: bytes, afterColon: bytes, scan: Scan)
    requires MemberHead(s, name, afterName, afterColon) && ParseValue(afterColon, scan).None?
    ensures ParseMembers(s, last, scan).None?
  {
    hide ParseValue, Significant, ReadToken, DecodeString, Quote;
  }

  lemma MembersLast(s: bytes, last: bytes, name: bytes, afterName: bytes, afterColon: bytes,
                    v: Value, after: bytes, rest: bytes, scan: Scan)
    requires MemberHead(s, name, afterName, afterColon) && ParseValue(afterColon, scan) == Some((v, after))
    requires ReadToken(after) == Significant(after) == Token(ObjectEnd, [RBRACE], rest)
    ensures ParseMembers(s, last, scan) == Some(([(name, v)], rest))
  {
    hide ParseValue, Significant, ReadToken, DecodeString, Quote;
  }

  lemma MembersMore(s: bytes, last: bytes, name: bytes, afterName: bytes, afterColon: bytes,
                    v: Value, after: bytes, rest: bytes, scan: Scan)
    requires MemberHead(s, name, afterName, afterColon) && ParseValue(afterColon, scan) == Some((v, after))
    requires ReadToken(after) == Significant(after) == Token(ArraySeparator, [COMMA], rest)
    ensures ParseMembers(s, last, scan) == ConsMember(name, v, ParseMembers(rest, name, scan))
  {
    hide ParseValue, Significant, ReadToken, DecodeString, Quote;
  }

  lemma HeadOfMembers(name: bytes, more: seq<bytes>, s: bytes) returns (afterName: bytes, afterColon: bytes)
    requires CString(name) && Spaced([Quote(name)] + ([[COLON]] + more), s)
    ensures MemberHead(s, name, afterName, afterColon) && Spaced(more, afterColon)
  {
    hide Spaced, SkipSpaces, Significant, ReadToken, DecodeString, Quote;
    UpToNulKeeps(name);
    afterName := NameToken(name, [[COLON]] + more, s);
    afterColon := PunctuationToken(COLON, more, afterName);
  }

  lemma MembersCombine(s: bytes, last: bytes, name: bytes, v: Value, xs: Option<seq<(bytes, Value)>>,
                       follow: bytes, rest: bytes, scan: Scan)
    requires ParseMembers(s, last, scan) == ConsMember(name, v, ParseMembers(follow, name, scan))
    requires ParseMembers(follow, name, scan) == Attach(xs, rest)
    ensures ParseMembers(s, last, scan) == Attach(ConsOption((name, v), xs), rest)
  {
    hide ParseMembers;
  }

  lemma RereadMembersHead(ms: seq<(bytes, Value)>, scan: Scan)
    requires ms != []
    ensures Reread(ms[0].1, scan).None? ==> RereadMembers(ms, scan).None?
    ensures Reread(ms[0].1, scan).Some? ==>
      RereadMembers(ms, scan) == ConsOption((ms[0].0, Reread(ms[0].1, scan).value), RereadMembers(ms[1..], scan))
    ensures |ms| == 1 ==> ms[1..] == []
  {
    hide Reread;
  }

  lemma {:induction false} NamesAreCStrings(ms: seq<(bytes, Value)>)
    ensures NamesFrom(ms) ==> forall m <- ms :: CString(m.0)
  {
    if NamesFrom(ms) && ms != [] {
      assert NamesFrom(ms[1..]);
      NamesAreCStrings(ms[1..]);
      assert forall m <- ms :: m == ms[0] || m in ms[1..];
    }
  }

  lemma {:induction false} ParseObject(ms: seq<(bytes, Value)>, tail: seq<bytes>, s: bytes, scan: Scan)
    returns (rest: bytes)
    requires Wf(Object(ms)) && RealFree(Object(ms)) && Spaced(Lex(Object(ms)) + tail, s) && Ends(tail)
    ensures Reread(Object(ms), scan).Some? ==> Spaced(tail, rest)
    ensures ParseValue(s, scan) == Attach(Reread(Object(ms), scan), rest)
    decreases ms, 1
  {
    ObjectLexemes(ms, tail);
    hide Lex, Spaced, SkipSpaces, Significant, ReadToken, ParseValue, ParseMembers, Reread, LexMembers,
         RereadMembers, NamesFrom;
    var close := [[RBRACE]] + tail;
    var body := PunctuationToken(LBRACE, LexMembers(ms) + close, s);
    if ms == [] {
      RereadEmptyObject(scan);
      assert [] + close == close;
      rest := PunctuationToken(RBRACE, tail, body);
      EmptyMembers(body, rest, scan);
    } else {
      rest := ParseMembersSpaced(ms, [], tail, body, scan);
    }
    RereadInOrder(ms, scan);
    ObjectValue(ms, s, body, rest, scan);
  }

  lemma ObjectLexemes(ms: seq<(bytes, Value)>, tail: seq<bytes>)
    requires Wf(Object(ms)) && RealFree(Object(ms))
    ensures NamesFrom(ms) && MembersOk(ms)
    ensures Lex(Object(ms)) + tail == [[LBRACE]] + (LexMembers(ms) + ([[RBRACE]] + tail))
  {
    hide LexMembers;
    NamesAreCStrings(ms);
    var inner := LexMembers(ms);
    assert [[LBRACE]] + inner + [[RBRACE]] + tail == [[LBRACE]] + (inner + ([[RBRACE]] + tail));
  }

  lemma EmptyMembers(body: bytes, rest: bytes, scan: Scan)
    requires Significant(body) == Token(ObjectEnd, [RBRACE], rest)
    ensures ParseMembers(body, [], scan) == Some(([], rest))
  {
    hide Significant;
  }

  /** Members that were stored in order come back in order, so nothing moves. */
  lemma RereadInOrder(ms: seq<(bytes, Value)>, scan: Scan)
    requires NamesFrom(ms)
    ensures RereadMembers(ms, scan).Some? ==>
      PutAll([], RereadMembers(ms, scan).value) == RereadMembers(ms, scan).value
  {
    if RereadMembers(ms, scan).Some? {
      var xs := RereadMembers(ms, scan).value;
      RereadKeepsNames(ms, [], scan);
      PutAllSorted([], xs);
      assert [] + xs == xs;
    }
  }

  lemma ObjectValue(ms: seq<(bytes, Value)>, s: bytes, body: bytes, rest: bytes, scan: Scan)
    requires Significant(s) == Token(ObjectBegin, [LBRACE], body)
    requires ParseMembers(body, [], scan) == Attach(RereadMembers(ms, scan), rest)
    requires RereadMembers(ms, scan).Some? ==>
      PutAll([], RereadMembers(ms, scan).value) == RereadMembers(ms, scan).value
    ensures ParseValue(s, scan) == Attach(Reread(Object(ms), scan), rest)
    ensures Reread(Object(ms), scan).Some? ==> RereadMembers(ms, scan).Some?
  {
    hide Significant, ParseMembers, RereadMembers, PutAll;
  }

  lemma RereadEmptyObject(scan: Scan)
    ensures LexMembers([]) == [] && RereadMembers([], scan) == Some([])
  {
  }

  /** The lexemes behind the first member. */
  function MoreMembers(ms: seq<(bytes, Value)>, close: seq<bytes>): seq<bytes>
    requires ms != []
  {
    if |ms| == 1 then close else [[COMMA]] + (LexMembers(ms[1..]) + close)
  }

  lemma MemberLexemes(ms: seq<(bytes, Value)>, close: seq<bytes>)
    requires ms != []
    ensures LexMembers(ms) + close
            == [Quote(ms[0].0)] + ([[COLON]] + (Lex(ms[0].1) + MoreMembers(ms, close)))
  {
    hide Lex, Quote;
    var head, v := [Quote(ms[0].0), [COLON]], Lex(ms[0].1);
    var more := if |ms| == 1 then [] else [[COMMA]] + LexMembers(ms[1..]);
    assert LexMembers(ms) == head + v + more;
    Assoc(head + v, more, close);
    Assoc(head, v, more + close);
    if |ms| == 1 {
      assert more + close == close;
    } else {
      Assoc([[COMMA]], LexMembers(ms[1..]), close);
    }
    assert head == [Quote(ms[0].0)] + [[COLON]];
    Assoc([Quote(ms[0].0)], [[COLON]], v + MoreMembers(ms, close));
  }

  lemma MoreMembersEnds(ms: seq<(bytes, Value)>, tail: seq<bytes>)
    requires ms != []
    ensures Ends(MoreMembers(ms, [[RBRACE]] + tail))
    ensures |ms| == 1 ==> MoreMembers(ms, [[RBRACE]] + tail) == [[RBRACE]] + tail
    ensures |ms| > 1 ==>
      MoreMembers(ms, [[RBRACE]] + tail) == [[COMMA]] + (LexMembers(ms[1..]) + ([[RBRACE]] + tail))
  {
  }

  ghost predicate MembersOk(ms: seq<(bytes, Value)>) {
    forall m <- ms :: CString(m.0) && Wf(m.1) && RealFree(m.1)
  }

  lemma MembersOkSplit(ms: seq<(bytes, Value)>)
    requires MembersOk(ms) && ms != []
    ensures CString(ms[0].0) && Wf(ms[0].1) && RealFree(ms[0].1) && MembersOk(ms[1..])
  {
    assert ms[0] in ms;
    assert forall m <- ms[1..] :: m in ms;
  }

  lemma {:induction false} ParseMembersSpaced(ms: seq<(bytes, Value)>, last: bytes, tail: seq<bytes>, s: bytes,
                                              scan: Scan)
    returns (rest: bytes)
    requires ms != [] && MembersOk(ms)
    requires Spaced(LexMembers(ms) + ([[RBRACE]] + tail), s)
    ensures RereadMembers(ms, scan).Some? ==> Spaced(tail, rest)
    ensures ParseMembers(s, last, scan) == Attach(RereadMembers(ms, scan), rest)
    decreases ms, 0
  {
    hide Lex, Spaced, SkipSpaces, Significant, ReadToken, ParseValue, ParseMembers, LexMembers, Reread, RereadMembers,
         Wf, RealFree, CString, Quote, DecodeString, MemberHead, MembersOk, MoreMembers, ConsOption, Ends;
    assert ms decreases to ms[0];
    assert ms[0] decreases to ms[0].1;
    var (name, v) := ms[0];
    MembersOkSplit(ms);
    RereadMembersHead(ms, scan);
    var more := MoreMembers(ms, [[RBRACE]] + tail);
    MemberLexemes(ms, [[RBRACE]] + tail);
    MoreMembersEnds(ms, tail);
    rest := [];
    var afterName, afterColon := HeadOfMembers(name, Lex(v) + more, s);
    var after := ParseSpaced(v, more, afterColon, scan);
    if Reread(v, scan).None? {
      MembersFail(s, last, name, afterName, afterColon, scan);
    } else if |ms| == 1 {
      rest := PunctuationToken(RBRACE, tail, after);
      LastMember(ms, s, last, afterName, afterColon, after, rest, scan);
    } else {
      var follow := PunctuationToken(COMMA, LexMembers(ms[1..]) + ([[RBRACE]] + tail), after);
      rest := ParseMembersSpaced(ms[1..], name, tail, follow, scan);
      AnotherMember(ms, s, last, afterName, afterColon, after, follow, rest, scan);
    }
  }

  lemma LastMember(ms: seq<(bytes, Value)>, s: bytes, last: bytes, afterName: bytes, afterColon: bytes,
                   after: bytes, rest: bytes, scan: Scan)
    requires |ms| == 1 && MemberHead(s, ms[0].0, afterName, afterColon)
    requires Reread(ms[0].1, scan).Some? && ParseValue(afterColon, scan) == Attach(Reread(ms[0].1, scan), after)
    requires ReadToken(after) == Significant(after) == Token(ObjectEnd, [RBRACE], rest)
    ensures ParseMembers(s, last, scan) == Attach(RereadMembers(ms, scan), rest)
  {
    RereadMembersHead(ms, scan);
    RereadEmptyObject(scan);
    hide Reread, RereadMembers, ParseMembers, ParseValue, MemberHead, ReadToken, Significant;
    var w := Reread(ms[0].1, scan).value;
    MembersLast(s, last, ms[0].0, afterName, afterColon, w, after, rest, scan);
    assert [(ms[0].0, w)] + [] == [(ms[0].0, w)];
  }

  lemma AnotherMember(ms: seq<(bytes, Value)>, s: bytes, last: bytes, afterName: bytes, afterColon: bytes,
                      after: bytes, follow: bytes, rest: bytes, scan: Scan)
    requires |ms| > 1 && MemberHead(s, ms[0].0, afterName, afterColon)
    requires Reread(ms[0].1, scan).Some? && ParseValue(afterColon, scan) == Attach(Reread(ms[0].1, scan), after)
    requires ReadToken(after) == Significant(after) == Token(ArraySeparator, [COMMA], follow)
    requires ParseMembers(follow, ms[0].0, scan) == Attach(RereadMembers(ms[1..], scan), rest)
    ensures ParseMembers(s, last, scan) == Attach(RereadMembers(ms, scan), rest)
    ensures RereadMembers(ms, scan).Some? ==> RereadMembers(ms[1..], scan).Some?
  {
    RereadMembersHead(ms, scan);
    hide Reread, RereadMembers, ParseMembers, ParseValue, MemberHead, ReadToken, Significant;
    var w := Reread(ms[0].1, scan).value;
    MembersMore(s, last, ms[0].0, afterName, afterColon, w, after, follow, scan);
    MembersCombine(s, last, ms[0].0, w, RereadMembers(ms[1..], scan), follow, rest, scan);
  }

  lemma NameToken(name: bytes, ls: seq<bytes>, s: bytes) returns (rest: bytes)
    requires Spaced([Quote(name)] + ls, s)
    ensures Spaced(ls, rest) && Significant(s) == Token(JsonReader.StringToken, Quote(name), rest)
    ensures DecodeString(Quote(name)) == Some(name)
  {
    rest := SpacedUncons([Quote(name)] + ls, s);
    assert ([Quote(name)] + ls)[1..] == ls;
    StringToken(name, rest);
  }

  // ------------------------------------------------------------- whole texts

  /** The value that the text of `v` denotes: array holes are null, and an unsigned
      integer that fits becomes a signed one. */
  function Norm(v: Value): Value
    decreases v
  {
    match v
    case UInt(u) => if u <= MAX_INT then Int(u) else UInt(u)
    case Array(es) => if IndicesFrom(es, 0) then Array(Numbered(NormElements(es, 0), 0)) else v
    case Object(ms) => Object(NormMembers(ms))
    case _ => v
  }

  function NormElements(es: seq<(nat, Value)>, next: nat): seq<Value>
    requires IndicesFrom(es, next)
    decreases es, if es == [] then 0 else es[0].0 - next
  {
    if es == [] then []
    else if next < es[0].0 then [Null] + NormElements(es, next + 1)
    else
      assert es decreases to es[0];
      [Norm(es[0].1)] + NormElements(es[1..], next + 1)
  }

  function NormMembers(ms: seq<(bytes, Value)>): seq<(bytes, Value)>
    decreases ms, 0
  {
    if ms == [] then []
    else
      assert ms decreases to ms[0];
      [(ms[0].0, Norm(ms[0].1))] + NormMembers(ms[1..])
  }

  /** All integers lie in the range the reader takes as integers. */
  ghost predicate ExactTree(v: Value)
    decreases v
  {
    match v
    case Int(i) => ExactInt(i)
    case UInt(u) => ExactInt(u)
    case Array(es) => ExactElements(es)
    case Object(ms) => ExactMembers(ms)
    case _ => true
  }

  ghost predicate ExactElements(es: seq<(nat, Value)>)
    decreases es, 0
  {
    es != [] ==> (assert es decreases to es[0]; ExactTree(es[0].1)) && ExactElements(es[1..])
  }

  ghost predicate ExactMembers(ms: seq<(bytes, Value)>)
    decreases ms, 0
  {
    ms != [] ==> (assert ms decreases to ms[0]; ExactTree(ms[0].1)) && ExactMembers(ms[1..])
  }

  lemma {:induction false} NumberedInjective(vs: seq<Value>, ws: seq<Value>, next: nat)
    requires Numbered(vs, next) == Numbered(ws, next)
    ensures vs == ws
  {
    if vs != [] && ws != [] {
      assert Numbered(vs, next)[0] == Numbered(ws, next)[0];
      assert Numbered(vs, next)[1..] == Numbered(ws, next)[1..];
      NumberedInjective(vs[1..], ws[1..], next + 1);
      assert vs == [vs[0]] + vs[1..] && ws == [ws[0]] + ws[1..];
    }
  }

  lemma {:induction false} RereadNorm(v: Value, scan: Scan)
    requires Wf(v) && RealFree(v)
    ensures Reread(v, scan) == Some(Norm(v)) <==> ExactTree(v)
    decreases v
  {
    match v
    case Array(es) =>
      RereadNormElements(es, 0, scan);
      if Reread(v, scan) == Some(Norm(v)) {
        NumberedInjective(RereadElements(es, 0, scan).value, NormElements(es, 0), 0);
      }
    case Object(ms) =>
      assert forall m <- ms :: Wf(m.1) && RealFree(m.1);
      RereadNormMembers(ms, scan);
    case _ =>
  }

  lemma {:induction false} RereadNormElements(es: seq<(nat, Value)>, next: nat, scan: Scan)
    requires IndicesFrom(es, next) && ElementsOk(es)
    ensures RereadElements(es, next, scan) == Some(NormElements(es, next)) <==> ExactElements(es)
    decreases es, if es == [] then 0 else es[0].0 - next
  {
    hide Wf, RealFree, ElementsOk, Reread, Norm, ExactTree;
    if es != [] {
      if next < es[0].0 {
        RereadNormElements(es, next + 1, scan);
        ConsOptionSame(Null, RereadElements(es, next + 1, scan), Null, NormElements(es, next + 1));
      } else {
        assert es decreases to es[0];
        ElementsOkSplit(es);
        RereadNorm(es[0].1, scan);
        RereadNormElements(es[1..], next + 1, scan);
        if Reread(es[0].1, scan).Some? {
          ConsOptionSame(Reread(es[0].1, scan).value, RereadElements(es[1..], next + 1, scan),
                         Norm(es[0].1), NormElements(es[1..], next + 1));
        }
      }
    }
  }

  lemma ConsOptionSame<T>(x: T, xs: Option<seq<T>>, y: T, ys: seq<T>)
    ensures ConsOption(x, xs) == Some([y] + ys) <==> x == y && xs == Some(ys)
  {
    if ConsOption(x, xs) == Some([y] + ys) {
      assert ([x] + xs.value)[0] == ([y] + ys)[0];
      assert ([x] + xs.value)[1..] == xs.value && ([y] + ys)[1..] == ys;
    }
  }

  lemma {:induction false} RereadNormMembers(ms: seq<(bytes, Value)>, scan: Scan)
    requires forall m <- ms :: Wf(m.1) && RealFree(m.1)
    ensures RereadMembers(ms, scan) == Some(NormMembers(ms)) <==> ExactMembers(ms)
    decreases ms, 0
  {
    hide Wf, RealFree, Reread, Norm, ExactTree;
    if ms != [] {
      assert ms decreases to ms[0];
      assert ms[0] in ms;
      assert forall m <- ms[1..] :: m in ms;
      RereadNorm(ms[0].1, scan);
      RereadNormMembers(ms[1..], scan);
      if Reread(ms[0].1, scan).Some? {
        ConsOptionSame((ms[0].0, Reread(ms[0].1, scan).value), RereadMembers(ms[1..], scan),
                       (ms[0].0, Norm(ms[0].1)), NormMembers(ms[1..]));
      }
    }
  }

  /** Parsing any spacing of a value's lexemes gives the value back, up to array holes
      and the signedness of small integers, exactly when its integers are in range. */
  lemma RoundTripIff(v: Value, s: bytes, scan: Scan)
    requires Wf(v) && RealFree(v) && Spaced(Lex(v), s)
    ensures Parse(s, scan) == Some(Norm(v)) <==> ExactTree(v)
  {
    hide Wf, RealFree, Spaced, Lex, Norm, ExactTree, ParseValue, Reread;
    assert Lex(v) + [] == Lex(v);
    var rest := ParseSpaced(v, [], s, scan);
    RereadNorm(v, scan);
  }

  /** What the reader makes of a text depends only on its lexemes. */
  lemma SpacingIrrelevant(v: Value, s: bytes, t: bytes, scan: Scan)
    requires Wf(v) && RealFree(v) && Spaced(Lex(v), s) && Spaced(Lex(v), t)
    ensures Parse(s, scan) == Parse(t, scan) == Reread(v, scan)
  {
    hide Wf, RealFree, Spaced, Lex, ParseValue, Reread;
    assert Lex(v) + [] == Lex(v);
    var rest := ParseSpaced(v, [], s, scan);
    var rest' := ParseSpaced(v, [], t, scan);
  }

  /** Norm keeps every element and every member, holes included. */
  lemma {:induction false} NormElementAt(es: seq<(nat, Value)>, next: nat, index: nat)
    requires IndicesFrom(es, next) && next <= index
    ensures ElementAt(Numbered(NormElements(es, next), next), index) == Norm(ElementAt(es, index))
    ensures Size(Array(Numbered(NormElements(es, next), next))) == if es == [] then 0 else Size(Array(es))
    decreases |es|, if es == [] then 0 else es[0].0 - next
  {
    hide Norm;
    var xs := Numbered(NormElements(es, next), next);
    NormNull();
    if es != [] {
      if next < es[0].0 {
        var more := Numbered(NormElements(es, next + 1), next + 1);
        assert NormElements(es, next)[1..] == NormElements(es, next + 1);
        assert xs == [(next, Null)] + more && xs[1..] == more;
        NormElementAt(es, next + 1, if index == next then next + 1 else index);
        if index == next {
          HoleAt(es, next);
        }
      } else {
        var more := Numbered(NormElements(es[1..], next + 1), next + 1);
        assert NormElements(es, next)[1..] == NormElements(es[1..], next + 1);
        assert xs == [(next, Norm(es[0].1))] + more && xs[1..] == more;
        NormElementAt(es[1..], next + 1, if index == next then next + 1 else index);
      }
    }
  }

  lemma NormNull()
    ensures Norm(Null) == Null
  {
  }

  lemma {:induction false} HoleAt(es: seq<(nat, Value)>, index: nat)
    requires IndicesFrom(es, index + 1)
    ensures ElementAt(es, index) == Null
  {
    if es != [] {
      IndicesLater(es[1..], es[0].0 + 1, index + 1);
      HoleAt(es[1..], index);
    }
  }

  lemma IndicesLater(es: seq<(nat, Value)>, a: nat, b: nat)
    requires IndicesFrom(es, a) && b <= a
    ensures IndicesFrom(es, b)
  {
  }

  lemma {:induction false} NormMemberAt(ms: seq<(bytes, Value)>, name: bytes)
    ensures MemberAt(NormMembers(ms), name) == Norm(MemberAt(ms, name))
    ensures |NormMembers(ms)| == |ms|
  {
    hide Norm;
    NormNull();
    if ms != [] {
      NormMemberAt(ms[1..], name);
      assert NormMembers(ms)[1..] == NormMembers(ms[1..]);
    }
  }
}
