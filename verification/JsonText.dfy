/** The lexemes of JSON text, shared by the writers and the reader. */
module JsonText {
  import opened Bytes
  import opened JsonValue

  const QUOTE: byte := 0x22
  const COMMA: byte := 0x2C
  const MINUS: byte := 0x2D
  const SLASH: byte := 0x2F
  const COLON: byte := 0x3A
  const LBRACKET: byte := 0x5B
  const BACKSLASH: byte := 0x5C
  const RBRACKET: byte := 0x5D
  const LBRACE: byte := 0x7B
  const RBRACE: byte := 0x7D
  const SPACE: byte := 0x20
  const NEWLINE: byte := 0x0A

  const NULL_TEXT: bytes := [0x6E, 0x75, 0x6C, 0x6C]
  const TRUE_TEXT: bytes := [0x74, 0x72, 0x75, 0x65]
  const FALSE_TEXT: bytes := [0x66, 0x61, 0x6C, 0x73, 0x65]

  lemma LiteralsSpelled()
    ensures Ascii(NULL_TEXT, "null") && Ascii(TRUE_TEXT, "true") && Ascii(FALSE_TEXT, "false")
  {
  }

  predicate IsDigit(c: byte) {
    0x30 <= c <= 0x39
  }

  predicate IsSpace(c: byte) {
    c == 0x20 || c == 0x09 || c == 0x0D || c == 0x0A
  }

  /** Section 2 of RFC 8259: the characters that are white space. */
  lemma SpacesSpelled(c: byte)
    ensures IsSpace(c) <==> c == ' ' as int || c == '\t' as int || c == '\n' as int || c == '\r' as int
    ensures IsDigit(c) <==> '0' as int <= c <= '9' as int
  {
  }

  // ------------------------------------------------------ printing scalars

  /** uintToString */
  function Decimal(n: nat): (r: bytes)
    ensures r != [] && forall c <- r :: IsDigit(c)
  {
    if n < 10 then [0x30 + n] else Decimal(n / 10) + [0x30 + n % 10]
  }

  function IntText(i: int): (r: bytes)
    ensures r != [] && (IsDigit(r[0]) || r[0] == MINUS)
  {
    if i < 0 then [MINUS] + Decimal(-i) else Decimal(i)
  }

  /** The letter of a two-character escape, if the character needs one. */
  function EscapeLetter(c: byte): byte {
    if c == QUOTE || c == BACKSLASH then c
    else if c == 0x08 then 0x62
    else if c == 0x0C then 0x66
    else if c == 0x0A then 0x6E
    else if c == 0x0D then 0x72
    else if c == 0x09 then 0x74
    else 0
  }

  function EscapeChar(c: byte): (r: bytes)
    ensures r != []
  {
    if EscapeLetter(c) != 0 then [BACKSLASH, EscapeLetter(c)] else [c]
  }

  function Escape(s: bytes): bytes {
    if s == [] then [] else EscapeChar(s[0]) + Escape(s[1..])
  }

  /** valueToQuotedString */
  function Quote(s: bytes): (r: bytes)
    ensures |r| >= 2 && r[0] == QUOTE
  {
    [QUOTE] + Escape(s) + [QUOTE]
  }

  // ---------------------------------------------------------------- lexemes

  /** The lexemes of a value's text, whatever the spacing. Array holes read "null". */
  function Lex(v: Value): (r: seq<bytes>)
    decreases v
  {
    match v
    case Null => [NULL_TEXT]
    case Int(i) => [IntText(i)]
    case UInt(u) => [IntText(u)]
    case Real(_) => []
    case Str(s) => [Quote(s)]
    case Bool(b) => [if b then TRUE_TEXT else FALSE_TEXT]
    case Array(es) => [[LBRACKET]] + (if IndicesFrom(es, 0) then LexElements(es, 0) else []) + [[RBRACKET]]
    case Object(ms) => [[LBRACE]] + LexMembers(ms) + [[RBRACE]]
  }

  function LexElements(es: seq<(nat, Value)>, next: nat): (r: seq<bytes>)
    requires IndicesFrom(es, next)
    decreases es, if es == [] then 0 else es[0].0 - next
  {
    if es == [] then []
    else if next < es[0].0 then [NULL_TEXT, [COMMA]] + LexElements(es, next + 1)
    else
      assert es decreases to es[0];
      Lex(es[0].1) + if |es| == 1 then [] else [[COMMA]] + LexElements(es[1..], next + 1)
  }

  function LexMembers(ms: seq<(bytes, Value)>): (r: seq<bytes>)
    decreases ms, 0
  {
    if ms == [] then []
    else
      assert ms decreases to ms[0];
      [Quote(ms[0].0), [COLON]] + Lex(ms[0].1) + if |ms| == 1 then [] else [[COMMA]] + LexMembers(ms[1..])
  }

  // ---------------------------------------------------------------- spacing

  function SkipSpaces(s: bytes): (r: bytes)
    ensures |r| <= |s|
    ensures r != [] ==> !IsSpace(r[0])
  {
    if s != [] && IsSpace(s[0]) then SkipSpaces(s[1..]) else s
  }

  /** `s` is the lexemes `ls` with any white space before, between and behind them. */
  predicate Spaced(ls: seq<bytes>, s: bytes) {
    var t := SkipSpaces(s);
    if ls == [] then t == [] else ls[0] != [] && ls[0] <= t && Spaced(ls[1..], t[|ls[0]|..])
  }

  lemma {:induction false} SkipSpacesConcat(s: bytes, t: bytes)
    ensures SkipSpaces(s + t) == if SkipSpaces(s) == [] then SkipSpaces(t) else SkipSpaces(s) + t
  {
    if s == [] {
      assert s + t == t;
    } else {
      assert (s + t)[1..] == s[1..] + t;
      SkipSpacesConcat(s[1..], t);
    }
  }

  lemma {:induction false} SpacedConcat(a: seq<bytes>, s: bytes, b: seq<bytes>, t: bytes)
    requires Spaced(a, s) && Spaced(b, t)
    ensures Spaced(a + b, s + t)
    decreases |a|
  {
    hide Spaced, SkipSpaces;
    SkipSpacesConcat(s, t);
    if a == [] {
      assert a + b == b;
      NothingBefore(s);
      SpacedSkips(b, t);
      SpacedSkips(b, s + t);
    } else {
      var rest := SpacedUncons(a, s);
      Assoc(a[0], rest, t);
      SpacedConcat(a[1..], rest, b, t);
      SpacedCons(a[0], a[1..] + b, s + t, rest + t);
      assert a + b == [a[0]] + (a[1..] + b);
    }
  }

  lemma NothingBefore(s: bytes)
    requires Spaced([], s)
    ensures SkipSpaces(s) == []
  {
  }

  lemma SpacedUncons(ls: seq<bytes>, s: bytes) returns (rest: bytes)
    requires Spaced(ls, s) && ls != []
    ensures ls[0] != [] && SkipSpaces(s) == ls[0] + rest && Spaced(ls[1..], rest)
  {
    rest := SkipSpaces(s)[|ls[0]|..];
  }

  lemma SpacedCons(l: bytes, ls: seq<bytes>, s: bytes, rest: bytes)
    requires SkipSpaces(s) == l + rest && l != []
    ensures Spaced([l] + ls, s) <==> Spaced(ls, rest)
  {
    assert ([l] + ls)[1..] == ls;
    assert (l + rest)[|l|..] == rest;
  }

  lemma SpacedSkips(b: seq<bytes>, t: bytes)
    ensures Spaced(b, t) <==> Spaced(b, SkipSpaces(t))
  {
    assert SkipSpaces(SkipSpaces(t)) == SkipSpaces(t);
  }
}
