/** Comments and numbers, as any author may write them (sections 2 and 6 of RFC 8259; comments
    are an extension). */
module JsonTokens {
  import opened Wrappers
  import opened Bytes
  import opened JsonValue
  import opened JsonText
  import opened JsonReader
  import opened JsonRoundTrip

  const ASTERISK: byte := 0x2A
  const CR: byte := 0x0D
  const CLOSE_COMMENT: bytes := [ASTERISK, SLASH]

  // --------------------------------------------------------------- comments

  /** A comment up to its first closing mark, or to the end of its line. */
  ghost predicate IsComment(c: bytes) {
    || (exists body: bytes :: BlockComment(c, body))
    || (exists body: bytes, end: byte :: LineComment(c, body, end))
  }

  ghost predicate BlockComment(c: bytes, body: bytes) {
    c == [SLASH, ASTERISK] + body + CLOSE_COMMENT && FindMark(body + CLOSE_COMMENT, CLOSE_COMMENT) == |body|
  }

  ghost predicate LineComment(c: bytes, body: bytes, end: byte) {
    c == [SLASH, SLASH] + body + [end] && (end == NEWLINE || end == CR) && NEWLINE !in body && CR !in body
  }

  lemma MarkHere(t: bytes)
    requires |t| >= 2
    ensures CLOSE_COMMENT <= t <==> t[0] == ASTERISK && t[1] == SLASH
  {
    assert t == [t[0], t[1]] + t[2..];
  }

  lemma {:induction false} BlockScans(body: bytes, rest: bytes)
    requires FindMark(body + CLOSE_COMMENT, CLOSE_COMMENT) == |body|
    ensures ScanCComment(body + CLOSE_COMMENT + rest) == (true, |body| + 2)
  {
    var s, t := body + CLOSE_COMMENT + rest, body + CLOSE_COMMENT;
    if body == [] {
      assert s[0] == ASTERISK && s[1] == SLASH;
    } else {
      assert s[0] == t[0] && s[1] == t[1];
      MarkHere(t);
      assert t[1..] == body[1..] + CLOSE_COMMENT && s[1..] == body[1..] + CLOSE_COMMENT + rest;
      BlockScans(body[1..], rest);
    }
  }

  lemma {:induction false} LineScans(body: bytes, end: byte, rest: bytes)
    requires (end == NEWLINE || end == CR) && NEWLINE !in body && CR !in body
    ensures ScanLine(body + [end] + rest) == |body| + 1
  {
    var s := body + [end] + rest;
    if body == [] {
      assert s[0] == end;
    } else {
      assert body[0] in body && forall c <- body[1..] :: c in body;
      assert s[0] == body[0] && s[1..] == body[1..] + [end] + rest;
      LineScans(body[1..], end, rest);
    }
  }

  lemma SlashToken(s: bytes, n: nat)
    requires s != [] && s[0] == SLASH && ScanComment(s[1..]) == (true, n)
    ensures TokenAt(s) == Token(Comment, s[..1 + n], s[1 + n..])
  {
    hide ScanComment;
  }

  lemma BlockComments(x: bytes, n: nat)
    requires ScanCComment(x) == (true, n)
    ensures ScanComment([ASTERISK] + x) == (true, 1 + n)
  {
    hide ScanCComment;
    assert ([ASTERISK] + x)[1..] == x;
  }

  lemma Halves(a: bytes, b: bytes)
    ensures (a + b)[..|a|] == a && (a + b)[|a|..] == b
  {
  }

  lemma Regrouped(a: byte, b: byte, c: bytes, d: bytes, e: bytes)
    ensures [a, b] + c + d + e == [a] + ([b] + (c + d + e))
  {
    assert [a, b] == [a] + [b];
    Assoc([a], [b], c);
    Assoc([a], [b] + c, d);
    Assoc([a], [b] + c + d, e);
    Assoc([b], c, d);
    Assoc([b], c + d, e);
  }

  lemma BlockToken(body: bytes, rest: bytes)
    requires FindMark(body + CLOSE_COMMENT, CLOSE_COMMENT) == |body|
    ensures
      var c := [SLASH, ASTERISK] + body + CLOSE_COMMENT;
      TokenAt(c + rest) == Token(Comment, c, rest)
  {
    hide FindMark, ScanCComment, ScanComment, TokenAt;
    var c := [SLASH, ASTERISK] + body + CLOSE_COMMENT;
    var x := body + CLOSE_COMMENT + rest;
    BlockScans(body, rest);
    BlockComments(x, |body| + 2);
    Regrouped(SLASH, ASTERISK, body, CLOSE_COMMENT, rest);
    Halves([SLASH], [ASTERISK] + x);
    SlashToken(c + rest, |body| + 3);
    Halves(c, rest);
  }

  lemma LineToken(body: bytes, end: byte, rest: bytes)
    requires (end == NEWLINE || end == CR) && NEWLINE !in body && CR !in body
    ensures
      var c := [SLASH, SLASH] + body + [end];
      TokenAt(c + rest) == Token(Comment, c, rest)
  {
    hide ScanLine;
    var c := [SLASH, SLASH] + body + [end];
    var s := c + rest;
    assert s[..|c|] == c && s[|c|..] == rest;
    assert s[1..] == [SLASH] + (body + [end] + rest) && s[1..][1..] == body + [end] + rest;
    LineScans(body, end, rest);
    assert ScanComment(s[1..]) == (true, |c| - 1);
  }

  /** A comment is one token, which the reader drops. */
  lemma CommentToken(c: bytes, rest: bytes)
    requires IsComment(c)
    ensures c != [] && TokenAt(c + rest) == Token(Comment, c, rest) && SkipSpaces(c + rest) == c + rest
  {
    hide FindMark, TokenAt;
    if body: bytes :| BlockComment(c, body) {
      BlockToken(body, rest);
    } else {
      var body: bytes, end: byte :| LineComment(c, body, end);
      LineToken(body, end, rest);
    }
  }

  lemma OneIgnored(c: bytes, space: bytes, more: bytes)
    requires IsComment(c) && SkipSpaces(space) == []
    ensures Significant(space + (c + more)) == Significant(more)
  {
    hide SkipSpaces, TokenAt, IsComment;
    SkipSpacesConcat(space, c + more);
    CommentToken(c, more);
  }

  /** White space and a comment, any number of times. */
  function Skipped(cs: seq<(bytes, bytes)>): bytes {
    if cs == [] then [] else cs[0].0 + cs[0].1 + Skipped(cs[1..])
  }

  ghost predicate Skippable(cs: seq<(bytes, bytes)>) {
    forall i | 0 <= i < |cs| :: SkipSpaces(cs[i].0) == [] && IsComment(cs[i].1)
  }

  /** Wherever the reader asks for the next token that counts, white space and comments in
      front of it do not matter: around values, names, commas and closing brackets. */
  lemma {:induction false} CommentsIgnored(cs: seq<(bytes, bytes)>, s: bytes)
    requires Skippable(cs)
    ensures Significant(Skipped(cs) + s) == Significant(s)
  {
    hide SkipSpaces, Significant, IsComment;
    if cs == [] {
      assert [] + s == s;
    } else {
      assert forall i | 0 <= i < |cs| - 1 :: cs[1..][i] == cs[i + 1];
      var more := Skipped(cs[1..]) + s;
      CommentsIgnored(cs[1..], s);
      Assoc(cs[0].0 + cs[0].1, Skipped(cs[1..]), s);
      Assoc(cs[0].0, cs[0].1, more);
      OneIgnored(cs[0].1, cs[0].0, more);
    }
  }

  // ------------------------------------------------- what is skipped, and where

  /** readCStyleComment looks for the first closing mark. */
  lemma {:induction false} ScanIsFind(x: bytes)
    ensures ScanCComment(x).0 <==> FindMark(x, CLOSE_COMMENT) < |x|
    ensures ScanCComment(x).0 ==> ScanCComment(x).1 == FindMark(x, CLOSE_COMMENT) + 2
  {
    if x != [] {
      if |x| >= 2 {
        MarkHere(x);
      }
      ScanIsFind(x[1..]);
    }
  }

  lemma BlockOf(x: bytes)
    requires ScanCComment(x).0
    ensures
      var n := ScanCComment(x).1;
      n >= 2 && x[..n] == x[..n - 2] + CLOSE_COMMENT && FindMark(x[..n], CLOSE_COMMENT) == n - 2
  {
    hide ScanCComment, FindMark;
    ScanIsFind(x);
    var k := FindMark(x, CLOSE_COMMENT);
    var head := x[..k + 2];
    assert head == x[..k] + x[k..k + 2] && head[k..k + 2] == x[k..k + 2];
    forall i: nat | i < k ensures !OccursAt(head, CLOSE_COMMENT, i) {
      NoneBefore(x, CLOSE_COMMENT, i);
      if i + 2 <= k + 2 {
        assert head[i..i + 2] == x[i..i + 2];
      }
    }
    assert OccursAt(head, CLOSE_COMMENT, k);
    FindMarkIff(head, CLOSE_COMMENT, k);
  }

  lemma {:induction false} LineOf(x: bytes)
    requires ScanLine(x) < |x|
    ensures
      var n := ScanLine(x);
      && n > 0 && (x[n - 1] == NEWLINE || x[n - 1] == CR) && NEWLINE !in x[..n - 1] && CR !in x[..n - 1]
  {
    var n := ScanLine(x);
    if x[0] != NEWLINE && x[0] != CR {
      LineOf(x[1..]);
      assert x[..n - 1] == [x[0]] + x[1..][..n - 2];
    }
  }

  lemma CommentShape(s: bytes)
    requires TokenAt(s).kind == Comment
    ensures |s| > 1 && s[0] == SLASH && (s[1] == ASTERISK || s[1] == SLASH)
    ensures s[1] == ASTERISK ==> ScanCComment(s[2..]).0 && TokenAt(s) == Taken(Comment, s, 2 + ScanCComment(s[2..]).1)
    ensures s[1] == SLASH ==> TokenAt(s) == Taken(Comment, s, 2 + ScanLine(s[2..]))
  {
    hide ScanCComment, ScanLine, ScanString, ScanNumber;
    if s != [] && s[0] == SLASH {
      ScanShape(s);
    }
  }

  lemma ScanShape(s: bytes)
    requires s != [] && s[0] == SLASH && ScanComment(s[1..]).0
    ensures |s| > 1 && (s[1] == ASTERISK || s[1] == SLASH)
    ensures s[1] == ASTERISK ==> ScanCComment(s[2..]).0 && ScanComment(s[1..]).1 == 1 + ScanCComment(s[2..]).1
    ensures s[1] == SLASH ==> ScanComment(s[1..]).1 == 1 + ScanLine(s[2..])
  {
    hide ScanCComment, ScanLine;
    assert |s| > 1 ==> s[1..][1..] == s[2..];
  }

  lemma BlockShape(s: bytes)
    requires |s| > 1 && s[0] == SLASH && s[1] == ASTERISK && ScanCComment(s[2..]).0
    ensures IsComment(s[..2 + ScanCComment(s[2..]).1])
  {
    hide FindMark, ScanCComment;
    var x := s[2..];
    var n := ScanCComment(x).1;
    BlockOf(x);
    assert s[..2 + n] == [SLASH, ASTERISK] + x[..n];
    Assoc([SLASH, ASTERISK], x[..n - 2], CLOSE_COMMENT);
    assert BlockComment(s[..2 + n], x[..n - 2]);
  }

  lemma LineShape(s: bytes)
    requires |s| > 1 && s[0] == SLASH && s[1] == SLASH && ScanLine(s[2..]) < |s[2..]|
    ensures IsComment(s[..2 + ScanLine(s[2..])])
  {
    hide ScanLine;
    var x := s[2..];
    var n := ScanLine(x);
    LineOf(x);
    assert s[..2 + n] == [SLASH, SLASH] + x[..n] && x[..n] == x[..n - 1] + [x[n - 1]];
    Assoc([SLASH, SLASH], x[..n - 1], [x[n - 1]]);
    assert LineComment(s[..2 + n], x[..n - 1], x[n - 1]);
  }

  /** What the reader drops as a comment is one; at the end of the text it may lack its line
      end. */
  lemma CommentOf(s: bytes)
    requires TokenAt(s).kind == Comment && TokenAt(s).rest != []
    ensures IsComment(TokenAt(s).text) && s == TokenAt(s).text + TokenAt(s).rest
  {
    hide TokenAt, ScanCComment, ScanLine, IsComment;
    CommentShape(s);
    if s[1] == ASTERISK {
      BlockShape(s);
    } else {
      LineShape(s);
    }
  }

  // ---------------------------------------------------------------- numbers

  predicate AllDigits(s: bytes) {
    s != [] && forall c <- s :: IsDigit(c)
  }

  lemma NumberCharacters(c: byte)
    ensures IsNumberChar(c) <==>
              IsDigit(c) || c == '.' as int || c == 'e' as int || c == 'E' as int || c == '+' as int || c == '-' as int
  {
  }

  /** A point and digits, or nothing. */
  predicate IsFraction(s: bytes) {
    s == [] || (s[0] == '.' as int && AllDigits(s[1..]))
  }

  /** An "e" of either case, a sign or none, and digits; or nothing. */
  predicate IsExponent(s: bytes) {
    s == []
    || ((s[0] == 'e' as int || s[0] == 'E' as int) && |s| > 1
        && (AllDigits(s[1..]) || ((s[1] == '+' as int || s[1] == '-' as int) && AllDigits(s[2..]))))
  }

  lemma {:induction false} NumberScans(s: bytes, rest: bytes)
    requires (forall c <- s :: IsNumberChar(c)) && (rest == [] || !IsNumberChar(rest[0]))
    ensures ScanNumber(s + rest) == |s|
  {
    if s == [] {
      assert s + rest == rest;
    } else {
      assert s[0] in s && (forall c <- s[1..] :: c in s) && (s + rest)[1..] == s[1..] + rest;
      NumberScans(s[1..], rest);
    }
  }

  lemma NumberIsOneToken(s: bytes, rest: bytes)
    requires s != [] && (IsDigit(s[0]) || s[0] == MINUS) && (forall c <- s :: IsNumberChar(c))
    requires rest == [] || !IsNumberChar(rest[0])
    ensures Significant(s + rest) == Token(JsonReader.NumberToken, s, rest)
  {
    hide IsNumberChar;
    var t := s + rest;
    assert t[1..] == s[1..] + rest && t[..|s|] == s && t[|s|..] == rest;
    assert forall c <- s[1..] :: c in s;
    NumberScans(s[1..], rest);
    hide ScanNumber;
    assert SkipSpaces(t) == t;
  }

  lemma NumberChars(minus: bool, digits: bytes, fraction: bytes, exponent: bytes)
    requires AllDigits(digits) && IsFraction(fraction) && IsExponent(exponent)
    ensures
      var s := (if minus then [MINUS] else []) + digits + fraction + exponent;
      && s != [] && (IsDigit(s[0]) || s[0] == MINUS) && (forall c <- s :: IsNumberChar(c))
      && (LooksReal(s) <==> fraction + exponent != [])
  {
    var sign := if minus then [MINUS] else [];
    var s := sign + digits + fraction + exponent;
    var n := |sign| + |digits|;
    forall i | 0 <= i < n ensures IsDigit(s[i]) || (i == 0 && s[i] == MINUS) {
      if i >= |sign| {
        assert s[i] == digits[i - |sign|];
      }
    }
    FractionChars(fraction);
    ExponentChars(exponent);
    if fraction != [] {
      assert s[n] == fraction[0];
    } else if exponent != [] {
      assert s[n] == exponent[0];
    }
  }

  lemma FractionChars(s: bytes)
    requires IsFraction(s)
    ensures forall c <- s :: IsNumberChar(c)
  {
    if s != [] {
      assert s == [s[0]] + s[1..];
    }
  }

  lemma ExponentChars(s: bytes)
    requires IsExponent(s)
    ensures forall c <- s :: IsNumberChar(c)
  {
    if s != [] {
      assert s == [s[0], s[1]] + s[2..] && s[1..] == [s[1]] + s[2..];
    }
  }

  /** Section 6: a number with a fraction or an exponent is one token and is handed on whole;
      its value is what scanning that text for a double gives. */
  lemma RealRead(minus: bool, digits: bytes, fraction: bytes, exponent: bytes, rest: bytes, scan: Scan)
    requires AllDigits(digits) && IsFraction(fraction) && IsExponent(exponent) && fraction + exponent != []
    requires rest == [] || !IsNumberChar(rest[0])
    ensures
      var s := (if minus then [MINUS] else []) + digits + fraction + exponent;
      ParseValue(s + rest, scan) == match scan(s) case None => None case Some(r) => Some((Real(r), rest))
  {
    hide IsNumberChar, LooksReal, IsFraction, IsExponent, AllDigits, Significant;
    var s := (if minus then [MINUS] else []) + digits + fraction + exponent;
    NumberChars(minus, digits, fraction, exponent);
    NumberIsOneToken(s, rest);
  }

  // ------------------------------------------------------------- separators

  /** Between the elements of an array any token will do but a closing bracket: the one that
      follows an element is dropped without being looked at. */
  lemma AnyTokenSeparates(v: Value, a: bytes, b: bytes, scan: Scan)
    requires ParseValue(a, scan) == Some((v, b)) && Significant(b).kind != ArrayEnd
    ensures ParseElements(a, scan) == match ParseElements(Significant(b).rest, scan)
                                      case None => None
                                      case Some((vs, end)) => Some(([v] + vs, end))
  {
    hide ParseValue, Significant;
  }
}
