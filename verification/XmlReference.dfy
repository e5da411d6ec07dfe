/** Character references: which ones tinyxml2 reads, and as what. */
module XmlReference {
  import opened Wrappers
  import opened Bytes
  import opened Unicode
  import opened XmlText

  function Base(hex: bool): nat {
    if hex then 16 else 10
  }

  function Mark(hex: bool): byte {
    if hex then LOWER_X else HASH
  }

  /** What stands in front of the digits: "&#" or "&#x". */
  function Opening(hex: bool): (r: bytes)
    ensures |r| == if hex then 3 else 2
  {
    [AMP, HASH] + if hex then [LOWER_X] else []
  }

  lemma DigitValueIff(c: byte, hex: bool)
    ensures DigitValue(c, Base(hex)).Some? <==> IsDigitIn(c, Base(hex))
    ensures forall d | 0 <= d < Base(hex) && DigitOf(c, d) :: DigitValue(c, Base(hex)) == Some(d)
  {
    HexValueNone(c);
    forall d | 0 <= d < Base(hex) && DigitOf(c, d) ensures DigitValue(c, Base(hex)) == Some(d) {
      HexValueIff(c, d);
    }
    if !hex && DigitValue(c, 10).Some? {
      HexValueIff(c, c - 0x30);
    }
  }

  lemma MarkIsNoDigit(hex: bool)
    ensures !IsDigitIn(Mark(hex), Base(hex)) && !IsDigitIn(SEMICOLON, Base(hex))
    ensures !IsDigitIn(0, Base(hex)) && !IsDigitIn(LOWER_X, 10)
  {
    DigitValueIff(Mark(hex), hex);
    DigitValueIff(SEMICOLON, hex);
    DigitValueIff(0, hex);
    DigitValueIff(LOWER_X, false);
  }

  // -------------------------------------------------- digits read backwards

  lemma Wrapped(a: nat, b: nat, c: nat)
    ensures U32(U32(a) * b + c) == U32(a * b + c) && U32(a + U32(b)) == U32(a + b) && U32(U32(a) + b) == U32(a + b)
  {
    var q, w := a / TWO32, a % TWO32;
    assert a * b == q * b * TWO32 + w * b;
    SameRest(w * b + c, q * b);
    SameRest(w + b, q);
    SameRest(a + b % TWO32, b / TWO32);
  }

  lemma SameRest(x: nat, k: nat)
    ensures U32(x + k * TWO32) == U32(x)
  {
  }

  lemma Regrouped(a: nat, b: nat, c: nat)
    ensures a * (b * c) == a * b * c
  {
  }

  lemma WrappedSum(ucs: nat, x: nat, z: nat, w: nat)
    requires U32(z + (ucs + x)) == U32(w + (ucs + x))
    ensures U32(U32(ucs + U32(x)) + z) == U32(ucs + (w + x))
  {
    hide U32;
    Wrapped(ucs, x, 0);
    Wrapped(ucs + x, z, 0);
    assert z + (ucs + x) == ucs + x + z && w + (ucs + x) == ucs + (w + x);
  }

  /** One digit on: `x` is what it weighs, `y` the weight of the next one, and `high` the
      digits still to come. */
  lemma OneDigit(ucs: nat, x: nat, y: nat, high: nat, all: nat)
    requires all == y * high + x
    ensures U32(U32(ucs + U32(x)) + U32(y) * high) == U32(ucs + all)
  {
    hide U32;
    Wrapped(y, high, ucs + x);
    WrappedSum(ucs, x, U32(y) * high, y * high);
  }

  lemma DigitStep(ucs: nat, mult: nat, n: nat, base: nat, high: nat, d: nat)
    requires n == base * high + d
    ensures U32(U32(ucs + U32(mult * d)) + U32(mult * base) * high) == U32(ucs + mult * n)
  {
    hide U32;
    Distributes(mult, base * high, d);
    Regrouped(mult, base, high);
    OneDigit(ucs, mult * d, mult * base, high, mult * n);
  }

  lemma {:induction false} NumeralRead(t: bytes, m: nat, q: nat, hex: bool, mult: nat, ucs: nat, n: nat)
    requires m < q < |t| && t[m] == Mark(hex) && Numeral(t[m + 1..q + 1], n, Base(hex)) && ucs < TWO32
    ensures Mark(hex) in t[..q + 1]
    ensures BackDigits(t, q, Mark(hex), Base(hex), mult, ucs) == Some(U32(ucs + mult * n))
    decreases q
  {
    hide U32, DigitOf, DigitValue;
    var base, s := Base(hex), t[m + 1..q + 1];
    var d := n % base;
    assert s[|s| - 1] == t[q] && DigitOf(t[q], d);
    DigitValueIff(t[q], hex);
    MarkIsNoDigit(hex);
    assert t[..q + 1][m] == Mark(hex) && t[..q][m] == Mark(hex);
    DigitStep(ucs, mult, n, base, n / base, d);
    var ucs' := U32(ucs + U32(mult * d));
    if q == m + 1 {
      Wrapped(ucs, mult * n, 0);
      assert BackDigits(t, m, Mark(hex), base, U32(mult * base), ucs') == Some(ucs');
    } else {
      assert s[..|s| - 1] == t[m + 1..q];
      NumeralRead(t, m, q - 1, hex, U32(mult * base), ucs', n / base);
    }
  }

  lemma {:induction false} NonDigitStops(t: bytes, i: nat, q: nat, hex: bool, mult: nat, ucs: nat)
    requires i <= q < |t| && Mark(hex) in t[..q + 1] && !IsDigitIn(t[i], Base(hex))
    requires Mark(hex) !in t[i..q + 1]
    ensures BackDigits(t, q, Mark(hex), Base(hex), mult, ucs).None?
    decreases q
  {
    hide U32, DigitValue;
    DigitValueIff(t[q], hex);
    assert t[q] in t[i..q + 1];
    if i < q && DigitValue(t[q], Base(hex)).Some? {
      assert t[..q + 1] == t[..q] + [t[q]] && t[i..q + 1] == t[i..q] + [t[q]];
      NonDigitStops(t, i, q - 1, hex, U32(mult * Base(hex)), U32(ucs + U32(mult * DigitValue(t[q], Base(hex)).value)));
    }
  }

  // ------------------------------------------------------------- references

  /** A text at a reference: the digits start at `first`, the first semicolon is at `end`, and
      the last mark in front of it is at `m`, which is `first` - 1 as a rule. */
  ghost predicate ReferenceAt(t: bytes, m: nat, end: nat) {
    && |t| > 2 && t[1] == HASH && t[2] != 0
    && var hex := t[2] == LOWER_X;
       && |Opening(hex)| <= m + 1 <= end < |t| && t[|Opening(hex)|] != 0
       && t[end] == SEMICOLON && SEMICOLON !in t[|Opening(hex)|..end]
       && t[m] == Mark(hex) && Mark(hex) !in t[m + 1..end]
  }

  lemma {:induction false} FirstByte(t: bytes, c: byte, i: nat, end: nat)
    requires i <= end < |t| && t[end] == c && c !in t[i..end]
    ensures FindByte(t, c, i) == Some(end)
    decreases end - i
  {
    if i < end {
      assert t[i] in t[i..end] && t[i..end] == [t[i]] + t[i + 1..end];
      FirstByte(t, c, i + 1, end);
    }
  }

  lemma ReferenceOpens(t: bytes, m: nat, end: nat)
    requires ReferenceAt(t, m, end)
    ensures
      var hex := t[2] == LOWER_X;
      && Mark(hex) in t[..end]
      && CharacterRef(t) == match BackDigits(t, end - 1, Mark(hex), Base(hex), 1, 0)
                            case None => None
                            case Some(ucs) => Some((Utf32ToUtf8(ucs), end + 1))
  {
    hide BackDigits;
    var hex := t[2] == LOWER_X;
    FirstByte(t, SEMICOLON, |Opening(hex)|, end);
    assert t[..end][m] == Mark(hex);
  }

  /** A reference is read exactly when there are only digits between its last mark and the
      semicolon, and then it is the code point with these digits, in 32 bits. */
  lemma ReferenceIff(t: bytes, m: nat, end: nat, n: nat)
    requires ReferenceAt(t, m, end)
    ensures
      var base := Base(t[2] == LOWER_X);
      && (CharacterRef(t).Some? <==> forall c <- t[m + 1..end] :: IsDigitIn(c, base))
      && (m + 1 == end ==> CharacterRef(t) == Some((Utf32ToUtf8(0), end + 1)))
      && (Numeral(t[m + 1..end], n, base) ==> CharacterRef(t) == Some((Utf32ToUtf8(U32(n)), end + 1)))
  {
    hide CharacterRef, U32, Numeral;
    var base := Base(t[2] == LOWER_X);
    var s := t[m + 1..end];
    ReferenceOpens(t, m, end);
    if s != [] && forall c <- s :: IsDigitIn(c, base) {
      var k := NumeralOf(s, base);
      ReferenceValue(t, m, end, k);
    } else if s != [] {
      var k :| 0 <= k < |s| && !IsDigitIn(s[k], base);
      assert s[k] == t[m + 1 + k];
      assert forall c <- t[m + 1 + k..end] :: c in s;
      NonDigitStops(t, m + 1 + k, end - 1, t[2] == LOWER_X, 1, 0);
    }
    if Numeral(s, n, base) {
      ReferenceValue(t, m, end, n);
    }
  }

  lemma ReferenceValue(t: bytes, m: nat, end: nat, n: nat)
    requires ReferenceAt(t, m, end) && Numeral(t[m + 1..end], n, Base(t[2] == LOWER_X))
    ensures CharacterRef(t) == Some((Utf32ToUtf8(U32(n)), end + 1))
  {
    hide CharacterRef, U32, Numeral;
    ReferenceOpens(t, m, end);
    NumeralNotEmpty(t[m + 1..end], n, Base(t[2] == LOWER_X));
    NumeralRead(t, m, end - 1, t[2] == LOWER_X, 1, 0, n);
  }

  lemma NumeralNotEmpty(s: bytes, n: nat, base: nat)
    requires 2 <= base <= 16 && Numeral(s, n, base)
    ensures s != []
  {
  }

  lemma NumeralStep(s: bytes, high: nat, d: nat, base: nat, n: nat)
    requires 2 <= base <= 16 && |s| > 1 && d < base && n == base * high + d
    requires Numeral(s[..|s| - 1], high, base) && DigitOf(s[|s| - 1], d)
    ensures Numeral(s, n, base)
  {
    hide DigitOf;
    Quotient(n, base, high, d);
  }

  lemma LastDigit(s: bytes, base: nat) returns (d: nat)
    requires 2 <= base <= 16 && s != [] && forall c <- s :: IsDigitIn(c, base)
    ensures d < base && DigitOf(s[|s| - 1], d)
  {
    hide DigitOf;
    var c := s[|s| - 1];
    assert c in s;
    d :| 0 <= d < base && DigitOf(c, d);
  }

  lemma SmallRest(d: nat, base: nat)
    requires d < base
    ensures d % base == d
  {
  }

  /** Digits are the numeral of something. */
  lemma {:induction false} NumeralOf(s: bytes, base: nat) returns (n: nat)
    requires 2 <= base <= 16 && s != [] && forall c <- s :: IsDigitIn(c, base)
    ensures Numeral(s, n, base)
  {
    hide DigitOf;
    var k := |s| - 1;
    var d := LastDigit(s, base);
    n := d;
    if k == 0 {
      SmallRest(d, base);
    } else {
      hide Numeral;
      assert forall c <- s[..k] :: c in s;
      var high := NumeralOf(s[..k], base);
      n := base * high + d;
      NumeralStep(s, high, d, base, n);
    }
  }

  lemma ReferencePlaced(hex: bool, body: bytes, rest: bytes)
    requires body != [] && SEMICOLON !in body && Mark(hex) !in body && body[0] != 0 && (hex || body[0] != LOWER_X)
    ensures
      var t := Opening(hex) + body + [SEMICOLON] + rest;
      var k := |Opening(hex)|;
      t[0] == AMP && (t[2] == LOWER_X <==> hex) && t[k..k + |body|] == body && ReferenceAt(t, k - 1, k + |body|)
  {
    var open, tail := Opening(hex), [SEMICOLON] + rest;
    Assoc(open + body, [SEMICOLON], rest);
    Middle(open, body, tail);
    var t := open + body + tail;
    assert t[0] == open[0] && t[1] == open[1] && (hex ==> t[2] == open[2]);
    assert t[|open| - 1] == open[|open| - 1] && t[|open| + |body|] == tail[0];
  }

  lemma Middle(a: bytes, b: bytes, c: bytes)
    requires b != []
    ensures (a + b + c)[|a|..|a| + |b|] == b && (a + b + c)[|a|] == b[0]
  {
  }

  /** Section 4.1 of the XML recommendation: a code point below 2^32, as a decimal or
      hexadecimal numeral in either case, is read whatever follows, and exactly the reference
      is taken. */
  lemma ReferenceRead(n: nat, hex: bool, digits: bytes, rest: bytes, stale: byte)
    requires n < TWO32 && Numeral(digits, n, Base(hex))
    ensures
      var t := Opening(hex) + digits + [SEMICOLON] + rest;
      DecodeStep(t, TEXT_ELEMENT, stale) == (Utf32ToUtf8(n), |Opening(hex) + digits| + 1)
  {
    hide CharacterRef, Numeral, IsDigitIn;
    var t := Opening(hex) + digits + [SEMICOLON] + rest;
    var m, end := |Opening(hex)| - 1, |Opening(hex)| + |digits|;
    NumeralNotEmpty(digits, n, Base(hex));
    NumeralDigits(digits, n, Base(hex));
    MarkIsNoDigit(hex);
    assert digits[0] in digits;
    ReferencePlaced(hex, digits, rest);
    assert t[m + 1..end] == digits;
    ReferenceValue(t, m, end, n);
  }

  /** Something else among the digits keeps the "&", and what follows is read as text. */
  lemma NonDigitRejected(hex: bool, body: bytes, rest: bytes, stale: byte)
    requires SEMICOLON !in body && Mark(hex) !in body && body != [] && body[0] != 0
    requires !hex ==> body[0] != LOWER_X
    requires exists c <- body :: !IsDigitIn(c, Base(hex))
    ensures DecodeStep(Opening(hex) + body + [SEMICOLON] + rest, TEXT_ELEMENT, stale) == ([AMP], 1)
  {
    hide CharacterRef, IsDigitIn;
    var t := Opening(hex) + body + [SEMICOLON] + rest;
    var m, end := |Opening(hex)| - 1, |Opening(hex)| + |body|;
    ReferencePlaced(hex, body, rest);
    assert t[m + 1..end] == body;
    ReferenceIff(t, m, end, 0);
  }

  /** But another mark starts the digits afresh: "&#1#65;" is read as "A". */
  lemma MarkInside(t: bytes)
    requires t == [AMP, HASH, 0x31, HASH, 0x36, 0x35, SEMICOLON]
    ensures CharacterRef(t) == Some(([0x41], 7))
  {
    hide CharacterRef, Numeral;
    assert t[4..6] == [0x36, 0x35] && t[2..6] == [0x31, HASH, 0x36, 0x35];
    SixtyFive(t[4..6]);
    assert ReferenceAt(t, 3, 6);
    ReferenceValue(t, 3, 6, 65);
  }

  lemma SixtyFive(s: bytes)
    requires s == [0x36, 0x35]
    ensures Numeral(s, 65, 10)
  {
    assert s[..1] == [0x36];
    assert Numeral(s[..1], 6, 10);
  }

  /** A text that ends in "&#" loses the "&". */
  lemma OpeningAtEnd(t: bytes, stale: byte)
    requires t == [AMP, HASH]
    ensures DecodeStep(t, TEXT_ELEMENT, stale) == ([], 1)
  {
  }
}
