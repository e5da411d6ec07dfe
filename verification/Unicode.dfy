/** UTF-8 (section 3 of RFC 3629), the escapes that JSON has for code points (section 7 of
    RFC 8259), and the two encoders of the repository. */
module Unicode {
  import opened Wrappers
  import opened Bytes
  import opened JsonText
  import opened JsonReader

  predicate Scalar(cp: nat) {
    cp <= 0x10FFFF && !(0xD800 <= cp <= 0xDFFF)
  }

  type scalar = cp: nat | Scalar(cp)

  // --------------------------------------------------------- reading UTF-8

  predicate Continues(c: byte) {
    0x80 <= c < 0xC0
  }

  /** How many bytes follow the first one, and the bits it carries. */
  function Lead(c: byte): Option<(nat, nat)> {
    if c < 0x80 then Some((0, c))
    else if 0xC0 <= c < 0xE0 then Some((1, c - 0xC0))
    else if 0xE0 <= c < 0xF0 then Some((2, c - 0xE0))
    else if 0xF0 <= c < 0xF8 then Some((3, c - 0xF0))
    else None
  }

  /** Six bits from each continuation byte. */
  function Tail(bits: nat, s: bytes, n: nat): Option<nat>
    requires n <= |s|
    decreases n
  {
    if n == 0 then Some(bits)
    else if !Continues(s[0]) then None
    else
      var c: int := s[0];
      Tail(bits * 64 + (c - 0x80), s[1..], n - 1)
  }

  /** The least code point that needs `n` continuation bytes. */
  function Least(n: nat): nat {
    if n == 0 then 0 else if n == 1 then 0x80 else if n == 2 then 0x800 else 0x10000
  }

  /** The first character: only shortest forms of scalar values are legal. */
  function DecodeOne(s: bytes): (r: Option<(scalar, bytes)>)
    ensures r.Some? ==> |r.value.1| < |s|
  {
    if s == [] || Lead(s[0]).None? || |s| - 1 < Lead(s[0]).value.0 then None
    else
      var (n, bits) := Lead(s[0]).value;
      match Tail(bits, s[1..], n)
      case None => None
      case Some(cp) => if cp < Least(n) || !Scalar(cp) then None else Some((cp, s[1 + n..]))
  }

  function DecodeAll(s: bytes): Option<seq<scalar>>
    decreases |s|
  {
    if s == [] then Some([])
    else match DecodeOne(s)
      case None => None
      case Some((cp, rest)) => match DecodeAll(rest)
        case None => None
        case Some(cps) => Some([cp] + cps)
  }

  function Encode(cps: seq<scalar>): bytes {
    if cps == [] then [] else CodePointToUTF8(cps[0]) + Encode(cps[1..])
  }

  // -------------------------------------------------- encoding is reversible

  lemma TailMore(bits: nat, c: byte, rest: bytes, n: nat)
    requires Continues(c) && n <= |rest|
    ensures Tail(bits, [c] + rest, n + 1) == Tail(bits * 64 + (c - 0x80), rest, n)
  {
    assert ([c] + rest)[1..] == rest;
  }

  lemma TailNone(bits: nat, rest: bytes)
    ensures Tail(bits, rest, 0) == Some(bits)
  {
  }

  /** Six-bit groups put together again. */
  lemma Groups(cp: nat)
    ensures cp == cp / 64 * 64 + cp % 64 && cp / 0x1000 == cp / 64 / 64 && cp / 0x40000 == cp / 64 / 64 / 64
  {
  }

  /** What ConvertUTF32ToUTF8 writes; it also accepts what lies beyond the last code point. */
  function Utf32ToUtf8(input: nat): (r: bytes)
    ensures |r| <= 4 && (r == [] <==> input >= 0x200000)
  {
    if input < 0x80 then [input]
    else if input < 0x800 then [0xC0 + input / 64, 0x80 + input % 64]
    else if input < 0x10000 then [0xE0 + input / 64 / 64, 0x80 + input / 64 % 64, 0x80 + input % 64]
    else if input < 0x200000 then
      [0xF0 + input / 64 / 64 / 64, 0x80 + input / 64 / 64 % 64, 0x80 + input / 64 % 64, 0x80 + input % 64]
    else []
  }

  /** The two encoders agree on every code point, surrogates included. */
  lemma EncodersAgree(input: nat)
    ensures Utf32ToUtf8(input) == CodePointToUTF8(input) <==> input <= 0x10FFFF || input >= 0x200000
  {
    Groups(input);
    Groups(input / 64);
  }

  lemma OneByte(cp: scalar, rest: bytes)
    requires cp <= 0x7F
    ensures DecodeOne(CodePointToUTF8(cp) + rest) == Some((cp, rest))
  {
    var s := CodePointToUTF8(cp) + rest;
    assert s[0] == cp && s[1..] == rest;
  }

  lemma TwoBytes(cp: scalar, rest: bytes)
    requires 0x7F < cp <= 0x7FF
    ensures DecodeOne(CodePointToUTF8(cp) + rest) == Some((cp, rest))
  {
    EncodersAgree(cp);
    var s := CodePointToUTF8(cp) + rest;
    var c1 := 0x80 + cp % 64;
    assert s[0] == 0xC0 + cp / 64 && s[1..] == [c1] + rest && s[2..] == rest;
    hide Tail, CodePointToUTF8;
    TailMore(cp / 64, c1, rest, 0);
    TailNone(cp, rest);
  }

  /** Surrogates, too, are written in three bytes, which are not legal. */
  lemma ThreeBytes(cp: nat, rest: bytes)
    requires 0x7FF < cp <= 0xFFFF
    ensures DecodeOne(CodePointToUTF8(cp) + rest) == if Scalar(cp) then Some((cp, rest)) else None
  {
    EncodersAgree(cp);
    var s := CodePointToUTF8(cp) + rest;
    var c1, c2 := 0x80 + cp / 64 % 64, 0x80 + cp % 64;
    assert s[0] == 0xE0 + cp / 64 / 64 && s[1..] == [c1] + ([c2] + rest) && s[3..] == rest;
    hide Tail, CodePointToUTF8;
    TailMore(cp / 64 / 64, c1, [c2] + rest, 1);
    TailMore(cp / 64, c2, rest, 0);
    TailNone(cp, rest);
  }

  lemma FourBytes(cp: scalar, rest: bytes)
    requires 0xFFFF < cp
    ensures DecodeOne(CodePointToUTF8(cp) + rest) == Some((cp, rest))
  {
    assert Scalar(cp);
    EncodersAgree(cp);
    var s := CodePointToUTF8(cp) + rest;
    var c1, c2, c3 := 0x80 + cp / 64 / 64 % 64, 0x80 + cp / 64 % 64, 0x80 + cp % 64;
    assert s[0] == 0xF0 + cp / 64 / 64 / 64 && s[1..] == [c1] + ([c2] + ([c3] + rest)) && s[4..] == rest;
    hide Tail, CodePointToUTF8;
    TailMore(cp / 64 / 64 / 64, c1, [c2] + ([c3] + rest), 2);
    TailMore(cp / 64 / 64, c2, [c3] + rest, 1);
    TailMore(cp / 64, c3, rest, 0);
    TailNone(cp, rest);
  }

  lemma DecodeEncodeOne(cp: scalar, rest: bytes)
    ensures DecodeOne(CodePointToUTF8(cp) + rest) == Some((cp, rest))
  {
    hide DecodeOne, CodePointToUTF8;
    if cp <= 0x7F {
      OneByte(cp, rest);
    } else if cp <= 0x7FF {
      TwoBytes(cp, rest);
    } else if cp <= 0xFFFF {
      ThreeBytes(cp, rest);
    } else {
      FourBytes(cp, rest);
    }
  }

  /** What codePointToUTF8 writes is UTF-8 for the code points, read by the book. */
  lemma {:induction false} DecodeEncode(cps: seq<scalar>)
    ensures DecodeAll(Encode(cps)) == Some(cps)
  {
    if cps != [] {
      hide DecodeOne, CodePointToUTF8;
      DecodeEncodeOne(cps[0], Encode(cps[1..]));
      DecodeEncode(cps[1..]);
      assert cps == [cps[0]] + cps[1..];
    }
  }

  /** Unique decodability. */
  lemma EncodeInjective(a: seq<scalar>, b: seq<scalar>)
    requires Encode(a) == Encode(b)
    ensures a == b
  {
    DecodeEncode(a);
    DecodeEncode(b);
  }

  /** Conversely, legal UTF-8 is what the encoder writes for what is read. */
  lemma {:induction false} EncodeDecode(s: bytes, cps: seq<scalar>)
    requires DecodeAll(s) == Some(cps)
    ensures Encode(cps) == s
    decreases |s|
  {
    if s != [] {
      hide DecodeOne, CodePointToUTF8;
      var (cp, rest) := DecodeOne(s).value;
      EncodeDecodeOne(s, cp, rest);
      EncodeDecode(rest, DecodeAll(rest).value);
      assert cps[0] == cp && cps[1..] == DecodeAll(rest).value;
    }
  }

  lemma TailSteps(bits: nat, s: bytes, n: nat)
    requires n <= |s| && Tail(bits, s, n).Some?
    ensures n == 0 ==> Tail(bits, s, n) == Some(bits)
    ensures n > 0 ==>
              Continues(s[0]) && Tail(bits, s, n) == Tail(bits * 64 + (s[0] - 0x80), s[1..], n - 1)
  {
  }

  lemma EncodeDecodeOne(s: bytes, cp: scalar, rest: bytes)
    requires DecodeOne(s) == Some((cp, rest))
    ensures CodePointToUTF8(cp) + rest == s
  {
    hide Tail;
    var (n, bits) := Lead(s[0]).value;
    var c1: int, c2: int, c3: int := 0, 0, 0;
    TailSteps(bits, s[1..], n);
    if n >= 1 {
      c1 := s[1] - 0x80;
      assert s[1..][1..] == s[2..];
      TailSteps(bits * 64 + c1, s[2..], n - 1);
    }
    if n >= 2 {
      c2 := s[2] - 0x80;
      assert s[2..][1..] == s[3..];
      TailSteps((bits * 64 + c1) * 64 + c2, s[3..], n - 2);
    }
    if n >= 3 {
      c3 := s[3] - 0x80;
      assert s[3..][1..] == s[4..];
      TailSteps(((bits * 64 + c1) * 64 + c2) * 64 + c3, s[4..], n - 3);
    }
    if n == 0 {
      assert s == [s[0]] + s[1..];
    } else if n == 1 {
      Regroup1(bits, c1, cp);
      assert s == [s[0], s[1]] + s[2..];
    } else if n == 2 {
      Regroup2(bits, c1, c2, cp);
      assert s == [s[0], s[1], s[2]] + s[3..];
    } else {
      Regroup3(bits, c1, c2, c3, cp);
      assert s == [s[0], s[1], s[2], s[3]] + s[4..];
    }
  }

  lemma Regroup1(bits: nat, c1: nat, cp: nat)
    requires bits < 0x20 && c1 < 64 && cp == bits * 64 + c1 && 0x80 <= cp
    ensures CodePointToUTF8(cp) == [0xC0 + bits, 0x80 + c1]
  {
  }

  lemma Regroup2(bits: nat, c1: nat, c2: nat, cp: nat)
    requires bits < 0x10 && c1 < 64 && c2 < 64 && cp == (bits * 64 + c1) * 64 + c2 && 0x800 <= cp
    ensures CodePointToUTF8(cp) == [0xE0 + bits, 0x80 + c1, 0x80 + c2]
  {
    assert cp % 64 == c2 && cp / 64 == bits * 64 + c1;
    assert cp / 0x1000 == cp / 64 / 64;
  }

  lemma Regroup3(bits: nat, c1: nat, c2: nat, c3: nat, cp: nat)
    requires bits < 8 && c1 < 64 && c2 < 64 && c3 < 64
    requires cp == ((bits * 64 + c1) * 64 + c2) * 64 + c3 && 0x10000 <= cp <= 0x10FFFF
    ensures CodePointToUTF8(cp) == [0xF0 + bits, 0x80 + c1, 0x80 + c2, 0x80 + c3]
  {
    assert cp % 64 == c3 && cp / 64 == (bits * 64 + c1) * 64 + c2;
    assert cp / 64 % 64 == c2 && cp / 64 / 64 == bits * 64 + c1;
    assert cp / 0x1000 == cp / 64 / 64 && cp / 0x40000 == cp / 64 / 64 / 64;
  }

  // ---------------------------------------------------------- JSON escapes

  /** Four hexadecimal digits, of either case, for a 16-bit unit. */
  predicate Quartet(h: bytes, unit: nat) {
    && |h| == 4
    && HexValue(h[0]) == Some(unit / 0x1000) && HexValue(h[1]) == Some(unit / 0x100 % 16)
    && HexValue(h[2]) == Some(unit / 0x10 % 16) && HexValue(h[3]) == Some(unit % 16)
  }

  predicate UnitAt(s: bytes, unit: nat) {
    |s| >= 6 && s[0] == BACKSLASH && s[1] == 0x75 && Quartet(s[2..6], unit)
  }

  /** The halves of a surrogate pair. */
  function High(cp: int): (r: nat)
    requires 0x10000 <= cp <= 0x10FFFF
    ensures 0xD800 <= r <= 0xDBFF && r % 0x400 == (cp - 0x10000) / 0x400
  {
    0xD800 + (cp - 0x10000) / 0x400
  }

  function Low(cp: int): (r: nat)
    requires 0x10000 <= cp <= 0x10FFFF
    ensures 0xDC00 <= r <= 0xDFFF && r % 0x400 == (cp - 0x10000) % 0x400
  {
    0xDC00 + (cp - 0x10000) % 0x400
  }

  lemma QuartetValue(s: bytes, unit: nat)
    requires |s| >= 4 && unit < 0x10000 && Quartet(s[..4], unit)
    ensures DecodeHex4(s) == Some(unit)
  {
    hide HexValue;
    assert s[..4][0] == s[0] && s[..4][1] == s[1] && s[..4][2] == s[2] && s[..4][3] == s[3];
    assert unit / 0x10 / 0x10 == unit / 0x100 && unit / 0x100 / 0x10 == unit / 0x1000;
  }

  lemma UnitDecodes(s: bytes, unit: nat)
    requires UnitAt(s, unit) && unit < 0x10000
    ensures DecodeHex4(s[2..]) == Some(unit)
  {
    assert s[2..][..4] == s[2..6];
    QuartetValue(s[2..], unit);
  }

  lemma PairValue(cp: int)
    requires 0x10000 <= cp <= 0x10FFFF
    ensures 0x10000 + High(cp) % 0x400 * 0x400 + Low(cp) % 0x400 == cp
  {
    var n := cp - 0x10000;
    assert n == n / 0x400 * 0x400 + n % 0x400;
  }

  /** The escapes at the start of `s` spell `cp`: one unit, or a surrogate pair. */
  predicate SpelledAt(s: bytes, cp: nat) {
    && Scalar(cp)
    && if cp < 0x10000 then UnitAt(s, cp) else UnitAt(s, High(cp)) && UnitAt(s[6..], Low(cp))
  }

  /** `s` spells the code points as escapes. */
  predicate Spells(s: bytes, cps: seq<scalar>) {
    if cps == [] then s == []
    else SpelledAt(s, cps[0]) && Spells(s[if cps[0] < 0x10000 then 6 else 12..], cps[1..])
  }

  lemma SpelledCodePoint(s: bytes, cp: nat)
    requires SpelledAt(s, cp)
    ensures DecodeCodePoint(s[2..]) == Some((cp, s[if cp < 0x10000 then 6 else 12..]))
  {
    hide DecodeHex4, Quartet, High, Low;
    if cp < 0x10000 {
      UnitDecodes(s, cp);
      assert s[2..][4..] == s[6..];
    } else {
      UnitDecodes(s, High(cp));
      UnitDecodes(s[6..], Low(cp));
      assert s[2..][4..] == s[6..] && s[6..][6..] == s[12..] && s[6..][2..] == s[8..];
      PairValue(cp);
    }
  }

  /** decodeString turns escapes into the UTF-8 of the code points they spell. */
  lemma {:induction false} SpelledDecodes(s: bytes, cps: seq<scalar>)
    requires Spells(s, cps)
    ensures DecodeChars(s) == Some(Encode(cps))
    decreases |cps|
  {
    if cps != [] {
      hide DecodeCodePoint, CodePointToUTF8, Quartet;
      SpelledCodePoint(s, cps[0]);
      SpelledDecodes(s[if cps[0] < 0x10000 then 6 else 12..], cps[1..]);
    }
  }

  // ---------------------------------------------------- surrogates on their own

  predicate IsHigh(unit: nat) {
    0xD800 <= unit <= 0xDBFF
  }

  predicate IsLow(unit: nat) {
    0xDC00 <= unit <= 0xDFFF
  }

  /** One escape: the reader's result is a code point at all exactly when the first unit is
      no low surrogate. It is the one that is spelled exactly when, besides, a high
      surrogate is followed by a low one. */
  lemma CodePointIff(s: bytes)
    requires |s| >= 2 && s[0] == BACKSLASH && s[1] == 0x75 && DecodeCodePoint(s[2..]).Some?
    ensures
      var cp, unit := DecodeCodePoint(s[2..]).value.0, DecodeHex4(s[2..]).value;
      && (Scalar(cp) <==> !IsLow(unit))
      && (SpelledAt(s, cp)
          <==> !IsLow(unit) && (IsHigh(unit) ==> |s| >= 12 && IsLow(DecodeHex4(s[8..]).GetOr(0))))
  {
    hide DecodeHex4, Quartet;
    var unit := DecodeHex4(s[2..]).value;
    QuartetIff(s, unit);
    if IsHigh(unit) {
      var t := s[2..][4..];
      assert t == s[6..] && t[2..] == s[8..];
      var low := DecodeHex4(s[8..]).value;
      QuartetIff(t, low);
      PairIff(unit, low);
      var cp := 0x10000 + unit % 0x400 * 0x400 + low % 0x400;
      UnitUnique(s, unit, High(cp));
      UnitUnique(t, low, Low(cp));
    }
  }

  /** What the reader takes for a unit is the unit that stands there. */
  lemma QuartetIff(s: bytes, unit: nat)
    requires |s| >= 6 && s[0] == BACKSLASH && s[1] == 0x75 && DecodeHex4(s[2..]) == Some(unit)
    ensures UnitAt(s, unit)
  {
    hide HexValue;
    var h := s[2..6];
    assert s[2..][0] == h[0] && s[2..][1] == h[1] && s[2..][2] == h[2] && s[2..][3] == h[3];
    var a, b, c, d := HexValue(h[0]).value, HexValue(h[1]).value, HexValue(h[2]).value, HexValue(h[3]).value;
    assert unit == ((a * 16 + b) * 16 + c) * 16 + d;
    assert unit / 16 == (a * 16 + b) * 16 + c && unit / 0x100 == unit / 16 / 16 && unit / 0x1000 == unit / 16 / 16 / 16;
  }

  lemma UnitUnique(s: bytes, unit: nat, other: nat)
    requires UnitAt(s, unit) && unit < 0x10000 && other < 0x10000
    ensures UnitAt(s, other) <==> unit == other
  {
    hide Quartet;
    UnitDecodes(s, unit);
    if UnitAt(s, other) {
      UnitDecodes(s, other);
    }
  }

  lemma PairIff(high: nat, low: nat)
    requires IsHigh(high) && low < 0x10000
    ensures
      var cp := 0x10000 + high % 0x400 * 0x400 + low % 0x400;
      && 0x10000 <= cp <= 0x10FFFF && High(cp) == high && (Low(cp) == low <==> IsLow(low))
  {
    var n := high % 0x400 * 0x400 + low % 0x400;
    assert n / 0x400 == high % 0x400 && n % 0x400 == low % 0x400;
  }

  /** `s` is the escapes of these units, and nothing else. */
  predicate EscapesOf(s: bytes, units: seq<nat>) {
    if units == [] then s == []
    else units[0] < 0x10000 && UnitAt(s, units[0]) && EscapesOf(s[6..], units[1..])
  }

  /** A high surrogate ends the text where the reader looks for the second half. */
  predicate Dangling(units: seq<nat>) {
    units != []
    && if IsHigh(units[0]) then |units| == 1 || Dangling(units[2..]) else Dangling(units[1..])
  }

  /** A low surrogate stands where the reader does not look for a second half. */
  predicate Stray(units: seq<nat>) {
    units != []
    && if IsHigh(units[0]) then |units| > 1 && Stray(units[2..]) else IsLow(units[0]) || Stray(units[1..])
  }

  /** Surrogates come in pairs, a high one and then a low one. */
  predicate Paired(units: seq<nat>) {
    units != [] ==>
      if IsHigh(units[0]) then |units| > 1 && IsLow(units[1]) && Paired(units[2..])
      else !IsLow(units[0]) && Paired(units[1..])
  }

  /** Text of escapes only: it is accepted exactly when no high surrogate is left over at
      its end, the result is then legal UTF-8 exactly when no low surrogate stands outside
      of a pair, and it is what the text spells exactly when all surrogates are paired:
      any unit is accepted behind a high surrogate. */
  lemma {:induction false} EscapesIff(s: bytes, units: seq<nat>)
    requires EscapesOf(s, units)
    ensures DecodeChars(s).Some? <==> !Dangling(units)
    ensures DecodeChars(s).Some? ==> (DecodeAll(DecodeChars(s).value).Some? <==> !Stray(units))
    ensures (exists cps: seq<scalar> :: Spells(s, cps) && DecodeChars(s) == Some(Encode(cps))) <==> Paired(units)
    decreases |units|
  {
    hide DecodeCodePoint, CodePointToUTF8, DecodeOne, UnitAt, DecodeChars, DecodeAll;
    if units == [] {
      EmptyEscapes(s);
    } else if IsHigh(units[0]) && |units| == 1 {
      HighAtEnd(s, units[0]);
    } else {
      var n := if IsHigh(units[0]) then 2 else 1;
      var cp := UnitsRead(s, units);
      EscapesIff(s[6 * n..], units[n..]);
      if DecodeChars(s[6 * n..]).Some? {
        PrefixDecoded(cp, DecodeChars(s[6 * n..]).value);
      }
      SpellsStep(s, units, n, cp);
    }
  }

  lemma EmptyEscapes(s: bytes)
    requires s == []
    ensures DecodeChars(s) == Some([]) && DecodeAll([]) == Some([])
    ensures Spells(s, []) && Encode([]) == []
  {
  }

  lemma HighAtEnd(s: bytes, unit: nat)
    requires EscapesOf(s, [unit]) && IsHigh(unit)
    ensures DecodeChars(s).None? && forall cps: seq<scalar> :: !Spells(s, cps)
  {
    hide Quartet;
    assert [unit][1..] == [];
    UnitDecodes(s, unit);
    assert s[6..] == [] && s[2..][4..] == s[6..];
    forall cps: seq<scalar> ensures !Spells(s, cps) {
      if cps != [] && Spells(s, cps) && cps[0] < 0x10000 {
        UnitUnique(s, unit, cps[0]);
      }
    }
  }

  /** The first escape, or two of them, as one round of decodeString reads them. */
  lemma UnitsRead(s: bytes, units: seq<nat>) returns (cp: nat)
    requires EscapesOf(s, units) && units != [] && (IsHigh(units[0]) ==> |units| > 1)
    ensures
      var n := if IsHigh(units[0]) then 2 else 1;
      && |s| >= 6 * n && EscapesOf(s[6 * n..], units[n..])
      && DecodeChars(s) == Cons(CodePointToUTF8(cp), DecodeChars(s[6 * n..]))
      && (SpelledAt(s, cp) <==> !IsLow(units[0]) && (n == 2 ==> IsLow(units[1])))
      && (Scalar(cp) <==> !IsLow(units[0])) && cp <= 0x10FFFF
      && DecodeCodePoint(s[2..]) == Some((cp, s[6 * n..]))
  {
    hide Quartet, CodePointToUTF8, SpelledAt;
    UnitDecodes(s, units[0]);
    assert s[2..][4..] == s[6..];
    if IsHigh(units[0]) {
      var t := s[6..];
      assert units[1..][0] == units[1] && units[1..][1..] == units[2..];
      UnitDecodes(t, units[1]);
      assert t[6..] == s[12..] && t[2..] == s[8..];
    }
    cp := DecodeCodePoint(s[2..]).value.0;
    CodePointIff(s);
  }

  lemma PrefixDecoded(cp: nat, rest: bytes)
    requires cp <= 0x10FFFF && (Scalar(cp) || cp > 0x7FF)
    ensures DecodeAll(CodePointToUTF8(cp) + rest).Some? <==> Scalar(cp) && DecodeAll(rest).Some?
  {
    hide DecodeOne;
    if Scalar(cp) {
      DecodeEncodeOne(cp, rest);
    } else {
      ThreeBytes(cp, rest);
    }
  }

  /** What the text spells begins with what its first escapes spell. */
  lemma SpellsStep(s: bytes, units: seq<nat>, n: nat, cp: nat)
    requires EscapesOf(s, units) && units != [] && n == (if IsHigh(units[0]) then 2 else 1) <= |units|
    requires |s| >= 6 * n && DecodeCodePoint(s[2..]) == Some((cp, s[6 * n..]))
    requires DecodeChars(s) == Cons(CodePointToUTF8(cp), DecodeChars(s[6 * n..]))
    ensures
      (exists cps: seq<scalar> :: Spells(s, cps) && DecodeChars(s) == Some(Encode(cps)))
      <==> SpelledAt(s, cp)
           && exists cps: seq<scalar> :: Spells(s[6 * n..], cps) && DecodeChars(s[6 * n..]) == Some(Encode(cps))
  {
    hide CodePointToUTF8, DecodeChars, DecodeCodePoint, UnitAt, EscapesOf, Spells;
    var t := s[6 * n..];
    if cps: seq<scalar> :| Spells(s, cps) && DecodeChars(s) == Some(Encode(cps)) {
      SpellsUncons(s, cps, t, cp);
      SpelledDecodes(t, cps[1..]);
    }
    if cps: seq<scalar> :| SpelledAt(s, cp) && Spells(t, cps) && DecodeChars(t) == Some(Encode(cps)) {
      SpellsCons(s, cps, t, cp);
      SpelledDecodes(s, [cp as scalar] + cps);
    }
  }

  lemma SpellsUncons(s: bytes, cps: seq<scalar>, t: bytes, cp: nat)
    requires s != [] && Spells(s, cps) && DecodeCodePoint(s[if |s| >= 2 then 2 else 0..]) == Some((cp, t))
    ensures cps != [] && cps[0] == cp && SpelledAt(s, cp) && Spells(t, cps[1..])
  {
    hide DecodeCodePoint, Quartet;
    SpelledCodePoint(s, cps[0]);
  }

  lemma SpellsCons(s: bytes, cps: seq<scalar>, t: bytes, cp: nat)
    requires SpelledAt(s, cp) && Spells(t, cps) && DecodeCodePoint(s[2..]) == Some((cp, t))
    ensures Spells(s, [cp as scalar] + cps)
  {
    hide DecodeCodePoint, Quartet;
    SpelledCodePoint(s, cp);
    assert ([cp as scalar] + cps)[1..] == cps;
  }

  /** A high surrogate followed by the escape of "A" is read as U+10041. */
  lemma UnpairedHighAccepted(s: bytes)
    requires s == [0x5C, 0x75, 0x44, 0x38, 0x30, 0x30, 0x5C, 0x75, 0x30, 0x30, 0x34, 0x31]
    ensures DecodeChars(s) == Some(Encode([0x10041]))
  {
    hide UnitAt, DecodeHex4, DecodeChars, CodePointToUTF8, EscapesOf;
    TwoEscapes(s);
    UnitDecodes(s, 0xD800);
    UnitDecodes(s[6..], 0x41);
    assert s[2..][4..] == s[6..] && s[6..][2..] == s[2..][4..][2..] && s[2..][4..][6..] == s[12..] == [];
    var cp := UnitsRead(s, [0xD800, 0x41]);
    EmptyEscapes(s[12..]);
    assert [0x10041 as scalar][1..] == [] && CodePointToUTF8(cp) + [] == CodePointToUTF8(cp);
  }

  lemma TwoEscapes(s: bytes)
    requires s == [0x5C, 0x75, 0x44, 0x38, 0x30, 0x30, 0x5C, 0x75, 0x30, 0x30, 0x34, 0x31]
    ensures UnitAt(s, 0xD800) && UnitAt(s[6..], 0x41) && EscapesOf(s, [0xD800, 0x41])
  {
    assert s[2..6] == [0x44, 0x38, 0x30, 0x30] && s[6..][2..6] == [0x30, 0x30, 0x34, 0x31];
    var units := [0xD800, 0x41];
    assert units[1..] == [0x41] && units[2..] == [] && units[1..][1..] == [] && s[6..][6..] == [];
    assert EscapesOf(s[6..], units[1..]);
  }

  // --------------------------------------------------------- the XML encoder

  /** The bytes are stored from the last to the first, six bits at a time. */
  method ConvertUTF32ToUTF8(input: nat, output: array<byte>) returns (length: nat)
    requires output.Length >= 4
    modifies output
    ensures length == |Utf32ToUtf8(input)| && output[..length] == Utf32ToUtf8(input)
    ensures forall k | length <= k < output.Length :: output[k] == old(output[k])
  {
    if input < 0x80 {
      length := 1;
    } else if input < 0x800 {
      length := 2;
    } else if input < 0x10000 {
      length := 3;
    } else if input < 0x200000 {
      length := 4;
    } else {
      return 0;
    }
    var bits, at := input, length;
    if length == 4 {
      at := at - 1;
      output[at] := 0x80 + bits % 64;
      bits := bits / 64;
    }
    if length >= 3 {
      at := at - 1;
      output[at] := 0x80 + bits % 64;
      bits := bits / 64;
    }
    if length >= 2 {
      at := at - 1;
      output[at] := 0x80 + bits % 64;
      bits := bits / 64;
    }
    var mark := [0x00, 0x00, 0xC0, 0xE0, 0xF0];
    output[at - 1] := bits + mark[length];
  }
}
