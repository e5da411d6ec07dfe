/** Character data of tinyxml2: how the printer escapes it, and how StrPair::GetStr
    decodes it in place. */
module XmlText {
  import opened Wrappers
  import opened Bytes
  import opened Unicode

  const LF: byte := 0x0A
  const CR: byte := 0x0D
  const AMP: byte := 0x26
  const HASH: byte := 0x23
  const SEMICOLON: byte := 0x3B
  const LOWER_X: byte := 0x78
  const LT: byte := 0x3C
  const GT: byte := 0x3E
  const QUOT: byte := 0x22
  const APOS: byte := 0x27

  /** The entity table: patterns and the characters they stand for. */
  const ENTITIES: seq<(bytes, byte)> := [
    ([0x71, 0x75, 0x6F, 0x74], QUOT), ([0x61, 0x6D, 0x70], AMP), ([0x61, 0x70, 0x6F, 0x73], APOS),
    ([0x6C, 0x74], LT), ([0x67, 0x74], GT)]

  /** Section 4.6 of the XML recommendation. */
  lemma EntitiesSpelled()
    ensures |ENTITIES| == 5 && Ascii(ENTITIES[0].0, "quot") && Ascii(ENTITIES[1].0, "amp")
    ensures Ascii(ENTITIES[2].0, "apos") && Ascii(ENTITIES[3].0, "lt") && Ascii(ENTITIES[4].0, "gt")
    ensures ENTITIES[0].1 == '\"' as int && ENTITIES[1].1 == '&' as int && ENTITIES[2].1 == '\'' as int
    ensures ENTITIES[3].1 == '<' as int && ENTITIES[4].1 == '>' as int
  {
  }

  predicate NoNul(s: bytes) {
    forall c <- s :: c != 0
  }

  // --------------------------------------------------------------- escaping

  /** _restrictedEntityFlag, for text, and _entityFlag, for attribute values. */
  predicate Flagged(c: byte, restricted: bool) {
    c == AMP || c == LT || c == GT || (!restricted && (c == QUOT || c == APOS))
  }

  /** The index of a flagged character in the table. */
  function EntityOf(c: byte): nat {
    if c == QUOT then 0 else if c == AMP then 1 else if c == APOS then 2 else if c == LT then 3 else 4
  }

  function EscapeChar(c: byte, restricted: bool): (r: bytes)
    ensures r != []
  {
    if Flagged(c, restricted) then [AMP] + ENTITIES[EntityOf(c)].0 + [SEMICOLON] else [c]
  }

  /** PrintString */
  function Escape(s: bytes, restricted: bool): bytes {
    if s == [] then [] else EscapeChar(s[0], restricted) + Escape(s[1..], restricted)
  }

  lemma {:induction false} EscapeConcat(a: bytes, b: bytes, restricted: bool)
    ensures Escape(a + b, restricted) == Escape(a, restricted) + Escape(b, restricted)
  {
    if a == [] {
      assert a + b == b;
    } else {
      assert (a + b)[1..] == a[1..] + b;
      EscapeConcat(a[1..], b, restricted);
    }
  }

  // --------------------------------------------------------------- decoding

  /** NEEDS_ENTITY_PROCESSING and NEEDS_NEWLINE_NORMALIZATION. */
  datatype Flags = Flags(entities: bool, newlines: bool)

  const TEXT_ELEMENT := Flags(true, true)
  const MARKUP := Flags(false, true)

  /** The text ends in a NUL. */
  function At(t: bytes, i: nat): byte {
    if i < |t| then t[i] else 0
  }

  function FindByte(t: bytes, c: byte, i: nat): (r: Option<nat>)
    requires i <= |t|
    ensures r.Some? ==> i <= r.value < |t| && t[r.value] == c
    decreases |t| - i
  {
    if i == |t| then None else if t[i] == c then Some(i) else FindByte(t, c, i + 1)
  }

  function U32(n: nat): (r: nat)
    ensures r < TWO32 && (n < TWO32 ==> r == n)
  {
    n % 0x1_0000_0000
  }

  function DigitValue(c: byte, base: nat): Option<nat> {
    if base == 16 then HexValue(c) else if 0x30 <= c <= 0x39 then Some(c - 0x30) else None
  }

  /** Digits read backwards from `q` to the mark; 32-bit words that wrap around. */
  function BackDigits(t: bytes, q: nat, mark: byte, base: nat, mult: nat, ucs: nat): (r: Option<nat>)
    requires q < |t| && mark in t[..q + 1]
    decreases q
  {
    if t[q] == mark then Some(ucs)
    else match DigitValue(t[q], base)
      case None => None
      case Some(digit) =>
        assert t[..q + 1] == t[..q] + [t[q]];
        BackDigits(t, q - 1, mark, base, U32(mult * base), U32(ucs + U32(mult * digit)))
  }

  /** GetCharacterRef on text that starts with "&#": the bytes the reference stands for,
      and how much text it takes. When the text ends right there nothing is stored. */
  function CharacterRef(t: bytes): (r: Option<(bytes, nat)>)
    requires |t| > 1 && t[1] == HASH
    ensures r.Some? ==> |r.value.0| <= r.value.1 && 0 < r.value.1 <= |t|
  {
    if At(t, 2) == 0 then Some(([], 1))
    else
      var hex := t[2] == LOWER_X;
      var first := if hex then 3 else 2;
      if At(t, first) == 0 then None
      else match FindByte(t, SEMICOLON, first)
        case None => None
        case Some(end) =>
          var mark := if hex then LOWER_X else HASH;
          assert t[..end][first - 1] == mark;
          match BackDigits(t, end - 1, mark, if hex then 16 else 10, 1, 0)
          case None => None
          case Some(ucs) => Some((Utf32ToUtf8(ucs), end + 1))
  }

  predicate EntityAt(t: bytes, k: nat)
    requires k < |ENTITIES| && t != []
  {
    ENTITIES[k].0 + [SEMICOLON] <= t[1..]
  }

  /** The first entity of the table that follows the "&", if any. */
  function FindEntity(t: bytes, k: nat): (r: nat)
    requires k <= |ENTITIES| && t != []
    ensures k <= r <= |ENTITIES| && (r < |ENTITIES| ==> EntityAt(t, r))
    decreases |ENTITIES| - k
  {
    if k == |ENTITIES| || EntityAt(t, k) then k else FindEntity(t, k + 1)
  }

  /** One round of the loop in GetStr on the text at the read pointer: what is stored, and
      how much is read. An "&" that starts nothing known leaves the byte at the write
      pointer as it is. */
  function DecodeStep(t: bytes, flags: Flags, stale: byte): (r: (bytes, nat))
    requires t != []
    ensures |r.0| <= r.1 && 0 < r.1 <= |t|
  {
    if flags.newlines && t[0] == CR then ([LF], if At(t, 1) == LF then 2 else 1)
    else if flags.newlines && t[0] == LF then ([LF], if At(t, 1) == CR then 2 else 1)
    else if flags.entities && t[0] == AMP then
      if At(t, 1) == HASH then
        match CharacterRef(t)
        case None => ([AMP], 1)
        case Some(r) => r
      else
        var k := FindEntity(t, 0);
        if k < |ENTITIES| then ([ENTITIES[k].1], |ENTITIES[k].0| + 2) else ([stale], 1)
    else ([t[0]], 1)
  }

  /** GetStr: `out` has been written over the start of `t`, `p` is the read pointer. */
  function Decode(t: bytes, p: nat, out: bytes, flags: Flags): (r: bytes)
    requires |out| <= p <= |t|
    decreases |t| - p
  {
    if p == |t| then out
    else
      var (w, n) := DecodeStep(t[p..], flags, t[|out|]);
      Decode(t, p + n, out + w, flags)
  }

  // ------------------------------------------------------------- round trip

  /** Line ends as GetStr leaves them. */
  function Normalize(s: bytes): (r: bytes) {
    if s == [] then []
    else if s[0] == CR then [LF] + Normalize(s[if |s| > 1 && s[1] == LF then 2 else 1..])
    else if s[0] == LF then [LF] + Normalize(s[if |s| > 1 && s[1] == CR then 2 else 1..])
    else [s[0]] + Normalize(s[1..])
  }

  lemma {:induction false} NormalizeNoCr(s: bytes)
    ensures CR !in Normalize(s)
    ensures CR !in s ==> Normalize(s) == s
    decreases |s|
  {
    if s != [] {
      NormalizeNoCr(s[1..]);
      if |s| > 1 {
        NormalizeNoCr(s[2..]);
      }
      if CR !in s {
        assert s[0] in s && (|s| > 1 ==> s[1] in s) && forall c <- s[1..] :: c in s;
        assert s == [s[0]] + s[1..];
      }
    }
  }

  /** Normalizing is the identity exactly on text without carriage returns. */
  lemma NormalizeIff(s: bytes)
    ensures Normalize(s) == s <==> CR !in s
  {
    NormalizeNoCr(s);
  }

  lemma EscapeHead(s: bytes, restricted: bool)
    requires s != []
    ensures
      var e := Escape(s, restricted);
      && e != [] && (e[0] == CR <==> s[0] == CR) && (e[0] == LF <==> s[0] == LF)
      && e == EscapeChar(s[0], restricted) + Escape(s[1..], restricted)
  {
  }

  /** Each entity is told apart from those before it in the table. */
  lemma EntityFirst(t: bytes, k: nat, rest: bytes)
    requires t != [] && k < |ENTITIES| && t[1..] == ENTITIES[k].0 + [SEMICOLON] + rest
    ensures FindEntity(t, 0) == k
  {
    var u := t[1..];
    assert EntityAt(t, k);
    assert u[0] == ENTITIES[k].0[0] && u[1] == ENTITIES[k].0[1];
    forall j | 0 <= j < k ensures !EntityAt(t, j) {
      assert ENTITIES[j].0[0] != u[0] || ENTITIES[j].0[1] != u[1];
    }
    FindFirst(t, 0, k);
  }

  lemma {:induction false} FindFirst(t: bytes, j: nat, k: nat)
    requires t != [] && j <= k < |ENTITIES| && EntityAt(t, k)
    requires forall i | j <= i < k :: !EntityAt(t, i)
    ensures FindEntity(t, j) == k
    decreases k - j
  {
    if j < k {
      FindFirst(t, j + 1, k);
    }
  }

  /** A flagged character is read back from its entity. */
  lemma EntityRead(c: byte, rest: bytes, stale: byte)
    requires Flagged(c, false)
    ensures DecodeStep(EscapeChar(c, false) + rest, TEXT_ELEMENT, stale) == ([c], |EscapeChar(c, false)|)
  {
    hide FindEntity, EntityAt;
    var k := EntityOf(c);
    var name := ENTITIES[k].0;
    var t := EscapeChar(c, false) + rest;
    assert t == [AMP] + (name + ([SEMICOLON] + rest));
    assert t[1..] == name + [SEMICOLON] + rest;
    assert t[1] == name[0];
    EntityFirst(t, k, rest);
  }

  /** How many characters of the original one round takes. */
  function Pace(s: bytes): (n: nat)
    requires s != []
    ensures 1 <= n <= 2 && n <= |s|
  {
    if |s| > 1 && ((s[0] == CR && s[1] == LF) || (s[0] == LF && s[1] == CR)) then 2 else 1
  }

  function Fold(c: byte): byte {
    if c == CR then LF else c
  }

  lemma NormalizeStep(s: bytes)
    requires s != []
    ensures Normalize(s) == [Fold(s[0])] + Normalize(s[Pace(s)..])
  {
  }

  lemma EscapeSplit(s: bytes, n: nat, restricted: bool)
    requires n <= |s|
    ensures Escape(s, restricted) == Escape(s[..n], restricted) + Escape(s[n..], restricted)
  {
    assert s == s[..n] + s[n..];
    EscapeConcat(s[..n], s[n..], restricted);
  }

  /** One character of escaped text is decoded as normalizing the original says. */
  lemma EscapedStep(s: bytes, restricted: bool, stale: byte)
    requires s != [] && NoNul(s)
    ensures Escape(s, restricted) != []
    ensures
      DecodeStep(Escape(s, restricted), TEXT_ELEMENT, stale)
      == ([Fold(s[0])], |Escape(s[..Pace(s)], restricted)|)
  {
    EscapeHead(s, restricted);
    EscapeShort(s, Pace(s), restricted);
    if Flagged(s[0], restricted) {
      hide Escape, DecodeStep;
      EntityRead(s[0], Escape(s[1..], restricted), stale);
    } else {
      PlainStep(s, restricted, stale);
    }
  }

  lemma PlainStep(s: bytes, restricted: bool, stale: byte)
    requires s != [] && NoNul(s) && !Flagged(s[0], restricted)
    ensures Escape(s, restricted) != []
    ensures DecodeStep(Escape(s, restricted), TEXT_ELEMENT, stale) == ([Fold(s[0])], Pace(s))
  {
    hide FindEntity, CharacterRef;
    var e := Escape(s, restricted);
    EscapeHead(s, restricted);
    assert e == [s[0]] + Escape(s[1..], restricted);
    if |s| > 1 {
      EscapeHead(s[1..], restricted);
      assert e[1] == Escape(s[1..], restricted)[0];
    }
  }

  lemma EscapeShort(s: bytes, n: nat, restricted: bool)
    requires 1 <= n <= 2 && n <= |s|
    ensures n == 1 ==> Escape(s[..n], restricted) == EscapeChar(s[0], restricted)
    ensures n == 2 ==> Escape(s[..n], restricted) == EscapeChar(s[0], restricted) + EscapeChar(s[1], restricted)
  {
    assert s[..n][1..] == s[1..n];
    assert EscapeChar(s[0], restricted) + [] == EscapeChar(s[0], restricted);
    if n == 2 {
      assert s[1..n][1..] == [];
      assert Escape(s[1..n], restricted) == EscapeChar(s[1], restricted) + [] == EscapeChar(s[1], restricted);
    }
  }

  lemma DecodeRound(t: bytes, p: nat, out: bytes, flags: Flags, w: bytes, n: nat)
    requires |out| <= p < |t| && DecodeStep(t[p..], flags, t[|out|]) == (w, n)
    ensures Decode(t, p, out, flags) == Decode(t, p + n, out + w, flags)
  {
    hide DecodeStep;
  }

  lemma DecodeEnd(t: bytes, out: bytes, flags: Flags)
    requires |out| <= |t|
    ensures Decode(t, |t|, out, flags) == out
  {
  }

  lemma DropFront(a: bytes, b: bytes)
    ensures (a + b)[|a|..] == b && |a + b| == |a| + |b|
  {
  }

  lemma DecodeJoined(done: bytes, e: bytes, e1: bytes, e2: bytes, out: bytes, w: bytes)
    requires |out| <= |done| && e == e1 + e2 && e1 != []
    requires DecodeStep(e, TEXT_ELEMENT, (done + e)[|out|]) == (w, |e1|)
    ensures |w| <= |e1|
    ensures Decode(done + e, |done|, out, TEXT_ELEMENT) == Decode(done + e1 + e2, |done + e1|, out + w, TEXT_ELEMENT)
  {
    hide DecodeStep, Decode;
    DropFront(done, e);
    DecodeRound(done + e, |done|, out, TEXT_ELEMENT, w, |e1|);
    Assoc(done, e1, e2);
  }

  lemma {:induction false} DecodeEscaped(done: bytes, s: bytes, out: bytes, restricted: bool)
    requires |out| <= |done| && NoNul(s)
    ensures Decode(done + Escape(s, restricted), |done|, out, TEXT_ELEMENT) == out + Normalize(s)
    decreases |s|
  {
    if s == [] {
      assert out + [] == out;
    } else {
      hide Escape, Normalize, DecodeStep, Decode, Fold, Pace;
      var n, w := Pace(s), [Fold(s[0])];
      var e, e1, e2 := Escape(s, restricted), Escape(s[..n], restricted), Escape(s[n..], restricted);
      EscapedStep(s, restricted, (done + e)[|out|]);
      EscapeNonEmpty(s[..n], restricted);
      EscapeSplit(s, n, restricted);
      DecodeJoined(done, e, e1, e2, out, w);
      assert NoNul(s[n..]) by {
        assert forall x <- s[n..] :: x in s;
      }
      DecodeEscaped(done + e1, s[n..], out + w, restricted);
      NormalizeStep(s);
      Assoc(out, w, Normalize(s[n..]));
    }
  }

  lemma EscapeNonEmpty(s: bytes, restricted: bool)
    requires s != []
    ensures Escape(s, restricted) != []
  {
  }

  /** GetStr undoes PrintString, in text and in attribute values, up to line ends. */
  lemma DecodeEscape(s: bytes, restricted: bool)
    requires NoNul(s)
    ensures Decode(Escape(s, restricted), 0, [], TEXT_ELEMENT) == Normalize(s)
    ensures Decode(Escape(s, restricted), 0, [], TEXT_ELEMENT) == s <==> CR !in s
  {
    DecodeEscaped([], s, [], restricted);
    assert [] + Escape(s, restricted) == Escape(s, restricted) && [] + Normalize(s) == Normalize(s);
    NormalizeIff(s);
  }

  /** An "&" that starts nothing the reader knows. */
  predicate Unknown(t: bytes, flags: Flags) {
    t != [] && flags.entities && t[0] == AMP && At(t, 1) != HASH && FindEntity(t, 0) == |ENTITIES|
  }

  /** One unknown entity: its "&" is kept exactly when the byte at the write pointer is an
      "&" itself. */
  lemma UnknownEntityIff(t: bytes, p: nat, out: bytes, flags: Flags)
    requires |out| <= p < |t| && Unknown(t[p..], flags)
    ensures DecodeStep(t[p..], flags, t[|out|]) == ([AMP], 1) <==> t[|out|] == AMP
    ensures |Decode(t, p, out, flags)| > |out|
    ensures Decode(t, p, out, flags)[|out|] == AMP <==> t[|out|] == AMP
  {
    hide FindEntity, Decode;
    DecodeRound(t, p, out, flags, [t[|out|]], 1);
    DecodeExtends(t, p + 1, out + [t[|out|]], flags);
  }

  /** What has been stored is never changed. */
  lemma {:induction false} DecodeExtends(t: bytes, p: nat, out: bytes, flags: Flags)
    requires |out| <= p <= |t|
    ensures out <= Decode(t, p, out, flags)
    decreases |t| - p
  {
    hide DecodeStep;
    if p < |t| {
      var (w, n) := DecodeStep(t[p..], flags, t[|out|]);
      DecodeExtends(t, p + n, out + w, flags);
    }
  }

  /** What decoding is meant to give: an "&" that starts nothing known stays. */
  function Ideal(t: bytes, flags: Flags): (r: bytes)
    decreases |t|
  {
    if t == [] then []
    else
      var (w, n) := DecodeStep(t, flags, AMP);
      w + Ideal(t[n..], flags)
  }

  /** Wherever the read pointer, from `p` on, meets an unknown entity, the write pointer,
      now at `q`, stands on an "&" of the original text. */
  predicate WriterAtAmp(t: bytes, p: nat, q: nat, flags: Flags)
    requires q <= p <= |t|
    decreases |t| - p
  {
    if p == |t| then true
    else
      var (w, n) := DecodeStep(t[p..], flags, AMP);
      (Unknown(t[p..], flags) ==> t[q] == AMP) && WriterAtAmp(t, p + n, q + |w|, flags)
  }

  /** The byte at the write pointer matters to unknown entities only. */
  lemma StepStale(t: bytes, flags: Flags, stale: byte)
    requires t != []
    ensures !Unknown(t, flags) ==> DecodeStep(t, flags, stale) == DecodeStep(t, flags, AMP)
    ensures Unknown(t, flags) ==> DecodeStep(t, flags, stale) == ([stale], 1)
  {
    hide FindEntity;
  }

  lemma IdealRound(t: bytes, p: nat, q: nat, flags: Flags, w: bytes, n: nat)
    requires q <= p < |t| && DecodeStep(t[p..], flags, AMP) == (w, n)
    ensures Ideal(t[p..], flags) == w + Ideal(t[p + n..], flags)
    ensures WriterAtAmp(t, p, q, flags)
            <==> (Unknown(t[p..], flags) ==> t[q] == AMP) && WriterAtAmp(t, p + n, q + |w|, flags)
  {
    hide DecodeStep, Unknown;
    assert t[p..][n..] == t[p + n..];
  }

  /** Text is decoded as it is meant to be exactly when, at each unknown entity, the write
      pointer stands on an "&". */
  lemma {:induction false} DecodeIdealIff(t: bytes, p: nat, out: bytes, flags: Flags)
    requires |out| <= p <= |t|
    ensures Decode(t, p, out, flags) == out + Ideal(t[p..], flags) <==> WriterAtAmp(t, p, |out|, flags)
    decreases |t| - p
  {
    hide DecodeStep, Unknown, Decode, Ideal, WriterAtAmp;
    if p == |t| {
      IdealEnd(t, out, flags);
    } else {
      StepStale(t[p..], flags, t[|out|]);
      StepStale(t[p..], flags, AMP);
      var (w, n) := DecodeStep(t[p..], flags, AMP);
      IdealRound(t, p, |out|, flags, w, n);
      if Unknown(t[p..], flags) && t[|out|] != AMP {
        assert (w, n) == ([AMP], 1);
        StaleShows(t, p, out, flags, Ideal(t[p + 1..], flags));
      } else {
        Assoc(out, w, Ideal(t[p + n..], flags));
        DecodeRound(t, p, out, flags, w, n);
        DecodeIdealIff(t, p + n, out + w, flags);
      }
    }
  }

  lemma IdealEnd(t: bytes, out: bytes, flags: Flags)
    requires |out| <= |t|
    ensures Decode(t, |t|, out, flags) == out + Ideal(t[|t|..], flags) && WriterAtAmp(t, |t|, |out|, flags)
  {
    assert t[|t|..] == [] && out + [] == out;
  }

  lemma StaleShows(t: bytes, p: nat, out: bytes, flags: Flags, more: bytes)
    requires |out| <= p < |t| && Unknown(t[p..], flags) && t[|out|] != AMP
    ensures Decode(t, p, out, flags) != out + ([AMP] + more)
  {
    hide Unknown, Decode;
    UnknownEntityIff(t, p, out, flags);
    assert (out + ([AMP] + more))[|out|] == AMP;
  }

  /** Nothing is shortened: no known entity, no reference and no line end of two bytes. */
  predicate KeepsLength(t: bytes, flags: Flags)
    decreases |t|
  {
    t == [] || var (w, n) := DecodeStep(t, flags, AMP); |w| == n && KeepsLength(t[n..], flags)
  }

  /** In particular, when nothing comes before that the reader shortens. */
  lemma {:induction false} KeptLengthIdeal(t: bytes, p: nat, flags: Flags)
    requires p <= |t| && KeepsLength(t[p..], flags)
    ensures WriterAtAmp(t, p, p, flags)
    decreases |t| - p
  {
    hide DecodeStep, WriterAtAmp, KeepsLength, Ideal, Unknown;
    if p < |t| {
      var (w, n) := DecodeStep(t[p..], flags, AMP);
      LengthRound(t, p, flags);
      IdealRound(t, p, p, flags, w, n);
      KeptLengthIdeal(t, p + n, flags);
    } else {
      IdealEnd(t, t, flags);
    }
  }

  lemma LengthRound(t: bytes, p: nat, flags: Flags)
    requires p < |t| && KeepsLength(t[p..], flags)
    ensures var (w, n) := DecodeStep(t[p..], flags, AMP);
      |w| == n && KeepsLength(t[p + n..], flags) && (Unknown(t[p..], flags) ==> t[p] == AMP)
  {
    hide DecodeStep;
    var n := DecodeStep(t[p..], flags, AMP).1;
    assert t[p..][n..] == t[p + n..] && t[p..][0] == t[p];
  }

  /** GetStr on a whole text. */
  lemma WholeTextIdealIff(t: bytes, flags: Flags)
    ensures Decode(t, 0, [], flags) == Ideal(t, flags) <==> WriterAtAmp(t, 0, 0, flags)
    ensures KeepsLength(t, flags) ==> Decode(t, 0, [], flags) == Ideal(t, flags)
  {
    DecodeIdealIff(t, 0, [], flags);
    assert t[0..] == t && [] + Ideal(t, flags) == Ideal(t, flags);
    if KeepsLength(t, flags) {
      KeptLengthIdeal(t, 0, flags);
    }
  }

  /** An input that fails: the unknown entity behind a decoded one loses its "&". */
  lemma UnknownEntityGarbled(t: bytes)
    requires t == [AMP, 0x6C, 0x74, SEMICOLON, AMP, 0x7A]
    ensures Decode(t, 0, [], TEXT_ELEMENT) == [LT, 0x6C, 0x7A]
  {
    hide Decode, FindEntity;
    assert t[0..] == t;
    EntityFirst(t, 3, t[4..]);
    DecodeRound(t, 0, [], TEXT_ELEMENT, [LT], 4);
    forall j | 0 <= j < 5 ensures !EntityAt(t[4..], j) {
      assert |t[4..][1..]| == 1 && |ENTITIES[j].0| > 0;
    }
    NoEntity(t[4..], 0);
    assert t[1] == 0x6C && [] + [LT] == [LT];
    DecodeRound(t, 4, [LT], TEXT_ELEMENT, [0x6C], 1);
    DecodeRound(t, 5, [LT] + [0x6C], TEXT_ELEMENT, [0x7A], 1);
    DecodeEnd(t, [LT] + [0x6C] + [0x7A], TEXT_ELEMENT);
    assert [LT] + [0x6C] + [0x7A] == [LT, 0x6C, 0x7A];
  }

  lemma {:induction false} NoEntity(t: bytes, j: nat)
    requires t != [] && j <= |ENTITIES| && forall i | j <= i < |ENTITIES| :: !EntityAt(t, i)
    ensures FindEntity(t, j) == |ENTITIES|
    decreases |ENTITIES| - j
  {
    if j < |ENTITIES| {
      NoEntity(t, j + 1);
    }
  }

  /** Without flags nothing is rewritten. */
  lemma {:induction false} DecodePlain(t: bytes, p: nat, out: bytes)
    requires p <= |t| && out == t[..p]
    ensures Decode(t, p, out, Flags(false, false)) == t
    decreases |t| - p
  {
    if p < |t| {
      assert t[..p] + [t[p]] == t[..p + 1];
      DecodePlain(t, p + 1, out + [t[p]]);
    }
  }
}
