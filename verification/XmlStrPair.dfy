/** StrPair: a stretch of the document buffer that is decoded over itself the first time
    it is looked at. */
module XmlStrPair {
  import opened Wrappers
  import opened Bytes
  import opened Unicode
  import opened XmlText

  /** GetCharacterRef; the loops run backwards from the semicolon. */
  method GetCharacterRef(t: bytes, value: array<byte>) returns (next: nat, length: nat)
    requires |t| > 1 && t[1] == HASH && value.Length >= 4
    modifies value
    ensures length <= 4
    ensures
      match CharacterRef(t)
      case None => next == 0
      case Some(r) => next == r.1 && value[..length] == r.0
  {
    next, length := 0, 0;
    if At(t, 2) == 0 {
      return 1, 0;
    }
    var hex := t[2] == LOWER_X;
    var first := if hex then 3 else 2;
    if At(t, first) == 0 {
      return;
    }
    var semicolon := FindByte(t, SEMICOLON, first);
    if semicolon.None? {
      return;
    }
    var end := semicolon.value;
    var mark := if hex then LOWER_X else HASH;
    var base := if hex then 16 else 10;
    hide BackDigits;
    assert t[..end][first - 1] == mark;
    var ucs := ReadDigits(t, end, mark, base);
    if ucs.None? {
      return;
    }
    length := ConvertUTF32ToUTF8(ucs.value, value);
    next := end + 1;
  }

  method ReadDigits(t: bytes, end: nat, mark: byte, base: nat) returns (r: Option<nat>)
    requires 0 < end <= |t| && mark in t[..end]
    ensures r == BackDigits(t, end - 1, mark, base, 1, 0)
  {
    hide BackDigits, U32, DigitValue;
    var mult: nat, ucs: nat, q := 1, 0, end - 1;
    while t[q] != mark
      invariant 0 <= q < end && mark in t[..q + 1]
      invariant BackDigits(t, q, mark, base, mult, ucs) == BackDigits(t, end - 1, mark, base, 1, 0)
      decreases q
    {
      var digit := DigitValue(t[q], base);
      BackDigitsStep(t, q, mark, base, mult, ucs);
      if digit.None? {
        return None;
      }
      ucs := U32(ucs + U32(mult * digit.value));
      mult := U32(mult * base);
      q := q - 1;
    }
    BackDigitsEnd(t, q, mark, base, mult, ucs);
    r := Some(ucs);
  }

  lemma BackDigitsStep(t: bytes, q: nat, mark: byte, base: nat, mult: nat, ucs: nat)
    requires q < |t| && mark in t[..q + 1] && t[q] != mark
    ensures q > 0 && mark in t[..q]
    ensures BackDigits(t, q, mark, base, mult, ucs)
            == if DigitValue(t[q], base).None? then None
               else BackDigits(t, q - 1, mark, base, U32(mult * base),
                               U32(ucs + U32(mult * DigitValue(t[q], base).value)))
  {
    hide U32, DigitValue;
    assert t[..q + 1] == t[..q] + [t[q]];
  }

  lemma BackDigitsEnd(t: bytes, q: nat, mark: byte, base: nat, mult: nat, ucs: nat)
    requires q < |t| && mark in t[..q + 1] && t[q] == mark
    ensures BackDigits(t, q, mark, base, mult, ucs) == Some(ucs)
  {
  }

  class StrPair {
    const buf: array<byte>
    const start: nat
    const end: nat
    const flags: Flags
    var needsFlush: bool

    /** Set */
    constructor (buf: array<byte>, start: nat, end: nat, flags: Flags)
      requires start <= end < buf.Length
      ensures Valid() && needsFlush
      ensures this.buf == buf && this.start == start && this.end == end && this.flags == flags
    {
      this.buf, this.start, this.end, this.flags, needsFlush := buf, start, end, flags, true;
    }

    ghost predicate Valid()
      reads this
    {
      start <= end < buf.Length
    }

    /** The buffer while GetStr works: `out` over the start of the original text `t`. */
    ghost predicate Overwritten(before: bytes, t: bytes, out: bytes)
      reads this, buf
    {
      && Valid() && |before| == buf.Length && t == before[start..end] && |out| <= |t|
      && buf[..] == before[..start] + out + t[|out|..] + [0] + before[end + 1..]
    }

    /** GetStr: where the text starts, with the length of what is there up to the NUL that
        is written behind it. The second call finds everything done. */
    method GetStr() returns (ghost length: nat)
      requires Valid()
      modifies this`needsFlush, buf
      ensures Valid() && !needsFlush
      ensures !old(needsFlush) ==> buf[..] == old(buf[..])
      ensures old(needsFlush) ==>
                && start + length <= end && buf[start + length] == 0
                && buf[start..start + length] == Decode(old(buf[start..end]), 0, [], flags)
      ensures buf[..start] == old(buf[..start]) && buf[end + 1..] == old(buf[end + 1..])
    {
      hide Decode;
      length := 0;
      if needsFlush {
        ghost var before, t := buf[..], buf[start..end];
        buf[end] := 0;
        needsFlush := false;
        EmptyWindow(before, start, end);
        if flags == Flags(false, false) {
          DecodePlain(t, 0, []);
          length := end - start;
        } else {
          length := DecodeInPlace(before, t);
        }
      }
    }

    method DecodeInPlace(ghost before: bytes, ghost t: bytes) returns (ghost length: nat)
      requires Overwritten(before, t, [])
      modifies buf
      ensures start + length <= end && buf[start + length] == 0
      ensures buf[start..start + length] == Decode(t, 0, [], flags)
      ensures buf[..start] == before[..start] && buf[end + 1..] == before[end + 1..]
    {
      hide Decode, Overwritten;
      ghost var out := [];
      var p, q := start, start;
      OverwrittenFacts(before, t, out);
      while p < end
        invariant start <= q <= p <= end && |out| == q - start && |t| == end - start
        invariant Overwritten(before, t, out)
        invariant Decode(t, p - start, out, flags) == Decode(t, 0, [], flags)
        decreases end - p
      {
        p, q, out := Round(p, q, before, t, out);
      }
      OverwrittenFacts(before, t, out);
      DecodeEnd(t, out, flags);
      buf[q] := 0;
      length := q - start;
    }

    /** One round: the write pointer stays behind the read pointer. */
    method Round(p: nat, q: nat, ghost before: bytes, ghost t: bytes, ghost out: bytes)
      returns (p': nat, q': nat, ghost out': bytes)
      requires start <= q <= p < end && |out| == q - start && |t| == end - start
      requires Overwritten(before, t, out)
      modifies buf
      ensures p < p' <= end && q' <= p' && q <= q' && |out'| == q' - start
      ensures Overwritten(before, t, out')
      ensures Decode(t, p' - start, out', flags) == Decode(t, p - start, out, flags)
    {
      hide Decode, DecodeStep, Written;
      ghost var u := t[p - start..];
      OverwrittenFacts(before, t, out);
      assert u == buf[p..end];
      ghost var stale := t[q - start];
      ghost var w: bytes;
      p', q', w := Store(p, q, u, stale);
      out' := out + w;
      DecodeRound(t, p - start, out, flags, w, p' - p);
      WindowGrows(before, t, out, w, start, end, old(buf[..]), buf[..]);
    }

    /** What one round stores at the write pointer. */
    method StoreOne(q: nat, c: byte)
      requires q < buf.Length
      modifies buf
      ensures buf[..] == Written(old(buf[..]), q, [c])
    {
      buf[q] := c;
    }

    lemma KeepOne(s: bytes, q: nat)
      requires q < |s|
      ensures s == Written(s, q, [s[q]])
    {
    }

    method Store(p: nat, q: nat, ghost u: bytes, ghost stale: byte) returns (p': nat, q': nat, ghost w: bytes)
      requires Valid() && start <= q <= p < end && u == buf[p..end] && stale == buf[q] && buf[end] == 0
      modifies buf
      ensures p < p' <= end && (w, p' - p) == DecodeStep(u, flags, stale) && q' == q + |w| <= end
      ensures buf[..] == Written(old(buf[..]), q, w)
    {
      hide CharacterRef, FindEntity, Written;
      var c := buf[p];
      assert c == u[0] && forall k | 0 < k < |u| :: u[k] == buf[p + k];
      if flags.newlines && (c == CR || c == LF) {
        var other := if c == CR then LF else CR;
        p' := if buf[p + 1] == other then p + 2 else p + 1;
        StoreOne(q, LF);
        q', w := q + 1, [LF];
      } else if flags.entities && c == AMP {
        if buf[p + 1] == HASH {
          p', q', w := StoreCharacter(p, q, u);
        } else {
          var i := FindEntity(buf[p..end], 0);
          if i < |ENTITIES| {
            StoreOne(q, ENTITIES[i].1);
            p', q', w := p + |ENTITIES[i].0| + 2, q + 1, [ENTITIES[i].1];
          } else {
            KeepOne(buf[..], q);
            p', q', w := p + 1, q + 1, [stale];
          }
        }
      } else {
        StoreOne(q, c);
        p', q', w := p + 1, q + 1, [c];
      }
    }

    method StoreCharacter(p: nat, q: nat, ghost u: bytes) returns (p': nat, q': nat, ghost w: bytes)
      requires Valid() && start <= q <= p < end && u == buf[p..end] && |u| > 1 && u[1] == HASH && buf[p] == AMP
      modifies buf
      ensures p < p' <= end && q' == q + |w| <= end
      ensures (w, p' - p) == CharacterRef(u).GetOr(([AMP], 1))
      ensures buf[..] == Written(old(buf[..]), q, w)
    {
      hide CharacterRef;
      var value := new byte[10];
      var length;
      var next;
      next, length := GetCharacterRef(buf[p..end], value);
      if next == 0 {
        StoreOne(q, buf[p]);
        p', q', w := p + 1, q + 1, [AMP];
      } else {
        p', w := p + next, value[..length];
        MemCopy(buf, q, value[..length]);
        q' := q + length;
      }
    }

    lemma OverwrittenFacts(before: bytes, t: bytes, out: bytes)
      requires Overwritten(before, t, out)
      ensures Valid() && |t| == end - start && |out| <= |t| && buf[end] == 0
      ensures buf[start..start + |out|] == out && buf[..start] == before[..start] && buf[end + 1..] == before[end + 1..]
      ensures forall k | |out| <= k < |t| :: buf[start + k] == t[k]
      ensures forall k | |out| <= k <= |t| :: buf[start + k..end] == t[k..]
    {
      var whole := before[..start] + out + t[|out|..] + [0] + before[end + 1..];
      assert whole[start..start + |out|] == out && whole[..start] == before[..start] && whole[end] == 0;
      assert whole[end + 1..] == before[end + 1..];
      forall k | |out| <= k < |t| ensures buf[start + k] == t[k] {
        assert buf[..][start + k] == whole[start + k];
      }
      forall k | |out| <= k <= |t| ensures buf[start + k..end] == t[k..] {
      }
    }

    lemma WindowGrows(before: bytes, t: bytes, out: bytes, w: bytes, start: nat, end: nat, was: bytes, now: bytes)
      requires start == this.start && end == this.end && Valid() && |before| == buf.Length
      requires t == before[start..end] && |out + w| <= |t|
      requires was == before[..start] + out + t[|out|..] + [0] + before[end + 1..]
      requires now == Written(was, start + |out|, w)
      ensures now == before[..start] + (out + w) + t[|out + w|..] + [0] + before[end + 1..]
    {
      hide Written;
      var pre, rest, tail := before[..start], t[|out|..], before[end + 1..];
      Assoc(pre + out + rest, [0], tail);
      StoredBehind(pre, out, w, rest, [0] + tail);
      DropSlice(t, |out|, |w|);
      Assoc(pre + (out + w) + rest[|w|..], [0], tail);
    }
  }

  /** Bytes stored behind `out` take the place of the first bytes of what follows. */
  lemma StoredBehind(pre: bytes, out: bytes, w: bytes, rest: bytes, tail: bytes)
    requires |w| <= |rest|
    ensures Written(pre + out + rest + tail, |pre| + |out|, w) == pre + (out + w) + rest[|w|..] + tail
  {
    var was := pre + out + rest + tail;
    Assoc(pre, out, w);
    assert was[..|pre| + |out|] == pre + out;
    assert was[|pre| + |out| + |w|..] == rest[|w|..] + tail;
    Assoc(pre + (out + w), rest[|w|..], tail);
  }

  lemma EmptyWindow(before: bytes, start: nat, end: nat)
    requires start <= end < |before|
    ensures before[end := 0] == before[..start] + [] + before[start..end][0..] + [0] + before[end + 1..]
  {
  }

  /** PrintString: runs of plain bytes are copied in one piece between the entities. */
  method PrintString(s: bytes, restricted: bool) returns (printed: bytes)
    requires NoNul(s)
    ensures printed == Escape(s, restricted)
  {
    hide Escape;
    printed := [];
    var p, q := 0, 0;
    assert s[0..] == s && [] + s[0..0] + Escape(s, restricted) == Escape(s, restricted);
    while q < |s|
      invariant 0 <= p <= q <= |s|
      invariant printed + s[p..q] + Escape(s[q..], restricted) == Escape(s, restricted)
    {
      RunGrows(s, printed, p, q, restricted);
      if Flagged(s[q], restricted) {
        printed := printed + s[p..q];
        printed := printed + [AMP] + ENTITIES[EntityOf(s[q])].0 + [SEMICOLON];
        p := q + 1;
      }
      q := q + 1;
    }
    NothingEscaped(s[q..], restricted);
    if p < q {
      printed := printed + s[p..q];
    }
  }

  lemma NothingEscaped(s: bytes, restricted: bool)
    requires s == []
    ensures Escape(s, restricted) == []
  {
  }

  lemma RunGrows(s: bytes, printed: bytes, p: nat, q: nat, restricted: bool)
    requires p <= q < |s|
    ensures
      printed + s[p..q] + Escape(s[q..], restricted)
      == if Flagged(s[q], restricted)
         then printed + s[p..q] + [AMP] + ENTITIES[EntityOf(s[q])].0 + [SEMICOLON] + s[q + 1..q + 1]
              + Escape(s[q + 1..], restricted)
         else printed + s[p..q + 1] + Escape(s[q + 1..], restricted)
  {
    assert Escape(s[q..], restricted) == EscapeChar(s[q], restricted) + Escape(s[q + 1..], restricted) by {
      assert s[q..][1..] == s[q + 1..];
    }
    hide Escape;
    var rest := Escape(s[q + 1..], restricted);
    Assoc(printed + s[p..q], EscapeChar(s[q], restricted), rest);
    if Flagged(s[q], restricted) {
      var name := ENTITIES[EntityOf(s[q])].0;
      assert printed + s[p..q] + ([AMP] + name + [SEMICOLON])
          == printed + s[p..q] + [AMP] + name + [SEMICOLON] + s[q + 1..q + 1];
    } else {
      assert s[p..q + 1] == s[p..q] + [s[q]];
      Assoc(printed, s[p..q], [s[q]]);
    }
  }
}
