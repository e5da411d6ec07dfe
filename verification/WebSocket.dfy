/** WebSocket framing (RFC 6455, sections 5.2 to 5.4) as mongoose does it: the
    sender, and the receive loop that reassembles fragments inside recv_mbuf. */
module WebSocket {
  import opened Wrappers
  import opened Bytes

  // ------------------------------------------------------ one receive step

  predicate IsFragment(flags: byte) {
    flags < 0x80 || flags % 16 == 0
  }

  predicate IsFirstFragment(flags: byte) {
    flags < 0x80 && flags % 16 != 0
  }

  /** `len` counts the mask key; it is 0 while the header is incomplete. */
  datatype Header = Header(len: nat, dataLen: nat, maskLen: nat)

  function ParseHeader(f: bytes): (h: Header)
    ensures h.len > 0 ==> 2 + h.maskLen <= h.len <= 14 && (h.maskLen == 0 || h.maskLen == 4)
    ensures h.dataLen < TWO64
    ensures h.len == 0 ==> h.dataLen == 0
  {
    if |f| < 2 then Header(0, 0, 0) else
    var len := f[1] % 128;
    var maskLen := if f[1] >= 128 then 4 else 0;
    if len < 126 && |f| >= maskLen then Header(2 + maskLen, len, maskLen)
    else if len == 126 && |f| >= 4 + maskLen then Header(4 + maskLen, BE16(f[2..4]), maskLen)
    else if |f| >= 10 + maskLen then Header(10 + maskLen, BE64(f[2..10]), maskLen)
    else Header(0, 0, maskLen)
  }

  function Mask(data: bytes, key: bytes): (r: bytes)
    requires |key| == 4
    ensures |r| == |data|
    ensures forall i :: 0 <= i < |data| ==> r[i] == Xor(data[i], key[i % 4])
  {
    seq(|data|, i requires 0 <= i < |data| => Xor(data[i], key[i % 4]))
  }

  function Masked(data: bytes, key: Option<bytes>): (r: bytes)
    requires key.Some? ==> |key.value| == 4
    ensures |r| == |data|
  {
    if key.Some? then Mask(data, key.value) else data
  }

  /** Handler calls: `flags & 8` selects the control-frame event. */
  datatype Event = Event(flags: byte, data: bytes)

  datatype StepResult =
    | NotReady
    | Ready(rest: bytes, event: Option<Event>)
    | Undefined  // the C code would leave the received bytes

  /** The size word of a defragmented message sits behind the flag byte. */
  function SizeWord(s: bytes): nat
    requires |s| >= 5
  {
    LE32(s[1..5])
  }

  predicate Reassembles(s: bytes, defrag: bool) {
    s != [] && IsFragment(s[0]) && defrag
  }

  /** Where the next raw frame starts: behind a partly reassembled message, if any. */
  function FrameStart(s: bytes, defrag: bool): (r: nat)
    ensures r <= |s|
    ensures r > 0 ==> r >= 5 && Reassembles(s, defrag) && r == 5 + SizeWord(s)
  {
    if Reassembles(s, defrag) && !IsFirstFragment(s[0]) && |s| >= 5 && |s| >= 5 + SizeWord(s)
    then 5 + SizeWord(s) else 0
  }

  /** The buffer after the mask of the frame at `start` has been removed in place. */
  function Unmasked(s: bytes, start: nat, h: Header): (w: bytes)
    requires h.maskLen == 0 || h.maskLen == 4
    requires h.maskLen <= h.len && start + h.len + h.dataLen <= |s|
    ensures |w| == |s|
  {
    var d := start + h.len;
    if h.maskLen == 0 then s
    else s[..d] + Mask(s[d..d + h.dataLen], s[d - 4..d]) + s[d + h.dataLen..]
  }

  /** Writing the zero size word over bytes 1 to 4. */
  function Stomped(w: bytes): (r: bytes)
    ensures |r| == |w|
    ensures forall i :: 0 <= i < |w| ==> r[i] == if 1 <= i < 5 then 0 else w[i]
  {
    seq(|w|, i requires 0 <= i < |w| => if 1 <= i < 5 then 0 else w[i])
  }

  /** A first fragment: the opcode is dropped from the flag byte and the payload,
      with everything behind it, is moved up behind a fresh size word. */
  function StoreFirst(w: bytes, data: nat, n: nat): (r: bytes)
    requires 0 < data <= |w|
    ensures |r| == 5 + |w| - data
  {
    [w[0] - w[0] % 16] + ToLE32(n % TWO32) + Stomped(w)[data..]
  }

  /** A further fragment: its payload closes up with the stored one, which ends at
      `start`, so the size word holds `start - 5`. */
  function StoreNext(w: bytes, start: nat, data: nat, n: nat): (r: bytes)
    requires 5 <= start < data && data + n <= |w|
    ensures |r| == |w| - (data - start) && 5 + SizeWord(r) <= |r|
  {
    var size := (start - 5 + n) % TWO32;
    var r := w[..1] + ToLE32(size) + w[5..start] + w[data..];
    assert r[1..5] == ToLE32(size);
    assert size <= start - 5 + n;
    r
  }

  /** One call of mg_deliver_websocket_data, on the contents of the buffer. */
  function Step(s: bytes, defrag: bool): (r: StepResult) {
    var start := FrameStart(s, defrag);
    var h := ParseHeader(s[start..]);
    var wraps := h.len + h.dataLen >= TWO64;
    var frameLen := h.len + h.dataLen - if wraps then TWO64 else 0;
    if frameLen == 0 || frameLen > |s| - start then NotReady
    else if wraps then Undefined
    else StepFrame(s, defrag, start, h)
  }

  function StepFrame(s: bytes, defrag: bool, start: nat, h: Header): (r: StepResult)
    requires start == FrameStart(s, defrag) && h == ParseHeader(s[start..])
    requires 0 < h.len && start + h.len + h.dataLen <= |s|
    ensures r != NotReady
  {
    var w := Unmasked(s, start, h);
    var data := start + h.len;
    var flags := s[start];
    if !Reassembles(s, defrag) then
      Ready(w[h.len + h.dataLen..], Some(Event(flags, w[data..data + h.dataLen])))
    else if start == 0 && !IsFirstFragment(flags) then Undefined  // nothing to continue
    else StoreFragment(w, flags, start, data, h.dataLen)
  }

  function StoreFragment(w: bytes, flags: byte, start: nat, data: nat, n: nat): (r: StepResult)
    requires start < data && data + n <= |w| && (IsFirstFragment(flags) || 5 <= start)
    ensures r.Ready?
  {
    if IsFirstFragment(flags) then Ready(StoreFirst(w, data, n), None) else
    var m := StoreNext(w, start, data, n);
    if flags < 0x80 then Ready(m, None)
    else Ready(m[5 + SizeWord(m)..], Some(Event(flags, m[5..5 + SizeWord(m)])))
  }

  // ---------------------------------------------------- the receive loop

  /** Decreases with every frame consumed; a first fragment may lengthen the buffer
      by up to three bytes, but only once per message. */
  function Potential(s: bytes, defrag: bool): nat {
    if Reassembles(s, defrag) && !IsFirstFragment(s[0]) then |s| else |s| + 4
  }

  lemma StepDecreases(s: bytes, defrag: bool)
    requires Step(s, defrag).Ready?
    ensures Potential(Step(s, defrag).rest, defrag) < Potential(s, defrag)
  {
    var start := FrameStart(s, defrag);
    var h := ParseHeader(s[start..]);
    if Reassembles(s, defrag) {
      StepFragmentDecreases(s, start, h);
    } else {
      assert |Step(s, defrag).rest| == |s| - h.len - h.dataLen;
    }
  }

  lemma FirstByteStays(s: bytes, start: nat, h: Header)
    requires s != [] && h.maskLen <= h.len && (h.maskLen == 0 || h.maskLen == 4)
    requires 0 < h.len && start + h.len + h.dataLen <= |s|
    ensures Unmasked(s, start, h)[0] == s[0]
  {
    hide Mask;
  }

  lemma StepFragmentDecreases(s: bytes, start: nat, h: Header)
    requires Reassembles(s, true) && start == FrameStart(s, true) && h == ParseHeader(s[start..])
    requires 0 < h.len && start + h.len + h.dataLen <= |s|
    requires StepFrame(s, true, start, h).Ready?
    ensures Potential(StepFrame(s, true, start, h).rest, true) < Potential(s, true)
  {
    hide Unmasked, ParseHeader, SizeWord, FrameStart;
    var w := Unmasked(s, start, h);
    var data := start + h.len;
    var r := StepFrame(s, true, start, h).rest;
    FirstByteStays(s, start, h);
    if IsFirstFragment(s[start]) {
      assert |r| == 5 + |s| - data;
      assert r[0] == w[0] - w[0] % 16 && r[0] % 16 == 0;
    } else {
      var m := StoreNext(w, start, data, h.dataLen);
      assert m[0] == s[0];
      assert |r| == |m| || |r| <= |m| - 5;
    }
  }

  datatype DrainResult = Stuck | Drained(rest: bytes, events: seq<Event>)

  /** `do {} while (mg_deliver_websocket_data(nc))` */
  function Drain(s: bytes, defrag: bool): DrainResult
    decreases Potential(s, defrag)
  {
    match Step(s, defrag)
    case NotReady => Drained(s, [])
    case Undefined => Stuck
    case Ready(rest, event) =>
      StepDecreases(s, defrag);
      match Drain(rest, defrag)
      case Stuck => Stuck
      case Drained(r, es) => Drained(r, Emitted(event) + es)
  }

  function Emitted(event: Option<Event>): seq<Event> {
    if event.Some? then [event.value] else []
  }

  // ------------------------------------------------------------ the sender

  const DONT_FIN: nat := 0x100

  function FlagByte(op: nat): (r: byte)
    ensures r % 16 == op % 16 && (r < 0x80 <==> op / 0x100 % 2 == 1)
  {
    (if op / 0x100 % 2 == 1 then 0 else 0x80) + op % 16
  }

  /** What one call sends; `key` is the random mask a client chooses. The length is
      a size_t. */
  datatype RawPart = Part(data: bytes, key: Option<bytes>)

  type Part = p: RawPart | (p.key.Some? ==> |p.key.value| == 4) && |p.data| < TWO64 - 14
    witness Part([], None)

  datatype Frame = Frame(op: nat, part: Part) {
    const data: bytes := part.data
    const key: Option<bytes> := part.key

    function MaskLen(): nat {
      if key.Some? then 4 else 0
    }

    function HeaderLen(): nat {
      (if |data| < 126 then 2 else if |data| < 65535 then 4 else 10) + MaskLen()
    }

    /** mg_send_ws_header, up to the mask key. */
    function Header(): (r: bytes)
      ensures |r| == HeaderLen() - MaskLen()
      ensures r[0] == FlagByte(op)
    {
      var m := if key.Some? then 128 else 0;
      if |data| < 126 then [FlagByte(op), m + |data|]
      else if |data| < 65535 then [FlagByte(op), m + 126] + ToBE16(|data|)
      else [FlagByte(op), m + 127] + ToBE64(|data|)
    }

    function Encoding(): (r: bytes)
      ensures |r| == HeaderLen() + |data| && r[0] == FlagByte(op)
    {
      Header() + (if key.Some? then key.value else []) + Masked(data, key)
    }
  }

  lemma HeaderAgrees(fr: Frame, f: bytes)
    requires (f <= fr.Encoding() || fr.Encoding() <= f)
    ensures forall i :: 0 <= i < |fr.Header()| && i < |f| ==> f[i] == fr.Header()[i]
  {
    var e := fr.Encoding();
    assert forall i :: 0 <= i < |fr.Header()| ==> e[i] == fr.Header()[i];
  }

  lemma ParseEncoded(fr: Frame, f: bytes)
    requires fr.Encoding() <= f
    ensures ParseHeader(f) == Header(fr.HeaderLen(), |fr.data|, fr.MaskLen())
  {
    HeaderAgrees(fr, f);
    ParseAgreeing(fr, f);
  }

  /** A header cut short parses as absent, or as what it will be once complete. */
  lemma ParsePrefix(fr: Frame, f: bytes)
    requires f <= fr.Encoding()
    ensures ParseHeader(f).len == 0 || ParseHeader(f) == Header(fr.HeaderLen(), |fr.data|, fr.MaskLen())
  {
    HeaderAgrees(fr, f);
    if |f| >= 2 {
      ParseAgreeing(fr, f);
    }
  }

  lemma SameSlice(f: bytes, g: bytes, k: nat)
    requires 2 <= k <= |f| && |g| == k
    requires forall i :: 0 <= i < k ==> f[i] == g[i]
    ensures f[2..k] == g[2..]
  {
  }

  lemma ParseAgreeing(fr: Frame, f: bytes)
    requires |f| >= 2
    requires forall i :: 0 <= i < |fr.Header()| && i < |f| ==> f[i] == fr.Header()[i]
    ensures ParseHeader(f).len == 0 || ParseHeader(f) == Header(fr.HeaderLen(), |fr.data|, fr.MaskLen())
    ensures |f| >= fr.HeaderLen() ==> ParseHeader(f).len > 0
  {
    var n := |fr.data|;
    assert f[1] == fr.Header()[1];
    if 126 <= n < 65535 && |f| >= 4 {
      assert fr.Header()[2..] == ToBE16(n);
      SameSlice(f, fr.Header(), 4);
    } else if n >= 65535 && |f| >= 10 {
      assert fr.Header()[2..] == ToBE64(n);
      SameSlice(f, fr.Header(), 10);
    }
  }

  lemma MaskTwice(data: bytes, key: bytes)
    requires |key| == 4
    ensures Mask(Mask(data, key), key) == data
  {
    forall i | 0 <= i < |data| ensures Mask(Mask(data, key), key)[i] == data[i] {
      XorTwice(data[i], key[i % 4]);
    }
  }

  /** Section 5.3 of RFC 6455: a bit of the payload is flipped exactly where the key byte in
      turn has a one. */
  lemma MaskBit(data: bytes, key: bytes, i: nat, k: nat)
    requires |key| == 4 && i < |data| && k < 8
    ensures Bit(Mask(data, key)[i], k) == if Bit(key[i % 4], k) == 1 then 1 - Bit(data[i], k) else Bit(data[i], k)
  {
    hide Bit;
    XorBit(data[i], key[i % 4], k);
  }

  /** Unmasking in place turns a received frame back into header and payload. */
  lemma UnmaskedFrame(pre: bytes, fr: Frame, rest: bytes)
    ensures var s := pre + fr.Encoding() + rest;
      var h := Header(fr.HeaderLen(), |fr.data|, fr.MaskLen());
      Unmasked(s, |pre|, h) == s[..|pre| + h.len] + fr.data + rest
  {
    hide Mask, Frame.Header;
    var s := pre + fr.Encoding() + rest;
    var d := |pre| + fr.HeaderLen();
    var n := |fr.data|;
    assert s[d..d + n] == Masked(fr.data, fr.key);
    assert s[d + n..] == rest;
    if fr.key.Some? {
      assert s[d - 4..d] == fr.key.value;
      MaskTwice(fr.data, fr.key.value);
    }
  }

  // ------------------------------------------------ reassembly, in the abstract

  /** What a receiver following section 5.4 of RFC 6455 remembers between frames. */
  datatype Progress = Idle | Partial(acc: bytes)

  /** How recv_mbuf remembers it: flag byte, size word, payload so far. */
  function Stub(p: Progress): (s: bytes)
    requires p.Partial? ==> |p.acc| < TWO32
  {
    match p
    case Idle => []
    case Partial(acc) => [0] + ToLE32(|acc|) + acc
  }

  predicate Fin(fr: Frame) {
    FlagByte(fr.op) >= 0x80
  }

  /** Frames that begin or continue a message, or end one, with sizes the size word can
      hold; the header of a first fragment must be long enough to make room for that word. */
  ghost predicate Allowed(p: Progress, fr: Frame) {
    match p
    case Idle => fr.op % 16 != 0 && (!Fin(fr) ==> |fr.data| < TWO32 && fr.HeaderLen() >= 5)
    case Partial(acc) => (Fin(fr) || fr.op % 16 == 0) && |acc| + |fr.data| < TWO32
  }

  function Advance(p: Progress, fr: Frame): (Progress, Option<Event>) {
    var acc := if p.Partial? then p.acc + fr.data else fr.data;
    if Fin(fr) then (Idle, Some(Event(FlagByte(fr.op), acc))) else (Partial(acc), None)
  }

  lemma StubStart(p: Progress, f: bytes)
    requires p.Partial? && |p.acc| < TWO32
    ensures FrameStart(Stub(p) + f, true) == |Stub(p)| && (Stub(p) + f)[|Stub(p)|..] == f
  {
    assert (Stub(p) + f)[1..5] == ToLE32(|p.acc|);
  }

  lemma StepIsStepFrame(s: bytes, start: nat, h: Header)
    requires start == FrameStart(s, true) && h == ParseHeader(s[start..])
    requires 0 < h.len && start + h.len + h.dataLen <= |s| && h.len + h.dataLen < TWO64
    ensures Step(s, true) == StepFrame(s, true, start, h)
  {
  }

  /** The header of `fr`, mask key included. */
  function Head(fr: Frame): (r: bytes)
    ensures |r| == fr.HeaderLen() && r[0] == FlagByte(fr.op)
  {
    fr.Encoding()[..fr.HeaderLen()]
  }

  /** A complete frame behind `pre` is recognised and unmasked. */
  lemma Recognised(pre: bytes, fr: Frame, rest: bytes)
    requires FrameStart(pre + fr.Encoding() + rest, true) == |pre|
    ensures var s := pre + fr.Encoding() + rest;
      var h := ParseHeader(s[|pre|..]);
      && h.len == fr.HeaderLen() && h.dataLen == |fr.data|
      && Unmasked(s, |pre|, h) == pre + Head(fr) + fr.data + rest
      && Step(s, true) == StepFrame(s, true, |pre|, h)
      && s[|pre|] == FlagByte(fr.op)
  {
    hide Frame.Encoding, ParseHeader, Unmasked, FrameStart, Step, StepFrame;
    var s := pre + fr.Encoding() + rest;
    MiddlePart(pre, fr.Encoding(), rest, fr.HeaderLen());
    ParseEncoded(fr, s[|pre|..]);
    UnmaskedFrame(pre, fr, rest);
    StepIsStepFrame(s, |pre|, ParseHeader(s[|pre|..]));
  }

  lemma MiddlePart(a: bytes, b: bytes, c: bytes, n: nat)
    requires n <= |b| && b != []
    ensures (a + b + c)[|a|..] == b + c && (a + b + c)[|a|] == b[0] && (a + b + c)[..|a| + n] == a + b[..n]
  {
  }

  lemma FirstStored(head: bytes, data: bytes, rest: bytes)
    requires 5 <= |head| && head[0] < 16 && |data| < TWO32
    ensures StoreFirst(head + data + rest, |head|, |data|) == Stub(Partial(data)) + rest
  {
    hide ToLE32, Stomped;
    var w := head + data + rest;
    assert Stomped(w)[|head|..] == data + rest;
  }

  lemma Reassociate(a: bytes, b: bytes, c: bytes, d: bytes, e: bytes)
    ensures a + b + c + (d + e) == a + b + (c + d) + e
  {
  }

  lemma NextStored(acc: bytes, head: bytes, data: bytes, rest: bytes)
    requires 0 < |head| && |acc| + |data| < TWO32
    ensures var pre := Stub(Partial(acc));
      StoreNext(pre + head + data + rest, |pre|, |pre| + |head|, |data|) == Stub(Partial(acc + data)) + rest
  {
    hide ToLE32, LE32;
    var pre := Stub(Partial(acc));
    var w := pre + head + data + rest;
    assert w[..1] == [0];
    assert w[5..|pre|] == acc;
    assert w[|pre| + |head|..] == data + rest;
    Reassociate([0], ToLE32(|acc + data|), acc, data, rest);
  }

  lemma LastDelivered(all: bytes, rest: bytes)
    requires |all| < TWO32
    ensures var m := Stub(Partial(all)) + rest;
      SizeWord(m) == |all| && m[5..5 + |all|] == all && m[5 + |all|..] == rest
  {
    var m := Stub(Partial(all)) + rest;
    assert m[1..5] == ToLE32(|all|);
  }

  lemma StepWhole(fr: Frame, rest: bytes)
    requires Allowed(Idle, fr) && Fin(fr)
    ensures Step(fr.Encoding() + rest, true) == Ready(rest, Some(Event(FlagByte(fr.op), fr.data)))
  {
    hide Frame.Encoding, Head, Unmasked, ParseHeader;
    var s := [] + fr.Encoding() + rest;
    assert s == fr.Encoding() + rest && s[0] == FlagByte(fr.op);
    assert !Reassembles(s, true);
    Recognised([], fr, rest);
    var w := [] + Head(fr) + fr.data + rest;
    assert s[fr.HeaderLen() + |fr.data|..] == rest;
    assert w[fr.HeaderLen()..fr.HeaderLen() + |fr.data|] == fr.data;
  }

  lemma StepFirst(fr: Frame, rest: bytes)
    requires Allowed(Idle, fr) && !Fin(fr)
    ensures Step(fr.Encoding() + rest, true) == Ready(Stub(Partial(fr.data)) + rest, None)
  {
    hide Frame.Encoding, Head, Stub, StoreFirst, Unmasked, ParseHeader;
    var s := [] + fr.Encoding() + rest;
    assert s == fr.Encoding() + rest && s[0] == FlagByte(fr.op);
    assert Reassembles(s, true) && IsFirstFragment(s[0]);
    Recognised([], fr, rest);
    FirstStored([] + Head(fr), fr.data, rest);
  }

  /** With a message under way, a FIN frame of any opcode ends it; a frame without
      FIN must have opcode 0. */
  lemma StepPartial(acc: bytes, fr: Frame, rest: bytes)
    requires |acc| + |fr.data| < TWO32 && (Fin(fr) || fr.op % 16 == 0)
    ensures var (q, event) := Advance(Partial(acc), fr);
      Step(Stub(Partial(acc)) + fr.Encoding() + rest, true) == Ready(Stub(q) + rest, event)
  {
    hide Frame.Encoding, Head, Unmasked, ParseHeader, StoreNext;
    var pre := Stub(Partial(acc));
    var s := pre + fr.Encoding() + rest;
    assert s == pre + (fr.Encoding() + rest);
    StubStart(Partial(acc), fr.Encoding() + rest);
    assert s[0] == 0;
    Recognised(pre, fr, rest);
    NextStored(acc, Head(fr), fr.data, rest);
    if Fin(fr) {
      LastDelivered(acc + fr.data, rest);
      assert Stub(Idle) + rest == rest;
    }
  }

  /** A complete frame is taken off the buffer exactly as the abstract receiver takes it. */
  lemma StepComplete(p: Progress, fr: Frame, rest: bytes)
    requires p.Partial? ==> |p.acc| < TWO32
    requires Allowed(p, fr)
    ensures var (q, event) := Advance(p, fr);
      Step(Stub(p) + fr.Encoding() + rest, true) == Ready(Stub(q) + rest, event)
  {
    match p
    case Idle =>
      assert Stub(Idle) + fr.Encoding() == fr.Encoding() && Stub(Idle) + rest == rest;
      if Fin(fr) {
        StepWhole(fr, rest);
      } else {
        StepFirst(fr, rest);
      }
    case Partial(acc) =>
      StepPartial(acc, fr, rest);
  }

  lemma StepShort(s: bytes, start: nat)
    requires start == FrameStart(s, true)
    requires var h := ParseHeader(s[start..]);
      h.len + h.dataLen < TWO64 && (h.len == 0 || h.len + h.dataLen > |s| - start)
    ensures Step(s, true) == NotReady
  {
  }

  /** A frame still missing bytes is left alone. */
  lemma StepIncomplete(p: Progress, fr: Frame, f: bytes)
    requires p.Partial? ==> |p.acc| < TWO32
    requires Allowed(p, fr) && f < fr.Encoding()
    ensures Step(Stub(p) + f, true) == NotReady
  {
    ParsePrefix(fr, f);
    var s := Stub(p) + f;
    if p.Idle? {
      assert s == f && (f != [] ==> f[0] == fr.Encoding()[0] == FlagByte(fr.op));
    } else {
      StubStart(p, f);
    }
    assert FrameStart(s, true) == |Stub(p)| && s[|Stub(p)|..] == f;
    StepShort(s, |Stub(p)|);
  }
}
