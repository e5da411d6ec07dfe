/** End-to-end correctness of fragmented WebSocket traffic: whatever way the sent
    bytes are cut into arrivals, the receive loop delivers the sent messages. */
module WebSocketSession {
  import opened Wrappers
  import opened Bytes
  import opened WebSocket

  // ------------------------------------------------------- frame sequences

  ghost predicate AllowedAll(p: Progress, fs: seq<Frame>)
    decreases |fs|
  {
    (p.Partial? ==> |p.acc| < TWO32)
    && (fs != [] ==> Allowed(p, fs[0]) && AllowedAll(Advance(p, fs[0]).0, fs[1..]))
  }

  function EncodeAll(fs: seq<Frame>): (s: bytes)
  {
    if fs == [] then [] else fs[0].Encoding() + EncodeAll(fs[1..])
  }

  function AdvanceAll(p: Progress, fs: seq<Frame>): (Progress, seq<Event>)
    decreases |fs|
  {
    if fs == [] then (p, []) else
    var (q, event) := Advance(p, fs[0]);
    var (r, events) := AdvanceAll(q, fs[1..]);
    (r, Emitted(event) + events)
  }

  /** Where a receiver should be after the first `n` bytes of the stream of `fs`:
      the events of the complete frames, and a buffer holding the reassembled part of
      the current message followed by the bytes of one incomplete frame. */
  function Received(p: Progress, fs: seq<Frame>, n: nat): (r: (bytes, seq<Event>))
    requires n <= |EncodeAll(fs)|
    requires AllowedAll(p, fs)
    decreases |fs|
  {
    if fs == [] || n < |fs[0].Encoding()| then (Stub(p) + EncodeAll(fs)[..n], []) else
    var (q, event) := Advance(p, fs[0]);
    var (buf, events) := Received(q, fs[1..], n - |fs[0].Encoding()|);
    (buf, Emitted(event) + events)
  }

  /** `Received` says what it should: `k` frames are complete, and less than one more
      frame is left over. */
  lemma {:induction false} ReceivedMeaning(p: Progress, fs: seq<Frame>, n: nat) returns (k: nat)
    requires AllowedAll(p, fs) && n <= |EncodeAll(fs)|
    ensures k <= |fs| && |EncodeAll(fs[..k])| <= n
    ensures k < |fs| ==> n < |EncodeAll(fs[..k])| + |fs[k].Encoding()|
    ensures var (q, events) := AdvanceAll(p, fs[..k]);
      && (q.Partial? ==> |q.acc| < TWO32)
      && Received(p, fs, n) == (Stub(q) + EncodeAll(fs)[|EncodeAll(fs[..k])|..n], events)
    decreases |fs|
  {
    hide Stub, Frame.Encoding, Advance, Received, EncodeAll, AllowedAll, AdvanceAll;
    if fs == [] || n < |fs[0].Encoding()| {
      k := 0;
      assert fs[..0] == [];
      ReceivedNothing(p, fs, n);
    } else {
      var e, q := fs[0].Encoding(), Advance(p, fs[0]).0;
      ReceivedLater(p, fs, n);
      var i := ReceivedMeaning(q, fs[1..], n - |e|);
      k := i + 1;
      FirstMore(p, fs, i);
      SliceLater(fs, |EncodeAll(fs[..k])|, n);
    }
  }

  lemma FirstMore(p: Progress, fs: seq<Frame>, i: nat)
    requires fs != [] && i <= |fs| - 1
    ensures |EncodeAll(fs[..i + 1])| == |fs[0].Encoding()| + |EncodeAll(fs[1..][..i])|
    ensures var (q, event) := Advance(p, fs[0]);
      var (r, events) := AdvanceAll(q, fs[1..][..i]);
      AdvanceAll(p, fs[..i + 1]) == (r, Emitted(event) + events)
  {
    hide Frame.Encoding, Advance;
    assert fs[..i + 1][0] == fs[0] && fs[..i + 1][1..] == fs[1..][..i];
  }

  /** Less than one frame. */
  lemma ReceivedNothing(p: Progress, fs: seq<Frame>, n: nat)
    requires AllowedAll(p, fs) && n <= |EncodeAll(fs)| && (fs == [] || n < |fs[0].Encoding()|)
    ensures p.Partial? ==> |p.acc| < TWO32
    ensures Received(p, fs, n) == (Stub(p) + EncodeAll(fs)[..n], [])
    ensures EncodeAll([]) == [] && AdvanceAll(p, []) == (p, [])
  {
    hide Frame.Encoding;
  }

  /** At least one frame. */
  lemma ReceivedLater(p: Progress, fs: seq<Frame>, n: nat)
    requires AllowedAll(p, fs) && fs != [] && |fs[0].Encoding()| <= n <= |EncodeAll(fs)|
    ensures var (q, event) := Advance(p, fs[0]);
      var m := n - |fs[0].Encoding()|;
      && AllowedAll(q, fs[1..]) && m <= |EncodeAll(fs[1..])|
      && Received(p, fs, n) == (Received(q, fs[1..], m).0, Emitted(event) + Received(q, fs[1..], m).1)
  {
    hide Frame.Encoding, Advance, Allowed;
  }

  lemma SliceLater(fs: seq<Frame>, m: nat, n: nat)
    requires fs != [] && |fs[0].Encoding()| <= m <= n <= |EncodeAll(fs)|
    ensures var k := |fs[0].Encoding()|;
      n - k <= |EncodeAll(fs[1..])| && EncodeAll(fs)[m..n] == EncodeAll(fs[1..])[m - k..n - k]
  {
    hide Frame.Encoding;
    var k := |fs[0].Encoding()|;
    assert EncodeAll(fs)[k..] == EncodeAll(fs[1..]);
    assert EncodeAll(fs)[m..n] == EncodeAll(fs)[k..][m - k..n - k];
  }

  function Prepend(event: Option<Event>, d: DrainResult): DrainResult {
    if d.Stuck? then Stuck else Drained(d.rest, Emitted(event) + d.events)
  }

  lemma DrainComplete(p: Progress, fr: Frame, rest: bytes)
    requires p.Partial? ==> |p.acc| < TWO32
    requires Allowed(p, fr)
    ensures var (q, event) := Advance(p, fr);
      Drain(Stub(p) + fr.Encoding() + rest, true) == Prepend(event, Drain(Stub(q) + rest, true))
  {
    StepComplete(p, fr, rest);
    hide Step;
  }

  lemma DrainIncomplete(p: Progress, fr: Frame, f: bytes)
    requires p.Partial? ==> |p.acc| < TWO32
    requires Allowed(p, fr) && f < fr.Encoding()
    ensures Drain(Stub(p) + f, true) == Drained(Stub(p) + f, [])
  {
    StepIncomplete(p, fr, f);
    hide Step;
  }

  lemma {:induction false} DrainPrefix(p: Progress, fs: seq<Frame>, n: nat)
    requires AllowedAll(p, fs) && n <= |EncodeAll(fs)|
    ensures var (buf, events) := Received(p, fs, n);
      Drain(Stub(p) + EncodeAll(fs)[..n], true) == Drained(buf, events)
    decreases |fs|
  {
    hide Drain, Step, Stub, Frame.Encoding;
    var s := Stub(p) + EncodeAll(fs)[..n];
    if fs == [] {
      DrainStub(p);
      assert s == Stub(p);
    } else if n < |fs[0].Encoding()| {
      assert EncodeAll(fs)[..n] == fs[0].Encoding()[..n];
      DrainIncomplete(p, fs[0], EncodeAll(fs)[..n]);
    } else {
      var e := fs[0].Encoding();
      var rest := EncodeAll(fs[1..])[..n - |e|];
      assert s == Stub(p) + e + rest;
      DrainComplete(p, fs[0], rest);
      DrainPrefix(Advance(p, fs[0]).0, fs[1..], n - |e|);
    }
  }

  /** A message under way, with nothing behind it, waits. */
  lemma DrainStub(p: Progress)
    requires p.Partial? ==> |p.acc| < TWO32
    ensures Drain(Stub(p), true) == Drained(Stub(p), [])
  {
    if p.Partial? {
      StubStart(p, []);
      assert Stub(p) + [] == Stub(p);
    }
    StepShort(Stub(p), |Stub(p)|);
  }

  /** Draining commutes with arrival: draining early, then adding bytes and draining
      again, ends where draining everything at once ends. */
  lemma {:induction false} DrainMore(p: Progress, fs: seq<Frame>, m: nat, n: nat)
    requires AllowedAll(p, fs) && m <= n <= |EncodeAll(fs)|
    ensures var (was, before) := Received(p, fs, m);
      var (now, after) := Received(p, fs, n);
      var d := Drain(was + EncodeAll(fs)[m..n], true);
      d.Drained? && d.rest == now && before + d.events == after
    decreases |fs|
  {
    hide Drain, Step, Stub, Frame.Encoding, Advance, Received, EncodeAll, AllowedAll;
    if fs == [] || m < |fs[0].Encoding()| {
      ReceivedNothing(p, fs, m);
      Assoc(Stub(p), EncodeAll(fs)[..m], EncodeAll(fs)[m..n]);
      assert EncodeAll(fs)[..m] + EncodeAll(fs)[m..n] == EncodeAll(fs)[..n];
      DrainPrefix(p, fs, n);
      var after := Received(p, fs, n).1;
      assert [] + after == after;
    } else {
      var k, q := |fs[0].Encoding()|, Advance(p, fs[0]);
      ReceivedLater(p, fs, m);
      ReceivedLater(p, fs, n);
      SliceLater(fs, m, n);
      DrainMore(q.0, fs[1..], m - k, n - k);
      var (was, before) := Received(q.0, fs[1..], m - k);
      Assoc(Emitted(q.1), before, Drain(was + EncodeAll(fs)[m..n], true).events);
    }
  }

  // --------------------------------------------------------------- arrivals

  /** The connection after a sequence of MG_EV_RECV events, from an empty buffer. */
  function Run(arrivals: seq<bytes>): DrainResult {
    if arrivals == [] then Drained([], []) else
    var last := |arrivals| - 1;
    match Run(arrivals[..last])
    case Stuck => Stuck
    case Drained(buf, events) =>
      match Drain(buf + arrivals[last], true)
      case Stuck => Stuck
      case Drained(rest, more) => Drained(rest, events + more)
  }

  /** Only the bytes that arrived matter, not how they were cut. */
  lemma {:induction false} RunReceives(arrivals: seq<bytes>, fs: seq<Frame>)
    requires AllowedAll(Idle, fs)
    requires Flatten(arrivals) <= EncodeAll(fs)
    ensures var (buf, events) := Received(Idle, fs, |Flatten(arrivals)|);
      Run(arrivals) == Drained(buf, events)
  {
    hide Drain, Received, EncodeAll;
    if arrivals == [] {
      EmptyReceived(fs);
    } else {
      var last := |arrivals| - 1;
      var init := arrivals[..last];
      assert arrivals == init + [arrivals[last]];
      FlattenAppend(init, [arrivals[last]]);
      assert Flatten([arrivals[last]]) == arrivals[last];
      var m, n := |Flatten(init)|, |Flatten(arrivals)|;
      assert EncodeAll(fs)[m..n] == arrivals[last];
      RunReceives(init, fs);
      DrainMore(Idle, fs, m, n);
    }
  }

  lemma EmptyReceived(fs: seq<Frame>)
    requires AllowedAll(Idle, fs)
    ensures Received(Idle, fs, 0) == ([], [])
  {
    assert Stub(Idle) + EncodeAll(fs)[..0] == [];
  }

  // --------------------------------------------------------------- messages

  /** What an application sends: one unfragmented message (data or control), or a
      message in two or more fragments, with nothing in between. */
  datatype Message =
    | Whole(op: nat, part: Part)
    | Split(op: nat, first: Part, more: seq<Part>, last: Part)

  function MoreFrames(parts: seq<Part>, last: Part): (fs: seq<Frame>)
    ensures |fs| == |parts| + 1
  {
    if parts == [] then [Frame(0, last)]
    else [Frame(DONT_FIN, parts[0])] + MoreFrames(parts[1..], last)
  }

  /** The mg_send_websocket_frame calls that send a message. */
  function FramesOf(m: Message): (fs: seq<Frame>) {
    match m
    case Whole(op, part) => [Frame(op, part)]
    case Split(op, first, more, last) => [Frame(op + DONT_FIN, first)] + MoreFrames(more, last)
  }

  function Payloads(parts: seq<Part>): bytes {
    if parts == [] then [] else parts[0].data + Payloads(parts[1..])
  }

  function Payload(m: Message): bytes {
    match m
    case Whole(_, part) => part.data
    case Split(_, first, more, last) => first.data + Payloads(more) + last.data
  }

  /** A reassembled message arrives with the flags of its last frame: its opcode
      is not reported. */
  function DeliveredAs(m: Message): Event {
    Event(if m.Whole? then FlagByte(m.op) else 0x80, Payload(m))
  }

  ghost predicate Sendable(m: Message) {
    && 0 < m.op < 16
    && (m.Split? ==> |Payload(m)| < TWO32 && FramesOf(m)[0].HeaderLen() >= 5)
  }

  function FramesOfAll(ms: seq<Message>): seq<Frame> {
    if ms == [] then [] else FramesOf(ms[0]) + FramesOfAll(ms[1..])
  }

  function DeliveredAsAll(ms: seq<Message>): seq<Event> {
    if ms == [] then [] else [DeliveredAs(ms[0])] + DeliveredAsAll(ms[1..])
  }

  lemma {:induction false} AdvanceConcat(p: Progress, a: seq<Frame>, b: seq<Frame>)
    ensures var (q, ea) := AdvanceAll(p, a);
      var (r, eb) := AdvanceAll(q, b);
      AdvanceAll(p, a + b) == (r, ea + eb)
    ensures AllowedAll(p, a) && AllowedAll(AdvanceAll(p, a).0, b) ==> AllowedAll(p, a + b)
    decreases |a|
  {
    hide Advance, Allowed, Emitted;
    if a == [] {
      assert a + b == b;
      assert [] + AdvanceAll(p, b).1 == AdvanceAll(p, b).1;
    } else {
      var q := Advance(p, a[0]);
      AdvanceConcat(q.0, a[1..], b);
      assert (a + b)[1..] == a[1..] + b;
      var (q1, e1) := AdvanceAll(q.0, a[1..]);
      var (r, eb) := AdvanceAll(q1, b);
      Assoc(Emitted(q.1), e1, eb);
    }
  }

  lemma AdvanceOne(p: Progress, fr: Frame)
    ensures AdvanceAll(p, [fr]) == (Advance(p, fr).0, Emitted(Advance(p, fr).1))
  {
    assert Emitted(Advance(p, fr).1) + [] == Emitted(Advance(p, fr).1);
    assert AdvanceAll(Advance(p, fr).0, [fr][1..]).1 == [];
  }

  lemma {:induction false} MoreAdvance(acc: bytes, parts: seq<Part>, last: Part)
    requires |acc| + |Payloads(parts)| + |last.data| < TWO32
    ensures AllowedAll(Partial(acc), MoreFrames(parts, last))
    ensures AdvanceAll(Partial(acc), MoreFrames(parts, last))
            == (Idle, [Event(0x80, acc + Payloads(parts) + last.data)])
    decreases |parts|
  {
    var fs := MoreFrames(parts, last);
    if parts == [] {
      assert fs[1..] == [];
      assert acc + [] == acc;
      AdvanceOne(Partial(acc), fs[0]);
    } else {
      assert fs[1..] == MoreFrames(parts[1..], last);
      MoreAdvance(acc + parts[0].data, parts[1..], last);
      assert acc + parts[0].data + Payloads(parts[1..]) + last.data == acc + Payloads(parts) + last.data;
      var events := AdvanceAll(Partial(acc + parts[0].data), fs[1..]).1;
      assert [] + events == events;
    }
  }

  lemma MessageAdvance(m: Message)
    requires Sendable(m)
    ensures AllowedAll(Idle, FramesOf(m))
    ensures AdvanceAll(Idle, FramesOf(m)) == (Idle, [DeliveredAs(m)])
  {
    var fs := FramesOf(m);
    match m
    case Whole(op, part) =>
      AdvanceOne(Idle, fs[0]);
    case Split(op, first, more, last) =>
      assert fs[1..] == MoreFrames(more, last);
      MoreAdvance(first.data, more, last);
      assert [] + AdvanceAll(Partial(first.data), fs[1..]).1 == AdvanceAll(Partial(first.data), fs[1..]).1;
  }

  lemma {:induction false} MessagesAdvance(ms: seq<Message>)
    requires forall m <- ms :: Sendable(m)
    ensures AllowedAll(Idle, FramesOfAll(ms))
    ensures AdvanceAll(Idle, FramesOfAll(ms)) == (Idle, DeliveredAsAll(ms))
  {
    if ms != [] {
      MessageAdvance(ms[0]);
      MessagesAdvance(ms[1..]);
      AdvanceConcat(Idle, FramesOf(ms[0]), FramesOfAll(ms[1..]));
    }
  }

  lemma {:induction false} ReceivedAll(p: Progress, fs: seq<Frame>)
    requires AllowedAll(p, fs)
    ensures var (q, events) := AdvanceAll(p, fs);
      && (q.Partial? ==> |q.acc| < TWO32)
      && Received(p, fs, |EncodeAll(fs)|) == (Stub(q), events)
    decreases |fs|
  {
    if fs == [] {
      assert Stub(p) + [] == Stub(p);
    } else {
      ReceivedAll(Advance(p, fs[0]).0, fs[1..]);
    }
  }

  /** End to end: once all bytes have arrived, in whatever pieces, every message has
      been delivered exactly once and in order, and the buffer is empty. */
  lemma AllMessagesDelivered(ms: seq<Message>, arrivals: seq<bytes>)
    requires forall m <- ms :: Sendable(m)
    requires Flatten(arrivals) == EncodeAll(FramesOfAll(ms))
    ensures Run(arrivals) == Drained([], DeliveredAsAll(ms))
  {
    MessagesAdvance(ms);
    RunReceives(arrivals, FramesOfAll(ms));
    ReceivedAll(Idle, FramesOfAll(ms));
  }

  // ------------------------------------------------- where the code falls short

  /** The first fragment of a message survives its own reassembly. */
  ghost predicate KeepsFirst(op: nat, part: Part, rest: bytes)
    requires |part.data| < TWO32
  {
    Step(Frame(op + DONT_FIN, part).Encoding() + rest, true) == Ready(Stub(Partial(part.data)) + rest, None)
  }

  /** The size word is written over bytes 1 to 4 while they may still be payload: for
      a given length and mask every payload survives, whatever follows it, exactly
      when the header has at least five bytes. Masked frames always do. */
  lemma FirstFragmentKeptIff(op: nat, key: Option<bytes>, n: nat)
    requires 0 < op < 16 && n < TWO32 && (key.Some? ==> |key.value| == 4)
    ensures (forall data: bytes, rest: bytes | |data| == n :: KeepsFirst(op, Part(data, key), rest))
            <==> key.Some? || n >= 65535
  {
    if key.Some? || n >= 65535 {
      forall data: bytes, rest: bytes | |data| == n ensures KeepsFirst(op, Part(data, key), rest) {
        StepFirst(Frame(op + DONT_FIN, Part(data, key)), rest);
      }
    } else {
      FirstFragmentLost(op, n);
      assert !KeepsFirst(op, Part(Ones(n), key), [1]);
    }
  }

  function Ones(n: nat): (s: bytes)
    ensures |s| == n && forall i :: 0 <= i < n ==> s[i] == 1
  {
    seq(n, i => 1)
  }

  /** The failing input: an unmasked fragment of ones. */
  lemma FirstFragmentLost(op: nat, n: nat)
    requires 0 < op < 16 && n < 65535
    ensures !KeepsFirst(op, Part(Ones(n), None), [1])
  {
    hide Frame.Encoding, Head, ParseHeader, Unmasked, ToLE32, StoreNext;
    var fr := Frame(op + DONT_FIN, Part(Ones(n), None));
    var h := fr.HeaderLen();
    var s := [] + fr.Encoding() + [1];
    assert s == fr.Encoding() + [1] && s[0] == FlagByte(fr.op);
    assert FrameStart(s, true) == 0;
    Recognised([], fr, [1]);
    var w := [] + Head(fr) + Ones(n) + [1];
    assert w == Head(fr) + (Ones(n) + [1]);
    assert w[h] == (Ones(n) + [1])[0] == 1;
    assert Stomped(w)[h..][0] == Stomped(w)[h] == 0;
    var r := StoreFirst(w, h, n);
    assert r[5] == Stomped(w)[h..][0];
    assert (Stub(Partial(Ones(n))) + [1])[5] == (Ones(n) + [1])[0];
  }

  /** The size word has 32 bits: the last fragment delivers the whole message exactly
      when that holds its length. */
  lemma LastFragmentKeptIff(acc: bytes, part: Part, rest: bytes)
    requires |acc| < TWO32
    ensures Step(Stub(Partial(acc)) + Frame(0, part).Encoding() + rest, true)
            == Ready(rest, Some(Event(0x80, acc + part.data)))
            <==> |acc| + |part.data| < TWO32
  {
    hide Frame.Encoding, Step, StepFrame, Head, Unmasked;
    var fr := Frame(0, part);
    if |acc| + |part.data| < TWO32 {
      StepPartial(acc, fr, rest);
      assert Stub(Idle) + rest == rest;
    } else {
      var pre := Stub(Partial(acc));
      var s := pre + fr.Encoding() + rest;
      assert s == pre + (fr.Encoding() + rest);
      StubStart(Partial(acc), fr.Encoding() + rest);
      Recognised(pre, fr, rest);
      DeliversWord(s, |pre|, ParseHeader(s[|pre|..]));
    }
  }

  /** What a last fragment delivers is no longer than a size word can say. */
  lemma DeliversWord(s: bytes, start: nat, h: Header)
    requires start == FrameStart(s, true) >= 5 && h == ParseHeader(s[start..])
    requires 0 < h.len && start + h.len + h.dataLen <= |s| && s[start] >= 0x80
    ensures var r := StepFrame(s, true, start, h);
      r.Ready? && r.event.Some? && |r.event.value.data| < TWO32
  {
    hide Unmasked, ParseHeader, StoreNext;
    var m := StoreNext(Unmasked(s, start, h), start, start + h.len, h.dataLen);
    assert SizeWord(m) < TWO32;
  }

  /** A control frame inside a fragmented message is not delivered on its own: it is
      taken for the last fragment, and the message under reassembly is lost with it. */
  lemma InterleavedControlEndsMessage(acc: bytes, op: nat, part: Part, rest: bytes)
    requires 8 <= op < 16 && |acc| + |part.data| < TWO32
    ensures Step(Stub(Partial(acc)) + Frame(op, part).Encoding() + rest, true)
            == Ready(rest, Some(Event(FlagByte(op), acc + part.data)))
  {
    hide Frame.Encoding, Step;
    StepPartial(acc, Frame(op, part), rest);
    assert Stub(Idle) + rest == rest;
  }

  /** A control frame is delivered on its own, and leaves the rest alone, exactly when no
      message is under way. */
  lemma ControlDeliveredIff(p: Progress, op: nat, part: Part, rest: bytes)
    requires 8 <= op < 16 && (p.Partial? ==> |p.acc| + |part.data| < TWO32)
    ensures Step(Stub(p) + Frame(op, part).Encoding() + rest, true)
            == Ready(Stub(p) + rest, Some(Event(FlagByte(op), part.data)))
            <==> p.Idle?
  {
    hide Frame.Encoding, Step;
    var fr := Frame(op, part);
    match p
    case Idle =>
      StepWhole(fr, rest);
      assert Stub(Idle) + fr.Encoding() == fr.Encoding() && Stub(Idle) + rest == rest;
    case Partial(acc) =>
      InterleavedControlEndsMessage(acc, op, part, rest);
      assert |Stub(Partial(acc)) + rest| == 5 + |acc| + |rest|;
  }

  // --------------------------------------------- control frames between fragments

  predicate IsControl(fr: Frame) {
    8 <= fr.op % 16 && Fin(fr)
  }

  /** A receiver that follows section 5.4 of RFC 6455 also where control frames come
      between the fragments of a message. */
  function AdvanceRfc(p: Progress, fr: Frame): (Progress, Option<Event>) {
    if IsControl(fr) then (p, Some(Event(FlagByte(fr.op), fr.data))) else Advance(p, fr)
  }

  function RfcAll(p: Progress, fs: seq<Frame>): (Progress, seq<Event>)
    decreases |fs|
  {
    if fs == [] then (p, []) else
    var (q, event) := AdvanceRfc(p, fs[0]);
    var (r, events) := RfcAll(q, fs[1..]);
    (r, Emitted(event) + events)
  }

  /** What that section lets a sender send, within the limits of the size word. */
  ghost predicate LegalAll(p: Progress, fs: seq<Frame>)
    decreases |fs|
  {
    (p.Partial? ==> |p.acc| < TWO32)
    && (fs != [] ==>
          && Allowed(p, fs[0]) && (p.Partial? && !IsControl(fs[0]) ==> fs[0].op % 16 == 0)
          && LegalAll(AdvanceRfc(p, fs[0]).0, fs[1..]))
  }

  /** No control frame comes while a message is under way. */
  predicate Uninterrupted(p: Progress, fs: seq<Frame>)
    decreases |fs|
  {
    fs != [] ==> !(p.Partial? && IsControl(fs[0])) && Uninterrupted(AdvanceRfc(p, fs[0]).0, fs[1..])
  }

  /** The connection is where the receiver of the standard would be. */
  ghost predicate LikeRfc(arrivals: seq<bytes>, fs: seq<Frame>) {
    var (q, events) := RfcAll(Idle, fs);
    (q.Partial? ==> |q.acc| < TWO32) && Run(arrivals) == Drained(Stub(q), events)
  }

  lemma ControlAtIdle(fr: Frame)
    requires IsControl(fr)
    ensures AdvanceRfc(Idle, fr) == Advance(Idle, fr)
  {
  }

  lemma {:induction false} UninterruptedAgrees(p: Progress, fs: seq<Frame>, k: nat)
    requires LegalAll(p, fs) && Uninterrupted(p, fs) && k <= |fs|
    ensures AllowedAll(p, fs[..k]) && AdvanceAll(p, fs[..k]) == RfcAll(p, fs[..k])
    decreases k
  {
    hide Advance, Allowed, Emitted;
    if k > 0 {
      assert fs[..k][0] == fs[0] && fs[..k][1..] == fs[1..][..k - 1];
      if IsControl(fs[0]) {
        ControlAtIdle(fs[0]);
      }
      UninterruptedAgrees(AdvanceRfc(p, fs[0]).0, fs[1..], k - 1);
    }
  }

  /** The first control frame that comes while a message is under way. */
  lemma {:induction false} FirstInterruption(p: Progress, fs: seq<Frame>) returns (k: nat)
    requires LegalAll(p, fs) && !Uninterrupted(p, fs)
    ensures k < |fs| && AllowedAll(p, fs[..k + 1])
    ensures AdvanceAll(p, fs[..k + 1]).0 == Idle && RfcAll(p, fs[..k + 1]).0.Partial?
    decreases |fs|
  {
    hide Allowed, Emitted;
    if p.Partial? && IsControl(fs[0]) {
      k := 0;
      assert fs[..1][0] == fs[0] && fs[..1][1..] == [];
    } else {
      if IsControl(fs[0]) {
        ControlAtIdle(fs[0]);
      }
      k := FirstInterruption(AdvanceRfc(p, fs[0]).0, fs[1..]);
      k := k + 1;
      assert fs[..k + 1][0] == fs[0] && fs[..k + 1][1..] == fs[1..][..k];
    }
  }

  /** A stream with control frames: after every frame, and for every way of cutting the
      bytes, the connection has delivered what the standard says, exactly when no control
      frame comes between the fragments of a message. */
  lemma ControlFramesIff(fs: seq<Frame>)
    requires LegalAll(Idle, fs)
    ensures (forall k: nat, arrivals: seq<bytes> | k <= |fs| && Flatten(arrivals) == EncodeAll(fs[..k]) ::
              LikeRfc(arrivals, fs[..k]))
            <==> Uninterrupted(Idle, fs)
  {
    hide Run, EncodeAll, AdvanceAll, RfcAll, AllowedAll, LegalAll, Uninterrupted, Received, Stub;
    if Uninterrupted(Idle, fs) {
      forall k: nat, arrivals: seq<bytes> | k <= |fs| && Flatten(arrivals) == EncodeAll(fs[..k])
        ensures LikeRfc(arrivals, fs[..k])
      {
        UninterruptedAgrees(Idle, fs, k);
        RunReceives(arrivals, fs[..k]);
        ReceivedAll(Idle, fs[..k]);
      }
    } else {
      var k := FirstInterruption(Idle, fs);
      var gs := fs[..k + 1];
      var arrivals := [EncodeAll(gs)];
      OneArrival(EncodeAll(gs));
      RunReceives(arrivals, gs);
      ReceivedAll(Idle, gs);
      if |RfcAll(Idle, gs).0.acc| < TWO32 {
        StubsDiffer(RfcAll(Idle, gs).0);
      }
      assert !LikeRfc(arrivals, fs[..k + 1]);
    }
  }

  lemma OneArrival(s: bytes)
    ensures Flatten([s]) == s
  {
    assert [s][1..] == [] && s + [] == s;
  }

  lemma StubsDiffer(q: Progress)
    requires q.Partial? && |q.acc| < TWO32
    ensures Stub(q) != Stub(Idle)
  {
  }
}
