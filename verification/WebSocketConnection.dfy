/** The connection object: mg_deliver_websocket_data rewriting recv_mbuf in place, and
    mg_send_websocket_frame masking send_mbuf in place. */
module WebSocketConnection {
  import opened Wrappers
  import opened Bytes
  import opened WebSocket
  import opened WebSocketSession

  /** The masking loop, over `n` bytes at `data`; the key lies right in front. */
  method UnmaskInPlace(a: array<byte>, data: nat, n: nat)
    requires 4 <= data && data + n <= a.Length
    modifies a
    ensures a[..] == Written(old(a[..]), data, Mask(old(a[data..data + n]), old(a[data - 4..data])))
  {
    hide Xor;
    ghost var was := a[..];
    ghost var masked := Mask(a[data..data + n], a[data - 4..data]);
    var i := 0;
    while i < n
      invariant 0 <= i <= n
      invariant forall k :: 0 <= k < a.Length ==> a[k] == if data <= k < data + i then masked[k - data] else was[k]
    {
      a[data + i] := Xor(a[data + i], a[data - 4 + i % 4]);
      i := i + 1;
    }
  }

  method ReadHeader(a: array<byte>, from: nat, to: nat) returns (h: Header)
    requires from <= to <= a.Length
    ensures h == ParseHeader(a[from..to])
  {
    var n := to - from;
    h := Header(0, 0, 0);
    if n >= 2 {
      var len := a[from + 1] % 128;
      var maskLen := if a[from + 1] >= 128 then 4 else 0;
      h := Header(0, 0, maskLen);
      if len < 126 && n >= maskLen {
        h := Header(2 + maskLen, len, maskLen);
      } else if len == 126 && n >= 4 + maskLen {
        SliceOfSlice(a[..], from, to, 2, 4);
        h := Header(4 + maskLen, BE16(a[from + 2..from + 4]), maskLen);
      } else if n >= 10 + maskLen {
        SliceOfSlice(a[..], from, to, 2, 10);
        h := Header(10 + maskLen, BE64(a[from + 2..from + 10]), maskLen);
      }
    }
  }

  lemma FirstLayout(w: bytes, a: bytes, data: nat, n: nat)
    requires 2 <= data && data + n <= |w| && |w| + 4 <= |a| && w == a[..|w|]
    ensures var b := Written(a[0 := w[0] - w[0] % 16], 1, ToLE32(0));
      var c := Written(Moved(b, 5, data, |w| - data), 1, ToLE32(n % TWO32));
      c[..|w| - data + 5] == StoreFirst(w, data, n)
  {
    var b := Written(a[0 := w[0] - w[0] % 16], 1, ToLE32(0));
    assert ToLE32(0) == [0, 0, 0, 0];
    assert b[data..|w|] == Stomped(w)[data..];
  }

  lemma NextLayout(w: bytes, a: bytes, start: nat, data: nat, n: nat)
    requires 5 <= start < data && data + n <= |w| <= |a| && w == a[..|w|]
    ensures var c := Written(Moved(a, start, data, |w| - data), 1, ToLE32((start - 5 + n) % TWO32));
      c[..|w| - (data - start)] == StoreNext(w, start, data, n)
  {
    var m := Moved(a, start, data, |w| - data);
    var size := (start - 5 + n) % TWO32;
    var k := |w| - (data - start);
    assert m[..k] == w[..start] + w[data..];
    assert m[5..k] == w[5..start] + w[data..];
    assert Written(m, 1, ToLE32(size))[..k] == w[..1] + ToLE32(size) + m[5..k];
  }

  lemma UnmaskLayout(s: bytes, a: bytes, start: nat, h: Header)
    requires h.maskLen == 4 <= h.len && start + h.len + h.dataLen <= |s| <= |a| && s == a[..|s|]
    ensures var d := start + h.len;
      Written(a, d, Mask(a[d..d + h.dataLen], a[d - 4..d]))[..|s|] == Unmasked(s, start, h)
  {
    hide Mask;
    var d := start + h.len;
    SliceOfSlice(a, 0, |s|, d, d + h.dataLen);
    SliceOfSlice(a, 0, |s|, d - 4, d);
    WrittenFront(a, d, Mask(a[d..d + h.dataLen], a[d - 4..d]), |s|);
  }

  lemma WrittenFront(a: bytes, at: nat, data: bytes, k: nat)
    requires at + |data| <= k <= |a|
    ensures Written(a, at, data)[..k] == a[..k][..at] + data + a[..k][at + |data|..]
  {
    assert a[..k][..at] == a[..at];
    assert a[..k][at + |data|..] == a[at + |data|..k];
  }

  lemma UnmaskedSize(s: bytes, start: nat, h: Header)
    requires (h.maskLen == 0 || h.maskLen == 4) && h.maskLen <= h.len && start + h.len + h.dataLen <= |s|
    requires 5 <= start
    ensures SizeWord(Unmasked(s, start, h)) == SizeWord(s)
  {
    assert Unmasked(s, start, h)[1..5] == s[1..5];
  }

  lemma StepFrameCases(s: bytes, defrag: bool, start: nat, h: Header)
    requires start == FrameStart(s, defrag) && h == ParseHeader(s[start..])
    requires 0 < h.len && start + h.len + h.dataLen <= |s|
    requires StepFrame(s, defrag, start, h).Ready?
    ensures var w := Unmasked(s, start, h);
      var data := start + h.len;
      if Reassembles(s, defrag) then
        && (IsFirstFragment(s[start]) || (5 <= start && start == 5 + SizeWord(s)))
        && StepFrame(s, defrag, start, h) == StoreFragment(w, s[start], start, data, h.dataLen)
      else
        StepFrame(s, defrag, start, h)
        == Ready(w[h.len + h.dataLen..], Some(Event(s[start], w[data..data + h.dataLen])))
  {
    hide StoreFragment, Unmasked, ParseHeader, FrameStart;
  }

  /** The first bytes of mg_send_ws_header. */
  method BuildHeader(op: nat, part: Part) returns (header: bytes)
    ensures header == Frame(op, part).Header()
  {
    var len := |part.data|;
    var m := if part.key.Some? then 128 else 0;
    if len < 126 {
      header := [FlagByte(op), m + len];
    } else if len < 65535 {
      header := [FlagByte(op), m + 126] + ToBE16(len);
    } else {
      header := [FlagByte(op), m + 127] + ToBE64(len);
    }
  }

  class Connection {
    const defrag: bool  // !(flags & MG_F_WEBSOCKET_NO_DEFRAG)
    const recv: Mbuf
    const send: Mbuf
    var events: seq<Event>  // handler calls so far

    ghost predicate Valid()
      reads this, recv, send
    {
      recv.Valid() && send.Valid() && recv != send && recv.buf != send.buf
    }

    constructor (defrag: bool)
      ensures Valid() && fresh(recv) && fresh(send) && fresh(recv.buf) && fresh(send.buf)
      ensures this.defrag == defrag && events == []
      ensures recv.Contents() == [] && send.Contents() == []
    {
      this.defrag := defrag;
      recv := new Mbuf(0);
      send := new Mbuf(0);
      events := [];
    }

    /** Size word of the message under reassembly. */
    method LoadSize() returns (n: nat)
      requires recv.Valid() && recv.len >= 5
      ensures n == SizeWord(recv.Contents())
    {
      assert recv.buf[1..5] == recv.Contents()[1..5];
      n := LE32(recv.buf[1..5]);
    }

    /** Reassembly of a first fragment whose payload of `n` bytes begins at `data`.
        The resize is taken not to leave `p` dangling. */
    method StoreFirstInPlace(data: nat, n: nat)
      requires recv.Valid() && 2 <= data && data + n <= recv.len
      modifies recv, recv.buf
      ensures recv.Valid() && (recv.buf == old(recv.buf) || fresh(recv.buf))
      ensures recv.Contents() == StoreFirst(old(recv.Contents()), data, n)
    {
      ghost var w := recv.Contents();
      var end := recv.len;
      recv.Resize(recv.buf.Length + 4);
      ghost var a := recv.buf[..];
      assert a[..end] == w;
      recv.buf[0] := recv.buf[0] - recv.buf[0] % 16;
      assert recv.buf[..] == a[0 := w[0] - w[0] % 16];
      MemCopy(recv.buf, 1, ToLE32(0));
      MemMove(recv.buf, 5, data, end - data);
      MemCopy(recv.buf, 1, ToLE32(n % TWO32));
      recv.len := end - data + 5;
      assert recv.Contents() == recv.buf[..][..recv.len];
      FirstLayout(w, a, data, n);
    }

    /** Reassembly of a further fragment; the stored payload ends at `start`. */
    method StoreNextInPlace(start: nat, data: nat, n: nat)
      requires recv.Valid() && 5 <= start < data && data + n <= recv.len
      requires start == 5 + SizeWord(recv.Contents())
      modifies recv, recv.buf
      ensures recv.Valid() && recv.buf == old(recv.buf)
      ensures recv.Contents() == StoreNext(old(recv.Contents()), start, data, n)
    {
      hide SizeWord, StoreNext, ToLE32;
      ghost var w, a := recv.Contents(), recv.buf[..];
      assert a[..recv.len] == w;
      var size := LoadSize();
      var end := recv.len;
      MemMove(recv.buf, start, data, end - data);
      MemCopy(recv.buf, 1, ToLE32((size + n) % TWO32));
      recv.len := end - (data - start);
      assert recv.Contents() == recv.buf[..][..recv.len];
      NextLayout(w, a, start, data, n);
    }

    /** mg_deliver_websocket_data. */
    method Deliver() returns (ok: bool)
      requires Valid() && Step(recv.Contents(), defrag) != Undefined
      modifies this`events, recv, recv.buf
      ensures Valid() && (recv.buf == old(recv.buf) || fresh(recv.buf))
      ensures match old(Step(recv.Contents(), defrag))
              case NotReady => !ok && recv.Contents() == old(recv.Contents()) && events == old(events)
              case Ready(rest, event) => ok && recv.Contents() == rest && events == old(events) + Emitted(event)
              case Undefined => true
    {
      hide StepFrame, ParseHeader, SizeWord;
      ghost var s := recv.Contents();
      var reass := recv.len > 0 && IsFragment(recv.buf[0]) && defrag;
      var start := 0;
      if reass && !IsFirstFragment(recv.buf[0]) && recv.len >= 5 {
        var size := LoadSize();
        if recv.len >= 5 + size {
          start := 5 + size;
        }
      }
      var h := ReadHeader(recv.buf, start, recv.len);
      assert recv.buf[start..recv.len] == s[start..];
      var frameLen := (h.len + h.dataLen) % TWO64;
      ok := 0 < frameLen <= recv.len - start;
      if ok {
        assert frameLen == h.len + h.dataLen;
        DeliverFrame(reass, start, h);
      }
    }

    /** "Apply mask if necessary" */
    method Unmask(start: nat, h: Header)
      requires recv.Valid() && (h.maskLen == 0 || h.maskLen == 4)
      requires h.maskLen <= h.len && start + h.len + h.dataLen <= recv.len
      modifies recv.buf
      ensures recv.Valid() && recv.Contents() == Unmasked(old(recv.Contents()), start, h)
    {
      if h.maskLen > 0 {
        ghost var s, a := recv.Contents(), recv.buf[..];
        assert s == a[..recv.len];
        UnmaskInPlace(recv.buf, start + h.len, h.dataLen);
        assert recv.Contents() == recv.buf[..][..recv.len];
        UnmaskLayout(s, a, start, h);
      }
    }

    method DeliverFrame(reass: bool, start: nat, h: Header)
      requires Valid() && reass == Reassembles(recv.Contents(), defrag)
      requires start == FrameStart(recv.Contents(), defrag) && h == ParseHeader(recv.Contents()[start..])
      requires 0 < h.len && start + h.len + h.dataLen <= recv.len
      requires StepFrame(recv.Contents(), defrag, start, h).Ready?
      modifies this`events, recv, recv.buf
      ensures Valid() && (recv.buf == old(recv.buf) || fresh(recv.buf))
      ensures var r := old(StepFrame(recv.Contents(), defrag, start, h));
        recv.Contents() == r.rest && events == old(events) + Emitted(r.event)
    {
      hide StepFrame, ParseHeader, FrameStart, Unmasked, StoreFragment, SizeWord;
      var flags := recv.buf[start];
      StepFrameCases(recv.Contents(), defrag, start, h);
      if reass {
        KeepUnmasked(flags, start, h);
      } else {
        DeliverUnmasked(flags, start, h);
      }
    }

    method KeepUnmasked(flags: byte, start: nat, h: Header)
      requires recv.Valid() && (h.maskLen == 0 || h.maskLen == 4) && 2 + h.maskLen <= h.len
      requires start + h.len + h.dataLen <= recv.len
      requires IsFirstFragment(flags) || (5 <= start && start == 5 + SizeWord(recv.Contents()))
      modifies this`events, recv, recv.buf
      ensures recv.Valid() && (recv.buf == old(recv.buf) || fresh(recv.buf))
      ensures var w := Unmasked(old(recv.Contents()), start, h);
        var r := StoreFragment(w, flags, start, start + h.len, h.dataLen);
        recv.Contents() == r.rest && events == old(events) + Emitted(r.event)
    {
      hide Unmasked, StoreFragment, SizeWord, Mbuf.Contents;
      if !IsFirstFragment(flags) {
        UnmaskedSize(recv.Contents(), start, h);
      }
      Unmask(start, h);
      KeepFragment(flags, start, start + h.len, h.dataLen);
    }

    method DeliverUnmasked(flags: byte, start: nat, h: Header)
      requires recv.Valid() && (h.maskLen == 0 || h.maskLen == 4) && h.maskLen <= h.len
      requires start + h.len + h.dataLen <= recv.len
      modifies this`events, recv, recv.buf
      ensures recv.Valid() && recv.buf == old(recv.buf)
      ensures var s := old(recv.Contents());
        var data := start + h.len;
        && recv.Contents() == Unmasked(s, start, h)[h.len + h.dataLen..]
        && events == old(events) + [Event(flags, Unmasked(s, start, h)[data..data + h.dataLen])]
    {
      hide Unmasked, Mbuf.Contents;
      Unmask(start, h);
      DeliverData(flags, start + h.len, h.dataLen);
      recv.Remove(h.len + h.dataLen);
    }

    /** "Append this frame to the reassembled buffer" */
    method KeepFragment(flags: byte, start: nat, data: nat, n: nat)
      requires recv.Valid() && start + 2 <= data && data + n <= recv.len
      requires IsFirstFragment(flags) || (5 <= start && start == 5 + SizeWord(recv.Contents()))
      modifies this`events, recv, recv.buf
      ensures recv.Valid() && (recv.buf == old(recv.buf) || fresh(recv.buf))
      ensures var r := StoreFragment(old(recv.Contents()), flags, start, data, n);
        recv.Contents() == r.rest && events == old(events) + Emitted(r.event)
    {
      hide StoreFirst, StoreNext, SizeWord, Mbuf.Contents;
      if IsFirstFragment(flags) {
        StoreFirstInPlace(data, n);
      } else {
        StoreNextInPlace(start, data, n);
        if flags >= 0x80 {
          DeliverMessage(flags);
        }
      }
    }

    method DeliverData(flags: byte, data: nat, n: nat)
      requires recv.Valid() && data + n <= recv.len
      modifies this`events
      ensures events == old(events) + [Event(flags, recv.Contents()[data..data + n])]
    {
      SliceOfSlice(recv.buf[..], 0, recv.len, data, data + n);
      assert recv.buf[..][0..recv.len] == recv.Contents();
      events := events + [Event(flags, recv.buf[data..data + n])];
    }

    /** "On last fragmented frame - call user handler and remove data" */
    method DeliverMessage(flags: byte)
      requires recv.Valid() && recv.len >= 5 && 5 + SizeWord(recv.Contents()) <= recv.len
      modifies this`events, recv, recv.buf
      ensures recv.Valid() && recv.buf == old(recv.buf)
      ensures var m := old(recv.Contents());
        && recv.Contents() == m[5 + SizeWord(m)..]
        && events == old(events) + [Event(flags, m[5..5 + SizeWord(m)])]
    {
      var size := LoadSize();
      DeliverData(flags, 5, size);
      recv.Remove(5 + size);
    }

    /** Bytes arrive, and MG_EV_RECV drains what is complete. */
    method OnRecv(chunk: bytes)
      requires Valid() && Drain(recv.Contents() + chunk, defrag).Drained?
      modifies this`events, recv, recv.buf
      ensures Valid() && (recv.buf == old(recv.buf) || fresh(recv.buf))
      ensures var d := old(Drain(recv.Contents() + chunk, defrag));
        recv.Contents() == d.rest && events == old(events) + d.events
    {
      recv.Append(chunk);
      DrainLoop();
    }

    method DrainLoop()
      requires Valid() && Drain(recv.Contents(), defrag).Drained?
      modifies this`events, recv, recv.buf
      ensures Valid() && (recv.buf == old(recv.buf) || fresh(recv.buf))
      ensures var d := old(Drain(recv.Contents(), defrag));
        recv.Contents() == d.rest && events == old(events) + d.events
    {
      hide Step, Potential, Mbuf.Contents;
      ghost var before, goal := events, Drain(recv.Contents(), defrag);
      var more := true;
      while more
        invariant Valid() && (recv.buf == old(recv.buf) || fresh(recv.buf))
        invariant var d := Drain(recv.Contents(), defrag);
          d.Drained? && d.rest == goal.rest && events + d.events == before + goal.events
        invariant !more ==> Step(recv.Contents(), defrag) == NotReady
        decreases more, Potential(recv.Contents(), defrag)
      {
        ghost var s, emitted := recv.Contents(), events;
        more := Deliver();
        if more {
          StepDecreases(s, defrag);
          ghost var e, d := Step(s, defrag).event, Drain(recv.Contents(), defrag);
          assert emitted + Emitted(e) + d.events == emitted + (Emitted(e) + d.events);
        }
      }
    }

    /** mg_ws_mask_frame: masks what was sent from `pos` on with the key before it. */
    method MaskFrame(pos: nat)
      requires send.Valid() && 4 <= pos <= send.len
      modifies send.buf
      ensures send.Valid()
      ensures var s := old(send.Contents());
        send.Contents() == s[..pos] + Mask(s[pos..], s[pos - 4..pos])
    {
      ghost var s, a := send.Contents(), send.buf[..];
      assert s == a[0..send.len];
      SliceOfSlice(a, 0, send.len, pos, send.len);
      SliceOfSlice(a, 0, send.len, pos - 4, pos);
      UnmaskInPlace(send.buf, pos, send.len - pos);
      assert send.Contents() == send.buf[..][..send.len];
    }

    /** mg_send_websocket_frame; `key` is the mask drawn by a client connection. */
    method SendFrame(op: nat, part: Part)
      requires Valid()
      modifies send, send.buf
      ensures Valid() && (send.buf == old(send.buf) || fresh(send.buf))
      ensures send.Contents() == old(send.Contents()) + Frame(op, part).Encoding()
    {
      hide Frame.Header, Mask, Mbuf.Contents;
      var header := BuildHeader(op, part);
      ghost var sent := send.Contents();
      send.Append(header);
      var pos := SendKey(part.key);
      ghost var key := if part.key.Some? then part.key.value else [];
      send.Append(part.data);
      if pos != 0 {
        MaskFrame(pos);
        MaskedLayout(sent + header, key, part.data);
      } else {
        assert sent + header + key == sent + header;
      }
      Assoc(sent, header, key);
      Assoc(sent, header + key, Masked(part.data, part.key));
    }

    /** "client connections enable masking": where the masked bytes begin, or 0. */
    method SendKey(key: Option<bytes>) returns (pos: nat)
      requires Valid() && (key.Some? ==> |key.value| == 4)
      modifies send, send.buf
      ensures Valid() && (send.buf == old(send.buf) || fresh(send.buf))
      ensures send.Contents() == old(send.Contents()) + if key.Some? then key.value else []
      ensures pos == if key.Some? then |send.Contents()| else 0
    {
      pos := 0;
      if key.Some? {
        send.Append(key.value);
        pos := send.len;
      } else {
        assert send.Contents() + [] == send.Contents();
      }
    }
  }

  lemma MaskedLayout(front: bytes, key: bytes, data: bytes)
    requires |key| == 4
    ensures var s, pos := front + key + data, |front| + 4;
      s[..pos] + Mask(s[pos..], s[pos - 4..pos]) == front + key + Mask(data, key)
  {
    hide Mask;
    var s, pos := front + key + data, |front| + 4;
    assert s[pos..] == data && s[pos - 4..pos] == key && s[..pos] == front + key;
  }

  /** The sending side of a conversation. */
  method SendAll(c: Connection, fs: seq<Frame>)
    requires c.Valid()
    modifies c.send, c.send.buf
    ensures c.Valid() && c.send.Contents() == old(c.send.Contents()) + EncodeAll(fs)
  {
    hide Frame.Encoding, Mbuf.Contents;
    ghost var before := c.send.Contents();
    for i := 0 to |fs|
      invariant c.Valid() && (c.send.buf == old(c.send.buf) || fresh(c.send.buf))
      invariant c.send.Contents() == before + EncodeAll(fs[..i])
    {
      c.SendFrame(fs[i].op, fs[i].part);
      assert fs[..i + 1] == fs[..i] + [fs[i]];
      EncodeConcat(fs[..i], [fs[i]]);
      EncodeOne(fs[i]);
    }
    assert fs[..|fs|] == fs;
  }

  lemma EncodeOne(fr: Frame)
    ensures EncodeAll([fr]) == fr.Encoding()
  {
    assert fr.Encoding() + [] == fr.Encoding();
  }

  lemma {:induction false} EncodeConcat(a: seq<Frame>, b: seq<Frame>)
    ensures EncodeAll(a + b) == EncodeAll(a) + EncodeAll(b)
  {
    hide Frame.Encoding;
    if a == [] {
      assert a + b == b;
    } else {
      EncodeConcat(a[1..], b);
      assert (a + b)[1..] == a[1..] + b && (a + b)[0] == a[0];
      Assoc(a[0].Encoding(), EncodeAll(a[1..]), EncodeAll(b));
    }
  }

  /** The receiving side: any part of the stream of `fs`, in any pieces, leaves the
      connection where `Received` says. */
  method ReceiveAll(c: Connection, arrivals: seq<bytes>, ghost fs: seq<Frame>)
    requires c.Valid() && c.defrag && c.recv.Contents() == [] && c.events == []
    requires AllowedAll(Idle, fs) && Flatten(arrivals) <= EncodeAll(fs)
    modifies c`events, c.recv, c.recv.buf
    ensures c.Valid()
    ensures (c.recv.Contents(), c.events) == Received(Idle, fs, |Flatten(arrivals)|)
  {
    hide Drain, Received, EncodeAll, AllowedAll, Mbuf.Contents;
    assert arrivals[..0] == [];
    RunReceives(arrivals, fs);
    assert arrivals[..|arrivals|] == arrivals;
    for i := 0 to |arrivals|
      invariant c.Valid() && (c.recv.buf == old(c.recv.buf) || fresh(c.recv.buf))
      invariant Run(arrivals[..i]) == Drained(c.recv.Contents(), c.events)
    {
      assert arrivals == arrivals[..i + 1] + arrivals[i + 1..];
      FlattenAppend(arrivals[..i + 1], arrivals[i + 1..]);
      RunReceives(arrivals[..i + 1], fs);
      assert arrivals[..i + 1][..i] == arrivals[..i];
      c.OnRecv(arrivals[i]);
    }
  }
}
