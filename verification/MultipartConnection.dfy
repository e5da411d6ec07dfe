/** The streaming multipart handlers as the source runs them, on the receive mbuf. */
module MultipartConnection {
  import opened Wrappers
  import opened Bytes
  import opened Multipart

  /** c_strnstr: the offset of the first match. */
  method StrnStr(s: bytes, find: bytes) returns (r: Option<nat>)
    requires find != []
    ensures r == if FindMark(s, find) < |s| then Some(FindMark(s, find)) else None
  {
    hide FindMark;
    var i := 0;
    while i < |s|
      invariant 0 <= i <= |s| && FindMark(s, find) == i + FindMark(s[i..], find)
    {
      if i + |find| > |s| {
        TooShort(s[i..], find);
        return None;
      }
      FindRound(s, i, find);
      if s[i..i + |find|] == find {
        return Some(i);
      }
      i := i + 1;
    }
    TooShort(s[i..], find);
    r := None;
  }

  lemma {:induction false} TooShort(s: bytes, find: bytes)
    requires |s| < |find|
    ensures FindMark(s, find) == |s|
  {
    if s != [] {
      TooShort(s[1..], find);
    }
  }

  lemma FindRound(s: bytes, i: nat, find: bytes)
    requires i < |s| && i + |find| <= |s|
    ensures FindMark(s[i..], find) == if s[i..i + |find|] == find then 0 else 1 + FindMark(s[i + 1..], find)
  {
    assert s[i..][1..] == s[i + 1..];
    assert s[i..][..|find|] == s[i..i + |find|];
  }

  /** mg_get_line_len, on what has been received. */
  method GetLineLen(s: bytes, from: nat) returns (n: nat)
    requires from <= |s|
    ensures n == LineLength(s[from..])
  {
    hide FindMark;
    var at := from;
    while at < |s| && s[at] != 0x0A
      invariant from <= at <= |s| && FindMark(s[from..], [0x0A]) == at - from + FindMark(s[at..], [0x0A])
    {
      FindRound(s, at, [0x0A]);
      at := at + 1;
    }
    if at < |s| {
      FindRound(s, at, [0x0A]);
    } else {
      TooShort(s[at..], [0x0A]);
    }
    n := if at == |s| then 0 else at - from + 1;
  }

  /** The loop over header lines in mg_http_multipart_process_boundary. It stops where the
      source reads behind the received bytes. */
  method ScanHeaderLines(s: bytes) returns (r: Scan)
    ensures r == ScanHeaders(s, 0)
  {
    hide LineLength, IsDisposition, ScanHeaders;
    var at, dataSize := 0, |s|;
    assert s[0..] == s;
    while dataSize > 0
      invariant at <= |s| && |s| - at <= dataSize
      invariant ScanHeaders(s, 0) == Longer(at, ScanHeaders(s[at..], dataSize - (|s| - at)))
      decreases |s| - at
    {
      var lineLen := GetLineLen(s, at);
      ScanRound(s, at, dataSize - (|s| - at));
      if lineLen == 0 {
        return if dataSize > |s| - at then Overrun else Missing;
      }
      var line := s[at..at + lineLen];
      if IsDisposition(line) {
        at := at + lineLen;
        dataSize := dataSize - lineLen;
      } else if line == CRLF {
        return Found(at + lineLen);
      } else {
        at := at + lineLen;
      }
    }
    ScanRound(s, at, 0);
    r := Missing;
  }

  lemma ScanRound(s: bytes, at: nat, extra: nat)
    requires at <= |s|
    ensures
      var n := LineLength(s[at..]);
      && at + n <= |s|
      && ScanHeaders(s[at..], extra)
         == if n == 0 then if extra == 0 then Missing else Overrun
            else if IsDisposition(s[at..at + n]) then Longer(n, ScanHeaders(s[at + n..], extra))
            else if s[at..at + n] == CRLF then Found(n)
            else Longer(n, ScanHeaders(s[at + n..], extra + n))
  {
    hide LineLength, IsDisposition;
    DropSlice(s, at, LineLength(s[at..]));
  }

  class Connection {
    const recv: Mbuf
    const boundary: bytes
    var state: State
    var prevIoLen: nat
    var processingPart: nat
    var events: seq<Event>

    constructor (recv: Mbuf, boundary: bytes)
      requires recv.Valid() && recv.Contents() == [] && boundary != []
      ensures this.recv == recv && this.boundary == boundary
      ensures Valid() && Abs() == START
    {
      this.recv, this.boundary := recv, boundary;
      state, prevIoLen, processingPart, events := Begin, 0, 0, [];
    }

    ghost predicate Valid()
      reads this, recv, recv.buf
    {
      recv.Valid() && boundary != [] && Abs().Valid()
    }

    ghost function Abs(): Stream
      reads this, recv, recv.buf
      requires recv.Valid()
    {
      Stream(state, recv.Contents(), prevIoLen, processingPart, events)
    }

    method CallHandler(e: Event)
      modifies this`events
      ensures events == old(events) + [e]
    {
      events := events + [e];
    }

    method GotChunk()
      requires Valid() && state.GotChunk?
      modifies this, recv, recv.buf
      ensures Valid() && recv.buf == old(recv.buf) && Outcome(Abs(), false) == ReleaseChunk(old(Abs()))
    {
      CallHandler(PartData(recv.buf[..prevIoLen]));
      assert recv.Contents()[..prevIoLen] == recv.buf[..prevIoLen];
      recv.Remove(prevIoLen);
      prevIoLen := 0;
      state := State.WaitingForChunk;
    }

    method FinalizeRequest()
      requires Valid() && state.Finalize?
      modifies this
      ensures Valid() && Abs() == Step(old(Abs()), boundary).s
    {
      CallHandler(PartEnd);
      CallHandler(RequestEnd);
      assert events == old(events) + [PartEnd, RequestEnd];
      state := State.Finished;
    }

    method WaitForBoundary() returns (more: bool)
      requires Valid() && state.WaitingForBoundary?
      modifies this, recv, recv.buf
      ensures Valid() && recv.buf == old(recv.buf)
      ensures Outcome(Abs(), more) == Multipart.WaitForBoundary(old(Abs()), boundary)
    {
      hide FindMark;
      if recv.len < |boundary| + 2 {
        return false;
      }
      var found := StrnStr(recv.buf[..recv.len], boundary);
      if found.None? {
        return false;
      }
      var end := found.value + |boundary|;
      assert end <= recv.len;
      if recv.len - end < 4 {
        return false;
      }
      assert recv.Contents()[end..][..4] == recv.buf[end..end + 4];
      if recv.buf[end..end + 4] == CLOSING {
        state := State.Finalize;
        recv.Remove(end + 4);
      } else {
        state := State.GotBoundary;
      }
      more := true;
    }

    method BeginPart(headers: bytes)
      modifies this`events, this`processingPart
      ensures events == old(events) + (if old(processingPart) != 0 then [PartEnd] else []) + [PartBegin(headers)]
      ensures processingPart == old(processingPart) + 1
    {
      if processingPart != 0 {
        CallHandler(PartEnd);
      }
      assert events == old(events) + if processingPart != 0 then [PartEnd] else [];
      CallHandler(PartBegin(headers));
      processingPart := processingPart + 1;
    }

    method ProcessBoundary() returns (more: bool)
      requires Valid() && state.GotBoundary?
      modifies this, recv, recv.buf
      ensures Valid() && recv.buf == old(recv.buf)
      ensures Outcome(Abs(), more) == Multipart.ProcessBoundary(old(Abs()), boundary)
    {
      hide FindMark;
      var found := StrnStr(recv.buf[..recv.len], boundary);
      if found.None? {
        state := State.Undefined;
        return false;
      }
      var start := found.value + |boundary| + 2;
      if start > recv.len {
        state := State.WaitingForBoundary;
        return false;
      }
      SliceOfSlice(recv.buf[..], 0, recv.len, start, recv.len);
      var scan := ScanHeaderLines(recv.buf[start..recv.len]);
      match scan {
        case Missing =>
          state := State.WaitingForBoundary;
          more := false;
        case Overrun =>
          state := State.Undefined;
          more := false;
        case Found(k) =>
          more := true;
          TakeHeaders(start, k);
      }
    }

    method TakeHeaders(start: nat, k: nat)
      requires recv.Valid() && start + k <= recv.len
      modifies this`state, this`events, this`processingPart, recv, recv.buf
      ensures recv.Valid() && recv.buf == old(recv.buf) && state == State.WaitingForChunk
      ensures recv.Contents() == old(recv.Contents())[start + k..]
      ensures events == old(events) + (if old(processingPart) != 0 then [PartEnd] else [])
                        + [PartBegin(old(recv.Contents())[start..start + k])]
      ensures processingPart == old(processingPart) + 1
    {
      SliceOfSlice(recv.buf[..], 0, recv.len, start, start + k);
      var headers := recv.buf[start..start + k];
      recv.Remove(start + k);
      BeginPart(headers);
      state := State.WaitingForChunk;
    }

    method ContinueWaitForChunk() returns (more: bool)
      requires Valid() && state.WaitingForChunk?
      modifies this, recv, recv.buf
      ensures Valid() && recv.buf == old(recv.buf)
      ensures Outcome(Abs(), more) == WaitForChunk(old(Abs()), boundary)
    {
      hide FindMark;
      if recv.len < |boundary| + 6 {
        return false;
      }
      var found := StrnStr(recv.buf[..recv.len], boundary);
      if found.None? && prevIoLen == 0 {
        prevIoLen := recv.len;
        more := false;
      } else if found.None? && recv.len > prevIoLen + |boundary| + 4 {
        state := State.GotChunk;
        more := true;
      } else if found.Some? {
        var at := found.value;
        if at < 4 {
          state := State.Undefined;
          return false;
        }
        CallHandler(PartData(recv.buf[..at - 4]));
        assert recv.Contents()[..at - 4] == recv.buf[..at - 4];
        recv.Remove(at);
        prevIoLen := 0;
        state := State.WaitingForBoundary;
        more := true;
      } else {
        more := false;
      }
    }

    /** mg_http_multipart_continue */
    method Continue()
      requires Valid()
      modifies this, recv, recv.buf
      ensures Valid() && recv.buf == old(recv.buf)
      ensures Abs() == Multipart.Continue(old(Abs()), boundary)
    {
      hide Multipart.WaitForBoundary, Multipart.ProcessBoundary, WaitForChunk, ReleaseChunk;
      var more := true;
      while more
        invariant Valid() && recv.buf == old(recv.buf)
        invariant Multipart.Continue(old(Abs()), boundary)
               == if more then Multipart.Continue(Abs(), boundary) else Abs()
        decreases more, |Abs().io|, Rank(Abs().state)
      {
        more := Round();
      }
    }

    method Round() returns (more: bool)
      requires Valid()
      modifies this, recv, recv.buf
      ensures Valid() && recv.buf == old(recv.buf)
      ensures Outcome(Abs(), more) == Step(old(Abs()), boundary)
      ensures Multipart.Continue(old(Abs()), boundary)
           == if more then Multipart.Continue(Abs(), boundary) else Abs()
      ensures more ==> |Abs().io| < old(|Abs().io|) || (|Abs().io| == old(|Abs().io|) && Rank(state) < old(Rank(state)))
    {
      hide Multipart.WaitForBoundary, Multipart.ProcessBoundary, WaitForChunk;
      StepDecreases(Abs(), boundary);
      more := true;
      match state {
        case Begin => state := State.WaitingForBoundary;
        case WaitingForBoundary => more := WaitForBoundary();
        case GotBoundary => more := ProcessBoundary();
        case WaitingForChunk => more := ContinueWaitForChunk();
        case GotChunk =>
          GotChunk();
          more := false;
        case Finalize => FinalizeRequest();
        case Finished =>
          recv.Remove(recv.len);
          more := false;
        case Undefined => more := false;
      }
    }

    /** One arrival. */
    method Receive(data: bytes)
      requires Valid()
      modifies this, recv, recv.buf
      ensures Valid() && (recv.buf == old(recv.buf) || fresh(recv.buf))
      ensures
        var s := old(Abs());
        Abs() == Multipart.Continue(s.(io := s.io + data), boundary)
    {
      hide Multipart.Continue;
      recv.Append(data);
      Continue();
    }
  }

  /** A connection fed any cut of a body reports its parts, each with its data. */
  method ReceiveAll(ps: seq<Part>, pre: bytes, epilogue: bytes, arrivals: seq<bytes>, boundary: bytes)
    returns (events: seq<Event>)
    requires Context(boundary, ps) && FindMark(pre + boundary, boundary) == |pre|
    requires Flatten(arrivals) == pre + FromBoundary(ps, boundary, epilogue)
    ensures TellAll(NOTHING, events) == Story(ps, false, true)
  {
    hide FindMark, FromBoundary, Continue, PartsOk;
    WholeBodyTold(ps, pre, epilogue, arrivals, boundary);
    var recv := new Mbuf(0);
    var c := new Connection(recv, boundary);
    for i := 0 to |arrivals|
      invariant c.Valid() && c.boundary == boundary && fresh(c) && fresh(c.recv) && fresh(c.recv.buf)
      invariant Run(START, arrivals, boundary) == Run(c.Abs(), arrivals[i..], boundary)
    {
      assert arrivals[i..][0] == arrivals[i] && arrivals[i..][1..] == arrivals[i + 1..];
      c.Receive(arrivals[i]);
    }
    assert arrivals[|arrivals|..] == [];
    events := c.events;
  }
}
