/** Where streaming multipart bodies go wrong: only the boundary itself is looked for, not
    the delimiter that it is part of. */
module MultipartLimits {
  import opened Wrappers
  import opened Bytes
  import opened Multipart

  // ----------------------------------------------------------- what is settled

  /** A part that has been ended, or has another one behind it, stays as it is. */
  ghost predicate Settled(story: Story, i: nat, p: Part) {
    story.Story? ==> i < |story.parts| && story.parts[i] == p && (story.open ==> i + 1 < |story.parts|)
  }

  lemma {:induction false} SettledStays(story: Story, events: seq<Event>, i: nat, p: Part)
    requires Settled(story, i, p)
    ensures Settled(TellAll(story, events), i, p)
    decreases |events|
  {
    if events != [] {
      SettledStays(Tell(story, events[0]), events[1..], i, p);
    }
  }

  /** Events are only ever added. */
  lemma {:induction false} EventsGrow(s: Stream, b: bytes)
    requires s.Valid() && b != []
    ensures s.events <= Continue(s, b).events
    decreases |s.io|, Rank(s.state)
  {
    StepEvents(s, b);
    StepDecreases(s, b);
    OneRound(s, b);
    hide Step, Continue, Rank;
    if Step(s, b).more {
      EventsGrow(Step(s, b).s, b);
    }
  }

  lemma StepEvents(s: Stream, b: bytes)
    requires s.Valid()
    ensures s.events <= Step(s, b).s.events
  {
    hide FindMark, ScanHeaders;
  }

  /** When a boundary is waited for, the part that is open is ended before anything else. */
  lemma EndComesFirst(s: Stream, b: bytes)
    requires s.Valid() && b != [] && s.state.WaitingForBoundary? && s.parts > 0
    ensures Continue(s, b).events == s.events || s.events + [PartEnd] <= Continue(s, b).events
  {
    hide Step, Continue, FindMark, ScanHeaders;
    OneRound(s, b);
    Round(s, b);
    var o := Step(s, b);
    if o.more {
      OneRound(o.s, b);
      Round(o.s, b);
      var q := Step(o.s, b);
      EventsGrow(q.s, b);
    }
  }

  lemma Round(s: Stream, b: bytes)
    requires s.Valid() && s.parts > 0
    ensures s.state.WaitingForBoundary? ==>
      && Step(s, b).s.events == s.events && Step(s, b).s.parts > 0
      && (Step(s, b).more ==> Step(s, b).s.state.GotBoundary? || Step(s, b).s.state.Finalize?)
    ensures s.state.GotBoundary? || s.state.Finalize? ==>
      (if Step(s, b).more then s.events + [PartEnd] <= Step(s, b).s.events else Step(s, b).s.events == s.events)
    ensures s.state.Finalize? ==> Step(s, b).more
  {
    hide FindMark, ScanHeaders;
  }

  /** A part that was given the wrong data and waits for its end is never told right. */
  lemma WrongForGood(s: Stream, b: bytes, i: nat, p: Part)
    requires s.Valid() && b != [] && s.state.WaitingForBoundary? && s.parts > 0
    requires var story := TellAll(NOTHING, s.events);
      story.Story? && story.open && !story.ended && |story.parts| == i + 1 && story.parts[i] != p
    ensures var story := TellAll(NOTHING, Continue(s, b).events);
      story.Story? && !story.open ==> i < |story.parts| && story.parts[i] != p
  {
    hide Continue, TellAll;
    EndComesFirst(s, b);
    var all := Continue(s, b).events;
    if all != s.events {
      var story := TellAll(NOTHING, s.events);
      TellOne(NOTHING, s.events, PartEnd);
      var rest := all[|s.events| + 1..];
      assert all == s.events + [PartEnd] + rest;
      TellMore(NOTHING, s.events + [PartEnd], rest);
      SettledStays(Tell(story, PartEnd), rest, i, story.parts[i]);
    }
  }

  // ------------------------------------------------------------ part after part

  ghost predicate HeadersOk(ps: seq<Part>) {
    forall p <- ps :: Headers(p.headers)
  }

  lemma {:induction false} FindLeast(s: bytes, mark: bytes, i: nat)
    requires i + |mark| <= |s| && s[i..i + |mark|] == mark && mark != []
    ensures FindMark(s, mark) <= i
  {
    if i > 0 {
      assert s[1..][i - 1..i - 1 + |mark|] == mark;
      FindLeast(s[1..], mark, i - 1);
    } else {
      assert s[..|mark|] == mark;
    }
  }

  /** Where the boundary is found behind the headers of a part. */
  lemma ChunkEnd(data: bytes, b: bytes, more: bytes)
    requires b != []
    ensures var t := data + (DELIMITER + (b + more));
      FindMark(t, b) <= |data| + 4 && (FindMark(t, b) == |data| + 4 <==> Clean(data, b))
  {
    hide FindMark;
    var s := data + (DELIMITER + b);
    var i := |data| + 4;
    assert s[i..i + |b|] == b;
    FindLeast(s, b, i);
    FindInMore(s, more, b);
    Assoc(data, DELIMITER + b, more);
    Assoc(DELIMITER, b, more);
  }

  /** The stream when `pre` and then `text` are all there to be read. */
  ghost predicate AtBoundary(s: Stream, pre: bytes, text: bytes, told: seq<Part>, b: bytes) {
    && s.state.WaitingForBoundary? && s.prev == 0 && (s.parts > 0 <==> told != [])
    && TellAll(NOTHING, s.events) == Story(told, told != [], false)
    && s.io == pre + text && FindMark(pre + b, b) == |pre| && b != []
  }

  lemma BoundaryRead(s: Stream, pre: bytes, more: bytes, told: seq<Part>, b: bytes)
    requires AtBoundary(s, pre, b + (CRLF + more), told, b) && |more| >= 2
    ensures Continue(s, b) == Continue(s.(state := GotBoundary), b)
    ensures FindMark(s.io, b) == |pre|
  {
    hide FindMark, TellAll, Continue, CLOSING;
    var end := CRLF + more;
    assert s.io + [] == s.io;
    BoundaryFound(s.io, [], pre, b, end);
    assert s.io[|pre| + |b|..] == end by {
      Assoc(pre, b, end);
      DropFront(pre + b, end);
    }
    NotClosing(end, more);
    OneRound(s, b);
  }

  lemma NotClosing(end: bytes, more: bytes)
    requires end == CRLF + more
    ensures !(CLOSING <= end)
  {
    assert end[0] == CRLF[0] != CLOSING[0];
  }

  lemma HeadersEnd(h: bytes)
    requires Headers(h)
    ensures |h| >= 2
  {
    hide ScanHeaders;
  }

  /** Headers that are all there are read. */
  lemma HeadersRead(s: Stream, pre: bytes, b: bytes, p: Part, behind: bytes)
    requires s.state.GotBoundary? && s.prev == 0 && FindMark(s.io, b) == |pre| && Headers(p.headers)
    requires s.io == pre + (b + (CRLF + (p.headers + (p.data + behind))))
    ensures Step(s, b)
            == Outcome(Stream(WaitingForChunk, p.data + behind, 0, s.parts + 1,
                              s.events + (if s.parts != 0 then [PartEnd] else []) + [PartBegin(p.headers)]), true)
  {
    hide FindMark, ScanHeaders, Headers;
    HeaderText(pre, b, p.headers + (p.data + behind));
    var start := |pre| + |b| + 2;
    var text := s.io[start..];
    assert text + [] == p.headers + (p.data + behind);
    HeadersFound(p.headers);
    HeadersScanned(text, [], p.headers, p.data + behind, 0);
    DropFront(p.headers, p.data + behind);
    DropSlice(s.io, start, |p.headers|);
  }

  lemma HeadersFound(h: bytes)
    requires Headers(h)
    ensures ScanHeaders(h, 0) == Found(|h|)
  {
  }

  /** The stream behind the headers of a part. */
  function Opened(s: Stream, p: Part, behind: bytes): Stream {
    Stream(WaitingForChunk, p.data + behind, 0, s.parts + 1,
           s.events + (if s.parts != 0 then [PartEnd] else []) + [PartBegin(p.headers)])
  }

  lemma HeadRead(s: Stream, pre: bytes, p: Part, behind: bytes, told: seq<Part>, b: bytes)
    requires AtBoundary(s, pre, b + (CRLF + (p.headers + (p.data + behind))), told, b) && Headers(p.headers)
    ensures Continue(s, b) == Continue(Opened(s, p, behind), b)
    ensures TellAll(NOTHING, Opened(s, p, behind).events) == Story(told + [Part(p.headers, [])], true, false)
  {
    hide FindMark, TellAll, Continue, Headers, Step;
    HeadersEnd(p.headers);
    BoundaryRead(s, pre, p.headers + (p.data + behind), told, b);
    var s1 := s.(state := GotBoundary);
    HeadersRead(s1, pre, b, p, behind);
    OneRound(s1, b);
    HeaderTold(s.events, s.parts != 0, p.headers);
  }

  /** The data of the part as far as the first boundary in it. */
  lemma DataRead(s: Stream, p: Part, b: bytes, behind: bytes, told: seq<Part>)
    requires s.state.WaitingForChunk? && s.prev == 0 && s.parts > 0 && b != [] && |behind| >= 2
    requires s.io == p.data + (DELIMITER + (b + behind))
    requires TellAll(NOTHING, s.events) == Story(told + [Part(p.headers, [])], true, false)
    ensures var i := FindMark(s.io, b);
      if i < 4 then Continue(s, b).events == s.events
      else var d := s.io[..i - 4];
        var s1 := s.(state := WaitingForBoundary, io := s.io[i..], events := s.events + [PartData(d)]);
        && Continue(s, b) == Continue(s1, b)
        && TellAll(NOTHING, s1.events) == Story(told + [Part(p.headers, d)], true, false)
  {
    hide FindMark, TellAll, Continue;
    ChunkEnd(p.data, b, behind);
    OneRound(s, b);
    var i := FindMark(s.io, b);
    assert Step(s, b) == WaitForChunk(s, b);
    if i >= 4 {
      var d := s.io[..i - 4];
      TellOne(NOTHING, s.events, PartData(d));
      assert [] + d == d;
      assert (told + [Part(p.headers, [])])[..|told|] == told;
    }
  }

  /** The stream behind the data of a part, when the data is told right. */
  lemma CleanRead(s: Stream, pre: bytes, p: Part, behind: bytes, told: seq<Part>, b: bytes) returns (r: Stream)
    requires AtBoundary(s, pre, b + (CRLF + (p.headers + (p.data + (DELIMITER + (b + behind))))), told, b)
    requires Headers(p.headers) && Clean(p.data, b) && |behind| >= 2
    ensures AtBoundary(r, [], b + behind, told + [p], b) && Continue(s, b) == Continue(r, b)
  {
    hide TellAll, Continue, FindMark, Clean, Headers;
    var o := Opened(s, p, DELIMITER + (b + behind));
    HeadRead(s, pre, p, DELIMITER + (b + behind), told, b);
    ChunkEnd(p.data, b, behind);
    DataRead(o, p, b, behind, told);
    CleanCut(p.data, b + behind);
    var i := |p.data| + 4;
    r := o.(state := WaitingForBoundary, io := o.io[i..], events := o.events + [PartData(o.io[..i - 4])]);
    assert [] + r.io == r.io;
    FindAtStart(b);
  }

  /** A part whose data holds the boundary, or ends in a way that makes one, is cut short. */
  lemma {:induction false} DirtyPartLost(s: Stream, pre: bytes, ps: seq<Part>, told: seq<Part>, b: bytes,
                                         epilogue: bytes)
    requires AtBoundary(s, pre, FromBoundary(ps, b, epilogue), told, b) && HeadersOk(ps)
    requires exists p <- ps :: !Clean(p.data, b)
    ensures s.Valid() && TellAll(NOTHING, Continue(s, b).events) != Story(told + ps, false, true)
    decreases |ps|
  {
    hide TellAll, Continue, FindMark, Clean, Headers, FromBoundary;
    var p := ps[0];
    var more := FromBoundarySplit(ps, b, epilogue);
    var behind := FromBoundarySplit(ps[1..], b, epilogue);
    if Clean(p.data, b) {
      var r := CleanRead(s, pre, p, behind, told, b);
      assert told + [p] + ps[1..] == told + ps;
      DirtyPartLost(r, [], ps[1..], told + [p], b, epilogue);
    } else {
      var o := Opened(s, p, DELIMITER + (b + behind));
      HeadRead(s, pre, p, DELIMITER + (b + behind), told, b);
      ChunkEnd(p.data, b, behind);
      DataRead(o, p, b, behind, told);
      var i := FindMark(o.io, b);
      assert (told + ps)[|told|] == p;
      if i >= 4 {
        var d := o.io[..i - 4];
        var s1 := o.(state := WaitingForBoundary, io := o.io[i..], events := o.events + [PartData(d)]);
        WrongForGood(s1, b, |told|, p);
      }
    }
  }

  lemma CleanCut(data: bytes, more: bytes)
    ensures var t := data + (DELIMITER + more);
      t[..|data|] == data && t[|data| + 4..] == more
  {
  }

  // ------------------------------------------------------------ cut headers

  /** The text of a body up to the last byte of the first headers with a line that is no
      Content-Disposition line. */
  function CutText(ps: seq<Part>, b: bytes): bytes
    decreases |ps|
  {
    if ps == [] then []
    else
      var p := ps[0];
      b + (CRLF + if OnlyDispositions(p.headers) then p.headers + (p.data + (DELIMITER + CutText(ps[1..], b)))
                  else if p.headers == [] then [] else p.headers[..|p.headers| - 1])
  }

  lemma {:induction false} CutIsPrefix(ps: seq<Part>, b: bytes, epilogue: bytes)
    requires exists p <- ps :: !OnlyDispositions(p.headers)
    ensures CutText(ps, b) <= FromBoundary(ps, b, epilogue)
    ensures ps != [] && exists more :: CutText(ps, b) == b + (CRLF + more)
    decreases |ps|
  {
    hide OnlyDispositions;
    var p := ps[0];
    if OnlyDispositions(p.headers) {
      CutIsPrefix(ps[1..], b, epilogue);
      assert CutText(ps, b) == b + (CRLF + (p.headers + (p.data + (DELIMITER + CutText(ps[1..], b)))));
    } else if p.headers == [] {
      assert CutText(ps, b) == b + (CRLF + []);
    } else {
      assert CutText(ps, b) == b + (CRLF + p.headers[..|p.headers| - 1]);
    }
  }

  /** Without its last byte, such headers send the scan behind the received bytes. */
  lemma {:induction false} OverrunScan(h: bytes, extra: nat)
    requires ScanHeaders(h, extra) == Found(|h|) && (extra > 0 || !OnlyDispositions(h))
    ensures ScanHeaders(h[..|h| - 1], extra) == Overrun
    decreases |h|
  {
    hide FindMark, LineLength, IsDisposition;
    var n, cut := LineLength(h), h[..|h| - 1];
    assert cut + [h[|h| - 1]] == h + [];
    LineInPart(cut, [h[|h| - 1]], h, []);
    if IsDisposition(h[..n]) || h[..n] != CRLF {
      assert cut[..n] == h[..n] && cut[n..] == h[n..][..|h[n..]| - 1];
      OverrunScan(h[n..], if IsDisposition(h[..n]) then extra else extra + n);
    }
  }

  lemma {:induction false} OverrunLost(s: Stream, pre: bytes, ps: seq<Part>, told: seq<Part>, b: bytes)
    requires AtBoundary(s, pre, CutText(ps, b), told, b) && HeadersOk(ps)
    requires forall p <- ps :: Clean(p.data, b)
    requires exists p <- ps :: !OnlyDispositions(p.headers)
    ensures s.Valid() && Continue(s, b).state.Undefined?
    ensures TellAll(NOTHING, Continue(s, b).events).Story? && !TellAll(NOTHING, Continue(s, b).events).ended
    decreases |ps|
  {
    hide TellAll, Continue, FindMark, Clean, Headers, OnlyDispositions;
    var p := ps[0];
    if OnlyDispositions(p.headers) {
      assert exists q <- ps[1..] :: !OnlyDispositions(q.headers);
      CutIsPrefix(ps[1..], b, []);
      var behind :| CutText(ps[1..], b) == b + (CRLF + behind);
      var r := CleanRead(s, pre, p, CRLF + behind, told, b);
      OverrunLost(r, [], ps[1..], told + [p], b);
    } else {
      HeadersEnd(p.headers);
      CutHeadersRead(s, pre, p.headers, told, b);
    }
  }

  lemma CutHeadersRead(s: Stream, pre: bytes, h: bytes, told: seq<Part>, b: bytes)
    requires Headers(h) && !OnlyDispositions(h)
    requires h != [] && AtBoundary(s, pre, b + (CRLF + h[..|h| - 1]), told, b)
    ensures s.Valid() && Continue(s, b) == s.(state := Undefined)
  {
    hide TellAll, Continue, FindMark, OnlyDispositions, ScanHeaders;
    OverrunScan(h, 0);
    LongerThanTwo(h);
    BoundaryRead(s, pre, h[..|h| - 1], told, b);
    HeaderText(pre, b, h[..|h| - 1]);
    OneRound(s.(state := GotBoundary), b);
  }

  lemma LongerThanTwo(h: bytes)
    requires Headers(h) && !OnlyDispositions(h)
    ensures |h| >= 3
  {
    hide FindMark, LineLength, IsDisposition;
  }

  // ---------------------------------------------------- behind the received bytes

  /** The scan as it runs on the memory `s`, when `dataSize` bytes of it pass for received. */
  function ScanMemory(s: bytes, dataSize: nat): (r: Option<nat>)
    decreases |s|
  {
    var window := if dataSize <= |s| then dataSize else |s|;
    var n := LineLength(s[..window]);
    if n == 0 then None
    else if IsDisposition(s[..n]) then Further(n, ScanMemory(s[n..], dataSize - n))
    else if s[..n] == CRLF then Some(n)
    else Further(n, ScanMemory(s[n..], dataSize))
  }

  function Further(n: nat, r: Option<nat>): Option<nat> {
    if r.None? then None else Some(n + r.value)
  }

  /** A line that has arrived in full is seen as it is, whatever lies behind. */
  lemma MemoryLine(io: bytes, behind: bytes, extra: nat)
    requires LineLength(io) > 0
    ensures
      var n := LineLength(io);
      ScanMemory(io + behind, |io| + extra)
      == if IsDisposition(io[..n]) then Further(n, ScanMemory(io[n..] + behind, |io| - n + extra))
         else if io[..n] == CRLF then Some(n)
         else Further(n, ScanMemory(io[n..] + behind, |io| - n + (extra + n)))
  {
    hide FindMark, LineLength, IsDisposition;
    var s, n := io + behind, LineLength(io);
    var window := if |io| + extra <= |s| then |io| + extra else |s|;
    assert s[..window] == io + s[|io|..window];
    LineInWindow(io, s[..window], s[|io|..window]);
    assert s[..n] == io[..n] && s[n..] == io[n..] + behind;
  }

  lemma NoMemoryLine(io: bytes, behind: bytes)
    requires LineLength(io) == 0
    ensures ScanMemory(io + behind, |io|).None?
  {
    hide LineLength;
    assert (io + behind)[..|io|] == io;
  }

  lemma LineInWindow(io: bytes, window: bytes, more: bytes)
    requires LineLength(io) > 0 && window == io + more
    ensures LineLength(window) == LineLength(io)
  {
    hide FindMark;
    FindInMore(io, more, [0x0A]);
  }

  /** As long as the scan does not overrun, what lies behind does not matter. */
  lemma {:induction false} ScanAgrees(io: bytes, extra: nat, behind: bytes)
    requires ScanHeaders(io, extra) != Overrun
    ensures ScanMemory(io + behind, |io| + extra)
            == if ScanHeaders(io, extra).Found? then Some(ScanHeaders(io, extra).length) else None
    decreases |io|
  {
    hide FindMark, LineLength, IsDisposition, ScanMemory;
    var n := LineLength(io);
    if n == 0 {
      NoMemoryLine(io, behind);
    } else {
      MemoryLine(io, behind, extra);
      if IsDisposition(io[..n]) {
        ScanAgrees(io[n..], extra, behind);
      } else if io[..n] != CRLF {
        ScanAgrees(io[n..], extra + n, behind);
      }
    }
  }

  /** How long the lines are that are no Content-Disposition lines. */
  function OtherLength(h: bytes): nat
    decreases |h|
  {
    var n := LineLength(h);
    if n == 0 then 0
    else if IsDisposition(h[..n]) then OtherLength(h[n..])
    else if h[..n] == CRLF then 0
    else n + OtherLength(h[n..])
  }

  /** With this behind the received bytes the scan finds an empty line. */
  ghost predicate Passes(received: bytes, behind: bytes, extra: nat) {
    ScanMemory(received + behind, |received| + extra).Some?
  }

  ghost predicate CanPass(received: bytes, extra: nat) {
    exists behind: bytes :: Passes(received, behind, extra)
  }

  /** Headers of which only the empty line is missing: what lies behind the received bytes
      can pass for it exactly when at least two bytes stand in lines that are no
      Content-Disposition lines. */
  lemma {:induction false} StaleLineTakenIff(h: bytes, extra: nat)
    requires ScanHeaders(h, extra) == Found(|h|)
    ensures |h| >= 2
    ensures CanPass(h[..|h| - 2], extra) <==> extra + OtherLength(h) >= 2
    decreases |h|
  {
    hide LineLength, IsDisposition, Passes, ScanHeaders, OtherLength, CanPass;
    FirstLine(h, extra);
    var n, front := LineLength(h), h[..|h| - 2];
    if !IsDisposition(h[..n]) && h[..n] == CRLF {
      assert front == [];
      EmptyLineBehind(extra);
    } else {
      var more := if IsDisposition(h[..n]) then extra else extra + n;
      StaleLineTakenIff(h[n..], more);
      var behindLine := front[n..];
      assert behindLine == h[n..][..|h[n..]| - 2];
      forall behind: bytes
        ensures Passes(front, behind, extra) <==> Passes(behindLine, behind, more)
      {
        MemoryStep(h, front, n, behind, extra);
      }
      SamePassing(front, extra, behindLine, more);
    }
  }

  lemma FirstLine(h: bytes, extra: nat)
    requires ScanHeaders(h, extra) == Found(|h|)
    ensures
      var n := LineLength(h);
      && 0 < n <= |h| && |h| >= 2
      && if !IsDisposition(h[..n]) && h[..n] == CRLF then n == |h| == 2 && OtherLength(h) == 0
         else
           var more := if IsDisposition(h[..n]) then extra else extra + n;
           && |h| - n >= 2 && ScanHeaders(h[n..], more) == Found(|h| - n)
           && extra + OtherLength(h) == more + OtherLength(h[n..])
  {
    hide LineLength, IsDisposition;
  }

  lemma SamePassing(a: bytes, extra: nat, b: bytes, more: nat)
    requires forall behind: bytes :: Passes(a, behind, extra) <==> Passes(b, behind, more)
    ensures CanPass(a, extra) <==> CanPass(b, more)
  {
    hide Passes;
  }

  lemma MemoryStep(h: bytes, front: bytes, n: nat, behind: bytes, extra: nat)
    requires |h| >= 2 && front == h[..|h| - 2] && n == LineLength(h) && 0 < n <= |front|
    requires IsDisposition(h[..n]) || h[..n] != CRLF
    ensures Passes(front, behind, extra)
            <==> Passes(front[n..], behind, if IsDisposition(h[..n]) then extra else extra + n)
  {
    hide FindMark, LineLength, IsDisposition, ScanMemory;
    assert front + h[|h| - 2..] == h + [];
    LineInPart(front, h[|h| - 2..], h, []);
    assert front[..n] == h[..n];
    MemoryLine(front, behind, extra);
  }

  lemma EmptyLineBehind(extra: nat)
    ensures CanPass([], extra) <==> extra >= 2
  {
    if extra >= 2 {
      var behind: bytes := CRLF;
      assert [] + behind == behind && behind[..2] == behind && behind[1..] == [0x0A];
      assert [0x0A as byte] <= behind[1..] && behind[0] != 0x0A;
      assert FindMark(behind, [0x0A]) == 1 + FindMark(behind[1..], [0x0A]) == 1;
      assert Passes([], behind, extra);
    } else {
      forall behind: bytes ensures !Passes([], behind, extra) {
        assert [] + behind == behind;
        OneByteAtATime(behind, extra);
      }
    }
  }

  lemma {:induction false} OneByteAtATime(s: bytes, dataSize: nat)
    requires dataSize <= 1
    ensures ScanMemory(s, dataSize).None?
    decreases |s|
  {
    if s != [] && LineLength(s[..if dataSize <= |s| then dataSize else |s|]) != 0 {
      OneByteAtATime(s[1..], dataSize);
    }
  }

  // --------------------------------------------------------------- exactly when

  ghost predicate ToldRight(arrivals: seq<bytes>, ps: seq<Part>, b: bytes)
    requires b != []
  {
    TellAll(NOTHING, Run(START, arrivals, b).events) == Story(ps, false, true)
  }

  /** Every way of cutting a body into arrivals is told right, from the received bytes
      alone, exactly when there is a part and, in each part, the boundary first occurs
      behind the delimiter that ends it and all headers are Content-Disposition lines. The
      standard only asks that the whole delimiter should not occur in the data. */
  lemma ToldRightIff(ps: seq<Part>, pre: bytes, epilogue: bytes, b: bytes)
    requires b != [] && HeadersOk(ps) && FindMark(pre + b, b) == |pre|
    ensures (forall arrivals: seq<bytes> | Flatten(arrivals) == pre + FromBoundary(ps, b, epilogue) ::
              ToldRight(arrivals, ps, b))
            <==> ps != [] && forall p <- ps :: Clean(p.data, b) && OnlyDispositions(p.headers)
  {
    hide FindMark, FromBoundary, Run, TellAll, Clean, Headers, OnlyDispositions, Context;
    var text := pre + FromBoundary(ps, b, epilogue);
    if ps == [] {
      InOnePiece(text, b);
      NoPartsEndUnbegun(pre, epilogue, [text], b);
      assert !ToldRight([text], ps, b);
    } else if exists p <- ps :: !Clean(p.data, b) {
      DirtyNotTold(ps, pre, epilogue, b, text);
      assert !ToldRight([text], ps, b);
    } else if exists p <- ps :: !OnlyDispositions(p.headers) {
      var arrivals := CutNotTold(ps, pre, epilogue, b, text);
      assert !ToldRight(arrivals, ps, b);
    } else {
      forall arrivals: seq<bytes> | Flatten(arrivals) == text ensures ToldRight(arrivals, ps, b) {
        AllOkTold(ps, pre, epilogue, arrivals, b);
      }
    }
  }

  lemma AllOkTold(ps: seq<Part>, pre: bytes, epilogue: bytes, arrivals: seq<bytes>, b: bytes)
    requires b != [] && ps != [] && HeadersOk(ps) && FindMark(pre + b, b) == |pre|
    requires forall p <- ps :: Clean(p.data, b) && OnlyDispositions(p.headers)
    requires Flatten(arrivals) == pre + FromBoundary(ps, b, epilogue)
    ensures ToldRight(arrivals, ps, b)
  {
    hide FindMark, FromBoundary, Run, TellAll, Clean, Headers, OnlyDispositions;
    WholeBodyTold(ps, pre, epilogue, arrivals, b);
  }

  lemma DirtyNotTold(ps: seq<Part>, pre: bytes, epilogue: bytes, b: bytes, text: bytes)
    requires b != [] && HeadersOk(ps) && FindMark(pre + b, b) == |pre| && exists p <- ps :: !Clean(p.data, b)
    requires text == pre + FromBoundary(ps, b, epilogue)
    ensures Flatten([text]) == text && !ToldRight([text], ps, b)
  {
    hide FindMark, FromBoundary, Run, TellAll, Clean, Headers;
    NothingTold();
    InOnePiece(text, b);
    var s := START.(state := WaitingForBoundary, io := text);
    DirtyPartLost(s, pre, ps, [], b, epilogue);
    assert [] + ps == ps;
  }

  lemma CutNotTold(ps: seq<Part>, pre: bytes, epilogue: bytes, b: bytes, text: bytes) returns (arrivals: seq<bytes>)
    requires b != [] && HeadersOk(ps) && FindMark(pre + b, b) == |pre| && forall p <- ps :: Clean(p.data, b)
    requires exists p <- ps :: !OnlyDispositions(p.headers)
    requires text == pre + FromBoundary(ps, b, epilogue)
    ensures Flatten(arrivals) == text && !ToldRight(arrivals, ps, b)
  {
    hide FindMark, FromBoundary, Run, TellAll, Clean, Headers, OnlyDispositions, CutText;
    NothingTold();
    CutIsPrefix(ps, b, epilogue);
    var x := pre + CutText(ps, b);
    var y := text[|x|..];
    assert text == x + y;
    arrivals := [x, y];
    InTwoPieces(x, y, b);
    OverrunLost(START.(state := WaitingForBoundary, io := x), pre, ps, [], b);
    UndefinedStays(Continue(START.(state := WaitingForBoundary, io := x), b), y, b);
  }

  lemma InTwoPieces(x: bytes, y: bytes, b: bytes)
    requires b != []
    ensures Flatten([x, y]) == x + y
    ensures
      var r := Continue(START.(state := WaitingForBoundary, io := x), b);
      Run(START, [x, y], b) == Continue(r.(io := r.io + y), b)
  {
    hide Continue;
    assert [] + x == x && [x, y][1..] == [y] && [y][1..] == [] && y + [] == y;
    assert Flatten([y]) == y;
    OneRound(START.(io := x), b);
    var r := Continue(START.(io := x), b);
    assert Run(r, [y], b) == Run(Continue(r.(io := r.io + y), b), [], b);
  }

  lemma UndefinedStays(s: Stream, y: bytes, b: bytes)
    requires s.Valid() && s.state.Undefined? && b != []
    ensures Continue(s.(io := s.io + y), b).events == s.events
  {
    hide Continue;
    OneRound(s.(io := s.io + y), b);
  }

  lemma InOnePiece(text: bytes, b: bytes)
    requires b != []
    ensures Flatten([text]) == text
    ensures Run(START, [text], b) == Continue(START.(state := WaitingForBoundary, io := text), b)
  {
    hide Continue;
    assert [] + text == text && text + [] == text && [text][1..] == [];
    OneRound(START.(io := text), b);
  }

  lemma NothingTold()
    ensures TellAll(NOTHING, []) == NOTHING
  {
  }

  /** Data that holds the boundary is never clean. */
  lemma BoundaryInData(data: bytes, b: bytes)
    requires b != [] && FindMark(data, b) < |data|
    ensures !Clean(data, b)
  {
    hide FindMark;
    FindInMore(data, DELIMITER + b, b);
  }

  /** A body that the standard allows: such data, without the delimiter. */
  lemma AllowedByStandard(b: bytes, data: bytes)
    requires b == [0x58] && data == [0x61, 0x62, 0x63, 0x64, 0x58]
    ensures FindMark(data, DELIMITER + b) == |data| && FindMark(data, b) < |data| && !Clean(data, b)
  {
    FindNowhere(data, DELIMITER + b);
    assert data[4..5] == b;
    FindLeast(data, b, 4);
    BoundaryInData(data, b);
  }

  lemma {:induction false} FindNowhere(s: bytes, mark: bytes)
    requires mark != [] && mark[0] !in s
    ensures FindMark(s, mark) == |s|
  {
    if s != [] {
      assert s[0] in s && forall c <- s[1..] :: c in s;
      FindNowhere(s[1..], mark);
    }
  }
}
