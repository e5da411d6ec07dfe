/** Streaming multipart bodies (section 5.1.1 of RFC 2046) as a step function on the
    receive buffer. */
module Multipart {
  import opened Wrappers
  import opened Bytes

  const DELIMITER: bytes := [0x0D, 0x0A, 0x2D, 0x2D]
  const CRLF: bytes := [0x0D, 0x0A]
  const CLOSING: bytes := [0x2D, 0x2D, 0x0D, 0x0A]

  datatype State =
    | Begin | WaitingForBoundary | GotBoundary | WaitingForChunk | GotChunk | Finalize | Finished
    | Undefined

  datatype Event = PartBegin(headers: bytes) | PartData(data: bytes) | PartEnd | RequestEnd

  /** mp_stream and the receive buffer, with the events raised so far. `prev` is
      prev_io_len, `parts` is processing_part. */
  datatype Stream = Stream(state: State, io: bytes, prev: nat, parts: nat, events: seq<Event>) {
    predicate Valid() {
      && prev <= |io| && (state.GotChunk? ==> prev > 0)
      && (prev > 0 ==> state.WaitingForChunk? || state.GotChunk? || state.Undefined?)
    }
  }

  /** What one handler does: the new stream, and whether the loop goes on. */
  datatype Outcome = Outcome(s: Stream, more: bool)

  /** mg_http_multipart_wait_for_boundary */
  function WaitForBoundary(s: Stream, b: bytes): Outcome {
    var i := FindMark(s.io, b);
    var end := i + |b|;
    if |s.io| < |b| + 2 || i == |s.io| || |s.io| - end < 4 then Outcome(s, false)
    else if CLOSING <= s.io[end..] then Outcome(s.(state := Finalize, io := s.io[end + 4..]), true)
    else Outcome(s.(state := GotBoundary), true)
  }

  /** mg_get_line_len: 0 when no line ends here. */
  function LineLength(s: bytes): (n: nat)
    ensures n <= |s|
  {
    var i := FindMark(s, [0x0A]);
    if i == |s| then 0 else i + 1
  }

  /** The start of a Content-Disposition line, in lower case. */
  const DISPOSITION: bytes :=
    [0x63, 0x6F, 0x6E, 0x74, 0x65, 0x6E, 0x74, 0x2D, 0x64, 0x69, 0x73, 0x70, 0x6F, 0x73, 0x69, 0x74, 0x69, 0x6F,
     0x6E, 0x3A, 0x20]

  predicate IsDisposition(line: bytes) {
    |line| > |DISPOSITION| + 1 && forall i | 0 <= i < |DISPOSITION| :: Lower(line[i]) == DISPOSITION[i]
  }

  const DISPOSITION_NAME: string := "Content-Disposition: "

  lemma DispositionSpelled()
    ensures |DISPOSITION_NAME| == |DISPOSITION| == 21
    ensures forall i | 0 <= i < 21 :: DISPOSITION_NAME[i] as int < 128
    ensures forall i | 0 <= i < 21 :: DISPOSITION[i] == Lower(DISPOSITION_NAME[i] as int)
  {
  }

  /** Such a line starts with the name of the header, in any case, and goes on behind it. */
  lemma DispositionIff(line: bytes)
    ensures IsDisposition(line) <==>
              |line| > 22 && forall i | 0 <= i < 21 :: IsLetterOf(line[i], DISPOSITION_NAME[i])
  {
    DispositionSpelled();
    if |line| > 22 {
      forall i | 0 <= i < 21
        ensures Lower(line[i]) == DISPOSITION[i] <==> IsLetterOf(line[i], DISPOSITION_NAME[i])
      {
        LowerIff(line[i], DISPOSITION_NAME[i] as int);
      }
    }
  }

  predicate IsLetterOf(b: byte, c: char) {
    c as int < 256 && SameLetter(b, c as int)
  }

  /** Overrun: the scan goes on into what lies behind the received bytes. */
  datatype Scan = Missing | Overrun | Found(length: nat)

  function Longer(n: nat, r: Scan): Scan {
    if r.Found? then Found(n + r.length) else r
  }

  /** How much text the headers of a part take, up to and including their empty line.
      Only Content-Disposition lines are taken off data_size; `extra` is how much it is
      too large by now. */
  function ScanHeaders(s: bytes, extra: nat): (r: Scan)
    ensures r.Found? ==> 2 <= r.length <= |s|
    decreases |s|
  {
    var n := LineLength(s);
    if n == 0 then if extra == 0 then Missing else Overrun
    else if IsDisposition(s[..n]) then Longer(n, ScanHeaders(s[n..], extra))
    else if s[..n] == CRLF then Found(n)
    else Longer(n, ScanHeaders(s[n..], extra + n))
  }

  /** mg_http_multipart_process_boundary */
  function ProcessBoundary(s: Stream, b: bytes): Outcome {
    var i := FindMark(s.io, b);
    var start := i + |b| + 2;
    if i == |s.io| then Outcome(s.(state := Undefined), false)
    else if start > |s.io| then Outcome(s.(state := WaitingForBoundary), false)
    else match ScanHeaders(s.io[start..], 0)
      case Missing => Outcome(s.(state := WaitingForBoundary), false)
      case Overrun => Outcome(s.(state := Undefined), false)
      case Found(n) =>
        Outcome(s.(state := WaitingForChunk, io := s.io[start + n..], parts := s.parts + 1,
                   events := s.events + (if s.parts != 0 then [PartEnd] else [])
                             + [PartBegin(s.io[start..start + n])]),
                true)
  }

  /** mg_http_multipart_continue_wait_for_chunk. With fewer than four bytes in front of the
      boundary the length of the event would be negative. */
  function WaitForChunk(s: Stream, b: bytes): Outcome {
    var i := FindMark(s.io, b);
    if |s.io| < |b| + 6 then Outcome(s, false)
    else if i == |s.io| then
      if s.prev == 0 then Outcome(s.(prev := |s.io|), false)
      else if |s.io| > s.prev + |b| + 4 then Outcome(s.(state := GotChunk), true)
      else Outcome(s, false)
    else if i < 4 then Outcome(s.(state := Undefined), false)
    else
      Outcome(s.(state := WaitingForBoundary, io := s.io[i..], prev := 0,
                 events := s.events + [PartData(s.io[..i - 4])]),
              true)
  }

  /** mg_http_multipart_got_chunk, which ends the loop. */
  function ReleaseChunk(s: Stream): Outcome
    requires s.prev <= |s.io|
  {
    Outcome(s.(state := WaitingForChunk, io := s.io[s.prev..], prev := 0,
               events := s.events + [PartData(s.io[..s.prev])]),
            false)
  }

  /** One round of mg_http_multipart_continue. */
  function Step(s: Stream, b: bytes): (o: Outcome)
    requires s.Valid()
  {
    match s.state
    case Begin => Outcome(s.(state := WaitingForBoundary), true)
    case WaitingForBoundary => WaitForBoundary(s, b)
    case GotBoundary => ProcessBoundary(s, b)
    case WaitingForChunk => WaitForChunk(s, b)
    case GotChunk => ReleaseChunk(s)
    case Finalize => Outcome(s.(state := Finished, events := s.events + [PartEnd, RequestEnd]), true)
    case Finished => Outcome(s.(io := []), false)
    case Undefined => Outcome(s, false)
  }

  function Rank(state: State): nat {
    match state
    case Begin => 5
    case WaitingForChunk => 4
    case GotChunk => 3
    case WaitingForBoundary => 2
    case GotBoundary => 1
    case Finalize => 1
    case _ => 0
  }

  ghost predicate Progress(s: Stream, o: Outcome) {
    && o.s.Valid() && (!o.more ==> !o.s.state.GotChunk?)
    && (o.more ==> |o.s.io| < |s.io| || (|o.s.io| == |s.io| && Rank(o.s.state) < Rank(s.state)))
  }

  lemma BoundaryProgress(s: Stream, b: bytes)
    requires s.Valid() && s.state.WaitingForBoundary?
    ensures Progress(s, WaitForBoundary(s, b))
  {
    hide FindMark;
  }

  lemma HeaderProgress(s: Stream, b: bytes)
    requires s.Valid() && s.state.GotBoundary?
    ensures Progress(s, ProcessBoundary(s, b))
  {
    hide FindMark;
  }

  lemma ChunkProgress(s: Stream, b: bytes)
    requires s.Valid() && s.state.WaitingForChunk? && b != []
    ensures Progress(s, WaitForChunk(s, b))
  {
    hide FindMark;
  }

  /** Every round that goes on consumes input or comes closer to the end of the part. */
  lemma StepDecreases(s: Stream, b: bytes)
    requires s.Valid() && b != []
    ensures Progress(s, Step(s, b))
  {
    hide WaitForBoundary, ProcessBoundary, WaitForChunk;
    match s.state
    case WaitingForBoundary => BoundaryProgress(s, b);
    case GotBoundary => HeaderProgress(s, b);
    case WaitingForChunk => ChunkProgress(s, b);
    case _ =>
  }

  /** mg_http_multipart_continue */
  function Continue(s: Stream, b: bytes): (r: Stream)
    requires s.Valid() && b != []
    ensures r.Valid() && !r.state.GotChunk?
    decreases |s.io|, Rank(s.state)
  {
    StepDecreases(s, b);
    var o := Step(s, b);
    if o.more then Continue(o.s, b) else o.s
  }

  /** The receive handler, once for each arrival. */
  function Run(s: Stream, arrivals: seq<bytes>, b: bytes): (r: Stream)
    requires s.Valid() && b != []
    ensures r.Valid()
    decreases |arrivals|
  {
    if arrivals == [] then s
    else Run(Continue(s.(io := s.io + arrivals[0]), b), arrivals[1..], b)
  }

  // ----------------------------------------------------------------- meaning

  datatype Part = Part(headers: bytes, data: bytes)

  /** What the events tell: the parts, the last with the data it got so far, and whether
      the request has ended. Events out of order tell nothing. */
  datatype Story = Story(parts: seq<Part>, open: bool, ended: bool) | Nonsense

  function Tell(story: Story, e: Event): Story {
    match story
    case Nonsense => Nonsense
    case Story(parts, open, ended) =>
      if ended then Nonsense
      else match e
        case PartBegin(h) => if open then Nonsense else Story(parts + [Part(h, [])], true, false)
        case PartData(d) =>
          if !open || parts == [] then Nonsense
          else
            var last := parts[|parts| - 1];
            Story(parts[..|parts| - 1] + [Part(last.headers, last.data + d)], true, false)
        case PartEnd => if open then Story(parts, false, false) else Nonsense
        case RequestEnd => if open then Nonsense else Story(parts, false, true)
  }

  function TellAll(story: Story, events: seq<Event>): Story
    decreases |events|
  {
    if events == [] then story else TellAll(Tell(story, events[0]), events[1..])
  }

  const NOTHING := Story([], false, false)

  lemma {:induction false} TellMore(story: Story, a: seq<Event>, b: seq<Event>)
    ensures TellAll(story, a + b) == TellAll(TellAll(story, a), b)
    decreases |a|
  {
    if a == [] {
      assert a + b == b;
    } else {
      assert (a + b)[1..] == a[1..] + b;
      TellMore(Tell(story, a[0]), a[1..], b);
    }
  }

  lemma TellOne(story: Story, events: seq<Event>, e: Event)
    ensures TellAll(story, events + [e]) == Tell(TellAll(story, events), e)
  {
    TellMore(story, events, [e]);
    assert [e][1..] == [];
  }

  // ----------------------------------------------------------- the messages

  /** The text of a body from a boundary on. */
  function FromBoundary(ps: seq<Part>, b: bytes, epilogue: bytes): (r: bytes)
    ensures |r| >= |b| + 4
    decreases |ps|
  {
    if ps == [] then b + (CLOSING + epilogue)
    else b + (CRLF + (ps[0].headers + (ps[0].data + (DELIMITER + FromBoundary(ps[1..], b, epilogue)))))
  }

  /** Lines up to the first empty one. */
  predicate Headers(h: bytes) {
    ScanHeaders(h, 0) == Found(|h|)
  }

  /** All lines but the empty one are Content-Disposition lines. */
  predicate OnlyDispositions(h: bytes)
    decreases |h|
  {
    var n := LineLength(h);
    n == 0 || if IsDisposition(h[..n]) then OnlyDispositions(h[n..]) else h[..n] == CRLF
  }

  /** The boundary first occurs right behind the delimiter that follows the data. */
  predicate Clean(data: bytes, b: bytes) {
    FindMark(data + (DELIMITER + b), b) == |data| + 4
  }

  predicate PartsOk(ps: seq<Part>, b: bytes) {
    forall p <- ps :: Headers(p.headers) && OnlyDispositions(p.headers) && Clean(p.data, b)
  }

  // --------------------------------------------------------------- searching

  /** In a prefix the mark is found where it is in the whole, if all of it is there. */
  lemma {:induction false} FindInPrefix(s: bytes, t: bytes, mark: bytes)
    requires mark != []
    ensures
      var r := FindMark(s + t, mark);
      FindMark(s, mark) == if r < |s + t| && r + |mark| <= |s| then r else |s|
  {
    if s != [] {
      assert (s + t)[1..] == s[1..] + t;
      FindInPrefix(s[1..], t, mark);
      if |mark| <= |s| {
        assert (s + t)[..|mark|] == s[..|mark|];
      }
    }
  }

  lemma {:induction false} FindInSuffix(s: bytes, k: nat, mark: bytes)
    requires k <= FindMark(s, mark) && k <= |s|
    ensures FindMark(s[k..], mark) == FindMark(s, mark) - k
  {
    if k > 0 {
      assert s[1..][k - 1..] == s[k..];
      FindInSuffix(s[1..], k - 1, mark);
    } else {
      assert s[0..] == s;
    }
  }

  lemma {:induction false} FindInMore(s: bytes, t: bytes, mark: bytes)
    requires FindMark(s, mark) < |s|
    ensures FindMark(s + t, mark) == FindMark(s, mark)
  {
    assert (s + t)[1..] == s[1..] + t;
    FindLater(s, mark);
    assert (s + t)[..|mark|] == s[..|mark|];
    if !(mark <= s) {
      FindInMore(s[1..], t, mark);
    }
  }

  lemma FindLater(s: bytes, mark: bytes)
    requires FindMark(s, mark) < |s|
    ensures |mark| <= |s|
  {
  }

  /** Where the boundary is in what follows a stretch of data. */
  lemma CleanFind(rest: bytes, b: bytes, more: bytes)
    requires Clean(rest, b) && b != []
    ensures FindMark(rest + (DELIMITER + (b + more)), b) == |rest| + 4
  {
    hide FindMark;
    var s := rest + (DELIMITER + b);
    FindInMore(s, more, b);
    Assoc(rest, DELIMITER + b, more);
    Assoc(DELIMITER, b, more);
  }

  lemma DropInside(a: bytes, c: bytes, k: nat)
    requires k <= |a|
    ensures (a + c)[k..] == a[k..] + c
  {
  }

  lemma CleanSuffix(rest: bytes, k: nat, b: bytes)
    requires Clean(rest, b) && k <= |rest|
    ensures Clean(rest[k..], b)
  {
    hide FindMark;
    FindInSuffix(rest + (DELIMITER + b), k, b);
    DropInside(rest, DELIMITER + b, k);
  }

  // --------------------------------------------------------------- invariant

  /** What is still to come of the message: something and a boundary, the rest of a part's
      data, or nothing. */
  datatype Outlook = Boundary(pre: bytes, ps: seq<Part>) | Data(rest: bytes, ps: seq<Part>) | Over

  function Text(o: Outlook, b: bytes, epilogue: bytes): bytes {
    match o
    case Boundary(pre, ps) => pre + FromBoundary(ps, b, epilogue)
    case Data(rest, ps) => rest + (DELIMITER + FromBoundary(ps, b, epilogue))
    case Over => []
  }

  /** All parts, given what has been told and what is to come. */
  function Total(told: seq<Part>, o: Outlook): seq<Part> {
    match o
    case Boundary(_, ps) => told + ps
    case Data(rest, ps) =>
      if told == [] then ps
      else told[..|told| - 1] + [Part(told[|told| - 1].headers, told[|told| - 1].data + rest)] + ps
    case Over => told
  }

  ghost predicate Context(b: bytes, all: seq<Part>) {
    b != [] && all != [] && PartsOk(all, b)
  }

  /** The stream is where the outlook says, and the events so far tell the rest. */
  ghost predicate Inv(s: Stream, ahead: bytes, o: Outlook, all: seq<Part>, b: bytes, epilogue: bytes) {
    var story := TellAll(NOTHING, s.events);
    && s.Valid() && story.Story? && Total(story.parts, o) == all
    && (s.parts > 0 <==> story.parts != [])
    && match o
       case Boundary(pre, ps) =>
         && s.io + ahead == Text(o, b, epilogue) && FindMark(pre + b, b) == |pre|
         && story.open == (s.parts > 0) && !story.ended
         && (s.state.Begin? || s.state.WaitingForBoundary?
             || (s.state.GotBoundary? && ps != [] && |s.io| >= |pre| + |b| + 4))
       case Data(rest, ps) =>
         && s.io + ahead == Text(o, b, epilogue) && Clean(rest, b)
         && s.parts > 0 && story.open && !story.ended
         && (s.state.WaitingForChunk? || (s.state.GotChunk? && s.prev <= |rest| && |s.io| < |rest| + 4 + |b|))
       case Over =>
         || (s.state.Finalize? && story.open && !story.ended)
         || (s.state.Finished? && !story.open && story.ended)
  }

  // -------------------------------------------------------------- each round

  lemma FromBoundarySplit(ps: seq<Part>, b: bytes, epilogue: bytes) returns (more: bytes)
    ensures FromBoundary(ps, b, epilogue) == b + more && |more| >= 4
    ensures ps == [] ==> more == CLOSING + epilogue
    ensures ps != [] ==>
              more == CRLF + (ps[0].headers + (ps[0].data + (DELIMITER + FromBoundary(ps[1..], b, epilogue))))
  {
    more := if ps == [] then CLOSING + epilogue
            else CRLF + (ps[0].headers + (ps[0].data + (DELIMITER + FromBoundary(ps[1..], b, epilogue))));
  }

  /** The boundary in the text up to which something else stands. */
  lemma BoundaryFound(io: bytes, ahead: bytes, pre: bytes, b: bytes, more: bytes)
    requires b != [] && FindMark(pre + b, b) == |pre| && io + ahead == pre + (b + more)
    ensures FindMark(io, b) == if |pre| + |b| <= |io| then |pre| else |io|
  {
    hide FindMark;
    FindInMore(pre + b, more, b);
    Assoc(pre, b, more);
    FindInPrefix(io, ahead, b);
  }

  lemma ClosingOrNot(end: bytes, ahead: bytes, ps: seq<Part>, more: bytes)
    requires |end| >= 4 && end + ahead == more
    requires ps == [] ==> CLOSING <= more
    requires ps != [] ==> CRLF <= more
    ensures CLOSING <= end <==> ps == []
  {
    assert more[..4] == end[..4];
    assert more[0] == end[0];
    if ps == [] {
      assert more[..4] == CLOSING;
    } else {
      assert more[..2][0] == more[0] == CRLF[0];
    }
  }

  /** Waiting for a boundary: it is found once it is there with the four bytes behind it. */
  lemma BoundaryStep(s: Stream, ahead: bytes, o: Outlook, all: seq<Part>, b: bytes, epilogue: bytes)
    returns (o': Outlook)
    requires Context(b, all) && Inv(s, ahead, o, all, b, epilogue)
    requires o.Boundary? && s.state.WaitingForBoundary?
    ensures
      var r := Step(s, b);
      Inv(r.s, ahead, o', all, b, epilogue) && (!r.more ==> ahead != [])
  {
    hide FindMark, TellAll, FromBoundary, PartsOk;
    var more := FromBoundarySplit(o.ps, b, epilogue);
    BoundaryFound(s.io, ahead, o.pre, b, more);
    o' := o;
    var end := |o.pre| + |b|;
    if |s.io| >= end + 4 {
      DropInside(s.io, ahead, end);
      Assoc(o.pre, b, more);
      DropFront(o.pre + b, more);
      ClosingOrNot(s.io[end..], ahead, o.ps, more);
      if o.ps == [] {
        o' := Over;
        TotalEnd(TellAll(NOTHING, s.events).parts, o.pre);
      }
    }
  }

  lemma TotalEnd(told: seq<Part>, pre: bytes)
    ensures Total(told, Boundary(pre, [])) == told
  {
    assert told + [] == told;
  }

  lemma DropFront(a: bytes, c: bytes)
    ensures (a + c)[|a|..] == c
  {
  }

  /** Reading the headers of the next part. */
  lemma HeaderStep(s: Stream, ahead: bytes, o: Outlook, all: seq<Part>, b: bytes, epilogue: bytes)
    returns (o': Outlook)
    requires Context(b, all) && Inv(s, ahead, o, all, b, epilogue)
    requires o.Boundary? && s.state.GotBoundary?
    ensures
      var r := Step(s, b);
      Inv(r.s, ahead, o', all, b, epilogue) && (!r.more ==> ahead != [])
  {
    hide FindMark, TellAll, FromBoundary, OnlyDispositions, Clean, Total, ScanHeaders;
    var p, behind := o.ps[0], DELIMITER + FromBoundary(o.ps[1..], b, epilogue);
    var more := FromBoundarySplit(o.ps, b, epilogue);
    BoundaryFound(s.io, ahead, o.pre, b, more);
    var start := |o.pre| + |b| + 2;
    DropInside(s.io, ahead, start);
    HeaderText(o.pre, b, p.headers + (p.data + behind));
    TotalHead(TellAll(NOTHING, s.events).parts, o.pre, o.ps);
    PartOk(p, all, b);
    HeadersScanned(s.io[start..], ahead, p.headers, p.data + behind, 0);
    o' := o;
    if |p.headers| <= |s.io| - start {
      o' := Data(p.data, o.ps[1..]);
      DropInside(s.io[start..], ahead, |p.headers|);
      DropFront(p.headers, p.data + behind);
      DropSlice(s.io, start, |p.headers|);
      HeaderTold(s.events, s.parts != 0, p.headers);
    }
  }

  lemma PartOk(p: Part, all: seq<Part>, b: bytes)
    requires p in all && PartsOk(all, b)
    ensures Headers(p.headers) && OnlyDispositions(p.headers) && Clean(p.data, b)
  {
  }

  lemma HeaderText(pre: bytes, b: bytes, rest: bytes)
    ensures (pre + (b + (CRLF + rest)))[|pre| + |b| + 2..] == rest
  {
  }

  lemma TotalHead(told: seq<Part>, pre: bytes, ps: seq<Part>)
    requires ps != []
    ensures ps[0] in Total(told, Boundary(pre, ps))
    ensures Total(told, Boundary(pre, ps)) == Total(told + [Part(ps[0].headers, [])], Data(ps[0].data, ps[1..]))
  {
    assert [] + ps[0].data == ps[0].data;
    assert (told + [Part(ps[0].headers, [])])[..|told|] == told;
    assert ps == [ps[0]] + ps[1..];
  }

  /** The end of the headers is found as soon as they have arrived in full. Before, with
      nothing but Content-Disposition lines, the scan stays within what has arrived. */
  lemma {:induction false} HeadersScanned(io: bytes, ahead: bytes, h: bytes, rest: bytes, extra: nat)
    requires ScanHeaders(h, extra) == Found(|h|) && io + ahead == h + rest
    ensures |h| <= |io| ==> ScanHeaders(io, extra) == Found(|h|) && io[..|h|] == h
    ensures |h| > |io| ==> ahead != []
    ensures |h| > |io| && extra == 0 && OnlyDispositions(h) ==> ScanHeaders(io, extra) == Missing
    decreases |h|
  {
    hide FindMark, LineLength, IsDisposition;
    var n := LineLength(h);
    LineInPart(io, ahead, h, rest);
    if |h| <= |io| {
      assert io[..|h|] == (io + ahead)[..|h|] == h;
    }
    if n <= |io| {
      assert io[..n] == (io + ahead)[..n] == (h + rest)[..n] == h[..n];
      if IsDisposition(h[..n]) || h[..n] != CRLF {
        DropInside(io, ahead, n);
        DropInside(h, rest, n);
        HeadersScanned(io[n..], ahead, h[n..], rest, if IsDisposition(h[..n]) then extra else extra + n);
      }
    }
  }

  lemma LineInPart(io: bytes, ahead: bytes, h: bytes, rest: bytes)
    requires LineLength(h) > 0 && io + ahead == h + rest
    ensures LineLength(io) == if LineLength(h) <= |io| then LineLength(h) else 0
  {
    hide FindMark;
    FindInMore(h, rest, [0x0A]);
    FindInPrefix(io, ahead, [0x0A]);
  }

  lemma HeaderTold(events: seq<Event>, open: bool, h: bytes)
    requires TellAll(NOTHING, events).Story? && TellAll(NOTHING, events).open == open
    requires !TellAll(NOTHING, events).ended
    ensures
      TellAll(NOTHING, events + (if open then [PartEnd] else []) + [PartBegin(h)])
      == Story(TellAll(NOTHING, events).parts + [Part(h, [])], true, false)
  {
    hide TellAll;
    if open {
      TellOne(NOTHING, events, PartEnd);
      TellOne(NOTHING, events + [PartEnd], PartBegin(h));
    } else {
      assert events + [] == events;
      TellOne(NOTHING, events, PartBegin(h));
    }
  }

  /** Data told in pieces. */
  lemma DataTold(events: seq<Event>, d: bytes, rest: bytes, ps: seq<Part>)
    requires TellAll(NOTHING, events).Story? && TellAll(NOTHING, events).open && !TellAll(NOTHING, events).ended
    requires TellAll(NOTHING, events).parts != []
    ensures
      var was, now := TellAll(NOTHING, events), TellAll(NOTHING, events + [PartData(d)]);
      && now.Story? && now.open && !now.ended && now.parts != []
      && Total(now.parts, Data(rest, ps)) == Total(was.parts, Data(d + rest, ps))
  {
    hide TellAll;
    TellOne(NOTHING, events, PartData(d));
    var was, now := TellAll(NOTHING, events), TellAll(NOTHING, events + [PartData(d)]);
    assert now.parts[..|now.parts| - 1] == was.parts[..|was.parts| - 1];
    Assoc(was.parts[|was.parts| - 1].data, d, rest);
  }

  lemma TotalDone(told: seq<Part>, ps: seq<Part>)
    requires told != []
    ensures Total(told, Data([], ps)) == Total(told, Boundary([], ps))
  {
    var last := told[|told| - 1];
    assert last.data + [] == last.data;
    assert told == told[..|told| - 1] + [last];
  }

  /** While the boundary is not there, what is released lies before the delimiter: the
      window of the last arrivals is longer than delimiter and boundary together. */
  lemma WindowHoldsDelimiter(io: bytes, ahead: bytes, prev: nat, rest: bytes, b: bytes, more: bytes)
    requires b != [] && Clean(rest, b) && io + ahead == rest + (DELIMITER + (b + more))
    ensures FindMark(io, b) == if |rest| + 4 + |b| <= |io| then |rest| + 4 else |io|
    ensures FindMark(io, b) == |io| && |io| > prev + |b| + 4 ==> prev < |rest|
  {
    hide FindMark, Clean;
    CleanFind(rest, b, more);
    FindInPrefix(io, ahead, b);
  }

  /** Waiting for data. */
  lemma ChunkStep(s: Stream, ahead: bytes, o: Outlook, all: seq<Part>, b: bytes, epilogue: bytes)
    returns (o': Outlook)
    requires Context(b, all) && Inv(s, ahead, o, all, b, epilogue)
    requires o.Data? && s.state.WaitingForChunk?
    ensures
      var r := Step(s, b);
      Inv(r.s, ahead, o', all, b, epilogue) && (!r.more ==> ahead != [])
  {
    hide FindMark, TellAll, FromBoundary, PartsOk, Clean, Total;
    var more := FromBoundarySplit(o.ps, b, epilogue);
    WindowHoldsDelimiter(s.io, ahead, s.prev, o.rest, b, more);
    o' := o;
    if |o.rest| + 4 + |b| <= |s.io| && |s.io| >= |b| + 6 {
      o' := Boundary([], o.ps);
      ChunkText(s.io, ahead, o.rest, FromBoundary(o.ps, b, epilogue));
      assert o.rest + [] == o.rest;
      DataTold(s.events, o.rest, [], o.ps);
      TotalDone(TellAll(NOTHING, s.events + [PartData(o.rest)]).parts, o.ps);
      FindAtStart(b);
    }
  }

  lemma ChunkText(io: bytes, ahead: bytes, rest: bytes, behind: bytes)
    requires io + ahead == rest + (DELIMITER + behind) && |io| >= |rest| + 4
    ensures io[..|rest|] == rest && io[|rest| + 4..] + ahead == [] + behind
  {
    assert (io + ahead)[..|rest|] == rest;
    assert (io + ahead)[|rest| + 4..] == behind;
    DropInside(io, ahead, |rest| + 4);
  }

  lemma FindAtStart(b: bytes)
    requires b != []
    ensures FindMark([] + b, b) == 0
  {
  }

  /** Releasing the older part of the window. */
  lemma ReleaseStep(s: Stream, ahead: bytes, o: Outlook, all: seq<Part>, b: bytes, epilogue: bytes)
    returns (o': Outlook)
    requires Context(b, all) && Inv(s, ahead, o, all, b, epilogue)
    requires o.Data? && s.state.GotChunk?
    ensures
      var r := Step(s, b);
      Inv(r.s, ahead, o', all, b, epilogue) && ahead != []
  {
    hide FindMark, TellAll, FromBoundary, PartsOk, Clean, Total;
    var d, rest := o.rest[..s.prev], o.rest[s.prev..];
    o' := Data(rest, o.ps);
    assert o.rest == d + rest;
    var behind := DELIMITER + FromBoundary(o.ps, b, epilogue);
    DropInside(s.io, ahead, s.prev);
    DropInside(o.rest, behind, s.prev);
    assert s.io[..s.prev] == (s.io + ahead)[..s.prev] == (o.rest + behind)[..s.prev] == d;
    CleanSuffix(o.rest, s.prev, b);
    DataTold(s.events, d, rest, o.ps);
  }

  lemma FinalizeStep(s: Stream, ahead: bytes, o: Outlook, all: seq<Part>, b: bytes, epilogue: bytes)
    requires Inv(s, ahead, o, all, b, epilogue) && s.state.Finalize?
    ensures Inv(Step(s, b).s, ahead, o, all, b, epilogue)
  {
    hide TellAll, Total;
    TellOne(NOTHING, s.events, PartEnd);
    TellOne(NOTHING, s.events + [PartEnd], RequestEnd);
    assert s.events + [PartEnd] + [RequestEnd] == s.events + [PartEnd, RequestEnd];
  }

  /** One round keeps the invariant; it stops only when something is still to arrive, or
      the request has ended. */
  lemma StepKeeps(s: Stream, ahead: bytes, o: Outlook, all: seq<Part>, b: bytes, epilogue: bytes)
    returns (o': Outlook)
    requires Context(b, all) && Inv(s, ahead, o, all, b, epilogue)
    ensures
      var r := Step(s, b);
      && Inv(r.s, ahead, o', all, b, epilogue)
      && (!r.more ==> ahead != [] || (r.s.state.Finished? && r.s.io == []))
  {
    hide TellAll, Total, WaitForBoundary, ProcessBoundary, WaitForChunk, Text, Clean, FindMark, Context;
    o' := o;
    match s.state
    case WaitingForBoundary => o' := BoundaryStep(s, ahead, o, all, b, epilogue);
    case GotBoundary => o' := HeaderStep(s, ahead, o, all, b, epilogue);
    case WaitingForChunk => o' := ChunkStep(s, ahead, o, all, b, epilogue);
    case GotChunk => o' := ReleaseStep(s, ahead, o, all, b, epilogue);
    case Finalize => FinalizeStep(s, ahead, o, all, b, epilogue);
    case _ =>
  }

  lemma {:induction false} ContinueKeeps(s: Stream, ahead: bytes, o: Outlook, all: seq<Part>, b: bytes, epilogue: bytes)
    returns (o': Outlook)
    requires Context(b, all) && Inv(s, ahead, o, all, b, epilogue)
    ensures
      var r := Continue(s, b);
      && Inv(r, ahead, o', all, b, epilogue)
      && (ahead == [] ==> r.state.Finished? && r.io == [])
    decreases |s.io|, Rank(s.state)
  {
    hide Inv, Step, PartsOk, Rank;
    assert s.Valid() by {
      InvValid(s, ahead, o, all, b, epilogue);
    }
    StepDecreases(s, b);
    o' := StepKeeps(s, ahead, o, all, b, epilogue);
    var r := Step(s, b);
    if r.more {
      o' := ContinueKeeps(r.s, ahead, o', all, b, epilogue);
    }
  }

  lemma InvValid(s: Stream, ahead: bytes, o: Outlook, all: seq<Part>, b: bytes, epilogue: bytes)
    requires Inv(s, ahead, o, all, b, epilogue)
    ensures s.Valid()
  {
  }

  lemma ArrivalKeeps(s: Stream, x: bytes, ahead: bytes, o: Outlook, all: seq<Part>, b: bytes, epilogue: bytes)
    requires Inv(s, x + ahead, o, all, b, epilogue) && !s.state.GotChunk?
    ensures Inv(s.(io := s.io + x), ahead, o, all, b, epilogue)
  {
    hide TellAll, Total, Text, Clean, FindMark;
    Assoc(s.io, x, ahead);
  }

  /** However the text is cut, what has been told is a prefix of the parts, and the buffer
      holds the rest of what has arrived. */
  lemma {:induction false} RunKeeps(s: Stream, arrivals: seq<bytes>, ahead: bytes, o: Outlook, all: seq<Part>, b: bytes,
                                    epilogue: bytes)
    returns (o': Outlook)
    requires Context(b, all) && Inv(s, Flatten(arrivals) + ahead, o, all, b, epilogue)
    requires !s.state.GotChunk?
    ensures s.Valid()
    ensures
      var r := Run(s, arrivals, b);
      && Inv(r, ahead, o', all, b, epilogue)
      && (arrivals != [] && ahead == [] ==> r.state.Finished? && r.io == [])
    decreases |arrivals|
  {
    hide Inv, PartsOk, Continue;
    InvValid(s, Flatten(arrivals) + ahead, o, all, b, epilogue);
    if arrivals == [] {
      assert Flatten<byte>([]) + ahead == ahead;
      o' := o;
    } else {
      var x := arrivals[0];
      Assoc(x, Flatten(arrivals[1..]), ahead);
      ArrivalKeeps(s, x, Flatten(arrivals[1..]) + ahead, o, all, b, epilogue);
      var s1 := s.(io := s.io + x);
      InvValid(s1, Flatten(arrivals[1..]) + ahead, o, all, b, epilogue);
      o' := ContinueKeeps(s1, Flatten(arrivals[1..]) + ahead, o, all, b, epilogue);
      var now := Continue(s1, b);
      if arrivals[1..] == [] {
        assert Flatten<byte>([]) + ahead == ahead;
      }
      o' := RunKeeps(now, arrivals[1..], ahead, o', all, b, epilogue);
    }
  }

  const START := Stream(Begin, [], 0, 0, [])

  /** The events depend on the text alone: for every way of cutting it into arrivals, every
      part is begun, given exactly its data and ended, in order, and then the request ends. */
  lemma WholeBodyTold(ps: seq<Part>, pre: bytes, epilogue: bytes, arrivals: seq<bytes>, b: bytes)
    requires Context(b, ps) && FindMark(pre + b, b) == |pre|
    requires Flatten(arrivals) == pre + FromBoundary(ps, b, epilogue)
    ensures
      var r := Run(START, arrivals, b);
      TellAll(NOTHING, r.events) == Story(ps, false, true) && r.state == Finished && r.io == []
  {
    hide FindMark, FromBoundary, Run, TellAll;
    var text := Flatten(arrivals);
    assert text + [] == text;
    StartInv(text, pre, ps, b, epilogue);
    var more := FromBoundarySplit(ps, b, epilogue);
    assert arrivals != [];
    var o' := RunKeeps(START, arrivals, [], Boundary(pre, ps), ps, b, epilogue);
  }

  lemma StartInv(text: bytes, pre: bytes, ps: seq<Part>, b: bytes, epilogue: bytes)
    requires FindMark(pre + b, b) == |pre| && text == pre + FromBoundary(ps, b, epilogue)
    ensures Inv(START, text, Boundary(pre, ps), ps, b, epilogue)
  {
    hide FindMark, FromBoundary, TellAll;
    assert text + [] == text;
    NothingTold(NOTHING);
    assert [] + ps == ps;
  }

  lemma NothingTold(story: Story)
    ensures TellAll(story, []) == story
  {
  }

  lemma OneRound(s: Stream, b: bytes)
    requires s.Valid() && b != []
    ensures Step(s, b).s.Valid()
    ensures Continue(s, b)
            == if Step(s, b).more then Continue(Step(s, b).s, b) else Step(s, b).s
  {
    hide Step;
    StepDecreases(s, b);
  }

  // ---------------------------------------------------------- without parts

  /** The stream of a body without parts. */
  ghost predicate EmptyInv(s: Stream, ahead: bytes, pre: bytes, b: bytes, epilogue: bytes) {
    && s.Valid() && s.parts == 0 && b != [] && FindMark(pre + b, b) == |pre|
    && if s.state.Finished? then s.events == [PartEnd, RequestEnd]
       else s.events == [] && (s.state.Finalize?
              || ((s.state.Begin? || s.state.WaitingForBoundary?)
                  && s.io + ahead == pre + FromBoundary([], b, epilogue)))
  }

  lemma EmptyStep(s: Stream, ahead: bytes, pre: bytes, b: bytes, epilogue: bytes)
    requires EmptyInv(s, ahead, pre, b, epilogue)
    ensures EmptyInv(Step(s, b).s, ahead, pre, b, epilogue)
    ensures !Step(s, b).more ==> ahead != [] || s.state.Finished?
  {
    hide FindMark;
    if s.state.WaitingForBoundary? {
      var more := FromBoundarySplit([], b, epilogue);
      BoundaryFound(s.io, ahead, pre, b, more);
      var end := |pre| + |b|;
      if |s.io| >= end + 4 {
        DropInside(s.io, ahead, end);
        Assoc(pre, b, more);
        DropFront(pre + b, more);
        ClosingOrNot(s.io[end..], ahead, [], more);
      }
    } else if s.state.Finalize? {
      assert s.events + [PartEnd, RequestEnd] == [PartEnd, RequestEnd];
    }
  }

  lemma {:induction false} EmptyContinue(s: Stream, ahead: bytes, pre: bytes, b: bytes, epilogue: bytes)
    requires EmptyInv(s, ahead, pre, b, epilogue)
    ensures EmptyInv(Continue(s, b), ahead, pre, b, epilogue)
    ensures ahead == [] ==> Continue(s, b).state.Finished?
    decreases |s.io|, Rank(s.state)
  {
    hide Step, Rank, FindMark, FromBoundary;
    StepDecreases(s, b);
    EmptyStep(s, ahead, pre, b, epilogue);
    var r := Step(s, b);
    FinishedStays(s, b);
    if r.more {
      EmptyContinue(r.s, ahead, pre, b, epilogue);
    }
  }

  lemma FinishedStays(s: Stream, b: bytes)
    requires s.Valid()
    ensures s.state.Finished? ==> Step(s, b).s.state.Finished? && !Step(s, b).more
  {
  }

  lemma {:induction false} EmptyRun(s: Stream, arrivals: seq<bytes>, ahead: bytes, pre: bytes, b: bytes,
                                    epilogue: bytes)
    requires EmptyInv(s, Flatten(arrivals) + ahead, pre, b, epilogue)
    ensures EmptyInv(Run(s, arrivals, b), ahead, pre, b, epilogue)
    ensures arrivals != [] && ahead == [] ==> Run(s, arrivals, b).state.Finished?
    decreases |arrivals|
  {
    hide Continue, FindMark, FromBoundary;
    if arrivals == [] {
      assert Flatten<byte>([]) + ahead == ahead;
    } else {
      var x, behind := arrivals[0], Flatten(arrivals[1..]) + ahead;
      Assoc(x, Flatten(arrivals[1..]), ahead);
      Assoc(s.io, x, behind);
      var s1 := s.(io := s.io + x);
      EmptyContinue(s1, behind, pre, b, epilogue);
      if arrivals[1..] == [] {
        assert Flatten<byte>([]) + ahead == ahead;
      }
      EmptyRun(Continue(s1, b), arrivals[1..], ahead, pre, b, epilogue);
    }
  }

  /** A body without parts is reported as the end of a part that never began, however it
      is cut. */
  lemma NoPartsEndUnbegun(pre: bytes, epilogue: bytes, arrivals: seq<bytes>, b: bytes)
    requires b != [] && FindMark(pre + b, b) == |pre|
    requires Flatten(arrivals) == pre + FromBoundary([], b, epilogue)
    ensures Run(START, arrivals, b).events == [PartEnd, RequestEnd]
    ensures TellAll(NOTHING, Run(START, arrivals, b).events) == Nonsense
  {
    hide FindMark, FromBoundary, Run, TellAll;
    var text := Flatten(arrivals);
    assert text + [] == text && [] + text == text;
    assert arrivals != [] by {
      var more := FromBoundarySplit([], b, epilogue);
    }
    EmptyRun(START, arrivals, [], pre, b, epilogue);
    EndsOnly();
  }

  lemma EndsOnly()
    ensures TellAll(NOTHING, [PartEnd, RequestEnd]) == Nonsense
  {
    assert [PartEnd, RequestEnd][1..] == [RequestEnd] && [RequestEnd][1..] == [];
  }
}
