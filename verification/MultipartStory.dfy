/** What it means that a body is told right: which sequences of events tell which parts. */
module MultipartStory {
  import opened Wrappers
  import opened Bytes
  import opened Multipart

  /** The data of a part, handed over in pieces. */
  function Pieces(cuts: seq<bytes>): seq<Event> {
    if cuts == [] then [] else [PartData(cuts[0])] + Pieces(cuts[1..])
  }

  /** Each part is begun, given its data in pieces and ended; then the request ends. */
  function Events(headers: seq<bytes>, cuts: seq<seq<bytes>>): seq<Event>
    requires |headers| == |cuts|
  {
    if headers == [] then [RequestEnd]
    else [PartBegin(headers[0])] + (Pieces(cuts[0]) + ([PartEnd] + Events(headers[1..], cuts[1..])))
  }

  function Parts(headers: seq<bytes>, cuts: seq<seq<bytes>>): (ps: seq<Part>)
    requires |headers| == |cuts|
  {
    if headers == [] then [] else [Part(headers[0], Flatten(cuts[0]))] + Parts(headers[1..], cuts[1..])
  }

  lemma {:induction false} PiecesTell(done: seq<Part>, h: bytes, data: bytes, cuts: seq<bytes>)
    ensures TellAll(Story(done + [Part(h, data)], true, false), Pieces(cuts))
            == Story(done + [Part(h, data + Flatten(cuts))], true, false)
    decreases |cuts|
  {
    var story := Story(done + [Part(h, data)], true, false);
    if cuts == [] {
      assert data + [] == data;
    } else {
      assert Pieces(cuts)[1..] == Pieces(cuts[1..]);
      assert (done + [Part(h, data)])[..|done|] == done;
      PiecesTell(done, h, data + cuts[0], cuts[1..]);
      Assoc(data, cuts[0], Flatten(cuts[1..]));
    }
  }

  /** Such events tell these parts. */
  lemma {:induction false} EventsTell(done: seq<Part>, headers: seq<bytes>, cuts: seq<seq<bytes>>)
    requires |headers| == |cuts|
    ensures TellAll(Story(done, false, false), Events(headers, cuts)) == Story(done + Parts(headers, cuts), false, true)
    decreases |headers|
  {
    hide TellAll;
    var story := Story(done, false, false);
    if headers == [] {
      assert Events(headers, cuts) == [RequestEnd] + [];
      TellFirst(story, RequestEnd, []);
      NothingTold(Story(done, false, true));
      assert done + [] == done;
    } else {
      var h := headers[0];
      var rest := Events(headers[1..], cuts[1..]);
      TellFirst(story, PartBegin(h), Pieces(cuts[0]) + ([PartEnd] + rest));
      TellMore(Story(done + [Part(h, [])], true, false), Pieces(cuts[0]), [PartEnd] + rest);
      PiecesTell(done, h, [], cuts[0]);
      assert [] + Flatten(cuts[0]) == Flatten(cuts[0]);
      var now := done + [Part(h, Flatten(cuts[0]))];
      TellFirst(Story(now, true, false), PartEnd, rest);
      EventsTell(now, headers[1..], cuts[1..]);
      Assoc(done, [Part(h, Flatten(cuts[0]))], Parts(headers[1..], cuts[1..]));
    }
  }

  lemma TellFirst(story: Story, e: Event, events: seq<Event>)
    ensures TellAll(story, [e] + events) == TellAll(Tell(story, e), events)
  {
    assert ([e] + events)[1..] == events;
  }

  lemma {:induction false} NonsenseStays(events: seq<Event>)
    ensures TellAll(Nonsense, events) == Nonsense
    decreases |events|
  {
    if events != [] {
      NonsenseStays(events[1..]);
    }
  }

  lemma {:induction false} EndedStays(ps: seq<Part>, events: seq<Event>)
    ensures TellAll(Story(ps, false, true), events).Story? ==> events == []
  {
    if events != [] {
      NonsenseStays(events[1..]);
    }
  }

  /** Events that tell parts to the end are of this kind, from any moment on: here outside a
      part, */
  lemma {:induction false} EventsOf(done: seq<Part>, events: seq<Event>, all: seq<Part>)
    returns (headers: seq<bytes>, cuts: seq<seq<bytes>>)
    requires TellAll(Story(done, false, false), events) == Story(all, false, true)
    ensures |headers| == |cuts| && events == Events(headers, cuts) && all == done + Parts(headers, cuts)
    decreases |events|
  {
    hide TellAll;
    if events == [] {
      NothingTold(Story(done, false, false));
    }
    var e, more := events[0], events[1..];
    assert events == [e] + more;
    TellFirst(Story(done, false, false), e, more);
    NonsenseStays(more);
    if e.RequestEnd? {
      EndedStays(done, more);
      NothingTold(Story(done, false, true));
      headers, cuts := [], [];
      assert done + [] == done;
    } else {
      var h := e.headers;
      var pieces, hs, cs := InsidePart(done, h, [], more, all);
      headers, cuts := [h] + hs, [pieces] + cs;
      assert headers[1..] == hs && cuts[1..] == cs;
      assert [] + Flatten(pieces) == Flatten(pieces);
      Assoc(done, [Part(h, Flatten(pieces))], Parts(hs, cs));
    }
  }

  /** and here inside one. */
  lemma {:induction false} InsidePart(done: seq<Part>, h: bytes, data: bytes, events: seq<Event>, all: seq<Part>)
    returns (pieces: seq<bytes>, headers: seq<bytes>, cuts: seq<seq<bytes>>)
    requires TellAll(Story(done + [Part(h, data)], true, false), events) == Story(all, false, true)
    ensures |headers| == |cuts| && events == Pieces(pieces) + ([PartEnd] + Events(headers, cuts))
    ensures all == done + [Part(h, data + Flatten(pieces))] + Parts(headers, cuts)
    decreases |events|
  {
    hide TellAll;
    var now := done + [Part(h, data)];
    if events == [] {
      NothingTold(Story(now, true, false));
    }
    var e, more := events[0], events[1..];
    assert events == [e] + more;
    TellFirst(Story(now, true, false), e, more);
    NonsenseStays(more);
    if e.PartEnd? {
      headers, cuts := EventsOf(now, more, all);
      pieces := [];
      assert data + [] == data && [] + ([PartEnd] + Events(headers, cuts)) == [PartEnd] + Events(headers, cuts);
    } else {
      var d := e.data;
      assert now[..|done|] == done;
      var ds;
      ds, headers, cuts := InsidePart(done, h, data + d, more, all);
      pieces := [d] + ds;
      assert pieces[1..] == ds;
      Assoc(data, d, Flatten(ds));
      Assoc([PartData(d)], Pieces(ds), [PartEnd] + Events(headers, cuts));
    }
  }

  ghost predicate Tells(events: seq<Event>, ps: seq<Part>, headers: seq<bytes>, cuts: seq<seq<bytes>>) {
    |headers| == |cuts| && events == Events(headers, cuts) && ps == Parts(headers, cuts)
  }

  /** A body is told to the end exactly when each part is begun once, with its headers, then
      given its data in pieces, then ended once, one after the other, and the request ends once
      and last. */
  lemma ToldIff(events: seq<Event>, ps: seq<Part>)
    ensures TellAll(NOTHING, events) == Story(ps, false, true)
            <==> exists headers: seq<bytes>, cuts: seq<seq<bytes>> :: Tells(events, ps, headers, cuts)
  {
    hide TellAll, Events, Parts;
    assert [] + ps == ps;
    if headers: seq<bytes>, cuts: seq<seq<bytes>> :| Tells(events, ps, headers, cuts) {
      EventsTell([], headers, cuts);
    }
    if TellAll(NOTHING, events) == Story(ps, false, true) {
      var headers, cuts := EventsOf([], events, ps);
      assert [] + Parts(headers, cuts) == Parts(headers, cuts);
      assert Tells(events, ps, headers, cuts);
    }
  }

  // ---------------------------------------------------------------- release

  lemma {:induction false} SettledWait(s: Stream, b: bytes)
    requires s.Valid() && b != [] && s.state.WaitingForChunk? && FindMark(s.io, b) == |s.io| >= |b| + 6
    ensures Continue(s, b)
            == if s.prev == 0 then s.(prev := |s.io|)
               else if |s.io| > s.prev + |b| + 4
               then s.(io := s.io[s.prev..], prev := 0, events := s.events + [PartData(s.io[..s.prev])])
               else s
  {
    hide FindMark;
    OneRound(s, b);
    if s.prev > 0 && |s.io| > s.prev + |b| + 4 {
      OneRound(Step(s, b).s, b);
    }
  }

  /** Data is not held back until the boundary comes: what has been waiting for one arrival is
      handed over with the next one, unless that brings too little to tell a boundary. */
  lemma HandedOver(s: Stream, x: bytes, y: bytes, b: bytes)
    requires s.Valid() && b != [] && s.state.WaitingForChunk? && s.prev == 0
    requires |s.io + x| >= |b| + 6 && FindMark(s.io + x, b) == |s.io + x| && FindMark(s.io + x + y, b) == |s.io + x + y|
    ensures
      var r := Run(s, [x, y], b);
      if |y| > |b| + 4 then r == s.(io := y, events := s.events + [PartData(s.io + x)])
      else r == s.(io := s.io + x + y, prev := |s.io + x|)
  {
    hide FindMark, Continue;
    var s1 := s.(io := s.io + x);
    SettledWait(s1, b);
    var s2 := Continue(s1, b);
    var s3 := s2.(io := s2.io + y);
    SettledWait(s3, b);
    assert s3.io[|s.io + x|..] == y && s3.io[..|s.io + x|] == s.io + x;
    assert [x, y][1..] == [y] && [y][1..] == [];
    assert Run(s2, [y], b) == Run(Continue(s3, b), [], b);
    assert Run(s, [x, y], b) == Run(s2, [y], b);
  }
}
