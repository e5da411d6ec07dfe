/** Chunked transfer coding (section 4.1 of RFC 7230) without extensions, as functions on
    the bytes that are still to be decoded. */
module Chunked {
  import opened Wrappers
  import opened Bytes

  const CRLF: bytes := [0x0D, 0x0A]

  // ----------------------------------------------------------------- parsing

  /** Hexadecimal digits from the start of `s`: their value behind `n`, and their count. */
  function ReadHex(s: bytes, n: nat): (r: (nat, nat))
    ensures r.1 <= |s|
  {
    if s != [] && HexValue(s[0]).Some? then
      var (v, l) := ReadHex(s[1..], n * 16 + HexValue(s[0]).value);
      (v, l + 1)
    else (n, 0)
  }

  /** Overflow stands for sizes that wrap around in 64 bits. */
  datatype Chunk = NoChunk | Overflow | Chunk(data: bytes, total: nat)

  predicate LineEndAt(s: bytes, i: nat) {
    i + 2 <= |s| && s[i] == 0x0D && s[i + 1] == 0x0A
  }

  /** mg_http_parse_chunk */
  function ParseChunk(s: bytes): (c: Chunk)
    ensures c.Chunk? ==> |c.data| + 5 <= c.total <= |s|
  {
    var (n, i) := ReadHex(s, 0);
    if i == 0 || !LineEndAt(s, i) then NoChunk
    else if n + i + 4 >= TWO64 then Overflow
    else if !LineEndAt(s, i + 2 + n) then NoChunk
    else Chunk(s[i + 2..i + 2 + n], i + n + 4)
  }

  /** What traversing the buffered chunks finds: their data, how much text they take, and
      whether the last one is the empty chunk that ends the body. */
  datatype Traversal = Traversal(data: bytes, consumed: nat, zero: bool, overflow: bool)

  function Traverse(s: bytes): (t: Traversal)
    ensures |t.data| <= t.consumed <= |s| && (t.consumed > 0 ==> |t.data| < t.consumed)
    decreases |s|
  {
    match ParseChunk(s)
    case NoChunk => Traversal([], 0, false, false)
    case Overflow => Traversal([], 0, false, true)
    case Chunk(data, total) =>
      if data == [] then Traversal([], total, true, false)
      else
        var t := Traverse(s[total..]);
        Traversal(data + t.data, total + t.consumed, t.zero, t.overflow)
  }

  // ------------------------------------------------------------- more input

  lemma {:induction false} HexInMore(s: bytes, x: bytes, n: nat)
    requires ReadHex(s, n).1 < |s|
    ensures ReadHex(s + x, n) == ReadHex(s, n)
    decreases |s|
  {
    assert (s + x)[0] == s[0] && (s + x)[1..] == s[1..] + x;
    if HexValue(s[0]).Some? {
      HexInMore(s[1..], x, n * 16 + HexValue(s[0]).value);
    }
  }

  /** Bytes that arrive later do not change a chunk that was complete. */
  lemma ChunkInMore(s: bytes, x: bytes)
    requires !ParseChunk(s).NoChunk?
    ensures ParseChunk(s + x) == ParseChunk(s)
  {
    hide ReadHex;
    HexInMore(s, x, 0);
    var (n, i) := ReadHex(s, 0);
    if ParseChunk(s).Chunk? {
      assert (s + x)[i + 2..i + 2 + n] == s[i + 2..i + 2 + n];
    }
  }

  function Join(a: Traversal, b: Traversal): Traversal {
    Traversal(a.data + b.data, a.consumed + b.consumed, b.zero, b.overflow)
  }

  lemma TraverseCases(s: bytes)
    ensures ParseChunk(s).NoChunk? ==> Traverse(s) == Traversal([], 0, false, false)
    ensures ParseChunk(s).Overflow? ==> Traverse(s) == Traversal([], 0, false, true)
    ensures ParseChunk(s).Chunk? && ParseChunk(s).data == [] ==>
              Traverse(s) == Traversal([], ParseChunk(s).total, true, false)
    ensures ParseChunk(s).Chunk? && ParseChunk(s).data != [] ==>
              Traverse(s) == Join(Traversal(ParseChunk(s).data, ParseChunk(s).total, false, false),
                                  Traverse(s[ParseChunk(s).total..]))
  {
    hide ParseChunk;
  }

  lemma JoinAssoc(a: Traversal, b: Traversal, c: Traversal)
    ensures Join(Join(a, b), c) == Join(a, Join(b, c))
  {
    Assoc(a.data, b.data, c.data);
  }

  lemma JoinNothing(t: Traversal)
    ensures Join(Traversal([], 0, false, false), t) == t
  {
    assert [] + t.data == t.data;
  }

  lemma DropJoined(s: bytes, x: bytes, m: nat, n: nat)
    requires m + n <= |s|
    ensures (s + x)[m..] == s[m..] + x && s[m..][n..] == s[m + n..]
  {
  }

  lemma JoinParts(a: Traversal, b: Traversal)
    ensures Join(a, b).consumed == a.consumed + b.consumed
    ensures Join(a, b).zero == b.zero && Join(a, b).overflow == b.overflow
  {
  }

  /** Decoding what has arrived, and then the remainder together with what arrives next,
      comes to decoding all of it at once. */
  lemma {:induction false} TraverseMore(s: bytes, x: bytes)
    requires !Traverse(s).zero && !Traverse(s).overflow
    ensures Traverse(s + x) == Join(Traverse(s), Traverse(s[Traverse(s).consumed..] + x))
    decreases |s|
  {
    hide ParseChunk, Traverse, Join;
    TraverseCases(s);
    if ParseChunk(s).NoChunk? {
      assert s[0..] == s;
      JoinNothing(Traverse(s + x));
    } else {
      ChunkInMore(s, x);
      TraverseCases(s + x);
      var c := ParseChunk(s);
      var t := Traverse(s[c.total..]);
      var head := Traversal(c.data, c.total, false, false);
      JoinParts(head, t);
      DropJoined(s, x, c.total, t.consumed);
      TraverseMore(s[c.total..], x);
      JoinAssoc(head, t, Traverse(s[c.total + t.consumed..] + x));
    }
  }

  /** The end of the body is final. */
  lemma {:induction false} TraverseEnds(s: bytes, x: bytes)
    requires Traverse(s).zero || Traverse(s).overflow
    ensures Traverse(s + x) == Traverse(s)
    decreases |s|
  {
    hide ParseChunk;
    ChunkInMore(s, x);
    var c := ParseChunk(s);
    if c.Chunk? && c.data != [] {
      TraverseEnds(s[c.total..], x);
      assert (s + x)[c.total..] == s[c.total..] + x;
    }
  }

  // ------------------------------------------------------------- the receiver

  /** The body area of the receive buffer: decoded bytes, then bytes to decode. `deleted`
      is what the handler has had deleted so far. */
  datatype Area = Area(deleted: bytes, body: bytes, raw: bytes)

  /** mg_handle_chunked; `delete` is the handler's answer, should it be asked. */
  function Handle(a: Area, delete: bool): Area {
    var t := Traverse(a.raw);
    var body, raw := a.body + t.data, a.raw[t.consumed..];
    if t.consumed > 0 && delete then Area(a.deleted + body, [], raw) else Area(a.deleted, body, raw)
  }

  /** Arrivals, with the handler's answer for each. */
  function Receive(a: Area, arrivals: seq<(bytes, bool)>): Area
    decreases |arrivals|
  {
    if arrivals == [] then a
    else Receive(Handle(a.(raw := a.raw + arrivals[0].0), arrivals[0].1), arrivals[1..])
  }

  function Text(arrivals: seq<(bytes, bool)>): bytes {
    if arrivals == [] then [] else arrivals[0].0 + Text(arrivals[1..])
  }

  /** The area holds what decoding `text` in one go gives. */
  ghost predicate Holds(a: Area, text: bytes) {
    var t := Traverse(text);
    a.deleted + a.body == t.data && a.raw == text[t.consumed..]
  }

  lemma HandleKeeps(a: Area, text: bytes, x: bytes, delete: bool)
    requires Holds(a, text) && !Traverse(text).zero && !Traverse(text).overflow
    ensures Holds(Handle(a.(raw := a.raw + x), delete), text + x)
  {
    hide Traverse;
    TraverseMore(text, x);
    var t, u := Traverse(text), Traverse(a.raw + x);
    Assoc(a.deleted, a.body, u.data);
    DropJoined(text, x, t.consumed, 0);
    DropJoined(text + x, [], t.consumed, u.consumed);
    assert (text + x)[t.consumed..][u.consumed..] == (a.raw + x)[u.consumed..];
    assert a.deleted + (a.body + u.data) + [] == a.deleted + (a.body + u.data);
  }

  /** However the text of a body is cut into arrivals, and whenever the handler has data
      deleted, the decoded bytes are the data of all chunks complete so far, and the bytes
      behind them are what remains. The condition says that the body does not end, or
      overflow, before the last arrival. */
  lemma {:induction false} ReceiveHolds(a: Area, done: bytes, arrivals: seq<(bytes, bool)>)
    requires Holds(a, done)
    requires forall k | 0 <= k < |arrivals| ::
               !Traverse(done + Text(arrivals[..k])).zero && !Traverse(done + Text(arrivals[..k])).overflow
    ensures Holds(Receive(a, arrivals), done + Text(arrivals))
    decreases |arrivals|
  {
    if arrivals == [] {
      assert done + [] == done;
    } else {
      hide Traverse, Handle, Holds;
      var x := arrivals[0].0;
      assert !Traverse(done).zero && !Traverse(done).overflow by {
        assert arrivals[..0] == [] && done + [] == done;
      }
      HandleKeeps(a, done, x, arrivals[0].1);
      forall k | 0 <= k < |arrivals| - 1
        ensures !Traverse(done + x + Text(arrivals[1..][..k])).zero
        ensures !Traverse(done + x + Text(arrivals[1..][..k])).overflow
      {
        assert arrivals[..k + 1][0] == arrivals[0] && arrivals[..k + 1][1..] == arrivals[1..][..k];
        Assoc(done, x, Text(arrivals[1..][..k]));
      }
      ReceiveHolds(Handle(a.(raw := a.raw + x), arrivals[0].1), done + x, arrivals[1..]);
      Assoc(done, x, Text(arrivals[1..]));
    }
  }

  /** Nothing is deleted unless the handler asks for it, so that the whole body stays. */
  lemma {:induction false} KeptUnlessAsked(a: Area, arrivals: seq<(bytes, bool)>)
    requires forall x <- arrivals :: !x.1
    ensures Receive(a, arrivals).deleted == a.deleted
    decreases |arrivals|
  {
    if arrivals != [] {
      assert arrivals[0] in arrivals && forall x <- arrivals[1..] :: x in arrivals;
      KeptUnlessAsked(Handle(a.(raw := a.raw + arrivals[0].0), false), arrivals[1..]);
    }
  }

  /** A handler that always asks is never left with decoded bytes. */
  lemma {:induction false} AllDeleted(a: Area, arrivals: seq<(bytes, bool)>)
    requires a.body == [] && forall x <- arrivals :: x.1
    ensures Receive(a, arrivals).body == []
    decreases |arrivals|
  {
    if arrivals != [] {
      assert arrivals[0] in arrivals && forall x <- arrivals[1..] :: x in arrivals;
      AllDeleted(Handle(a.(raw := a.raw + arrivals[0].0), true), arrivals[1..]);
    }
  }

  // --------------------------------------------------------------- the sender

  function HexDigit(d: nat): byte
    requires d < 16
  {
    if d < 10 then 0x30 + d else 0x41 + d - 10
  }

  /** "%lX" */
  function HexText(n: nat): (r: bytes)
    ensures r != []
  {
    if n < 16 then [HexDigit(n)] else HexText(n / 16) + [HexDigit(n % 16)]
  }

  /** mg_send_http_chunk */
  function EncodeChunk(data: bytes): (r: bytes) {
    HexText(|data|) + CRLF + data + CRLF
  }

  function EncodeBody(datas: seq<bytes>): bytes {
    if datas == [] then EncodeChunk([]) else EncodeChunk(datas[0]) + EncodeBody(datas[1..])
  }

  lemma {:induction false} HexTextIsNumeral(n: nat)
    ensures Numeral(HexText(n), n, 16)
  {
    if n >= 16 {
      HexTextIsNumeral(n / 16);
      assert HexText(n)[..|HexText(n)| - 1] == HexText(n / 16);
    }
  }

  /** Reading back the digits of `n`. */
  lemma HexRead(n: nat, rest: bytes)
    requires rest != [] && HexValue(rest[0]).None?
    ensures ReadHex(HexText(n) + rest, 0) == (n, |HexText(n)|)
  {
    HexTextIsNumeral(n);
    SizeRead(HexText(n), n, rest);
  }

  /** The same for digits of either case, with zeros in front. */
  lemma SizeRead(size: bytes, n: nat, rest: bytes)
    requires Numeral(size, n, 16) && rest != [] && HexValue(rest[0]).None?
    ensures ReadHex(size + rest, 0) == (n, |size|)
  {
    hide Numeral;
    NumeralReadFrom(size, n, rest);
    HexEnds(rest, n);
  }

  lemma HexEnds(rest: bytes, n: nat)
    requires rest != [] && HexValue(rest[0]).None?
    ensures ReadHex(rest, n) == (n, 0)
  {
  }

  lemma {:induction false} NumeralReadFrom(size: bytes, n: nat, rest: bytes)
    requires Numeral(size, n, 16)
    ensures
      var (v, l) := ReadHex(rest, n);
      ReadHex(size + rest, 0) == (v, |size| + l)
  {
    hide HexValue, DigitOf;
    var k := |size| - 1;
    var d := size[k];
    HexValueIff(d, n % 16);
    assert ([d] + rest)[1..] == rest;
    if k == 0 {
      assert size == [d];
      OneHex(d, rest, 0, n);
    } else {
      NumeralReadFrom(size[..k], n / 16, [d] + rest);
      assert size == size[..k] + [d];
      Assoc(size[..k], [d], rest);
      OneHex(d, rest, n / 16, n % 16);
    }
  }

  lemma OneHex(c: byte, rest: bytes, n: nat, d: nat)
    requires HexValue(c) == Some(d)
    ensures
      var (v, l) := ReadHex(rest, n * 16 + d);
      ReadHex([c] + rest, n) == (v, l + 1)
  {
    hide HexValue;
    assert ([c] + rest)[1..] == rest;
  }

  /** Section 4.1 of RFC 7230: a chunk from any sender, its size in digits of either case and
      with zeros in front. */
  lemma ChunkSpelled(size: bytes, data: bytes, rest: bytes)
    requires Numeral(size, |data|, 16) && |data| + |size| + 4 < TWO64
    ensures ParseChunk(size + CRLF + data + CRLF + rest) == Chunk(data, |size + CRLF + data + CRLF|)
  {
    hide ReadHex, HexValue, Numeral;
    var s := size + CRLF + data + CRLF + rest;
    var behind := CRLF + (data + (CRLF + rest));
    assert s == size + behind;
    assert HexValue(behind[0]).None? by {
      CrIsNoDigit();
    }
    SizeRead(size, |data|, behind);
    var i := |size|;
    NotEmpty(size, |data|);
    assert s[i] == behind[0] && s[i + 1] == behind[1];
    assert s[i + 2..i + 2 + |data|] == data;
    assert s[i + 2 + |data|] == CRLF[0] && s[i + 3 + |data|] == CRLF[1];
  }

  /** A size that wraps around with its framing stops decoding. */
  lemma LargeSizeStops(size: bytes, n: nat, rest: bytes)
    requires Numeral(size, n, 16) && n + |size| + 4 >= TWO64
    ensures ParseChunk(size + CRLF + rest) == Overflow
  {
    hide ReadHex, HexValue, Numeral;
    assert size + CRLF + rest == size + (CRLF + rest);
    CrIsNoDigit();
    SizeRead(size, n, CRLF + rest);
    NotEmpty(size, n);
  }

  lemma NotEmpty(size: bytes, n: nat)
    requires Numeral(size, n, 16)
    ensures size != []
  {
  }

  /** A chunk that was sent is read back. */
  lemma ChunkRead(data: bytes, rest: bytes)
    requires |data| < TWO32
    ensures ParseChunk(EncodeChunk(data) + rest) == Chunk(data, |EncodeChunk(data)|)
  {
    hide HexText, ParseChunk, Numeral;
    HexShort(|data|);
    HexTextIsNumeral(|data|);
    ChunkSpelled(HexText(|data|), data, rest);
  }

  lemma CrIsNoDigit()
    ensures HexValue(0x0D).None?
  {
  }

  lemma HexShort(n: nat)
    requires n < TWO32
    ensures |HexText(n)| <= 8
  {
    HexLength(n, 8);
  }

  lemma {:induction false} HexLength(n: nat, k: nat)
    requires 0 < k <= 8 && n < Power16(k)
    ensures |HexText(n)| <= k
    decreases k
  {
    if n >= 16 {
      HexLength(n / 16, k - 1);
    }
  }

  function Power16(k: nat): nat {
    if k == 0 then 1 else 16 * Power16(k - 1)
  }

  /** What was sent in chunks is decoded whole, and nothing behind the body is touched. */
  lemma {:induction false} BodyRead(datas: seq<bytes>, rest: bytes)
    requires forall d <- datas :: d != [] && |d| < TWO32
    ensures Traverse(EncodeBody(datas) + rest)
            == Traversal(Flatten(datas), |EncodeBody(datas)|, true, false)
    decreases |datas|
  {
    hide ParseChunk, EncodeChunk;
    if datas == [] {
      ChunkRead([], rest);
    } else {
      var d, behind := datas[0], EncodeBody(datas[1..]) + rest;
      assert d in datas && forall x <- datas[1..] :: x in datas;
      Assoc(EncodeChunk(d), EncodeBody(datas[1..]), rest);
      ChunkRead(d, behind);
      BodyRead(datas[1..], rest);
      assert (EncodeChunk(d) + behind)[|EncodeChunk(d)|..] == behind;
    }
  }

  /** Before its last byte has arrived a chunk that was sent is not taken. */
  lemma ChunkNotYet(data: bytes, n: nat)
    requires |data| < TWO32 && n < |EncodeChunk(data)|
    ensures ParseChunk(EncodeChunk(data)[..n]) == NoChunk
  {
    var e := EncodeChunk(data);
    var s, x := e[..n], e[n..];
    assert s + x == e + [];
    ChunkRead(data, []);
    assert e + [] == e;
    if !ParseChunk(s).NoChunk? {
      hide ParseChunk, EncodeChunk;
      ChunkInMore(s, x);
    }
  }

  /** A body sent in chunks and cut in any way arrives whole: data deleted early and data
      still in the buffer make up what was sent. */
  lemma SentBodyArrives(datas: seq<bytes>, arrivals: seq<(bytes, bool)>)
    requires forall d <- datas :: d != [] && |d| < TWO32
    requires arrivals != [] && Text(arrivals) == EncodeBody(datas)
    requires forall a <- arrivals :: a.0 != []
    ensures
      var a := Receive(Area([], [], []), arrivals);
      a.deleted + a.body == Flatten(datas) && a.raw == []
  {
    hide Traverse, Receive, Handle;
    var text := EncodeBody(datas);
    assert text + [] == text && [] + text == text;
    BodyRead(datas, []);
    forall k | 0 <= k < |arrivals|
      ensures !Traverse([] + Text(arrivals[..k])).zero && !Traverse([] + Text(arrivals[..k])).overflow
    {
      TextSplit(arrivals, k);
      var s, x := Text(arrivals[..k]), Text(arrivals[k..]);
      assert [] + s == s;
      if Traverse(s).zero || Traverse(s).overflow {
        TraverseEnds(s, x);
      }
    }
    assert Holds(Area([], [], []), []) by {
      NothingHeld();
    }
    ReceiveHolds(Area([], [], []), [], arrivals);
  }

  lemma NothingHeld()
    ensures Holds(Area([], [], []), [])
  {
  }

  lemma {:induction false} TextSplit(arrivals: seq<(bytes, bool)>, k: nat)
    requires k < |arrivals| && forall a <- arrivals :: a.0 != []
    ensures Text(arrivals) == Text(arrivals[..k]) + Text(arrivals[k..]) && Text(arrivals[k..]) != []
    decreases k
  {
    if k == 0 {
      assert arrivals[0..] == arrivals && arrivals[..0] == [];
      assert arrivals[0] in arrivals;
      assert [] + Text(arrivals) == Text(arrivals);
    } else {
      assert forall a <- arrivals[1..] :: a in arrivals;
      TextSplit(arrivals[1..], k - 1);
      assert arrivals[..k][0] == arrivals[0] && arrivals[..k][1..] == arrivals[1..][..k - 1];
      assert arrivals[1..][k - 1..] == arrivals[k..];
      Assoc(arrivals[0].0, Text(arrivals[..k][1..]), Text(arrivals[k..]));
    }
  }
}
