/** The CoAP packet format (RFC 7252, section 3) as mongoose writes and reads it,
    on values: options are delta-coded, and the reader works in 16 bits. */
module Coap {
  import opened Wrappers
  import opened Bytes

  datatype Opt = Opt(number: nat, value: bytes)

  datatype Msg = Msg(
    msgType: byte, codeClass: byte, codeDetail: byte, msgId: nat,
    token: bytes, options: seq<Opt>, payload: bytes)

  /** Which fields of the message the parser has filled in, and which field made
      the composer give up. */
  datatype Field = TypeField | CodeClassField | CodeDetailField | IdField | TokenField | OptionField | PayloadField

  datatype Error = FormatError | IgnoreError | NotEnoughData

  // ------------------------------------------------------- ordered options

  ghost predicate Sorted(os: seq<Opt>) {
    forall i, j :: 0 <= i < j < |os| ==> os[i].number <= os[j].number
  }

  /** Index of the first option with a larger number: a new option goes behind its equals. */
  function InsertIndex(os: seq<Opt>, number: nat): (k: nat)
    ensures k <= |os|
    ensures forall i :: 0 <= i < k ==> os[i].number <= number
    ensures k < |os| ==> os[k].number > number
  {
    if os == [] || os[0].number > number then 0 else 1 + InsertIndex(os[1..], number)
  }

  function Insert(os: seq<Opt>, o: Opt): (r: seq<Opt>)
    ensures |r| == |os| + 1
    ensures Sorted(os) ==> Sorted(r)
  {
    var k := InsertIndex(os, o.number);
    os[..k] + [o] + os[k..]
  }

  /** mg_coap_add_option, one option after the other. */
  function InsertAll(os: seq<Opt>, more: seq<Opt>): (r: seq<Opt>)
    ensures Sorted(os) ==> Sorted(r)
    decreases |more|
  {
    if more == [] then os else InsertAll(Insert(os, more[0]), more[1..])
  }

  lemma {:induction false} InsertSortedAppends(os: seq<Opt>, more: seq<Opt>)
    requires Sorted(os + more)
    ensures InsertAll(os, more) == os + more
    decreases |more|
  {
    if more != [] {
      var o := more[0];
      assert (os + more)[|os|] == o;
      assert forall i :: 0 <= i < |os| ==> (os + more)[i] == os[i];
      assert InsertIndex(os, o.number) == |os|;
      assert os + [o] + more[1..] == os + more;
      assert Insert(os, o) == os + [o];
      InsertSortedAppends(os + [o], more[1..]);
    }
  }

  lemma {:induction false} InsertAllKeeps(os: seq<Opt>, more: seq<Opt>)
    ensures multiset(InsertAll(os, more)) == multiset(os) + multiset(more)
    decreases |more|
  {
    if more == [] {
    } else {
      var k := InsertIndex(os, more[0].number);
      assert os == os[..k] + os[k..];
      assert more == [more[0]] + more[1..];
      InsertAllKeeps(Insert(os, more[0]), more[1..]);
    }
  }

  // ---------------------------------------------------------------- writing

  const MAX_INFO: nat := 0xFFFF + 269

  /** Nibble and extension bytes of a delta or a length. */
  function InfoBase(v: nat): (r: byte)
    ensures r < 15
  {
    if v < 13 then v else if v <= 0xFF + 13 then 13 else 14
  }

  function InfoExt(v: nat): (r: bytes)
    requires v <= MAX_INFO
    ensures |r| == if v < 13 then 0 else if v <= 0xFF + 13 then 1 else 2
  {
    if v < 13 then [] else if v <= 0xFF + 13 then [v - 13] else ToBE16(v - 269)
  }

  function EncodeOption(delta: nat, value: bytes): (r: bytes)
    requires delta <= MAX_INFO && |value| <= MAX_INFO
    ensures r != [] && r[0] == InfoBase(delta) * 16 + InfoBase(|value|)
  {
    var b: int, c: int := InfoBase(delta), InfoBase(|value|);
    [b * 16 + c] + InfoExt(delta) + InfoExt(|value|) + value
  }

  /** Numbers never fall, and neither steps nor lengths exceed what can be coded. */
  ghost predicate Codable(prev: nat, os: seq<Opt>)
    decreases |os|
  {
    os != [] ==>
      && prev <= os[0].number <= prev + MAX_INFO
      && |os[0].value| <= MAX_INFO
      && Codable(os[0].number, os[1..])
  }

  function EncodeOptions(prev: nat, os: seq<Opt>): bytes
    requires Codable(prev, os)
    decreases |os|
  {
    if os == [] then []
    else EncodeOption(os[0].number - prev, os[0].value) + EncodeOptions(os[0].number, os[1..])
  }

  ghost predicate Composable(m: Msg) {
    && m.msgType <= 3 && |m.token| <= 8 && m.codeClass <= 7 && m.codeDetail <= 31
    && m.msgId < TWO16
    && Codable(0, m.options)
  }

  function Header(m: Msg): (r: bytes)
    requires Composable(m)
    ensures |r| == 4
  {
    var t: int, c: int := m.msgType, m.codeClass;
    [64 + t * 16 + |m.token|, c * 32 + m.codeDetail] + ToBE16(m.msgId)
  }

  function Tail(payload: bytes): bytes {
    if payload == [] then [] else [0xFF] + payload
  }

  function Encode(m: Msg): bytes
    requires Composable(m)
  {
    Header(m) + m.token + EncodeOptions(0, m.options) + Tail(m.payload)
  }

  // ---------------------------------------------------------------- reading

  /** coap_get_ext_opt: the value, cut to 16 bits, and the bytes it took. */
  function ReadInfo(nibble: nat, s: bytes): (r: Option<(nat, nat)>)
    requires nibble < 15
    ensures r.Some? ==> r.value.0 < TWO16 && r.value.1 <= |s| && r.value.1 <= 2
  {
    if nibble == 13 then
      if |s| >= 1 then Some((s[0] as int + 13, 1)) else None
    else if nibble == 14 then
      if |s| >= 2 then Some((U16(BE16(s[..2]) + 269), 2)) else None
    else Some((nibble, 0))
  }

  /** One option, read up to its value: the delta, the length, and what follows. */
  datatype OptionHead = BadHead(error: Error) | OptionHead(delta: nat, length: nat, rest: bytes)

  function ReadHead(s: bytes): (r: OptionHead)
    requires s != []
    ensures r.OptionHead? ==> r.delta < TWO16 && r.length < TWO16 && |r.rest| < |s|
  {
    if s[0] / 16 == 15 || s[0] % 16 == 15 then BadHead(FormatError) else
    var d := ReadInfo(s[0] / 16, s[1..]);
    if d.None? then BadHead(NotEnoughData) else
    var s1 := s[1..][d.value.1..];
    var l := ReadInfo(s[0] % 16, s1);
    if l.None? then BadHead(NotEnoughData)
    else OptionHead(d.value.0, l.value.0, s1[l.value.1..])
  }

  datatype OptionRead = BadOption(error: Error) | GoodOption(o: Opt, rest: bytes)

  /** One option; `prev` is the 16-bit running number. */
  function ReadOption(prev: nat, s: bytes): (r: OptionRead)
    requires prev < TWO16 && s != []
    ensures r.GoodOption? ==> r.o.number < TWO16 && |r.o.value| < TWO16 && |r.rest| < |s|
  {
    var h := ReadHead(s);
    if h.BadHead? then BadOption(h.error)
    else if h.length > |h.rest| then BadOption(NotEnoughData)
    else GoodOption(Opt(U16(h.delta + prev), h.rest[..h.length]), h.rest[h.length..])
  }

  /** The options in the order they were read; `payload` is None when the packet ended
      without a payload marker. */
  datatype OptionsResult = BadOptions(error: Error) | Options(os: seq<Opt>, payload: Option<bytes>)

  function Prepended(o: Opt, more: OptionsResult): OptionsResult {
    if more.BadOptions? then more else Options([o] + more.os, more.payload)
  }

  /** The loop of coap_get_options. */
  function ReadOptions(prev: nat, s: bytes): (r: OptionsResult)
    requires prev < TWO16
    decreases |s|
  {
    if s == [] then Options([], None)
    else if s[0] == 0xFF then Options([], Some(s[1..]))
    else match ReadOption(prev, s)
      case BadOption(e) => BadOptions(e)
      case GoodOption(o, rest) => Prepended(o, ReadOptions(o.number, rest))
  }

  datatype ParseResult =
    | Rejected(error: Error, fields: set<Field>)
    | Parsed(msg: Msg, fields: set<Field>)

  const HEADER_FIELDS: set<Field> := {TypeField, CodeClassField, CodeDetailField, IdField}

  /** mg_coap_parse. */
  function Parse(b: bytes): (r: ParseResult) {
    if |b| < 4 then Rejected(NotEnoughData, {})
    else if b[0] / 64 != 1 then Rejected(IgnoreError, {})
    else if b[0] % 16 > 8 then Rejected(FormatError, {TypeField})
    else
      var n := b[0] % 16;
      if n > |b| - 4 then Rejected(NotEnoughData, HEADER_FIELDS)
      else
        var fields := HEADER_FIELDS + if n > 0 then {TokenField} else {};
        var m := Msg(b[0] / 16 % 4, b[1] / 32, b[1] % 32, BE16(b[2..4]), b[4..4 + n], [], []);
        ParseBody(m, fields, b[4 + n..])
  }

  /** Options and payload; `m` and `fields` hold what is known so far. */
  function ParseBody(m: Msg, fields: set<Field>, s: bytes): (r: ParseResult)
    ensures r.Parsed? ==> var r := r.msg;
      r.msgType == m.msgType && r.codeClass == m.codeClass && r.codeDetail == m.codeDetail
      && r.msgId == m.msgId && r.token == m.token
  {
    if s == [] then Parsed(m, fields)
    else match ReadOptions(0, s)
      case BadOptions(e) => Rejected(e, fields)
      case Options(os, payload) =>
        var p := payload.GetOr([]);
        Parsed(m.(options := InsertAll([], os), payload := p),
               fields + {OptionField} + if p != [] then {PayloadField} else {})
  }

  // ------------------------------------------------------ reading what was written

  /** Everything fits the 16-bit variables of the reader. */
  ghost predicate Small(os: seq<Opt>) {
    forall o <- os :: o.number < TWO16 && |o.value| < TWO16
  }

  lemma ReadInfoEncoded(v: nat, tail: bytes)
    requires v < TWO16
    ensures ReadInfo(InfoBase(v), InfoExt(v) + tail) == Some((v, |InfoExt(v)|))
    ensures (InfoExt(v) + tail)[|InfoExt(v)|..] == tail
  {
    if v > 0xFF + 13 {
      assert (InfoExt(v) + tail)[..2] == ToBE16(v - 269);
    }
  }

  /** No 16-bit sum of the reader wraps on the way through the options. */
  ghost predicate WrapFree(prev: nat, s: bytes)
    requires prev < TWO16
    decreases |s|
  {
    s != [] && s[0] != 0xFF && ReadOption(prev, s).GoodOption? ==>
      && ExactHead(s)
      && ReadHead(s).delta + prev < TWO16
      && WrapFree(ReadOption(prev, s).o.number, ReadOption(prev, s).rest)
  }

  predicate ExactInfo(nibble: nat, s: bytes) {
    nibble == 14 && |s| >= 2 ==> BE16(s[..2]) + 269 < TWO16
  }

  predicate ExactHead(s: bytes)
    requires s != [] && ReadHead(s).OptionHead?
  {
    && ExactInfo(s[0] / 16, s[1..])
    && ExactInfo(s[0] % 16, s[1..][ReadInfo(s[0] / 16, s[1..]).value.1..])
  }

  lemma ExactInfoEncoded(v: nat, tail: bytes)
    requires v < TWO16
    ensures ExactInfo(InfoBase(v), InfoExt(v) + tail)
  {
    if v > 0xFF + 13 {
      assert (InfoExt(v) + tail)[..2] == ToBE16(v - 269);
    }
  }

  lemma ReadHeadEncoded(delta: nat, value: bytes, tail: bytes)
    requires delta < TWO16 && |value| < TWO16
    ensures var s := EncodeOption(delta, value) + tail;
      ReadHead(s) == OptionHead(delta, |value|, value + tail) && ExactHead(s)
  {
    hide InfoBase, InfoExt, ReadInfo, ExactInfo;
    var afterLength := value + tail;
    var afterDelta := InfoExt(|value|) + afterLength;
    ReadInfoEncoded(delta, afterDelta);
    ReadInfoEncoded(|value|, afterLength);
    ExactInfoEncoded(delta, afterDelta);
    ExactInfoEncoded(|value|, afterLength);
    OptionBytes(delta, value, tail);
  }

  lemma OptionFirst(delta: nat, value: bytes)
    requires delta < TWO16 && |value| < TWO16
    ensures EncodeOption(delta, value)[0] < 0xF0
  {
  }

  lemma OptionBytes(delta: nat, value: bytes, tail: bytes)
    requires delta < TWO16 && |value| < TWO16
    ensures var s := EncodeOption(delta, value) + tail;
      && s[0] / 16 == InfoBase(delta) && s[0] % 16 == InfoBase(|value|) && s[0] < 0xF0
      && s[1..] == InfoExt(delta) + (InfoExt(|value|) + (value + tail))
  {
    hide InfoBase, InfoExt;
  }

  function Marked(payload: Option<bytes>): bytes {
    if payload.Some? then [0xFF] + payload.value else []
  }

  lemma ReadOne(prev: nat, o: Opt, tail: bytes)
    requires prev <= o.number < TWO16 && |o.value| < TWO16
    ensures var s := EncodeOption(o.number - prev, o.value) + tail;
      && ReadOptions(prev, s) == Prepended(o, ReadOptions(o.number, tail))
      && (WrapFree(o.number, tail) ==> WrapFree(prev, s))
  {
    hide EncodeOption, ReadHead, ExactHead;
    var s := EncodeOption(o.number - prev, o.value) + tail;
    ReadHeadEncoded(o.number - prev, o.value, tail);
    OptionFirst(o.number - prev, o.value);
    assert (o.value + tail)[|o.value|..] == tail && (o.value + tail)[..|o.value|] == o.value;
  }

  lemma EncodeCons(prev: nat, o: Opt, os: seq<Opt>, tail: bytes)
    requires prev <= o.number <= prev + MAX_INFO && |o.value| <= MAX_INFO && Codable(o.number, os)
    ensures Codable(prev, [o] + os)
    ensures EncodeOptions(prev, [o] + os) + tail
            == EncodeOption(o.number - prev, o.value) + (EncodeOptions(o.number, os) + tail)
  {
    hide EncodeOption;
    assert ([o] + os)[1..] == os;
  }

  lemma {:induction false} ReadEncoded(prev: nat, os: seq<Opt>, payload: Option<bytes>)
    requires prev < TWO16 && Codable(prev, os) && Small(os)
    ensures ReadOptions(prev, EncodeOptions(prev, os) + Marked(payload)) == Options(os, payload)
    ensures WrapFree(prev, EncodeOptions(prev, os) + Marked(payload))
    decreases |os|
  {
    hide EncodeOption, ReadHead, ExactHead;
    if os == [] {
      assert [] + Marked(payload) == Marked(payload);
      if payload.Some? {
        assert Marked(payload)[1..] == payload.value;
      }
    } else {
      hide WrapFree, ReadOptions, EncodeOptions;
      var o := os[0];
      assert os == [o] + os[1..];
      EncodeCons(prev, o, os[1..], Marked(payload));
      ReadOne(prev, o, EncodeOptions(o.number, os[1..]) + Marked(payload));
      ReadEncoded(o.number, os[1..], payload);
    }
  }

  // ------------------------------------------------------ writing what was read

  lemma EncodeReadInfo(nibble: nat, s: bytes)
    requires nibble < 15 && ReadInfo(nibble, s).Some? && ExactInfo(nibble, s)
    ensures var (v, n) := ReadInfo(nibble, s).value;
      InfoBase(v) == nibble && InfoExt(v) == s[..n]
  {
    if nibble == 14 {
      var x := BE16(s[..2]);
      assert ToBE16(x) == s[..2];
    }
  }

  lemma Regroup(x: byte, s: bytes, n: nat, k: nat, l: nat)
    requires n <= |s| && k <= |s| - n && l <= |s| - n - k
    ensures var rest := s[n..][k..];
      [x] + s[..n] + s[n..][..k] + rest[..l] + rest[l..] == [x] + s
  {
    var rest := s[n..][k..];
    assert s == s[..n] + s[n..] && s[n..] == s[n..][..k] + rest && rest == rest[..l] + rest[l..];
  }

  lemma OptionCases(prev: nat, s: bytes)
    requires prev < TWO16 && s != []
    ensures
      var h := ReadHead(s);
      ReadOption(prev, s)
      == if h.BadHead? then BadOption(h.error)
         else if h.length > |h.rest| then BadOption(NotEnoughData)
         else GoodOption(Opt(U16(h.delta + prev), h.rest[..h.length]), h.rest[h.length..])
  {
    hide ReadHead, U16;
  }

  lemma HeadCases(s: bytes)
    requires s != []
    ensures
      var d, s1 := s[0] / 16, s[1..];
      ReadHead(s)
      == if d == 15 || s[0] % 16 == 15 then BadHead(FormatError)
         else if ReadInfo(d, s1).None? then BadHead(NotEnoughData)
         else
           var s2 := s1[ReadInfo(d, s1).value.1..];
           var l := ReadInfo(s[0] % 16, s2);
           if l.None? then BadHead(NotEnoughData)
           else OptionHead(ReadInfo(d, s1).value.0, l.value.0, s2[l.value.1..])
  {
    hide ReadInfo;
  }

  lemma EncodeReadHead(s: bytes)
    requires s != [] && ReadHead(s).OptionHead? && ExactHead(s)
    requires ReadHead(s).length <= |ReadHead(s).rest|
    ensures var h := ReadHead(s);
      EncodeOption(h.delta, h.rest[..h.length]) + h.rest[h.length..] == s
  {
    hide InfoBase, InfoExt, ReadInfo, ExactInfo, ReadHead;
    HeadCases(s);
    var h := ReadHead(s);
    var s1 := s[1..];
    EncodeReadInfo(s[0] / 16, s1);
    var n := ReadInfo(s[0] / 16, s1).value.1;
    EncodeReadInfo(s[0] % 16, s1[n..]);
    var k := ReadInfo(s[0] % 16, s1[n..]).value.1;
    Regroup(s[0], s1, n, k, h.length);
    assert s == [s[0]] + s1;
  }

  lemma {:induction false} EncodeRead(prev: nat, s: bytes)
    requires prev < TWO16 && ReadOptions(prev, s).Options? && WrapFree(prev, s)
    ensures var r := ReadOptions(prev, s);
      Codable(prev, r.os) && EncodeOptions(prev, r.os) + Marked(r.payload) == s
    decreases |s|
  {
    hide EncodeOption, ReadHead, ExactHead, EncodeOptions, Codable, ReadOptions, WrapFree;
    NothingCoded(prev);
    ReadCases(prev, s);
    if s == [] {
      assert [] + Marked(None) == [];
    } else if s[0] == 0xFF {
      assert [] + Marked(Some(s[1..])) == [0xFF] + s[1..] == s;
    } else {
      var o := ReadOption(prev, s);
      EncodeReadHead(s);
      EncodeRead(o.o.number, o.rest);
      var more := ReadOptions(o.o.number, o.rest);
      EncodeCons(prev, o.o, more.os, Marked(more.payload));
    }
  }

  lemma NothingCoded(prev: nat)
    ensures Codable(prev, []) && EncodeOptions(prev, []) == []
  {
  }

  lemma ReadCases(prev: nat, s: bytes)
    requires prev < TWO16 && ReadOptions(prev, s).Options? && WrapFree(prev, s)
    ensures s == [] ==> ReadOptions(prev, s) == Options([], None)
    ensures s != [] && s[0] == 0xFF ==> ReadOptions(prev, s) == Options([], Some(s[1..]))
    ensures s != [] && s[0] != 0xFF ==>
      var r := ReadOption(prev, s);
      && r.GoodOption? && ExactHead(s) && ReadHead(s).delta + prev < TWO16
      && WrapFree(r.o.number, r.rest) && ReadOptions(r.o.number, r.rest).Options?
      && ReadOptions(prev, s) == Prepended(r.o, ReadOptions(r.o.number, r.rest))
  {
    hide ReadHead, ExactHead;
  }

  lemma {:induction false} SortedSmallCodable(prev: nat, os: seq<Opt>)
    requires Sorted(os) && Small(os) && (os != [] ==> prev <= os[0].number)
    ensures Codable(prev, os)
    decreases |os|
  {
    if os != [] {
      assert forall o <- os[1..] :: o in os;
      SortedSmallCodable(os[0].number, os[1..]);
    }
  }

  lemma {:induction false} CodableSorted(prev: nat, os: seq<Opt>)
    requires Codable(prev, os)
    ensures Sorted(os) && forall o <- os :: prev <= o.number
    decreases |os|
  {
    if os != [] {
      CodableSorted(os[0].number, os[1..]);
      assert forall i :: 0 < i < |os| ==> os[i] == os[1..][i - 1];
    }
  }

  // ------------------------------------------------------------- whole packets

  function FieldsOf(m: Msg): set<Field> {
    HEADER_FIELDS
    + (if m.token != [] then {TokenField} else {})
    + (if m.options != [] || m.payload != [] then {OptionField} else {})
    + (if m.payload != [] then {PayloadField} else {})
  }

  /** The header and token of any packet of this shape. */
  lemma ParseFront(m: Msg, s: bytes)
    requires Composable(m)
    ensures var b := Header(m) + m.token + s;
      && |b| >= 4 && b[0] / 64 == 1 && b[0] % 16 == |m.token| <= |b| - 4
      && b[0] / 16 % 4 == m.msgType && b[1] / 32 == m.codeClass && b[1] % 32 == m.codeDetail
      && BE16(b[2..4]) == m.msgId && b[4..4 + |m.token|] == m.token && b[4 + |m.token|..] == s
  {
    var b := Header(m) + m.token + s;
    assert b[2..4] == ToBE16(m.msgId);
    assert b[0] == Header(m)[0] && b[1] == Header(m)[1];
  }

  function TokenFields(token: bytes): set<Field> {
    HEADER_FIELDS + if token != [] then {TokenField} else {}
  }

  lemma ParseWithFront(m: Msg, s: bytes)
    requires Composable(m)
    ensures Parse(Header(m) + m.token + s) == ParseBody(m.(options := [], payload := []), TokenFields(m.token), s)
  {
    ParseFront(m, s);
    hide ParseBody, Header;
  }

  lemma EmptyEncoding(prev: nat, os: seq<Opt>)
    requires Codable(prev, os)
    ensures EncodeOptions(prev, os) == [] <==> os == []
  {
    hide EncodeOption;
  }

  lemma ParseBodyEncoded(m: Msg)
    requires Codable(0, m.options) && Small(m.options)
    ensures var s := EncodeOptions(0, m.options) + Tail(m.payload);
      ParseBody(m.(options := [], payload := []), TokenFields(m.token), s) == Parsed(m, FieldsOf(m))
  {
    hide EncodeOptions, ReadOptions, InsertAll;
    var payload := if m.payload == [] then None else Some(m.payload);
    var s := EncodeOptions(0, m.options) + Marked(payload);
    EmptyEncoding(0, m.options);
    assert s == EncodeOptions(0, m.options) + Tail(m.payload);
    ReadEncoded(0, m.options, payload);
    CodableSorted(0, m.options);
    InsertSortedAppends([], m.options);
    assert [] + m.options == m.options;
    if s == [] {
      assert m.options == [] && m.payload == [];
    }
  }

  /** Reading back a message that fits gives the message itself. */
  lemma ParseEncode(m: Msg)
    requires Composable(m) && Small(m.options)
    ensures Parse(Encode(m)) == Parsed(m, FieldsOf(m))
  {
    hide Header, Parse, ParseBody, EncodeOptions;
    var s := EncodeOptions(0, m.options) + Tail(m.payload);
    assert Encode(m) == Header(m) + m.token + s;
    ParseWithFront(m, s);
    ParseBodyEncoded(m);
  }

  lemma {:induction false} ReadSmall(prev: nat, s: bytes)
    requires prev < TWO16 && ReadOptions(prev, s).Options?
    ensures Small(ReadOptions(prev, s).os)
    decreases |s|
  {
    if s != [] && s[0] != 0xFF {
      var r := ReadOption(prev, s);
      ReadSmall(r.o.number, r.rest);
    }
  }

  lemma ParsedSmall(b: bytes)
    requires Parse(b).Parsed?
    ensures Small(Parse(b).msg.options) && Sorted(Parse(b).msg.options)
    ensures Composable(Parse(b).msg)
  {
    hide Parse, ReadOptions, InsertAll, Small, Sorted, Codable, Body;
    BodyParsed(b);
    var os := ReadOptions(0, Body(b)).os;
    ReadSmall(0, Body(b));
    NothingSorted();
    InsertAllKeeps([], os);
    assert multiset([] + os) == multiset(os);
    SmallKept(os, Parse(b).msg.options);
    SortedSmallCodable(0, Parse(b).msg.options);
    ParsedFields(b);
  }

  lemma NothingSorted()
    ensures Sorted([])
  {
  }

  lemma SmallKept(os: seq<Opt>, more: seq<Opt>)
    requires Small(os) && multiset(more) == multiset(os)
    ensures Small(more)
  {
    forall o <- more ensures o.number < TWO16 && |o.value| < TWO16 {
      assert o in multiset(more);
      assert o in multiset(os);
    }
  }

  lemma ParsedFields(b: bytes)
    requires Parse(b).Parsed?
    ensures var m := Parse(b).msg;
      m.msgType <= 3 && |m.token| <= 8 && m.codeClass <= 7 && m.codeDetail <= 31 && m.msgId < TWO16
  {
    hide ParseBody;
  }

  /** Round trip from messages: a composed message reads back as itself exactly when its
      option numbers and lengths fit 16 bits, though the composer accepts up to 65804. */
  lemma ParseEncodeIff(m: Msg)
    requires Composable(m)
    ensures (Parse(Encode(m)).Parsed? && Parse(Encode(m)).msg == m) <==> Small(m.options)
  {
    if Small(m.options) {
      ParseEncode(m);
    } else if Parse(Encode(m)).Parsed? {
      ParsedSmall(Encode(m));
    }
  }

  lemma WordBytes(s: bytes)
    requires |s| == 2
    ensures ToBE16(BE16(s)) == s
  {
  }

  lemma HeaderBytes(x: byte, y: byte)
    requires x / 64 == 1
    ensures 64 + x / 16 % 4 * 16 + x % 16 == x && y / 32 * 32 + y % 32 == y
  {
  }

  lemma FrontEncode(b: bytes)
    requires Parse(b).Parsed?
    ensures var m := Parse(b).msg;
      Composable(m) && |b| >= 4 + |m.token| && b == Header(m) + m.token + b[4 + |m.token|..]
  {
    hide Parse, ParseBody, Header;
    ParsedSmall(b);
    ParsedFront(b);
    FourParts(b, 4 + |Parse(b).msg.token|);
  }

  lemma ParsedFront(b: bytes)
    requires Parse(b).Parsed? && Composable(Parse(b).msg)
    ensures var m := Parse(b).msg;
      |b| >= 4 + |m.token| && b[4..4 + |m.token|] == m.token && b[..4] == Header(m)
  {
    hide ParseBody, BE16, ToBE16, Composable;
    WordBytes(b[2..4]);
    HeaderBytes(b[0], b[1]);
    assert b[..4] == [b[0], b[1]] + b[2..4];
  }

  lemma FourParts(b: bytes, n: nat)
    requires 4 <= n <= |b|
    ensures b == b[..4] + b[4..n] + b[n..]
  {
  }

  /** What follows header and token in a packet. */
  function Body(b: bytes): bytes
    requires Parse(b).Parsed?
  {
    b[4 + b[0] % 16..]
  }

  /** Round trip from packets: an accepted packet composes back to its own bytes exactly
      when the reader did not wrap and no payload marker ends the packet. */
  lemma EncodeParseIff(b: bytes)
    requires Parse(b).Parsed?
    ensures Composable(Parse(b).msg)
    ensures Encode(Parse(b).msg) == b
            <==> WrapFree(0, Body(b)) && ReadOptions(0, Body(b)) != Options(ReadOptions(0, Body(b)).os, Some([]))
  {
    hide EncodeOptions, ReadOptions, WrapFree, Header, InsertAll, Parse, Body, Codable;
    var m, s := Parse(b).msg, Body(b);
    FrontEncode(b);
    ParsedSmall(b);
    BodyParsed(b);
    var r := ReadOptions(0, s);
    var payload := if m.payload == [] then None else Some(m.payload);
    assert Codable(0, m.options);
    var e := EncodeOptions(0, m.options) + Marked(payload);
    EncodedAs(m, e);
    ReadEncoded(0, m.options, payload);
    if WrapFree(0, s) && r.payload != Some([]) {
      RewrittenBody(s, r.os, r.payload);
      assert e == s;
    }
    if Encode(m) == b {
      DropFront2(Header(m) + m.token, e, s);
    }
  }

  lemma EncodedAs(m: Msg, e: bytes)
    requires Composable(m)
    requires e == EncodeOptions(0, m.options) + Marked(if m.payload == [] then None else Some(m.payload))
    ensures Encode(m) == Header(m) + m.token + e
  {
    hide EncodeOptions, Header;
  }

  lemma DropFront2(a: bytes, e: bytes, s: bytes)
    requires a + e == a + s
    ensures e == s
  {
    assert (a + e)[|a|..] == e && (a + s)[|a|..] == s;
  }

  lemma BodyParsed(b: bytes)
    requires Parse(b).Parsed?
    ensures
      var m, r := Parse(b).msg, ReadOptions(0, Body(b));
      && r.Options? && m.options == InsertAll([], r.os) && m.payload == r.payload.GetOr([])
      && b[4 + |m.token|..] == Body(b) && 4 + |m.token| <= |b|
  {
    hide BE16;
  }

  /** Options read without wrapping are written back byte by byte, and stay as they are
      when they are inserted one by one. */
  lemma RewrittenBody(s: bytes, os: seq<Opt>, payload: Option<bytes>)
    requires ReadOptions(0, s) == Options(os, payload) && WrapFree(0, s) && payload != Some([])
    ensures Codable(0, os) && EncodeOptions(0, os) + Marked(payload) == s && InsertAll([], os) == os
  {
    EncodeRead(0, s);
    CodableSorted(0, os);
    InsertSortedAppends([], os);
    assert [] + os == os;
  }

  /** What happens to a message with an option that is too large for the reader: its number
      is cut to 16 bits. */
  lemma LargeOptionLost(m: Msg, number: nat, value: bytes)
    requires Composable(m) && m.options == [Opt(number, value)] && TWO16 <= number && |value| < TWO16
    ensures Parse(Encode(m)) == Parsed(m.(options := [Opt(number - TWO16, value)]), FieldsOf(m))
  {
    hide Header, Parse, ParseBody, EncodeOption, ReadOptions;
    var payload := if m.payload == [] then None else Some(m.payload);
    var s := EncodeOption(number, value) + Marked(payload);
    assert m.options[1..] == [];
    assert EncodeOptions(0, m.options) == EncodeOption(number, value) by {
      assert EncodeOption(number, value) + [] == EncodeOption(number, value);
    }
    assert Encode(m) == Header(m) + m.token + s by {
      Assoc(Header(m) + m.token, EncodeOption(number, value), Marked(payload));
    }
    ParseWithFront(m, s);
    ReadLarge(number, value, payload);
    LargeBody(m, s, Opt(number - TWO16, value), payload);
  }

  lemma LargeBody(m: Msg, s: bytes, o: Opt, payload: Option<bytes>)
    requires s != [] && ReadOptions(0, s) == Options([o], payload) && m.options != []
    requires payload == if m.payload == [] then None else Some(m.payload)
    ensures ParseBody(m.(options := [], payload := []), TokenFields(m.token), s)
            == Parsed(m.(options := [o]), FieldsOf(m))
  {
    hide ReadOptions, InsertAll;
    InsertSortedAppends([], [o]);
    assert [] + [o] == [o];
  }

  lemma ReadLarge(number: nat, value: bytes, payload: Option<bytes>)
    requires TWO16 <= number <= MAX_INFO && |value| < TWO16
    ensures EncodeOption(number, value) + Marked(payload) != []
    ensures ReadOptions(0, EncodeOption(number, value) + Marked(payload))
            == Options([Opt(number - TWO16, value)], payload)
  {
    hide EncodeOption, ReadHead, InfoBase, InfoExt, ReadInfo;
    var tail := Marked(payload);
    var s := EncodeOption(number, value) + tail;
    LargeHead(number, value, tail);
    assert (value + tail)[..|value|] == value && (value + tail)[|value|..] == tail;
    assert ReadOptions(number - TWO16, tail) == Options([], payload) by {
      assert payload.Some? ==> tail[1..] == payload.value;
    }
    assert [Opt(number - TWO16, value)] + [] == [Opt(number - TWO16, value)];
  }

  lemma LargeHead(number: nat, value: bytes, tail: bytes)
    requires TWO16 <= number <= MAX_INFO && |value| < TWO16
    ensures var s := EncodeOption(number, value) + tail;
      s != [] && s[0] != 0xFF && ReadHead(s) == OptionHead(number - TWO16, |value|, value + tail)
  {
    var afterLength := value + tail;
    var afterDelta := InfoExt(|value|) + afterLength;
    var s := EncodeOption(number, value) + tail;
    assert InfoBase(number) == 14 && |InfoExt(number)| == 2;
    assert ReadInfo(14, InfoExt(number) + afterDelta) == Some((number - TWO16, 2)) by {
      assert (InfoExt(number) + afterDelta)[..2] == ToBE16(number - 269);
    }
    hide InfoBase, InfoExt, ReadInfo;
    assert s[0] / 16 == InfoBase(number) && s[0] % 16 == InfoBase(|value|);
    assert s[1..] == InfoExt(number) + afterDelta;
    assert s[1..][2..] == afterDelta;
    ReadInfoEncoded(|value|, afterLength);
  }

  /** The failing input for packets: a payload marker with nothing behind it is dropped. */
  lemma BareMarkerLost()
    ensures var b := [64, 1, 0, 0, 0xFF];
      Parse(b) == Parsed(Msg(0, 0, 1, 0, [], [], []), HEADER_FIELDS + {OptionField})
      && Encode(Parse(b).msg) == [64, 1, 0, 0]
  {
    var b: bytes := [64, 1, 0, 0, 0xFF];
    assert b[4..] == [0xFF] && b[4..4] == [] && b[2..4] == [0, 0];
  }
}
