/** `struct mg_coap_message`: the option list is a singly linked list with a tail
    pointer, composed into and parsed out of an mbuf. */
module CoapMessage {
  import opened Wrappers
  import opened Bytes
  import opened Coap

  class OptionNode {
    var next: OptionNode?
    const number: nat
    const value: bytes

    constructor (number: nat, value: bytes)
      ensures next == null && this.number == number && this.value == value
    {
      next := null;
      this.number := number;
      this.value := value;
    }
  }

  function Values(nodes: seq<OptionNode>): (os: seq<Opt>)
    ensures |os| == |nodes|
    ensures forall i :: 0 <= i < |nodes| ==> os[i] == Opt(nodes[i].number, nodes[i].value)
  {
    seq(|nodes|, i requires 0 <= i < |nodes| => Opt(nodes[i].number, nodes[i].value))
  }

  function At(nodes: seq<OptionNode>, i: int): OptionNode? {
    if 0 <= i < |nodes| then nodes[i] else null
  }

  ghost predicate Linked(nodes: seq<OptionNode>)
    reads set n <- nodes
  {
    && (forall i {:trigger nodes[i].next} :: 0 <= i < |nodes| ==> nodes[i].next == At(nodes, i + 1))
    && (forall i, j :: 0 <= i < j < |nodes| ==> nodes[i] != nodes[j])
  }

  lemma ValuesInsert(nodes: seq<OptionNode>, n: OptionNode)
    requires Sorted(Values(nodes))
    ensures var k := InsertIndex(Values(nodes), n.number);
      var longer := Values(nodes[..k] + [n] + nodes[k..]);
      longer == Insert(Values(nodes), Opt(n.number, n.value)) && Sorted(longer)
  {
    hide Sorted, InsertIndex;
    ValuesSplice(nodes, n, InsertIndex(Values(nodes), n.number));
  }

  lemma ValuesSplice(nodes: seq<OptionNode>, n: OptionNode, k: nat)
    requires k <= |nodes|
    ensures Values(nodes[..k] + [n] + nodes[k..])
            == Values(nodes)[..k] + [Opt(n.number, n.value)] + Values(nodes)[k..]
  {
  }

  /** The test on the tail decides whether the new option goes last. */
  lemma Placement(nodes: seq<OptionNode>, number: nat)
    requires Sorted(Values(nodes))
    ensures nodes != [] ==>
      (nodes[|nodes| - 1].number <= number <==> InsertIndex(Values(nodes), number) == |nodes|)
  {
    var os := Values(nodes);
    assert nodes != [] ==> os[|nodes| - 1].number == nodes[|nodes| - 1].number;
  }

  class Message {
    var msgType: byte
    var codeClass: byte
    var codeDetail: byte
    var msgId: nat
    var token: bytes
    var options: OptionNode?
    var optionsTail: OptionNode?
    var payload: bytes
    var fields: set<Field>
    ghost var nodes: seq<OptionNode>
    ghost var repr: set<OptionNode>

    ghost predicate Valid()
      reads this, repr
    {
      && msgId < TWO16
      && Listed()
      && Sorted(Values(nodes))
    }

    /** The pointers represent `nodes`. */
    ghost predicate Listed()
      reads this, repr
    {
      && (forall i :: 0 <= i < |nodes| ==> nodes[i] in repr)
      && options == At(nodes, 0)
      && (nodes != [] ==> optionsTail == nodes[|nodes| - 1])
      && Linked(nodes)
    }

    ghost function View(): Msg
      reads this
    {
      Msg(msgType, codeClass, codeDetail, msgId, token, Values(nodes), payload)
    }

    /** memset(cm, 0, sizeof(*cm)) */
    constructor ()
      ensures Valid() && nodes == [] && fresh(repr) && fields == {}
      ensures View() == Msg(0, 0, 0, 0, [], [], [])
    {
      msgType, codeClass, codeDetail, msgId := 0, 0, 0, 0;
      token, payload := [], [];
      options, optionsTail := null, null;
      fields := {};
      nodes, repr := [], {};
    }

    /** mg_coap_add_option keeps the list in order, new options behind their equals,
        and the tail pointer on the last node. */
    method AddOption(number: nat, value: bytes) returns (newOption: OptionNode)
      requires Valid()
      modifies this`options, this`optionsTail, this`nodes, this`repr, repr
      ensures Valid() && fresh(newOption) && repr == old(repr) + {newOption}
      ensures var k := InsertIndex(Values(old(nodes)), number);
        nodes == old(nodes)[..k] + [newOption] + old(nodes)[k..]
      ensures Values(nodes) == Insert(Values(old(nodes)), Opt(number, value))
    {
      newOption := new OptionNode(number, value);
      ValuesInsert(nodes, newOption);
      Link(newOption);
    }

    /** The case split of mg_coap_add_option. */
    method Link(n: OptionNode)
      requires Valid() && n !in repr && n.next == null
      modifies this`options, this`optionsTail, this`nodes, this`repr, repr, n
      ensures Listed() && repr == old(repr) + {n}
      ensures var k := InsertIndex(Values(old(nodes)), n.number);
        nodes == old(nodes)[..k] + [n] + old(nodes)[k..]
    {
      Placement(nodes, n.number);
      hide InsertIndex, Sorted, Values, Linked;
      if options == null {
        LinkFirst(n);
      } else if optionsTail.number <= n.number {
        LinkLast(n);
      } else {
        ghost var k := InsertIndex(Values(nodes), n.number);
        var prev, current := FindPlace(n.number);
        if prev != null {
          LinkBetween(n, prev, current, k);
        } else {
          LinkFirst(n);
        }
      }
    }

    /** "insert new_option to the beginning", also of an empty list. */
    method LinkFirst(n: OptionNode)
      requires Listed() && n !in repr
      modifies this`options, this`optionsTail, this`nodes, this`repr, n`next
      ensures Listed() && repr == old(repr) + {n} && nodes == old(nodes)[..0] + [n] + old(nodes)[0..]
    {
      n.next := options;
      if options == null {
        optionsTail := n;
      }
      options := n;
      nodes, repr := [n] + nodes, repr + {n};
    }

    /** "if option is already ordered just add it" */
    method LinkLast(n: OptionNode)
      requires Listed() && nodes != [] && n !in repr && n.next == null
      modifies this`optionsTail, this`nodes, this`repr, optionsTail`next
      ensures Listed() && repr == old(repr) + {n}
      ensures nodes == old(nodes)[..|old(nodes)|] + [n] + old(nodes)[|old(nodes)|..]
    {
      optionsTail.next := n;
      optionsTail := n;
      nodes, repr := nodes + [n], repr + {n};
    }

    method LinkBetween(n: OptionNode, prev: OptionNode, current: OptionNode, ghost k: nat)
      requires Listed() && 0 < k < |nodes| && prev == nodes[k - 1] && current == nodes[k]
      requires n !in repr
      modifies this`nodes, this`repr, prev`next, n`next
      ensures Listed() && repr == old(repr) + {n} && nodes == old(nodes)[..k] + [n] + old(nodes)[k..]
    {
      prev.next := n;
      n.next := current;
      nodes, repr := nodes[..k] + [n] + nodes[k..], repr + {n};
    }

    /** "looking for appropriate position" */
    method FindPlace(number: nat) returns (prev: OptionNode?, current: OptionNode?)
      requires Valid() && nodes != []
      ensures var k := InsertIndex(Values(nodes), number);
        prev == At(nodes, k - 1) && current == At(nodes, k)
    {
      current, prev := options, null;
      ghost var k := 0;
      while current != null
        invariant 0 <= k <= |nodes|
        invariant current == At(nodes, k) && prev == At(nodes, k - 1)
        invariant forall i :: 0 <= i < k ==> nodes[i].number <= number
        decreases |nodes| - k
      {
        if current.number > number {
          break;
        }
        prev := current;
        current := current.next;
        k := k + 1;
      }
      ghost var os := Values(nodes);
      assert k < |nodes| ==> os[k].number > number;
      assert k <= InsertIndex(os, number);
    }

    // -------------------------------------------------------------- composing

    /** coap_calculate_packet_size: verifies the message and predicts its size. */
    method CalculatePacketSize() returns (bad: Option<Field>, len: nat)
      requires Valid()
      ensures bad == BadField(View())
      ensures bad.None? ==> len == |Encode(View())|
    {
      ghost var os := Values(nodes);
      len := 4;
      if msgType > 3 {
        return Some(TypeField), len;
      }
      if |token| > 8 {
        return Some(TokenField), len;
      }
      if codeClass > 7 {
        return Some(CodeClassField), len;
      }
      if codeDetail > 31 {
        return Some(CodeDetailField), len;
      }
      len := len + |token|;
      if payload != [] {
        len := len + |payload| + 1;
      }
      var ok, size := OptionsSize();
      hide EncodeOptions, Codable;
      if ok {
        bad, len := None, len + size;
      } else {
        bad := Some(OptionField);
      }
    }

    method OptionsSize() returns (ok: bool, len: nat)
      requires Valid()
      ensures ok <==> Codable(0, Values(nodes))
      ensures ok ==> len == |EncodeOptions(0, Values(nodes))|
    {
      ghost var os := Values(nodes);
      var opt, prevNumber := options, 0;
      len := 0;
      ghost var i := 0;
      assert os[..0] == [];
      while opt != null
        invariant 0 <= i <= |nodes| && opt == At(nodes, i)
        invariant prevNumber == LastNumber(0, os[..i])
        invariant Codable(0, os[..i]) && len == |EncodeOptions(0, os[..i])|
        decreases |nodes| - i
      {
        hide EncodeOptions, EncodeOption, Codable, Linked, Values;
        NextOption(os, i);
        if (opt.next != null && opt.number > opt.next.number)
           || |opt.value| > MAX_INFO || opt.number - prevNumber > MAX_INFO {
          return false, len;
        }
        len := len + 1 + ExtSize(opt.number - prevNumber) + ExtSize(|opt.value|) + |opt.value|;
        prevNumber := opt.number;
        opt := opt.next;
        i := i + 1;
      }
      assert os[..i] == os;
      ok := true;
    }

    /** mg_coap_compose appends the packet to `io`, or fails and leaves it alone. */
    method Compose(io: Mbuf) returns (bad: Option<Field>)
      requires Valid() && io.Valid()
      modifies io, io.buf
      ensures io.Valid() && (io.buf == old(io.buf) || fresh(io.buf))
      ensures bad == BadField(View())
      ensures bad.None? <==> Composable(View())
      ensures io.Contents() == old(io.Contents()) + if bad.None? then Encode(View()) else []
    {
      ghost var was := io.Contents();
      var size;
      bad, size := CalculatePacketSize();
      if bad.None? {
        var at := io.len;
        io.OpenGap(at, size);
        assert io.buf[..at] == io.Contents()[..at] == was;
        WritePacket(io.buf, at);
      }
    }

    /** mg_coap_parse; `r` is what the packet means. */
    method ParsePacket(io: Mbuf) returns (error: Option<Error>, ghost r: ParseResult)
      requires io.Valid()
      modifies this
      ensures Valid() && r == Parse(io.Contents())
      ensures r.Parsed? ==> error.None? && View() == r.msg && fields == r.fields
      ensures r.Rejected? ==> error == Some(r.error) && fields == r.fields
    {
      var b := io.buf[..io.len];
      r := Parse(b);
      Reset();
      var ptr;
      error, ptr := ParseHeader(b, r);
      if error.None? {
        error := ParseRest(b, ptr, View(), r);
      }
    }

    /** memset(cm, 0, sizeof(*cm)) */
    method Reset()
      modifies this
      ensures Valid() && nodes == [] && repr == {} && fields == {}
      ensures View() == Msg(0, 0, 0, 0, [], [], [])
    {
      msgType, codeClass, codeDetail, msgId := 0, 0, 0, 0;
      token, payload := [], [];
      options, optionsTail := null, null;
      fields := {};
      nodes, repr := [], {};
    }

    /** coap_parse_header and coap_get_token. */
    method ParseHeader(b: bytes, ghost r: ParseResult) returns (error: Option<Error>, ptr: nat)
      requires Valid() && nodes == [] && repr == {} && token == [] && payload == [] && fields == {}
      requires r == Parse(b)
      modifies this`msgType, this`codeClass, this`codeDetail, this`msgId, this`token, this`fields
      ensures Valid()
      ensures error.Some? ==> r == Rejected(error.value, fields)
      ensures error.None? ==> ptr <= |b| && r == ParseBody(View(), fields, b[ptr..])
    {
      hide ParseBody, Sorted, Linked;
      error, ptr := None, 4;
      if |b| < 4 {
        return Some(NotEnoughData), ptr;
      }
      if b[0] / 64 != 1 {
        return Some(IgnoreError), ptr;
      }
      msgType := b[0] / 16 % 4;
      fields := {TypeField};
      var tokenLen := b[0] % 16;
      if tokenLen > 8 {
        return Some(FormatError), ptr;
      }
      codeClass, codeDetail := b[1] / 32, b[1] % 32;
      msgId := BE16(b[2..4]);
      fields := HEADER_FIELDS;
      if tokenLen != 0 {
        if ptr + tokenLen > |b| {
          return Some(NotEnoughData), ptr;
        }
        token := b[ptr..ptr + tokenLen];
        ptr := ptr + tokenLen;
        fields := fields + {TokenField};
      }
      assert token == b[4..4 + tokenLen];
      assert fields == HEADER_FIELDS + if tokenLen > 0 then {TokenField} else {};
      assert Values(nodes) == [];
      assert View() == Msg(b[0] / 16 % 4, b[1] / 32, b[1] % 32, BE16(b[2..4]), token, [], []);
    }

    /** Options and payload, from `ptr` on; `m` is the message so far. */
    method ParseRest(b: bytes, ptr: nat, ghost m: Msg, ghost r: ParseResult) returns (error: Option<Error>)
      requires Valid() && nodes == [] && repr == {} && payload == [] && ptr <= |b|
      requires m == View() && r == ParseBody(m, fields, b[ptr..])
      modifies this`options, this`optionsTail, this`nodes, this`repr, this`payload, this`fields
      ensures Valid()
      ensures r.Parsed? ==> error.None? && View() == r.msg && fields == r.fields
      ensures r.Rejected? ==> error == Some(r.error) && fields == r.fields
    {
      hide ParseBody, ReadOptions, InsertAll, Linked, Sorted, Values;
      error := None;
      if ptr == |b| {
        EmptyBody(m, fields);
        assert b[ptr..] == [];
        return;
      }
      ghost var all;
      var next;
      ghost var before := fields;
      error, next, all := GetOptions(b, ptr);
      BodyResult(m, before, b[ptr..], all, r);
      if error.None? {
        TakePayload(b, next, all.payload);
      }
    }

    /** "the rest is payload" */
    method TakePayload(b: bytes, next: Option<nat>, ghost rest: Option<bytes>)
      requires payload == [] && (next.Some? ==> next.value <= |b| && rest == Some(b[next.value..]))
      requires next.None? ==> rest.None?
      modifies this`payload, this`fields
      ensures payload == rest.GetOr([])
      ensures fields == old(fields) + {OptionField} + if payload != [] then {PayloadField} else {}
    {
      fields := fields + {OptionField};
      if next.Some? && next.value < |b| {
        payload := b[next.value..];
        fields := fields + {PayloadField};
      }
    }

    /** coap_get_options on the packet `b`: reads options into the list up to the
        payload marker or the end; `next` is where the payload begins, if marked. */
    method GetOptions(b: bytes, from: nat)
      returns (error: Option<Error>, next: Option<nat>, ghost all: OptionsResult)
      requires Valid() && nodes == [] && from <= |b|
      modifies this`options, this`optionsTail, this`nodes, this`repr, repr
      ensures Valid() && fresh(repr - old(repr))
      ensures all == ReadOptions(0, b[from..])
      ensures error.Some? ==> all == BadOptions(error.value) && nodes == []
      ensures error.None? ==> all.Options? && Values(nodes) == InsertAll([], all.os)
      ensures error.None? ==> (all.payload.Some? <==> next.Some?)
      ensures error.None? && next.Some? ==> next.value <= |b| && all.payload == Some(b[next.value..])
    {
      hide ReadOptions, InsertAll, Values, Sorted, Linked;
      var ptr;
      next := None;
      error, ptr, all := ReadAllOptions(b, from);
      if error.Some? {
        FreeOptions();
      } else if ptr < |b| {
        next := Some(ptr + 1);
      }
    }

    /** The loop of coap_get_options; it stops at the marker, at the end, or on an error. */
    method ReadAllOptions(b: bytes, from: nat)
      returns (error: Option<Error>, ptr: nat, ghost all: OptionsResult)
      requires Valid() && nodes == [] && from <= |b|
      modifies this`options, this`optionsTail, this`nodes, this`repr, repr
      ensures Valid() && fresh(repr - old(repr)) && ptr <= |b|
      ensures all == ReadOptions(0, b[from..])
      ensures error.Some? ==> all == BadOptions(error.value)
      ensures error.None? ==> all.Options? && Values(nodes) == InsertAll([], all.os)
      ensures error.None? && ptr < |b| ==> all.payload == Some(b[ptr + 1..])
      ensures error.None? && ptr == |b| ==> all.payload.None?
    {
      ghost var read;
      var prev;
      all := ReadOptions(0, b[from..]);
      assert Values(nodes) == [] && all == PrependAll([], all);
      error, ptr, prev, read := OptionsLoop(b, from, all);
      if error.None? {
        ReadToEnd(b, ptr, prev, all, read);
      }
    }

    method OptionsLoop(b: bytes, from: nat, ghost all: OptionsResult)
      returns (error: Option<Error>, ptr: nat, prev: nat, ghost read: seq<Opt>)
      requires Valid() && nodes == [] && from <= |b|
      requires Values(nodes) == InsertAll([], []) && all == PrependAll([], ReadOptions(0, b[from..]))
      modifies this`options, this`optionsTail, this`nodes, this`repr, repr
      ensures Valid() && fresh(repr - old(repr)) && ptr <= |b| && prev < TWO16
      ensures error.Some? ==> all == BadOptions(error.value)
      ensures error.None? ==> (ptr < |b| ==> b[ptr] == 0xFF) && Values(nodes) == InsertAll([], read)
      ensures error.None? ==> all == PrependAll(read, ReadOptions(prev, b[ptr..]))
    {
      error, ptr, prev, read := None, from, 0, [];
      while error.None? && ptr < |b| && b[ptr] != 0xFF
        invariant from <= ptr <= |b| && prev < TWO16 && Valid() && fresh(repr - old(repr))
        invariant error.Some? ==> all == BadOptions(error.value)
        invariant error.None? ==> Values(nodes) == InsertAll([], read)
        invariant error.None? ==> all == PrependAll(read, ReadOptions(prev, b[ptr..]))
        decreases error.None?, |b| - ptr
      {
        error, prev, ptr, read := GetOption(b, ptr, prev, all, read);
      }
    }

    /** One turn of the loop in coap_get_options. */
    method GetOption(b: bytes, at: nat, prev: nat, ghost all: OptionsResult, ghost read: seq<Opt>)
      returns (error: Option<Error>, number: nat, ptr: nat, ghost more: seq<Opt>)
      requires Valid() && at < |b| && b[at] != 0xFF && prev < TWO16
      requires Values(nodes) == InsertAll([], read)
      requires all == PrependAll(read, ReadOptions(prev, b[at..]))
      modifies this`options, this`optionsTail, this`nodes, this`repr, repr
      ensures Valid() && fresh(repr - old(repr))
      ensures number < TWO16 && at <= ptr <= |b|
      ensures error.Some? ==> all == BadOptions(error.value)
      ensures error.None? ==>
        && at < ptr && Values(nodes) == InsertAll([], more)
        && all == PrependAll(more, ReadOptions(number, b[ptr..]))
    {
      ghost var s := b[at..];
      ReadOptionsCases(prev, s);
      hide ReadOptions, ReadOption, Insert, InsertAll, Linked, Values, Sorted;
      var o, overrun;
      error, ptr, o, overrun := TakeOption(b, at, prev);
      number, more := o.number, read;
      if error.None? || overrun {
        var added := AddOption(o.number, o.value);
      }
      if error.None? {
        PrependOne(read, o, ReadOptions(number, b[ptr..]));
        InsertAllAppend([], read, o);
        more := read + [o];
      }
    }

    /** mg_coap_free_options */
    method FreeOptions()
      requires Valid()
      modifies this`options, this`nodes
      ensures Valid() && nodes == []
    {
      while options != null
        invariant Valid()
        decreases |nodes|
      {
        options := options.next;
        nodes := nodes[1..];
      }
    }

    method WritePacket(a: array<byte>, at: nat)
      requires Valid() && Composable(View()) && at + |Encode(View())| <= a.Length
      modifies a
      ensures a[..at + |Encode(View())|] == old(a[..at]) + Encode(View())
    {
      hide EncodeOptions, Codable, Values, Linked, Coap.Header, Tail;
      EncodeParts(View());
      ghost var front, h, o := a[..at], Coap.Header(View()), EncodeOptions(0, Values(nodes));
      var ptr := PutHeader(a, at);
      ptr := Put(a, ptr, token);
      ptr := PutOptions(a, ptr);
      ptr := PutPayload(a, ptr);
      assert front + h + token + o + Tail(payload) == front + (h + token + o + Tail(payload));
    }

    method PutHeader(a: array<byte>, at: nat) returns (ptr: nat)
      requires Valid() && Composable(View()) && at + 4 <= a.Length
      modifies a
      ensures ptr == at + 4 && a[..ptr] == old(a[..at]) + Coap.Header(View())
    {
      var t: int, c: int := msgType, codeClass;
      ptr := Put(a, at, [64 + t * 16 + |token|]);
      ptr := Put(a, ptr, [c * 32 + codeDetail]);
      ptr := Put(a, ptr, ToBE16(msgId));
    }

    method PutPayload(a: array<byte>, at: nat) returns (ptr: nat)
      requires at + |Tail(payload)| <= a.Length
      modifies a
      ensures ptr == at + |Tail(payload)| && a[..ptr] == old(a[..at]) + Tail(payload)
    {
      ptr := at;
      if payload != [] {
        ghost var front := a[..at];
        ptr := Put(a, ptr, [0xFF]);
        ptr := Put(a, ptr, payload);
        Assoc(front, [0xFF], payload);
      } else {
        assert a[..at] + [] == a[..at];
      }
    }

    method PutOptions(a: array<byte>, at: nat) returns (ptr: nat)
      requires Valid() && Codable(0, Values(nodes))
      requires at + |EncodeOptions(0, Values(nodes))| <= a.Length
      modifies a
      ensures ptr == at + |EncodeOptions(0, Values(nodes))|
      ensures a[..ptr] == old(a[..at]) + EncodeOptions(0, Values(nodes))
    {
      ghost var os, front := Values(nodes), a[..at];
      var opt, prevNumber := options, 0;
      ptr := at;
      ghost var i := 0;
      assert os[..0] == [];
      while opt != null
        invariant 0 <= i <= |nodes| && opt == At(nodes, i)
        invariant prevNumber == LastNumber(0, os[..i]) && Codable(0, os[..i])
        invariant ptr == at + |EncodeOptions(0, os[..i])| <= a.Length
        invariant a[..ptr] == front + EncodeOptions(0, os[..i])
        decreases |nodes| - i
      {
        ptr := PutNext(a, ptr, opt, prevNumber, os, i, front);
        prevNumber := opt.number;
        opt := opt.next;
        i := i + 1;
      }
      assert os[..i] == os;
    }
  }

  /** The i-th turn of the loop in mg_coap_compose. */
  method PutNext(a: array<byte>, at: nat, opt: OptionNode, prevNumber: nat,
                 ghost os: seq<Opt>, ghost i: nat, ghost front: bytes)
    returns (ptr: nat)
    requires Sorted(os) && Codable(0, os) && i < |os| && os[i] == Opt(opt.number, opt.value)
    requires Codable(0, os[..i]) && prevNumber == LastNumber(0, os[..i])
    requires |front| + |EncodeOptions(0, os)| <= a.Length
    requires at == |front| + |EncodeOptions(0, os[..i])| <= a.Length
    requires a[..at] == front + EncodeOptions(0, os[..i])
    modifies a
    ensures Codable(0, os[..i + 1]) && opt.number == LastNumber(0, os[..i + 1])
    ensures ptr == |front| + |EncodeOptions(0, os[..i + 1])| <= a.Length
    ensures a[..ptr] == front + EncodeOptions(0, os[..i + 1])
  {
    hide EncodeOptions, Codable, EncodeOption, Sorted, LastNumber;
    NextOption(os, i);
    PrefixFits(os, i + 1);
    ptr := PutOption(a, at, opt.number - prevNumber, opt.value);
  }

  // ---------------------------------------------------------------- parsing

  /** coap_get_ext_opt; `n` is -1 when the extension is cut off. */
  method ReadInfoAt(b: bytes, ptr: nat, nibble: nat) returns (value: nat, n: int)
    requires ptr <= |b| && nibble < 15
    ensures ReadInfo(nibble, b[ptr..]).None? <==> n == -1
    ensures ReadInfo(nibble, b[ptr..]).Some? ==> ReadInfo(nibble, b[ptr..]).value == (value, n)
  {
    value, n := nibble, 0;
    if nibble == 13 {
      if ptr < |b| {
        value := (b[ptr] as int) + 13;
        n := 1;
      } else {
        n := -1;
      }
    } else if nibble == 14 {
      if ptr + 1 < |b| {
        DropSlice(b, ptr, 2);
        value := U16(BE16(b[ptr..ptr + 2]) + 269);
        n := 2;
      } else {
        n := -1;
      }
    }
  }

  /** Delta and length of the option at `ptr`. */
  method ReadHeadAt(b: bytes, ptr: nat) returns (h: OptionHead, next: nat)
    requires ptr < |b|
    ensures h == ReadHead(b[ptr..]) && next <= |b|
    ensures h.OptionHead? ==> ptr < next <= |b| && h.rest == b[next..]
  {
    hide ReadInfo, ReadHead;
    HeadCases(b[ptr..]);
    var deltaNibble := b[ptr] / 16;
    var lengthNibble := b[ptr] % 16;
    next := ptr + 1;
    if deltaNibble == 15 || lengthNibble == 15 {
      return BadHead(FormatError), next;
    }
    DropSlice(b, ptr, 1);
    var delta, n := ReadInfoAt(b, next, deltaNibble);
    if n == -1 {
      return BadHead(NotEnoughData), next;
    }
    DropSlice(b, next, n);
    next := next + n;
    var length, k := ReadInfoAt(b, next, lengthNibble);
    if k == -1 {
      return BadHead(NotEnoughData), next;
    }
    DropSlice(b, next, k);
    next := next + k;
    h := OptionHead(delta, length, b[next..]);
  }

  /** The reading half of the loop body of coap_get_options. An option whose value
      overruns the packet is reported only after it has been added to the list. */
  method TakeOption(b: bytes, from: nat, prev: nat)
    returns (error: Option<Error>, ptr: nat, o: Opt, overrun: bool)
    requires from < |b| && b[from] != 0xFF && prev < TWO16
    ensures o.number < TWO16 && from <= ptr <= |b| && (overrun ==> error.Some?)
    ensures error.Some? ==> ReadOption(prev, b[from..]) == BadOption(error.value)
    ensures error.None? ==> from < ptr && ReadOption(prev, b[from..]) == GoodOption(o, b[ptr..])
  {
    hide ReadHead, ReadOption, U16;
    error, ptr, o, overrun := None, from, Opt(0, []), false;
    OptionCases(prev, b[from..]);
    var h, p := ReadHeadAt(b, from);
    if h.BadHead? {
      error := Some(h.error);
      return;
    }
    var number := U16(h.delta + prev);
    if p + h.length > |b| {
      error, overrun := Some(NotEnoughData), true;
      ptr, o := |b|, Opt(number, b[p..]);
    } else {
      ptr := p + h.length;
      o := Opt(number, b[p..ptr]);
      DropSlice(b, p, h.length);
    }
  }

  function PrependAll(os: seq<Opt>, r: OptionsResult): OptionsResult {
    if r.BadOptions? then r else Options(os + r.os, r.payload)
  }

  lemma {:induction false} InsertAllAppend(os: seq<Opt>, more: seq<Opt>, o: Opt)
    ensures InsertAll(os, more + [o]) == Insert(InsertAll(os, more), o)
    decreases |more|
  {
    hide Insert;
    if more == [] {
      assert (more + [o])[1..] == [];
    } else {
      InsertAllAppend(Insert(os, more[0]), more[1..], o);
      assert (more + [o])[1..] == more[1..] + [o];
    }
  }

  lemma PrependOne(read: seq<Opt>, o: Opt, r: OptionsResult)
    ensures PrependAll(read, Prepended(o, r)) == PrependAll(read + [o], r)
  {
    if r.Options? {
      assert read + ([o] + r.os) == (read + [o]) + r.os;
    }
  }

  lemma EmptyBody(m: Msg, fields: set<Field>)
    ensures ParseBody(m, fields, []) == Parsed(m, fields)
  {
  }

  lemma BodyResult(m: Msg, fields: set<Field>, s: bytes, all: OptionsResult, r: ParseResult)
    requires s != [] && all == ReadOptions(0, s) && r == ParseBody(m, fields, s)
    ensures all.BadOptions? ==> r == Rejected(all.error, fields)
    ensures all.Options? ==>
      var p := all.payload.GetOr([]);
      r == Parsed(Msg(m.msgType, m.codeClass, m.codeDetail, m.msgId, m.token, InsertAll([], all.os), p),
                  fields + {OptionField} + if p != [] then {PayloadField} else {})
  {
    hide ReadOptions;
  }

  lemma ReadOptionsCases(prev: nat, s: bytes)
    requires prev < TWO16 && s != [] && s[0] != 0xFF
    ensures ReadOption(prev, s).BadOption? ==> ReadOptions(prev, s) == BadOptions(ReadOption(prev, s).error)
    ensures ReadOption(prev, s).GoodOption? ==>
      ReadOptions(prev, s)
      == Prepended(ReadOption(prev, s).o, ReadOptions(ReadOption(prev, s).o.number, ReadOption(prev, s).rest))
  {
  }

  lemma ReadToEnd(b: bytes, ptr: nat, prev: nat, all: OptionsResult, read: seq<Opt>)
    requires ptr <= |b| && prev < TWO16 && (ptr < |b| ==> b[ptr] == 0xFF)
    requires all == PrependAll(read, ReadOptions(prev, b[ptr..]))
    ensures all.Options? && all.os == read
    ensures ptr < |b| ==> all.payload == Some(b[ptr + 1..])
    ensures ptr == |b| ==> all.payload.None?
  {
    if ptr < |b| {
      DropSlice(b, ptr, 1);
    }
    assert read + [] == read;
  }

  lemma PrefixFits(os: seq<Opt>, k: nat)
    requires Codable(0, os) && k <= |os|
    ensures Codable(0, os[..k]) && |EncodeOptions(0, os[..k])| <= |EncodeOptions(0, os)|
  {
    hide EncodeOptions, Codable;
    EncodeSplit(0, os[..k], os[k..]);
    assert os == os[..k] + os[k..];
  }

  /** The writes for one option in mg_coap_compose. */
  method PutOption(a: array<byte>, at: nat, delta: nat, value: bytes) returns (ptr: nat)
    requires delta <= MAX_INFO && |value| <= MAX_INFO
    requires at + |EncodeOption(delta, value)| <= a.Length
    modifies a
    ensures ptr == at + |EncodeOption(delta, value)|
    ensures a[..ptr] == old(a[..at]) + EncodeOption(delta, value)
  {
    var deltaBase, deltaExt := SplitInfo(delta);
    var lengthBase, lengthExt := SplitInfo(|value|);
    var b: int, c: int := deltaBase, lengthBase;
    ptr := Put(a, at, [b * 16 + c]);
    ptr := Put(a, ptr, deltaExt);
    ptr := Put(a, ptr, lengthExt);
    ptr := Put(a, ptr, value);
  }

  /** coap_split_opt, with the bytes coap_add_opt_info makes of the extension. */
  method SplitInfo(v: nat) returns (base: byte, ext: bytes)
    requires v <= MAX_INFO
    ensures base == InfoBase(v) && ext == InfoExt(v)
  {
    if v < 13 {
      base, ext := v, [];
    } else if v <= 0xFF + 13 {
      base, ext := 13, [v - 13];
    } else {
      base, ext := 14, ToBE16(v - 269);
    }
  }

  lemma EncodeParts(m: Msg)
    requires Composable(m)
    ensures Encode(m) == Coap.Header(m) + m.token + EncodeOptions(0, m.options) + Tail(m.payload)
    ensures |Encode(m)| == 4 + |m.token| + |EncodeOptions(0, m.options)| + |Tail(m.payload)|
  {
  }

  /** One more option: when it can be coded, and what that costs. */
  lemma NextOption(os: seq<Opt>, i: nat)
    requires Sorted(os) && i < |os| && Codable(0, os[..i])
    ensures var prev := LastNumber(0, os[..i]);
      && prev <= os[i].number == LastNumber(0, os[..i + 1])
      && (i + 1 < |os| ==> os[i].number <= os[i + 1].number)
      && (if os[i].number <= prev + MAX_INFO && |os[i].value| <= MAX_INFO then
            && Codable(0, os[..i + 1])
            && EncodeOptions(0, os[..i + 1])
               == EncodeOptions(0, os[..i]) + EncodeOption(os[i].number - prev, os[i].value)
            && |EncodeOption(os[i].number - prev, os[i].value)|
               == 1 + ExtSize(os[i].number - prev) + ExtSize(|os[i].value|) + |os[i].value|
          else !Codable(0, os))
  {
    hide EncodeOptions, EncodeOption, Codable;
    var prev := LastNumber(0, os[..i]);
    if i > 0 {
      assert os[i - 1].number <= os[i].number;
    }
    assert os[..i + 1] == os[..i] + [os[i]];
    EncodeSplit(0, os[..i], [os[i]]);
    EncodeSplit(0, os[..i + 1], os[i + 1..]);
    assert os == os[..i + 1] + os[i + 1..];
    EncodeSingle(prev, os[i]);
    if os[i].number <= prev + MAX_INFO && |os[i].value| <= MAX_INFO {
      EncodedSize(os[i].number - prev, os[i].value);
    }
  }

  /** coap_get_ext_opt_size */
  function ExtSize(v: nat): nat {
    if 13 <= v <= 0xFF + 13 then 1 else if 0xFF + 13 < v <= MAX_INFO then 2 else 0
  }

  /** The first check that fails. */
  ghost function BadField(m: Msg): Option<Field> {
    if m.msgType > 3 then Some(TypeField)
    else if |m.token| > 8 then Some(TokenField)
    else if m.codeClass > 7 then Some(CodeClassField)
    else if m.codeDetail > 31 then Some(CodeDetailField)
    else if !Codable(0, m.options) then Some(OptionField)
    else None
  }

  function LastNumber(prev: nat, os: seq<Opt>): nat {
    if os == [] then prev else os[|os| - 1].number
  }

  lemma {:induction false} EncodeSplit(prev: nat, a: seq<Opt>, b: seq<Opt>)
    ensures Codable(prev, a + b) <==> Codable(prev, a) && Codable(LastNumber(prev, a), b)
    ensures Codable(prev, a + b) ==>
      EncodeOptions(prev, a + b) == EncodeOptions(prev, a) + EncodeOptions(LastNumber(prev, a), b)
    decreases |a|
  {
    hide EncodeOption, MAX_INFO, Codable, EncodeOptions;
    if a == [] {
      assert a + b == b;
      NothingCoded(prev);
      if Codable(prev, b) {
        assert [] + EncodeOptions(prev, b) == EncodeOptions(prev, b);
      }
    } else {
      EncodeSplit(a[0].number, a[1..], b);
      assert (a + b)[1..] == a[1..] + b && (a + b)[0] == a[0];
      FirstCoded(prev, a + b);
      FirstCoded(prev, a);
      if Codable(prev, a + b) {
        Assoc(EncodeOption(a[0].number - prev, a[0].value), EncodeOptions(a[0].number, a[1..]),
              EncodeOptions(LastNumber(prev, a), b));
      }
    }
  }

  lemma FirstCoded(prev: nat, os: seq<Opt>)
    requires os != []
    ensures Codable(prev, os)
            <==> prev <= os[0].number <= prev + MAX_INFO && |os[0].value| <= MAX_INFO && Codable(os[0].number, os[1..])
    ensures Codable(prev, os) ==>
      EncodeOptions(prev, os)
      == EncodeOption(os[0].number - prev, os[0].value) + EncodeOptions(os[0].number, os[1..])
  {
    hide EncodeOption;
  }

  lemma EncodedSize(delta: nat, value: bytes)
    requires delta <= MAX_INFO && |value| <= MAX_INFO
    ensures |EncodeOption(delta, value)| == 1 + ExtSize(delta) + ExtSize(|value|) + |value|
  {
  }

  lemma EncodeSingle(prev: nat, o: Opt)
    ensures Codable(prev, [o]) <==> prev <= o.number <= prev + MAX_INFO && |o.value| <= MAX_INFO
    ensures Codable(prev, [o]) ==> EncodeOptions(prev, [o]) == EncodeOption(o.number - prev, o.value)
  {
    assert [o][1..] == [];
    if Codable(prev, [o]) {
      assert EncodeOption(o.number - prev, o.value) + [] == EncodeOption(o.number - prev, o.value);
    }
  }
}
