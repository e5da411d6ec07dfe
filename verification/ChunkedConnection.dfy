/** Chunked decoding in place: the data of each chunk is moved up against the decoded part
    of the body, inside the receive mbuf. */
module ChunkedConnection {
  import opened Wrappers
  import opened Bytes
  import opened Chunked

  /** mg_http_parse_chunk, on the bytes to be decoded: 0 unless a whole chunk is there. */
  method ParseChunkAt(s: bytes) returns (total: nat, data: nat, length: nat, overflow: bool)
    ensures
      match ParseChunk(s)
      case NoChunk => total == 0 && !overflow
      case Overflow => total == 0 && overflow
      case Chunk(d, t) =>
        && total == t && !overflow && data + length + 2 == total <= |s| && s[data..data + length] == d
  {
    hide HexValue;
    total, data, length, overflow := 0, 0, 0, false;
    var n: nat, i := 0, 0;
    while i < |s| && HexValue(s[i]).Some?
      invariant 0 <= i <= |s|
      invariant
        var (v, l) := ReadHex(s[i..], n);
        ReadHex(s, 0) == (v, l + i)
    {
      assert s[i..][0] == s[i] && s[i..][1..] == s[i + 1..];
      n := n * 16 + HexValue(s[i]).value;
      i := i + 1;
    }
    assert i < |s| ==> s[i..][0] == s[i];
    if i == 0 || !LineEndAt(s, i) {
      return;
    }
    if n + i + 4 >= TWO64 {
      overflow := true;
      return;
    }
    i := i + 2;
    data, length := i, n;
    i := i + n;
    if !LineEndAt(s, i) {
      return;
    }
    total := i + 2;
  }

  /** While chunks are collapsed: the body with the data found so far up to `lo`, and the
      text behind them from `hi` on. */
  ghost predicate Collapsed(contents: bytes, lo: nat, hi: nat, raw: bytes, before: bytes, found: Traversal) {
    && lo <= hi <= |contents| && found.consumed <= |raw|
    && contents[hi..] == raw[found.consumed..] && contents[..lo] == before + found.data
  }

  ghost predicate Found(raw: bytes, found: Traversal, zero: bool, more: bool) {
    && found.consumed <= |raw|
    && if more then !zero && Traverse(raw) == Join(found, Traverse(raw[found.consumed..]))
       else Traverse(raw) == found.(zero := zero, overflow := Traverse(raw).overflow)
  }

  lemma CollapsedMore(was: bytes, now: bytes, lo: nat, hi: nat, raw: bytes, before: bytes, found: Traversal,
                      data: nat, size: nat, total: nat)
    requires Collapsed(was, lo, hi, raw, before, found) && |now| == |was|
    requires data + size <= total && hi + total <= |was|
    requires now[..lo + size] == was[..lo] + was[hi..][data..data + size] && now[hi + total..] == was[hi..][total..]
    ensures
      Collapsed(now, lo + size, hi + total, raw, before,
                Traversal(found.data + raw[found.consumed..][data..data + size], found.consumed + total, false, false))
  {
    Assoc(before, found.data, raw[found.consumed..][data..data + size]);
    DropSlice(raw, found.consumed, total);
  }

  lemma FoundLast(raw: bytes, found: Traversal)
    requires Found(raw, found, false, true)
    requires ParseChunk(raw[found.consumed..]).NoChunk? || ParseChunk(raw[found.consumed..]).Overflow?
    ensures Found(raw, found, false, false)
  {
    hide ParseChunk, Traverse;
    TraverseCases(raw[found.consumed..]);
    assert found.data + [] == found.data;
  }

  lemma FoundMore(raw: bytes, found: Traversal, d: bytes, total: nat)
    requires Found(raw, found, false, true) && ParseChunk(raw[found.consumed..]) == Chunk(d, total)
    ensures found.consumed + total <= |raw|
    ensures Found(raw, Traversal(found.data + d, found.consumed + total, false, false), d == [], d != [])
  {
    hide ParseChunk, Traverse;
    var s := raw[found.consumed..];
    TraverseCases(s);
    DropSlice(raw, found.consumed, total);
    if d == [] {
      assert found.data + [] == found.data;
    } else {
      JoinAssoc(found, Traversal(d, total, false, false), Traverse(s[total..]));
    }
  }

  class Connection {
    const recv: Mbuf
    /** Where the body starts, behind the headers. */
    const bodyStart: nat
    /** pd->chunk.body_len */
    var bodyLength: nat
    /** What MG_EV_HTTP_CHUNK was raised with, and what the handler had deleted. */
    ghost var deleted: bytes
    var chunkEvents: seq<bytes>

    ghost predicate Valid()
      reads this, recv, recv.buf
    {
      recv.Valid() && bodyStart + bodyLength <= recv.len
    }

    ghost function Abs(): Area
      reads this, recv, recv.buf
      requires Valid()
    {
      Area(deleted, recv.Contents()[bodyStart..bodyStart + bodyLength], recv.Contents()[bodyStart + bodyLength..])
    }

    constructor (recv: Mbuf, bodyStart: nat)
      requires recv.Valid() && bodyStart == recv.len
      ensures this.recv == recv && this.bodyStart == bodyStart && Valid() && Abs() == Area([], [], [])
    {
      this.recv, this.bodyStart, bodyLength, deleted, chunkEvents := recv, bodyStart, 0, [], [];
    }
  
    /** The loop of mg_handle_chunked: each chunk's data is moved behind the body, up to the
        first chunk that is incomplete or empty. */
    method Collapse() returns (i: nat, length: nat, zero: bool)
      requires Valid()
      modifies recv.buf
      ensures Valid() && recv.buf == old(recv.buf) && recv.len == old(recv.len)
      ensures
        var t := Traverse(old(Abs().raw));
        && i == bodyLength + t.consumed && length == bodyLength + |t.data| && zero == t.zero
        && recv.Contents()[..bodyStart + length] == old(recv.Contents()[..bodyStart + bodyLength]) + t.data
        && recv.Contents()[bodyStart + i..] == old(Abs().raw)[t.consumed..]
    {
      hide Traverse, ParseChunk, Join;
      ghost var raw, before := Abs().raw, recv.Contents()[..bodyStart + bodyLength];
      ghost var found := Traversal([], 0, false, false);
      i, length, zero := bodyLength, bodyLength, false;
      JoinNothing(Traverse(raw));
      assert raw[0..] == raw && before + [] == before;
      var more := true;
      while more
        invariant Valid() && recv.buf == old(recv.buf) && recv.len == old(recv.len) && bodyLength <= length <= i
        invariant i == bodyLength + found.consumed && length == bodyLength + |found.data|
        invariant Collapsed(recv.Contents(), bodyStart + length, bodyStart + i, raw, before, found)
        invariant Found(raw, found, zero, more)
        decreases recv.len - bodyStart - i, more
      {
        i, length, zero, more, found := CollapseOne(i, length, raw, before, found);
      }
    }

    method CollapseOne(i: nat, length: nat, ghost raw: bytes, ghost before: bytes, ghost found: Traversal)
      returns (i': nat, length': nat, zero: bool, more: bool, ghost found': Traversal)
      requires recv.Valid() && length <= i && bodyStart + i <= recv.len
      requires Collapsed(recv.Contents(), bodyStart + length, bodyStart + i, raw, before, found)
      requires Found(raw, found, false, true)
      modifies recv.buf
      ensures i <= i' && length <= length' <= i' && bodyStart + i' <= recv.len && (more ==> i < i')
      ensures i' - i == found'.consumed - found.consumed && length' - length == |found'.data| - |found.data|
      ensures Collapsed(recv.Contents(), bodyStart + length', bodyStart + i', raw, before, found')
      ensures Found(raw, found', zero, more)
    {
      hide Traverse, ParseChunk, Join, Found;
      var total, data, size, overflow := ParseChunkAt(recv.buf[bodyStart + i..recv.len]);
      assert recv.buf[bodyStart + i..recv.len] == raw[found.consumed..];
      i', length', zero, more, found' := i, length, false, false, found;
      if total == 0 {
        FoundLast(raw, found);
        return;
      }
      ghost var d := raw[found.consumed..][data..data + size];
      FoundMore(raw, found, d, total);
      found' := Traversal(found.data + d, found.consumed + total, false, false);
      MoveData(bodyStart + length, bodyStart + i, data, size, total, raw, before, found);
      i', length' := i + total, length + size;
      zero, more := size == 0, size != 0;
    }

    /** The memmove of one chunk's data. */
    method MoveData(lo: nat, hi: nat, data: nat, size: nat, total: nat,
                    ghost raw: bytes, ghost before: bytes, ghost found: Traversal)
      requires recv.Valid() && Collapsed(recv.Contents(), lo, hi, raw, before, found)
      requires data + size <= total && hi + total <= recv.len
      modifies recv.buf
      ensures
        Collapsed(recv.Contents(), lo + size, hi + total, raw, before,
                  Traversal(found.data + raw[found.consumed..][data..data + size], found.consumed + total,
                            false, false))
    {
      ghost var full := recv.buf[..];
      assert full[..recv.len] == recv.Contents();
      MemMove(recv.buf, lo, hi + data, size);
      MovedDown(full, recv.buf[..], recv.len, lo, hi, data, size, total);
      assert recv.Contents() == recv.buf[..][..recv.len];
      CollapsedMore(full[..recv.len], recv.Contents(), lo, hi, raw, before, found, data, size, total);
    }

    /** mg_handle_chunked, with the handler's answer to MG_EV_HTTP_CHUNK. */
    method HandleChunked(delete: bool)
      requires Valid()
      modifies this, recv, recv.buf
      ensures Valid() && recv.buf == old(recv.buf)
      ensures Abs() == Handle(old(Abs()), delete)
      ensures recv.Contents()[..bodyStart] == old(recv.Contents()[..bodyStart])
      ensures
        var t, body := Traverse(old(Abs().raw)), old(Abs().body);
        && chunkEvents == old(chunkEvents) + (if t.consumed > 0 then [body + t.data] else [])
        && recv.len == old(recv.len) - (t.consumed - |t.data|)
                       - if t.consumed > 0 && delete then |body + t.data| else 0
    {
      hide Traverse, Mbuf.Contents;
      ghost var a, t, was := Abs(), Traverse(Abs().raw), recv.Contents();
      var i, length, zero := Collapse();
      ghost var now := recv.Contents();
      CollapsedLayout(was, now, bodyStart, bodyLength, t.data);
      if i > length {
        Shift(i, length);
        ShiftedParts(now, recv.Contents(), bodyStart, length, i);
        if delete {
          DeleteBody();
        }
      } else {
        NothingTaken(was, now, bodyStart + bodyLength, t.data);
        assert a.body + [] == a.body && a.raw[0..] == a.raw;
      }
    }

    /** Undecoded bytes are moved up to the body, and the handler is told. */
    method Shift(i: nat, length: nat)
      requires recv.Valid() && length < i && bodyStart + i <= recv.len
      modifies this`bodyLength, this`chunkEvents, recv, recv.buf
      ensures Valid() && recv.buf == old(recv.buf) && bodyLength == length && recv.len == old(recv.len) - (i - length)
      ensures recv.Contents() == old(recv.Contents()[..bodyStart + length] + recv.Contents()[bodyStart + i..])
      ensures chunkEvents == old(chunkEvents) + [old(recv.Contents())[bodyStart..bodyStart + length]]
    {
      hide Moved;
      ghost var full, n := recv.buf[..], recv.len;
      assert recv.Contents() == full[..n] == full[0..n];
      SliceOfSlice(full, 0, n, bodyStart, bodyStart + length);
      chunkEvents := chunkEvents + [recv.buf[bodyStart..bodyStart + length]];
      MemMove(recv.buf, bodyStart + length, bodyStart + i, recv.len - bodyStart - i);
      ShiftedLayout(full, recv.buf[..], n, bodyStart, length, i);
      recv.len := recv.len - (i - length);
      assert recv.Contents() == recv.buf[..][..recv.len];
      bodyLength := length;
    }

    /** The handler wants the decoded bytes gone. */
    method DeleteBody()
      requires Valid()
      modifies this, recv, recv.buf
      ensures Valid() && recv.buf == old(recv.buf) && recv.len == old(recv.len) - old(bodyLength)
      ensures Abs() == Area(old(Abs()).deleted + old(Abs()).body, [], old(Abs()).raw)
      ensures recv.Contents()[..bodyStart] == old(recv.Contents()[..bodyStart]) && chunkEvents == old(chunkEvents)
    {
      hide Moved;
      ghost var full, n, body := recv.buf[..], recv.len, Abs().body;
      assert full[..n] == recv.Contents();
      MemMove(recv.buf, bodyStart, bodyStart + bodyLength, recv.len - bodyStart - bodyLength);
      ShiftedLayout(full, recv.buf[..], n, bodyStart, 0, bodyLength);
      deleted := deleted + body;
      recv.len := recv.len - bodyLength;
      assert recv.Contents() == recv.buf[..][..recv.len];
      bodyLength := 0;
    }
  }

  lemma MovedDown(full: bytes, now: bytes, len: nat, dst: nat, src: nat, data: nat, size: nat, total: nat)
    requires dst <= src && data + size <= total && src + total <= len <= |full|
    requires now == Moved(full, dst, src + data, size)
    ensures |now| == |full|
    ensures now[..len][..dst + size] == full[..len][..dst] + full[..len][src..][data..data + size]
    ensures now[..len][src + total..] == full[..len][src..][total..]
  {
    assert full[..len][src..] == full[src..len];
    SliceOfSlice(full, src, len, data, data + size);
    MovedFront(full, now, len, dst, src + data, size);
    MovedBehind(full, now, len, dst, src + data, size, src + total);
  }

  lemma MovedFront(full: bytes, now: bytes, len: nat, dst: nat, from: nat, size: nat)
    requires dst + size <= len <= |full| && from + size <= |full| && now == Moved(full, dst, from, size)
    ensures |now| == |full| && now[..len][..dst + size] == full[..len][..dst] + full[from..from + size]
  {
    assert now[..len][..dst + size] == now[..dst + size];
    assert full[..len][..dst] == full[..dst];
  }

  lemma MovedBehind(full: bytes, now: bytes, len: nat, dst: nat, from: nat, size: nat, at: nat)
    requires dst + size <= at <= len <= |full| && from + size <= |full| && now == Moved(full, dst, from, size)
    ensures |now| == |full| && now[..len][at..] == full[..len][at..]
  {
    forall k | 0 <= k < len - at ensures now[..len][at..][k] == full[..len][at..][k] {
      assert now[at + k] == full[at + k];
    }
  }

  lemma CollapsedLayout(was: bytes, now: bytes, base: nat, bodyLength: nat, data: bytes)
    requires base + bodyLength <= |was| && base + bodyLength + |data| <= |now|
    requires now[..base + bodyLength + |data|] == was[..base + bodyLength] + data
    ensures now[..base] == was[..base]
    ensures now[base..base + bodyLength + |data|] == was[base..base + bodyLength] + data
  {
    var n := base + bodyLength + |data|;
    assert now[..base] == now[..n][..base] && now[base..n] == now[..n][base..];
  }

  lemma ShiftedLayout(full: bytes, now: bytes, len: nat, base: nat, length: nat, i: nat)
    requires length <= i && base + i <= len <= |full|
    requires now == Moved(full, base + length, base + i, len - base - i)
    ensures |now| == |full|
    ensures now[..len - (i - length)] == full[..len][..base + length] + full[..len][base + i..]
  {
  }

  lemma NothingTaken(was: bytes, now: bytes, n: nat, data: bytes)
    requires n <= |was| && n <= |now| && data == []
    requires now[..n] == was[..n] + data && now[n..] == was[n..]
    ensures was == now
  {
    assert was == was[..n] + was[n..] && now == now[..n] + now[n..];
  }

  lemma ShiftedParts(was: bytes, now: bytes, base: nat, length: nat, i: nat)
    requires base + length <= |was| && base + i <= |was| && now == was[..base + length] + was[base + i..]
    ensures now[..base] == was[..base] && now[base..base + length] == was[base..base + length]
    ensures now[base + length..] == was[base + i..]
  {
  }
}
