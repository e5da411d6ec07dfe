/** The hash contexts as the source keeps them: a state, a two-word bit counter and a
    64-byte buffer, fed in pieces of any size. */
module HashContext {
  import opened Bytes
  import opened Hash

  /** cs_sha1_ctx */
  class Sha1Context<S> {
    const f: Compress<S>
    const init: S
    var state: S
    var count0: nat
    var count1: nat
    const buffer: array<byte>

    /** The context has taken in the message `m`. */
    ghost predicate Valid(m: bytes)
      reads this, buffer
    {
      && buffer.Length == 64 && Counts(count0, count1, |m|)
      && state == Fold(f, init, m) && buffer[..|Tail(m)|] == Tail(m)
    }

    constructor (f: Compress<S>, init: S)
      ensures Valid([]) && this.f == f && this.init == init && fresh(buffer)
    {
      this.f, this.init, state, count0, count1 := f, init, init, 0, 0;
      buffer := new byte[64];
    }

    /** cs_sha1_update; longer pieces would overflow its 32-bit indices. */
    method Update(data: bytes, ghost m: bytes)
      requires Valid(m) && |data| + 64 <= TWO32
      modifies this`state, this`count0, this`count1, buffer
      ensures Valid(m + data)
    {
      hide Fold, Tail, Counts, AddWord, Carry;
      TailLength(m);
      CountBound(m);
      assert count0 < TWO32 by {
        WordBound(count0, count1, |m|);
      }
      CounterKept(count0, count1, |m|, |data|);
      FoldMore(f, init, m, data);
      var j := count0 / 8 % 64;
      count0, count1 := AddWord(count0, |data|), Carry(count0, count1, |data|);
      var i := 0;
      if j + |data| > 63 {
        i := Blocks(j, data, Tail(m));
        j := 0;
        assert buffer[..0] + data[i..] == data[i..];
      } else {
        FoldShort(f, state, Tail(m) + data);
        assert data[0..] == data;
      }
      var end := Put(buffer, j, data[i..]);
    }

    /** The complete blocks: the first one is made up in the buffer. */
    method Blocks(j: nat, data: bytes, ghost tail: bytes) returns (i: nat)
      requires buffer.Length == 64 && j < 64 && buffer[..j] == tail && j + |data| > 63
      modifies this`state, buffer
      ensures i <= |data| && |data| - i < 64
      ensures state == Fold(f, old(state), tail + data) && data[i..] == Tail(tail + data)
    {
      hide Fold, Tail;
      i := 64 - j;
      var end := Put(buffer, j, data[..i]);
      assert buffer[..] == buffer[..64] == tail + data[..i];
      state := f(state, buffer[..]);
      FoldBlock(f, old(state), tail + data[..i], data[i..]);
      assert tail + data[..i] + data[i..] == tail + data;
      while i + 63 < |data|
        invariant i <= |data|
        invariant Fold(f, old(state), tail + data) == Fold(f, state, data[i..]) && Tail(tail + data) == Tail(data[i..])
      {
        ghost var before := state;
        state := f(state, data[i..i + 64]);
        NextBlock(f, before, data, i);
        i := i + 64;
      }
      FoldShort(f, state, data[i..]);
    }

    /** cs_sha1_final, up to the state whose words are the digest: the message has been
        padded to whole blocks, byte by byte. */
    method Final(ghost m: bytes)
      requires Valid(m)
      modifies this`state, this`count0, this`count1, buffer
      ensures state == Fold(f, init, Padded(BigEndian, m)) && Valid(Padded(BigEndian, m))
    {
      hide Fold, Tail, Counts;
      var finalCount := FinalCount(m);
      Update([0x80], m);
      ghost var n := 0;
      assert m + [0x80] + Zeros(0) == m + [0x80];
      CountBound(m + [0x80] + Zeros(n));
      while count0 / 8 % 64 * 8 != 448
        invariant n <= ZeroCount(|m|) && Valid(m + [0x80] + Zeros(n))
        decreases ZeroCount(|m|) - n
      {
        CountBound(m + [0x80] + Zeros(n));
        Update([0], m + [0x80] + Zeros(n));
        assert m + [0x80] + Zeros(n) + [0] == m + [0x80] + Zeros(n + 1);
        n := n + 1;
      }
      CountBound(m + [0x80] + Zeros(n));
      OneResidue(|m|, n);
      Update(finalCount, m + [0x80] + Zeros(n));
    }

    method FinalCount(ghost m: bytes) returns (r: bytes)
      requires Valid(m)
      ensures r == BitLength(BigEndian, |m|)
    {
      r := ToBE32(count1) + ToBE32(count0);
    }

    lemma CountBound(m: bytes)
      requires Valid(m)
      ensures count0 / 8 % 64 == |m| % 64
    {
      Position(count0, count1, |m|);
    }
  }

  lemma NextBlock<S>(f: Compress<S>, s: S, data: bytes, i: nat)
    requires i + 64 <= |data|
    ensures Fold(f, s, data[i..]) == Fold(f, f(s, data[i..i + 64]), data[i + 64..])
    ensures Tail(data[i..]) == Tail(data[i + 64..])
  {
    FoldBlock(f, s, data[i..i + 64], data[i + 64..]);
    assert data[i..] == data[i..i + 64] + data[i + 64..];
  }

  lemma WordBound(count0: nat, count1: nat, length: nat)
    requires Counts(count0, count1, length)
    ensures count0 < TWO32 && count1 < TWO32
  {
  }

  /** Only one number of zero bytes below 64 reaches the place of the length. */
  lemma OneResidue(length: nat, n: nat)
    requires n <= ZeroCount(length) && (length + 1 + n) % 64 == 56
    ensures n == ZeroCount(length)
  {
    var d := ZeroCount(length) - n;
    assert (length + 1 + n + d) % 64 == (56 + d) % 64;
  }

  /** MD5_CTX */
  class Md5Context<S> {
    const f: Compress<S>
    const init: S
    var buf: S
    var bits0: nat
    var bits1: nat
    const data: array<byte>

    ghost predicate Valid(m: bytes)
      reads this, data
    {
      && data.Length == 64 && Counts(bits0, bits1, |m|)
      && buf == Fold(f, init, m) && data[..|Tail(m)|] == Tail(m)
    }

    constructor (f: Compress<S>, init: S)
      ensures Valid([]) && this.f == f && this.init == init && fresh(data)
    {
      this.f, this.init, buf, bits0, bits1 := f, init, init, 0, 0;
      data := new byte[64];
    }

    /** MD5_Update, whose length is cut to 32 bits for the counter. */
    method Update(s: bytes, ghost m: bytes)
      requires Valid(m) && |s| < TWO32
      modifies this`buf, this`bits0, this`bits1, data
      ensures Valid(m + s)
    {
      hide Fold, Tail, Counts, AddWord, Carry;
      ghost var tail := Tail(m);
      TailLength(m);
      Position(bits0, bits1, |m|);
      assert bits0 < TWO32 by {
        WordBound(bits0, bits1, |m|);
      }
      CounterKept(bits0, bits1, |m|, |s|);
      FoldMore(f, init, m, s);
      var t := bits0 / 8 % 64;
      bits0, bits1 := AddWord(bits0, |s|), Carry(bits0, bits1, |s|);
      var at := 0;
      if t > 0 && |s| < 64 - t {
        var end := Put(data, t, s);
        FoldShort(f, buf, tail + s);
        return;
      }
      if t > 0 {
        at := FirstBlock(t, s, tail);
      } else {
        assert tail + s == s && s[0..] == s;
      }
      WholeBlocks(s, at);
    }

    /** The block that was begun is filled up. */
    method FirstBlock(t: nat, s: bytes, ghost tail: bytes) returns (at: nat)
      requires data.Length == 64 && t < 64 && data[..t] == tail && |s| >= 64 - t
      modifies this`buf, data
      ensures at == 64 - t
      ensures Fold(f, old(buf), tail + s) == Fold(f, buf, s[at..]) && Tail(tail + s) == Tail(s[at..])
    {
      hide Fold, Tail;
      at := 64 - t;
      var end := Put(data, t, s[..at]);
      assert data[..] == data[..64] == tail + s[..at];
      buf := f(buf, data[..]);
      FoldBlock(f, old(buf), tail + s[..at], s[at..]);
      assert tail + s[..at] + s[at..] == tail + s;
    }

    /** Whole blocks, and what is left for the next time. */
    method WholeBlocks(s: bytes, from: nat)
      requires data.Length == 64 && from <= |s|
      modifies this`buf, data
      ensures buf == Fold(f, old(buf), s[from..])
      ensures |Tail(s[from..])| < 64 && data[..|Tail(s[from..])|] == Tail(s[from..])
    {
      hide Fold, Tail;
      var at := from;
      while |s| - at >= 64
        invariant from <= at <= |s|
        invariant Fold(f, old(buf), s[from..]) == Fold(f, buf, s[at..]) && Tail(s[from..]) == Tail(s[at..])
      {
        ghost var before := buf;
        MemCopy(data, 0, s[at..at + 64]);
        assert data[..] == s[at..at + 64];
        buf := f(buf, data[..]);
        NextBlock(f, before, s, at);
        at := at + 64;
      }
      FoldShort(f, buf, s[at..]);
      var end := Put(data, 0, s[at..]);
      assert data[..end] == s[at..];
    }

    /** MD5_Final: the padding is written into the buffer, with one block more when the
        length does not fit any longer. */
    method Final(ghost m: bytes)
      requires Valid(m)
      modifies this`buf, data
      ensures buf == Fold(f, init, Padded(LittleEndian, m))
    {
      hide Fold, Tail, Counts, Zeros, ZeroCount, BitLength;
      ghost var tail := Tail(m);
      TailLength(m);
      Position(bits0, bits1, |m|);
      WordBound(bits0, bits1, |m|);
      var count := bits0 / 8 % 64;
      assert count == |tail| && data[..count] == tail;
      var p := Put(data, count, [0x80]);
      count := 64 - 1 - count;
      var length := ToLE32(bits0) + ToLE32(bits1);
      assert length == BitLength(LittleEndian, |m|) by {
        LengthStored(bits0, bits1, |m|);
      }
      FewOrMany(|m|, |tail|);
      PaddedTail(f, init, m, length);
      if count < 8 {
        FillBlock(p, count, tail + [0x80]);
        TwoBlocks(f, old(buf), tail, count, length);
      } else {
        var end := Put(data, p, Zeros(count - 8));
        OneBlock(f, old(buf), tail, count - 8, length);
      }
      LastBlock(length);
    }

    /** There is no room for the length: the block is filled up, and 56 bytes of the next. */
    method FillBlock(p: nat, count: nat, ghost head: bytes)
      requires data.Length == 64 && p + count == 64 && data[..p] == head
      modifies this`buf, data
      ensures buf == f(old(buf), head + Zeros(count)) && data[..56] == Zeros(56)
    {
      hide Zeros;
      var end := Put(data, p, Zeros(count));
      assert data[..] == data[..64];
      buf := f(buf, data[..]);
      end := Put(data, 0, Zeros(56));
      assert data[..0] + Zeros(56) == Zeros(56);
    }

    method LastBlock(length: bytes)
      requires data.Length == 64 && |length| == 8
      modifies this`buf, data
      ensures buf == f(old(buf), old(data[..56]) + length)
    {
      var end := Put(data, 56, length);
      assert data[..] == data[..64];
      buf := f(buf, data[..]);
    }
  }

  lemma LengthStored(bits0: nat, bits1: nat, length: nat)
    requires Counts(bits0, bits1, length) && bits0 < TWO32 && bits1 < TWO32
    ensures ToLE32(bits0) + ToLE32(bits1) == BitLength(LittleEndian, length)
  {
  }

  lemma PaddedTail<S>(f: Compress<S>, s: S, m: bytes, length: bytes)
    requires length == BitLength(LittleEndian, |m|)
    ensures
      Fold(f, s, Padded(LittleEndian, m))
      == Fold(f, Fold(f, s, m), Tail(m) + ([0x80] + (Zeros(ZeroCount(|m|)) + length)))
  {
    hide Fold, Tail, Zeros, ZeroCount, BitLength;
    var pad := [0x80] + (Zeros(ZeroCount(|m|)) + length);
    assert Padded(LittleEndian, m) == m + pad;
    FoldMore(f, s, m, pad);
  }

  lemma OneBlock<S>(f: Compress<S>, s: S, tail: bytes, zeros: nat, length: bytes)
    requires |tail| + 1 + zeros == 56 && |length| == 8
    ensures
      Fold(f, s, tail + ([0x80] + (Zeros(zeros) + length)))
      == f(s, tail + [0x80] + Zeros(zeros) + length)
  {
    hide Fold, Zeros;
    var block := tail + [0x80] + Zeros(zeros) + length;
    assert tail + ([0x80] + (Zeros(zeros) + length)) == block + [];
    FoldBlock(f, s, block, []);
    FoldShort(f, f(s, block), []);
  }

  lemma TwoBlocks<S>(f: Compress<S>, s: S, tail: bytes, count: nat, length: bytes)
    requires |tail| + 1 + count == 64 && |length| == 8
    ensures
      Fold(f, s, tail + ([0x80] + (Zeros(count + 56) + length)))
      == f(f(s, tail + [0x80] + Zeros(count)), Zeros(56) + length)
  {
    hide Fold, Zeros;
    var first, second := tail + [0x80] + Zeros(count), Zeros(56) + length;
    ZerosSplit(count, 56);
    assert tail + ([0x80] + (Zeros(count + 56) + length)) == first + (second + []);
    FoldBlock(f, s, first, second + []);
    FoldBlock(f, f(s, first), second, []);
    FoldShort(f, f(f(s, first), second), []);
  }

  lemma FewOrMany(length: nat, tail: nat)
    requires tail == length % 64
    ensures ZeroCount(length) == if 63 - tail < 8 then 63 - tail + 56 else 63 - tail - 8
  {
  }

  lemma {:induction false} ZerosSplit(a: nat, b: nat)
    ensures Zeros(a + b) == Zeros(a) + Zeros(b)
    decreases b
  {
    if b > 0 {
      ZerosSplit(a, b - 1);
    }
  }

  lemma FlattenOneMore(pieces: seq<bytes>, i: nat)
    requires i < |pieces|
    ensures Flatten(pieces[..i + 1]) == Flatten(pieces[..i]) + pieces[i]
  {
    assert pieces[..i + 1] == pieces[..i] + [pieces[i]];
    FlattenAppend(pieces[..i], [pieces[i]]);
    var one: seq<bytes> := [pieces[i]];
    assert one[1..] == [];
    assert pieces[i] + [] == pieces[i];
  }

  /** The digest depends on the message, not on the pieces it came in. */
  method Sha1<S>(f: Compress<S>, init: S, pieces: seq<bytes>) returns (state: S)
    requires forall p <- pieces :: |p| + 64 <= TWO32
    ensures state == Fold(f, init, Padded(BigEndian, Flatten(pieces)))
  {
    hide Fold, Padded, Flatten;
    var context := new Sha1Context(f, init);
    assert Flatten(pieces[..0]) == [] by {
      NothingFlat(pieces);
    }
    for i := 0 to |pieces|
      invariant fresh(context) && fresh(context.buffer) && context.f == f && context.init == init
      invariant context.Valid(Flatten(pieces[..i]))
    {
      FlattenOneMore(pieces, i);
      context.Update(pieces[i], Flatten(pieces[..i]));
    }
    assert pieces[..|pieces|] == pieces;
    context.Final(Flatten(pieces));
    state := context.state;
  }

  method Md5<S>(f: Compress<S>, init: S, pieces: seq<bytes>) returns (state: S)
    requires forall p <- pieces :: |p| < TWO32
    ensures state == Fold(f, init, Padded(LittleEndian, Flatten(pieces)))
  {
    hide Fold, Padded, Flatten;
    var context := new Md5Context(f, init);
    assert Flatten(pieces[..0]) == [] by {
      NothingFlat(pieces);
    }
    for i := 0 to |pieces|
      invariant fresh(context) && fresh(context.data) && context.f == f && context.init == init
      invariant context.Valid(Flatten(pieces[..i]))
    {
      FlattenOneMore(pieces, i);
      context.Update(pieces[i], Flatten(pieces[..i]));
    }
    assert pieces[..|pieces|] == pieces;
    context.Final(Flatten(pieces));
    state := context.buf;
  }

  lemma NothingFlat(pieces: seq<bytes>)
    ensures Flatten(pieces[..0]) == []
  {
  }
}
