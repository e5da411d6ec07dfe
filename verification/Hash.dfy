/** The streaming part of SHA-1 (section 5.1.1 of FIPS 180-4) and MD5 (sections 3.1 and
    3.2 of RFC 1321). The compression of one block is any function. */
module Hash {
  import opened Bytes

  type Compress<!S> = (S, bytes) -> S

  /** Compressing all complete blocks of a message. */
  function Fold<S>(f: Compress<S>, s: S, m: bytes): S
    decreases |m|
  {
    if |m| < 64 then s else Fold(f, f(s, m[..64]), m[64..])
  }

  /** What is left behind the last complete block. */
  function Tail(m: bytes): (r: bytes)
    ensures |r| < 64 && |r| <= |m|
    decreases |m|
  {
    if |m| < 64 then m else Tail(m[64..])
  }

  /** Compressing can stop and go on anywhere. */
  lemma {:induction false} FoldMore<S>(f: Compress<S>, s: S, m: bytes, x: bytes)
    ensures Fold(f, s, m + x) == Fold(f, Fold(f, s, m), Tail(m) + x)
    ensures Tail(m + x) == Tail(Tail(m) + x)
    decreases |m|
  {
    if |m| >= 64 {
      assert (m + x)[..64] == m[..64] && (m + x)[64..] == m[64..] + x;
      FoldMore(f, f(s, m[..64]), m[64..], x);
    }
  }

  lemma FoldBlock<S>(f: Compress<S>, s: S, m: bytes, x: bytes)
    requires |m| == 64
    ensures Fold(f, s, m + x) == Fold(f, f(s, m), x) && Tail(m + x) == Tail(x)
  {
    assert (m + x)[..64] == m && (m + x)[64..] == x;
  }

  lemma FoldShort<S>(f: Compress<S>, s: S, m: bytes)
    requires |m| < 64
    ensures Fold(f, s, m) == s && Tail(m) == m
  {
  }

  lemma {:induction false} TailLength(m: bytes)
    ensures |Tail(m)| == |m| % 64
    decreases |m|
  {
    if |m| >= 64 {
      TailLength(m[64..]);
    }
  }

  // ----------------------------------------------------------------- padding

  function Zeros(n: nat): (r: bytes)
    ensures |r| == n
  {
    if n == 0 then [] else Zeros(n - 1) + [0]
  }

  /** The number of zero bytes between the mark and the length. */
  function ZeroCount(length: nat): (n: nat)
    ensures n < 64 && (length + 1 + n) % 64 == 56
  {
    (119 - length % 64) % 64
  }

  /** The length in bits, modulo 2^64, as eight bytes. */
  datatype LengthOrder = BigEndian | LittleEndian

  function LengthBytes(order: LengthOrder, count0: nat, count1: nat): (r: bytes)
    requires count0 < TWO32 && count1 < TWO32
    ensures |r| == 8
  {
    match order
    case BigEndian => ToBE32(count1) + ToBE32(count0)
    case LittleEndian => ToLE32(count0) + ToLE32(count1)
  }

  function BitLength(order: LengthOrder, length: nat): (r: bytes)
    ensures |r| == 8
  {
    LengthBytes(order, length * 8 % 0x1_0000_0000, length * 8 / 0x1_0000_0000 % 0x1_0000_0000)
  }

  /** The message as it is padded to whole blocks. */
  function Padded(order: LengthOrder, m: bytes): (r: bytes)
    ensures |r| % 64 == 0
  {
    WholeBlocks(|m| + 1 + ZeroCount(|m|));
    m + [0x80] + Zeros(ZeroCount(|m|)) + BitLength(order, |m|)
  }

  lemma WholeBlocks(n: nat)
    requires n % 64 == 56
    ensures (n + 8) % 64 == 0
  {
  }

  // ----------------------------------------------------------------- counter

  /** The bit counter: two 32-bit words. */
  predicate Counts(count0: nat, count1: nat, length: nat) {
    count0 == length * 8 % 0x1_0000_0000 && count1 == length * 8 / 0x1_0000_0000 % 0x1_0000_0000
  }

  /** Adding a length in 32-bit words; a sum that is less than a summand has wrapped. */
  function AddWord(count0: nat, len: nat): (r: nat)
    requires count0 < TWO32 && len < TWO32
    ensures r < TWO32
  {
    (count0 + len * 8 % 0x1_0000_0000) % 0x1_0000_0000
  }

  function Carry(count0: nat, count1: nat, len: nat): (r: nat)
    requires count0 < TWO32 && len < TWO32
    ensures r < TWO32
  {
    ((if AddWord(count0, len) < count0 then count1 + 1 else count1) + len / 0x2000_0000) % 0x1_0000_0000
  }

  lemma WordCarry(count0: nat, len: nat)
    requires count0 < TWO32 && len < TWO32
    ensures AddWord(count0, len) < count0 <==> count0 + len * 8 % 0x1_0000_0000 >= 0x1_0000_0000
    ensures AddWord(count0, len)
            == count0 + len * 8 % 0x1_0000_0000 - if AddWord(count0, len) < count0 then TWO32 else 0
  {
    var low := len * 8 % 0x1_0000_0000;
    if count0 + low >= 0x1_0000_0000 {
      Assemble(count0 + low, 1, count0 + low - 0x1_0000_0000);
    } else {
      Assemble(count0 + low, 0, count0 + low);
    }
  }

  lemma LengthBits(len: nat)
    ensures len * 8 == len / 0x2000_0000 * 0x1_0000_0000 + len * 8 % 0x1_0000_0000
  {
  }

  /** The counter is eight times the length, modulo 2^64, after every update. */
  lemma CounterKept(count0: nat, count1: nat, length: nat, len: nat)
    requires Counts(count0, count1, length) && len < TWO32
    ensures Counts(AddWord(count0, len), Carry(count0, count1, len), length + len)
  {
    CountsSplit(count0, count1, length);
    hide AddWord, Carry, Counts;
    WordCarry(count0, len);
    LengthBits(len);
    var carry := if AddWord(count0, len) < count0 then 1 else 0;
    var high := length * 8 / 0x1_0000_0000;
    Recount(length + len, high + len / 0x2000_0000 + carry, AddWord(count0, len));
    CarryValue(count0, count1, len, carry);
    HighWord(high, count1, len / 0x2000_0000 + carry);
  }

  lemma CountsSplit(count0: nat, count1: nat, length: nat)
    requires Counts(count0, count1, length)
    ensures count0 < TWO32 && length * 8 == length * 8 / 0x1_0000_0000 * 0x1_0000_0000 + count0
    ensures count1 == length * 8 / 0x1_0000_0000 % 0x1_0000_0000
  {
  }

  lemma CarryValue(count0: nat, count1: nat, len: nat, carry: nat)
    requires count0 < TWO32 && len < TWO32 && carry == if AddWord(count0, len) < count0 then 1 else 0
    ensures Carry(count0, count1, len) == (count1 + (len / 0x2000_0000 + carry)) % 0x1_0000_0000
  {
    hide AddWord;
  }

  lemma Recount(length: nat, high: nat, low: nat)
    requires low < TWO32 && length * 8 == high * 0x1_0000_0000 + low
    ensures Counts(low, high % 0x1_0000_0000, length)
  {
    Assemble(length * 8, high, low);
  }

  lemma Assemble(total: nat, high: nat, low: nat)
    requires low < 0x1_0000_0000 && total == high * 0x1_0000_0000 + low
    ensures total % 0x1_0000_0000 == low && total / 0x1_0000_0000 == high
  {
  }

  lemma HighWord(high: nat, count1: nat, more: nat)
    requires count1 == high % 0x1_0000_0000
    ensures (high + more) % 0x1_0000_0000 == (count1 + more) % 0x1_0000_0000
  {
    assert high == high / 0x1_0000_0000 * 0x1_0000_0000 + count1;
  }

  /** The position in the buffer is read off the counter. */
  lemma Position(count0: nat, count1: nat, length: nat)
    requires Counts(count0, count1, length)
    ensures count0 / 8 % 64 == length % 64
  {
    var q := length * 8 / 0x1_0000_0000;
    assert length * 8 == q * 0x1_0000_0000 + count0;
    var r := length - q * 0x2000_0000;
    assert count0 == 8 * r;
    SameRest(r, q * 0x80_0000);
  }

  lemma SameRest(r: nat, k: nat)
    ensures (r + 64 * k) % 64 == r % 64
  {
  }
}
