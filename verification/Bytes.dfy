/** Bytes, machine words and the growing buffer (`struct mbuf`) that every
    mongoose stream decoder works on. */
module Bytes {
  import opened Wrappers

  type byte = x: int | 0 <= x < 256
  type bytes = seq<byte>

  const TWO16: int := 0x1_0000
  const TWO32: int := 0x1_0000_0000
  const TWO64: int := 0x1_0000_0000_0000_0000

  // ---------------------------------------------------------------- words

  /** Truncation to uint16_t. */
  function U16(n: nat): (r: nat)
    ensures r < TWO16 && (n < TWO16 ==> r == n)
  {
    n % 0x1_0000
  }

  function BE16(s: bytes): (r: nat)
    requires |s| == 2
    ensures r < TWO16
  {
    var hi: int, lo: int := s[0], s[1];
    hi * 256 + lo
  }

  function BE32(s: bytes): (r: nat)
    requires |s| == 4
    ensures r < TWO32
  {
    BE16(s[..2]) * TWO16 + BE16(s[2..])
  }

  function BE64(s: bytes): (r: nat)
    requires |s| == 8
    ensures r < TWO64
  {
    BE32(s[..4]) * TWO32 + BE32(s[4..])
  }

  function ToBE16(n: nat): (s: bytes)
    requires n < TWO16
    ensures |s| == 2 && BE16(s) == n
  {
    [n / 256, n % 256]
  }

  function ToBE32(n: nat): (s: bytes)
    requires n < TWO32
    ensures |s| == 4 && BE32(s) == n
  {
    var hi, lo := ToBE16(n / TWO16), ToBE16(n % TWO16);
    assert (hi + lo)[..2] == hi && (hi + lo)[2..] == lo;
    hi + lo
  }

  function ToBE64(n: nat): (s: bytes)
    requires n < TWO64
    ensures |s| == 8 && BE64(s) == n
  {
    var hi, lo := ToBE32(n / TWO32), ToBE32(n % TWO32);
    assert (hi + lo)[..4] == hi && (hi + lo)[4..] == lo;
    hi + lo
  }

  /** A 32-bit word in host order, taken to be little-endian. */
  function LE32(s: bytes): (r: nat)
    requires |s| == 4
    ensures r < TWO32
  {
    var b0: int, b1: int, b2: int, b3: int := s[0], s[1], s[2], s[3];
    b0 + 256 * (b1 + 256 * (b2 + 256 * b3))
  }

  function ToLE32(n: nat): (s: bytes)
    requires n < TWO32
    ensures |s| == 4 && LE32(s) == n
  {
    [n % 256, n / 256 % 256, n / 256 / 256 % 256, n / 256 / 256 / 256]
  }

  /** tolower, in the C locale. */
  function Lower(c: byte): byte {
    if 0x41 <= c <= 0x5A then c + 0x20 else c
  }

  /** `b` is the small form of the capital letter `a`. */
  predicate Capital(a: byte, b: byte) {
    0x41 <= a <= 0x5A && b == a + 0x20
  }

  /** The same character, or the two cases of one letter. */
  predicate SameLetter(a: byte, b: byte) {
    a == b || Capital(a, b) || Capital(b, a)
  }

  lemma LowerIff(a: byte, b: byte)
    ensures Lower(a) == Lower(b) <==> SameLetter(a, b)
  {
  }

  /** The value of a hexadecimal digit of either case. */
  function HexValue(c: byte): (r: Option<nat>)
    ensures r.Some? ==> r.value < 16
  {
    if 0x30 <= c <= 0x39 then Some(c - 0x30)
    else if 0x61 <= c <= 0x66 then Some(c - 0x61 + 10)
    else if 0x41 <= c <= 0x46 then Some(c - 0x41 + 10)
    else None
  }

  const HEX_SMALL: string := "0123456789abcdef"
  const HEX_CAPITAL: string := "0123456789ABCDEF"

  /** The character is the digit `d`, in either case. */
  predicate DigitOf(c: byte, d: nat)
    requires d < 16
  {
    c == HEX_SMALL[d] as int || c == HEX_CAPITAL[d] as int
  }

  ghost predicate IsDigitIn(c: byte, base: nat)
    requires base <= 16
  {
    exists d | 0 <= d < base :: DigitOf(c, d)
  }

  lemma HexValueIff(c: byte, d: nat)
    requires d < 16
    ensures HexValue(c) == Some(d) <==> DigitOf(c, d)
  {
  }

  lemma HexValueNone(c: byte)
    ensures HexValue(c).Some? <==> IsDigitIn(c, 16)
  {
    if HexValue(c).Some? {
      HexValueIff(c, HexValue(c).value);
    }
    if d :| 0 <= d < 16 && DigitOf(c, d) {
      HexValueIff(c, d);
    }
  }

  /** The digits of `n`, in either case and behind any zeros. */
  ghost predicate Numeral(s: bytes, n: nat, base: nat)
    requires 2 <= base <= 16
  {
    && s != [] && DigitOf(s[|s| - 1], n % base)
    && if |s| == 1 then n < base else Numeral(s[..|s| - 1], n / base, base)
  }

  /** The shortest numeral. */
  function Digits(n: nat, base: nat): (s: bytes)
    requires 2 <= base <= 16
    ensures Numeral(s, n, base)
    decreases n
  {
    var d := HEX_SMALL[n % base] as int;
    if n < base then [d]
    else
      var high := Digits(n / base, base);
      assert (high + [d])[..|high|] == high;
      high + [d]
  }

  lemma {:induction false} NumeralDigits(s: bytes, n: nat, base: nat)
    requires 2 <= base <= 16 && Numeral(s, n, base)
    ensures forall c <- s :: IsDigitIn(c, base)
  {
    hide DigitOf;
    var k := |s| - 1;
    assert s == s[..k] + [s[k]];
    assert DigitOf(s[k], n % base);
    if k > 0 {
      NumeralDigits(s[..k], n / base, base);
    }
  }

  // ------------------------------------------------------------------ xor

  /** Exclusive or of the low `n` bits, bit by bit. */
  function XorBits(a: nat, b: nat, n: nat): (r: nat) {
    if n == 0 then 0 else (if a % 2 == b % 2 then 0 else 1) + 2 * XorBits(a / 2, b / 2, n - 1)
  }

  function Pow2(n: nat): (r: nat)
    ensures r > 0
  {
    if n == 0 then 1 else 2 * Pow2(n - 1)
  }

  lemma {:induction false} XorBitsTwice(a: nat, b: nat, n: nat)
    requires a < Pow2(n)
    ensures XorBits(a, b, n) < Pow2(n)
    ensures XorBits(XorBits(a, b, n), b, n) == a
  {
    if n > 0 {
      XorBitsTwice(a / 2, b / 2, n - 1);
      var x := XorBits(a, b, n);
      assert x / 2 == XorBits(a / 2, b / 2, n - 1);
      assert x % 2 == if a % 2 == b % 2 then 0 else 1;
    }
  }

  function Xor(a: byte, b: byte): byte {
    assert Pow2(8) == 256;
    XorBitsTwice(a, b, 8);
    XorBits(a, b, 8)
  }

  lemma XorTwice(a: byte, b: byte)
    ensures Xor(Xor(a, b), b) == a
  {
    assert Pow2(8) == 256;
    XorBitsTwice(a, b, 8);
  }

  /** Bit `i` of a number. */
  function Bit(a: nat, i: nat): (r: nat)
    ensures r < 2
  {
    a / Pow2(i) % 2
  }

  lemma BitShift(a: nat, i: nat)
    requires i > 0
    ensures Bit(a, i) == Bit(a / 2, i - 1)
  {
    HalfThen(a, Pow2(i - 1));
  }

  lemma HalfThen(a: nat, n: nat)
    requires n > 0
    ensures a / (2 * n) == a / 2 / n
  {
    var q, r := a / 2, a % 2;
    var x, y := q / n, q % n;
    assert q == n * x + y;
    assert a == 2 * n * x + (2 * y + r);
    Quotient(a, 2 * n, x, 2 * y + r);
  }

  lemma Quotient(a: nat, d: nat, q: nat, r: nat)
    requires r < d && a == d * q + r
    ensures a / d == q && a % d == r
  {
    var k := a / d;
    assert a == d * k + a % d;
    Multiples(d, k, q);
    Multiples(d, q, k);
  }

  lemma Multiples(d: nat, k: nat, q: nat)
    ensures k < q ==> d * k + d <= d * q
  {
    if k < q {
      var m: nat := q - k - 1;
      Distributes(d, k + 1, m);
      Distributes(d, k, 1);
    }
  }

  lemma Distributes(d: nat, x: nat, y: nat)
    ensures d * (x + y) == d * x + d * y
  {
  }

  lemma {:induction false} XorBitsAt(a: nat, b: nat, n: nat, i: nat)
    requires i < n
    ensures Bit(XorBits(a, b, n), i) == 1 <==> Bit(a, i) != Bit(b, i)
  {
    var x := XorBits(a, b, n);
    assert x / 2 == XorBits(a / 2, b / 2, n - 1) && (x % 2 == 1 <==> a % 2 != b % 2);
    if i == 0 {
      assert Pow2(0) == 1;
    } else {
      BitShift(x, i);
      BitShift(a, i);
      BitShift(b, i);
      XorBitsAt(a / 2, b / 2, n - 1, i - 1);
    }
  }

  /** Exclusive or has a one exactly where its operands differ. */
  lemma XorBit(a: byte, b: byte, i: nat)
    requires i < 8
    ensures Bit(Xor(a, b), i) == 1 <==> Bit(a, i) != Bit(b, i)
  {
    XorBitsAt(a, b, 8, i);
  }

  /** A number below 2^n is told by its `n` bits. */
  lemma {:induction false} BitsTell(a: nat, b: nat, n: nat)
    requires a < Pow2(n) && b < Pow2(n) && forall i: nat | i < n :: Bit(a, i) == Bit(b, i)
    ensures a == b
  {
    if n > 0 {
      assert Pow2(0) == 1 && Bit(a, 0) == Bit(b, 0);
      forall i: nat | i < n - 1 ensures Bit(a / 2, i) == Bit(b / 2, i) {
        BitShift(a, i + 1);
        BitShift(b, i + 1);
        assert Bit(a, i + 1) == Bit(b, i + 1);
      }
      BitsTell(a / 2, b / 2, n - 1);
    }
  }

  /** Exclusive or is the only byte with these bits. */
  lemma XorIff(a: byte, b: byte, c: byte)
    ensures c == Xor(a, b) <==> forall i: nat | i < 8 :: Bit(c, i) == 1 <==> Bit(a, i) != Bit(b, i)
  {
    hide Xor, Bit;
    forall i: nat | i < 8 ensures Bit(Xor(a, b), i) == 1 <==> Bit(a, i) != Bit(b, i) {
      XorBit(a, b, i);
    }
    if forall i: nat | i < 8 :: Bit(c, i) == 1 <==> Bit(a, i) != Bit(b, i) {
      assert Pow2(8) == 256;
      forall i: nat | i < 8 ensures Bit(c, i) == Bit(Xor(a, b), i) {
        assert Bit(c, i) == 1 <==> Bit(Xor(a, b), i) == 1;
      }
      BitsTell(c, Xor(a, b), 8);
    }
  }

  // ------------------------------------------------------------ byte order

  /** Of two byte strings of one length, the first place where they differ decides. */
  ghost predicate BytesLess(s: bytes, t: bytes)
    requires |s| == |t|
  {
    exists i | 0 <= i < |s| :: s[..i] == t[..i] && s[i] < t[i]
  }

  lemma LessAt(s: bytes, t: bytes, i: nat)
    requires |s| == |t| && i < |s| && s[..i] == t[..i] && s[i] < t[i]
    ensures BytesLess(s, t)
  {
  }

  lemma LessConcat(a: bytes, b: bytes, c: bytes, d: bytes)
    requires |a| == |c| && |b| == |d|
    ensures BytesLess(a + b, c + d) <==> BytesLess(a, c) || (a == c && BytesLess(b, d))
  {
    hide BytesLess;
    if BytesLess(a + b, c + d) {
      LessSplits(a, b, c, d);
    }
    if BytesLess(a, c) {
      LessInFront(a, b, c, d);
    }
    if a == c && BytesLess(b, d) {
      LessBehind(a, b, d);
    }
  }

  lemma LessSplits(a: bytes, b: bytes, c: bytes, d: bytes)
    requires |a| == |c| && |b| == |d| && BytesLess(a + b, c + d)
    ensures BytesLess(a, c) || (a == c && BytesLess(b, d))
  {
    var s, t := a + b, c + d;
    var i :| 0 <= i < |s| && s[..i] == t[..i] && s[i] < t[i];
    if i < |a| {
      assert a[..i] == s[..i] && c[..i] == t[..i];
      LessAt(a, c, i);
    } else {
      assert a == s[..i][..|a|] && c == t[..i][..|a|];
      assert b[..i - |a|] == s[..i][|a|..] && d[..i - |a|] == t[..i][|a|..];
      LessAt(b, d, i - |a|);
    }
  }

  lemma LessInFront(a: bytes, b: bytes, c: bytes, d: bytes)
    requires |a| == |c| && |b| == |d| && BytesLess(a, c)
    ensures BytesLess(a + b, c + d)
  {
    var i :| 0 <= i < |a| && a[..i] == c[..i] && a[i] < c[i];
    assert (a + b)[..i] == a[..i] && (c + d)[..i] == c[..i];
    LessAt(a + b, c + d, i);
  }

  lemma LessBehind(a: bytes, b: bytes, d: bytes)
    requires |b| == |d| && BytesLess(b, d)
    ensures BytesLess(a + b, a + d)
  {
    var i :| 0 <= i < |b| && b[..i] == d[..i] && b[i] < d[i];
    assert (a + b)[..|a| + i] == a + b[..i] && (a + d)[..|a| + i] == a + d[..i];
    LessAt(a + b, a + d, |a| + i);
  }

  lemma BE16Order(s: bytes, t: bytes)
    requires |s| == |t| == 2
    ensures BE16(s) < BE16(t) <==> BytesLess(s, t)
    ensures BE16(s) == BE16(t) <==> s == t
  {
    assert s == [s[0], s[1]] && t == [t[0], t[1]];
    if s[0] < t[0] {
      LessAt(s, t, 0);
    } else if s[0] == t[0] && s[1] < t[1] {
      assert s[..1] == [s[0]] && t[..1] == [t[0]];
      LessAt(s, t, 1);
    }
  }

  lemma BE32Order(s: bytes, t: bytes)
    requires |s| == |t| == 4
    ensures BE32(s) < BE32(t) <==> BytesLess(s, t)
    ensures BE32(s) == BE32(t) <==> s == t
  {
    hide BytesLess, BE16;
    BE16Order(s[..2], t[..2]);
    BE16Order(s[2..], t[2..]);
    LessConcat(s[..2], s[2..], t[..2], t[2..]);
    assert s == s[..2] + s[2..] && t == t[..2] + t[2..];
  }

  /** The first byte weighs most: among byte strings of one length numbers are in the order
      of the strings, and every number has one. */
  lemma BigEndian(s: bytes, t: bytes)
    requires |s| == |t|
    ensures |s| == 2 ==> (BE16(s) < BE16(t) <==> BytesLess(s, t)) && ToBE16(BE16(s)) == s
    ensures |s| == 4 ==> (BE32(s) < BE32(t) <==> BytesLess(s, t)) && ToBE32(BE32(s)) == s
    ensures |s| == 8 ==> (BE64(s) < BE64(t) <==> BytesLess(s, t)) && ToBE64(BE64(s)) == s
  {
    hide BytesLess, BE16, BE32, ToBE16, ToBE32, ToBE64;
    if |s| == 2 {
      BE16Order(s, t);
      BE16Order(ToBE16(BE16(s)), s);
    } else if |s| == 4 {
      BE32Order(s, t);
      BE32Order(ToBE32(BE32(s)), s);
    } else if |s| == 8 {
      BE64Order(s, t);
      BE64Order(ToBE64(BE64(s)), s);
    }
  }

  lemma BE64Order(s: bytes, t: bytes)
    requires |s| == |t| == 8
    ensures BE64(s) < BE64(t) <==> BytesLess(s, t)
    ensures BE64(s) == BE64(t) <==> s == t
  {
    hide BytesLess, BE32;
    BE32Order(s[..4], t[..4]);
    BE32Order(s[4..], t[4..]);
    LessConcat(s[..4], s[4..], t[..4], t[4..]);
    assert s == s[..4] + s[4..] && t == t[..4] + t[4..];
  }

  /** Little-endian is big-endian read backwards. */
  lemma LittleEndian(s: bytes)
    requires |s| == 4
    ensures LE32(s) == BE32([s[3], s[2], s[1], s[0]])
  {
    var t := [s[3], s[2], s[1], s[0]];
    assert t[..2] == [s[3], s[2]] && t[2..] == [s[1], s[0]];
  }

  // ------------------------------------------------------------- sequences

  function Flatten<T>(ss: seq<seq<T>>): seq<T> {
    if ss == [] then [] else ss[0] + Flatten(ss[1..])
  }

  lemma {:induction false} FlattenAppend<T>(a: seq<seq<T>>, b: seq<seq<T>>)
    ensures Flatten(a + b) == Flatten(a) + Flatten(b)
  {
    if a == [] {
      assert a + b == b;
    } else {
      FlattenAppend(a[1..], b);
      assert (a + b)[1..] == a[1..] + b && (a + b)[0] == a[0];
      Assoc(a[0], Flatten(a[1..]), Flatten(b));
    }
  }

  lemma Assoc<T>(a: seq<T>, b: seq<T>, c: seq<T>)
    ensures a + b + c == a + (b + c)
  {
  }

  lemma SliceOfSlice<T>(s: seq<T>, lo: nat, hi: nat, i: nat, j: nat)
    requires lo <= hi <= |s| && i <= j <= hi - lo
    ensures s[lo..hi][i..j] == s[lo + i..lo + j]
  {
    forall k | 0 <= k < j - i ensures s[lo..hi][i..j][k] == s[lo + i..lo + j][k] {
    }
  }

  lemma DropSlice<T>(s: seq<T>, p: nat, n: nat)
    requires p + n <= |s|
    ensures s[p..][..n] == s[p..p + n] && s[p..][n..] == s[p + n..]
  {
  }

  /** Where `mark` first starts; the length of `s` when it does not occur. */
  function FindMark(s: bytes, mark: bytes): (r: nat)
    ensures r <= |s| && (r < |s| ==> r + |mark| <= |s| && s[r..r + |mark|] == mark)
  {
    if s == [] then 0
    else if mark <= s then 0
    else
      var r := FindMark(s[1..], mark);
      1 + r
  }

  ghost predicate OccursAt(s: bytes, mark: bytes, i: nat) {
    i + |mark| <= |s| && s[i..i + |mark|] == mark
  }

  lemma {:induction false} NoneBefore(s: bytes, mark: bytes, i: nat)
    requires mark != [] && i < FindMark(s, mark)
    ensures !OccursAt(s, mark, i)
    decreases |s|
  {
    if i > 0 {
      NoneBefore(s[1..], mark, i - 1);
      if i + |mark| <= |s| {
        assert s[1..] == s[1..|s|];
        SliceOfSlice(s, 1, |s|, i - 1, i - 1 + |mark|);
      }
    }
  }

  /** It is the first of all places where the mark occurs, and nothing else. */
  lemma FindMarkIff(s: bytes, mark: bytes, k: nat)
    requires mark != []
    ensures FindMark(s, mark) == k < |s| <==> OccursAt(s, mark, k) && forall i: nat | i < k :: !OccursAt(s, mark, i)
    ensures FindMark(s, mark) == |s| <==> forall i: nat :: !OccursAt(s, mark, i)
  {
    hide FindMark;
    var r := FindMark(s, mark);
    assert r < |s| ==> OccursAt(s, mark, r);
    forall i: nat | i < r ensures !OccursAt(s, mark, i) {
      NoneBefore(s, mark, i);
    }
  }

  /** The bytes are a text in ASCII. */
  predicate Ascii(b: bytes, s: string) {
    |b| == |s| && forall i | 0 <= i < |s| :: b[i] == s[i] as int
  }

  // --------------------------------------------------------------- buffers

  /** `s` after a memmove of `n` bytes from `src` to `dst`. */
  function Moved(s: bytes, dst: nat, src: nat, n: nat): (r: bytes)
    requires dst + n <= |s| && src + n <= |s|
    ensures |r| == |s|
  {
    s[..dst] + s[src..src + n] + s[dst + n..]
  }

  /** `s` after `data` has been copied to `dst`. */
  function Written(s: bytes, dst: nat, data: bytes): (r: bytes)
    requires dst + |data| <= |s|
    ensures |r| == |s|
  {
    s[..dst] + data + s[dst + |data|..]
  }

  /** memmove within one array: overlapping source and destination are fine. */
  method MemMove(a: array<byte>, dst: nat, src: nat, n: nat)
    requires dst + n <= a.Length && src + n <= a.Length
    modifies a
    ensures a[..] == Moved(old(a[..]), dst, src, n)
  {
    forall i | 0 <= i < n {
      a[dst + i] := a[src + i];
    }
  }

  method MemCopy(a: array<byte>, dst: nat, data: bytes)
    requires dst + |data| <= a.Length
    modifies a
    ensures a[..] == Written(old(a[..]), dst, data)
  {
    forall i | 0 <= i < |data| {
      a[dst + i] := data[i];
    }
  }

  /** Writes `data` at `ptr` and moves the pointer behind it. */
  method Put(a: array<byte>, ptr: nat, data: bytes) returns (next: nat)
    requires ptr + |data| <= a.Length
    modifies a
    ensures next == ptr + |data|
    ensures a[..next] == old(a[..ptr]) + data
  {
    MemCopy(a, ptr, data);
    next := ptr + |data|;
    assert a[..next] == a[..][..next];
  }

  /** `struct mbuf`: the first `len` bytes of `buf` are in use; `size` is buf.Length. */
  class Mbuf {
    var buf: array<byte>
    var len: nat

    ghost predicate Valid()
      reads this
    {
      len <= buf.Length
    }

    ghost function Contents(): (s: bytes)
      reads this, buf
      requires Valid()
      ensures |s| == len
    {
      buf[..len]
    }

    constructor (initialSize: nat)
      ensures Valid() && fresh(buf) && Contents() == []
    {
      buf := new byte[initialSize];
      len := 0;
    }

    method Resize(newSize: nat)
      requires Valid()
      modifies this
      ensures Valid() && len == old(len) && (buf == old(buf) || fresh(buf))
      ensures Contents() == old(Contents())
      ensures buf.Length == if newSize >= len then newSize else old(buf.Length)
    {
      if newSize > buf.Length || (newSize < buf.Length && newSize >= len) {
        Reallocate(newSize);
      }
    }

    method Reallocate(newSize: nat)
      requires Valid() && len <= newSize
      modifies this
      ensures Valid() && len == old(len) && fresh(buf) && buf.Length == newSize
      ensures Contents() == old(Contents())
    {
      var bigger := new byte[newSize];
      MemCopy(bigger, 0, buf[..len]);
      assert bigger[..len] == bigger[..][..len] == old(Contents());
      buf := bigger;
    }

    /** Opens a gap of `n` bytes at `off` and leaves it unset, growing by a factor of
        1.5 when there is no room: mbuf_insert with a null source. */
    method OpenGap(off: nat, n: nat)
      requires Valid() && off <= len
      modifies this, buf
      ensures Valid() && (buf == old(buf) || fresh(buf)) && len == old(len) + n
      ensures Contents()[..off] == old(Contents()[..off])
      ensures Contents()[off + n..] == old(Contents()[off..])
    {
      ghost var was := Contents();
      if len + n > buf.Length {
        Reallocate((len + n) * 3 / 2);
      }
      ghost var full := buf[..];
      assert full[..len] == was;
      MemMove(buf, off + n, off, len - off);
      len := len + n;
      assert Contents() == Moved(full, off + n, off, len - n - off)[..len];
    }

    method Insert(off: nat, data: bytes)
      requires Valid() && off <= len
      modifies this, buf
      ensures Valid() && (buf == old(buf) || fresh(buf))
      ensures Contents() == old(Contents()[..off]) + data + old(Contents()[off..])
    {
      OpenGap(off, |data|);
      ghost var gap, full := Contents(), buf[..];
      assert full[..len] == gap;
      MemCopy(buf, off, data);
      assert Contents() == Written(full, off, data)[..len] == gap[..off] + data + gap[off + |data|..];
    }

    method Append(data: bytes)
      requires Valid()
      modifies this, buf
      ensures Valid() && (buf == old(buf) || fresh(buf))
      ensures Contents() == old(Contents()) + data
    {
      Insert(len, data);
    }

    /** Out-of-range requests are ignored. */
    method Remove(n: nat)
      requires Valid()
      modifies this, buf
      ensures Valid() && buf == old(buf)
      ensures Contents() == if n <= old(len) then old(Contents())[n..] else old(Contents())
    {
      if 0 < n <= len {
        ghost var was, full := Contents(), buf[..];
        assert full[..len] == was;
        MemMove(buf, 0, n, len - n);
        len := len - n;
        assert Contents() == Moved(full, 0, n, len)[..len] == was[n..];
      }
    }
  }
}
