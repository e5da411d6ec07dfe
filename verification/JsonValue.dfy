/** Json::Value. The std::map behind arrays and objects is modelled by its in-order
    contents: strictly increasing indices, or member names in strcmp order. */
module JsonValue {
  import opened Bytes

  const MIN_INT: int := -0x8000_0000
  const MAX_INT: int := 0x7FFF_FFFF
  const MAX_UINT: int := 0xFFFF_FFFF

  datatype Value =
    | Null
    | Int(i: int)
    | UInt(u: int)
    | Real(r: real)
    | Str(s: bytes)
    | Bool(b: bool)
    | Array(es: seq<(nat, Value)>)
    | Object(ms: seq<(bytes, Value)>)

  /** C strings hold no NUL. */
  predicate CString(s: bytes) {
    forall c <- s :: c != 0
  }

  /** strcmp(a, b) < 0, on unsigned bytes. */
  predicate StrLess(a: bytes, b: bytes) {
    if b == [] then false
    else if a == [] then true
    else a[0] < b[0] || (a[0] == b[0] && StrLess(a[1..], b[1..]))
  }

  // ------------------------------------------------------------ well-formed

  predicate IndicesFrom(es: seq<(nat, Value)>, next: nat) {
    es != [] ==> next <= es[0].0 && IndicesFrom(es[1..], es[0].0 + 1)
  }

  /** Names increase, and all lie behind `last`. */
  predicate NamesAfter(ms: seq<(bytes, Value)>, last: bytes) {
    ms != [] ==> StrLess(last, ms[0].0) && CString(ms[0].0) && NamesAfter(ms[1..], ms[0].0)
  }

  predicate NamesFrom(ms: seq<(bytes, Value)>) {
    ms != [] ==> CString(ms[0].0) && NamesAfter(ms[1..], ms[0].0)
  }

  ghost predicate Wf(v: Value)
    decreases v
  {
    match v
    case Int(i) => MIN_INT <= i <= MAX_INT
    case UInt(u) => 0 <= u <= MAX_UINT
    case Str(s) => CString(s)
    case Array(es) => IndicesFrom(es, 0) && forall e <- es :: Wf(e.1)
    case Object(ms) => NamesFrom(ms) && forall m <- ms :: Wf(m.1)
    case _ => true
  }

  ghost predicate RealFree(v: Value)
    decreases v
  {
    match v
    case Real(_) => false
    case Array(es) => forall e <- es :: RealFree(e.1)
    case Object(ms) => forall m <- ms :: RealFree(m.1)
    case _ => true
  }

  // ----------------------------------------------------------------- access

  /** Value::size: for an array the highest index plus one. */
  function Size(v: Value): nat {
    match v
    case Array(es) => if es == [] then 0 else es[|es| - 1].0 + 1
    case Object(ms) => |ms|
    case _ => 0
  }

  /** operator[](UInt) const: null where the array has a hole. */
  function ElementAt(es: seq<(nat, Value)>, index: nat): (r: Value) {
    if es == [] then Null else if es[0].0 == index then es[0].1 else ElementAt(es[1..], index)
  }

  function MemberAt(ms: seq<(bytes, Value)>, name: bytes): (r: Value) {
    if ms == [] then Null else if ms[0].0 == name then ms[0].1 else MemberAt(ms[1..], name)
  }

  /** resolveReference, then assignment through the reference: the lower bound of the
      name is where the member is, or goes. */
  function PutMember(ms: seq<(bytes, Value)>, name: bytes, v: Value): (r: seq<(bytes, Value)>)
  {
    if ms == [] then [(name, v)]
    else if StrLess(ms[0].0, name) then [ms[0]] + PutMember(ms[1..], name, v)
    else if ms[0].0 == name then [(name, v)] + ms[1..]
    else [(name, v)] + ms
  }

  /** Assigning members one after the other, as the reader does. */
  function PutAll(ms: seq<(bytes, Value)>, more: seq<(bytes, Value)>): seq<(bytes, Value)>
    decreases |more|
  {
    if more == [] then ms else PutAll(PutMember(ms, more[0].0, more[0].1), more[1..])
  }

  // ------------------------------------------------------------ string order

  lemma {:induction false} StrLessTransitive(a: bytes, b: bytes, c: bytes)
    requires StrLess(a, b) && StrLess(b, c)
    ensures StrLess(a, c)
  {
    if a != [] && a[0] == b[0] == c[0] {
      StrLessTransitive(a[1..], b[1..], c[1..]);
    }
  }

  lemma {:induction false} StrLessIrreflexive(a: bytes)
    ensures !StrLess(a, a)
  {
    if a != [] {
      StrLessIrreflexive(a[1..]);
    }
  }

  lemma {:induction false} StrLessTotal(a: bytes, b: bytes)
    ensures StrLess(a, b) || StrLess(b, a) || a == b
  {
    if a != [] && b != [] {
      StrLessTotal(a[1..], b[1..]);
      if a[0] == b[0] && a[1..] == b[1..] {
        assert a == [a[0]] + a[1..] == b;
      }
    }
  }

  // -------------------------------------------------------------- map facts

  predicate AllLess(ms: seq<(bytes, Value)>, name: bytes) {
    forall m <- ms :: StrLess(m.0, name)
  }

  lemma {:induction false} PutMemberAppends(ms: seq<(bytes, Value)>, name: bytes, v: Value)
    requires AllLess(ms, name)
    ensures PutMember(ms, name, v) == ms + [(name, v)]
  {
    if ms != [] {
      assert ms[0] in ms;
      PutMemberAppends(ms[1..], name, v);
      assert ms == [ms[0]] + ms[1..];
    }
  }

  lemma {:induction false} NamesAfterAllLess(ms: seq<(bytes, Value)>, last: bytes)
    requires NamesAfter(ms, last)
    ensures forall m <- ms :: StrLess(last, m.0)
  {
    if ms != [] {
      NamesAfterAllLess(ms[1..], ms[0].0);
      forall m | m in ms ensures StrLess(last, m.0) {
        if m in ms[1..] {
          StrLessTransitive(last, ms[0].0, m.0);
        } else {
          assert m == ms[0];
        }
      }
    }
  }

  /** Members that arrive in name order are simply appended. */
  lemma {:induction false} PutAllSorted(done: seq<(bytes, Value)>, more: seq<(bytes, Value)>)
    requires NamesFrom(more) && forall m <- more :: AllLess(done, m.0)
    ensures PutAll(done, more) == done + more
    decreases |more|
  {
    if more == [] {
      assert done + more == done;
    } else {
      var m := more[0];
      assert m in more;
      PutMemberAppends(done, m.0, m.1);
      NamesAfterAllLess(more[1..], m.0);
      forall x | x in more[1..] ensures AllLess(done + [m], x.0) {
        assert x in more;
      }
      assert NamesFrom(more[1..]);
      assert m == (m.0, m.1);
      PutAllSorted(done + [m], more[1..]);
      assert done + [m] + more[1..] == done + more;
    }
  }
}
