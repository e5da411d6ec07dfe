/** The comparison operators of Json::Value. Real numbers are compared as reals, so there
    is no NaN to break the order. */
module JsonOrder {
  import opened Bytes
  import opened JsonValue
  import opened JsonWriter

  /** CZString: an index, or a member name. */
  datatype Key = Index(i: nat) | Name(s: bytes)

  predicate KeyLess(a: Key, b: Key) {
    match (a, b)
    case (Name(s), Name(t)) => StrLess(s, t)
    case (Index(i), Index(j)) => i < j
    case _ => false
  }

  /** The order of ValueType. */
  function TypeRank(v: Value): nat {
    match v
    case Null => 0
    case Int(_) => 1
    case UInt(_) => 2
    case Real(_) => 3
    case Str(_) => 4
    case Bool(_) => 5
    case Array(_) => 6
    case Object(_) => 7
  }

  predicate Container(v: Value) {
    v.Array? || v.Object?
  }

  /** The size of the map behind a container. */
  function Count(v: Value): nat
    requires Container(v)
  {
    if v.Array? then |v.es| else |v.ms|
  }

  function KeyAt(v: Value, k: nat): Key
    requires Container(v) && k < Count(v)
  {
    if v.Array? then Index(v.es[k].0) else Name(v.ms[k].0)
  }

  function ChildAt(v: Value, k: nat): Value
    requires Container(v) && k < Count(v)
  {
    if v.Array? then v.es[k].1 else v.ms[k].1
  }

  lemma {:induction false} ElementLighter(es: seq<(nat, Value)>, k: nat)
    requires k < |es|
    ensures Weight(es[k].1) <= ElementsWeight(es)
  {
    if k > 0 {
      ElementLighter(es[1..], k - 1);
    }
  }

  lemma {:induction false} MemberLighter(ms: seq<(bytes, Value)>, k: nat)
    requires k < |ms|
    ensures Weight(ms[k].1) <= MembersWeight(ms)
  {
    if k > 0 {
      MemberLighter(ms[1..], k - 1);
    }
  }

  lemma ChildLighter(v: Value, k: nat)
    requires Container(v) && k < Count(v)
    ensures Weight(ChildAt(v, k)) < Weight(v)
  {
    if v.Array? {
      ElementLighter(v.es, k);
    } else {
      MemberLighter(v.ms, k);
    }
  }

  // -------------------------------------------------------------- operators

  /** operator< */
  predicate Less(a: Value, b: Value)
    decreases Weight(a) + Weight(b), 2, 0
  {
    if TypeRank(a) != TypeRank(b) then TypeRank(a) < TypeRank(b)
    else match a
      case Null => false
      case Int(i) => i < b.i
      case UInt(u) => u < b.u
      case Real(r) => r < b.r
      case Bool(x) => !x && b.b
      case Str(s) => StrLess(s, b.s)
      case _ => if Count(a) != Count(b) then Count(a) < Count(b) else MapLess(a, b, 0)
  }

  /** std::pair, at one position of two maps. */
  predicate PairLess(a: Value, b: Value, k: nat)
    requires Container(a) && Container(b) && k < Count(a) && k < Count(b)
    decreases Weight(a) + Weight(b), 0, 0
  {
    ChildLighter(a, k);
    ChildLighter(b, k);
    || KeyLess(KeyAt(a, k), KeyAt(b, k))
    || (!KeyLess(KeyAt(b, k), KeyAt(a, k)) && Less(ChildAt(a, k), ChildAt(b, k)))
  }

  /** std::lexicographical_compare of two maps of one size, from position `k` on. */
  predicate MapLess(a: Value, b: Value, k: nat)
    requires Container(a) && Container(b) && Count(a) == Count(b) && k <= Count(a)
    decreases Weight(a) + Weight(b), 1, Count(a) - k
  {
    k < Count(a) && (PairLess(a, b, k) || (!PairLess(b, a, k) && MapLess(a, b, k + 1)))
  }

  /** operator== */
  predicate Equal(a: Value, b: Value)
    decreases Weight(a)
  {
    TypeRank(a) == TypeRank(b)
    && match a
       case Null => true
       case Int(i) => i == b.i
       case UInt(u) => u == b.u
       case Real(r) => r == b.r
       case Bool(x) => x == b.b
       case Str(s) => !StrLess(s, b.s) && !StrLess(b.s, s)
       case _ => Count(a) == Count(b) && forall k | 0 <= k < Count(a) :: EqualAt(a, b, k)
  }

  predicate EqualAt(a: Value, b: Value, k: nat)
    requires Container(a) && Container(b) && k < Count(a) && k < Count(b)
    decreases Weight(a), 0
  {
    ChildLighter(a, k);
    && !KeyLess(KeyAt(a, k), KeyAt(b, k)) && !KeyLess(KeyAt(b, k), KeyAt(a, k))
    && Equal(ChildAt(a, k), ChildAt(b, k))
  }

  // ------------------------------------------------------------- total order

  predicate ExactlyOne(p: bool, q: bool, r: bool) {
    (p && !q && !r) || (!p && q && !r) || (!p && !q && r)
  }

  /** Two containers of one type agree from position `k` on. */
  ghost predicate SameFrom(a: Value, b: Value, k: nat)
    requires Container(a) && Container(b) && Count(a) == Count(b) && k <= Count(a)
  {
    forall i | k <= i < Count(a) :: KeyAt(a, i) == KeyAt(b, i) && ChildAt(a, i) == ChildAt(b, i)
  }

  lemma SameContainer(a: Value, b: Value)
    requires Container(a) && TypeRank(a) == TypeRank(b) && Count(a) == Count(b)
    ensures SameFrom(a, b, 0) <==> a == b
  {
    if SameFrom(a, b, 0) {
      if a.Array? {
        forall i | 0 <= i < |a.es| ensures a.es[i] == b.es[i] {
          assert KeyAt(a, i) == KeyAt(b, i) && ChildAt(a, i) == ChildAt(b, i);
        }
        assert a.es == b.es;
      } else {
        forall i | 0 <= i < |a.ms| ensures a.ms[i] == b.ms[i] {
          assert KeyAt(a, i) == KeyAt(b, i) && ChildAt(a, i) == ChildAt(b, i);
        }
        assert a.ms == b.ms;
      }
    }
  }

  lemma StrTrichotomy(s: bytes, t: bytes)
    ensures ExactlyOne(StrLess(s, t), StrLess(t, s), s == t)
  {
    StrLessTotal(s, t);
    StrLessIrreflexive(s);
    if StrLess(s, t) && StrLess(t, s) {
      StrLessTransitive(s, t, s);
    }
  }

  predicate SameKind(a: Key, b: Key) {
    a.Index? == b.Index?
  }

  lemma KeyTrichotomy(a: Key, b: Key)
    requires SameKind(a, b)
    ensures ExactlyOne(KeyLess(a, b), KeyLess(b, a), a == b)
  {
    if a.Name? {
      StrTrichotomy(a.s, b.s);
    }
  }

  lemma KeyTransitive(a: Key, b: Key, c: Key)
    requires SameKind(a, b) && SameKind(b, c) && KeyLess(a, b) && KeyLess(b, c)
    ensures KeyLess(a, c)
  {
    if a.Name? {
      StrLessTransitive(a.s, b.s, c.s);
    }
  }

  /** Of any two values exactly one is less than the other, or they are the same. */
  lemma {:induction false} Trichotomy(a: Value, b: Value)
    ensures ExactlyOne(Less(a, b), Less(b, a), a == b)
    decreases Weight(a) + Weight(b), 2, 0
  {
    hide StrLess, MapLess, Weight;
    if TypeRank(a) == TypeRank(b) {
      if a.Str? {
        StrTrichotomy(a.s, b.s);
      } else if Container(a) && Count(a) == Count(b) {
        MapTrichotomy(a, b, 0);
        SameContainer(a, b);
      }
    }
  }

  lemma {:induction false} PairTrichotomy(a: Value, b: Value, k: nat)
    requires Container(a) && TypeRank(a) == TypeRank(b) && k < Count(a) && k < Count(b)
    ensures ExactlyOne(PairLess(a, b, k), PairLess(b, a, k),
                       KeyAt(a, k) == KeyAt(b, k) && ChildAt(a, k) == ChildAt(b, k))
    decreases Weight(a) + Weight(b), 0, 0
  {
    hide Less, KeyLess, Weight;
    ChildLighter(a, k);
    ChildLighter(b, k);
    KeyTrichotomy(KeyAt(a, k), KeyAt(b, k));
    Trichotomy(ChildAt(a, k), ChildAt(b, k));
  }

  lemma {:induction false} MapTrichotomy(a: Value, b: Value, k: nat)
    requires Container(a) && TypeRank(a) == TypeRank(b) && Count(a) == Count(b) && k <= Count(a)
    ensures ExactlyOne(MapLess(a, b, k), MapLess(b, a, k), SameFrom(a, b, k))
    decreases Weight(a) + Weight(b), 1, Count(a) - k
  {
    hide PairLess, Weight;
    if k < Count(a) {
      PairTrichotomy(a, b, k);
      MapTrichotomy(a, b, k + 1);
    }
  }

  lemma {:induction false} LessTransitive(a: Value, b: Value, c: Value)
    requires Less(a, b) && Less(b, c)
    ensures Less(a, c)
    decreases Weight(a) + Weight(b) + Weight(c), 2, 0
  {
    hide StrLess, MapLess, Weight;
    if TypeRank(a) == TypeRank(b) == TypeRank(c) {
      if a.Str? {
        StrLessTransitive(a.s, b.s, c.s);
      } else if Container(a) && Count(a) == Count(b) == Count(c) {
        MapTransitive(a, b, c, 0);
      }
    }
  }

  lemma {:induction false} PairTransitive(a: Value, b: Value, c: Value, k: nat)
    requires Container(a) && TypeRank(a) == TypeRank(b) == TypeRank(c) && k < Count(a) && k < Count(b) && k < Count(c)
    requires PairLess(a, b, k) && PairLess(b, c, k)
    ensures PairLess(a, c, k)
    decreases Weight(a) + Weight(b) + Weight(c), 0, 0
  {
    hide Less, KeyLess, Weight;
    ChildLighter(a, k);
    ChildLighter(b, k);
    ChildLighter(c, k);
    KeyTrichotomy(KeyAt(a, k), KeyAt(b, k));
    KeyTrichotomy(KeyAt(b, k), KeyAt(c, k));
    KeyTrichotomy(KeyAt(a, k), KeyAt(c, k));
    if KeyLess(KeyAt(a, k), KeyAt(b, k)) && KeyLess(KeyAt(b, k), KeyAt(c, k)) {
      KeyTransitive(KeyAt(a, k), KeyAt(b, k), KeyAt(c, k));
    } else if KeyAt(a, k) == KeyAt(b, k) == KeyAt(c, k) {
      LessTransitive(ChildAt(a, k), ChildAt(b, k), ChildAt(c, k));
    }
  }

  lemma {:induction false} MapTransitive(a: Value, b: Value, c: Value, k: nat)
    requires Container(a) && TypeRank(a) == TypeRank(b) == TypeRank(c)
    requires Count(a) == Count(b) == Count(c) && k <= Count(a)
    requires MapLess(a, b, k) && MapLess(b, c, k)
    ensures MapLess(a, c, k)
    decreases Weight(a) + Weight(b) + Weight(c), 1, Count(a) - k
  {
    hide PairLess, Weight;
    PairTrichotomy(a, b, k);
    PairTrichotomy(b, c, k);
    PairTrichotomy(a, c, k);
    if PairLess(a, b, k) && PairLess(b, c, k) {
      PairTransitive(a, b, c, k);
    } else if PairLess(a, b, k) {
      PairSame(a, b, c, k);
    } else if PairLess(b, c, k) {
      PairSame(c, b, a, k);
      PairSame(a, b, c, k);
    } else {
      MapTransitive(a, b, c, k + 1);
    }
  }

  /** Pairs that are the same may stand in for each other. */
  lemma PairSame(a: Value, b: Value, c: Value, k: nat)
    requires Container(a) && TypeRank(a) == TypeRank(b) == TypeRank(c) && k < Count(a) && k < Count(b) && k < Count(c)
    ensures KeyAt(b, k) == KeyAt(c, k) && ChildAt(b, k) == ChildAt(c, k) ==>
              (PairLess(a, b, k) <==> PairLess(a, c, k)) && (PairLess(b, a, k) <==> PairLess(c, a, k))
    ensures KeyAt(a, k) == KeyAt(b, k) && ChildAt(a, k) == ChildAt(b, k) ==>
              (PairLess(a, c, k) <==> PairLess(b, c, k)) && (PairLess(c, a, k) <==> PairLess(c, b, k))
  {
    hide Less, KeyLess;
  }

  /** operator== holds exactly when neither side is less, which is when they are the same. */
  lemma {:induction false} EqualIff(a: Value, b: Value)
    ensures Equal(a, b) <==> !Less(a, b) && !Less(b, a)
    ensures Equal(a, b) <==> a == b
    decreases Weight(a) + Weight(b)
  {
    hide StrLess, MapLess, Weight, EqualAt, Less;
    Trichotomy(a, b);
    if TypeRank(a) != TypeRank(b) {
    } else if a.Str? {
      StrTrichotomy(a.s, b.s);
    } else if Container(a) && Count(a) == Count(b) {
      forall k | 0 <= k < Count(a)
        ensures EqualAt(a, b, k) <==> KeyAt(a, k) == KeyAt(b, k) && ChildAt(a, k) == ChildAt(b, k)
      {
        EqualAtIff(a, b, k);
      }
      SameContainer(a, b);
    }
  }

  lemma {:induction false} EqualAtIff(a: Value, b: Value, k: nat)
    requires Container(a) && TypeRank(a) == TypeRank(b) && k < Count(a) && k < Count(b)
    ensures EqualAt(a, b, k) <==> KeyAt(a, k) == KeyAt(b, k) && ChildAt(a, k) == ChildAt(b, k)
    decreases Weight(a) + Weight(b), 0
  {
    hide Equal, KeyLess, Weight;
    ChildLighter(a, k);
    ChildLighter(b, k);
    KeyTrichotomy(KeyAt(a, k), KeyAt(b, k));
    EqualIff(ChildAt(a, k), ChildAt(b, k));
  }

  // ----------------------------------------------------------- which order

  /** The kinds are in the order of ValueType. */
  lemma KindsInOrder(i: int, u: int, r: real, s: bytes, x: bool, es: seq<(nat, Value)>, ms: seq<(bytes, Value)>)
    ensures Less(Null, Int(i)) && Less(Int(i), UInt(u)) && Less(UInt(u), Real(r)) && Less(Real(r), Str(s))
    ensures Less(Str(s), Bool(x)) && Less(Bool(x), Array(es)) && Less(Array(es), Object(ms))
  {
  }

  /** strcmp: the first differing byte decides, or the end of the shorter string. */
  ghost predicate StrFirst(s: bytes, t: bytes, k: nat) {
    k <= |s| && k < |t| && s[..k] == t[..k] && (k == |s| || s[k] < t[k])
  }

  lemma StrFirstHead(s: bytes, t: bytes, k: nat)
    requires StrFirst(s, t, k)
    ensures k > 0 ==> s != [] && s[0] == t[0]
  {
    if k > 0 {
      assert s[0] == s[..k][0] && t[0] == t[..k][0];
    }
  }

  lemma {:induction false} StrLessIff(s: bytes, t: bytes)
    ensures StrLess(s, t) <==> exists k: nat :: StrFirst(s, t, k)
  {
    if s == [] || t == [] || s[0] != t[0] {
      if k: nat :| StrFirst(s, t, k) {
        StrFirstHead(s, t, k);
      }
      if StrLess(s, t) {
        assert StrFirst(s, t, 0);
      }
    } else {
      StrLessIff(s[1..], t[1..]);
      if k: nat :| StrFirst(s, t, k) {
        assert s[1..][..k - 1] == s[..k][1..] && t[1..][..k - 1] == t[..k][1..];
        assert StrFirst(s[1..], t[1..], k - 1);
      }
      if k: nat :| StrFirst(s[1..], t[1..], k) {
        assert s[..k + 1] == [s[0]] + s[1..][..k] && t[..k + 1] == [t[0]] + t[1..][..k];
        assert StrFirst(s, t, k + 1);
      }
    }
  }

  /** From `from` on, `k` is the first place where two containers differ, and there the first
      one has the smaller key, or the smaller value under the same key. */
  ghost predicate FirstLess(a: Value, b: Value, from: nat, k: nat)
    requires Container(a) && Container(b) && Count(a) == Count(b)
  {
    && from <= k < Count(a)
    && (forall i | from <= i < k :: KeyAt(a, i) == KeyAt(b, i) && ChildAt(a, i) == ChildAt(b, i))
    && (KeyLess(KeyAt(a, k), KeyAt(b, k)) || (KeyAt(a, k) == KeyAt(b, k) && Less(ChildAt(a, k), ChildAt(b, k))))
  }

  lemma PairIff(a: Value, b: Value, k: nat)
    requires Container(a) && TypeRank(a) == TypeRank(b) && k < Count(a) && k < Count(b)
    ensures PairLess(a, b, k) <==>
              KeyLess(KeyAt(a, k), KeyAt(b, k)) || (KeyAt(a, k) == KeyAt(b, k) && Less(ChildAt(a, k), ChildAt(b, k)))
  {
    hide Less, KeyLess;
    KeyTrichotomy(KeyAt(a, k), KeyAt(b, k));
  }

  lemma {:induction false} MapLessIff(a: Value, b: Value, from: nat)
    requires Container(a) && TypeRank(a) == TypeRank(b) && Count(a) == Count(b) && from <= Count(a)
    ensures MapLess(a, b, from) <==> exists k: nat :: FirstLess(a, b, from, k)
    decreases Count(a) - from
  {
    hide Less, KeyLess, PairLess, Weight;
    if from < Count(a) {
      PairIff(a, b, from);
      PairTrichotomy(a, b, from);
      MapLessIff(a, b, from + 1);
      if k: nat :| FirstLess(a, b, from, k) {
        assert k > from ==> FirstLess(a, b, from + 1, k);
      }
      var next := from + 1;
      if k: nat :| FirstLess(a, b, next, k) {
        assert KeyAt(a, from) == KeyAt(b, from) && ChildAt(a, from) == ChildAt(b, from) ==> FirstLess(a, b, from, k);
      }
      if PairLess(a, b, from) {
        assert FirstLess(a, b, from, from);
      }
    }
  }

  /** Within a kind: numbers by value, false before true, strings by their bytes, containers
      by their size and then by the first place where they differ. */
  lemma LessIff(a: Value, b: Value)
    requires TypeRank(a) == TypeRank(b)
    ensures
      Less(a, b) <==>
        || (a.Int? && a.i < b.i) || (a.UInt? && a.u < b.u) || (a.Real? && a.r < b.r) || (a.Bool? && !a.b && b.b)
        || (a.Str? && exists k: nat :: StrFirst(a.s, b.s, k))
        || (Container(a) && Count(a) < Count(b))
        || (Container(a) && Count(a) == Count(b) && exists k: nat :: FirstLess(a, b, 0, k))
  {
    hide StrLess, MapLess, Weight, FirstLess, StrFirst;
    if a.Str? {
      StrLessIff(a.s, b.s);
    } else if Container(a) && Count(a) == Count(b) {
      MapLessIff(a, b, 0);
    }
  }
}
