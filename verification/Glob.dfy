/** The glob matcher of mongoose: "?" and "*" stop at nothing and at "/", "**" at nothing,
    "$" is the end, "|" separates alternatives. */
module Glob {
  import opened Wrappers
  import opened Bytes

  const QUESTION: byte := 0x3F
  const DOLLAR: byte := 0x24
  const STAR: byte := 0x2A
  const BAR: byte := 0x7C
  const SLASH: byte := 0x2F

  /** How much of `s` a single star can take. */
  function Segment(s: bytes): (n: nat)
    ensures n <= |s|
  {
    if s == [] || s[0] == SLASH then 0 else 1 + Segment(s[1..])
  }

  /** The wildcards at the start of a pattern: how many characters they are, and how much
      of the text they can take. */
  function Stars(p: bytes): nat
    requires p != []
  {
    if |p| > 1 && p[1] == STAR then 2 else 1
  }

  function Reach(p: bytes, s: bytes): (n: nat)
    requires p != []
    ensures n <= |s|
  {
    if Stars(p) == 2 then |s| else Segment(s)
  }

  // ----------------------------------------------------- what patterns mean

  /** What a wildcard may take of `s`: a single star no "/", two of them anything. */
  ghost predicate Takes(double: bool, s: bytes, k: nat) {
    k <= |s| && (double || SLASH !in s[..k])
  }

  /** The pattern, without alternatives, matches the first `n` bytes of `s`. A "$" ends the
      pattern, whatever follows it. */
  ghost predicate Matches(p: bytes, s: bytes, n: nat)
    decreases |p|
  {
    if p == [] then n == 0
    else if p[0] == DOLLAR then s == [] && n == 0
    else if [STAR, STAR] <= p then exists k | 0 <= k <= n && Takes(true, s, k) :: Matches(p[2..], s[k..], n - k)
    else if p[0] == STAR then exists k | 0 <= k <= n && Takes(false, s, k) :: Matches(p[1..], s[k..], n - k)
    else
      && s != [] && n > 0 && (p[0] == QUESTION || SameLetter(p[0], s[0]))
      && Matches(p[1..], s[1..], n - 1)
  }

  // -------------------------------------------------------- how it is done

  function Shift(k: nat, r: Option<nat>): Option<nat> {
    if r.None? then None else Some(k + r.value)
  }

  /** mg_match_prefix_n without alternatives: wildcards take as much as they can. */
  function Match(p: bytes, s: bytes): (r: Option<nat>)
    decreases |p|, 1, 0
  {
    if p == [] then Some(0)
    else if p[0] == DOLLAR then if s == [] then Some(0) else None
    else if p[0] == STAR then Backtrack(p[Stars(p)..], s, Reach(p, s))
    else if s == [] || !(p[0] == QUESTION || Lower(p[0]) == Lower(s[0])) then None
    else Shift(1, Match(p[1..], s[1..]))
  }

  /** The rest of the pattern, with the wildcard taking `len` bytes, or fewer. */
  function Backtrack(rest: bytes, s: bytes, len: nat): (r: Option<nat>)
    requires len <= |s|
    decreases |rest|, 2, len
  {
    if Match(rest, s[len..]).Some? then Shift(len, Match(rest, s[len..]))
    else if len == 0 then None
    else Backtrack(rest, s, len - 1)
  }

  /** A result is a match. */
  lemma {:induction false} MatchSound(p: bytes, s: bytes)
    requires Match(p, s).Some?
    ensures Match(p, s).value <= |s| && Matches(p, s, Match(p, s).value)
    decreases |p|, 1, 0
  {
    if p == [] || p[0] == DOLLAR {
    } else if p[0] == STAR {
      hide Match, Matches, Backtrack, Reach;
      var k := BacktrackSound(p[Stars(p)..], s, Reach(p, s));
      StarUnfolds(p, s);
      StarMatches(p, s, k, Backtrack(p[Stars(p)..], s, Reach(p, s)).value);
    } else {
      LowerIff(p[0], s[0]);
      MatchSound(p[1..], s[1..]);
    }
  }

  lemma StarUnfolds(p: bytes, s: bytes)
    requires p != [] && p[0] == STAR
    ensures Match(p, s) == Backtrack(p[Stars(p)..], s, Reach(p, s))
  {
    hide Backtrack;
  }

  lemma {:induction false} SegmentIff(s: bytes, k: nat)
    ensures k <= Segment(s) <==> Takes(false, s, k)
  {
    if 0 < k <= |s| {
      assert s[..k] == [s[0]] + s[1..][..k - 1];
      SegmentIff(s[1..], k - 1);
    }
  }

  /** The reach of a wildcard is the most it may take. */
  lemma ReachIff(p: bytes, s: bytes, k: nat)
    requires p != [] && p[0] == STAR
    ensures k <= Reach(p, s) <==> Takes([STAR, STAR] <= p, s, k)
    ensures Stars(p) == if [STAR, STAR] <= p then 2 else 1
  {
    hide Segment;
    SegmentIff(s, k);
  }

  lemma StarMatches(p: bytes, s: bytes, k: nat, n: nat)
    requires p != [] && p[0] == STAR && k <= Reach(p, s) && k <= n && Matches(p[Stars(p)..], s[k..], n - k)
    ensures Matches(p, s, n)
  {
    hide Reach, Stars, Takes;
    ReachIff(p, s, k);
  }

  lemma {:induction false} BacktrackSound(rest: bytes, s: bytes, len: nat) returns (k: nat)
    requires len <= |s| && Backtrack(rest, s, len).Some?
    ensures
      var n := Backtrack(rest, s, len).value;
      k <= len && k <= n <= |s| && Matches(rest, s[k..], n - k)
    decreases |rest|, 2, len
  {
    hide Match, Matches;
    if Match(rest, s[len..]).Some? {
      MatchSound(rest, s[len..]);
      k := len;
    } else {
      k := BacktrackSound(rest, s, len - 1);
    }
  }

  /** Wherever there is a match, one is found. */
  lemma {:induction false} MatchComplete(p: bytes, s: bytes, n: nat)
    requires Matches(p, s, n) && n <= |s|
    ensures Match(p, s).Some?
    decreases |p|, 1, 0
  {
    if p == [] || p[0] == DOLLAR {
    } else if p[0] == STAR {
      hide Match, Matches, Backtrack, Reach;
      var k := StarTakes(p, s, n);
      StarUnfolds(p, s);
      BacktrackComplete(p[Stars(p)..], s, Reach(p, s), k, n - k);
    } else {
      LowerIff(p[0], s[0]);
      MatchComplete(p[1..], s[1..], n - 1);
    }
  }

  lemma StarTakes(p: bytes, s: bytes, n: nat) returns (k: nat)
    requires p != [] && p[0] == STAR && Matches(p, s, n)
    ensures k <= Reach(p, s) && k <= n && Matches(p[Stars(p)..], s[k..], n - k)
  {
    hide Reach, Stars;
    if [STAR, STAR] <= p {
      k :| 0 <= k <= n && Takes(true, s, k) && Matches(p[2..], s[k..], n - k);
    } else {
      k :| 0 <= k <= n && Takes(false, s, k) && Matches(p[1..], s[k..], n - k);
    }
    ReachIff(p, s, k);
  }

  lemma {:induction false} BacktrackComplete(rest: bytes, s: bytes, len: nat, k: nat, m: nat)
    requires k <= len <= |s| && m <= |s| - k && Matches(rest, s[k..], m)
    ensures Backtrack(rest, s, len).Some?
    decreases |rest|, 2, len
  {
    hide Match, Matches;
    if k == len {
      MatchComplete(rest, s[k..], m);
    } else if Match(rest, s[len..]).None? {
      BacktrackComplete(rest, s, len - 1, k, m);
    }
  }

  /** A wildcard takes the longest stretch behind which the rest of the pattern matches. */
  lemma {:induction false} BacktrackLongest(rest: bytes, s: bytes, len: nat) returns (k: nat)
    requires len <= |s| && Backtrack(rest, s, len).Some?
    ensures k <= len && Match(rest, s[k..]).Some? && Backtrack(rest, s, len) == Shift(k, Match(rest, s[k..]))
    ensures forall j | k < j <= len :: Match(rest, s[j..]).None?
    decreases len
  {
    hide Match;
    if Match(rest, s[len..]).Some? {
      k := len;
    } else {
      k := BacktrackLongest(rest, s, len - 1);
    }
  }

  /** There is a result exactly when the pattern matches some prefix, and it is the length
      of one. */
  lemma MatchIff(p: bytes, s: bytes)
    ensures Match(p, s).Some? <==> exists n: nat | n <= |s| :: Matches(p, s, n)
    ensures Match(p, s).Some? ==> Match(p, s).value <= |s| && Matches(p, s, Match(p, s).value)
  {
    hide Match, Matches;
    if Match(p, s).Some? {
      MatchSound(p, s);
    }
    if n: nat :| n <= |s| && Matches(p, s, n) {
      MatchComplete(p, s, n);
    }
  }

  /** A wildcard takes the longest stretch it may take that lets the rest of the pattern
      match, and there is no result if no stretch does. */
  lemma StarLongest(p: bytes, s: bytes) returns (k: nat)
    requires p != [] && p[0] == STAR
    ensures
      var double := [STAR, STAR] <= p;
      var rest := p[if double then 2 else 1..];
      if Match(p, s).None? then forall j: nat | Takes(double, s, j) :: Match(rest, s[j..]).None?
      else
        && Takes(double, s, k) && Match(p, s) == Shift(k, Match(rest, s[k..]))
        && forall j: nat | j > k && Takes(double, s, j) :: Match(rest, s[j..]).None?
  {
    hide Match, Backtrack, Reach;
    var rest := p[Stars(p)..];
    StarUnfolds(p, s);
    ReachIff(p, s, 0);
    k := 0;
    if Match(p, s).Some? {
      k := BacktrackLongest(rest, s, Reach(p, s));
      ReachIff(p, s, k);
      forall j: nat | j > k && Takes([STAR, STAR] <= p, s, j) ensures Match(rest, s[j..]).None? {
        ReachIff(p, s, j);
      }
    } else {
      forall j: nat | Takes([STAR, STAR] <= p, s, j) ensures Match(rest, s[j..]).None? {
        ReachIff(p, s, j);
        BacktrackNone(rest, s, Reach(p, s), j);
      }
    }
  }

  lemma {:induction false} BacktrackNone(rest: bytes, s: bytes, len: nat, j: nat)
    requires j <= len <= |s| && Backtrack(rest, s, len).None?
    ensures Match(rest, s[j..]).None?
  {
    hide Match;
    if j < len {
      BacktrackNone(rest, s, len - 1, j);
    }
  }

  // ------------------------------------------------------------ alternatives

  /** The pattern cut at its bars. */
  function Alternatives(p: bytes): (r: seq<bytes>)
    ensures r != []
    decreases |p|
  {
    var k := FindMark(p, [BAR]);
    if k == |p| then [p] else [p[..k]] + Alternatives(p[k + 1..])
  }

  ghost function Joined(r: seq<bytes>): bytes
    requires r != []
  {
    if |r| == 1 then r[0] else r[0] + [BAR] + Joined(r[1..])
  }

  /** Put together with bars they are the pattern again, and none holds a bar. */
  lemma {:induction false} AlternativesJoin(p: bytes)
    ensures Joined(Alternatives(p)) == p && forall a <- Alternatives(p) :: BAR !in a
    decreases |p|
  {
    hide FindMark;
    var k := FindMark(p, [BAR]);
    FirstBar(p);
    if k < |p| {
      AlternativesJoin(p[k + 1..]);
      assert Alternatives(p)[1..] == Alternatives(p[k + 1..]);
      assert p == p[..k] + [BAR] + p[k + 1..];
    }
  }

  lemma {:induction false} FirstBar(p: bytes)
    ensures
      var k := FindMark(p, [BAR]);
      BAR !in p[..k] && (k < |p| ==> p[k] == BAR)
  {
    if p != [] && p[0] != BAR {
      FirstBar(p[1..]);
      var k := FindMark(p[1..], [BAR]);
      assert p[..1] == [p[0]];
      assert p[..k + 1] == [p[0]] + p[1..][..k];
    }
  }

  /** mg_match_prefix_n */
  function MatchAny(p: bytes, s: bytes): Option<nat>
    decreases |p|
  {
    var k := FindMark(p, [BAR]);
    if k == |p| then Match(p, s)
    else if Match(p[..k], s).GetOr(0) > 0 then Match(p[..k], s)
    else MatchAny(p[k + 1..], s)
  }

  predicate Positive(p: bytes, s: bytes) {
    Match(p, s).GetOr(0) > 0
  }

  /** The first positive result of a list of alternatives, or that of the last one. */
  function Pick(r: seq<bytes>, s: bytes): Option<nat>
    requires r != []
    decreases |r|
  {
    if |r| == 1 || Positive(r[0], s) then Match(r[0], s) else Pick(r[1..], s)
  }

  lemma {:induction false} MatchAnyPicks(p: bytes, s: bytes)
    ensures MatchAny(p, s) == Pick(Alternatives(p), s)
    decreases |p|
  {
    hide Match;
    var k := FindMark(p, [BAR]);
    if k < |p| {
      MatchAnyPicks(p[k + 1..], s);
      assert Alternatives(p)[1..] == Alternatives(p[k + 1..]);
    }
  }

  lemma {:induction false} PickAt(r: seq<bytes>, s: bytes, i: nat)
    requires i < |r| && (Positive(r[i], s) || i == |r| - 1) && forall j | 0 <= j < i :: !Positive(r[j], s)
    ensures Pick(r, s) == Match(r[i], s)
    decreases |r|
  {
    hide Match, Positive;
    if i > 0 {
      assert forall j | 0 <= j < i - 1 :: r[1..][j] == r[j + 1];
      PickAt(r[1..], s, i - 1);
    }
  }

  /** The result is that of the first alternative whose result is positive, and of the last
      one if none is; so it is positive exactly when an alternative's is. */
  lemma MatchAnyIff(p: bytes, s: bytes) returns (i: nat)
    ensures
      var r := Alternatives(p);
      && i < |r| && (forall j | 0 <= j < i :: !Positive(r[j], s))
      && (Positive(r[i], s) || (i == |r| - 1 && forall j | 0 <= j < |r| :: !Positive(r[j], s)))
      && MatchAny(p, s) == Match(r[i], s)
      && (MatchAny(p, s).GetOr(0) > 0 <==> exists j | 0 <= j < |r| :: Positive(r[j], s))
  {
    hide Match, Alternatives, MatchAny, Pick;
    var r := Alternatives(p);
    i := 0;
    while i < |r| - 1 && !Positive(r[i], s)
      invariant i < |r| && forall j | 0 <= j < i :: !Positive(r[j], s)
    {
      i := i + 1;
    }
    MatchAnyPicks(p, s);
    PickAt(r, s, i);
  }

  // ------------------------------------------------------------- the matcher

  predicate NoNul(s: bytes) {
    forall c <- s :: c != 0
  }

  /** Text and pattern are taken to end in a NUL. */
  function At(s: bytes, i: nat): byte {
    if i < |s| then s[i] else 0
  }

  function Result(r: Option<nat>): int {
    if r.None? then -1 else r.value
  }

  /** mg_match_prefix_n, as it runs: -1, or how much of the text is matched. */
  method MatchPrefixN(pattern: bytes, str: bytes) returns (res: int)
    requires NoNul(pattern)
    ensures res == Result(MatchAny(pattern, str))
    decreases |pattern|, 1
  {
    hide Match, FindMark;
    var bar := FindMark(pattern, [BAR]);
    if bar < |pattern| {
      NoNulParts(pattern, bar);
      NoBarInside(pattern, bar);
      res := MatchPrefixN(pattern[..bar], str);
      if res > 0 {
        return;
      }
      res := MatchPrefixN(pattern[bar + 1..], str);
    } else {
      res := MatchOne(pattern, str);
    }
  }

  method MatchOne(pattern: bytes, str: bytes) returns (res: int)
    requires NoNul(pattern) && FindMark(pattern, [BAR]) == |pattern|
    ensures res == Result(Match(pattern, str))
    decreases |pattern|, 0
  {
    hide Match, FindMark, Segment;
    var i, j := 0, 0;
    assert pattern[0..] == pattern && str[0..] == str;
    while i < |pattern|
      invariant 0 <= i <= |pattern| && 0 <= j <= |str|
      invariant Match(pattern, str) == Shift(j, Match(pattern[i..], str[j..]))
    {
      assert pattern[i] in pattern;
      MatchStep(pattern, str, i, j);
      if pattern[i] == QUESTION && j != |str| {
      } else if pattern[i] == DOLLAR {
        return if j == |str| then j else -1;
      } else if pattern[i] == STAR {
        res := MatchStar(pattern, str, i, j);
        return;
      } else if Lower(pattern[i]) != Lower(At(str, j)) {
        return -1;
      }
      i, j := i + 1, j + 1;
    }
    MatchNothing(pattern[i..], str[j..]);
    res := j;
  }

  /** A wildcard: the longest stretch first, then back to shorter ones. */
  method MatchStar(pattern: bytes, str: bytes, star: nat, j: nat) returns (res: int)
    requires NoNul(pattern) && FindMark(pattern, [BAR]) == |pattern|
    requires star < |pattern| && pattern[star] == STAR && j <= |str|
    ensures res == Result(Shift(j, Match(pattern[star..], str[j..])))
    decreases |pattern|, 0, 0
  {
    hide Match, FindMark;
    var p, s := pattern[star..], str[j..];
    var i := star + 1;
    var len: nat;
    if At(pattern, i) == STAR {
      i := i + 1;
      len := |str| - j;
    } else {
      len := SegmentLength(s);
    }
    assert p[0] == STAR && Stars(p) == i - star && len == Reach(p, s);
    StarUnfolds(p, s);
    assert p[Stars(p)..] == pattern[i..];
    if i == |pattern| {
      EmptyRest(pattern[i..], s, len);
      return j + len;
    }
    NoNulSuffix(pattern, i);
    NoBarSuffix(pattern, i);
    res := MatchPrefixN(pattern[i..], str[j + len..]);
    assert str[j + len..] == s[len..];
    while res == -1 && len > 0
      invariant len <= |s|
      invariant res == Result(Match(pattern[i..], s[len..]))
      invariant Match(p, s) == Backtrack(pattern[i..], s, len)
    {
      len := len - 1;
      assert str[j + len..] == s[len..];
      res := MatchPrefixN(pattern[i..], str[j + len..]);
    }
    res := if res == -1 then -1 else j + res + len;
  }

  method SegmentLength(s: bytes) returns (len: nat)
    ensures len == Segment(s)
  {
    len := 0;
    while len != |s| && s[len] != SLASH
      invariant len <= |s| && Segment(s) == len + Segment(s[len..])
    {
      assert s[len..][0] == s[len] && s[len..][1..] == s[len + 1..];
      len := len + 1;
    }
    assert len < |s| ==> s[len..][0] == s[len];
  }

  lemma MatchStep(pattern: bytes, str: bytes, i: nat, j: nat)
    requires i < |pattern| && j <= |str| && pattern[i] != 0
    ensures
      var c, r := pattern[i], Match(pattern[i..], str[j..]);
      && (c == DOLLAR ==> r == if j == |str| then Some(0) else None)
      && (c != DOLLAR && c != STAR ==>
            r == if j == |str| || !(c == QUESTION || Lower(c) == Lower(str[j])) then None
                 else Shift(1, Match(pattern[i + 1..], str[j + 1..])))
  {
    assert pattern[i..][0] == pattern[i] && pattern[i..][1..] == pattern[i + 1..];
    if j < |str| {
      assert str[j..][0] == str[j] && str[j..][1..] == str[j + 1..];
    }
  }

  lemma MatchNothing(p: bytes, s: bytes)
    requires p == []
    ensures Match(p, s) == Some(0)
  {
  }

  lemma EmptyRest(rest: bytes, s: bytes, len: nat)
    requires rest == [] && len <= |s|
    ensures Backtrack(rest, s, len) == Some(len)
  {
    MatchNothing(rest, s[len..]);
    assert Match(rest, s[len..]).Some?;
    assert Backtrack(rest, s, len) == Shift(len, Match(rest, s[len..]));
  }

  lemma NoNulParts(p: bytes, k: nat)
    requires NoNul(p) && k < |p|
    ensures NoNul(p[..k]) && NoNul(p[k + 1..])
  {
    assert forall c <- p[..k] :: c in p;
    NoNulSuffix(p, k + 1);
  }

  lemma NoNulSuffix(p: bytes, k: nat)
    requires NoNul(p) && k <= |p|
    ensures NoNul(p[k..])
  {
    assert forall c <- p[k..] :: c in p;
  }

  lemma {:induction false} NoBarInside(p: bytes, k: nat)
    requires k == FindMark(p, [BAR]) && k < |p|
    ensures FindMark(p[..k], [BAR]) == k
    decreases k
  {
    if k > 0 {
      assert p[..k][1..] == p[1..][..k - 1];
      NoBarInside(p[1..], k - 1);
      assert p[..k][0] == p[0];
      assert p[..1] == [p[0]];
      assert p[0] != BAR;
    }
  }

  lemma {:induction false} NoBarSuffix(p: bytes, k: nat)
    requires FindMark(p, [BAR]) == |p| && k <= |p|
    ensures FindMark(p[k..], [BAR]) == |p| - k
    decreases k
  {
    if k > 0 {
      assert p[k..] == p[1..][k - 1..];
      NoBarSuffix(p[1..], k - 1);
    } else {
      assert p[0..] == p;
    }
  }
}
