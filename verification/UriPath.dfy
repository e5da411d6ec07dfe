/** Removing "." and ".." from a path in place, against the algorithm of section 5.2.4 of
    RFC 3986. */
module UriPath {
  import opened Bytes

  const SLASH: byte := 0x2F
  const DOT: bytes := [0x2E]
  const DOTS: bytes := [0x2E, 0x2E]

  predicate NoSlash(s: bytes) {
    forall c <- s :: c != SLASH
  }

  /** The bytes up to the next slash. */
  function Component(s: bytes): (n: nat)
    ensures n <= |s|
  {
    if s == [] || s[0] == SLASH then 0 else 1 + Component(s[1..])
  }

  lemma {:induction false} ComponentEnds(s: bytes)
    ensures Component(s) < |s| ==> s[Component(s)] == SLASH
    ensures NoSlash(s[..Component(s)])
  {
    if s != [] && s[0] != SLASH {
      ComponentEnds(s[1..]);
      var n := Component(s);
      assert s[..n] == [s[0]] + s[1..][..n - 1];
    }
  }

  lemma {:induction false} ComponentOf(c: bytes, rest: bytes)
    requires NoSlash(c) && (rest == [] || rest[0] == SLASH)
    ensures Component(c + rest) == |c|
  {
    if c == [] {
      assert c + rest == rest;
    } else {
      assert c[0] in c && (c + rest)[1..] == c[1..] + rest;
      assert forall x <- c[1..] :: x in c;
      ComponentOf(c[1..], rest);
    }
  }

  /** The first component, and what follows: nothing, or a slash and more. */
  lemma SplitFirst(s: bytes) returns (c: bytes, rest: bytes)
    ensures s == c + rest && NoSlash(c) && (rest != [] ==> rest[0] == SLASH) && Component(s) == |c|
    ensures c == s[..|c|] && rest == s[|c|..]
    ensures rest != [] ==> rest == [SLASH] + s[|c| + 1..] && |c| + 1 <= |s|
  {
    ComponentEnds(s);
    c, rest := s[..Component(s)], s[Component(s)..];
    assert rest != [] ==> rest[0] == s[Component(s)];
  }

  // ------------------------------------------------------------- the standard

  /** The output buffer without its last segment and the slash before it. */
  function RemoveLast(output: bytes): (r: bytes)
    ensures |r| <= |output|
  {
    if output == [] then []
    else if output[|output| - 1] == SLASH then output[..|output| - 1]
    else RemoveLast(output[..|output| - 1])
  }

  /** remove_dot_segments, on input that starts with a slash. */
  function RemoveDots(input: bytes, output: bytes): (r: bytes)
    requires input != [] ==> input[0] == SLASH
    decreases |input|, if |input| <= 3 && input != [SLASH] then 1 else 0
  {
    if input == [] then output
    else if [SLASH] + DOT + [SLASH] <= input then RemoveDots(input[2..], output)
    else if input == [SLASH] + DOT then RemoveDots([SLASH], output)
    else if [SLASH] + DOTS + [SLASH] <= input then RemoveDots(input[3..], RemoveLast(output))
    else if input == [SLASH] + DOTS then RemoveDots([SLASH], RemoveLast(output))
    else
      ComponentEnds(input[1..]);
      var n := 1 + Component(input[1..]);
      RemoveDots(input[n..], output + input[..n])
  }

  // ------------------------------------------------------------ the algorithm

  /** Back to behind the previous slash. */
  function BackUp(d: bytes): (r: bytes)
    ensures |r| <= |d|
  {
    ToSlash(if |d| > 1 && d[|d| - 1] == SLASH then d[..|d| - 1] else d)
  }

  function ToSlash(d: bytes): (r: bytes)
    ensures |r| <= |d|
  {
    if d == [] || d[|d| - 1] == SLASH then d else ToSlash(d[..|d| - 1])
  }

  /** mg_normalize_uri_path, once `d` has been written and `s` is still to be read. */
  function Normalize(s: bytes, d: bytes): (r: bytes)
    decreases |s|
  {
    if s == [] then d
    else
      var k := Component(s);
      var next := if k < |s| then k + 1 else k;
      Normalize(s[next..],
                if s[..k] == DOT then d else if s[..k] == DOTS then BackUp(d) else d + s[..next])
  }

  // -------------------------------------------------------------- refinement

  /** `d` is `output` with a slash behind it, and `output` is empty or starts with one. */
  ghost predicate Rooted(output: bytes) {
    output == [] || output[0] == SLASH
  }

  lemma {:induction false} BackUpRemoves(output: bytes)
    requires Rooted(output)
    ensures Rooted(RemoveLast(output)) && BackUp(output + [SLASH]) == RemoveLast(output) + [SLASH]
  {
    var d := output + [SLASH];
    if output == [] {
      assert ToSlash(d) == d;
    } else {
      assert d[..|d| - 1] == output;
      ToSlashRemoves(output);
    }
  }

  lemma {:induction false} ToSlashRemoves(output: bytes)
    requires output != [] && output[0] == SLASH
    ensures Rooted(RemoveLast(output)) && ToSlash(output) == RemoveLast(output) + [SLASH]
  {
    if output[|output| - 1] == SLASH {
      assert output == output[..|output| - 1] + [SLASH];
    } else {
      ToSlashRemoves(output[..|output| - 1]);
    }
  }

  /** One component of input, as the standard treats it. */
  lemma StandardStep(c: bytes, rest: bytes, output: bytes)
    requires NoSlash(c) && Rooted(output) && (rest != [] ==> rest[0] == SLASH)
    ensures
      RemoveDots([SLASH] + (c + rest), output)
      == if c == DOT then RemoveDots(if rest == [] then [SLASH] else rest, output)
         else if c == DOTS then RemoveDots(if rest == [] then [SLASH] else rest, RemoveLast(output))
         else RemoveDots(rest, output + ([SLASH] + c))
  {
    hide RemoveLast, Component;
    var input := [SLASH] + (c + rest);
    ComponentOf(c, rest);
    assert input[1..] == c + rest;
    assert input[..1 + |c|] == [SLASH] + c && input[1 + |c|..] == rest;
    if c == DOT {
      assert rest == [] ==> input == [SLASH] + DOT;
      assert rest != [] ==> input[..3] == [SLASH] + DOT + [SLASH] && input[2..] == rest;
    } else if c == DOTS {
      assert input[2] == 0x2E;
      assert rest == [] ==> input == [SLASH] + DOTS;
      assert rest != [] ==> input[..4] == [SLASH] + DOTS + [SLASH] && input[3..] == rest;
    } else {
      NotDots(c, rest);
    }
  }

  lemma NotDots(c: bytes, rest: bytes)
    requires NoSlash(c) && c != DOT && c != DOTS && (rest != [] ==> rest[0] == SLASH)
    ensures
      var input := [SLASH] + (c + rest);
      && !([SLASH] + DOT + [SLASH] <= input) && input != [SLASH] + DOT
      && !([SLASH] + DOTS + [SLASH] <= input) && input != [SLASH] + DOTS
  {
    var input := [SLASH] + (c + rest);
    assert rest != [] ==> input[1 + |c|] == SLASH;
    if |c| > 0 {
      assert input[1] == c[0];
    }
    if |c| > 1 {
      assert input[2] == c[1] && c[1] in c;
    }
    if |c| > 2 {
      assert input[3] == c[2] && c[2] in c;
    }
    if |c| == 1 {
      assert c == [c[0]];
    } else if |c| == 2 {
      assert c == [c[0], c[1]];
    }
  }

  lemma LastSlash(output: bytes)
    ensures RemoveDots([SLASH], output) == output + [SLASH]
  {
    assert [SLASH] != [SLASH] + DOT && [SLASH] != [SLASH] + DOTS;
    assert [SLASH][1..] == [] && [SLASH][..1] == [SLASH];
  }

  /** One component of input, as the code treats it. */
  lemma CodeStep(s: bytes, c: bytes, rest: bytes, d: bytes)
    requires s == c + rest && s != [] && NoSlash(c) && (rest != [] ==> rest[0] == SLASH)
    ensures rest == [] ==> Normalize(s, d) == if c == DOT then d else if c == DOTS then BackUp(d) else d + c
    ensures rest != [] ==>
              Normalize(s, d)
              == Normalize(rest[1..], if c == DOT then d else if c == DOTS then BackUp(d) else d + (c + [SLASH]))
  {
    hide BackUp;
    ComponentOf(c, rest);
    assert s[..|c|] == c;
    if rest == [] {
      assert s[|s|..] == [] && s == c;
    } else {
      assert s[|c| + 1..] == rest[1..] && s[..|c| + 1] == c + [SLASH];
    }
  }

  /** What both have, apart from a slash, behind one component. */
  function After(c: bytes, output: bytes): bytes {
    if c == DOT then output else if c == DOTS then RemoveLast(output) else output + ([SLASH] + c)
  }

  lemma AfterSlash(c: bytes, output: bytes)
    requires Rooted(output)
    ensures Rooted(After(c, output))
    ensures After(c, output) + [SLASH]
            == if c == DOT then output + [SLASH] else if c == DOTS then BackUp(output + [SLASH])
               else output + [SLASH] + (c + [SLASH])
  {
    hide RemoveLast, BackUp;
    BackUpRemoves(output);
    Assoc(output, [SLASH], c + [SLASH]);
    Assoc(output, [SLASH] + c, [SLASH]);
    Assoc([SLASH], c, [SLASH]);
  }

  /** The code computes what the standard says. */
  lemma {:induction false} Refines(s: bytes, output: bytes)
    requires Rooted(output)
    ensures Normalize(s, output + [SLASH]) == RemoveDots([SLASH] + s, output)
    decreases |s|
  {
    hide RemoveDots, RemoveLast, BackUp, Normalize, Component, Rooted;
    if s == [] {
      LastSlash(output);
      NothingLeft(output + [SLASH]);
      assert [SLASH] + s == [SLASH];
    } else {
      var c, rest := SplitFirst(s);
      StandardStep(c, rest, output);
      CodeStep(s, c, rest, output + [SLASH]);
      AfterSlash(c, output);
      var now := After(c, output);
      if rest == [] {
        LastSlash(output);
        LastSlash(RemoveLast(output));
        Assoc(output, [SLASH], c);
        NothingLeft(now);
      } else {
        assert [SLASH] + rest[1..] == rest;
        Refines(rest[1..], now);
      }
    }
  }

  lemma NothingLeft(output: bytes)
    ensures RemoveDots([], output) == output && Normalize([], output) == output
  {
  }

  /** The result of the code for a whole path. */
  function NormalizePath(path: bytes): bytes
    requires path != [] && path[0] == SLASH
  {
    Normalize(path[1..], [SLASH])
  }

  lemma PathRefines(path: bytes)
    requires path != [] && path[0] == SLASH
    ensures NormalizePath(path) == RemoveDots(path, [])
  {
    Refines(path[1..], []);
    assert [] + [SLASH] == [SLASH] && [SLASH] + path[1..] == path;
  }

  // -------------------------------------------------------------- no dots left

  /** No component between slashes is "." or "..". */
  predicate Plain(s: bytes)
    decreases |s|
  {
    var k := Component(s);
    s[..k] != DOT && s[..k] != DOTS && (k < |s| ==> Plain(s[k + 1..]))
  }

  lemma {:induction false} PlainConcat(a: bytes, c: bytes)
    requires NoSlash(c)
    ensures Plain(a + [SLASH] + c) <==> Plain(a) && c != DOT && c != DOTS
    decreases |a|
  {
    var s := a + [SLASH] + c;
    var k := Component(a);
    ComponentEnds(a);
    ComponentOf(a[..k], a[k..] + [SLASH] + c);
    assert s == a[..k] + (a[k..] + [SLASH] + c);
    assert s[..k] == a[..k];
    if k == |a| {
      assert s[k + 1..] == c;
      ComponentOf(c, []);
      assert c + [] == c && c[..|c|] == c;
    } else {
      assert s[k + 1..] == a[k + 1..] + [SLASH] + c;
      PlainConcat(a[k + 1..], c);
    }
  }

  lemma {:induction false} RemoveLastPlain(output: bytes)
    requires Plain(output) && Rooted(output)
    ensures Plain(RemoveLast(output)) && Rooted(RemoveLast(output))
  {
    if output != [] {
      var c := LastComponent(output);
      PlainConcat(RemoveLast(output), c);
      BackUpRemoves(output);
    }
  }

  lemma {:induction false} LastComponent(output: bytes) returns (c: bytes)
    requires output != [] && output[0] == SLASH
    ensures NoSlash(c) && output == RemoveLast(output) + [SLASH] + c
  {
    if output[|output| - 1] == SLASH {
      c := [];
    } else {
      var shorter := LastComponent(output[..|output| - 1]);
      c := shorter + [output[|output| - 1]];
    }
  }

  /** What comes out has no dot segments, and starts with a slash. */
  lemma {:induction false} ResultPlain(s: bytes, output: bytes)
    requires Rooted(output) && Plain(output)
    ensures
      var r := RemoveDots([SLASH] + s, output);
      Plain(r) && r != [] && r[0] == SLASH
    decreases |s|
  {
    hide RemoveDots, RemoveLast, Component, Plain, Rooted;
    if s == [] {
      LastSlash(output);
      assert [SLASH] + s == [SLASH];
      SlashPlain(output);
    } else {
      var c, rest := SplitFirst(s);
      StandardStep(c, rest, output);
      var now := After(c, output);
      AfterPlain(c, output);
      if rest == [] {
        NothingLeft(now);
        LastSlash(now);
        SlashPlain(now);
      } else {
        assert [SLASH] + rest[1..] == rest;
        ResultPlain(rest[1..], now);
      }
    }
  }

  lemma AfterPlain(c: bytes, output: bytes)
    requires NoSlash(c) && Rooted(output) && Plain(output)
    ensures Rooted(After(c, output)) && Plain(After(c, output))
    ensures c != DOT && c != DOTS ==> After(c, output) != [] && After(c, output)[0] == SLASH
  {
    hide Plain, RemoveLast;
    RemoveLastPlain(output);
    if c != DOT && c != DOTS {
      PlainConcat(output, c);
      Assoc(output, [SLASH], c);
    }
  }

  lemma EmptyIsPlain()
    ensures Plain([])
  {
  }

  lemma SlashPlain(output: bytes)
    requires Plain(output) && Rooted(output)
    ensures Plain(output + [SLASH]) && Rooted(output + [SLASH]) && (output + [SLASH])[0] == SLASH
  {
    PlainConcat(output, []);
    assert output + [SLASH] + [] == output + [SLASH];
  }

  /** A path without dot segments is left alone. */
  lemma {:induction false} PlainKept(s: bytes, output: bytes)
    requires Plain(s) && Rooted(output)
    ensures RemoveDots([SLASH] + s, output) == output + [SLASH] + s
    decreases |s|
  {
    hide RemoveDots, Component, Plain, Rooted, RemoveLast;
    if s == [] {
      LastSlash(output);
      assert [SLASH] + s == [SLASH] && output + [SLASH] + s == output + [SLASH];
    } else {
      var c, rest := SplitFirst(s);
      StandardStep(c, rest, output);
      PlainFirst(s, c, rest);
      AfterSlash(c, output);
      var now := After(c, output);
      Assoc(output, [SLASH], c);
      if rest == [] {
        NothingLeft(now);
        assert s == c;
      } else {
        assert [SLASH] + rest[1..] == rest;
        PlainKept(rest[1..], now);
        Assoc(now, [SLASH], rest[1..]);
        Assoc(output + [SLASH], c, rest);
      }
    }
  }

  lemma PlainFirst(s: bytes, c: bytes, rest: bytes)
    requires Plain(s) && s == c + rest && NoSlash(c) && (rest != [] ==> rest[0] == SLASH)
    ensures c != DOT && c != DOTS && (rest != [] ==> Plain(rest[1..]))
  {
    ComponentOf(c, rest);
    assert s[..|c|] == c;
    assert rest != [] ==> s[|c| + 1..] == rest[1..];
  }

  /** Normalizing removes all dot segments, keeps the leading slash, and changes nothing the
      second time. */
  lemma Normalized(path: bytes)
    requires path != [] && path[0] == SLASH
    ensures
      var r := NormalizePath(path);
      r != [] && r[0] == SLASH && Plain(r) && NormalizePath(r) == r
  {
    hide RemoveDots, NormalizePath;
    PathRefines(path);
    EmptyIsPlain();
    assert [SLASH] + path[1..] == path;
    ResultPlain(path[1..], []);
    var r := NormalizePath(path);
    PathRefines(r);
    assert [SLASH] + r[1..] == r;
    PlainTail(r);
    PlainKept(r[1..], []);
    assert [] + [SLASH] + r[1..] == r;
  }

  lemma PlainTail(r: bytes)
    requires Plain(r) && r != [] && r[0] == SLASH
    ensures Plain(r[1..])
  {
  }

  // ---------------------------------------------------------------- in place

  /** parse_uri_component: the component from `p` on, and where the next one starts. */
  method ParseComponent(a: array<byte>, p: nat, end: nat, sep: byte) returns (stop: nat, next: nat)
    requires p <= end <= a.Length && sep == SLASH
    ensures stop == p + Component(a[p..end]) && next == (if stop < end then stop + 1 else stop)
  {
    stop := p;
    while stop < end && a[stop] != sep
      invariant p <= stop <= end && Component(a[p..end]) == stop - p + Component(a[stop..end])
    {
      assert a[stop..end][0] == a[stop] && a[stop..end][1..] == a[stop + 1..end];
      stop := stop + 1;
    }
    assert stop < end ==> a[stop..end][0] == a[stop];
    next := if stop < end then stop + 1 else stop;
  }

  /** Back to the previous slash. */
  method BackTrack(a: array<byte>, d: nat) returns (d': nat)
    requires d <= a.Length
    ensures d' <= d && a[..d'] == BackUp(a[..d])
  {
    d' := d;
    if d' > 1 && a[d' - 1] == SLASH {
      d' := d' - 1;
      assert a[..d][..d - 1] == a[..d'];
    }
    while d' > 0 && a[d' - 1] != SLASH
      invariant d' <= d && ToSlash(a[..d']) == BackUp(a[..d])
    {
      assert a[..d'][..d' - 1] == a[..d' - 1];
      d' := d' - 1;
    }
  }

  lemma NormalizeStep(s: bytes, d: bytes, k: nat, next: nat)
    requires s != [] && k == Component(s) && next == if k < |s| then k + 1 else k
    ensures next > 0
    ensures
      Normalize(s, d)
      == Normalize(s[next..], if s[..k] == DOT then d else if s[..k] == DOTS then BackUp(d) else d + s[..next])
  {
    hide BackUp;
  }

  /** One round: the write position stays at or before the read position. */
  method OneComponent(a: array<byte>, len: nat, d: nat, s: nat) returns (d': nat, s': nat)
    requires d <= s < len <= a.Length
    modifies a
    ensures d' <= s' <= len && s < s' && a[len..] == old(a[len..])
    ensures Normalize(a[s'..len], a[..d']) == Normalize(old(a[s..len]), old(a[..d]))
  {
    hide Normalize, Component, BackUp;
    var stop, next := ParseComponent(a, s, len, SLASH);
    ghost var rest, out := a[s..len], a[..d];
    NormalizeStep(rest, out, stop - s, next - s);
    assert rest[..stop - s] == a[s..stop] && rest[..next - s] == a[s..next] && rest[next - s..] == a[next..len];
    s' := next;
    if a[s..stop] == DOT {
      d' := d;
    } else if a[s..stop] == DOTS {
      d' := BackTrack(a, d);
    } else {
      d' := MoveComponent(a, len, d, s, next);
    }
  }

  /** The component is moved down to the write position. */
  method MoveComponent(a: array<byte>, len: nat, d: nat, s: nat, next: nat) returns (d': nat)
    requires d <= s <= next <= len <= a.Length
    modifies a
    ensures d' == d + (next - s) && a[..d'] == old(a[..d]) + old(a[s..next])
    ensures a[next..len] == old(a[next..len]) && a[len..] == old(a[len..])
  {
    hide Moved;
    ghost var full := a[..];
    MemMove(a, d, s, next - s);
    d' := d + (next - s);
    MovedBack(full, a[..], d, s, next, len);
    assert a[..d'] == a[..][..d'] && a[next..len] == a[..][next..len] && a[len..] == a[..][len..];
  }

  lemma MovedBack(full: bytes, now: bytes, d: nat, s: nat, next: nat, len: nat)
    requires d <= s <= next <= len <= |full| && now == Moved(full, d, s, next - s)
    ensures |now| == |full| && now[..d + (next - s)] == full[..d] + full[s..next]
    ensures now[next..len] == full[next..len] && now[len..] == full[len..]
  {
  }

  lemma FirstComponent(path: bytes)
    requires path != [] && path[0] == SLASH
    ensures Normalize(path, []) == NormalizePath(path)
  {
    assert Component(path) == 0;
    assert path[..0] == [] && [] + path[..1] == [SLASH];
  }

  /** mg_normalize_uri_path with output and input in one place: the length of the result,
      or 0 when the path does not start with a slash. The source's last resort, a slash for
      an empty result, is never needed. */
  method NormalizeInPlace(a: array<byte>, len: nat) returns (ok: bool, outLen: nat)
    requires len <= a.Length
    modifies a
    ensures ok == (len > 0 && old(a[..])[0] == SLASH)
    ensures if ok then outLen <= len && a[..outLen] == NormalizePath(old(a[..len])) else outLen == 0
    ensures a[len..] == old(a[len..])
  {
    if len == 0 || a[0] != SLASH {
      return false, 0;
    }
    hide Normalize, Component, ToSlash, NormalizePath;
    ghost var path := a[..len];
    var d, s := 0, 0;
    FirstComponent(path);
    assert a[0..len] == path && a[..0] == [];
    while s < len
      invariant 0 <= d <= s <= len && a[len..] == old(a[len..])
      invariant Normalize(a[s..len], a[..d]) == NormalizePath(path)
    {
      d, s := OneComponent(a, len, d, s);
    }
    NothingLeft(a[..d]);
    assert a[len..len] == [];
    Normalized(path);
    assert d > 0;
    ok, outLen := true, d;
  }
}
