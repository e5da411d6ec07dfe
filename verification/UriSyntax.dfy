/** mg_parse_uri: an automaton that backtracks once, against the generic syntax of
    section 3 of RFC 3986. */
module UriSyntax {
  import opened Wrappers
  import opened Bytes
  import opened JsonText

  const AT: byte := 0x40
  const QUERY_MARK: byte := 0x3F
  const FRAGMENT_MARK: byte := 0x23
  const SCHEME_END: bytes := [COLON, SLASH, SLASH]

  datatype Parts = Parts(scheme: bytes, userInfo: bytes, host: bytes, port: nat,
                         path: bytes, query: bytes, fragment: bytes)

  const NONE := Parts([], [], [], 0, [], [], [])

  // --------------------------------------------------------------- the states

  /** How far it is to the first byte of `stops`, or to the end. */
  function Until(s: bytes, stops: set<byte>): (n: nat)
    ensures n <= |s| && (n < |s| ==> s[n] in stops)
  {
    if s == [] || s[0] in stops then 0 else 1 + Until(s[1..], stops)
  }

  /** Behind a component and its separator. */
  function Behind(s: bytes, n: nat): (r: bytes)
    requires n <= |s|
  {
    if n < |s| then s[n + 1..] else []
  }

  /** P_REST: path, query and fragment; again, should a NUL have ended the fragment. */
  function RestState(s: bytes, parts: Parts): Parts
    decreases |s|
  {
    if s == [] then parts
    else
      var i := Until(s, {QUERY_MARK});
      var t := Behind(s, i);
      var j := Until(t, {FRAGMENT_MARK});
      var u := Behind(t, j);
      var k := Until(u, {0});
      RestState(Behind(u, k), parts.(path := s[..i], query := t[..j], fragment := u[..k]))
  }

  /** One digit more, as 32-bit words and signed characters have it. */
  function PortDigit(port: nat, c: byte): (r: nat) {
    (port * 10 + (if c < 128 then c else c - 256) - 0x30) % 0x1_0000_0000
  }

  function PortNumber(s: bytes, port: nat): nat
    decreases |s|
  {
    if s == [] then port else PortNumber(s[1..], PortDigit(port, s[0]))
  }

  /** P_PORT, behind the colon. */
  function PortState(s: bytes, parts: Parts): Parts {
    var n := Until(s, {SLASH});
    RestState(s[n..], parts.(port := PortNumber(s[..n], parts.port)))
  }

  /** P_HOST, at the host, or at the "@" before it. */
  function HostState(s: bytes, parts: Parts): Parts {
    if s == [] then parts
    else
      var h := if s[0] == AT then s[1..] else s;
      var n := Until(h, {COLON, SLASH});
      var p := parts.(host := h[..n]);
      if n == |h| then p
      else if h[n] == COLON then PortState(h[n + 1..], p)
      else RestState(h[n..], p)
  }

  /** P_USER_INFO, behind "://": what looks like user information may turn out to be the
      host, and is then read again. */
  function UserInfoState(s: bytes, parts: Parts): Parts {
    var n := Until(s, {AT, SLASH});
    if n < |s| && s[n] == AT then HostState(s[n..], parts.(userInfo := s[..n]))
    else HostState(s, parts)
  }

  /** P_START and P_SCHEME_OR_PORT */
  function ParseUri(s: bytes): Parts {
    if s == [] then NONE
    else
      var n := Until(s, {COLON, SLASH});
      if n == |s| || s[n] == SLASH then RestState(s[n..], NONE.(host := s[..n]))
      else if SCHEME_END <= s[n..] then UserInfoState(s[n + 3..], NONE.(scheme := s[..n]))
      else PortState(s[n + 1..], NONE.(host := s[..n]))
  }

  // ---------------------------------------------------------------- rendering

  datatype Uri = Uri(scheme: Option<bytes>, userInfo: Option<bytes>, host: bytes, port: Option<nat>,
                     path: bytes, query: Option<bytes>, fragment: Option<bytes>)

  predicate Free(s: bytes, stops: set<byte>) {
    forall c <- s :: c !in stops
  }

  /** The documented forms: a path, if there is one, starts with "/". */
  predicate UriWritten(u: Uri) {
    && Free(u.scheme.GetOr([]), {COLON, SLASH})
    && (u.scheme.None? ==> u.userInfo.None?) && Free(u.userInfo.GetOr([]), {AT, SLASH})
    && Free(u.host, {COLON, SLASH, AT}) && u.port.GetOr(0) < TWO32
    && (u.path != [] ==> u.path[0] == SLASH) && Free(u.path, {QUERY_MARK})
    && Free(u.query.GetOr([]), {FRAGMENT_MARK}) && Free(u.fragment.GetOr([]), {0})
  }

  /** What the automaton needs: a path in front of a query, and a query mark in front of
      a fragment. */
  predicate UriReadable(u: Uri) {
    (u.path == [] ==> u.query.None?) && (u.query.None? ==> u.fragment.None?)
  }

  predicate UriOk(u: Uri) {
    UriWritten(u) && UriReadable(u)
  }

  function RenderFragment(u: Uri): bytes {
    match u.fragment
    case None => []
    case Some(f) => [FRAGMENT_MARK] + f
  }

  function RenderQuery(u: Uri): bytes {
    match u.query
    case None => RenderFragment(u)
    case Some(q) => [QUERY_MARK] + (q + RenderFragment(u))
  }

  function RenderTail(u: Uri): bytes {
    u.path + RenderQuery(u)
  }

  function RenderPort(u: Uri): bytes {
    (match u.port case None => [] case Some(n) => [COLON] + Decimal(n)) + RenderTail(u)
  }

  function RenderAuthority(u: Uri): bytes {
    (match u.userInfo case None => [] case Some(i) => i + [AT]) + (u.host + RenderPort(u))
  }

  function Render(u: Uri): bytes {
    (match u.scheme case None => [] case Some(s) => s + SCHEME_END) + RenderAuthority(u)
  }

  function Meant(u: Uri): Parts {
    Parts(u.scheme.GetOr([]), u.userInfo.GetOr([]), u.host, u.port.GetOr(0),
          u.path, u.query.GetOr([]), u.fragment.GetOr([]))
  }

  // --------------------------------------------------------------- round trip

  lemma {:induction false} UntilEnd(c: bytes, rest: bytes, stops: set<byte>)
    requires Free(c, stops) && (rest != [] ==> rest[0] in stops)
    ensures Until(c + rest, stops) == |c| && (c + rest)[..|c|] == c && (c + rest)[|c|..] == rest
    ensures Behind(c + rest, |c|) == if rest == [] then [] else rest[1..]
  {
    if c == [] {
      assert c + rest == rest;
    } else {
      assert c[0] in c && (c + rest)[1..] == c[1..] + rest;
      assert forall x <- c[1..] :: x in c;
      UntilEnd(c[1..], rest, stops);
    }
  }

  lemma TailRead(u: Uri, parts: Parts)
    requires UriOk(u) && parts.path == [] && parts.query == [] && parts.fragment == []
    ensures
      RestState(RenderTail(u), parts)
      == parts.(path := u.path, query := u.query.GetOr([]), fragment := u.fragment.GetOr([]))
  {
    hide Until, Behind;
    if u.path == [] {
      assert RenderTail(u) == [];
    } else {
      var f, q := RenderFragment(u), RenderQuery(u);
      var query, fragment := u.query.GetOr([]), u.fragment.GetOr([]);
      UntilEnd(u.path, q, {QUERY_MARK});
      assert Behind(u.path + q, |u.path|) == query + f;
      UntilEnd(query, f, {FRAGMENT_MARK});
      assert fragment + [] == fragment;
      assert Behind(query + f, |query|) == fragment;
      UntilEnd(fragment, [], {0});
      NothingToRead(parts.(path := u.path, query := query, fragment := fragment));
    }
  }

  lemma NothingToRead(parts: Parts)
    ensures RestState([], parts) == parts
  {
  }

  /** Decimal digits read back. */
  lemma {:induction false} PortRead(n: nat)
    requires n < TWO32
    ensures PortNumber(Decimal(n), 0) == n
    decreases n
  {
    if n < 10 {
      var d: bytes := [0x30 + n];
      assert Decimal(n) == d && d[1..] == [];
      OneMoreDigit(0, n);
    } else {
      PortRead(n / 10);
      PortAppend(Decimal(n / 10), 0x30 + n % 10, 0);
      OneMoreDigit(n / 10, n % 10);
    }
  }

  /** Larger numbers wrap around in 32 bits. */
  lemma {:induction false} PortWraps(n: nat)
    ensures PortNumber(Decimal(n), 0) == n % 0x1_0000_0000
    decreases n
  {
    hide PortDigit;
    if n < 10 {
      PortRead(n);
    } else {
      PortWraps(n / 10);
      PortAppend(Decimal(n / 10), 0x30 + n % 10, 0);
      WrappedDigit(n / 10, n % 10);
      assert n == n / 10 * 10 + n % 10;
    }
  }

  lemma WrappedDigit(port: nat, d: nat)
    requires d < 10
    ensures PortDigit(port % 0x1_0000_0000, 0x30 + d) == (port * 10 + d) % 0x1_0000_0000
  {
    var q, r := port / 0x1_0000_0000, port % 0x1_0000_0000;
    assert port == r + q * 0x1_0000_0000;
    SameWord(r * 10 + d, q * 10);
    assert r * 10 + d + q * 10 * 0x1_0000_0000 == port * 10 + d;
  }

  lemma SameWord(x: nat, k: nat)
    ensures (x + k * 0x1_0000_0000) % 0x1_0000_0000 == x % 0x1_0000_0000
  {
  }

  lemma OneMoreDigit(port: nat, d: nat)
    requires d < 10 && port * 10 + d < TWO32
    ensures PortDigit(port, 0x30 + d) == port * 10 + d
  {
  }

  lemma {:induction false} PortAppend(s: bytes, c: byte, port: nat)
    ensures PortNumber(s + [c], port) == PortDigit(PortNumber(s, port), c)
    decreases |s|
  {
    if s == [] {
      var one: bytes := [c];
      assert s + [c] == one && one[1..] == [];
    } else {
      assert (s + [c])[1..] == s[1..] + [c];
      PortAppend(s[1..], c, PortDigit(port, s[0]));
    }
  }

  lemma {:induction false} DecimalIsFree(n: nat)
    ensures Free(Decimal(n), {SLASH})
  {
    if n >= 10 {
      DecimalIsFree(n / 10);
    }
  }

  lemma TailStarts(u: Uri)
    requires UriOk(u)
    ensures RenderTail(u) != [] ==> RenderTail(u)[0] == SLASH
  {
  }

  lemma PortPartRead(u: Uri, n: nat, parts: Parts)
    requires UriOk(u) && u.port == Some(n)
    requires parts.port == 0 && parts.path == [] && parts.query == [] && parts.fragment == []
    ensures RenderPort(u) == [COLON] + (Decimal(n) + RenderTail(u))
    ensures
      PortState(Decimal(n) + RenderTail(u), parts)
      == parts.(port := n, path := u.path, query := u.query.GetOr([]), fragment := u.fragment.GetOr([]))
  {
    hide RestState, RenderTail, Until, PortNumber, Decimal, UriOk;
    DecimalIsFree(n);
    TailStarts(u);
    UntilEnd(Decimal(n), RenderTail(u), {SLASH});
    assert n < TWO32 by {
      PortInRange(u);
    }
    PortRead(n);
    TailRead(u, parts.(port := n));
  }

  lemma PortInRange(u: Uri)
    requires UriOk(u)
    ensures u.port.GetOr(0) < TWO32
  {
  }

  lemma PortStarts(u: Uri)
    requires UriOk(u)
    ensures RenderPort(u) != [] ==> RenderPort(u)[0] == (if u.port.Some? then COLON else SLASH)
    ensures u.port.None? ==> RenderPort(u) == RenderTail(u)
    ensures u.port.Some? ==> RenderPort(u) != []
    ensures !(SCHEME_END <= RenderPort(u))
  {
    hide RenderTail, UriOk;
    TailStarts(u);
    if u.port.None? {
      assert RenderPort(u) == RenderTail(u);
    } else {
      var d := Decimal(u.port.value);
      assert RenderPort(u) == [COLON] + (d + RenderTail(u));
      assert RenderPort(u)[1] == d[0];
      assert IsDigit(d[0]);
    }
  }

  /** Host, port and what follows; an "@" in front of the host is passed over. */
  lemma HostRead(u: Uri, at: bytes, parts: Parts)
    requires UriOk(u) && (at == [] || at == [AT]) && parts.host == [] && parts.port == 0
    requires parts.path == [] && parts.query == [] && parts.fragment == []
    ensures
      HostState(at + (u.host + RenderPort(u)), parts)
      == parts.(host := u.host, port := u.port.GetOr(0), path := u.path, query := u.query.GetOr([]),
                fragment := u.fragment.GetOr([]))
  {
    hide RestState, RenderTail, Until, PortState, RenderPort, UriOk;
    var s, h := at + (u.host + RenderPort(u)), u.host + RenderPort(u);
    HostFree(u);
    PortStarts(u);
    UntilEnd(u.host, RenderPort(u), {COLON, SLASH});
    AtSkipped(u, at);
    if s == [] {
      assert u.host == [] && RenderTail(u) == [] && u.port.None?;
      TailEmpty(u);
    } else {
      match u.port
      case None =>
        TailRead(u, parts.(host := u.host));
        if RenderTail(u) == [] {
          TailEmpty(u);
        }
      case Some(n) =>
        PortPartRead(u, n, parts.(host := u.host));
        assert h[|u.host| + 1..] == RenderPort(u)[1..] == Decimal(n) + RenderTail(u);
    }
  }

  lemma AtSkipped(u: Uri, at: bytes)
    requires UriOk(u) && (at == [] || at == [AT])
    ensures
      var h := u.host + RenderPort(u);
      var s := at + h;
      && (s != [] ==> (if s[0] == AT then s[1..] else s) == h)
      && (s == [] ==> u.host == [] && RenderPort(u) == [])
  {
    hide RenderPort, UriOk;
    HostFree(u);
    PortStarts(u);
    var h := u.host + RenderPort(u);
    if at == [] {
      assert at + h == h;
      assert u.host != [] ==> h[0] == u.host[0];
      assert u.host == [] ==> h == RenderPort(u);
    } else {
      assert (at + h)[1..] == h;
    }
  }

  lemma HostFree(u: Uri)
    requires UriOk(u)
    ensures Free(u.host, {COLON, SLASH}) && Free(u.host, {AT}) && Free(u.host, {AT, SLASH})
    ensures u.host != [] ==> u.host[0] != AT
  {
    assert u.host != [] ==> u.host[0] in u.host;
  }

  lemma TailEmpty(u: Uri)
    requires UriOk(u) && RenderTail(u) == []
    ensures u.path == [] && u.query.None? && u.fragment.None?
  {
  }

  /** Without user information the text is read up to the first slash, and then again. */
  lemma AuthorityRead(u: Uri, parts: Parts)
    requires UriOk(u) && parts.userInfo == [] && parts.host == [] && parts.port == 0
    requires parts.path == [] && parts.query == [] && parts.fragment == []
    ensures
      UserInfoState(RenderAuthority(u), parts)
      == parts.(userInfo := u.userInfo.GetOr([]), host := u.host, port := u.port.GetOr(0), path := u.path,
                query := u.query.GetOr([]), fragment := u.fragment.GetOr([]))
  {
    hide HostState, RenderPort, Until, UriOk;
    var h := u.host + RenderPort(u);
    match u.userInfo
    case Some(i) =>
      UserInfoFree(u);
      assert RenderAuthority(u) == i + ([AT] + h);
      UntilEnd(i, [AT] + h, {AT, SLASH});
      HostRead(u, [AT], parts.(userInfo := i));
    case None =>
      assert RenderAuthority(u) == [] + h == h;
      NoAtBeforeSlash(u);
      HostRead(u, [], parts);
      assert parts.(userInfo := []) == parts;
  }

  lemma UserInfoFree(u: Uri)
    requires UriOk(u) && u.userInfo.Some?
    ensures Free(u.userInfo.value, {AT, SLASH})
  {
  }

  lemma NoAtBeforeSlash(u: Uri)
    requires UriOk(u)
    ensures
      var h := u.host + RenderPort(u);
      var n := Until(h, {AT, SLASH});
      n < |h| ==> h[n] == SLASH
  {
    hide RenderTail, Until, UriOk;
    HostFree(u);
    TailStarts(u);
    PortStarts(u);
    match u.port
    case None =>
      UntilEnd(u.host, RenderTail(u), {AT, SLASH});
      assert RenderTail(u) != [] ==> (u.host + RenderTail(u))[|u.host|] == RenderTail(u)[0];
    case Some(p) =>
      var c := u.host + ([COLON] + Decimal(p));
      DecimalFree2(p);
      assert u.host + RenderPort(u) == c + RenderTail(u);
      UntilEnd(c, RenderTail(u), {AT, SLASH});
      assert RenderTail(u) != [] ==> (c + RenderTail(u))[|c|] == RenderTail(u)[0];
  }

  lemma {:induction false} DecimalFree2(n: nat)
    ensures Free(Decimal(n), {AT, SLASH})
  {
    if n >= 10 {
      DecimalFree2(n / 10);
    }
  }

  /** Every component of a rendered address is recovered. */
  lemma ParseRender(u: Uri)
    requires UriOk(u)
    ensures ParseUri(Render(u)) == Meant(u)
  {
    hide UserInfoState, PortState, RestState, RenderPort, RenderTail, Until, UriOk;
    match u.scheme
    case Some(s) =>
      SchemeFree(u);
      var rest := SCHEME_END + RenderAuthority(u);
      assert Render(u) == s + rest;
      UntilEnd(s, rest, {COLON, SLASH});
      assert rest[..3] == SCHEME_END && (s + rest)[|s| + 3..] == RenderAuthority(u);
      AuthorityRead(u, NONE.(scheme := s));
    case None =>
      SchemeFree(u);
      BareRead(u);
  }

  lemma SchemeFree(u: Uri)
    requires UriOk(u)
    ensures Free(u.scheme.GetOr([]), {COLON, SLASH}) && (u.scheme.None? ==> u.userInfo.None?)
  {
  }

  /** Without a scheme the text is read as a host. */
  lemma BareIsHost(s: bytes)
    requires s != [] && s[0] != AT && !(SCHEME_END <= s[Until(s, {COLON, SLASH})..])
    ensures ParseUri(s) == HostState(s, NONE)
  {
    hide RestState, PortState, Until;
    NothingToRead(NONE.(host := s[..Until(s, {COLON, SLASH})]));
  }

  lemma NoHost(parts: Parts)
    ensures HostState([], parts) == parts
  {
  }

  lemma NothingAtAll()
    ensures ParseUri([]) == NONE
  {
  }

  lemma BareRead(u: Uri)
    requires UriOk(u) && u.scheme.None? && u.userInfo.None?
    ensures ParseUri(Render(u)) == Meant(u)
  {
    hide HostState, ParseUri, RenderPort, Until, UriOk;
    var s := u.host + RenderPort(u);
    assert RenderAuthority(u) == [] + s == s && Render(u) == [] + s == s;
    HostFree(u);
    PortStarts(u);
    UntilEnd(u.host, RenderPort(u), {COLON, SLASH});
    HostRead(u, [], NONE);
    assert [] + s == s;
    if s == [] {
      NothingAtAll();
      NoHost(NONE);
    } else {
      assert s[0] == if u.host == [] then RenderPort(u)[0] else u.host[0];
      BareIsHost(s);
    }
  }

  // ------------------------------------------------ where it is not recovered

  predicate NoNul(u: Uri) {
    Free(u.path, {0}) && Free(u.query.GetOr([]), {0})
  }

  lemma {:induction false} UntilPast(c: bytes, rest: bytes, stops: set<byte>)
    requires Free(c, stops) && rest != [] && rest[0] !in stops
    ensures Until(c + rest, stops) > |c|
  {
    if c == [] {
      assert c + rest == rest;
    } else {
      assert c[0] in c && (c + rest)[1..] == c[1..] + rest;
      assert forall x <- c[1..] :: x in c;
      UntilPast(c[1..], rest, stops);
    }
  }

  lemma {:induction false} RestKeeps(s: bytes, parts: Parts)
    ensures var r := RestState(s, parts);
      r.scheme == parts.scheme && r.userInfo == parts.userInfo && r.host == parts.host && r.port == parts.port
    decreases |s|
  {
    if s != [] {
      hide Until;
      var i := Until(s, {QUERY_MARK});
      var t := Behind(s, i);
      var j := Until(t, {FRAGMENT_MARK});
      var u := Behind(t, j);
      var k := Until(u, {0});
      RestKeeps(Behind(u, k), parts.(path := s[..i], query := t[..j], fragment := u[..k]));
    }
  }

  lemma HostKeeps(s: bytes, parts: Parts)
    ensures HostState(s, parts).userInfo == parts.userInfo && HostState(s, parts).scheme == parts.scheme
    ensures var h := if s != [] && s[0] == AT then s[1..] else s;
      s != [] ==> HostState(s, parts).host == h[..Until(h, {COLON, SLASH})]
  {
    hide RestState, Until;
    if s != [] {
      var h := if s[0] == AT then s[1..] else s;
      var n := Until(h, {COLON, SLASH});
      var p := parts.(host := h[..n]);
      if n < |h| {
        RestKeeps(h[n..], p);
        var m := Until(h[n + 1..], {SLASH});
        RestKeeps(h[n + 1..][m..], p.(port := PortNumber(h[n + 1..][..m], p.port)));
      }
    }
  }

  /** A slash starts a path that is not lost again, unless there is a NUL. */
  lemma PathThere(s: bytes, parts: Parts)
    requires s != [] && s[0] == SLASH && Free(s, {0})
    ensures RestState(s, parts).path != []
  {
    hide Until;
    var i := Until(s, {QUERY_MARK});
    assert i > 0 by {
      var one: bytes := [SLASH];
      UntilPast([], s, {QUERY_MARK});
      assert [] + s == s;
    }
    var t := Behind(s, i);
    var j := Until(t, {FRAGMENT_MARK});
    var u := Behind(t, j);
    assert u + [] == u;
    UntilEnd(u, [], {0});
    NothingToRead(parts.(path := s[..i], query := t[..j], fragment := u));
    RestUnfold(s, parts);
  }

  predicate SameTail(r: Parts, u: Uri) {
    r.port == u.port.GetOr(0) && r.path == u.path && r.query == u.query.GetOr([]) && r.fragment == u.fragment.GetOr([])
  }

  predicate Cramped(u: Uri) {
    UriWritten(u) && NoNul(u) && u.path == [] && RenderTail(u) != [] && u.port.GetOr(0) < TWO16
  }

  lemma CrampedTail(u: Uri)
    requires Cramped(u)
    ensures RenderTail(u)[0] == QUERY_MARK || RenderTail(u)[0] == FRAGMENT_MARK
    ensures Free(RenderTail(u), {0})
    ensures u.query.GetOr([]) == [] && u.fragment.GetOr([]) == [] ==>
      IsMarks(RenderTail(u))
  {
    if u.query.GetOr([]) == [] && u.fragment.GetOr([]) == [] {
      assert RenderTail(u) == RenderQuery(u);
      assert u.fragment.Some? ==> RenderFragment(u) == [FRAGMENT_MARK];
      assert u.query.Some? ==> RenderQuery(u) == [QUERY_MARK] + RenderFragment(u);
    }
  }

  predicate IsMarks(s: bytes) {
    s == [QUERY_MARK] || s == [FRAGMENT_MARK] || s == [QUERY_MARK, FRAGMENT_MARK]
  }

  /** A query right behind a port is taken for more of its digits. */
  lemma PortMisread(u: Uri, parts: Parts)
    requires Cramped(u) && u.port.Some? && parts.port == 0
    requires parts.path == [] && parts.query == [] && parts.fragment == []
    ensures !SameTail(PortState(Decimal(u.port.value) + RenderTail(u), parts), u)
  {
    hide RestState, RenderTail, Until, PortNumber, Decimal, UriWritten, NoNul;
    CrampedTail(u);
    var n, tail := u.port.value, RenderTail(u);
    var w := Decimal(n) + tail;
    var k := Until(w, {SLASH});
    var p := parts.(port := PortNumber(w[..k], 0));
    if k < |w| {
      assert forall c <- w[k..] :: c in w;
      PathThere(w[k..], p);
    } else {
      NothingToRead(p);
      assert w[..k] == w && w[k..] == [];
      if u.query.GetOr([]) == [] && u.fragment.GetOr([]) == [] {
        PortRead(n);
        MarksAsDigits(n, tail);
      }
    }
  }

  lemma MarksAsDigits(n: nat, tail: bytes)
    requires n < TWO16 && PortNumber(Decimal(n), 0) == n
    requires IsMarks(tail)
    ensures PortNumber(Decimal(n) + tail, 0) != n
  {
    hide PortNumber;
    PortAppend(Decimal(n), tail[0], 0);
    if |tail| == 2 {
      assert Decimal(n) + tail == Decimal(n) + [tail[0]] + [tail[1]];
      PortAppend(Decimal(n) + [tail[0]], tail[1], 0);
    }
  }

  lemma HostMisread(u: Uri, at: bytes, parts: Parts)
    requires Cramped(u) && (at == [] || at == [AT]) && parts.port == 0
    requires parts.path == [] && parts.query == [] && parts.fragment == []
    ensures var r := HostState(at + (u.host + RenderPort(u)), parts);
      !(r.host == u.host && SameTail(r, u))
  {
    hide RestState, RenderTail, Until, UriWritten, NoNul, PortState, RenderPort, HostState;
    var h := u.host + RenderPort(u);
    CrampedStart(u);
    var s := at + h;
    HostKeeps(s, parts);
    assert (if s[0] == AT then s[1..] else s) == h by {
      assert [] + h == h && ([AT] + h)[1..] == h;
    }
    if u.port.None? {
      UntilPast(u.host, RenderPort(u), {COLON, SLASH});
    } else {
      UntilEnd(u.host, RenderPort(u), {COLON, SLASH});
      HostThenPort(s, h, |u.host|, parts);
      PortMisread(u, parts.(host := u.host));
    }
  }

  /** What stands behind the host. */
  lemma CrampedStart(u: Uri)
    requires Cramped(u)
    ensures Free(u.host, {COLON, SLASH}) && Free(u.host, {AT, SLASH}) && RenderPort(u) != []
    ensures (u.host + RenderPort(u))[0] != AT && RenderPort(u)[0] != AT && RenderPort(u)[0] != SLASH
    ensures u.port.None? ==> RenderPort(u)[0] != COLON
    ensures u.port.Some? ==>
      && RenderPort(u)[0] == COLON && RenderPort(u)[1..] == Decimal(u.port.value) + RenderTail(u)
      && !(SCHEME_END <= RenderPort(u))
  {
    hide RenderTail, Decimal;
    CrampedTail(u);
    HostChars(u);
    assert (u.host + RenderPort(u))[0] == if u.host == [] then RenderPort(u)[0] else u.host[0];
    if u.port.None? {
      assert RenderPort(u) == RenderTail(u);
    } else {
      var d := Decimal(u.port.value);
      assert IsDigit(d[0]);
      assert RenderPort(u) == [COLON] + (d + RenderTail(u));
      assert RenderPort(u)[1] == d[0];
    }
  }

  lemma HostThenPort(s: bytes, h: bytes, n: nat, parts: Parts)
    requires s != [] && h == (if s[0] == AT then s[1..] else s)
    requires n == Until(h, {COLON, SLASH}) && n < |h| && h[n] == COLON
    ensures HostState(s, parts) == PortState(h[n..][1..], parts.(host := h[..n]))
  {
    hide PortState, RestState, Until;
    assert h[n..][1..] == h[n + 1..];
  }

  lemma HostChars(u: Uri)
    requires UriWritten(u)
    ensures Free(u.host, {COLON, SLASH}) && Free(u.host, {AT, SLASH}) && (u.host != [] ==> u.host[0] != AT)
  {
    assert u.host != [] ==> u.host[0] in u.host;
  }

  lemma AuthorityMisread(u: Uri, parts: Parts)
    requires Cramped(u) && parts.userInfo == [] && parts.port == 0
    requires parts.path == [] && parts.query == [] && parts.fragment == []
    ensures var r := UserInfoState(RenderAuthority(u), parts);
      !(r.userInfo == u.userInfo.GetOr([]) && r.host == u.host && SameTail(r, u))
  {
    hide HostState, Until, UriWritten, RenderTail, RenderPort, SameTail, Cramped;
    var h := u.host + RenderPort(u);
    match u.userInfo
    case Some(i) =>
      CrampedUserInfo(u);
      assert RenderAuthority(u) == i + ([AT] + h);
      UntilEnd(i, [AT] + h, {AT, SLASH});
      HostMisread(u, [AT], parts.(userInfo := i));
    case None =>
      assert RenderAuthority(u) == [] + h == h;
      HostMisread(u, [], parts);
      CrampedStart(u);
      var n := Until(h, {AT, SLASH});
      if n < |h| && h[n] == AT {
        HostKeeps(h[n..], parts.(userInfo := h[..n]));
      }
  }

  lemma CrampedUserInfo(u: Uri)
    requires Cramped(u)
    ensures Free(u.userInfo.GetOr([]), {AT, SLASH})
  {
  }

  lemma UserInfoChars(u: Uri)
    requires UriWritten(u)
    ensures Free(u.userInfo.GetOr([]), {AT, SLASH}) && Free(u.scheme.GetOr([]), {COLON, SLASH})
    ensures u.scheme.None? ==> u.userInfo.None?
  {
  }

  /** Without a path a query or a fragment is lost, or spoils what comes before it. */
  lemma CrampedMisread(u: Uri)
    requires Cramped(u)
    ensures ParseUri(Render(u)) != Meant(u)
  {
    hide UserInfoState, HostState, PortState, RestState, Until, UriWritten, RenderTail;
    UserInfoChars(u);
    match u.scheme
    case Some(s) =>
      var rest := SCHEME_END + RenderAuthority(u);
      assert Render(u) == s + rest;
      UntilEnd(s, rest, {COLON, SLASH});
      assert rest[..3] == SCHEME_END && (s + rest)[|s| + 3..] == RenderAuthority(u);
      AuthorityMisread(u, NONE.(scheme := s));
    case None =>
      var s := u.host + RenderPort(u);
      assert RenderAuthority(u) == [] + s == s && Render(u) == [] + s == s;
      BareMisread(u, s);
  }

  lemma BareMisread(u: Uri, s: bytes)
    requires Cramped(u) && u.scheme.None? && u.userInfo.None? && s == u.host + RenderPort(u)
    ensures ParseUri(s) != Meant(u)
  {
    hide HostState, PortState, RestState, Until, UriWritten, RenderTail, RenderPort;
    CrampedStart(u);
    var n := Until(s, {COLON, SLASH});
    if u.port.None? && SCHEME_END <= s[n..] {
      SchemeMisread(u, s, n);
    } else {
      if u.port.Some? {
        UntilEnd(u.host, RenderPort(u), {COLON, SLASH});
      }
      BareIsHost(s);
      assert [] + s == s;
      HostMisread(u, [], NONE);
    }
  }

  /** Another address in the query makes everything before it a scheme. */
  lemma SchemeMisread(u: Uri, s: bytes, n: nat)
    requires Cramped(u) && u.scheme.None? && u.port.None? && s == u.host + RenderPort(u)
    requires n == Until(s, {COLON, SLASH}) && SCHEME_END <= s[n..]
    ensures ParseUri(s).scheme != []
  {
    hide Until, UriWritten, RenderTail, RenderPort, RestState, HostState;
    CrampedStart(u);
    UntilPast(u.host, RenderPort(u), {COLON, SLASH});
    UserInfoKeeps(s[n + 3..], NONE.(scheme := s[..n]));
  }

  lemma UserInfoKeeps(s: bytes, parts: Parts)
    ensures UserInfoState(s, parts).scheme == parts.scheme
  {
    hide HostState, Until;
    var n := Until(s, {AT, SLASH});
    HostKeeps(s[n..], parts.(userInfo := s[..n]));
    HostKeeps(s, parts);
  }

  lemma {:induction false} UntilFree(s: bytes, stops: set<byte>)
    ensures Free(s[..Until(s, stops)], stops)
  {
    var n := Until(s, stops);
    if n > 0 {
      UntilFree(s[1..], stops);
      assert s[..n] == [s[0]] + s[1..][..n - 1];
    }
  }

  /** The address that a text without a query mark in front of its fragment stands for. */
  function Resplit(u: Uri): Uri {
    var t := RenderTail(u);
    var n := Until(t, {QUERY_MARK});
    if n == |t| then u.(path := t, query := None, fragment := None)
    else
      var r := t[n + 1..];
      var m := Until(r, {FRAGMENT_MARK});
      if m == |r| then u.(path := t[..n], query := Some(r), fragment := None)
      else u.(path := t[..n], query := Some(r[..m]), fragment := Some(r[m + 1..]))
  }

  lemma ResplitText(u: Uri)
    ensures RenderTail(Resplit(u)) == RenderTail(u)
  {
    hide Until;
    var t := RenderTail(u);
    hide RenderTail;
    var n := Until(t, {QUERY_MARK});
    if n == |t| {
      PartsText(u, t, None, None);
    } else {
      var r := t[n + 1..];
      assert t == t[..n] + ([QUERY_MARK] + r);
      var m := Until(r, {FRAGMENT_MARK});
      if m == |r| {
        PartsText(u, t[..n], Some(r), None);
      } else {
        assert r == r[..m] + ([FRAGMENT_MARK] + r[m + 1..]);
        PartsText(u, t[..n], Some(r[..m]), Some(r[m + 1..]));
      }
    }
  }

  lemma PartsText(u: Uri, path: bytes, query: Option<bytes>, fragment: Option<bytes>)
    requires query.None? ==> fragment.None?
    ensures RenderTail(u.(path := path, query := query, fragment := fragment))
            == if query.None? then path
               else if fragment.None? then path + ([QUERY_MARK] + query.value)
               else path + ([QUERY_MARK] + (query.value + ([FRAGMENT_MARK] + fragment.value)))
  {
    if query.None? {
      assert path + [] == path;
    } else if fragment.None? {
      assert query.value + [] == query.value;
    }
  }

  predicate Unmarked(u: Uri) {
    UriWritten(u) && NoNul(u) && u.path != [] && u.query.None? && u.fragment.Some?
  }

  lemma ResplitOk(u: Uri)
    requires Unmarked(u)
    ensures UriOk(Resplit(u)) && |Resplit(u).path| > |u.path|
  {
    hide Until;
    var t := RenderTail(u);
    UntilFree(t, {QUERY_MARK});
    UntilPast(u.path, RenderFragment(u), {QUERY_MARK});
    var n := Until(t, {QUERY_MARK});
    assert t[..n] == t || n < |t|;
    assert t[0] == SLASH && Free(t, {0});
    if n < |t| {
      var r := t[n + 1..];
      UntilFree(r, {FRAGMENT_MARK});
      assert r[..|r|] == r;
      assert forall c <- r :: c in t;
    }
  }

  /** A fragment without a query is taken for more of the path. */
  lemma UnmarkedMisread(u: Uri)
    requires Unmarked(u)
    ensures ParseUri(Render(u)) != Meant(u)
  {
    ResplitOk(u);
    ResplitText(u);
    hide ParseUri, RenderTail, UriOk;
    assert Render(Resplit(u)) == Render(u);
    ParseRender(Resplit(u));
  }

  /** Every component of an address in the documented forms is recovered exactly when a
      path comes before its query, and a query mark before its fragment. Ports are 16-bit
      numbers here: larger ones may wrap around to what they should be. */
  lemma ParseRenderIff(u: Uri)
    requires UriWritten(u) && NoNul(u) && u.port.GetOr(0) < TWO16
    ensures ParseUri(Render(u)) == Meant(u) <==> UriReadable(u)
  {
    if UriReadable(u) {
      ParseRender(u);
    } else if u.path != [] {
      UnmarkedMisread(u);
    } else {
      TailThere(u);
      CrampedMisread(u);
    }
  }

  lemma TailThere(u: Uri)
    requires u.path == [] && !UriReadable(u)
    ensures RenderTail(u) != []
  {
  }

  // ------------------------------------------------------------ the automaton

  datatype State = Start | SchemeOrPort | UserInfo | Host | Port | Rest

  function Rank(state: State): nat {
    match state
    case Start => 5
    case SchemeOrPort => 4
    case UserInfo => 3
    case Host => 2
    case Port => 1
    case Rest => 0
  }

  /** What comes out when the automaton goes on from here. */
  function Goes(state: State, uri: bytes, p: nat, parts: Parts): Parts
    requires p <= |uri|
  {
    if p == |uri| then parts
    else match state
      case Start => ParseUri(uri)
      case SchemeOrPort =>
        if SCHEME_END <= uri[p..] then UserInfoState(uri[p + 3..], parts.(scheme := uri[..p]))
        else PortState(uri[p + 1..], parts.(host := uri[..p]))
      case UserInfo => UserInfoState(uri[p + 1..], parts)
      case Host => HostState(uri[p..], parts)
      case Port => PortState(uri[p + 1..], parts)
      case Rest => RestState(uri[p..], parts)
  }

  method ScanUntil(uri: bytes, from: nat, stops: set<byte>) returns (p: nat)
    requires from <= |uri|
    ensures from <= p <= |uri| && p == from + Until(uri[from..], stops)
  {
    p := from;
    while p < |uri| && uri[p] !in stops
      invariant from <= p <= |uri| && Until(uri[from..], stops) == p - from + Until(uri[p..], stops)
    {
      assert uri[p..][0] == uri[p] && uri[p..][1..] == uri[p + 1..];
      p := p + 1;
    }
    assert p < |uri| ==> uri[p..][0] == uri[p];
  }

  /** parse_uri_component */
  method ParseComponent(uri: bytes, p: nat, sep: byte) returns (component: bytes, next: nat)
    requires p <= |uri|
    ensures
      var s := uri[p..];
      var n := Until(s, {sep});
      component == s[..n] && p <= next <= |uri| && uri[next..] == Behind(s, n) && (p < |uri| ==> p < next)
  {
    var stop := ScanUntil(uri, p, {sep});
    component := uri[p..stop];
    next := if stop < |uri| then stop + 1 else stop;
    assert uri[p..][..stop - p] == component;
    assert stop < |uri| ==> uri[p..][stop - p + 1..] == uri[stop + 1..];
  }

  method StartStep(uri: bytes) returns (state: State, p: nat, parts: Parts)
    requires uri != []
    ensures p <= |uri| && Goes(state, uri, p, parts) == ParseUri(uri) && parts.userInfo == []
    ensures state.Start? ==> p == |uri|
  {
    hide UserInfoState, PortState, RestState, Until;
    state, parts := Start, NONE;
    p := ScanUntil(uri, 0, {COLON, SLASH});
    assert uri[0..] == uri;
    if p < |uri| {
      assert uri[p] == uri[0..][p];
      state := if uri[p] == COLON then SchemeOrPort else Rest;
    }
    if state.Start? || state.Rest? {
      parts := parts.(host := uri[..p]);
      NothingToRead(parts);
    } else {
      assert uri[..p] == uri[0..][..p];
    }
  }

  method UserInfoStep(uri: bytes, from: nat, was: Parts) returns (p: nat, parts: Parts)
    requires from < |uri| && was.userInfo == []
    ensures p <= |uri| && Goes(Host, uri, p, parts) == UserInfoState(uri[from + 1..], was)
  {
    hide HostState, Until;
    var start := from + 1;
    p := ScanUntil(uri, start, {AT, SLASH});
    assert p < |uri| ==> uri[start..][p - start] == uri[p];
    if p == |uri| || uri[p] == SLASH {
      p := start;
    }
    parts := was.(userInfo := uri[start..p]);
    assert uri[start..][..p - start] == uri[start..p];
    assert uri[start..][p - start..] == uri[p..];
    NoHost(parts);
  }

  method HostStep(uri: bytes, from: nat, was: Parts) returns (state: State, p: nat, parts: Parts)
    requires from < |uri|
    ensures p <= |uri| && Goes(state, uri, p, parts) == HostState(uri[from..], was)
    ensures (state.Host? ==> p == |uri|) && (state.Host? || state.Port? || state.Rest?)
    ensures parts.userInfo == was.userInfo
  {
    hide PortState, RestState, Until;
    state := Host;
    assert uri[from..][0] == uri[from] && uri[from..][1..] == uri[from + 1..];
    var start := if uri[from] == AT then from + 1 else from;
    p := ScanUntil(uri, start, {COLON, SLASH});
    parts := was.(host := uri[start..p]);
    assert uri[start..][..p - start] == uri[start..p];
    if p < |uri| {
      assert uri[start..][p - start] == uri[p] && uri[start..][p - start..] == uri[p..];
      assert uri[start..][p - start + 1..] == uri[p + 1..];
      state := if uri[p] == COLON then Port else Rest;
    }
  }

  /** The digits of a port, or what is taken for them. */
  method PortDigits(uri: bytes, start: nat, was: nat) returns (p: nat, port: nat)
    requires start <= |uri|
    ensures start <= p <= |uri| && p - start == Until(uri[start..], {SLASH}) && port == PortNumber(uri[start..p], was)
  {
    hide Until, PortDigit;
    p, port := start, was;
    assert uri[start..start] == [];
    while p < |uri| && uri[p] != SLASH
      invariant start <= p <= |uri|
      invariant Until(uri[start..], {SLASH}) == p - start + Until(uri[p..], {SLASH})
      invariant port == PortNumber(uri[start..p], was)
    {
      UntilNext(uri, p);
      assert uri[start..p + 1] == uri[start..p] + [uri[p]];
      PortAppend(uri[start..p], uri[p], was);
      port := PortDigit(port, uri[p]);
      p := p + 1;
    }
    UntilNext(uri, p);
  }

  lemma UntilNext(uri: bytes, p: nat)
    requires p <= |uri|
    ensures Until(uri[p..], {SLASH})
            == if p < |uri| && uri[p] != SLASH then 1 + Until(uri[p + 1..], {SLASH}) else 0
  {
    if p < |uri| {
      assert uri[p..][0] == uri[p] && uri[p..][1..] == uri[p + 1..];
    }
  }

  method PortStep(uri: bytes, from: nat, was: Parts) returns (state: State, p: nat, parts: Parts)
    requires from < |uri|
    ensures p <= |uri| && Goes(state, uri, p, parts) == PortState(uri[from + 1..], was)
    ensures (state.Port? ==> p == |uri|) && (state.Port? || state.Rest?) && parts.userInfo == was.userInfo
  {
    hide RestState, Until, PortNumber;
    var start := from + 1;
    var port;
    p, port := PortDigits(uri, start, was.port);
    state, parts := Port, was.(port := port);
    assert uri[start..][..p - start] == uri[start..p] && uri[start..][p - start..] == uri[p..];
    if p < |uri| {
      state := Rest;
    } else {
      NothingToRead(parts);
    }
  }

  method RestStep(uri: bytes, from: nat, was: Parts) returns (p: nat, parts: Parts)
    requires from < |uri|
    ensures from < p <= |uri| && Goes(Rest, uri, p, parts) == RestState(uri[from..], was)
    ensures parts.userInfo == was.userInfo
  {
    hide Until, Behind;
    var path, query, fragment;
    path, p := ParseComponent(uri, from, QUERY_MARK);
    query, p := ParseComponent(uri, p, FRAGMENT_MARK);
    fragment, p := ParseComponent(uri, p, 0);
    parts := was.(path := path, query := query, fragment := fragment);
    RestUnfold(uri[from..], was);
    NothingToRead(parts);
  }

  lemma RestUnfold(s: bytes, parts: Parts)
    requires s != []
    ensures
      RestState(s, parts)
      == var i := Until(s, {QUERY_MARK});
         var t := Behind(s, i);
         var j := Until(t, {FRAGMENT_MARK});
         var u := Behind(t, j);
         var k := Until(u, {0});
         RestState(Behind(u, k), parts.(path := s[..i], query := t[..j], fragment := u[..k]))
  {
    hide Until, Behind;
  }

  /** mg_parse_uri: it ends on every input, although user information that turns out to be
      a host is read twice. */
  method RunAutomaton(uri: bytes) returns (parts: Parts)
    ensures parts == ParseUri(uri)
  {
    hide ParseUri, UserInfoState, HostState, PortState, RestState;
    var state, p := Start, 0;
    parts := NONE;
    assert uri == [] ==> ParseUri(uri) == NONE by {
      NothingAtAll();
    }
    while p < |uri|
      invariant Rank(state) >= 3 ==> parts.userInfo == []
      invariant state.Start? && p < |uri| ==> p == 0
      invariant 0 <= p <= |uri| && Goes(state, uri, p, parts) == ParseUri(uri)
      decreases p < |uri|, Rank(state), |uri| - p
    {
      match state {
        case Start => state, p, parts := StartStep(uri);
        case SchemeOrPort =>
          assert |uri| - p >= 3 ==> uri[p..][..3] == uri[p..p + 3];
          if |uri| - p >= 3 && uri[p..p + 3] == SCHEME_END {
            parts := parts.(scheme := uri[..p]);
            state := UserInfo;
            p := p + 2;
          } else {
            parts := parts.(host := uri[..p]);
            state := Port;
          }
        case UserInfo =>
          p, parts := UserInfoStep(uri, p, parts);
          state := Host;
        case Host => state, p, parts := HostStep(uri, p, parts);
        case Port => state, p, parts := PortStep(uri, p, parts);
        case Rest => p, parts := RestStep(uri, p, parts);
      }
    }
  }

  /** Rendering an address and running the automaton on it. */
  method ParseRendered(u: Uri) returns (parts: Parts)
    requires UriOk(u)
    ensures parts == Meant(u)
  {
    ParseRender(u);
    parts := RunAutomaton(Render(u));
  }
}
