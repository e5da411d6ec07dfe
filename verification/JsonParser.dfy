/** Json::Reader as the source runs it: a cursor moved over a fixed document, and a list
    of errors. Each method is proved against the function of JsonReader that says what it
    reads from the text behind the cursor. */
module JsonParser {
  import opened Wrappers
  import opened Bytes
  import opened JsonValue
  import opened JsonText
  import R = JsonReader

  /** A token as the source keeps it: where it starts and ends. */
  datatype Span = Span(kind: R.Kind, start: nat, end: nat)

  class Reader {
    const document: bytes
    const scan: R.Scan
    var current: nat
    var errors: seq<Span>

    constructor (document: bytes, scan: R.Scan)
      ensures this.document == document && this.scan == scan && Valid()
    {
      this.document, this.scan, current, errors := document, scan, 0, [];
    }

    ghost predicate Valid()
      reads this
    {
      current <= |document|
    }

    ghost function Rest(): bytes
      reads this
      requires Valid()
    {
      document[current..]
    }

    /** The span is the token `t`, and the cursor is behind it. */
    ghost predicate Reads(span: Span, t: R.Token)
      reads this
      requires Valid()
    {
      && span.kind == t.kind && span.start <= span.end == current
      && document[span.start..span.end] == t.text && Rest() == t.rest
    }

    // --------------------------------------------------------------- scanning

    /** getNextChar: 0 at the end of the document. */
    method GetNextChar() returns (c: byte)
      requires Valid()
      modifies this`current
      ensures Valid()
      ensures old(Rest()) == [] ==> c == 0 && current == old(current)
      ensures old(Rest()) != [] ==> c == old(Rest())[0] && current == old(current) + 1 && Rest() == old(Rest())[1..]
    {
      if current == |document| {
        return 0;
      }
      c := document[current];
      current := current + 1;
    }

    method SkipSpaces()
      requires Valid()
      modifies this`current
      ensures Valid() && old(current) <= current && Rest() == JsonText.SkipSpaces(old(Rest()))
    {
      while current != |document|
        invariant Valid() && old(current) <= current
        invariant JsonText.SkipSpaces(Rest()) == JsonText.SkipSpaces(old(Rest()))
        decreases |document| - current
      {
        var c := document[current];
        assert Rest()[0] == c && Rest()[1..] == document[current + 1..];
        if !IsSpace(c) {
          break;
        }
        current := current + 1;
      }
    }

    /** match: the pattern is compared from its end. */
    method Match(pattern: bytes) returns (ok: bool)
      requires Valid()
      modifies this`current
      ensures Valid() && ok == (pattern <= old(Rest())) && current == old(current) + if ok then |pattern| else 0
    {
      if |document| - current < |pattern| {
        return false;
      }
      var index := |pattern|;
      while index > 0
        invariant 0 <= index <= |pattern| <= |document| - current && current == old(current)
        invariant forall k | index <= k < |pattern| :: document[current + k] == pattern[k]
      {
        index := index - 1;
        if document[current + index] != pattern[index] {
          assert Rest()[index] != pattern[index];
          return false;
        }
      }
      assert pattern == Rest()[..|pattern|];
      current := current + |pattern|;
      ok := true;
    }

    method ReadString() returns (ok: bool)
      requires Valid()
      modifies this`current
      ensures Valid() && (ok, current - old(current)) == R.ScanString(old(Rest()))
    {
      hide R.ScanString;
      var c: byte := 0;
      while current != |document|
        invariant Valid() && old(current) <= current && c != QUOTE
        invariant R.ScanString(old(Rest())) == Ahead(R.ScanString(Rest()), current - old(current))
        decreases |document| - current
      {
        StringStep(Rest(), Rest()[1..], if |Rest()| > 1 then Rest()[1..][1..] else []);
        c := GetNextChar();
        if c == BACKSLASH {
          var _ := GetNextChar();
        } else if c == QUOTE {
          break;
        }
      }
      if c != QUOTE {
        NoString(Rest());
      }
      ok := c == QUOTE;
    }

    method ReadNumber()
      requires Valid()
      modifies this`current
      ensures Valid() && old(current) <= current && current - old(current) == R.ScanNumber(old(Rest()))
    {
      while current != |document|
        invariant Valid() && old(current) <= current
        invariant R.ScanNumber(old(Rest())) == current - old(current) + R.ScanNumber(Rest())
        decreases |document| - current
      {
        assert Rest()[0] == document[current] && Rest()[1..] == document[current + 1..];
        if !R.IsNumberChar(document[current]) {
          break;
        }
        current := current + 1;
      }
    }

    method ReadCStyleComment() returns (ok: bool)
      requires Valid()
      modifies this`current
      ensures Valid() && (ok, current - old(current)) == R.ScanCComment(old(Rest()))
    {
      while current != |document|
        invariant Valid() && old(current) <= current
        invariant R.ScanCComment(old(Rest())) == Ahead(R.ScanCComment(Rest()), current - old(current))
        decreases |document| - current
      {
        ghost var before := Rest();
        var c := GetNextChar();
        if c == 0x2A && current < |document| && document[current] == SLASH {
          assert before[1] == document[current];
          break;
        }
        assert |before| > 1 ==> before[1] == document[current];
      }
      var last := GetNextChar();
      ok := last == SLASH;
    }

    method ReadCppStyleComment()
      requires Valid()
      modifies this`current
      ensures Valid() && old(current) <= current && current - old(current) == R.ScanLine(old(Rest()))
    {
      while current != |document|
        invariant Valid() && old(current) <= current
        invariant R.ScanLine(old(Rest())) == current - old(current) + R.ScanLine(Rest())
        decreases |document| - current
      {
        var c := GetNextChar();
        if c == 0x0D || c == 0x0A {
          break;
        }
      }
    }

    method ReadComment() returns (ok: bool)
      requires Valid()
      modifies this`current
      ensures Valid() && (ok, current - old(current)) == R.ScanComment(old(Rest()))
    {
      var c := GetNextChar();
      ok := false;
      if c == 0x2A {
        ok := ReadCStyleComment();
      } else if c == SLASH {
        ReadCppStyleComment();
        ok := true;
      }
    }

    method ReadToken() returns (span: Span)
      requires Valid()
      modifies this`current
      ensures Valid() && old(current) <= current && Reads(span, R.ReadToken(old(Rest())))
    {
      hide R.TokenAt, JsonText.SkipSpaces;
      SkipSpaces();
      ghost var s := Rest();
      var start := current;
      var c := GetNextChar();
      var kind := R.EndOfStream;
      if start == |document| {
        EndToken(s);
      } else {
        var ok;
        kind, ok := ReadTokenBody(c, s);
        if !ok {
          kind := R.ErrorToken;
        }
      }
      span := Span(kind, start, current);
      assert s[..current - start] == document[start..current];
      assert s[current - start..] == document[current..];
    }

    /** The switch of readToken. */
    method ReadTokenBody(c: byte, ghost s: bytes) returns (kind: R.Kind, ok: bool)
      requires Valid() && s != [] && c == s[0] && Rest() == s[1..]
      modifies this`current
      ensures Valid() && old(current) <= current && |document| - current <= |s|
      ensures R.TokenAt(s) == R.Taken(if ok then kind else R.ErrorToken, s, |s| - (|document| - current))
    {
      hide R.ScanString, R.ScanComment, R.ScanNumber, R.Taken;
      ok := true;
      kind := R.ErrorToken;
      if c == LBRACE {
        kind := R.ObjectBegin;
      } else if c == RBRACE {
        kind := R.ObjectEnd;
      } else if c == LBRACKET {
        kind := R.ArrayBegin;
      } else if c == RBRACKET {
        kind := R.ArrayEnd;
      } else if c == QUOTE {
        kind := R.StringToken;
        ok := ReadString();
      } else if c == SLASH {
        kind := R.Comment;
        ok := ReadComment();
      } else if IsDigit(c) || c == MINUS {
        kind := R.NumberToken;
        ReadNumber();
      } else if c == 0x74 || c == 0x66 || c == 0x6E {
        kind, ok := ReadWord(c, s);
      } else if c == COMMA {
        kind := R.ArraySeparator;
      } else if c == COLON {
        kind := R.MemberSeparator;
      } else if c == 0 {
        kind := R.EndOfStream;
      } else {
        ok := false;
      }
    }

    method ReadWord(c: byte, ghost s: bytes) returns (kind: R.Kind, ok: bool)
      requires Valid() && s != [] && c == s[0] && Rest() == s[1..] && (c == 0x74 || c == 0x66 || c == 0x6E)
      modifies this`current
      ensures Valid() && old(current) <= current && |document| - current <= |s|
      ensures R.TokenAt(s) == R.Taken(if ok then kind else R.ErrorToken, s, |s| - (|document| - current))
    {
      hide R.ScanString, R.ScanComment, R.ScanNumber, R.Taken;
      Literals();
      if c == 0x74 {
        kind := R.TrueToken;
        ok := Match([0x72, 0x75, 0x65]);
      } else if c == 0x66 {
        kind := R.FalseToken;
        ok := Match([0x61, 0x6C, 0x73, 0x65]);
      } else {
        kind := R.NullToken;
        ok := Match([0x75, 0x6C, 0x6C]);
      }
    }

    /** skipCommentTokens */
    method SkipCommentTokens() returns (span: Span)
      requires Valid()
      modifies this`current
      ensures Valid() && old(current) <= current && Reads(span, R.Significant(old(Rest())))
    {
      hide R.ReadToken;
      span := ReadToken();
      while span.kind == R.Comment
        invariant Valid() && old(current) <= current && span.start <= span.end == current
        invariant span.kind == R.Comment ==> R.Significant(Rest()) == R.Significant(old(Rest()))
        invariant span.kind != R.Comment ==> Reads(span, R.Significant(old(Rest())))
        decreases |document| - current, span.kind == R.Comment
      {
        span := ReadToken();
      }
    }

    // --------------------------------------------------------------- decoding

    method AddError(span: Span)
      modifies this`errors
      ensures errors == old(errors) + [span]
    {
      errors := errors + [span];
    }

    /** recoverFromError: tokens are skipped up to the wanted kind, or the end. */
    method RecoverFromError(skipUntil: R.Kind)
      requires Valid()
      modifies this`current
      ensures Valid() && old(current) <= current
    {
      hide R.ReadToken;
      while true
        invariant Valid() && old(current) <= current
        decreases |document| - current
      {
        var skip := ReadToken();
        if skip.kind == skipUntil || skip.kind == R.EndOfStream {
          break;
        }
      }
    }

    method DecodeDouble(span: Span) returns (ok: bool, v: Value)
      requires span.start <= span.end <= |document|
      modifies this`errors
      ensures Decoded(R.DecodeDouble(document[span.start..span.end], scan), ok, v)
      ensures errors == old(errors) + if ok then [] else [span]
    {
      match scan(document[span.start..span.end])
      case Some(r) => return true, Real(r);
      case None =>
        AddError(span);
        return false, Null;
    }

    method DecodeNumber(span: Span) returns (ok: bool, v: Value)
      requires span.start < span.end <= |document|
      modifies this`errors
      ensures Decoded(R.DecodeNumber(document[span.start..span.end], scan), ok, v)
      ensures errors == old(errors) + if ok then [] else [span]
    {
      hide R.DecodeDouble, R.DecodeDigits;
      ghost var text := document[span.start..span.end];
      var isDouble := false;
      for inspect := span.start to span.end
        invariant (isDouble <==> R.LooksReal(document[span.start..inspect])) && errors == old(errors)
      {
        var c := document[inspect];
        RealSoFar(document[span.start..inspect], c);
        assert document[span.start..inspect] + [c] == document[span.start..inspect + 1];
        isDouble := isDouble || c == 0x2E || c == 0x65 || c == 0x45 || c == 0x2B
                    || (c == MINUS && inspect != span.start);
      }
      if isDouble {
        ok, v := DecodeDouble(span);
        return;
      }
      var current := span.start;
      var isNegative := document[current] == MINUS;
      if isNegative {
        current := current + 1;
      }
      ghost var digits := if isNegative then text[1..] else text;
      assert digits == document[current..span.end];
      var threshold := R.Threshold(isNegative);
      var value: nat := 0;
      while current < span.end
        invariant current <= span.end && errors == old(errors)
        invariant R.DecodeDigits(document[current..span.end], value, threshold) == R.DecodeDigits(digits, 0, threshold)
      {
        var c := document[current];
        DigitStep(document[current..span.end], value, threshold);
        assert document[current..span.end][1..] == document[current + 1..span.end];
        current := current + 1;
        if !IsDigit(c) {
          AddError(span);
          return false, Null;
        }
        if value >= threshold {
          ok, v := DecodeDouble(span);
          return;
        }
        value := value * 10 + (c - 0x30);
      }
      NoDigits(document[current..span.end], value, threshold);
      var m: int := value;
      ok, v := true, if isNegative then Int(-m) else if value <= MAX_INT then Int(value) else UInt(value);
    }

    /** decodeUnicodeEscapeSequence */
    method DecodeHex4(span: Span, current: nat, end: nat) returns (ok: bool, unicode: nat, next: nat)
      requires current <= end <= |document|
      modifies this`errors
      ensures
        var r := R.DecodeHex4(document[current..end]);
        ok == r.Some? && (ok ==> r.value == unicode && next == current + 4)
      ensures errors == old(errors) + if ok then [] else [span]
    {
      hide HexValue;
      unicode, next := 0, current;
      if end - current < 4 {
        AddError(span);
        return false, 0, next;
      }
      ghost var s := document[current..end];
      assert forall k | 0 <= k < 4 :: s[k] == document[current + k];
      for index := 0 to 4
        invariant next == current + index && errors == old(errors)
        invariant forall k | 0 <= k < index :: HexValue(s[k]).Some?
        invariant index == 1 ==> unicode == HexValue(s[0]).value
        invariant index == 2 ==> unicode == HexValue(s[0]).value * 16 + HexValue(s[1]).value
        invariant index == 3 ==>
          unicode == (HexValue(s[0]).value * 16 + HexValue(s[1]).value) * 16 + HexValue(s[2]).value
        invariant index == 4 ==> R.DecodeHex4(s) == Some(unicode)
        invariant index == 0 ==> unicode == 0
      {
        var digit := HexValue(document[next]);
        next := next + 1;
        if digit.None? {
          AddError(span);
          return false, 0, next;
        }
        unicode := unicode * 16 + digit.value;
      }
      ok := true;
    }

    method DecodeUnicodeCodePoint(span: Span, current: nat, end: nat) returns (ok: bool, unicode: nat, next: nat)
      requires current <= end <= |document|
      modifies this`errors
      ensures
        var r := R.DecodeCodePoint(document[current..end]);
        && ok == r.Some?
        && (ok ==> current < next <= end && r.value == (unicode, document[next..end]))
      ensures errors == old(errors) + if ok then [] else [span]
    {
      hide R.DecodeHex4;
      ok, unicode, next := DecodeHex4(span, current, end);
      if !ok || !(0xD800 <= unicode <= 0xDBFF) {
        if ok {
          assert document[current..end][4..] == document[next..end];
        }
        return;
      }
      ghost var t := document[current..end][4..];
      assert t == document[next..end];
      if end - next < 6 || document[next] != BACKSLASH || document[next + 1] != 0x75 {
        AddError(span);
        return false, 0, next;
      }
      assert t[2..] == document[next + 2..end] && t[6..] == document[next + 6..end];
      var pair: nat;
      var high := unicode;
      ok, pair, next := DecodeHex4(span, next + 2, end);
      if ok {
        unicode := 0x10000 + high % 0x400 * 0x400 + pair % 0x400;
      }
    }

    /** decodeString, into a local string. */
    method DecodeString(span: Span) returns (ok: bool, decoded: bytes)
      requires span.start + 2 <= span.end <= |document|
      modifies this`errors
      ensures
        var r := R.DecodeString(document[span.start..span.end]);
        ok == r.Some? && (ok ==> r.value == decoded)
      ensures errors == old(errors) + if ok then [] else [span]
    {
      hide R.DecodeCodePoint, R.DecodeChars;
      decoded := [];
      var current, end := span.start + 1, span.end - 1;
      ghost var s := document[current..end];
      SliceOfSlice(document, span.start, span.end, 1, span.end - span.start - 1);
      assert document[span.start..span.end][1..span.end - span.start - 1] == s;
      JoinNothing(R.DecodeChars(s));
      while current != end
        invariant current <= end && errors == old(errors)
        invariant R.DecodeChars(s) == R.Cons(decoded, R.DecodeChars(document[current..end]))
        decreases end - current
      {
        if document[current] == QUOTE {
          break;
        }
        ghost var was := decoded;
        ok, current, decoded := DecodeChar(span, current, end, decoded);
        if !ok {
          return;
        }
        JoinTwice(was, decoded[|was|..], R.DecodeChars(document[current..end]));
        assert decoded == was + decoded[|was|..];
      }
      CharsEnd(document[current..end]);
      assert decoded + [] == decoded;
      ok := true;
    }

    method DecodeChar(span: Span, current: nat, end: nat, decoded: bytes) returns (ok: bool, next: nat, more: bytes)
      requires current < end <= |document| && document[current] != QUOTE
      modifies this`errors
      ensures ok ==> current < next <= end && decoded <= more
      ensures
        R.DecodeChars(document[current..end])
        == if ok then R.Cons(more[|decoded|..], R.DecodeChars(document[next..end])) else None
      ensures errors == old(errors) + if ok then [] else [span]
    {
      hide R.DecodeCodePoint, R.CodePointToUTF8, R.Unescaped;
      ghost var s := document[current..end];
      var c := document[current];
      assert s[0] == c && s[1..] == document[current + 1..end];
      next, more := current + 1, decoded;
      if c != BACKSLASH {
        return true, next, decoded + [c];
      }
      if next == end {
        AddError(span);
        return false, next, more;
      }
      var escape := document[next];
      next := next + 1;
      assert s[1] == escape && s[2..] == document[next..end];
      if escape == 0x75 {
        var unicode: nat;
        ok, unicode, next := DecodeUnicodeCodePoint(span, next, end);
        if ok {
          more := decoded + R.CodePointToUTF8(unicode);
        }
      } else if R.Unescaped(escape).Some? {
        return true, next, decoded + [R.Unescaped(escape).value];
      } else {
        AddError(span);
        ok := false;
      }
    }

    // ---------------------------------------------------------------- parsing

    /** Errors are only ever added, and there is a new one exactly when reading fails. */
    ghost predicate Reported(ok: bool, before: seq<Span>, after: seq<Span>) {
      if ok then after == before else before < after
    }

    /** readValue */
    method ReadValue() returns (ok: bool, v: Value)
      requires Valid()
      modifies this`current, this`errors
      ensures Valid() && old(current) <= current && (ok ==> old(current) < current)
      ensures Outcome(R.ParseValue(old(Rest()), scan), ok, v, Rest())
      ensures Reported(ok, old(errors), errors)
      decreases |document| - current, 0
    {
      hide R.Significant, R.DecodeNumber, R.DecodeString, R.ParseElements, R.ParseMembers, R.UpToNul;
      ghost var s := Rest();
      R.SignificantText(s);
      var span := SkipCommentTokens();
      if span.kind == R.ObjectBegin {
        ok, v := ReadObject();
      } else if span.kind == R.ArrayBegin {
        ok, v := ReadArray();
      } else if span.kind == R.NumberToken {
        ok, v := DecodeNumber(span);
      } else if span.kind == R.StringToken {
        var decoded;
        ok, decoded := DecodeString(span);
        v := Str(R.UpToNul(decoded));
      } else if span.kind == R.TrueToken || span.kind == R.FalseToken {
        ok, v := true, Bool(span.kind == R.TrueToken);
      } else if span.kind == R.NullToken {
        ok, v := true, Null;
      } else {
        AddError(span);
        ok, v := false, Null;
      }
    }

    /** readArray, behind the opening bracket. */
    method ReadArray() returns (ok: bool, v: Value)
      requires Valid()
      modifies this`current, this`errors
      ensures Valid() && old(current) <= current
      ensures Outcome(ArrayFrom(old(Rest()), scan), ok, v, Rest())
      ensures Reported(ok, old(errors), errors)
      decreases |document| - current, 2
    {
      hide R.ParseElements, JsonText.SkipSpaces;
      ghost var s := Rest();
      SkipSpaces();
      if current < |document| && document[current] == RBRACKET {
        assert Rest()[1..] == document[current + 1..];
        CloseToken(Rest());
        var _ := ReadToken();
        return true, Array([]);
      }
      SkippedElements(s, scan);
      ghost var done: seq<Value> := [];
      var es: seq<(nat, Value)> := [];
      NoElements(R.ParseElements(Rest(), scan));
      ghost var from := Rest();
      while true
        invariant Valid() && old(current) <= current && errors == old(errors)
        invariant es == R.Numbered(done, 0) && |es| == |done|
        invariant R.ParseElements(from, scan) == Behind(done, R.ParseElements(Rest(), scan))
        decreases |document| - current
      {
        var more, element;
        ok, more, element := ReadElement();
        BehindTwice(done, element, R.ParseElements(Rest(), scan));
        if !ok {
          RecoverFromError(R.ArrayEnd);
          return false, Null;
        }
        NumberedAppend(done, element, 0);
        es := es + [(|es|, element)];
        done := done + [element];
        if !more {
          break;
        }
      }
      assert done + [] == done;
      v := Array(es);
    }

    /** One round of the loop in readArray. */
    method ReadElement() returns (ok: bool, more: bool, element: Value)
      requires Valid()
      modifies this`current, this`errors
      ensures Valid() && old(current) <= current && (ok ==> old(current) < current)
      ensures
        R.ParseElements(old(Rest()), scan)
        == if !ok then None else if !more then Some(([element], Rest()))
           else Behind([element], R.ParseElements(Rest(), scan))
      ensures Reported(ok, old(errors), errors)
      decreases |document| - current, 1
    {
      hide R.ParseValue, R.Significant;
      more := false;
      ok, element := ReadValue();
      if ok {
        var span := SkipCommentTokens();
        more := span.kind != R.ArrayEnd;
      }
    }

    /** readObject, behind the opening brace. */
    method ReadObject() returns (ok: bool, v: Value)
      requires Valid()
      modifies this`current, this`errors
      ensures Valid() && old(current) <= current
      ensures Outcome(ObjectFrom(old(Rest()), scan), ok, v, Rest())
      ensures Reported(ok, old(errors), errors)
      decreases |document| - current, 2
    {
      hide R.ParseMembers, PutMember, R.UpToNul;
      ghost var from := Rest();
      ghost var done: seq<(bytes, Value)> := [];
      var name: bytes := [];
      var ms: seq<(bytes, Value)> := [];
      NoMembers(R.ParseMembers(from, [], scan));
      var more := true;
      while more
        invariant Valid() && old(current) <= current && errors == old(errors)
        invariant ms == PutAll([], done)
        invariant
          R.ParseMembers(from, [], scan)
          == MembersBehind(done, if more then R.ParseMembers(Rest(), name, scan) else Some(([], Rest())))
        decreases |document| - current, more
      {
        var status, value;
        ghost var last := name;
        status, name, value := ReadMember(name);
        match status {
          case Failed =>
            RecoverFromError(R.ObjectEnd);
            return false, Null;
          case Closed => more := false;
          case Member(m) =>
            more := m;
            PutAllAppend([], done, (R.UpToNul(name), value));
            ms := PutMember(ms, R.UpToNul(name), value);
            BehindOneMore(done, (R.UpToNul(name), value),
                          if m then R.ParseMembers(Rest(), name, scan) else Some(([], Rest())));
            done := done + [(R.UpToNul(name), value)];
        }
      }
      assert done + [] == done;
      ok, v := true, Object(ms);
    }

    /** One round of the loop in readObject; `last` is the name read before. */
    method ReadMember(last: bytes) returns (status: Status, name: bytes, value: Value)
      requires Valid()
      modifies this`current, this`errors
      ensures Valid() && old(current) <= current && (status.Member? ==> old(current) < current)
      ensures
        R.ParseMembers(old(Rest()), last, scan)
        == match status
           case Failed => None
           case Closed => Some(([], Rest()))
           case Member(more) =>
             MembersBehind([(R.UpToNul(name), value)],
                           if more then R.ParseMembers(Rest(), name, scan) else Some(([], Rest())))
      ensures Reported(!status.Failed?, old(errors), errors)
      decreases |document| - current, 1
    {
      hide R.ParseMembers, R.Significant, R.DecodeString, R.UpToNul, AfterName;
      R.SignificantText(Rest());
      MembersUnfold(Rest(), last, scan);
      status, name, value := Failed, last, Null;
      var span := SkipCommentTokens();
      if span.kind == R.ObjectEnd && last == [] {
        status := Closed;
      } else if span.kind != R.StringToken {
        AddError(span);
      } else {
        var ok;
        ok, name := DecodeString(span);
        if ok {
          status, value := ReadMemberValue(name);
        }
      }
    }

    /** readObject, between a member's name and the next. */
    method ReadMemberValue(name: bytes) returns (status: Status, value: Value)
      requires Valid()
      modifies this`current, this`errors
      ensures Valid() && old(current) <= current && (status.Member? ==> old(current) < current)
      ensures
        AfterName(old(Rest()), name, scan)
        == match status
           case Failed => None
           case Closed => Some(([], Rest()))
           case Member(more) =>
             MembersBehind([(R.UpToNul(name), value)],
                           if more then R.ParseMembers(Rest(), name, scan) else Some(([], Rest())))
      ensures Reported(!status.Failed?, old(errors), errors) && !status.Closed?
      decreases |document| - current, 1
    {
      hide R.ParseMembers, R.ParseValue, R.Significant, R.ReadToken, R.UpToNul;
      status, value := Failed, Null;
      var colon := ReadToken();
      if colon.kind != R.MemberSeparator {
        AddError(colon);
        return;
      }
      var ok;
      ok, value := ReadValue();
      if !ok {
        return;
      }
      ghost var after := Rest();
      var comma := ReadToken();
      if comma.kind != R.ObjectEnd && comma.kind != R.ArraySeparator && comma.kind != R.Comment {
        AddError(comma);
        return;
      }
      SignificantStep(after);
      if comma.kind == R.Comment {
        comma := SkipCommentTokens();
      }
      assert [(R.UpToNul(name), value)] + [] == [(R.UpToNul(name), value)];
      status := Member(comma.kind != R.ObjectEnd);
    }

    /** parse: true exactly when the document starts with a value; an error is on record
        exactly when it does not. */
    method Parse() returns (ok: bool, root: Value)
      requires Valid()
      modifies this`current, this`errors
      ensures Valid() && ok == R.Parse(document, scan).Some? && (ok ==> R.Parse(document, scan) == Some(root))
      ensures ok <==> errors == []
    {
      hide R.ParseValue;
      current := 0;
      errors := [];
      assert Rest() == document;
      ok, root := ReadValue();
      var _ := SkipCommentTokens();
    }
  }

  datatype Status = Failed | Closed | Member(more: bool)

  ghost predicate Outcome(r: Option<(Value, bytes)>, ok: bool, v: Value, rest: bytes) {
    ok == r.Some? && (ok ==> r.value == (v, rest))
  }

  /** What readValue makes of the text behind an opening bracket. */
  function ArrayFrom(s: bytes, scan: R.Scan): Option<(Value, bytes)> {
    var inner := JsonText.SkipSpaces(s);
    if inner != [] && inner[0] == RBRACKET then Some((Array([]), inner[1..]))
    else match R.ParseElements(s, scan)
      case None => None
      case Some((vs, rest)) => Some((Array(R.Numbered(vs, 0)), rest))
  }

  function ObjectFrom(s: bytes, scan: R.Scan): Option<(Value, bytes)> {
    match R.ParseMembers(s, [], scan)
    case None => None
    case Some((ms, rest)) => Some((Object(PutAll([], ms)), rest))
  }

  /** The loop of readObject between a member's name and the next. */
  function AfterName(s: bytes, name: bytes, scan: R.Scan): Option<(seq<(bytes, Value)>, bytes)> {
    var colon := R.ReadToken(s);
    if colon.kind != R.MemberSeparator then None
    else match R.ParseValue(colon.rest, scan)
      case None => None
      case Some((v, rest)) =>
        var comma := R.ReadToken(rest).kind;
        var end := R.Significant(rest);
        if comma != R.ObjectEnd && comma != R.ArraySeparator && comma != R.Comment then None
        else MembersBehind([(R.UpToNul(name), v)],
                           if end.kind == R.ObjectEnd then Some(([], end.rest))
                           else R.ParseMembers(end.rest, name, scan))
  }

  lemma MembersUnfold(s: bytes, last: bytes, scan: R.Scan)
    ensures
      var t := R.Significant(s);
      (t.kind == R.StringToken ==> |t.text| >= 2)
      && R.ParseMembers(s, last, scan)
         == if t.kind == R.ObjectEnd && last == [] then Some(([], t.rest))
            else if t.kind != R.StringToken || R.DecodeString(t.text).None? then None
            else AfterName(t.rest, R.DecodeString(t.text).value, scan)
  {
    hide R.ParseValue, R.Significant, R.ReadToken, R.UpToNul, R.DecodeString;
    R.SignificantText(s);
    assert forall m: (bytes, Value) :: [m] + [] == [m];
  }

  function Behind(done: seq<Value>, r: Option<(seq<Value>, bytes)>): Option<(seq<Value>, bytes)> {
    if r.None? then None else Some((done + r.value.0, r.value.1))
  }

  function MembersBehind(done: seq<(bytes, Value)>, r: Option<(seq<(bytes, Value)>, bytes)>):
    Option<(seq<(bytes, Value)>, bytes)>
  {
    if r.None? then None else Some((done + r.value.0, r.value.1))
  }

  lemma NoElements(r: Option<(seq<Value>, bytes)>)
    ensures Behind([], r) == r
  {
    assert r.Some? ==> [] + r.value.0 == r.value.0;
  }

  lemma NoMembers(r: Option<(seq<(bytes, Value)>, bytes)>)
    ensures MembersBehind([], r) == r
  {
    assert r.Some? ==> [] + r.value.0 == r.value.0;
  }

  lemma BehindTwice(done: seq<Value>, v: Value, r: Option<(seq<Value>, bytes)>)
    ensures Behind(done, Behind([v], r)) == Behind(done + [v], r)
  {
    assert r.Some? ==> done + ([v] + r.value.0) == done + [v] + r.value.0;
  }

  lemma BehindOneMore(done: seq<(bytes, Value)>, m: (bytes, Value), r: Option<(seq<(bytes, Value)>, bytes)>)
    ensures MembersBehind(done, MembersBehind([m], r)) == MembersBehind(done + [m], r)
  {
    assert r.Some? ==> done + ([m] + r.value.0) == done + [m] + r.value.0;
  }

  lemma {:induction false} NumberedAppend(vs: seq<Value>, v: Value, next: nat)
    ensures R.Numbered(vs + [v], next) == R.Numbered(vs, next) + [(next + |vs|, v)]
  {
    if vs == [] {
      assert [v][1..] == [] && vs + [v] == [v];
    } else {
      assert (vs + [v])[1..] == vs[1..] + [v];
      NumberedAppend(vs[1..], v, next + 1);
    }
  }

  lemma {:induction false} PutAllAppend(ms: seq<(bytes, Value)>, done: seq<(bytes, Value)>, m: (bytes, Value))
    ensures PutAll(ms, done + [m]) == PutMember(PutAll(ms, done), m.0, m.1)
    decreases |done|
  {
    if done == [] {
      assert done + [m] == [m] && [m][1..] == [];
    } else {
      assert (done + [m])[1..] == done[1..] + [m];
      PutAllAppend(PutMember(ms, done[0].0, done[0].1), done[1..], m);
    }
  }

  lemma CloseToken(s: bytes)
    requires s != [] && s[0] == RBRACKET
    ensures R.ReadToken(s) == R.Token(R.ArrayEnd, [RBRACKET], s[1..])
  {
    assert JsonText.SkipSpaces(s) == s;
  }

  /** Leading white space does not matter to the elements. */
  lemma SkippedElements(s: bytes, scan: R.Scan)
    ensures R.ParseElements(JsonText.SkipSpaces(s), scan) == R.ParseElements(s, scan)
  {
    hide R.TokenAt;
    assert JsonText.SkipSpaces(JsonText.SkipSpaces(s)) == JsonText.SkipSpaces(s);
    assert R.Significant(JsonText.SkipSpaces(s)) == R.Significant(s);
    SkippedValue(s, JsonText.SkipSpaces(s), scan);
  }

  lemma SkippedValue(s: bytes, t: bytes, scan: R.Scan)
    requires R.Significant(s) == R.Significant(t) && (JsonText.SkipSpaces(s) == JsonText.SkipSpaces(t))
    ensures R.ParseValue(s, scan) == R.ParseValue(t, scan)
  {
    hide R.Significant, JsonText.SkipSpaces, R.ParseElements, R.ParseMembers, R.DecodeNumber, R.DecodeString, PutAll;
  }

  lemma SignificantStep(s: bytes)
    ensures R.Significant(s)
            == if R.ReadToken(s).kind == R.Comment then R.Significant(R.ReadToken(s).rest) else R.ReadToken(s)
  {
  }

  ghost predicate Decoded(r: Option<Value>, ok: bool, v: Value) {
    ok == r.Some? && (ok ==> r.value == v)
  }

  lemma RealSoFar(s: bytes, c: byte)
    ensures R.LooksReal(s + [c]) <==>
              R.LooksReal(s) || c == 0x2E || c == 0x65 || c == 0x45 || c == 0x2B || (c == MINUS && s != [])
  {
    assert (s + [c])[|s|] == c;
    assert forall i | 0 <= i < |s| :: (s + [c])[i] == s[i];
  }

  lemma DigitStep(s: bytes, value: nat, threshold: nat)
    requires s != []
    ensures R.DecodeDigits(s, value, threshold)
            == if !IsDigit(s[0]) then R.NotANumber
               else if value >= threshold then R.TooLarge
               else R.DecodeDigits(s[1..], value * 10 + (s[0] - 0x30), threshold)
  {
  }

  lemma NoDigits(s: bytes, value: nat, threshold: nat)
    requires s == []
    ensures R.DecodeDigits(s, value, threshold) == R.Exact(value)
  {
  }

  lemma CharsEnd(s: bytes)
    requires s == [] || s[0] == QUOTE
    ensures R.DecodeChars(s) == Some([])
  {
  }

  lemma JoinNothing(r: Option<bytes>)
    ensures R.Cons([], r) == r
  {
    assert r.Some? ==> [] + r.value == r.value;
  }

  lemma JoinTwice(a: bytes, b: bytes, r: Option<bytes>)
    ensures R.Cons(a, R.Cons(b, r)) == R.Cons(a + b, r)
  {
    assert r.Some? ==> a + (b + r.value) == a + b + r.value;
  }

  lemma EndToken(s: bytes)
    requires s == []
    ensures R.TokenAt(s) == R.Token(R.EndOfStream, [], [])
  {
  }

  lemma NoString(s: bytes)
    requires s == []
    ensures R.ScanString(s) == (false, 0)
  {
  }

  /** One round of readString. */
  lemma StringStep(s: bytes, one: bytes, two: bytes)
    requires s != [] && s == [s[0]] + one && (|s| > 1 ==> s == [s[0], s[1]] + two)
    ensures R.ScanString(s)
            == if s[0] == QUOTE then (true, 1)
               else if s[0] == BACKSLASH && |s| > 1 then Ahead(R.ScanString(two), 2)
               else Ahead(R.ScanString(one), 1)
  {
    assert one == s[1..];
    if s[0] != QUOTE {
      if s[0] == BACKSLASH && |s| > 1 {
        assert two == s[2..];
        assert R.ScanString(s) == Ahead(R.ScanString(s[2..]), 2);
      } else {
        assert R.ScanString(s) == Ahead(R.ScanString(s[1..]), 1);
      }
    }
  }

  lemma Literals()
    ensures TRUE_TEXT[1..] == [0x72, 0x75, 0x65]
    ensures FALSE_TEXT[1..] == [0x61, 0x6C, 0x73, 0x65]
    ensures NULL_TEXT[1..] == [0x75, 0x6C, 0x6C]
  {
  }

  /** A scan that starts `n` characters earlier. */
  function Ahead(r: (bool, nat), n: int): (bool, int) {
    (r.0, n + r.1)
  }
}
