/** Json::Reader as functions on the text that is still to be read. Reading a real
    number is left to `scan`, which stands for sscanf with "%lf". */
module JsonReader {
  import opened Wrappers
  import opened Bytes
  import opened JsonValue
  import opened JsonText

  type Scan = bytes -> Option<real>

  // ----------------------------------------------------------------- tokens

  datatype Kind =
    | ObjectBegin | ObjectEnd | ArrayBegin | ArrayEnd
    | StringToken | NumberToken | TrueToken | FalseToken | NullToken
    | ArraySeparator | MemberSeparator | Comment | EndOfStream | ErrorToken

  datatype Token = Token(kind: Kind, text: bytes, rest: bytes)

  /** readString, behind the opening quote: whether the string is closed, and how many
      characters it takes. */
  function ScanString(s: bytes): (r: (bool, nat))
    ensures r.1 <= |s| && (r.0 ==> 1 <= r.1)
  {
    if s == [] then (false, 0)
    else if s[0] == QUOTE then (true, 1)
    else
      var step := if s[0] == BACKSLASH && |s| > 1 then 2 else 1;
      var (ok, n) := ScanString(s[step..]);
      (ok, step + n)
  }

  predicate IsNumberChar(c: byte) {
    IsDigit(c) || c == 0x2E || c == 0x65 || c == 0x45 || c == 0x2B || c == MINUS
  }

  /** readNumber */
  function ScanNumber(s: bytes): (n: nat)
    ensures n <= |s|
  {
    if s != [] && IsNumberChar(s[0]) then 1 + ScanNumber(s[1..]) else 0
  }

  /** readCStyleComment: up to and including the closing mark, if there is one. */
  function ScanCComment(s: bytes): (r: (bool, nat))
    ensures r.1 <= |s|
  {
    if s == [] then (false, 0)
    else if s[0] == 0x2A && |s| > 1 && s[1] == SLASH then (true, 2)
    else
      var (ok, n) := ScanCComment(s[1..]);
      (ok, 1 + n)
  }

  /** readCppStyleComment: up to and including the end of the line. */
  function ScanLine(s: bytes): (n: nat)
    ensures n <= |s|
  {
    if s == [] then 0 else if s[0] == 0x0D || s[0] == 0x0A then 1 else 1 + ScanLine(s[1..])
  }

  /** readComment, behind the first slash. */
  function ScanComment(s: bytes): (r: (bool, nat))
    ensures r.1 <= |s|
  {
    if s == [] then (false, 0)
    else if s[0] == 0x2A then
      var (ok, n) := ScanCComment(s[1..]);
      (ok, 1 + n)
    else if s[0] == SLASH then (true, 1 + ScanLine(s[1..]))
    else (false, 1)
  }

  function Taken(kind: Kind, s: bytes, n: nat): (t: Token)
    requires n <= |s|
    ensures |t.rest| == |s| - n
  {
    Token(kind, s[..n], s[n..])
  }

  /** match: a literal, or an error token holding its first letter. */
  function Literal(kind: Kind, s: bytes, literal: bytes): (t: Token)
    requires s != [] && literal != []
    ensures |t.rest| < |s|
  {
    if literal[1..] <= s[1..] then Taken(kind, s, |literal|) else Taken(ErrorToken, s, 1)
  }

  /** readToken on text without leading white space. */
  function TokenAt(s: bytes): (t: Token)
    ensures s != [] ==> |t.rest| < |s|
    ensures s == [] ==> t == Token(EndOfStream, [], [])
  {
    if s == [] then Token(EndOfStream, [], [])
    else
      var c := s[0];
      if c == LBRACE then Taken(ObjectBegin, s, 1)
      else if c == RBRACE then Taken(ObjectEnd, s, 1)
      else if c == LBRACKET then Taken(ArrayBegin, s, 1)
      else if c == RBRACKET then Taken(ArrayEnd, s, 1)
      else if c == QUOTE then
        var (ok, n) := ScanString(s[1..]);
        Taken(if ok then StringToken else ErrorToken, s, 1 + n)
      else if c == SLASH then
        var (ok, n) := ScanComment(s[1..]);
        Taken(if ok then Comment else ErrorToken, s, 1 + n)
      else if IsDigit(c) || c == MINUS then Taken(NumberToken, s, 1 + ScanNumber(s[1..]))
      else if c == 0x74 then Literal(TrueToken, s, TRUE_TEXT)
      else if c == 0x66 then Literal(FalseToken, s, FALSE_TEXT)
      else if c == 0x6E then Literal(NullToken, s, NULL_TEXT)
      else if c == COMMA then Taken(ArraySeparator, s, 1)
      else if c == COLON then Taken(MemberSeparator, s, 1)
      else if c == 0 then Taken(EndOfStream, s, 1)
      else Taken(ErrorToken, s, 1)
  }

  function ReadToken(s: bytes): (t: Token)
    ensures |t.rest| <= |s|
    ensures t.kind != EndOfStream ==> |t.rest| < |s|
  {
    TokenAt(SkipSpaces(s))
  }

  /** skipCommentTokens, with comments allowed. */
  function Significant(s: bytes): (t: Token)
    ensures |t.rest| <= |s|
    ensures t.kind != EndOfStream ==> |t.rest| < |s|
    ensures t.kind != Comment
    decreases |s|
  {
    var t := ReadToken(s);
    if t.kind == Comment then Significant(t.rest) else t
  }

  // ---------------------------------------------------------------- numbers

  predicate LooksReal(text: bytes) {
    exists i | 0 <= i < |text| ::
      text[i] == 0x2E || text[i] == 0x65 || text[i] == 0x45 || text[i] == 0x2B || (text[i] == MINUS && i > 0)
  }

  datatype Digits = Exact(n: nat) | TooLarge | NotANumber

  /** The digit loop of decodeNumber: it gives up for a double as soon as the value so
      far has reached the threshold and another digit follows. */
  function DecodeDigits(ds: bytes, value: nat, threshold: nat): Digits {
    if ds == [] then Exact(value)
    else if !IsDigit(ds[0]) then NotANumber
    else if value >= threshold then TooLarge
    else DecodeDigits(ds[1..], value * 10 + (ds[0] - 0x30), threshold)
  }

  function Threshold(negative: bool): nat {
    (if negative then -MIN_INT else MAX_UINT) / 10
  }

  function DecodeDouble(text: bytes, scan: Scan): Option<Value> {
    match scan(text)
    case None => None
    case Some(r) => Some(Real(r))
  }

  function DecodeNumber(text: bytes, scan: Scan): Option<Value>
    requires text != []
  {
    if LooksReal(text) then DecodeDouble(text, scan)
    else
      var negative := text[0] == MINUS;
      match DecodeDigits(if negative then text[1..] else text, 0, Threshold(negative))
      case NotANumber => None
      case TooLarge => DecodeDouble(text, scan)
      case Exact(n) =>
        var m: int := n;
        Some(if negative then Int(-m) else if n <= MAX_INT then Int(n) else UInt(n))
  }

  // ---------------------------------------------------------------- strings

  /** codePointToUTF8 */
  function CodePointToUTF8(cp: nat): (r: bytes) {
    if cp <= 0x7F then [cp]
    else if cp <= 0x7FF then [0xC0 + cp / 0x40 % 0x20, 0x80 + cp % 0x40]
    else if cp <= 0xFFFF then [0xE0 + cp / 0x1000 % 0x10, 0x80 + cp / 0x40 % 0x40, 0x80 + cp % 0x40]
    else if cp <= 0x10FFFF then
      [0xF0 + cp / 0x40000 % 0x8, 0x80 + cp / 0x1000 % 0x40, 0x80 + cp / 0x40 % 0x40, 0x80 + cp % 0x40]
    else []
  }

  /** decodeUnicodeEscapeSequence: four hexadecimal digits. */
  function DecodeHex4(s: bytes): (r: Option<nat>)
    ensures r.Some? ==> |s| >= 4 && r.value < 0x10000
  {
    if |s| < 4 then None
    else if HexValue(s[0]).None? || HexValue(s[1]).None? || HexValue(s[2]).None? || HexValue(s[3]).None? then None
    else Some(((HexValue(s[0]).value * 16 + HexValue(s[1]).value) * 16 + HexValue(s[2]).value) * 16
              + HexValue(s[3]).value)
  }

  /** decodeUnicodeCodePoint: the code point, and the text behind it. The second half
      of a pair is not checked to be a low surrogate. */
  function DecodeCodePoint(s: bytes): (r: Option<(nat, bytes)>)
    ensures r.Some? ==> |r.value.1| < |s|
  {
    var u := DecodeHex4(s);
    if u.None? then None
    else if !(0xD800 <= u.value <= 0xDBFF) then Some((u.value, s[4..]))
    else
      var t := s[4..];
      if |t| < 6 || t[0] != BACKSLASH || t[1] != 0x75 then None
      else
        var pair := DecodeHex4(t[2..]);
        if pair.None? then None
        else Some((0x10000 + u.value % 0x400 * 0x400 + pair.value % 0x400, t[6..]))
  }

  function Unescaped(letter: byte): Option<byte> {
    if letter == QUOTE || letter == SLASH || letter == BACKSLASH then Some(letter)
    else if letter == 0x62 then Some(0x08)
    else if letter == 0x66 then Some(0x0C)
    else if letter == 0x6E then Some(0x0A)
    else if letter == 0x72 then Some(0x0D)
    else if letter == 0x74 then Some(0x09)
    else None
  }

  function Cons(s: bytes, r: Option<bytes>): Option<bytes> {
    if r.None? then None else Some(s + r.value)
  }

  /** The loop of decodeString, between the quotes. */
  function DecodeChars(s: bytes): (r: Option<bytes>)
    decreases |s|
  {
    if s == [] || s[0] == QUOTE then Some([])
    else if s[0] != BACKSLASH then Cons([s[0]], DecodeChars(s[1..]))
    else if |s| == 1 then None
    else if s[1] == 0x75 then
      match DecodeCodePoint(s[2..])
      case None => None
      case Some((cp, rest)) => Cons(CodePointToUTF8(cp), DecodeChars(rest))
    else match Unescaped(s[1])
      case None => None
      case Some(c) => Cons([c], DecodeChars(s[2..]))
  }

  function DecodeString(text: bytes): Option<bytes>
    requires |text| >= 2
  {
    DecodeChars(text[1..|text| - 1])
  }

  /** c_str() of a std::string: what is kept of a decoded name or value. */
  function UpToNul(s: bytes): (r: bytes)
    ensures CString(r)
  {
    if s == [] || s[0] == 0 then [] else [s[0]] + UpToNul(s[1..])
  }

  // ----------------------------------------------------------------- values

  lemma StringTokenText(s: bytes)
    ensures ReadToken(s).kind == StringToken ==> |ReadToken(s).text| >= 2
    ensures ReadToken(s).kind == NumberToken ==> ReadToken(s).text != []
  {
  }

  lemma {:induction false} SignificantText(s: bytes)
    ensures Significant(s).kind == StringToken ==> |Significant(s).text| >= 2
    ensures Significant(s).kind == NumberToken ==> Significant(s).text != []
    decreases |s|
  {
    StringTokenText(s);
    var t := ReadToken(s);
    if t.kind == Comment {
      SignificantText(t.rest);
    }
  }

  /** readValue: the value, and the text behind it; None on any error. */
  function ParseValue(s: bytes, scan: Scan): (r: Option<(Value, bytes)>)
    ensures r.Some? ==> |r.value.1| < |s|
    decreases |s|, 1
  {
    SignificantText(s);
    var t := Significant(s);
    match t.kind
    case ObjectBegin =>
      (match ParseMembers(t.rest, [], scan)
       case None => None
       case Some((ms, rest)) => Some((Object(PutAll([], ms)), rest)))
    case ArrayBegin =>
      var inner := SkipSpaces(t.rest);
      if inner != [] && inner[0] == RBRACKET then Some((Array([]), inner[1..]))
      else (match ParseElements(t.rest, scan)
            case None => None
            case Some((vs, rest)) => Some((Array(Numbered(vs, 0)), rest)))
    case NumberToken =>
      (match DecodeNumber(t.text, scan)
       case None => None
       case Some(v) => Some((v, t.rest)))
    case StringToken =>
      (match DecodeString(t.text)
       case None => None
       case Some(decoded) => Some((Str(UpToNul(decoded)), t.rest)))
    case TrueToken => Some((Bool(true), t.rest))
    case FalseToken => Some((Bool(false), t.rest))
    case NullToken => Some((Null, t.rest))
    case _ => None
  }

  /** The elements of an array get consecutive indices. */
  function Numbered(vs: seq<Value>, next: nat): (es: seq<(nat, Value)>) {
    if vs == [] then [] else [(next, vs[0])] + Numbered(vs[1..], next + 1)
  }

  /** The loop of readArray. Whatever token follows an element, unless it is the closing
      bracket, passes for a separator. */
  function ParseElements(s: bytes, scan: Scan): (r: Option<(seq<Value>, bytes)>)
    ensures r.Some? ==> |r.value.1| < |s|
    decreases |s|, 2
  {
    match ParseValue(s, scan)
    case None => None
    case Some((v, rest)) =>
      var t := Significant(rest);
      if t.kind == ArrayEnd then Some(([v], t.rest))
      else match ParseElements(t.rest, scan)
        case None => None
        case Some((vs, end)) => Some(([v] + vs, end))
  }

  /** The loop of readObject; `last` is the name of the previous member. */
  function ParseMembers(s: bytes, last: bytes, scan: Scan): (r: Option<(seq<(bytes, Value)>, bytes)>)
    ensures r.Some? ==> |r.value.1| < |s|
    decreases |s|, 2
  {
    SignificantText(s);
    var t := Significant(s);
    if t.kind == ObjectEnd && last == [] then Some(([], t.rest))
    else if t.kind != StringToken then None
    else match DecodeString(t.text)
      case None => None
      case Some(name) =>
        var colon := ReadToken(t.rest);
        if colon.kind != MemberSeparator then None
        else match ParseValue(colon.rest, scan)
          case None => None
          case Some((v, rest)) =>
            var comma := ReadToken(rest).kind;
            if comma != ObjectEnd && comma != ArraySeparator && comma != Comment then None
            else
              var end := Significant(rest);
              if end.kind == ObjectEnd then Some(([(UpToNul(name), v)], end.rest))
              else match ParseMembers(end.rest, name, scan)
                case None => None
                case Some((ms, after)) => Some(([(UpToNul(name), v)] + ms, after))
  }

  /** Reader::parse; what follows the value is not looked at. */
  function Parse(document: bytes, scan: Scan): Option<Value> {
    match ParseValue(document, scan)
    case None => None
    case Some((v, _)) => Some(v)
  }
}
