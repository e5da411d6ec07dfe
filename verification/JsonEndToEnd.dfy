/** The writers and the reader, run against each other. */
module JsonEndToEnd {
  import opened JsonValue
  import opened JsonText
  import opened JsonRoundTrip
  import R = JsonReader
  import W = JsonWriter
  import S = JsonStyledWriter
  import P = JsonParser

  /** FastWriter::write, then Reader::parse. */
  method FastThenParse(v: Value, yaml: bool, scan: R.Scan) returns (ok: bool, w: Value)
    requires W.Printable(v)
    ensures ok && w == Norm(v) <==> ExactTree(v)
  {
    hide Norm, ExactTree, Wf, RealFree, Lex, Spaced, W.Glue, R.Parse;
    var writer := new W.FastWriter();
    if yaml {
      writer.EnableYamlCompatibility();
    }
    var text := writer.Write(v);
    W.FastRoundTripIff(v, yaml, text, scan);
    var reader := new P.Reader(text, scan);
    ok, w := reader.Parse();
  }

  /** Both writers, then Reader::parse: the layout makes no difference. */
  method StyledThenParse(v: Value, scan: R.Scan) returns (same: bool)
    requires W.Printable(v)
    ensures same
  {
    hide Norm, ExactTree, Wf, RealFree, Lex, Spaced, W.Glue, R.Parse;
    var fast := new W.FastWriter();
    var plain := fast.Write(v);
    var styled := new S.StyledWriter();
    var text := styled.Write(v);
    S.StyledAgreesWithFast(v, text, plain, false, scan);
    var reader := new P.Reader(plain, scan);
    var ok, w := reader.Parse();
    var second := new P.Reader(text, scan);
    var ok2, w2 := second.Parse();
    same := ok == ok2 && (ok ==> w == w2);
  }
}
