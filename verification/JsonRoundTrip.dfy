/** A value written by the writer and read by the parser, in `3rdparty/crow/json.h`. */
module JsonRoundTrip {
  import opened JsonSpec
  import opened JsonProof
  import opened JsonWriter
  import opened JsonReader
  import opened JsonParser

  /**
    `dump` and then `load`: what the parser returns stands for the value, in the parser's own buffer, if
    the value is nested at most 5000 deep, and else is an error.
   */
  method DumpAndLoad(v: Json, style: Style) returns (r: RValue, parser: Parser)
    requires Spaced(style) && Integers(v)
    ensures Depth(v) <= 5000 ==> Denotes(parser.buf[..], r, v)
    ensures Depth(v) > 5000 ==> r == RError
  {
    LoadDump(v, style);
    var writer := new Writer();
    writer.DumpInternal(v, style, 0);
    assert "" + Dump(v, style, 0) == Dump(v, style, 0);
    parser := new Parser(writer.out);
    r := parser.Parse();
  }
}
