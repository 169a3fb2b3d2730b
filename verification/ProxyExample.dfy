/** A request, printed and parsed. */
module ProxyExample {
  import opened Options
  import opened CStrings
  import opened HeaderSpec
  import opened ProxySpec
  import opened ProxyHeaders
  import opened ProxyRoundTrip
  import opened ProxyAccepted

  const EXAMPLE_LINE := Line("GET", "http", "h", Some("80"), "/p", "HTTP/1.0")

  const EXAMPLE_HEADERS: seq<(string, string)> := [("A", "b"), ("C", "")]

  /** What such a request looks like, and what is read from it. */
  lemma Example(badPort: string -> bool)
    requires !badPort("80")
    ensures RequestText(EXAMPLE_LINE, EXAMPLE_HEADERS)
         == "GET http://h:80/p HTTP/1.0\r\nA: b\r\nC: \r\n\r\n"
    ensures var r := Parse("GET http://h:80/p HTTP/1.0\r\nA: b\r\nC: \r\n\r\n", [], badPort);
            r.Parsed? && AsLine(r.buf, r.fields) == EXAMPLE_LINE && r.list == EXAMPLE_HEADERS
  {
    ExampleLine();
    ExampleHeaders();
    var text := RequestText(EXAMPLE_LINE, EXAMPLE_HEADERS);
    hide Parse, GoodRequest, LineText, HeadersText, AsLine;
    RoundTripExactly(EXAMPLE_LINE, EXAMPLE_HEADERS, badPort);
    ExampleGood();
  }

  lemma ExampleLine()
    ensures LineText(EXAMPLE_LINE) == "GET http://h:80/p HTTP/1.0\r\n"
  {
  }

  lemma ExampleHeaders()
    ensures HeadersText(EXAMPLE_HEADERS) == "A: b\r\nC: \r\n"
  {
    var one: seq<(string, string)> := [("A", "b")];
    assert EXAMPLE_HEADERS[..1] == one && one[..0] == [];
    assert HeadersText(one) == "A: b\r\n";
  }

  lemma NoReturn(s: string)
    requires '\r' !in s
    ensures NoCrlf(s)
  {
  }

  lemma AddressNoReturn()
    ensures NoCrlf(Address(EXAMPLE_LINE))
  {
    NoReturn(Address(EXAMPLE_LINE));
  }

  lemma GoodExampleLine()
    ensures GoodLine(EXAMPLE_LINE)
  {
    hide NoCrlf, Address;
    var l := EXAMPLE_LINE;
    AddressNoReturn();
    assert Free(l.verb, " ") && Free(l.protocol, ":/ ") && Free(l.host, ":/ ");
    assert Free(l.port.value, "/ ") && Free(l.path, " ");
  }

  lemma GoodExampleHeaders()
    ensures GoodHeaders(EXAMPLE_HEADERS)
  {
    var list := EXAMPLE_HEADERS;
    NoReturn("A");
    NoReturn("b");
    NoReturn("C");
    NoReturn("");
    hide NoCrlf, Rereadable;
    assert forall i :: 0 <= i < |list| ==> NoCrlf(list[i].0) && NoCrlf(list[i].1);
    PlainKeys(list);
  }

  lemma ExampleGood()
    ensures GoodRequest(EXAMPLE_LINE, EXAMPLE_HEADERS)
  {
    GoodExampleLine();
    GoodExampleHeaders();
    ExampleLine();
    ExampleHeaders();
    hide GoodLine, GoodHeaders, LineText, HeadersText;
  }
}
