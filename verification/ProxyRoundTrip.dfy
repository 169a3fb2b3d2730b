/** Parsing undoes printing. */
module ProxyRoundTrip {
  import opened HeaderSpec
  import opened Options
  import opened CStrings
  import opened ProxyHeaders
  import opened ProxySpec
  import opened ProxyVerdict

  /** A request line whose fields are free of their own delimiters, without a line end. */
  predicate GoodLine(l: Line) {
    && l.verb != "" && Free(l.verb, " ")
    && l.protocol != "" && Free(l.protocol, ":/ ")
    && l.host != "" && Free(l.host, ":/ ")
    && (l.port.Some? ==> l.port.value != "" && Free(l.port.value, "/ "))
    && l.path != "" && l.path[0] == '/' && Free(l.path, " ")
    && (|l.path| > 1 ==> l.path[1] != '/')
    && StartsWith(l.version, "HTTP/") && NUL !in l.version
    && NoCrlf(Address(l))
  }

  /** The line without its end. */
  function Address(l: Line): string {
    l.verb + " " + Url(l) + " " + l.version
  }

  function Url(l: Line): string {
    l.protocol + "://" + HostPort(l) + l.path
  }

  function HostPort(l: Line): string {
    l.host + PortText(l.port)
  }

  /** The port makes the parser stop only if `strtol` and `errno` say so. */
  predicate PortAccepted(l: Line, badPort: string -> bool) {
    l.port.Some? ==> !badPort(l.port.value)
  }

  lemma LineTextIs(l: Line)
    ensures LineText(l) == Address(l) + "\r\n"
  {
    var a, b, c, d := l.protocol + "://", l.host, PortText(l.port), l.path;
    assert Url(l) == a + (b + c) + d == a + b + c + d;
    assert LineText(l) == l.verb + " " + l.protocol + "://" + b + c + d + " " + l.version + "\r\n";
    assert l.verb + " " + (a + b + c + d) + " " + l.version
        == l.verb + " " + l.protocol + "://" + b + c + d + " " + l.version;
  }

  lemma AddressNul(l: Line)
    requires GoodLine(l)
    ensures NUL !in Address(l)
  {
  }

  function UrlPieces(l: Line): Pieces {
    Pieces("", l.protocol, ":", "//", Site("", l.host, PortText(l.port)), l.path)
  }

  function LineWords(l: Line): Words {
    Words("", l.verb, " ", Url(l), Some(l.version))
  }

  lemma LineIs(l: Line)
    ensures LineOf(LineWords(l)) == Address(l) && AddressOf(UrlPieces(l)) == Url(l)
  {
    var host := l.host + PortText(l.port);
    assert SiteText(UrlPieces(l).site) == host;
    assert AddressOf(UrlPieces(l)) == l.protocol + "://" + host + l.path;
  }

  lemma PortFree(l: Line)
    requires GoodLine(l) && l.port.Some?
    ensures PortText(l.port)[0] == ':' && Free(PortText(l.port), "/ ")
    ensures |PortText(l.port)| > 1 && PortText(l.port)[1..] == l.port.value
  {
  }

  lemma UrlPiecesGood(l: Line)
    requires GoodLine(l)
    ensures ArePieces(UrlPieces(l)) && !Pathless(UrlPieces(l))
  {
    if l.port.Some? {
      PortFree(l);
    }
    hide NoCrlf, Address;
  }

  lemma LineWordsGood(l: Line)
    requires GoodLine(l) && ArePieces(UrlPieces(l)) && AddressOf(UrlPieces(l)) == Url(l)
    ensures AreWords(LineWords(l)) && Url(l) != ""
  {
    hide NoCrlf, Address, ArePieces, AddressOf;
    AddressFree(UrlPieces(l));
  }

  lemma LineNotRefused(l: Line, badPort: string -> bool)
    requires GoodLine(l) && PortAccepted(l, badPort) && Url(l) != "" && !Pathless(UrlPieces(l))
    ensures !LineRefused(LineWords(l), UrlPieces(l), badPort)
    ensures LineTaken(l.verb, UrlPieces(l), l.version) == l
  {
    if l.port.Some? {
      PortFree(l);
    }
    hide NoCrlf, Address, Free, Pathless, Url;
    assert |SiteText(UrlPieces(l).site)| >= |l.host|;
  }

  /** The line of a well-formed request is accepted and yields its fields. */
  lemma ParseLineGood(l: Line, badPort: string -> bool)
    requires GoodLine(l) && PortAccepted(l, badPort)
    ensures NUL !in Address(l)
    ensures var r := ParseLine(Address(l), badPort);
            r.Accepted? && AsLine(r.buf, r.fields) == l
  {
    hide ParseLine, GoodLine, Address, Url, AddressOf, LineOf, AreWords, ArePieces, LineRefused,
      LineTaken, AsLine, Pathless;
    LineIs(l);
    UrlPiecesGood(l);
    LineWordsGood(l);
    LineNotRefused(l, badPort);
    LineVerdict(LineWords(l), UrlPieces(l), badPort);
  }

  // ------------------------------------------------------------------ whole requests

  /** Headers as the parser leaves them, in an order in which they can be read again. */
  predicate GoodHeaders(list: seq<(string, string)>) {
    ReadHeaders(list) && Rereadable(list)
  }

  predicate GoodRequest(l: Line, list: seq<(string, string)>) {
    GoodLine(l) && GoodHeaders(list) && |RequestText(l, list)| <= MAX_REQ_LEN
  }

  lemma {:induction false} HeadersNul(list: seq<(string, string)>)
    requires forall i :: 0 <= i < |list| ==> ReadHeader(list[i])
    ensures NUL !in HeadersText(list)
  {
    if list != [] {
      HeadersNul(list[..|list| - 1]);
    }
  }

  /** The printed text ends with an empty line. */
  lemma EndOfHeader(l: Line, list: seq<(string, string)>)
    ensures HasEndOfHeader(RequestText(l, list))
  {
    LineTextIs(l);
    var s := RequestText(l, list);
    assert CrlfAt(s, |s| - 2);
    if list == [] {
      assert CrlfAt(s, |s| - 4);
    } else {
      var last := list[|list| - 1];
      var before := LineText(l) + HeadersText(list[..|list| - 1]) + last.0 + ": " + last.1;
      assert s == before + "\r\n" + "\r\n";
      assert CrlfAt(s, |s| - 4);
    }
  }

  /** No zero inside: the parser sees all of the text. */
  lemma TextWhole(l: Line, list: seq<(string, string)>)
    requires GoodLine(l) && GoodHeaders(list)
    ensures Text(RequestText(l, list)) == RequestText(l, list)
  {
    var s := RequestText(l, list);
    AddressNul(l);
    LineTextIs(l);
    HeadersNul(list);
    assert NUL !in s;
    assert At(s + [NUL], 0, s);
    CStrAt(s + [NUL], 0, s);
  }

  lemma FirstLine(l: Line, list: seq<(string, string)>)
    requires GoodLine(l)
    ensures var s := RequestText(l, list);
            FindCrlf(s, 0) == |Address(l)| < |s| && s[..|Address(l)|] == Address(l)
            && |LineText(l)| == |Address(l)| + 2 && |s| >= MIN_REQ_LEN
  {
    LineTextIs(l);
    var s := RequestText(l, list);
    hide Address, LineText, HeadersText;
    assert At(s, 0, Address(l)) && CrlfAt(s, |Address(l)|);
    FindCrlfAt(s, 0, Address(l));
  }

  lemma ParseUnfolded(raw: string, badPort: string -> bool, end: nat, buf: string, f: Fields,
                      list: seq<(string, string)>)
    requires MIN_REQ_LEN <= |raw| <= MAX_REQ_LEN && Text(raw) == raw && HasEndOfHeader(raw)
    requires FindCrlf(raw, 0) == end && end + 2 <= |raw| && NUL !in raw[..end]
    requires ParseLine(raw[..end], badPort) == Accepted(buf, f)
    requires ParseHeaders(raw, Beyond(raw + [NUL]), end + 2, []) == HeadersOk(list)
    ensures Parse(raw, [], badPort) == Parsed(buf, f, list)
  {
    hide Text, HasEndOfHeader, FindCrlf, ParseLine, ParseHeaders, Beyond;
  }

  /** Parsing the printed text of a well-formed request gives back its fields and its headers
      in order; so printing what was parsed gives back the text. */
  lemma ParseUndoesPrint(l: Line, list: seq<(string, string)>, badPort: string -> bool)
    requires GoodRequest(l, list) && PortAccepted(l, badPort)
    ensures var r := Parse(RequestText(l, list), [], badPort);
            r.Parsed? && AsLine(r.buf, r.fields) == l && r.list == list
            && RequestText(AsLine(r.buf, r.fields), r.list) == RequestText(l, list)
  {
    hide ParseLine, ParseHeaders, HeadersText, AsLine, HasEndOfHeader, Text, Address, GoodLine,
      LineText, FindCrlf, ReadHeaders, Rereadable, Parse, NoCrlf, CStr, At, Beyond;
    TextWhole(l, list);
    EndOfHeader(l, list);
    ParseLineGood(l, badPort);
    FirstLine(l, list);
    PrintedList(LineText(l), Beyond(RequestText(l, list) + [NUL]), list);
    var r := ParseLine(Address(l), badPort);
    ParseUnfolded(RequestText(l, list), badPort, |Address(l)|, r.buf, r.fields, list);
  }
}
