/** The converse of the round trip: whatever the parser accepts has well-formed fields, so
    that printing it and parsing again gives the same request. */
module ProxyAccepted {
  import opened HeaderSpec
  import opened Options
  import opened CStrings
  import opened ProxySpec
  import opened ProxyHeaders
  import opened ProxyRoundTrip
  import opened ProxyVerdict

  // ------------------------------------------------------------------ the line

  lemma NoCrlfParts(x: string, y: string)
    requires NoCrlf(x + y)
    ensures NoCrlf(x) && NoCrlf(y)
  {
    forall i | 0 <= i < |x|
      ensures !CrlfAt(x, i)
    {
      assert !CrlfAt(x + y, i);
    }
    forall i | 0 <= i < |y|
      ensures !CrlfAt(y, i)
    {
      assert !CrlfAt(x + y, |x| + i);
    }
  }

  lemma WordsNoCrlf(w: Words)
    requires NoCrlf(LineOf(w))
    ensures NoCrlf(w.verb) && NoCrlf(w.address) && (w.version.Some? ==> NoCrlf(w.version.value))
  {
    hide NoCrlf;
    var t3 := w.address + VersionText(w.version);
    NoCrlfParts(w.lead, w.verb + (w.gap + t3));
    NoCrlfParts(w.verb, w.gap + t3);
    NoCrlfParts(w.gap, t3);
    NoCrlfParts(w.address, VersionText(w.version));
    if w.version.Some? {
      NoCrlfParts(" ", w.version.value);
    }
  }

  lemma PiecesNoCrlf(a: Pieces)
    requires NoCrlf(AddressOf(a))
    ensures NoCrlf(a.protocol) && NoCrlf(a.site.host) && NoCrlf(a.path) && NoCrlf(a.site.port)
  {
    hide NoCrlf;
    var s, t5 := SiteText(a.site), SiteText(a.site) + a.path;
    NoCrlfParts(a.marks, a.protocol + (a.mark + (a.slashes + t5)));
    NoCrlfParts(a.protocol, a.mark + (a.slashes + t5));
    NoCrlfParts(a.mark, a.slashes + t5);
    NoCrlfParts(a.slashes, t5);
    NoCrlfParts(s, a.path);
    NoCrlfParts(a.site.colons, a.site.host + a.site.port);
    NoCrlfParts(a.site.host, a.site.port);
  }

  /** What is taken is well-formed, but for line ends. */
  lemma TakenIsGood(w: Words, a: Pieces, badPort: string -> bool)
    requires AreWords(w) && ArePieces(a) && AddressOf(a) == w.address && w.version.Some?
    requires !LineRefused(w, a, badPort)
    ensures var l := LineTaken(w.verb, a, w.version.value);
            && l.verb != "" && Free(l.verb, " ") && l.protocol != "" && Free(l.protocol, ":/ ")
            && l.host != "" && Free(l.host, ":/ ")
            && (l.port.Some? ==> l.port.value != "" && Free(l.port.value, "/ "))
            && l.path != "" && l.path[0] == '/' && Free(l.path, " ")
            && (|l.path| > 1 ==> l.path[1] != '/')
            && StartsWith(l.version, "HTTP/") && NUL !in l.version && PortAccepted(l, badPort)
  {
    hide Pathless, LineOf, AddressOf;
    if |a.site.port| > 1 {
      FreeTail(a.site.port, "/ ");
    }
  }

  lemma TakenNoCrlf(w: Words, a: Pieces)
    requires NoCrlf(LineOf(w)) && AddressOf(a) == w.address && w.version.Some?
    ensures var l := LineTaken(w.verb, a, w.version.value);
            && NoCrlf(l.verb) && NoCrlf(l.protocol) && NoCrlf(l.host) && NoCrlf(l.path)
            && NoCrlf(l.version) && (l.port.Some? ==> NoCrlf(l.port.value))
  {
    assert NoCrlf("/");
    hide NoCrlf;
    WordsNoCrlf(w);
    PiecesNoCrlf(a);
    if |a.site.port| > 1 {
      assert a.site.port == a.site.port[..1] + a.site.port[1..];
      NoCrlfParts(a.site.port[..1], a.site.port[1..]);
    }
  }

  /** The fields of a line that is accepted are free of their delimiters, and of zeros and line
      ends if the line is. */
  lemma AcceptedLine(line: string, badPort: string -> bool)
    requires NUL !in line && NoCrlf(line)
    ensures var r := ParseLine(line, badPort);
            r.Accepted? ==> GoodLine(AsLine(r.buf, r.fields))
                            && PortAccepted(AsLine(r.buf, r.fields), badPort)
  {
    hide ParseLine, LineRefused, AreWords, LineOf, ArePieces, AddressOf, LineTaken, NoCrlf, Address,
      Free, StartsWith, AsLine;
    var w := WordsOf(line);
    WordsFree(w);
    var a := PiecesOf(w.address);
    LineVerdict(w, a, badPort);
    var r := ParseLine(line, badPort);
    if r.Accepted? {
      TakenIsGood(w, a, badPort);
      TakenNoCrlf(w, a);
      JoinedNoCrlf(LineTaken(w.verb, a, w.version.value));
    }
  }

  /** A line end does not come about by joining, unless its two characters meet. */
  lemma NoCrlfJoin(a: string, b: string)
    requires NoCrlf(a) && NoCrlf(b)
    requires a == "" || b == "" || a[|a| - 1] != '\r' || b[0] != '\n'
    ensures NoCrlf(a + b)
  {
    forall i | 0 <= i < |a + b|
      ensures !CrlfAt(a + b, i)
    {
      if i < |a| {
        assert !CrlfAt(a, i);
      } else {
        assert !CrlfAt(b, i - |a|);
      }
    }
  }

  /** The separators keep the pieces of line ends apart. */
  lemma JoinedNoCrlf(l: Line)
    requires NoCrlf(l.verb) && NoCrlf(l.protocol) && NoCrlf(l.host) && NoCrlf(l.version)
    requires NoCrlf(l.path) && l.path != "" && l.path[0] == '/'
    requires l.port.Some? ==> NoCrlf(l.port.value)
    ensures NoCrlf(Address(l))
  {
    UrlNoCrlf(l);
    assert NoCrlf(" ");
    hide NoCrlf, Url;
    NoCrlfJoin(l.verb, " ");
    NoCrlfJoin(l.verb + " ", Url(l));
    NoCrlfJoin(l.verb + " " + Url(l), " ");
    NoCrlfJoin(l.verb + " " + Url(l) + " ", l.version);
  }

  lemma UrlNoCrlf(l: Line)
    requires NoCrlf(l.protocol) && NoCrlf(l.host)
    requires NoCrlf(l.path) && l.path != "" && l.path[0] == '/'
    requires l.port.Some? ==> NoCrlf(l.port.value)
    ensures NoCrlf(Url(l))
  {
    HostPortNoCrlf(l);
    assert NoCrlf("://");
    hide NoCrlf, HostPort;
    NoCrlfJoin(l.protocol, "://");
    NoCrlfJoin(l.protocol + "://", HostPort(l));
    NoCrlfJoin(l.protocol + "://" + HostPort(l), l.path);
  }

  lemma HostPortNoCrlf(l: Line)
    requires NoCrlf(l.host) && (l.port.Some? ==> NoCrlf(l.port.value))
    ensures NoCrlf(HostPort(l))
  {
    if l.port.Some? {
      assert NoCrlf(":");
      hide NoCrlf;
      NoCrlfJoin(":", l.port.value);
      NoCrlfJoin(l.host, ":" + l.port.value);
    } else {
      assert l.host + "" == l.host;
    }
  }

  // ------------------------------------------------------------------ headers

  lemma {:induction false} HeadersRead(s: string, beyond: Option<string>, cur: nat,
                                       list: seq<(string, string)>)
    requires NUL !in s && (beyond.Some? ==> NUL !in beyond.value)
    requires cur <= |s| && ReadHeaders(list)
    ensures var r := ParseHeaders(s, beyond, cur, list); r.HeadersOk? ==> ReadHeaders(r.list)
    decreases |s| - cur
  {
    hide ReadHeaders, Set, FindChar, LineBehind, HeaderOf;
    if HasHeader(s, beyond, cur) {
      var h := HeaderOf(s, beyond, cur);
      HeaderRead(s, beyond, cur);
      SetRead(list, h);
      HeaderIs(s, beyond, cur);
      HeadersRead(s, beyond, LineBehind(s, cur), Set(list, h.0, h.1));
    }
  }

  lemma HeaderIs(s: string, beyond: Option<string>, cur: nat)
    requires HasHeader(s, beyond, cur)
    ensures var colon := FindChar(s, ':', cur);
            HeaderOf(s, beyond, cur) == (s[cur..colon], ValueAt(s, beyond, colon + 2).value)
  {
  }

  lemma HeaderRead(s: string, beyond: Option<string>, cur: nat)
    requires NUL !in s && (beyond.Some? ==> NUL !in beyond.value)
    requires HasHeader(s, beyond, cur)
    ensures ReadHeader(HeaderOf(s, beyond, cur))
  {
    var colon := FindChar(s, ':', cur);
    FindCharFacts(s, ':', cur);
    if colon + 2 <= |s| {
      SliceNoCrlf(s, colon + 2);
    } else {
      SliceNoCrlf(beyond.value, 0);
      assert beyond.value[0..FindCrlf(beyond.value, 0)] == beyond.value[..FindCrlf(beyond.value, 0)];
    }
  }

  /** Up to the next line end there is none. */
  lemma SliceNoCrlf(s: string, from: nat)
    requires from <= |s|
    ensures NoCrlf(s[from..FindCrlf(s, from)])
  {
    FindCrlfFacts(s, from);
    var t := s[from..FindCrlf(s, from)];
    forall i | 0 <= i < |t|
      ensures !CrlfAt(t, i)
    {
      assert !CrlfAt(s, from + i);
    }
  }

  lemma SetRead(list: seq<(string, string)>, h: (string, string))
    requires ReadHeaders(list) && ReadHeader(h)
    ensures ReadHeaders(Set(list, h.0, h.1))
  {
    SetThenGet(list, h.0, h.1, h.0);
    var rest := Remove(list, h.0);
    forall i | 0 <= i < |rest|
      ensures ReadHeader(rest[i])
    {
      RemoveSubset(list, h.0, rest[i]);
    }
  }

  // ------------------------------------------------------------------ whole requests

  /** Everything the parser accepts: the line is well-formed, its port is not a bad one, the keys
      are distinct and free of colons, the values free of line ends, and the headers stand in an
      order in which they can be read again. */
  lemma AcceptedIsGood(raw: string, badPort: string -> bool)
    ensures var r := Parse(raw, [], badPort);
            r.Parsed? ==>
              var l := AsLine(r.buf, r.fields);
              GoodLine(l) && PortAccepted(l, badPort) && GoodHeaders(r.list)
  {
    hide ParseLine, ParseHeaders, GoodLine, AsLine, FindCrlf, HasEndOfHeader, Beyond;
    if Parse(raw, [], badPort).Parsed? {
      var s := Text(raw);
      EndOfHeaderLine(s);
      var end := FindCrlf(s, 0);
      SliceNoCrlf(s, 0);
      assert s[0..end] == s[..end];
      AcceptedLine(s[..end], badPort);
      HeadersRead(s, Beyond(raw + [NUL]), end + 2, []);
      ResultRereadable(s, Beyond(raw + [NUL]), end + 2, []);
    }
  }

  /** Parsing the printed text gives back line and headers exactly when they are well-formed,
      their port is accepted, and the text is not too long. */
  lemma RoundTripExactly(l: Line, list: seq<(string, string)>, badPort: string -> bool)
    ensures var r := Parse(RequestText(l, list), [], badPort);
            (r.Parsed? && AsLine(r.buf, r.fields) == l && r.list == list)
            <==> GoodRequest(l, list) && PortAccepted(l, badPort)
  {
    hide ParseText, GoodLine, GoodHeaders, AsLine, RequestText, HasEndOfHeader, Text;
    var r := Parse(RequestText(l, list), [], badPort);
    if r.Parsed? && AsLine(r.buf, r.fields) == l && r.list == list {
      AcceptedIsGood(RequestText(l, list), badPort);
    }
    if GoodRequest(l, list) && PortAccepted(l, badPort) {
      ParseUndoesPrint(l, list, badPort);
    }
  }

  /** Every request that was accepted comes back the same when it is printed and parsed again,
      exactly when its text is not too long, which may be longer than what was read, and its port
      is accepted again, which may depend on `errno`. */
  lemma Reprint(raw: string, badPort: string -> bool, badPortAgain: string -> bool)
    ensures var r := Parse(raw, [], badPort);
            r.Parsed? ==>
              var l := AsLine(r.buf, r.fields);
              var again := Parse(RequestText(l, r.list), [], badPortAgain);
              (again.Parsed? && AsLine(again.buf, again.fields) == l && again.list == r.list)
              <==> |RequestText(l, r.list)| <= MAX_REQ_LEN && PortAccepted(l, badPortAgain)
  {
    hide Parse, ParseText, GoodLine, GoodHeaders, AsLine, RequestText;
    AcceptedIsGood(raw, badPort);
    var r := Parse(raw, [], badPort);
    if r.Parsed? {
      RoundTripExactly(AsLine(r.buf, r.fields), r.list, badPortAgain);
    }
  }
}
