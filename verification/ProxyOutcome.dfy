/** What a whole call comes to, for any octets: it fails, reads behind its buffers, stops at a header
    without a colon, or succeeds. */
module ProxyOutcome {
  import opened Options
  import opened CStrings
  import opened HeaderSpec
  import opened ProxySpec
  import opened ProxyHeaders
  import opened ProxyOverread
  import opened ProxyVerdict

  predicate NoColonFrom(s: string, i: nat) {
    forall k :: i <= k < |s| ==> s[k] != ':'
  }

  lemma NoColonIs(s: string, i: nat)
    requires i <= |s|
    ensures NoColonFrom(s, i) <==> FindChar(s, ':', i) == |s|
  {
    FindCharFacts(s, ':', i);
  }

  /** A line with no colon in it or behind it ends the reading; the headers in front of it stay. */
  lemma NoColonAt(s: string, beyond: Option<string>, cur: nat, list: seq<(string, string)>)
    requires cur < |s| && !CrlfAt(s, cur) && NoColonFrom(s, cur)
    ensures ParseHeaders(s, beyond, cur, list) == NoColon(list)
  {
    NoColonIs(s, cur);
  }

  /** Where a pass of the header loop stops. */
  lemma PassStops(s: string, beyond: Option<string>, cur: nat, list: seq<(string, string)>)
    requires cur < |s| && !CrlfAt(s, cur) && !HasHeader(s, beyond, cur)
    ensures ParseHeaders(s, beyond, cur, list)
         == if FindChar(s, ':', cur) == |s| then NoColon(list) else HeaderOverread(list)
  {
    hide FindChar, ValueAt, Set;
  }

  /** The last line in front of the empty line, when nothing is found to read on its own. */
  lemma LastLine(s: string, beyond: Option<string>, line: nat, empty: nat, cur: nat)
    requires HeaderLines(s, line, empty) && line + 2 <= cur < empty && CrlfAt(s, cur - 2)
    ensures cur <= LineStart(s, empty) <= empty <= |s|
    ensures FindCrlf(s, cur) == empty ==> LineStart(s, empty) == cur
    ensures FindChar(s, ':', cur) < |s| && !HasHeader(s, beyond, cur) ==> FindChar(s, ':', cur) >= empty
  {
    LineStartFacts(s, empty, cur);
    FindCrlfFacts(s, cur);
    if FindChar(s, ':', cur) < empty {
      ColonInFront(s, beyond, line, empty, cur);
    }
  }

  lemma {:induction false} LinesNoColon(s: string, beyond: Option<string>, line: nat, empty: nat,
                                        cur: nat, list: seq<(string, string)>)
    requires HeaderLines(s, line, empty) && line + 2 <= cur <= empty + 2 && CrlfAt(s, cur - 2)
    ensures ParseHeaders(s, beyond, cur, list).NoColon?
            <==> cur < empty && NoColonFrom(s, LineStart(s, empty))
    decreases |s| - cur
  {
    hide Set, HasHeader, ParseHeaders, HeaderOf, CrlfAt, HeaderLines, FindChar, NoColonFrom, LineStart;
    if cur >= empty {
      LinesEnd(s, beyond, line, empty, cur, list);
    } else {
      LineStep(s, line, empty, cur);
      LastLine(s, beyond, line, empty, cur);
      ColonFound(s, cur, LineStart(s, empty));
      if HasHeader(s, beyond, cur) {
        HeaderThere(s, beyond, cur);
        OnePass(s, beyond, cur, list);
        var next := Set(list, HeaderOf(s, beyond, cur).0, HeaderOf(s, beyond, cur).1);
        LinesNoColon(s, beyond, line, empty, FindCrlf(s, cur) + 2, next);
      } else {
        PassStops(s, beyond, cur, list);
      }
    }
  }

  lemma ColonFound(s: string, cur: nat, last: nat)
    requires cur <= last <= |s|
    ensures FindChar(s, ':', cur) == |s| ==> NoColonFrom(s, last)
    ensures last <= FindChar(s, ':', cur) < |s| ==> !NoColonFrom(s, last)
  {
    FindCharFacts(s, ':', cur);
  }

  /** There are headers, and neither in the last line nor behind it is there a colon. */
  predicate ColonMissing(s: string) {
    var line := FindCrlf(s, 0);
    var empty := EmptyLine(s, line);
    line < empty && NoColonFrom(s, LineStart(s, empty))
  }

  lemma HeadersNoColon(s: string, beyond: Option<string>, list: seq<(string, string)>)
    requires HasEndOfHeader(s)
    ensures FindCrlf(s, 0) + 2 <= |s|
    ensures ParseHeaders(s, beyond, FindCrlf(s, 0) + 2, list).NoColon? <==> ColonMissing(s)
  {
    var line := FindCrlf(s, 0);
    EmptyLineExists(s, line);
    hide ParseHeaders, NoColonFrom, LineStart;
    LinesNoColon(s, beyond, line, EmptyLine(s, line), line + 2, list);
    NotBetween(s, line, EmptyLine(s, line));
  }

  lemma NotBetween(s: string, line: nat, empty: nat)
    requires HeaderLines(s, line, empty) && CrlfAt(s, line)
    ensures line < empty <==> line + 2 < empty || line + 2 == empty
  {
  }

  // ------------------------------------------------------------------ the whole call

  /** The length is out of bounds, or no empty line ends the headers. */
  predicate Unreadable(raw: string) {
    |raw| < 4 || |raw| > 65535 || !HasEndOfHeader(Text(raw))
  }

  /** The request line of the text. */
  function FirstLine(raw: string): string {
    var s := Text(raw);
    s[..FindCrlf(s, 0)]
  }

  /** The call leaves no request behind exactly in these cases. */
  ghost predicate Fails(raw: string, badPort: string -> bool) {
    Unreadable(raw) || RefusedLine(FirstLine(raw), badPort)
  }

  /** The call succeeds exactly in the others in which it is defined and every header has its colon. */
  ghost predicate Succeeds(raw: string, badPort: string -> bool) {
    !Fails(raw, badPort) && !Overreads(raw, badPort) && !ColonMissing(Text(raw))
  }

  lemma TextOutcome(s: string, beyond: Option<string>, list: seq<(string, string)>,
                    badPort: string -> bool)
    requires NUL !in s && HasEndOfHeader(s)
    ensures var line := s[..FindCrlf(s, 0)];
            var r := ParseText(s, beyond, list, badPort);
            && NUL !in line
            && (r == Failed <==> RefusedLine(line, badPort))
            && (r.BadHeaders? <==> ParseLine(line, badPort).Accepted? && ColonMissing(s))
            && (r.Parsed? <==> ParseLine(line, badPort).Accepted? && !ColonMissing(s)
                               && !ValueMissing(s, beyond))
  {
    hide ParseLine, ParseHeaders, FindCrlf, HasEndOfHeader, RefusedLine, ColonMissing, ValueMissing;
    EndOfHeaderLine(s);
    var line := s[..FindCrlf(s, 0)];
    assert NUL !in line;
    RejectedExactly(line, badPort);
    HeadersNoColon(s, beyond, list);
    HeadersOverread(s, beyond, list);
  }

  /** All four outcomes of a call, told from the characters of the text. */
  lemma OutcomeExactly(raw: string, list: seq<(string, string)>, badPort: string -> bool)
    ensures var r := Parse(raw, list, badPort);
            && (r == Failed <==> Fails(raw, badPort))
            && (r.Undefined? <==> Overreads(raw, badPort))
            && (r.BadHeaders? <==> !Fails(raw, badPort) && !EndsInAddress(FirstLine(raw))
                                   && ColonMissing(Text(raw)))
            && (r.Parsed? <==> Succeeds(raw, badPort))
  {
    hide Text, Beyond, ParseText, ParseLine, FindCrlf, HasEndOfHeader, EndsInAddress, ValueMissing,
      ColonMissing, RefusedLine;
    var s, beyond := Text(raw), Beyond(raw + [NUL]);
    UndefinedExactly(raw, list, badPort);
    if !Unreadable(raw) {
      var line := FirstLine(raw);
      TextOutcome(s, beyond, list, badPort);
      LineOverread(line, badPort);
      RejectedExactly(line, badPort);
    }
  }

  /** For instance a request without a path, whatever follows its line. */
  lemma MissingPathFails(verb: string, protocol: string, host: string, port: Option<string>,
                         version: string, headers: string, list: seq<(string, string)>,
                         badPort: string -> bool)
    requires verb != "" && Free(verb, " ") && protocol != "" && Free(protocol, ":/ ")
    requires host != "" && Free(host, ":/ ") && NUL !in version && NUL !in headers
    requires port.Some? ==> Free(port.value, "/ ")
    requires NoCrlf(verb + " " + protocol + "://" + host + PortText(port) + " " + version)
    ensures var line := verb + " " + protocol + "://" + host + PortText(port) + " " + version;
            Parse(line + "\r\n" + headers, list, badPort) == Failed
  {
    hide Parse, RefusedLine, HasEndOfHeader, FindCrlf, Text, CrlfAt, At, NoCrlf, Free, PortText;
    var line := verb + " " + protocol + "://" + host + PortText(port) + " " + version;
    MissingPath(verb, protocol, host, port, version, badPort);
    RejectedExactly(line, badPort);
    LineFirst(line, headers);
    OutcomeExactly(line + "\r\n" + headers, list, badPort);
  }

  lemma LineFirst(line: string, headers: string)
    requires NoCrlf(line) && NUL !in line && NUL !in headers
    ensures FirstLine(line + "\r\n" + headers) == line
  {
    var raw := line + "\r\n" + headers;
    assert At(raw, 0, line) && CrlfAt(raw, |line|);
    FindCrlfAt(raw, 0, line);
    assert raw[..|line|] == line;
    assert NUL !in raw;
    WholeText(raw);
  }
}
