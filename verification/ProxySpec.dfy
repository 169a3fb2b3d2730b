/** Parsing and printing of an HTTP request, on values: the same calls in the same order as
    the C code, with buffers as strings and pointers as offsets. */
module ProxySpec {
  import opened HeaderSpec
  import opened Options
  import opened CStrings

  const MIN_REQ_LEN: nat := 4
  const MAX_REQ_LEN: nat := 65535

  /** The fields of a request line; `verb` is the method. */
  datatype Line = Line(verb: string, protocol: string, host: string, port: Option<string>,
                       path: string, version: string)

  /** The same fields as the parser leaves them: offsets into the cut buffer, and the path in
      memory of its own. */
  datatype Fields = Fields(verb: nat, protocol: nat, host: nat, port: Option<nat>,
                           path: string, version: nat)

  /** `Overread`: the code reads behind the end of its buffer. */
  datatype LineResult = Rejected | Overread | Accepted(buf: string, fields: Fields)

  predicate InBuffer(buf: string, f: Fields) {
    && Terminated(buf)
    && f.verb < |buf| && f.protocol < |buf| && f.host < |buf| && f.version < |buf|
    && (f.port.Some? ==> f.port.value < |buf|)
  }

  function AsLine(buf: string, f: Fields): Line
    requires InBuffer(buf, f)
  {
    Line(CStr(buf, f.verb), CStr(buf, f.protocol), CStr(buf, f.host),
         if f.port.Some? then Some(CStr(buf, f.port.value)) else None,
         f.path, CStr(buf, f.version))
  }

  predicate StartsWith(s: string, p: string) {
    p <= s
  }

  /** The method, and then the rest.  `badPort` is what `strtol` and `errno` say about a
      port. */
  function ParseLine(line: string, badPort: string -> bool): (r: LineResult)
    requires NUL !in line
    ensures r.Accepted? ==> InBuffer(r.buf, r.fields) && |r.buf| == |line| + 1
  {
    var c1 := Strtok(line + [NUL], 0, " ");
    if c1.token.None? then Rejected else ParseUrl(c1.buf, c1.token.value, c1.save, badPort)
  }

  /** The address and the check of the version, which is taken to start behind the address. */
  function ParseUrl(buf: string, verb: nat, save: nat, badPort: string -> bool): (r: LineResult)
    requires Terminated(buf) && verb < save < |buf|
    ensures r.Accepted? ==> InBuffer(r.buf, r.fields) && |r.buf| == |buf|
  {
    var c2 := Strtok(buf, save, " ");
    if c2.token.None? then Rejected
    else
      var full := c2.token.value;
      var version := Until(c2.buf, full, "") + 1;
      if version == |c2.buf| then Overread
      else if !StartsWith(CStr(c2.buf, version), "HTTP/") then Rejected
      else ParseAddress(c2.buf, verb, full, version, badPort)
  }

  /** The protocol; the code supposes the host to start three characters behind as many
      characters as the protocol has. */
  function ParseAddress(buf: string, verb: nat, full: nat, version: nat,
                        badPort: string -> bool): (r: LineResult)
    requires Terminated(buf) && verb <= full < version && version + 5 < |buf|
    requires Until(buf, full, "") + 1 == version
    ensures r.Accepted? ==> InBuffer(r.buf, r.fields) && |r.buf| == |buf|
  {
    var c3 := Strtok(buf, full, "://");
    if c3.token.None? then Rejected
    else
      var protocol := c3.token.value;
      ProtocolEnds(buf, full, version);
      var rest := full + |CStr(c3.buf, protocol)| + 3;
      ParseHost(c3.buf, c3.save, |CStr(c3.buf, rest)|,
                Fields(verb, protocol, 0, None, "", version), badPort)
  }

  /** The host, which must not be all of the rest. */
  function ParseHost(buf: string, save: nat, uriLen: nat, f: Fields,
                     badPort: string -> bool): (r: LineResult)
    requires InBuffer(buf, f) && save < |buf|
    ensures r.Accepted? ==> InBuffer(r.buf, r.fields) && |r.buf| == |buf|
  {
    var c4 := Strtok(buf, save, "/");
    if c4.token.None? then Rejected
    else if |CStr(c4.buf, c4.token.value)| == uriLen then Rejected
    else ParsePath(c4.buf, c4.save, f.(host := c4.token.value), badPort)
  }

  /** The protocol ends where the address ended, at the latest. */
  lemma ProtocolEnds(buf: string, full: nat, version: nat)
    requires Terminated(buf) && full < version < |buf| && Until(buf, full, "") + 1 == version
    requires Strtok(buf, full, "://").token.Some?
    ensures var c := Strtok(buf, full, "://");
            c.token.value + |CStr(c.buf, c.token.value)| < version
  {
    var c := Strtok(buf, full, "://");
    var t := c.token.value;
    UntilFacts(buf, full, "");
    UntilFacts(c.buf, t, "");
    StrtokKeeps(buf, full, "://");
    SkipWithin(buf, full, "://", version - 1);
    assert c.buf[version - 1] == NUL;
  }

  /** How reading the address goes on behind the protocol. */
  lemma AddressFollows(buf: string, verb: nat, full: nat, version: nat, badPort: string -> bool,
                       c: Cut)
    requires Terminated(buf) && verb <= full < version && version + 5 < |buf|
    requires Until(buf, full, "") + 1 == version && c == Strtok(buf, full, "://")
    ensures Terminated(c.buf) && |c.buf| == |buf| && c.save < |buf|
    ensures c.token.None? ==> ParseAddress(buf, verb, full, version, badPort) == Rejected
    ensures c.token.Some? ==>
              var protocol := c.token.value;
              var f := Fields(verb, protocol, 0, None, "", version);
              protocol < |c.buf| && full + |CStr(c.buf, protocol)| + 3 < |c.buf| && InBuffer(c.buf, f)
              && ParseAddress(buf, verb, full, version, badPort)
                 == ParseHost(c.buf, c.save, |CStr(c.buf, full + |CStr(c.buf, protocol)| + 3)|, f,
                              badPort)
  {
    hide Strtok, ParseHost, Until, CStr;
    if c.token.Some? {
      ProtocolEnds(buf, full, version);
    }
  }

  /** The path, with its slash put back. */
  function ParsePath(buf: string, save: nat, f: Fields, badPort: string -> bool): (r: LineResult)
    requires InBuffer(buf, f) && save < |buf|
    ensures r.Accepted? ==> InBuffer(r.buf, r.fields) && |r.buf| == |buf|
  {
    var c5 := Strtok(buf, save, " ");
    if c5.token.None? then ParsePort(c5.buf, f.(path := "/"), badPort)
    else if c5.buf[c5.token.value] == '/' then Rejected
    else ParsePort(c5.buf, f.(path := "/" + CStr(c5.buf, c5.token.value)), badPort)
  }

  /** The host is cut once more, at the port. */
  function ParsePort(buf: string, f: Fields, badPort: string -> bool): (r: LineResult)
    requires InBuffer(buf, f)
    ensures r.Accepted? ==> InBuffer(r.buf, r.fields) && |r.buf| == |buf|
  {
    var c6 := Strtok(buf, f.host, ":");
    var c7 := Strtok(c6.buf, c6.save, "/");
    if c6.token.None? then Rejected
    else if c7.token.Some? && badPort(CStr(c7.buf, c7.token.value)) then Rejected
    else Accepted(c7.buf, f.(host := c6.token.value, port := c7.token))
  }

  /** `NoColon` leaves the headers before it in place. */
  datatype HeadersResult =
    | HeadersOk(list: seq<(string, string)>)
    | NoColon(list: seq<(string, string)>)
    | HeaderOverread(list: seq<(string, string)>)

  /** The next line start, or the end of the text. */
  function LineBehind(s: string, i: nat): (l: nat)
    requires i < |s|
    ensures i < l <= |s|
  {
    var e := FindCrlf(s, i);
    if e == |s| then |s| else e + 2
  }

  /** The characters from `i` on, up to the next line end, if there is one.  `beyond` is the string
      behind the zero that ends the text, if the copy of the request goes on there. */
  function ValueAt(s: string, beyond: Option<string>, i: nat): (v: Option<string>)
    requires i <= |s| + 1
  {
    if i <= |s| then
      var end := FindCrlf(s, i);
      if end == |s| then None else Some(s[i..end])
    else if beyond.None? then None
    else
      var end := FindCrlf(beyond.value, 0);
      if end == |beyond.value| then None else Some(beyond.value[..end])
  }

  /** The header lines from `cur` on.  The colon is looked for in all of the text.  The value starts
      two characters behind it, which may be behind the zero that ends the text. */
  function ParseHeaders(s: string, beyond: Option<string>, cur: nat, list: seq<(string, string)>)
    : HeadersResult
    requires cur <= |s|
    decreases |s| - cur
  {
    if cur == |s| || CrlfAt(s, cur) then HeadersOk(list)
    else
      var colon := FindChar(s, ':', cur);
      if colon == |s| then NoColon(list)
      else
        var value := ValueAt(s, beyond, colon + 2);
        if value.None? then HeaderOverread(list)
        else
          ParseHeaders(s, beyond, LineBehind(s, cur), Set(list, s[cur..colon], value.value))
  }

  /** What a call of `ParsedRequest_parse` leaves behind. */
  datatype Outcome =
    | Failed                                                                 // -1, no request
    | Undefined
    | BadHeaders(buf: string, fields: Fields, list: seq<(string, string)>)   // -1, kept
    | Parsed(buf: string, fields: Fields, list: seq<(string, string)>)       // 0

  /** The C string in a copy of the caller's buffer. */
  function Text(raw: string): (s: string)
    ensures NUL !in s
  {
    CStr(raw + [NUL], 0)
  }

  /** The string behind the first zero of a copy, unless that zero ends the copy. */
  function Beyond(copy: string): (t: Option<string>)
    requires Terminated(copy)
    ensures t.Some? ==> NUL !in t.value
  {
    var next := |CStr(copy, 0)| + 1;
    if next == |copy| then None else Some(CStr(copy, next))
  }

  function Parse(raw: string, list: seq<(string, string)>, badPort: string -> bool): (r: Outcome)
    ensures (r.Parsed? || r.BadHeaders?) ==> InBuffer(r.buf, r.fields)
  {
    var s := Text(raw);
    if |raw| < MIN_REQ_LEN || |raw| > MAX_REQ_LEN || !HasEndOfHeader(s) then Failed
    else ParseText(s, Beyond(raw + [NUL]), list, badPort)
  }

  function ParseText(s: string, beyond: Option<string>, list: seq<(string, string)>,
                     badPort: string -> bool): (r: Outcome)
    requires NUL !in s && HasEndOfHeader(s)
    ensures (r.Parsed? || r.BadHeaders?) ==> InBuffer(r.buf, r.fields)
  {
    EndOfHeaderLine(s);
    var end := FindCrlf(s, 0);
    assert NUL !in s[..end];
    match ParseLine(s[..end], badPort)
    case Rejected => Failed
    case Overread => Undefined
    case Accepted(buf, fields) =>
      match ParseHeaders(s, beyond, end + 2, list)
      case HeadersOk(l) => Parsed(buf, fields, l)
      case NoColon(l) => BadHeaders(buf, fields, l)
      case HeaderOverread(_) => Undefined
  }

  // ------------------------------------------------------------------ printing

  function PortText(port: Option<string>): string {
    if port.Some? then ":" + port.value else ""
  }

  function LineText(l: Line): string {
    l.verb + " " + l.protocol + "://" + l.host + PortText(l.port) + l.path + " "
    + l.version + "\r\n"
  }

  function RequestText(l: Line, list: seq<(string, string)>): string {
    LineText(l) + HeadersText(list) + "\r\n"
  }
}
