/** A parsed request as the library keeps it: a buffer that is cut in place, and a growing
    table of headers with tombstones. */
module ProxyParse {
  import opened HeaderSpec
  import opened Options
  import opened CStrings
  import opened ProxySpec
  import ProxyOverread
  import ProxyOutcome

  const DEFAULT_NHDRS: nat := 8

  /** What a call returns: 0, -1, or nothing defined because it read behind a buffer. */
  datatype Code = Success | Failure | Wild

  // ------------------------------------------------------------------ writing

  /** A buffer after `s` has been written at offset `at`. */
  function Written(before: string, at: nat, s: string): (r: string)
    requires at + |s| <= |before|
    ensures |r| == |before|
  {
    before[..at] + s + before[at + |s|..]
  }

  lemma WrittenNone(before: string, at: nat)
    requires at <= |before|
    ensures Written(before, at, "") == before
  {
  }

  lemma WrittenOn(before: string, at: nat, s: string, t: string)
    requires at + |s| + |t| <= |before|
    ensures Written(Written(before, at, s), at + |s|, t) == Written(before, at, s + t)
  {
    var mid := Written(before, at, s);
    assert mid[..at + |s|] == before[..at] + s;
    assert mid[at + |s| + |t|..] == before[at + |s| + |t|..];
    assert before[..at] + (s + t) == before[..at] + s + t;
  }

  /** Behind what is written so far, one more piece; `memcpy`. */
  method Put(out: array<char>, ghost before: string, at: nat, ghost done: string, cur: nat,
             s: string)
    requires |before| == out.Length && cur == at + |done| && cur + |s| <= out.Length
    requires out[..] == Written(before, at, done)
    modifies out
    ensures out[..] == Written(before, at, done + s)
  {
    ghost var was := out[..];
    forall i | 0 <= i < |s| {
      out[cur + i] := s[i];
    }
    assert out[..] == Written(was, cur, s);
    WrittenOn(before, at, done, s);
  }

  /** `strtok_r` on a buffer. */
  method CutToken(buf: array<char>, start: nat, delims: string) returns (token: Option<nat>, save: nat)
    requires Terminated(buf[..]) && start < buf.Length && NUL !in delims
    modifies buf
    ensures Cut(token, buf[..], save) == Strtok(old(buf[..]), start, delims)
  {
    var t := Skip(buf[..], start, delims);
    SkipFacts(buf[..], start, delims);
    if buf[t] == NUL {
      return None, t;
    }
    var e := Until(buf[..], t, delims);
    if buf[e] == NUL {
      return Some(t), e;
    }
    ghost var was := buf[..];
    buf[e] := NUL;
    assert buf[..] == was[e := NUL];
    return Some(t), e + 1;
  }

  class ParsedRequest {
    var buf: array?<char>
    // offsets into `buf`
    var verb: nat
    var protocol: nat
    var host: nat
    var port: Option<nat>
    var version: nat
    // in memory of its own
    var path: Option<string>
    var headers: array<Header>
    var headersUsed: nat

    ghost predicate ValidHeaders()
      reads this, headers
    {
      headersUsed < headers.Length && DistinctKeys(Live(headers[..headersUsed]))
    }

    ghost predicate Valid()
      reads this, headers, buf
    {
      && ValidHeaders()
      && (buf == null ==> path == None)
      && (buf != null ==> path.Some? && InBuffer(buf[..], Pointers()))
    }

    ghost function Pointers(): Fields
      reads this
    {
      Fields(verb, protocol, host, port, if path.Some? then path.value else "", version)
    }

    /** The request line this stands for. */
    ghost function Current(): Line
      requires buf != null && InBuffer(buf[..], Pointers())
      reads this, buf
    {
      AsLine(buf[..], Pointers())
    }

    /** The headers this stands for. */
    ghost function List(): seq<(string, string)>
      requires headersUsed <= headers.Length
      reads this, headers
    {
      Live(headers[..headersUsed])
    }

    constructor ()
      ensures Valid() && buf == null && List() == [] && fresh(headers)
    {
      headers := new Header[DEFAULT_NHDRS];
      headersUsed := 0;
      buf, verb, protocol, host, port, version, path := null, 0, 0, 0, None, 0, None;
    }

    // ---------------------------------------------------------------- headers

    /** The entry of a key, if it has one. */
    method HeaderGet(key: string) returns (found: Option<nat>)
      requires ValidHeaders()
      ensures found == if IndexOf(headers[..headersUsed], key) < headersUsed
                       then Some(IndexOf(headers[..headersUsed], key)) else None
      ensures found.Some? <==> HasKey(List(), key)
      ensures found.Some? ==> Get(List(), key) == Some(headers[found.value].value)
    {
      IndexGet(headers[..headersUsed], key);
      GetHas(List(), key);
      var i := 0;
      while headersUsed > i
        invariant i <= IndexOf(headers[..headersUsed], key) <= headersUsed
      {
        if headers[i].key == Some(key) {
          assert headers[..headersUsed][i].key == Some(key);
          return Some(i);
        }
        assert headers[..headersUsed][i].key != Some(key);
        i := i + 1;
      }
      return None;
    }

    /** Only the key goes; the entry keeps its place in the table. */
    method HeaderRemove(key: string) returns (code: Code)
      requires ValidHeaders()
      modifies headers
      ensures ValidHeaders() && List() == Remove(old(List()), key)
      ensures code == if HasKey(old(List()), key) then Success else Failure
    {
      RemoveOthers(List(), key, key);
      var found := HeaderGet(key);
      if found.None? {
        AbsentKey(headers[..headersUsed], key);
        return Failure;
      }
      var i := found.value;
      ghost var was := headers[..headersUsed];
      TombstoneRemoves(was, i, key);
      headers[i] := Header(None, headers[i].value);
      assert headers[..headersUsed] == was[i := Header(None, was[i].value)];
      return Success;
    }

    /** The table doubles before its last entry is taken. */
    method Grow()
      requires ValidHeaders()
      modifies this`headers
      ensures ValidHeaders() && headersUsed + 1 < headers.Length
      ensures headers[..headersUsed] == old(headers[..headersUsed])
      ensures headers == old(headers) || fresh(headers)
    {
      if headers.Length <= headersUsed + 1 {
        var bigger := new Header[headers.Length * 2];
        forall i | 0 <= i < headers.Length {
          bigger[i] := headers[i];
        }
        assert bigger[..headersUsed] == headers[..headersUsed];
        headers := bigger;
        assert headers[..headersUsed] == old(headers[..headersUsed]);
      }
    }

    method HeaderSet(key: string, value: string)
      requires ValidHeaders()
      modifies this`headers, this`headersUsed, headers
      ensures ValidHeaders() && List() == Set(old(List()), key, value)
      ensures headers == old(headers) || fresh(headers)
    {
      SetThenGet(List(), key, value, key);
      var _ := HeaderRemove(key);
      Grow();
      ghost var was := headers[..headersUsed];
      headers[headersUsed] := Header(Some(key), value);
      headersUsed := headersUsed + 1;
      assert headers[..headersUsed] == was + [Header(Some(key), value)];
      LiveAppend(was, [Header(Some(key), value)]);
      LiveSingle(Header(Some(key), value));
    }

    // ---------------------------------------------------------------- lengths

    /** What the headers and the empty line take; nothing without a request. */
    method HeadersLen() returns (len: nat)
      requires Valid()
      ensures len == if buf == null then 0 else |HeadersText(List())| + 2
    {
      if buf == null {
        return 0;
      }
      len := 0;
      var i := 0;
      while headersUsed > i
        invariant i <= headersUsed && len == |HeadersText(Live(headers[..i]))|
      {
        NextEntry(headers[..], i);
        if headers[i].key.Some? {
          len := len + |headers[i].key.value| + |headers[i].value| + 4;
        }
        i := i + 1;
      }
      len := len + 2;
    }

    method RequestLineLen() returns (len: nat)
      requires Valid()
      ensures len == if buf == null then 0 else |LineText(Current())|
    {
      if buf == null {
        return 0;
      }
      len := |CStr(buf[..], verb)| + 1 + |CStr(buf[..], protocol)| + 3
        + |CStr(buf[..], host)| + 1 + |CStr(buf[..], version)| + 2;
      if port.Some? {
        len := len + |CStr(buf[..], port.value)| + 1;
      }
      len := len + |path.value|;
    }

    /** The calculator agrees with the text that is printed. */
    method TotalLen() returns (len: nat)
      requires Valid()
      ensures len == if buf == null then 0 else |RequestText(Current(), List())|
    {
      if buf == null {
        return 0;
      }
      var line := RequestLineLen();
      var rest := HeadersLen();
      len := line + rest;
    }

    // ---------------------------------------------------------------- printing

    /** The headers and the empty line, from offset `at` on, if they fit into `len`. */
    method PrintHeaders(out: array<char>, at: nat, len: nat) returns (code: Code)
      requires Valid() && buf != null && buf != out && at + len <= out.Length
      modifies out
      ensures code == if |HeadersText(List()) + "\r\n"| <= len then Success else Failure
      ensures out[..] == if code == Success then Written(old(out[..]), at, HeadersText(List()) + "\r\n")
                         else old(out[..])
    {
      var need := HeadersLen();
      if len < need {
        return Failure;
      }
      hide HeadersText, Live, Written, HeaderText, AsLine, InBuffer;
      ghost var was, done, table := out[..], "", headers[..headersUsed];
      TableStart(table);
      WrittenNone(was, at);
      var cur := at;
      var i := 0;
      while headersUsed > i
        invariant i <= headersUsed && done == HeadersText(Live(table[..i]))
        invariant cur == at + |done| && cur + 2 <= at + len
        invariant out[..] == Written(was, at, done)
      {
        NextEntry(table, i);
        PrefixFits(table, i + 1);
        var h := headers[i];
        assert h == table[i];
        if h.key.Some? {
          cur := PrintHeader(out, was, at, done, cur, (h.key.value, h.value));
          done := done + HeaderText((h.key.value, h.value));
        }
        i := i + 1;
      }
      assert table[..i] == table;
      Put(out, was, at, done, cur, "\r\n");
      return Success;
    }

    static method PrintHeader(out: array<char>, ghost before: string, at: nat, ghost done: string,
                              start: nat, h: (string, string)) returns (cur: nat)
      requires |before| == out.Length && start == at + |done|
      requires start + |HeaderText(h)| <= out.Length
      requires out[..] == Written(before, at, done)
      modifies out
      ensures cur == start + |HeaderText(h)| && out[..] == Written(before, at, done + HeaderText(h))
    {
      var (key, value) := h;
      hide Written;
      Put(out, before, at, done, start, key);
      Put(out, before, at, done + key, start + |key|, ": ");
      Put(out, before, at, done + key + ": ", start + |key| + 2, value);
      Put(out, before, at, done + key + ": " + value, start + |key| + 2 + |value|, "\r\n");
      cur := start + |key| + |value| + 4;
      assert done + key + ": " + value + "\r\n" == done + (key + ": " + value + "\r\n");
    }

    /** The request line, from the start of `out` on, if it fits. */
    method PrintRequestLine(out: array<char>, len: nat) returns (code: Code, cur: nat)
      requires Valid() && buf != null && buf != out && len <= out.Length
      modifies out
      ensures code == if |LineText(Current())| <= len then Success else Failure
      ensures code == Success ==> cur == |LineText(Current())|
      ensures out[..] == if code == Success then Written(old(out[..]), 0, LineText(Current()))
                         else old(out[..])
    {
      var need := RequestLineLen();
      if len < need {
        return Failure, 0;
      }
      ghost var was, done := out[..], "";
      cur, done := PrintFront(out, CStr(buf[..], verb), CStr(buf[..], protocol),
                              CStr(buf[..], host));
      cur, done := PrintPort(out, was, done, cur,
                             if port.Some? then Some(CStr(buf[..], port.value)) else None);
      cur, done := PrintBack(out, was, done, cur, path.value, CStr(buf[..], version));
      code := Success;
    }

    static method PrintFront(out: array<char>, verb: string, protocol: string, host: string)
      returns (cur: nat, ghost done: string)
      requires |verb| + 1 + |protocol| + 3 + |host| <= out.Length
      modifies out
      ensures done == verb + " " + protocol + "://" + host && cur == |done|
      ensures out[..] == Written(old(out[..]), 0, done)
    {
      hide Written;
      ghost var was := out[..];
      WrittenNone(was, 0);
      cur, done := PutText(out, was, "", 0, verb);
      cur, done := PutText(out, was, done, cur, " ");
      cur, done := PutText(out, was, done, cur, protocol);
      cur, done := PutText(out, was, done, cur, "://");
      cur, done := PutText(out, was, done, cur, host);
      assert "" + verb == verb;
    }

    static method PrintPort(out: array<char>, ghost before: string, ghost done: string, start: nat,
                            port: Option<string>) returns (cur: nat, ghost done': string)
      requires |before| == out.Length && start == |done|
      requires start + |PortText(port)| <= out.Length
      requires out[..] == Written(before, 0, done)
      modifies out
      ensures done' == done + PortText(port) && cur == |done'|
      ensures out[..] == Written(before, 0, done')
    {
      hide Written;
      cur, done' := start, done;
      if port.Some? {
        cur, done' := PutText(out, before, done, cur, ":");
        cur, done' := PutText(out, before, done', cur, port.value);
        assert done + ":" + port.value == done + (":" + port.value);
      } else {
        assert done + "" == done;
      }
    }

    static method PrintBack(out: array<char>, ghost before: string, ghost done: string, start: nat,
                            path: string, version: string) returns (cur: nat, ghost done': string)
      requires |before| == out.Length && start == |done|
      requires start + |path| + 1 + |version| + 2 <= out.Length
      requires out[..] == Written(before, 0, done)
      modifies out
      ensures done' == done + path + " " + version + "\r\n" && cur == |done'|
      ensures out[..] == Written(before, 0, done')
    {
      hide Written;
      cur, done' := PutText(out, before, done, start, path);
      cur, done' := PutText(out, before, done', cur, " ");
      cur, done' := PutText(out, before, done', cur, version);
      cur, done' := PutText(out, before, done', cur, "\r\n");
    }

    static method PutText(out: array<char>, ghost before: string, ghost done: string, cur: nat,
                          s: string) returns (next: nat, ghost done': string)
      requires |before| == out.Length && cur == |done| && cur + |s| <= out.Length
      requires out[..] == Written(before, 0, done)
      modifies out
      ensures done' == done + s && next == |done'| <= out.Length
      ensures out[..] == Written(before, 0, done')
    {
      Put(out, before, 0, done, cur, s);
      next, done' := cur + |s|, done + s;
    }

    /** All of the request, if it fits.  If only its line fits, the line has been written. */
    method Unparse(out: array<char>, len: nat) returns (code: Code)
      requires Valid() && buf != out && len <= out.Length
      modifies out
      ensures code == Success <==> buf != null && |RequestText(Current(), List())| <= len
      ensures code == Success ==> out[..] == Written(old(out[..]), 0, RequestText(Current(), List()))
      ensures code == Failure || code == Success
      ensures code == Failure ==>
                out[..] == if buf != null && |LineText(Current())| <= len
                           then Written(old(out[..]), 0, LineText(Current())) else old(out[..])
    {
      if buf == null {
        return Failure;
      }
      var written;
      code, written := PrintRequestLine(out, len);
      if code == Failure {
        return;
      }
      ghost var before := old(out[..]);
      code := PrintHeaders(out, written, len - written);
      if code == Success {
        WrittenOn(before, 0, LineText(Current()), HeadersText(List()) + "\r\n");
        assert LineText(Current()) + (HeadersText(List()) + "\r\n")
            == LineText(Current()) + HeadersText(List()) + "\r\n";
      }
    }

    method UnparseHeaders(out: array<char>, len: nat) returns (code: Code)
      requires Valid() && buf != out && len <= out.Length
      modifies out
      ensures code == if buf != null && |HeadersText(List()) + "\r\n"| <= len then Success
                      else Failure
      ensures out[..] == if code == Success then Written(old(out[..]), 0, HeadersText(List()) + "\r\n")
                         else old(out[..])
    {
      if buf == null {
        return Failure;
      }
      code := PrintHeaders(out, 0, len);
    }

    // ---------------------------------------------------------------- parsing

    /** The fields stand as the specification says. */
    ghost predicate Agrees(code: Code, r: LineResult)
      requires buf != null
      reads this, buf
    {
      match r
      case Rejected => code == Failure
      case Overread => code == Wild
      case Accepted(b, f) => code == Success && path.Some? && buf[..] == b && Pointers() == f
    }

    /** The method. */
    method ReadLine(badPort: string -> bool) returns (code: Code)
      requires buf != null && buf.Length > 0 && buf[buf.Length - 1] == NUL
      requires NUL !in buf[..buf.Length - 1] && path == None
      modifies `verb, `protocol, `host, `port, `version, `path, buf
      ensures Agrees(code, ParseLine(old(buf[..buf.Length - 1]), badPort))
    {
      ghost var line := buf[..buf.Length - 1];
      assert buf[..] == line + [NUL];
      hide Strtok, ParseUrl;
      var token, save := CutToken(buf, 0, " ");
      if token.None? {
        return Failure;
      }
      verb := token.value;
      code := ReadUrl(save, badPort);
    }

    /** The address as a whole, and the version. */
    method ReadUrl(save: nat, badPort: string -> bool) returns (code: Code)
      requires buf != null && Terminated(buf[..]) && verb < save < buf.Length && path == None
      modifies `protocol, `host, `port, `version, `path, buf
      ensures Agrees(code, ParseUrl(old(buf[..]), verb, save, badPort))
    {
      hide Strtok, ParseAddress, Until, CStr;
      var full, _ := CutToken(buf, save, " ");
      if full.None? {
        return Failure;
      }
      version := Until(buf[..], full.value, "") + 1;
      if version == buf.Length {
        return Wild;
      }
      if !StartsWith(CStr(buf[..], version), "HTTP/") {
        return Failure;
      }
      code := ReadAddress(full.value, badPort);
    }

    /** The protocol. */
    method ReadAddress(full: nat, badPort: string -> bool) returns (code: Code)
      requires buf != null && Terminated(buf[..]) && path == None
      requires verb <= full < version && version + 5 < buf.Length
      requires Until(buf[..], full, "") + 1 == version
      modifies `protocol, `host, `port, `path, buf
      ensures Agrees(code, ParseAddress(old(buf[..]), verb, full, version, badPort))
    {
      hide Strtok, ParseAddress, ParseHost, Until, CStr, InBuffer, Terminated;
      ghost var was := buf[..];
      var token, save := CutToken(buf, full, "://");
      ghost var cut := buf[..];
      AddressFollows(was, verb, full, version, badPort, Cut(token, cut, save));
      if token.None? {
        return Failure;
      }
      protocol := token.value;
      var rest := full + |CStr(buf[..], protocol)| + 3;
      var uriLen := |CStr(buf[..], rest)|;
      host, port := 0, None;
      assert Pointers() == Fields(verb, protocol, 0, None, "", version);
      code := ReadHost(save, uriLen, badPort);
    }

    /** The host, with its port. */
    method ReadHost(save: nat, uriLen: nat, badPort: string -> bool) returns (code: Code)
      requires buf != null && Terminated(buf[..]) && path == None && port == None
      requires InBuffer(buf[..], Pointers()) && save < buf.Length
      modifies `host, `port, `path, buf
      ensures Agrees(code, ParseHost(old(buf[..]), save, uriLen, old(Pointers()), badPort))
    {
      hide Strtok, ParsePath, CStr;
      var token, next := CutToken(buf, save, "/");
      if token.None? {
        return Failure;
      }
      host := token.value;
      if |CStr(buf[..], host)| == uriLen {
        return Failure;
      }
      code := ReadPath(next, badPort);
    }

    /** The path is copied, with its slash in front. */
    method ReadPath(save: nat, badPort: string -> bool) returns (code: Code)
      requires buf != null && Terminated(buf[..]) && path == None && port == None
      requires InBuffer(buf[..], Pointers()) && save < buf.Length
      modifies `host, `port, `path, buf
      ensures Agrees(code, ParsePath(old(buf[..]), save, old(Pointers()), badPort))
    {
      hide Strtok, ParsePort, CStr;
      var token, _ := CutToken(buf, save, " ");
      if token.None? {
        path := Some("/");
      } else if buf[token.value] == '/' {
        return Failure;
      } else {
        path := Some("/" + CStr(buf[..], token.value));
      }
      code := ReadPort(badPort);
    }

    /** The host is cut again, at its port. */
    method ReadPort(badPort: string -> bool) returns (code: Code)
      requires buf != null && Terminated(buf[..]) && path.Some? && port == None
      requires InBuffer(buf[..], Pointers())
      modifies `host, `port, buf
      ensures Agrees(code, ParsePort(old(buf[..]), old(Pointers()), badPort))
    {
      hide Strtok, CStr;
      var token, save := CutToken(buf, host, ":");
      port, save := CutToken(buf, save, "/");
      if token.None? {
        return Failure;
      }
      host := token.value;
      if port.Some? && badPort(CStr(buf[..], port.value)) {
        return Failure;
      }
      return Success;
    }

    /** One header, whose text starts at `cur` in the copy of the request.  The value may be taken
        from behind a zero. */
    method HeaderParse(copy: string, cur: nat) returns (code: Code)
      requires ValidHeaders() && Terminated(copy) && cur <= |CStr(copy, 0)|
      modifies `headers, `headersUsed, headers
      ensures ValidHeaders() && (headers == old(headers) || fresh(headers))
      ensures var s := CStr(copy, 0);
              var colon := FindChar(s, ':', cur);
              if colon == |s| then code == Failure && List() == old(List())
              else match ValueAt(s, Beyond(copy), colon + 2)
                case None => code == Wild
                case Some(value) =>
                  code == Success && List() == Set(old(List()), s[cur..colon], value)
    {
      var s := CStr(copy, 0);
      var colon := FindChar(s, ':', cur);
      if colon == |s| {
        return Failure;
      }
      ValueInCopy(copy, colon + 2);
      if colon + 2 == |copy| {
        return Wild;
      }
      var rest := CStr(copy, colon + 2);
      var end := FindCrlf(rest, 0);
      if end == |rest| {
        return Wild;
      }
      HeaderSet(s[cur..colon], rest[..end]);
      return Success;
    }

    ghost predicate HeadersAgree(code: Code, r: HeadersResult)
      requires ValidHeaders()
      reads this, headers
    {
      match r
      case HeadersOk(list) => code == Success && List() == list
      case NoColon(list) => code == Failure && List() == list
      case HeaderOverread(_) => code == Wild
    }

    /** The header lines from `start` on. */
    method ReadHeaders(copy: string, start: nat) returns (code: Code)
      requires ValidHeaders() && Terminated(copy) && start <= |CStr(copy, 0)|
      modifies `headers, `headersUsed, headers
      ensures ValidHeaders() && (headers == old(headers) || fresh(headers))
      ensures HeadersAgree(code, ParseHeaders(CStr(copy, 0), Beyond(copy), start, old(List())))
    {
      hide FindCrlf, FindChar, Set, Live, ValueAt, Beyond, CStr;
      var s := CStr(copy, 0);
      ghost var beyond := Beyond(copy);
      var cur := start;
      while cur < |s| && !CrlfAt(s, cur)
        invariant start <= cur <= |s| && ValidHeaders()
        invariant headers == old(headers) || fresh(headers)
        invariant ParseHeaders(s, beyond, cur, List()) == ParseHeaders(s, beyond, start, old(List()))
      {
        code := HeaderParse(copy, cur);
        if code != Success {
          return;
        }
        var next := FindCrlf(s, cur);
        if next == |s| {
          return Success;
        }
        cur := next + 2;
      }
      return Success;
    }

    /** The first `buflen` characters of the caller's buffer. */
    static function Given(raw: seq<char>, buflen: int): string
      requires buflen <= |raw|
    {
      if buflen < 0 then "" else raw[..buflen]
    }

    ghost predicate Holds(b: string, f: Fields, list: seq<(string, string)>)
      reads this, headers, buf
    {
      Valid() && buf != null && buf[..] == b && Pointers() == f && List() == list
    }

    /** A request is parsed once; a failure before the headers leaves none behind.  The call is
        defined exactly for texts that do not overread, and succeeds exactly as `Succeeds` says. */
    method Parse(raw: array<char>, buflen: int, badPort: string -> bool) returns (code: Code)
      requires Valid() && buflen <= raw.Length
      modifies this, headers
      ensures old(buf) != null ==> code == Failure && unchanged(this) && unchanged(headers)
      ensures old(buf) == null ==>
                && HoldsOutcome(code, ProxySpec.Parse(Given(raw[..], buflen), old(List()), badPort),
                                old(List()))
                && (code == Wild <==> ProxyOverread.Overreads(Given(raw[..], buflen), badPort))
                && (code == Success <==> ProxyOutcome.Succeeds(Given(raw[..], buflen), badPort))
    {
      if buf != null {
        return Failure;
      }
      ProxyOutcome.OutcomeExactly(Given(raw[..], buflen), List(), badPort);
      hide ProxyOverread.Overreads, ProxyOutcome.Succeeds;
      if buflen < MIN_REQ_LEN || buflen > MAX_REQ_LEN {
        return Failure;
      }
      var copy := raw[..buflen] + [NUL];
      if !HasEndOfHeader(CStr(copy, 0)) {
        return Failure;
      }
      hide ParseText, HasEndOfHeader, Live, Beyond;
      code := ReadText(copy, badPort);
    }

    ghost predicate HoldsOutcome(code: Code, r: Outcome, before: seq<(string, string)>)
      reads this, headers, buf
    {
      match r
      case Failed => code == Failure && Valid() && buf == null && List() == before
      case Undefined => code == Wild
      case BadHeaders(b, f, list) => code == Failure && Holds(b, f, list)
      case Parsed(b, f, list) => code == Success && Holds(b, f, list)
    }

    /** Line and headers of a copy that has an end of header. */
    method ReadText(copy: string, badPort: string -> bool) returns (code: Code)
      requires Valid() && buf == null && Terminated(copy) && HasEndOfHeader(CStr(copy, 0))
      modifies this, headers
      ensures HoldsOutcome(code, ParseText(CStr(copy, 0), Beyond(copy), old(List()), badPort),
                           old(List()))
    {
      hide ParseLine, ParseHeaders, FindCrlf, HasEndOfHeader, Live, Beyond, CStr;
      var s := CStr(copy, 0);
      EndOfHeaderLine(s);
      var index := FindCrlf(s, 0);
      buf := CopyLine(s, index);
      code := ReadLine(badPort);
      if code == Failure {
        buf, path := null, None;
      } else if code == Success {
        code := ReadHeaders(copy, index + 2);
      }
    }

    static method CopyLine(tmp: string, index: nat) returns (line: array<char>)
      requires index <= |tmp|
      ensures fresh(line) && line[..] == tmp[..index] + [NUL]
      ensures line[..line.Length - 1] == tmp[..index]
    {
      line := new char[index + 1];
      forall i | 0 <= i < index {
        line[i] := tmp[i];
      }
      line[index] := NUL;
    }
  }

  /** `strstr` in the copy finds the value that the text and what is behind it give. */
  lemma ValueInCopy(copy: string, i: nat)
    requires Terminated(copy) && i <= |CStr(copy, 0)| + 1
    ensures i <= |copy|
    ensures ValueAt(CStr(copy, 0), Beyond(copy), i)
         == if i == |copy| || FindCrlf(CStr(copy, i), 0) == |CStr(copy, i)| then None
            else Some(CStr(copy, i)[..FindCrlf(CStr(copy, i), 0)])
  {
    var s := CStr(copy, 0);
    if i <= |s| {
      RestOfText(copy, i);
      FindInSlice(s, i, 0);
      hide FindCrlf, CStr;
      var end := FindCrlf(s, i);
      assert s[i..][..end - i] == s[i..end];
    }
  }

  lemma RestOfText(copy: string, i: nat)
    requires Terminated(copy) && i <= |CStr(copy, 0)|
    ensures CStr(copy, i) == CStr(copy, 0)[i..]
  {
    var end := |CStr(copy, 0)|;
    UntilFacts(copy, 0, "");
    UntilIs(copy, i, "", end);
    assert copy[0..end][i..] == copy[i..end];
  }

  lemma {:induction false} FindInSlice(s: string, i: nat, j: nat)
    requires i + j <= |s|
    ensures FindCrlf(s[i..], j) + i == FindCrlf(s, i + j)
    decreases |s| - i - j
  {
    if i + j < |s| {
      assert CrlfAt(s[i..], j) <==> CrlfAt(s, i + j);
      FindInSlice(s, i, j + 1);
    }
  }

  lemma TableStart(table: seq<Header>)
    ensures HeadersText(Live(table[..0])) == ""
  {
  }

  lemma PrefixFits(table: seq<Header>, i: nat)
    requires i <= |table|
    ensures |HeadersText(Live(table[..i]))| <= |HeadersText(Live(table))|
  {
    assert table == table[..i] + table[i..];
    LiveAppend(table[..i], table[i..]);
    HeadersTextAppend(Live(table[..i]), Live(table[i..]));
  }

  lemma NextEntry(table: seq<Header>, i: nat)
    requires i < |table|
    ensures Live(table[..i + 1]) == Live(table[..i]) + LiveOne(table[i])
    ensures HeadersText(Live(table[..i + 1]))
         == HeadersText(Live(table[..i]))
            + if table[i].key.Some? then HeaderText((table[i].key.value, table[i].value)) else ""
  {
    var t := table[..i + 1];
    assert t[..|t| - 1] == table[..i];
    var a := Live(table[..i]);
    if table[i].key.Some? {
      var b := a + LiveOne(table[i]);
      assert b[..|b| - 1] == a;
    } else {
      assert a + [] == a;
    }
  }
}
