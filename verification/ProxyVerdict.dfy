/** Exactly which request lines are refused, told from the characters of the line. */
module ProxyVerdict {
  import opened Options
  import opened CStrings
  import opened ProxySpec

  // ------------------------------------------------------------------ a line, taken apart

  /** Every character is one of these. */
  predicate All(s: string, chars: string) {
    forall c :: c in s ==> c in chars
  }

  /** A line: blanks, a word, blanks, a word, and what is behind the blank that ends it. */
  datatype Words = Words(lead: string, verb: string, gap: string, address: string,
                         version: Option<string>)

  function LineOf(w: Words): string {
    w.lead + (w.verb + (w.gap + (w.address + VersionText(w.version))))
  }

  predicate AreWords(w: Words) {
    && All(w.lead, " ") && Free(w.verb, " ") && All(w.gap, " ") && Free(w.address, " ")
    && (w.verb == "" ==> w.gap == "")
    && (w.gap == "" ==> w.address == "")
    && (w.address == "" ==> w.version == None)
    && (w.version.Some? ==> NUL !in w.version.value)
  }

  /** The second word: colons and slashes, the protocol, one colon or slash, slashes, colons, the
      host, the port with its colon, and the path. */
  datatype Pieces = Pieces(marks: string, protocol: string, mark: string, slashes: string,
                           site: Site, path: string)

  datatype Site = Site(colons: string, host: string, port: string)

  function SiteText(s: Site): string {
    s.colons + (s.host + s.port)
  }

  function AddressOf(a: Pieces): string {
    a.marks + (a.protocol + (a.mark + (a.slashes + (SiteText(a.site) + a.path))))
  }

  predicate IsSite(s: Site) {
    && All(s.colons, ":") && Free(s.host, ":/ ")
    && (s.port != "" ==> s.host != "" && s.port[0] == ':' && Free(s.port, "/ "))
  }

  predicate ArePieces(a: Pieces) {
    && All(a.marks, ":/") && Free(a.protocol, ":/ ") && All(a.mark, ":/") && |a.mark| <= 1
    && All(a.slashes, "/") && IsSite(a.site)
    && (a.path != "" ==> a.path[0] == '/' && Free(a.path, " "))
    && (a.protocol == "" ==> a.mark == "")
    && (a.mark == "" ==> a.slashes == "")
    && (a.mark == "" ==> SiteText(a.site) == "")
    && (SiteText(a.site) == "" ==> a.path == "")
  }

  /** What the parser takes for a missing path.  It compares the host with what is left three
      characters behind as many characters as the protocol has. */
  predicate Pathless(a: Pieces) {
    if |a.marks| >= 3 then |SiteText(a.site)| == |a.marks| - 3
    else |a.marks| + |a.slashes| + |a.path| == 2
  }

  predicate SiteRefused(s: Site, badPort: string -> bool) {
    s.host == "" || (|s.port| > 1 && badPort(s.port[1..]))
  }

  predicate AddressRefused(a: Pieces, badPort: string -> bool) {
    || SiteText(a.site) == "" || Pathless(a)
    || (|a.path| > 1 && a.path[1] == '/') || SiteRefused(a.site, badPort)
  }

  /** No method, no address, another version, or an address that is refused. */
  predicate LineRefused(w: Words, a: Pieces, badPort: string -> bool) {
    || w.address == ""
    || (w.version.Some? && (!StartsWith(w.version.value, "HTTP/") || AddressRefused(a, badPort)))
  }

  function PortOf(s: Site): Option<string> {
    if |s.port| > 1 then Some(s.port[1..]) else None
  }

  function PathOf(a: Pieces): string {
    if a.path == "" then "/" else a.path
  }

  // ------------------------------------------------------------------ tokens

  lemma AtSplit(buf: string, i: nat, s: string, t: string)
    requires At(buf, i, s + t)
    ensures At(buf, i, s) && At(buf, i + |s|, t)
  {
    assert buf[i..i + |s|] == buf[i..i + |s + t|][..|s|];
    assert buf[i + |s|..i + |s| + |t|] == buf[i..i + |s + t|][|s|..];
  }

  lemma AllAt(buf: string, i: nat, s: string, chars: string)
    requires At(buf, i, s) && All(s, chars)
    ensures forall k :: i <= k < i + |s| ==> buf[k] in chars
  {
    forall k | i <= k < i + |s|
      ensures buf[k] in chars
    {
      AtIndex(buf, i, s, k - i);
    }
  }

  /** Nothing but delimiters. */
  lemma NoToken(buf: string, start: nat, end: nat, delims: string)
    requires Terminated(buf) && start <= end < |buf| && NUL !in delims && buf[end] == NUL
    requires forall i :: start <= i < end ==> buf[i] in delims
    ensures Strtok(buf, start, delims) == Cut(None, buf, end)
  {
    SkipIs(buf, start, delims, end);
  }

  /** Delimiters and a token that ends the string. */
  lemma EndToken(buf: string, start: nat, t: nat, end: nat, delims: string)
    requires Terminated(buf) && start <= t < end < |buf| && NUL !in delims && buf[end] == NUL
    requires forall i :: start <= i < t ==> buf[i] in delims
    requires Clean(buf, t, end, delims)
    ensures Strtok(buf, start, delims) == Cut(Some(t), buf, end)
  {
    SkipIs(buf, start, delims, t);
    UntilIs(buf, t, delims, end);
  }

  // ------------------------------------------------------------------ the site

  /** What is accepted of host and port. */
  predicate SiteTaken(buf: string, r: LineResult, f: Fields, s: Site, end: nat) {
    && r.Accepted? && InBuffer(r.buf, r.fields) && CutWithin(buf, r.buf, f.host, end)
    && r.fields == f.(host := r.fields.host, port := r.fields.port)
    && CStr(r.buf, r.fields.host) == s.host
    && PortOf(s) == if r.fields.port.Some? then Some(CStr(r.buf, r.fields.port.value)) else None
  }

  /** The host without its port, when the colons in front of it are skipped. */
  lemma HostToken(buf: string, start: nat, s: Site)
    requires Terminated(buf) && IsSite(s) && At(buf, start, SiteText(s))
    requires start + |SiteText(s)| < |buf| && buf[start + |SiteText(s)|] == NUL && s.host != ""
    ensures var t := start + |s.colons|;
            var e := t + |s.host|;
            if s.port == "" then Strtok(buf, start, ":") == Cut(Some(t), buf, e)
            else Strtok(buf, start, ":") == Cut(Some(t), buf[e := NUL], e + 1)
  {
    var t := start + |s.colons|;
    var e := t + |s.host|;
    AtSplit(buf, start, s.colons, s.host + s.port);
    AtSplit(buf, t, s.host, s.port);
    AllAt(buf, start, s.colons, ":");
    NoSlash(s.host);
    CleanAt(buf, t, s.host, ":");
    hide At, Clean, Free, Strtok, All;
    if s.port == "" {
      EndToken(buf, start, t, e, ":");
    } else {
      FirstIs(buf, e, s.port);
      TokenCut(buf, start, t, e, ":");
    }
  }

  lemma FirstIs(buf: string, i: nat, s: string)
    requires At(buf, i, s) && s != ""
    ensures i < |buf| && buf[i] == s[0]
  {
    AtIndex(buf, i, s, 0);
  }

  /** The port behind the host, once the host is cut off. */
  lemma PortToken(buf: string, e: nat, port: string, end: nat)
    requires Terminated(buf) && end == e + |port| < |buf| && buf[end] == NUL
    requires At(buf, e, port) && Free(port, "/ ")
    ensures Strtok(buf, e, "/") == if port == "" then Cut(None, buf, e) else Cut(Some(e), buf, end)
    ensures port != "" ==> CStr(buf, e) == port
  {
    assert Free(port, "/") && NUL !in port;
    if port == "" {
      TokenNone(buf, e, "/");
    } else {
      CleanAt(buf, e, port, "/");
      hide At, Clean, Free, Strtok, CStr;
      TokenLast(buf, e, end, "/");
      CStrAt(buf, e, port);
    }
  }

  lemma NoSlash(host: string)
    requires Free(host, ":/ ")
    ensures Free(host, ":") && NUL !in host
  {
  }

  /** Host and port, once the strings are found. */
  lemma PortUnfolded(buf: string, f: Fields, badPort: string -> bool, c6: Cut, c7: Cut)
    requires InBuffer(buf, f) && c6 == Strtok(buf, f.host, ":")
    requires Terminated(c6.buf) && c6.save < |c6.buf| && c7 == Strtok(c6.buf, c6.save, "/")
    ensures Terminated(c7.buf) && (c7.token.Some? ==> c7.token.value < |c7.buf|)
    ensures ParsePort(buf, f, badPort)
         == if c6.token.None? || (c7.token.Some? && badPort(CStr(c7.buf, c7.token.value))) then Rejected
            else Accepted(c7.buf, f.(host := c6.token.value, port := c7.token))
  {
    hide Strtok, CStr;
  }

  lemma PortVerdict(buf: string, f: Fields, s: Site, end: nat, badPort: string -> bool)
    requires InBuffer(buf, f) && IsSite(s) && end == f.host + |SiteText(s)|
    requires At(buf, f.host, SiteText(s)) && end < |buf| && buf[end] == NUL
    ensures var r := ParsePort(buf, f, badPort);
            if SiteRefused(s, badPort) then r == Rejected else SiteTaken(buf, r, f, s, end)
  {
    hide Strtok, CStr, ParsePort, At, Free, All;
    if s.host == "" {
      ColonsOnly(buf, f.host, s);
      PortUnfolded(buf, f, badPort, Strtok(buf, f.host, ":"), Strtok(buf, end, "/"));
    } else {
      HostToken(buf, f.host, s);
      if s.port == "" {
        WithoutPort(buf, f, s, end, badPort);
      } else {
        WithPort(buf, f, s, end, badPort);
      }
    }
  }

  lemma ColonsOnly(buf: string, start: nat, s: Site)
    requires Terminated(buf) && IsSite(s) && At(buf, start, SiteText(s)) && s.host == ""
    requires start + |SiteText(s)| < |buf| && buf[start + |SiteText(s)|] == NUL
    ensures Strtok(buf, start, ":") == Cut(None, buf, start + |SiteText(s)|)
  {
    AtSplit(buf, start, s.colons, s.host + s.port);
    AllAt(buf, start, s.colons, ":");
    NoToken(buf, start, start + |s.colons|, ":");
  }

  lemma WithoutPort(buf: string, f: Fields, s: Site, end: nat, badPort: string -> bool)
    requires InBuffer(buf, f) && IsSite(s) && end == f.host + |SiteText(s)| && s.port == ""
    requires At(buf, f.host, SiteText(s)) && end < |buf| && buf[end] == NUL && s.host != ""
    requires Strtok(buf, f.host, ":") == Cut(Some(f.host + |s.colons|), buf, end)
    ensures SiteTaken(buf, ParsePort(buf, f, badPort), f, s, end)
  {
    AtSplit(buf, f.host, s.colons, s.host + s.port);
    AtSplit(buf, f.host + |s.colons|, s.host, s.port);
    NoSlash(s.host);
    hide Strtok, CStr, ParsePort, At, Free, All;
    TokenNone(buf, end, "/");
    CStrAt(buf, f.host + |s.colons|, s.host);
    PortResult(buf, f, s, end, badPort, Strtok(buf, f.host, ":"), Strtok(buf, end, "/"));
  }

  lemma WithPort(buf: string, f: Fields, s: Site, end: nat, badPort: string -> bool)
    requires InBuffer(buf, f) && IsSite(s) && end == f.host + |SiteText(s)| && s.port != ""
    requires At(buf, f.host, SiteText(s)) && end < |buf| && buf[end] == NUL && s.host != ""
    requires var t := f.host + |s.colons|;
             var e := t + |s.host|;
             Strtok(buf, f.host, ":") == Cut(Some(t), buf[e := NUL], e + 1)
    ensures var r := ParsePort(buf, f, badPort);
            if SiteRefused(s, badPort) then r == Rejected else SiteTaken(buf, r, f, s, end)
  {
    hide Strtok, CStr, ParsePort, At, Free, All, SiteText, CutWithin, SiteTaken, SiteRefused, IsSite;
    var t := f.host + |s.colons|;
    var e := t + |s.host|;
    var port := s.port[1..];
    SitePieces(buf, f.host, s);
    var cut := buf[e := NUL];
    CutOne(buf, e, f.host, end);
    AtKept(buf, t, s.host, e);
    AtKept(buf, e + 1, port, e);
    CStrAt(cut, t, s.host);
    PortToken(cut, e + 1, port, end);
    PortResult(buf, f, s, end, badPort, Strtok(buf, f.host, ":"), Strtok(cut, e + 1, "/"));
  }

  lemma PortResult(buf: string, f: Fields, s: Site, end: nat, badPort: string -> bool, c6: Cut, c7: Cut)
    requires InBuffer(buf, f) && c6 == Strtok(buf, f.host, ":") && c6.token.Some?
    requires Terminated(c6.buf) && c6.save < |c6.buf| && c7 == Strtok(c6.buf, c6.save, "/")
    requires Terminated(c7.buf) && |c7.buf| == |buf| && CutWithin(buf, c7.buf, f.host, end)
    requires c6.token.value < |c7.buf| && (c7.token.Some? ==> c7.token.value < |c7.buf|)
    requires s.host != "" && CStr(c7.buf, c6.token.value) == s.host
    requires PortOf(s) == if c7.token.Some? then Some(CStr(c7.buf, c7.token.value)) else None
    ensures var r := ParsePort(buf, f, badPort);
            if SiteRefused(s, badPort) then r == Rejected else SiteTaken(buf, r, f, s, end)
  {
    PortUnfolded(buf, f, badPort, c6, c7);
    hide Strtok, CStr, ParsePort, CutWithin;
  }

  lemma CutOne(buf: string, k: nat, lo: nat, hi: nat)
    requires lo <= k < hi && k < |buf|
    ensures CutWithin(buf, buf[k := NUL], lo, hi)
  {
  }

  lemma SitePieces(buf: string, start: nat, s: Site)
    requires IsSite(s) && At(buf, start, SiteText(s)) && s.port != ""
    ensures var t := start + |s.colons|;
            var e := t + |s.host|;
            At(buf, t, s.host) && At(buf, e + 1, s.port[1..]) && NUL !in s.host
            && Free(s.port[1..], "/ ") && e + |s.port| == start + |SiteText(s)|
  {
    NoSlash(s.host);
    FreeTail(s.port, "/ ");
    AtSplit(buf, start, s.colons, s.host + s.port);
    AtSplit(buf, start + |s.colons|, s.host, s.port);
    hide At, Free, All;
    AtTail(buf, start + |s.colons| + |s.host|, s.port);
  }

  lemma FreeTail(s: string, delims: string)
    requires s != "" && Free(s, delims)
    ensures Free(s[1..], delims)
  {
    assert forall c :: c in s[1..] ==> c in s;
  }

  lemma AtTail(buf: string, i: nat, s: string)
    requires s != "" && At(buf, i, s)
    ensures At(buf, i + 1, s[1..])
  {
    assert s == [s[0]] + s[1..];
    AtSplit(buf, i, [s[0]], s[1..]);
  }

  // ------------------------------------------------------------------ the path

  /** What is behind the slash of the path. */
  function Rest(path: string): string {
    if path == "" then "" else path[1..]
  }

  lemma PathUnfolded(buf: string, save: nat, f: Fields, badPort: string -> bool, c5: Cut)
    requires InBuffer(buf, f) && save < |buf| && c5 == Strtok(buf, save, " ") && c5.buf == buf
    requires c5.token.Some? ==> c5.token.value < |buf|
    ensures ParsePath(buf, save, f, badPort)
         == if c5.token.None? then ParsePort(buf, f.(path := "/"), badPort)
            else if buf[c5.token.value] == '/' then Rejected
            else ParsePort(buf, f.(path := "/" + CStr(buf, c5.token.value)), badPort)
  {
    hide Strtok, CStr, ParsePort;
  }

  lemma PathVerdict(buf: string, save: nat, f: Fields, s: Site, rest: string, hostEnd: nat,
                    badPort: string -> bool)
    requires InBuffer(buf, f) && IsSite(s) && hostEnd == f.host + |SiteText(s)|
    requires At(buf, f.host, SiteText(s)) && hostEnd < |buf| && buf[hostEnd] == NUL
    requires At(buf, save, rest) && Free(rest, " ")
    requires save + |rest| < |buf| && buf[save + |rest|] == NUL
    ensures var r := ParsePath(buf, save, f, badPort);
            if (rest != "" && rest[0] == '/') || SiteRefused(s, badPort) then r == Rejected
            else SiteTaken(buf, r, f.(path := "/" + rest), s, hostEnd)
  {
    var end := save + |rest|;
    if rest == "" {
      TokenNone(buf, save, " ");
      assert "/" + rest == "/";
    } else {
      NoBlank1(rest);
      CleanAt(buf, save, rest, " ");
      TokenLast(buf, save, end, " ");
      CStrAt(buf, save, rest);
      FirstIs(buf, save, rest);
    }
    hide Strtok, CStr, ParsePort, ParsePath, At, Free, Clean, SiteText, SiteTaken, SiteRefused;
    PathUnfolded(buf, save, f, badPort, Strtok(buf, save, " "));
    PortVerdict(buf, f.(path := "/" + rest), s, hostEnd, badPort);
  }

  lemma NoBlank1(rest: string)
    requires Free(rest, " ")
    ensures NUL !in rest
  {
  }

  // ------------------------------------------------------------------ the host

  /** What is accepted behind the protocol. */
  predicate HostTaken(buf: string, r: LineResult, f: Fields, s: Site, path: string, lo: nat, hi: nat) {
    && r.Accepted? && InBuffer(r.buf, r.fields) && CutWithin(buf, r.buf, lo, hi)
    && r.fields == f.(host := r.fields.host, port := r.fields.port, path := "/" + Rest(path))
    && CStr(r.buf, r.fields.host) == s.host
    && PortOf(s) == if r.fields.port.Some? then Some(CStr(r.buf, r.fields.port.value)) else None
  }

  predicate HostRefused(s: Site, path: string, uriLen: nat, badPort: string -> bool) {
    || SiteText(s) == "" || |SiteText(s)| == uriLen
    || (|path| > 1 && path[1] == '/') || SiteRefused(s, badPort)
  }

  lemma SiteFree(s: Site)
    requires IsSite(s)
    ensures Free(SiteText(s), "/ ")
  {
  }

  /** How the search goes on behind host and port. */
  predicate SiteCut(buf: string, save: nat, host: nat, s: Site, path: string, c: Cut) {
    var hostEnd := host + |SiteText(s)|;
    && hostEnd < |buf| == |c.buf| && c.token == Some(host) && Terminated(c.buf)
    && hostEnd <= c.save && c.save + |Rest(path)| < |buf|
    && c.save + |Rest(path)| == hostEnd + |path| && CutWithin(buf, c.buf, save, hostEnd + |path|)
    && At(c.buf, host, SiteText(s)) && At(c.buf, c.save, Rest(path)) && Free(Rest(path), " ")
    && c.buf[hostEnd] == NUL && c.buf[c.save + |Rest(path)|] == NUL
    && CStr(c.buf, host) == SiteText(s)
  }

  /** All of host and port is cut off at the slash of the path. */
  lemma SiteToken(buf: string, save: nat, slashes: string, s: Site, path: string)
    requires Terminated(buf) && IsSite(s) && SiteText(s) != "" && All(slashes, "/")
    requires path != "" ==> path[0] == '/' && Free(path, " ")
    requires At(buf, save, slashes + (SiteText(s) + path))
    requires var end := save + |slashes| + |SiteText(s)| + |path|; end < |buf| && buf[end] == NUL
    ensures SiteCut(buf, save, save + |slashes|, s, path, Strtok(buf, save, "/"))
  {
    var host := save + |slashes|;
    SiteFree(s);
    AtSplit(buf, save, slashes, SiteText(s) + path);
    AtSplit(buf, host, SiteText(s), path);
    AllAt(buf, save, slashes, "/");
    hide At, Free, All, SiteText, Strtok, CStr, IsSite, SiteCut, Clean;
    SiteClean(buf, host, s);
    if path == "" {
      SiteLast(buf, save, host, s);
    } else {
      SiteFollowed(buf, save, host, s, path);
    }
  }

  lemma SiteClean(buf: string, host: nat, s: Site)
    requires At(buf, host, SiteText(s)) && IsSite(s)
    ensures Clean(buf, host, host + |SiteText(s)|, "/") && NUL !in SiteText(s)
  {
    SiteFree(s);
    assert Free(SiteText(s), "/");
    CleanAt(buf, host, SiteText(s), "/");
  }

  lemma SiteLast(buf: string, save: nat, host: nat, s: Site)
    requires Terminated(buf) && SiteText(s) != "" && NUL !in SiteText(s) && At(buf, host, SiteText(s))
    requires save <= host && forall i :: save <= i < host ==> buf[i] in "/"
    requires Clean(buf, host, host + |SiteText(s)|, "/")
    requires host + |SiteText(s)| < |buf| && buf[host + |SiteText(s)|] == NUL
    ensures SiteCut(buf, save, host, s, "", Strtok(buf, save, "/"))
  {
    hide SiteText, Strtok, CStr, Clean;
    EndToken(buf, save, host, host + |SiteText(s)|, "/");
    CStrAt(buf, host, SiteText(s));
  }

  lemma SiteFollowed(buf: string, save: nat, host: nat, s: Site, path: string)
    requires Terminated(buf) && SiteText(s) != "" && NUL !in SiteText(s) && At(buf, host, SiteText(s))
    requires save <= host && forall i :: save <= i < host ==> buf[i] in "/"
    requires Clean(buf, host, host + |SiteText(s)|, "/")
    requires path != "" && path[0] == '/' && Free(path, " ") && At(buf, host + |SiteText(s)|, path)
    requires var end := host + |SiteText(s)| + |path|; end < |buf| && buf[end] == NUL
    ensures SiteCut(buf, save, host, s, path, Strtok(buf, save, "/"))
  {
    hide SiteText, Strtok, CStr, Clean, At, Free, CutWithin;
    var hostEnd := host + |SiteText(s)|;
    var cut := buf[hostEnd := NUL];
    FirstIs(buf, hostEnd, path);
    TokenCut(buf, save, host, hostEnd, "/");
    AtTail(buf, hostEnd, path);
    FreeTail(path, " ");
    AtKept(buf, host, SiteText(s), hostEnd);
    AtKept(buf, hostEnd + 1, path[1..], hostEnd);
    CutOne(buf, hostEnd, save, hostEnd + |path|);
    CStrAt(cut, host, SiteText(s));
  }

  lemma HostVerdict(buf: string, save: nat, uriLen: nat, f: Fields, slashes: string, s: Site,
                    path: string, badPort: string -> bool)
    requires InBuffer(buf, f) && IsSite(s) && All(slashes, "/")
    requires path != "" ==> path[0] == '/' && Free(path, " ") && SiteText(s) != ""
    requires At(buf, save, slashes + (SiteText(s) + path))
    requires var end := save + |slashes| + |SiteText(s)| + |path|; end < |buf| && buf[end] == NUL
    ensures var r := ParseHost(buf, save, uriLen, f, badPort);
            var end := save + |slashes| + |SiteText(s)| + |path|;
            if HostRefused(s, path, uriLen, badPort) then r == Rejected
            else HostTaken(buf, r, f, s, path, save, end)
  {
    hide SiteText, Strtok, At, All, Free, IsSite, SiteCut, ParseHost, HostRefused, HostTaken;
    if SiteText(s) == "" {
      NoSite(buf, save, uriLen, f, slashes, s, path, badPort);
    } else {
      SiteToken(buf, save, slashes, s, path);
      SiteResult(buf, save, uriLen, f, save + |slashes|, s, path, Strtok(buf, save, "/"), badPort);
    }
  }

  lemma NoSite(buf: string, save: nat, uriLen: nat, f: Fields, slashes: string, s: Site,
               path: string, badPort: string -> bool)
    requires InBuffer(buf, f) && All(slashes, "/") && SiteText(s) == "" && path == ""
    requires At(buf, save, slashes + (SiteText(s) + path))
    requires save + |slashes| < |buf| && buf[save + |slashes|] == NUL
    ensures ParseHost(buf, save, uriLen, f, badPort) == Rejected
    ensures HostRefused(s, path, uriLen, badPort)
  {
    hide Strtok, At, All, ParsePath, SiteText;
    AtSplit(buf, save, slashes, SiteText(s) + path);
    AllAt(buf, save, slashes, "/");
    NoToken(buf, save, save + |slashes|, "/");
  }

  lemma SiteResult(buf: string, save: nat, uriLen: nat, f: Fields, host: nat, s: Site, path: string,
                   c: Cut, badPort: string -> bool)
    requires InBuffer(buf, f) && save <= host < |buf| && c == Strtok(buf, save, "/")
    requires IsSite(s) && SiteText(s) != "" && SiteCut(buf, save, host, s, path, c)
    ensures var r := ParseHost(buf, save, uriLen, f, badPort);
            if HostRefused(s, path, uriLen, badPort) then r == Rejected
            else HostTaken(buf, r, f, s, path, save, host + |SiteText(s)| + |path|)
  {
    hide SiteText, Strtok, CStr, At, Free, CutWithin, ParsePath, IsSite, SiteRefused;
    var hostEnd := host + |SiteText(s)|;
    var g := f.(host := host);
    PathVerdict(c.buf, c.save, g, s, Rest(path), hostEnd, badPort);
    var r := ParsePath(c.buf, c.save, g, badPort);
    if r.Accepted? {
      CutTwice(buf, c.buf, r.buf, save, hostEnd + |path|, host, hostEnd);
    }
  }

  // ------------------------------------------------------------------ the address

  lemma AddressFree(a: Pieces)
    requires ArePieces(a)
    ensures Free(AddressOf(a), " ")
  {
    SiteFree(a.site);
  }

  /** The buffer from the address to the version. */
  predicate AddressAt(buf: string, full: nat, version: nat, a: Pieces) {
    && Terminated(buf) && version + 5 < |buf|
    && At(buf, full, AddressOf(a)) && full + |AddressOf(a)| + 1 == version && buf[version - 1] == NUL
    && |CStr(buf, version)| >= 5
  }

  /** Where the protocol ends. */
  function ProtocolEnd(full: nat, a: Pieces): nat {
    full + |a.marks| + |a.protocol|
  }

  /** What is behind the protocol and its mark. */
  function Behind(a: Pieces): string {
    a.slashes + (SiteText(a.site) + a.path)
  }

  /** The pieces lie one behind the other. */
  lemma AddressPieces(buf: string, full: nat, a: Pieces)
    requires ArePieces(a) && At(buf, full, AddressOf(a))
    ensures forall k :: full <= k < full + |a.marks| ==> buf[k] in "://"
    ensures At(buf, full + |a.marks|, a.protocol)
    ensures Clean(buf, full + |a.marks|, ProtocolEnd(full, a), "://")
    ensures At(buf, ProtocolEnd(full, a), a.mark)
    ensures At(buf, ProtocolEnd(full, a) + |a.mark|, Behind(a))
    ensures NUL !in a.protocol
  {
    AtSplit(buf, full, a.marks, a.protocol + (a.mark + Behind(a)));
    AtSplit(buf, full + |a.marks|, a.protocol, a.mark + Behind(a));
    AtSplit(buf, ProtocolEnd(full, a), a.mark, Behind(a));
    AllAt(buf, full, a.marks, ":/");
    assert Free(a.protocol, "://");
    CleanAt(buf, full + |a.marks|, a.protocol, "://");
  }

  lemma MarkIs(a: Pieces)
    requires ArePieces(a) && a.mark != ""
    ensures |a.mark| == 1 && a.mark[0] in "://" && a.protocol != ""
    ensures |AddressOf(a)| == |a.marks| + |a.protocol| + 1 + |Behind(a)|
  {
    assert a.mark[0] in a.mark;
  }

  /** The protocol, cut off at its mark. */
  lemma ProtocolCut(buf: string, full: nat, a: Pieces)
    requires Terminated(buf) && ArePieces(a) && At(buf, full, AddressOf(a)) && a.mark != ""
    requires full + |AddressOf(a)| < |buf|
    ensures var m := ProtocolEnd(full, a);
            && m < |buf| && Strtok(buf, full, "://") == Cut(Some(full + |a.marks|), buf[m := NUL], m + 1)
            && At(buf[m := NUL], m + 1, Behind(a))
            && CStr(buf[m := NUL], full + |a.marks|) == a.protocol
  {
    hide At, Clean, Free, Strtok, CStr, AddressOf, Behind, ArePieces;
    var m := ProtocolEnd(full, a);
    AddressPieces(buf, full, a);
    MarkIs(a);
    FirstIs(buf, m, a.mark);
    TokenCut(buf, full, full + |a.marks|, m, "://");
    AtKept(buf, full + |a.marks|, a.protocol, m);
    AtKept(buf, m + 1, Behind(a), m);
    CStrAt(buf[m := NUL], full + |a.marks|, a.protocol);
  }

  /** The length that the host is compared with. */
  lemma UriLength(buf: string, full: nat, version: nat, a: Pieces)
    requires ArePieces(a) && AddressAt(buf, full, version, a) && SiteText(a.site) != ""
    ensures var cut := buf[ProtocolEnd(full, a) := NUL];
            full + |a.protocol| + 3 < |cut| && Terminated(cut)
            && (|SiteText(a.site)| == |CStr(cut, full + |a.protocol| + 3)| <==> Pathless(a))
  {
    var m, from := ProtocolEnd(full, a), full + |a.protocol| + 3;
    var cut := buf[m := NUL];
    AddressFree(a);
    CleanAt(buf, full, AddressOf(a), " ");
    hide At, Free, CStr, SiteText;
    assert |AddressOf(a)| == |a.marks| + |a.protocol| + 1 + |a.slashes| + |SiteText(a.site)| + |a.path|;
    if |a.marks| >= 3 {
      CStrLength(cut, from, m);
    } else if from < version {
      CStrLength(cut, from, version - 1);
    } else {
      CStrAcross(buf, cut, full, version - 1, version);
    }
  }

  /** The fields of a line that is taken. */
  function LineTaken(verb: string, a: Pieces, version: string): Line {
    Line(verb, a.protocol, a.site.host, PortOf(a.site), PathOf(a), version)
  }

  predicate Takes(r: LineResult, l: Line) {
    r.Accepted? && InBuffer(r.buf, r.fields) && AsLine(r.buf, r.fields) == l
  }

  lemma AddressVerdict(buf: string, verb: nat, full: nat, version: nat, a: Pieces,
                       badPort: string -> bool)
    requires ArePieces(a) && AddressAt(buf, full, version, a)
    requires verb <= full && verb + |CStr(buf, verb)| <= full && Until(buf, full, "") + 1 == version
    ensures var r := ParseAddress(buf, verb, full, version, badPort);
            if AddressRefused(a, badPort) then r == Rejected
            else Takes(r, LineTaken(CStr(buf, verb), a, CStr(buf, version)))
  {
    hide CStr, Until, At, Strtok, ParseAddress, Free, All, ParseHost, SiteText, Pathless, SiteRefused,
      IsSite, AddressOf, Takes, CutWithin;
    if a.mark == "" {
      ProtocolAlone(buf, verb, full, version, a, badPort);
    } else {
      MarkIs(a);
      ProtocolCut(buf, full, a);
      var m := ProtocolEnd(full, a);
      var cut := buf[m := NUL];
      AddressFollows(buf, verb, full, version, badPort, Strtok(buf, full, "://"));
      var f := Fields(verb, full + |a.marks|, 0, None, "", version);
      var uriLen := |CStr(cut, full + |a.protocol| + 3)|;
      HostVerdict(cut, m + 1, uriLen, f, a.slashes, a.site, a.path, badPort);
      AddressResult(buf, verb, full, version, a, ParseHost(cut, m + 1, uriLen, f, badPort), uriLen,
                    badPort);
    }
  }

  /** An address without a host. */
  lemma ProtocolAlone(buf: string, verb: nat, full: nat, version: nat, a: Pieces,
                      badPort: string -> bool)
    requires ArePieces(a) && AddressAt(buf, full, version, a) && a.mark == ""
    requires verb <= full && Until(buf, full, "") + 1 == version
    ensures ParseAddress(buf, verb, full, version, badPort) == Rejected
    ensures SiteText(a.site) == ""
  {
    var end := version - 1;
    AddressPieces(buf, full, a);
    hide CStr, Until, At, Strtok, ParseAddress, Free, All, ParseHost, IsSite, Clean;
    AddressFollows(buf, verb, full, version, badPort, Strtok(buf, full, "://"));
    if a.protocol == "" {
      NoToken(buf, full, end, "://");
    } else {
      EndToken(buf, full, full + |a.marks|, end, "://");
      NoHost(buf, end, |CStr(buf, full + |CStr(buf, full + |a.marks|)| + 3)|,
             Fields(verb, full + |a.marks|, 0, None, "", version), badPort);
    }
  }

  lemma NoHost(buf: string, end: nat, uriLen: nat, f: Fields, badPort: string -> bool)
    requires InBuffer(buf, f) && end < |buf| && buf[end] == NUL
    ensures ParseHost(buf, end, uriLen, f, badPort) == Rejected
  {
    TokenNone(buf, end, "/");
  }

  lemma AddressResult(buf: string, verb: nat, full: nat, version: nat, a: Pieces, r: LineResult,
                      uriLen: nat, badPort: string -> bool)
    requires ArePieces(a) && AddressAt(buf, full, version, a) && a.mark != ""
    requires verb < |buf| && verb + |CStr(buf, verb)| <= full && ProtocolEnd(full, a) < |buf|
    requires var cut := buf[ProtocolEnd(full, a) := NUL];
             && Terminated(cut) && full + |a.protocol| + 3 < |cut|
             && uriLen == |CStr(cut, full + |a.protocol| + 3)|
             && CStr(cut, full + |a.marks|) == a.protocol
             && if HostRefused(a.site, a.path, uriLen, badPort) then r == Rejected
                else HostTaken(cut, r, Fields(verb, full + |a.marks|, 0, None, "", version), a.site,
                               a.path, ProtocolEnd(full, a) + 1, version - 1)
    ensures if AddressRefused(a, badPort) then r == Rejected
            else Takes(r, LineTaken(CStr(buf, verb), a, CStr(buf, version)))
  {
    hide CStr, At, Free, All, SiteText, Pathless, SiteRefused, IsSite, AddressOf, CutWithin, HostTaken,
      Takes, LineTaken;
    if SiteText(a.site) != "" {
      UriLength(buf, full, version, a);
    }
    MarkIs(a);
    if !HostRefused(a.site, a.path, uriLen, badPort) {
      AddressTaken(buf, verb, full, version, a, r);
    }
  }

  lemma AddressTaken(buf: string, verb: nat, full: nat, version: nat, a: Pieces, r: LineResult)
    requires ArePieces(a) && AddressAt(buf, full, version, a) && a.mark != ""
    requires verb < |buf| && verb + |CStr(buf, verb)| <= full && ProtocolEnd(full, a) + 1 < version
    requires var cut := buf[ProtocolEnd(full, a) := NUL];
             && Terminated(cut) && CStr(cut, full + |a.marks|) == a.protocol
             && HostTaken(cut, r, Fields(verb, full + |a.marks|, 0, None, "", version), a.site, a.path,
                          ProtocolEnd(full, a) + 1, version - 1)
    ensures Takes(r, LineTaken(CStr(buf, verb), a, CStr(buf, version)))
  {
    hide CStr, At, Free, All, IsSite, AddressOf, CutWithin;
    var m := ProtocolEnd(full, a);
    var cut := buf[m := NUL];
    CutOne(buf, m, full, version - 1);
    CutTwice(buf, cut, r.buf, full, version - 1, m + 1, version - 1);
    CStrAcross(buf, r.buf, full, version - 1, verb);
    CStrAcross(buf, r.buf, full, version - 1, version);
    CStrAcross(cut, r.buf, m + 1, version - 1, full + |a.marks|);
    SlashBack(a.path);
  }

  lemma SlashBack(path: string)
    requires path != "" ==> path[0] == '/'
    ensures "/" + Rest(path) == if path == "" then "/" else path
  {
  }

  // ------------------------------------------------------------------ the line

  /** What is behind the address. */
  function VersionText(version: Option<string>): string {
    match version case None => "" case Some(v) => " " + v
  }

  /** The buffer behind the method, whose string has been cut off. */
  predicate UrlAt(buf: string, verb: nat, save: nat, full: nat, w: Words) {
    && Terminated(buf) && verb < save <= full < |buf| && verb + |w.verb| < save
    && CStr(buf, verb) == w.verb
    && (forall k :: save <= k < full ==> buf[k] in " ")
    && At(buf, full, w.address) && At(buf, full + |w.address|, VersionText(w.version))
    && full + |w.address| + |VersionText(w.version)| == |buf| - 1
  }

  /** What comes of a line. */
  predicate Verdict(r: LineResult, w: Words, a: Pieces, badPort: string -> bool) {
    if LineRefused(w, a, badPort) then r == Rejected
    else if w.version == None then r == Overread
    else Takes(r, LineTaken(w.verb, a, w.version.value))
  }

  lemma UrlVerdict(buf: string, verb: nat, save: nat, full: nat, w: Words, a: Pieces,
                   badPort: string -> bool)
    requires AreWords(w) && ArePieces(a) && AddressOf(a) == w.address && UrlAt(buf, verb, save, full, w)
    ensures Verdict(ParseUrl(buf, verb, save, badPort), w, a, badPort)
  {
    hide CStr, Until, At, Strtok, ParseAddress, Free, All, AddressOf, ArePieces, AddressRefused,
      StartsWith, LineTaken, Takes;
    if w.address == "" {
      NoToken(buf, save, full, " ");
    } else if w.version == None {
      AddressLast(buf, save, full, w);
    } else {
      AddressCut(buf, verb, save, full, w);
      var e := full + |w.address|;
      var cut := buf[e := NUL];
      if StartsWith(w.version.value, "HTTP/") {
        FiveLong(w.version.value);
        AddressVerdict(cut, verb, full, e + 1, a, badPort);
      }
    }
  }

  lemma FiveLong(version: string)
    requires StartsWith(version, "HTTP/")
    ensures |version| >= 5
  {
  }

  lemma AddressClean(buf: string, full: nat, w: Words)
    requires AreWords(w) && At(buf, full, w.address)
    ensures Clean(buf, full, full + |w.address|, " ") && Clean(buf, full, full + |w.address|, "")
  {
    CleanAt(buf, full, w.address, " ");
  }

  lemma AddressLast(buf: string, save: nat, full: nat, w: Words)
    requires AreWords(w) && At(buf, full, w.address) && w.address != "" && Terminated(buf)
    requires save <= full && full + |w.address| == |buf| - 1
    requires forall k :: save <= k < full ==> buf[k] in " "
    ensures Strtok(buf, save, " ") == Cut(Some(full), buf, |buf| - 1)
    ensures Until(buf, full, "") == |buf| - 1
  {
    AddressClean(buf, full, w);
    hide At, Strtok;
    EndToken(buf, save, full, |buf| - 1, " ");
    UntilIs(buf, full, "", |buf| - 1);
  }

  lemma AddressCut(buf: string, verb: nat, save: nat, full: nat, w: Words)
    requires AreWords(w) && UrlAt(buf, verb, save, full, w) && w.address != "" && w.version.Some?
    ensures var e := full + |w.address|;
            var cut := buf[e := NUL];
            && e + 1 < |buf| && Terminated(cut)
            && Strtok(buf, save, " ") == Cut(Some(full), cut, e + 1) && Until(cut, full, "") == e
            && At(cut, full, w.address) && CStr(cut, verb) == w.verb
            && CStr(cut, e + 1) == w.version.value && e + 1 + |w.version.value| == |buf| - 1
  {
    var e, v := full + |w.address|, w.version.value;
    var cut := buf[e := NUL];
    hide At, Strtok, CStr, Clean, AreWords;
    AddressClean(buf, full, w);
    AtSplit(buf, e, " ", v);
    FirstIs(buf, e, " ");
    TokenCut(buf, save, full, e, " ");
    AtKept(buf, full, w.address, e);
    AtKept(buf, e + 1, v, e);
    NoNul(w);
    CStrAt(cut, e + 1, v);
    CutOne(buf, e, e, e + 1);
    CStrAcross(buf, cut, e, e + 1, verb);
    CleanCut(buf, full, e);
    UntilOf(cut, full, e);
  }

  lemma NoNul(w: Words)
    requires AreWords(w) && w.version.Some?
    ensures NUL !in w.version.value
  {
  }

  lemma CleanCut(buf: string, lo: nat, hi: nat)
    requires Clean(buf, lo, hi, "") && hi < |buf|
    ensures Clean(buf[hi := NUL], lo, hi, "")
  {
  }

  lemma UntilOf(buf: string, lo: nat, hi: nat)
    requires Terminated(buf) && Clean(buf, lo, hi, "") && hi < |buf| && buf[hi] == NUL
    ensures Until(buf, lo, "") == hi
  {
    UntilIs(buf, lo, "", hi);
  }

  function GapAt(w: Words): nat { |w.lead| + |w.verb| }

  function FullAt(w: Words): nat { GapAt(w) + |w.gap| }

  /** The words lie one behind the other. */
  predicate LineAt(buf: string, w: Words) {
    && Terminated(buf) && FullAt(w) + |w.address| + |VersionText(w.version)| == |buf| - 1
    && (forall k :: 0 <= k < |w.lead| ==> buf[k] in " ") && At(buf, |w.lead|, w.verb)
    && (forall k :: GapAt(w) <= k < FullAt(w) ==> buf[k] in " ") && At(buf, FullAt(w), w.address)
    && At(buf, FullAt(w) + |w.address|, VersionText(w.version))
  }

  lemma WholeAt(s: string)
    ensures At(s + [NUL], 0, s)
  {
  }

  lemma LinePieces(w: Words)
    requires AreWords(w)
    ensures LineAt(LineOf(w) + [NUL], w)
  {
    hide AreWords, At, VersionText, All, Free;
    var buf := LineOf(w) + [NUL];
    Blanks(w);
    WholeAt(LineOf(w));
    var t3 := w.address + VersionText(w.version);
    AtSplit(buf, 0, w.lead, w.verb + (w.gap + t3));
    AtSplit(buf, |w.lead|, w.verb, w.gap + t3);
    AtSplit(buf, GapAt(w), w.gap, t3);
    AtSplit(buf, FullAt(w), w.address, VersionText(w.version));
    AllAt(buf, 0, w.lead, " ");
    AllAt(buf, GapAt(w), w.gap, " ");
  }

  lemma Blanks(w: Words)
    requires AreWords(w)
    ensures All(w.lead, " ") && All(w.gap, " ") && Free(w.verb, " ") && NUL !in w.verb
    ensures w.verb == "" || w.gap == "" ==> w.address == ""
    ensures w.verb == "" ==> w.gap == ""
  {
  }

  lemma LineNoNul(w: Words)
    requires AreWords(w)
    ensures NUL !in LineOf(w)
  {
  }

  /** What the parser makes of a line, told from its words and pieces. */
  lemma LineVerdict(w: Words, a: Pieces, badPort: string -> bool)
    requires AreWords(w) && ArePieces(a) && AddressOf(a) == w.address
    ensures NUL !in LineOf(w) && Verdict(ParseLine(LineOf(w), badPort), w, a, badPort)
  {
    hide CStr, Until, At, Strtok, Free, All, AddressOf, ArePieces, LineOf, Verdict, ParseUrl, LineAt,
      VersionText, ParseLine, AreWords, UrlAt;
    LineNoNul(w);
    LinePieces(w);
    var buf := LineOf(w) + [NUL];
    LineUnfolded(LineOf(w), Strtok(buf, 0, " "), badPort);
    Blanks(w);
    if w.verb == "" {
      BlankLine(buf, w);
      Nothing(Rejected, w, a, badPort);
    } else if w.gap == "" {
      OneWordLine(buf, w);
      NoUrl(buf, |w.lead|, GapAt(w), badPort);
      Nothing(Rejected, w, a, badPort);
    } else {
      VerbCut(buf, w);
      UrlVerdict(buf[GapAt(w) := NUL], |w.lead|, GapAt(w) + 1, FullAt(w), w, a, badPort);
    }
  }

  lemma LineUnfolded(line: string, c: Cut, badPort: string -> bool)
    requires NUL !in line && Terminated(line + [NUL]) && c == Strtok(line + [NUL], 0, " ")
    ensures c.token.Some? ==> Terminated(c.buf) && c.token.value < c.save < |c.buf|
    ensures ParseLine(line, badPort)
         == if c.token.None? then Rejected else ParseUrl(c.buf, c.token.value, c.save, badPort)
  {
    hide Strtok, ParseUrl;
  }

  lemma Nothing(r: LineResult, w: Words, a: Pieces, badPort: string -> bool)
    requires r == Rejected && w.address == ""
    ensures Verdict(r, w, a, badPort)
  {
  }

  lemma NoUrl(buf: string, verb: nat, save: nat, badPort: string -> bool)
    requires Terminated(buf) && verb < save < |buf| && Strtok(buf, save, " ").token.None?
    ensures ParseUrl(buf, verb, save, badPort) == Rejected
  {
  }

  lemma BlankLine(buf: string, w: Words)
    requires AreWords(w) && LineAt(buf, w) && w.verb == ""
    ensures Strtok(buf, 0, " ").token.None?
  {
    NoToken(buf, 0, |buf| - 1, " ");
  }

  lemma OneWordLine(buf: string, w: Words)
    requires AreWords(w) && LineAt(buf, w) && w.verb != "" && w.gap == ""
    ensures GapAt(w) == |buf| - 1 && Strtok(buf, 0, " ") == Cut(Some(|w.lead|), buf, GapAt(w))
    ensures Strtok(buf, GapAt(w), " ").token.None?
  {
    hide At, Strtok;
    Blanks(w);
    CleanAt(buf, |w.lead|, w.verb, " ");
    EndToken(buf, 0, |w.lead|, GapAt(w), " ");
    TokenNone(buf, GapAt(w), " ");
  }

  lemma VerbCut(buf: string, w: Words)
    requires AreWords(w) && LineAt(buf, w) && w.verb != "" && w.gap != ""
    ensures GapAt(w) + 1 < |buf|
            && Strtok(buf, 0, " ") == Cut(Some(|w.lead|), buf[GapAt(w) := NUL], GapAt(w) + 1)
            && UrlAt(buf[GapAt(w) := NUL], |w.lead|, GapAt(w) + 1, FullAt(w), w)
  {
    hide CStr, At, Strtok, VersionText, AreWords, All, Free;
    Blanks(w);
    var j := GapAt(w);
    CleanAt(buf, |w.lead|, w.verb, " ");
    TokenCut(buf, 0, |w.lead|, j, " ");
    AtKept(buf, |w.lead|, w.verb, j);
    AtKept(buf, FullAt(w), w.address, j);
    AtKept(buf, FullAt(w) + |w.address|, VersionText(w.version), j);
    CStrAt(buf[j := NUL], |w.lead|, w.verb);
  }

  // ------------------------------------------------------------------ every line can be taken apart

  /** As many of these characters as there are in front. */
  lemma Span(s: string, chars: string) returns (x: string, y: string)
    ensures s == x + y && All(x, chars) && (y != "" ==> y[0] !in chars)
  {
    if s == "" || s[0] !in chars {
      x, y := "", s;
    } else {
      x, y := Span(s[1..], chars);
      x := [s[0]] + x;
    }
  }

  /** Everything in front of the first of these characters. */
  lemma Word(s: string, chars: string) returns (x: string, y: string)
    ensures s == x + y && (y != "" ==> y[0] in chars)
    ensures forall c :: c in x ==> c !in chars
  {
    if s == "" || s[0] in chars {
      x, y := "", s;
    } else {
      x, y := Word(s[1..], chars);
      x := [s[0]] + x;
    }
  }

  lemma WordsOf(line: string) returns (w: Words)
    requires NUL !in line
    ensures AreWords(w) && LineOf(w) == line
  {
    var lead, r1 := Span(line, " ");
    var verb, r2 := Word(r1, " ");
    var gap, r3 := Span(r2, " ");
    var address, r4 := Word(r3, " ");
    w := Words(lead, verb, gap, address, if r4 == "" then None else Some(r4[1..]));
    assert r4 == VersionText(w.version);
  }

  lemma SiteOf(s: string) returns (site: Site)
    requires Free(s, "/ ")
    ensures IsSite(site) && SiteText(site) == s
  {
    var colons, r1 := Span(s, ":");
    var host, port := Word(r1, ":");
    FreeParts(s, colons, r1, "/ ");
    FreeParts(r1, host, port, "/ ");
    site := Site(colons, host, port);
  }

  lemma PiecesOf(address: string) returns (a: Pieces)
    requires Free(address, " ")
    ensures ArePieces(a) && AddressOf(a) == address
  {
    var marks, r1 := Span(address, ":/");
    var protocol, r2 := Word(r1, ":/");
    var mark := if r2 == "" then "" else r2[..1];
    var r3 := r2[|mark|..];
    assert r2 == mark + r3;
    var slashes, r4 := Span(r3, "/");
    var text, path := Word(r4, "/");
    FreeParts(address, marks, r1, " ");
    FreeParts(r1, protocol, r2, " ");
    FreeParts(r2, mark, r3, " ");
    FreeParts(r3, slashes, r4, " ");
    FreeParts(r4, text, path, " ");
    var site := SiteOf(text);
    a := Pieces(marks, protocol, mark, slashes, site, path);
  }

  lemma FreeParts(s: string, x: string, y: string, delims: string)
    requires Free(s, delims) && s == x + y
    ensures Free(x, delims) && Free(y, delims)
  {
    assert forall c :: c in x ==> c in s;
    assert forall c :: c in y ==> c in s;
  }

  // ------------------------------------------------------------------ the verdict

  /** The line is refused, however it is taken apart; there is one way. */
  ghost predicate RefusedLine(line: string, badPort: string -> bool) {
    exists w: Words, a: Pieces ::
      Apart(line, w, a) && LineRefused(w, a, badPort)
  }

  predicate Apart(line: string, w: Words, a: Pieces) {
    AreWords(w) && LineOf(w) == line && ArePieces(a) && AddressOf(a) == w.address
  }

  /** Exactly these lines are refused. */
  lemma RejectedExactly(line: string, badPort: string -> bool)
    requires NUL !in line
    ensures ParseLine(line, badPort) == Rejected <==> RefusedLine(line, badPort)
  {
    hide ParseLine, LineRefused, AreWords, LineOf, ArePieces, AddressOf;
    var w := WordsOf(line);
    WordsFree(w);
    var a := PiecesOf(w.address);
    assert Apart(line, w, a);
    LineVerdict(w, a, badPort);
    if RefusedLine(line, badPort) {
      var w', a' :| Apart(line, w', a') && LineRefused(w', a', badPort);
      LineVerdict(w', a', badPort);
    }
  }

  lemma WordsFree(w: Words)
    requires AreWords(w)
    ensures Free(w.address, " ")
  {
  }

  /** Exactly the others with a version are accepted, with these fields. */
  lemma AcceptedExactly(line: string, badPort: string -> bool, l: Line)
    requires NUL !in line
    ensures Takes(ParseLine(line, badPort), l)
            <==> exists w: Words, a: Pieces ::
                   Apart(line, w, a) && !LineRefused(w, a, badPort) && w.version.Some?
                   && l == LineTaken(w.verb, a, w.version.value)
  {
    hide ParseLine, LineRefused, AreWords, LineOf, ArePieces, AddressOf, LineTaken;
    var w := WordsOf(line);
    WordsFree(w);
    var a := PiecesOf(w.address);
    assert Apart(line, w, a);
    LineVerdict(w, a, badPort);
    if w', a' :| Apart(line, w', a') && !LineRefused(w', a', badPort) && w'.version.Some?
                 && l == LineTaken(w'.verb, a', w'.version.value) {
      LineVerdict(w', a', badPort);
    }
  }

  /** A line without a path is refused, with and without a port. */
  lemma MissingPath(verb: string, protocol: string, host: string, port: Option<string>,
                    version: string, badPort: string -> bool)
    requires verb != "" && Free(verb, " ") && protocol != "" && Free(protocol, ":/ ")
    requires host != "" && Free(host, ":/ ") && NUL !in version
    requires port.Some? ==> Free(port.value, "/ ")
    ensures var line := verb + " " + protocol + "://" + host + PortText(port) + " " + version;
            NUL !in line && ParseLine(line, badPort) == Rejected
  {
    hide ParseLine, Free, PortText;
    var site := Site("", host, PortText(port));
    PortPiece(port);
    assert All("//", "/") && All("", ":");
    RefusedPlain(verb, protocol, "//", site, "", version, badPort);
    SameLine(verb, protocol, host, PortText(port), version);
  }

  lemma SameLine(verb: string, protocol: string, host: string, port: string, version: string)
    ensures verb + " " + (protocol + ":" + "//" + SiteText(Site("", host, port)) + "") + " " + version
         == verb + " " + protocol + "://" + host + port + " " + version
  {
    assert SiteText(Site("", host, port)) == host + port;
    assert protocol + ":" + "//" + (host + port) + "" == protocol + "://" + host + port;
  }

  lemma PortPiece(port: Option<string>)
    requires port.Some? ==> Free(port.value, "/ ")
    ensures PortText(port) != "" ==> PortText(port)[0] == ':' && Free(PortText(port), "/ ")
  {
  }

  /** An address that starts with its protocol and a colon. */
  function Plain(protocol: string, slashes: string, site: Site, path: string): Pieces {
    Pieces("", protocol, ":", slashes, site, path)
  }

  lemma PlainAddress(verb: string, protocol: string, slashes: string, site: Site, path: string,
                     version: string)
    ensures AddressOf(Plain(protocol, slashes, site, path))
         == protocol + ":" + slashes + SiteText(site) + path
    ensures var address := protocol + ":" + slashes + SiteText(site) + path;
            LineOf(Words("", verb, " ", address, Some(version))) == verb + " " + address + " " + version
  {
  }

  /** It is refused if slashes and path come to two characters. */
  lemma RefusedPlain(verb: string, protocol: string, slashes: string, site: Site, path: string,
                     version: string, badPort: string -> bool)
    requires verb != "" && Free(verb, " ") && protocol != "" && Free(protocol, ":/ ")
    requires All(slashes, "/") && IsSite(site) && SiteText(site) != "" && NUL !in version
    requires path != "" ==> path[0] == '/' && Free(path, " ")
    requires |slashes| + |path| == 2
    ensures var line := verb + " " + (protocol + ":" + slashes + SiteText(site) + path) + " " + version;
            NUL !in line && ParseLine(line, badPort) == Rejected
  {
    hide ParseLine, Free, All, SiteText, AddressOf, LineOf, IsSite, ArePieces, AreWords, SiteRefused,
      StartsWith, PathOf;
    var a := Plain(protocol, slashes, site, path);
    var w := Words("", verb, " ", AddressOf(a), Some(version));
    PlainShape(verb, a, version);
    PlainAddress(verb, protocol, slashes, site, path, version);
    LineVerdict(w, a, badPort);
  }

  lemma PlainShape(verb: string, a: Pieces, version: string)
    requires verb != "" && Free(verb, " ") && a.protocol != "" && Free(a.protocol, ":/ ")
    requires All(a.slashes, "/") && IsSite(a.site) && SiteText(a.site) != "" && NUL !in version
    requires a.path != "" ==> a.path[0] == '/' && Free(a.path, " ")
    requires a.marks == "" && a.mark == ":"
    ensures ArePieces(a) && AreWords(Words("", verb, " ", AddressOf(a), Some(version)))
  {
    hide SiteText, IsSite;
    AddressFree(a);
    assert AddressOf(a) != "";
  }

  /** So is one whose path is just a slash, with one slash in front of its host. */
  lemma OneSlashShort(verb: string, protocol: string, host: string, version: string,
                      badPort: string -> bool)
    requires verb != "" && Free(verb, " ") && protocol != "" && Free(protocol, ":/ ")
    requires host != "" && Free(host, ":/ ") && NUL !in version
    ensures var line := verb + " " + protocol + ":/" + host + "/" + " " + version;
            NUL !in line && ParseLine(line, badPort) == Rejected
  {
    assert Free("/", " ");
    hide ParseLine, Free;
    var site := Site("", host, "");
    assert All("/", "/") && All("", ":");
    RefusedPlain(verb, protocol, "/", site, "/", version, badPort);
    SameShortLine(verb, protocol, host, version);
  }

  lemma SameShortLine(verb: string, protocol: string, host: string, version: string)
    ensures verb + " " + (protocol + ":" + "/" + SiteText(Site("", host, "")) + "/") + " " + version
         == verb + " " + protocol + ":/" + host + "/" + " " + version
  {
    assert SiteText(Site("", host, "")) == host;
    assert protocol + ":" + "/" + host + "/" == protocol + ":/" + host + "/";
  }

  /** And one with no slash at all is accepted. */
  lemma NoSlashes(verb: string, protocol: string, host: string, version: string,
                  badPort: string -> bool)
    requires verb != "" && Free(verb, " ") && protocol != "" && Free(protocol, ":/ ")
    requires host != "" && Free(host, ":/ ") && NUL !in version && StartsWith(version, "HTTP/")
    ensures var line := verb + " " + protocol + ":" + host + " " + version;
            NUL !in line
            && Takes(ParseLine(line, badPort), Line(verb, protocol, host, None, "/", version))
  {
    var line := verb + " " + protocol + ":" + host + " " + version;
    var a := Pieces("", protocol, ":", "", Site("", host, ""), "");
    var w := Words("", verb, " ", AddressOf(a), Some(version));
    assert AddressOf(a) == protocol + ":" + host;
    assert LineOf(w) == line;
    hide ParseLine, Takes;
    LineVerdict(w, a, badPort);
  }
}
