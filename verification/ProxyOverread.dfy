/** Exactly which requests make the parser read behind its buffer. */
module ProxyOverread {
  import opened HeaderSpec
  import opened Options
  import opened CStrings
  import opened ProxyHeaders
  import opened ProxyRoundTrip
  import opened ProxySpec
  import opened ProxyVerdict

  // ------------------------------------------------------------------ the request line

  predicate AllBlank(line: string, lo: nat, hi: nat) {
    lo <= hi <= |line| && forall i :: lo <= i < hi ==> line[i] == ' '
  }

  predicate NoBlank(line: string, lo: nat, hi: nat) {
    lo <= hi <= |line| && forall i :: lo <= i < hi ==> line[i] != ' '
  }

  /** Blanks, a word from `i` to `j`, blanks, and a word from `k` to the end. */
  predicate TwoWords(line: string, i: nat, j: nat, k: nat) {
    && i < j < k < |line|
    && AllBlank(line, 0, i) && NoBlank(line, i, j)
    && AllBlank(line, j, k) && NoBlank(line, k, |line|)
  }

  /** The line ends with the address: there is no version, not even a blank in front of one. */
  ghost predicate EndsInAddress(line: string) {
    exists i: nat, j: nat, k: nat :: TwoWords(line, i, j, k)
  }

  /** The words of such a line. */
  lemma WordsThere(line: string, i: nat, j: nat, k: nat) returns (w: Words)
    requires NUL !in line && TwoWords(line, i, j, k)
    ensures AreWords(w) && LineOf(w) == line && w.address != "" && w.version == None
  {
    w := Words(line[..i], line[i..j], line[j..k], line[k..], None);
    assert line[k..] + "" == line[k..] && line[j..k] + line[k..] == line[j..];
    assert line[i..j] + line[j..] == line[i..] && line[..i] + line[i..] == line;
    hide LineOf;
    assert w.verb[0] == line[i];
  }

  lemma WordsLast(w: Words)
    requires AreWords(w) && w.address != "" && w.version == None
    ensures EndsInAddress(LineOf(w))
  {
    hide LineOf, At, All, Free;
    var line := LineOf(w);
    var buf := line + [NUL];
    LinePieces(w);
    Blanks(w);
    WordsFree(w);
    CleanAt(buf, |w.lead|, w.verb, " ");
    CleanAt(buf, FullAt(w), w.address, " ");
    assert forall x :: 0 <= x < |line| ==> line[x] == buf[x];
    assert TwoWords(line, |w.lead|, GapAt(w), FullAt(w));
  }

  /** Behind the line the code reads exactly when the line ends with the address. */
  lemma LineOverread(line: string, badPort: string -> bool)
    requires NUL !in line
    ensures ParseLine(line, badPort).Overread? <==> EndsInAddress(line)
  {
    hide ParseLine, AreWords, LineOf, ArePieces, AddressOf, TwoWords, Free;
    var w := WordsOf(line);
    WordsFree(w);
    var a := PiecesOf(w.address);
    LineVerdict(w, a, badPort);
    if ParseLine(line, badPort).Overread? {
      WordsLast(w);
    }
    if i: nat, j: nat, k: nat :| TwoWords(line, i, j, k) {
      var w' := WordsThere(line, i, j, k);
      WordsFree(w');
      var a' := PiecesOf(w'.address);
      LineVerdict(w', a', badPort);
    }
  }

  /** For instance a method and an address, and nothing behind it. */
  lemma MissingVersion(verb: string, address: string, badPort: string -> bool)
    requires verb != "" && Free(verb, " ") && address != "" && Free(address, " ")
    ensures NUL !in verb + " " + address
    ensures ParseLine(verb + " " + address, badPort).Overread?
  {
    var line := verb + " " + address;
    var j := |verb|;
    assert forall x :: 0 <= x < j ==> line[x] == verb[x] && verb[x] in verb;
    assert forall x :: 0 <= x < |address| ==> line[j + 1 + x] == address[x] && address[x] in address;
    assert NoBlank(line, 0, j);
    assert forall x :: j < x < |line| ==> line[x] == address[x - j - 1];
    assert TwoWords(line, 0, j, j + 1);
    LineOverread(line, badPort);
  }

  // ------------------------------------------------------------------ the headers

  /** The first empty line from `i` on: where the line end in front of it is. */
  function EmptyLine(s: string, i: nat): (e: nat)
    requires i <= |s|
    ensures i <= e <= |s|
    decreases |s| - i
  {
    if i == |s| || (CrlfAt(s, i) && CrlfAt(s, i + 2)) then i else EmptyLine(s, i + 1)
  }

  lemma {:induction false} EmptyLineFacts(s: string, i: nat)
    requires i <= |s|
    ensures var e := EmptyLine(s, i); e < |s| ==> CrlfAt(s, e) && CrlfAt(s, e + 2)
    ensures forall j :: i <= j < EmptyLine(s, i) && CrlfAt(s, j) ==> !CrlfAt(s, j + 2)
    decreases |s| - i
  {
    if i < |s| && !(CrlfAt(s, i) && CrlfAt(s, i + 2)) {
      EmptyLineFacts(s, i + 1);
    }
  }

  /** Where the line starts that `i` is on. */
  function LineStart(s: string, i: nat): (l: nat)
    ensures l <= i
  {
    if i < 2 || CrlfAt(s, i - 2) then i else LineStart(s, i - 1)
  }

  lemma {:induction false} LineStartFacts(s: string, i: nat, cur: nat)
    requires 2 <= cur <= i && CrlfAt(s, cur - 2)
    ensures var l := LineStart(s, i);
            cur <= l && (l == cur || (exists x :: cur <= x < i && CrlfAt(s, x) && l == x + 2))
    ensures forall x :: LineStart(s, i) - 1 <= x < i - 1 ==> !CrlfAt(s, x)
    decreases i - cur
  {
    if !CrlfAt(s, i - 2) {
      LineStartFacts(s, i - 1, cur);
    }
  }

  predicate NoLineEnd(s: string, i: nat) {
    forall j :: i <= j < |s| ==> !CrlfAt(s, j)
  }

  /** No line end is found from `i` on, neither in the text nor, if `i` is behind the zero that ends
      it, in the string there. */
  predicate NoValue(s: string, beyond: Option<string>, i: nat) {
    if i <= |s| then NoLineEnd(s, i) else beyond.None? || NoLineEnd(beyond.value, 0)
  }

  /** The last line in front of the empty one has no colon; there is one behind the empty line, but
      no line end two or more characters behind that. */
  predicate ColonBehind(s: string, beyond: Option<string>, empty: nat)
    requires empty <= |s|
  {
    var colon := FindChar(s, ':', LineStart(s, empty));
    empty < colon < |s| && NoValue(s, beyond, colon + 2)
  }

  /** There are headers, and the value of the last one is missing in this way. */
  predicate ValueMissing(s: string, beyond: Option<string>) {
    var line := FindCrlf(s, 0);
    var empty := EmptyLine(s, line);
    line < empty && ColonBehind(s, beyond, empty)
  }

  /** The lines from the request line up to the first empty line. */
  predicate HeaderLines(s: string, line: nat, empty: nat) {
    && line <= empty && CrlfAt(s, empty) && CrlfAt(s, empty + 2)
    && forall j :: line <= j < empty && CrlfAt(s, j) ==> !CrlfAt(s, j + 2)
  }

  lemma NoLineEndIs(s: string, i: nat)
    requires i <= |s|
    ensures NoLineEnd(s, i) <==> FindCrlf(s, i) == |s|
  {
    FindCrlfFacts(s, i);
  }

  lemma NoValueIs(s: string, beyond: Option<string>, i: nat)
    requires i <= |s| + 1
    ensures NoValue(s, beyond, i) <==> ValueAt(s, beyond, i).None?
  {
    if i <= |s| {
      NoLineEndIs(s, i);
    } else if beyond.Some? {
      NoLineEndIs(beyond.value, 0);
    }
  }

  /** A colon in front of the empty line has its value. */
  lemma ColonInFront(s: string, beyond: Option<string>, line: nat, empty: nat, cur: nat)
    requires HeaderLines(s, line, empty) && line + 2 <= cur < empty && CrlfAt(s, cur - 2)
    requires FindChar(s, ':', cur) < empty
    ensures HasHeader(s, beyond, cur)
    ensures FindCrlf(s, cur) == empty ==> !ColonBehind(s, beyond, empty)
  {
    var colon := FindChar(s, ':', cur);
    FindCrlfIs(s, colon + 2, empty + 2);
    if FindCrlf(s, cur) == empty {
      FindCrlfFacts(s, cur);
      LineStartFacts(s, empty, cur);
    }
  }

  /** If no line from `cur` on has a colon, the first one behind the empty line decides. */
  lemma ColonFar(s: string, beyond: Option<string>, line: nat, empty: nat, cur: nat)
    requires HeaderLines(s, line, empty) && line + 2 <= cur < empty && CrlfAt(s, cur - 2)
    requires FindChar(s, ':', cur) >= empty
    ensures var colon := FindChar(s, ':', cur);
            && (ColonBehind(s, beyond, empty) <==> colon < |s| && NoValue(s, beyond, colon + 2))
            && (colon < |s| ==> (HasHeader(s, beyond, cur) <==> !NoValue(s, beyond, colon + 2)))
  {
    LineStartFacts(s, empty, cur);
    SameColon(s, cur, LineStart(s, empty));
    FindCharFacts(s, ':', cur);
    if FindChar(s, ':', cur) < |s| {
      NoValueIs(s, beyond, FindChar(s, ':', cur) + 2);
    }
  }

  /** What one pass of the header loop does, as far as it matters here. */
  lemma OnePass(s: string, beyond: Option<string>, cur: nat, list: seq<(string, string)>)
    requires cur < |s| && !CrlfAt(s, cur) && FindCrlf(s, cur) < |s|
    ensures var colon := FindChar(s, ':', cur);
            if HasHeader(s, beyond, cur)
            then ParseHeaders(s, beyond, cur, list)
                 == ParseHeaders(s, beyond, FindCrlf(s, cur) + 2,
                                 Set(list, HeaderOf(s, beyond, cur).0, HeaderOf(s, beyond, cur).1))
            else (ParseHeaders(s, beyond, cur, list).HeaderOverread? <==> colon < |s|)
  {
    hide FindCrlf, FindChar, Set, ValueAt;
  }

  /** Where the reading stops, the line behind the last colon decides; the last line that has a
      colon of its own has its value. */
  lemma LineOutcome(s: string, beyond: Option<string>, line: nat, empty: nat, cur: nat)
    requires HeaderLines(s, line, empty) && line + 2 <= cur < empty && CrlfAt(s, cur - 2)
    ensures if HasHeader(s, beyond, cur)
            then FindCrlf(s, cur) == empty ==> !ColonBehind(s, beyond, empty)
            else ColonBehind(s, beyond, empty) <==> FindChar(s, ':', cur) < |s|
  {
    if FindChar(s, ':', cur) < empty {
      ColonInFront(s, beyond, line, empty, cur);
    } else {
      ColonFar(s, beyond, line, empty, cur);
    }
  }

  lemma LinesEnd(s: string, beyond: Option<string>, line: nat, empty: nat, cur: nat,
                 list: seq<(string, string)>)
    requires HeaderLines(s, line, empty) && line + 2 <= cur && empty <= cur <= empty + 2
    requires CrlfAt(s, cur - 2)
    ensures cur <= |s| && ParseHeaders(s, beyond, cur, list) == HeadersOk(list)
  {
  }

  lemma LineStep(s: string, line: nat, empty: nat, cur: nat)
    requires HeaderLines(s, line, empty) && line + 2 <= cur < empty && CrlfAt(s, cur - 2)
    ensures cur < |s| && !CrlfAt(s, cur) && CrlfAt(s, FindCrlf(s, cur))
    ensures cur <= FindCrlf(s, cur) <= empty && FindCrlf(s, cur) + 2 <= |s|
    ensures FindCrlf(s, cur) + 2 < empty <==> FindCrlf(s, cur) != empty
  {
    FindCrlfIs(s, cur, empty);
    FindCrlfFacts(s, cur);
  }

  lemma {:induction false} LinesOverread(s: string, beyond: Option<string>, line: nat, empty: nat,
                                         cur: nat, list: seq<(string, string)>)
    requires HeaderLines(s, line, empty) && line + 2 <= cur <= empty + 2 && CrlfAt(s, cur - 2)
    ensures ParseHeaders(s, beyond, cur, list).HeaderOverread?
            <==> cur < empty && ColonBehind(s, beyond, empty)
    decreases |s| - cur
  {
    hide ColonBehind, Set, HasHeader, ParseHeaders, HeaderOf, CrlfAt, HeaderLines, FindChar;
    if cur >= empty {
      LinesEnd(s, beyond, line, empty, cur, list);
    } else {
      LineStep(s, line, empty, cur);
      LineOutcome(s, beyond, line, empty, cur);
      OnePass(s, beyond, cur, list);
      if HasHeader(s, beyond, cur) {
        var next := Set(list, HeaderOf(s, beyond, cur).0, HeaderOf(s, beyond, cur).1);
        LinesOverread(s, beyond, line, empty, FindCrlf(s, cur) + 2, next);
      }
    }
  }

  lemma EmptyLineExists(s: string, line: nat)
    requires HasEndOfHeader(s) && line == FindCrlf(s, 0)
    ensures CrlfAt(s, line) && HeaderLines(s, line, EmptyLine(s, line))
  {
    EndOfHeaderLine(s);
    EmptyLineFacts(s, line);
    FindCrlfFacts(s, 0);
    var i :| 0 <= i < |s| && CrlfAt(s, i) && CrlfAt(s, i + 2);
    EmptyLineFound(s, line, i);
  }

  lemma {:induction false} EmptyLineFound(s: string, i: nat, j: nat)
    requires i <= j && CrlfAt(s, j) && CrlfAt(s, j + 2)
    ensures EmptyLine(s, i) <= j
    decreases j - i
  {
    if i < j && !(CrlfAt(s, i) && CrlfAt(s, i + 2)) {
      EmptyLineFound(s, i + 1, j);
    }
  }

  /** Behind the text the code reads exactly when a value is missing. */
  lemma HeadersOverread(s: string, beyond: Option<string>, list: seq<(string, string)>)
    requires HasEndOfHeader(s)
    ensures FindCrlf(s, 0) + 2 <= |s|
    ensures ParseHeaders(s, beyond, FindCrlf(s, 0) + 2, list).HeaderOverread?
            <==> ValueMissing(s, beyond)
  {
    var line := FindCrlf(s, 0);
    EmptyLineExists(s, line);
    LinesOverread(s, beyond, line, EmptyLine(s, line), line + 2, list);
  }

  /** A header without a colon, and nothing but a colon behind the empty line. */
  function LoneColon(line: string, name: string): string {
    line + "\r\n" + name + "\r\n" + "\r\n" + ":"
  }

  lemma LoneColonParts(line: string, name: string)
    requires NoCrlf(line) && NoCrlf(name) && name != "" && ':' !in name
    ensures var s := LoneColon(line, name);
            var start := |line| + 2;
            var empty := start + |name|;
            && |s| == empty + 5 && s[..|line|] == line && FindCrlf(s, 0) == |line|
            && FindCrlf(s, start) == empty && FindChar(s, ':', start) == empty + 4
            && CrlfAt(s, |line|) && CrlfAt(s, empty) && CrlfAt(s, empty + 2) && !CrlfAt(s, start)
            && s[start..empty + 4] == name + "\r\n\r\n"
  {
    var s := LoneColon(line, name);
    var start, empty := |line| + 2, |line| + 2 + |name|;
    assert At(s, 0, line) && CrlfAt(s, |line|);
    assert At(s, start, name) && CrlfAt(s, empty) && CrlfAt(s, empty + 2);
    FindCrlfAt(s, 0, line);
    FindCrlfAt(s, start, name);
    assert At(s, start, name + "\r\n\r\n");
    FindCharAt(s, start, name + "\r\n\r\n", ':');
  }

  /** For instance such a text, if its copy ends there. */
  lemma MissingValue(line: string, name: string)
    requires NoCrlf(line) && NoCrlf(name) && name != "" && ':' !in name
    ensures ValueMissing(LoneColon(line, name), None)
  {
    LoneColonParts(line, name);
    hide LoneColon;
    OneLine(LoneColon(line, name), |line|, |line| + 2 + |name|);
  }

  lemma OneLine(s: string, line: nat, empty: nat)
    requires CrlfAt(s, line) && line + 2 < empty && FindCrlf(s, line + 2) == empty
    requires CrlfAt(s, empty) && CrlfAt(s, empty + 2)
    ensures EmptyLine(s, line) == empty && LineStart(s, empty) == line + 2
  {
    FindCrlfFacts(s, line + 2);
    EmptyLineFound(s, line, empty);
    EmptyLineFacts(s, line);
    LineStartFacts(s, empty, line + 2);
  }

  // ------------------------------------------------------------------ the whole call

  /** When a call reads behind one of its buffers: the request line ends with the address, or the
      line is accepted and the last header has no value. */
  ghost predicate Overreads(raw: string, badPort: string -> bool) {
    var s := Text(raw);
    && MIN_REQ_LEN <= |raw| <= MAX_REQ_LEN && HasEndOfHeader(s)
    && var line := s[..FindCrlf(s, 0)];
       EndsInAddress(line)
       || (NUL !in line && ParseLine(line, badPort).Accepted?
           && ValueMissing(s, Beyond(raw + [NUL])))
  }

  lemma TextUndefined(s: string, beyond: Option<string>, list: seq<(string, string)>,
                      badPort: string -> bool)
    requires NUL !in s && HasEndOfHeader(s)
    ensures var line := s[..FindCrlf(s, 0)];
            && NUL !in line && FindCrlf(s, 0) + 2 <= |s|
            && (ParseText(s, beyond, list, badPort).Undefined?
                <==> ParseLine(line, badPort).Overread?
                     || (ParseLine(line, badPort).Accepted?
                         && ParseHeaders(s, beyond, FindCrlf(s, 0) + 2, list).HeaderOverread?))
  {
    hide ParseLine, ParseHeaders, FindCrlf, HasEndOfHeader;
    EndOfHeaderLine(s);
  }

  lemma UndefinedExactly(raw: string, list: seq<(string, string)>, badPort: string -> bool)
    ensures Parse(raw, list, badPort).Undefined? <==> Overreads(raw, badPort)
  {
    var s, beyond := Text(raw), Beyond(raw + [NUL]);
    if MIN_REQ_LEN <= |raw| <= MAX_REQ_LEN && HasEndOfHeader(s) {
      hide Text, Beyond, ParseText, ParseLine, ParseHeaders, FindCrlf, HasEndOfHeader, EndsInAddress,
        ValueMissing;
      TextUndefined(s, beyond, list, badPort);
      LineOverread(s[..FindCrlf(s, 0)], badPort);
      HeadersOverread(s, beyond, list);
    }
  }

  /** A whole call that does: a method and an address, and the empty line. */
  lemma NoVersion(verb: string, address: string, list: seq<(string, string)>,
                  badPort: string -> bool)
    requires verb != "" && Free(verb, " ") && address != "" && Free(address, " ")
    requires NoCrlf(verb + " " + address) && |verb + " " + address| + 4 <= MAX_REQ_LEN
    ensures Parse(verb + " " + address + "\r\n\r\n", list, badPort).Undefined?
  {
    var line := verb + " " + address;
    var s := line + "\r\n\r\n";
    MissingVersion(verb, address, badPort);
    LineOverread(line, badPort);
    assert CrlfAt(s, |line|) && CrlfAt(s, |line| + 2);
    assert At(s, 0, line);
    FindCrlfAt(s, 0, line);
    assert s[..|line|] == line;
    assert NUL !in s;
    WholeText(s);
    hide EndsInAddress, CrlfAt;
    UndefinedExactly(s, list, badPort);
  }

  lemma WholeText(s: string)
    requires NUL !in s
    ensures Text(s) == s
  {
    assert At(s + [NUL], 0, s);
    CStrAt(s + [NUL], 0, s);
  }

  lemma ValueBehind(s: string, beyond: string, value: string)
    requires beyond == value + "\r\n" && NoCrlf(value)
    ensures ValueAt(s, Some(beyond), |s| + 1) == Some(value)
  {
    assert At(beyond, 0, value) && CrlfAt(beyond, |value|);
    FindCrlfAt(beyond, 0, value);
    assert beyond[..|value|] == value;
  }

  /** What such a text is read as, when there is a line end in the string behind it. */
  lemma LoneColonRead(line: string, name: string, beyond: string, value: string)
    requires NoCrlf(line) && NoCrlf(name) && name != "" && ':' !in name
    requires beyond == value + "\r\n" && NoCrlf(value)
    ensures var s := LoneColon(line, name);
            ParseHeaders(s, Some(beyond), |line| + 2, [])
            == HeadersOk([(name + "\r\n\r\n", value)])
  {
    var s := LoneColon(line, name);
    var start, colon := |line| + 2, |line| + 2 + |name| + 4;
    LoneColonParts(line, name);
    ValueBehind(s, beyond, value);
    hide LoneColon, FindCrlf, FindChar, ValueAt, Set;
    HeadersStop(s, Some(beyond), LineBehind(s, start), Set([], s[start..colon], value));
  }

  lemma LoneColonText(line: string, name: string)
    requires NoCrlf(line) && NoCrlf(name) && name != "" && ':' !in name
    ensures HasEndOfHeader(LoneColon(line, name))
  {
    LoneColonParts(line, name);
    assert CrlfAt(LoneColon(line, name), |line| + 2 + |name|);
  }

  lemma LineFacts(l: Line)
    requires GoodLine(l)
    ensures NUL !in Address(l) && NoCrlf(Address(l))
  {
    AddressNul(l);
  }

  lemma LoneColonNul(line: string, name: string)
    requires NUL !in line && NUL !in name
    ensures NUL !in LoneColon(line, name) && |LoneColon(line, name)| >= MIN_REQ_LEN
  {
  }

  /** A whole call that reads behind its copy for the value. */
  lemma NoValueThere(l: Line, name: string, list: seq<(string, string)>, badPort: string -> bool)
    requires GoodLine(l) && PortAccepted(l, badPort)
    requires NoCrlf(name) && name != "" && ':' !in name && NUL !in name
    requires |LoneColon(Address(l), name)| <= MAX_REQ_LEN
    ensures Parse(LoneColon(Address(l), name), list, badPort).Undefined?
  {
    hide GoodLine, Address, LoneColon, ParseLine, ValueMissing, HasEndOfHeader, Text, Beyond, NoCrlf,
      AsLine, FindCrlf, FindChar, CrlfAt;
    var line, raw := Address(l), LoneColon(Address(l), name);
    LineFacts(l);
    ParseLineGood(l, badPort);
    LoneColonNul(line, name);
    WholeText(raw);
    BeyondNone(raw);
    LoneColonParts(line, name);
    LoneColonText(line, name);
    MissingValue(line, name);
    UndefinedExactly(raw, list, badPort);
  }

  lemma BeyondNone(raw: string)
    requires Text(raw) == raw
    ensures Beyond(raw + [NUL]) == None
  {
  }

  lemma BeyondZero(s: string, t: string)
    requires NUL !in s && NUL !in t
    ensures Text(s + [NUL] + t) == s && Beyond(s + [NUL] + t + [NUL]) == Some(t)
  {
    var copy := s + [NUL] + t + [NUL];
    assert At(copy, 0, s) && At(copy, |s| + 1, t);
    CStrAt(copy, 0, s);
    CStrAt(copy, |s| + 1, t);
  }

  lemma TextParsed(raw: string, s: string, beyond: Option<string>, list: seq<(string, string)>,
                   badPort: string -> bool)
    requires MIN_REQ_LEN <= |raw| <= MAX_REQ_LEN && HasEndOfHeader(s)
    requires Text(raw) == s && Beyond(raw + [NUL]) == beyond
    ensures Parse(raw, list, badPort) == ParseText(s, beyond, list, badPort)
  {
    hide Text, Beyond, HasEndOfHeader, ParseText;
  }

  /** With a zero behind the colon, and a line end behind the zero, the call stays inside its copy:
      it steps over the zero, and the request is accepted. */
  lemma ZeroSteppedOver(l: Line, name: string, value: string, badPort: string -> bool)
    requires GoodLine(l) && PortAccepted(l, badPort)
    requires NoCrlf(name) && name != "" && ':' !in name && NUL !in name
    requires NoCrlf(value) && NUL !in value
    requires |LoneColon(Address(l), name)| + |value| + 3 <= MAX_REQ_LEN
    ensures var r := Parse(LoneColon(Address(l), name) + [NUL] + (value + "\r\n"), [], badPort);
            && r.Parsed? && AsLine(r.buf, r.fields) == l
            && r.list == [(name + "\r\n\r\n", value)]
  {
    hide GoodLine, Address, LoneColon, ParseLine, ParseHeaders, HasEndOfHeader, Text, Beyond, NoCrlf,
      AsLine, FindCrlf, FindChar, CrlfAt, Parse;
    var line, s, beyond := Address(l), LoneColon(Address(l), name), value + "\r\n";
    LineFacts(l);
    ParseLineGood(l, badPort);
    LoneColonNul(line, name);
    BeyondZero(s, beyond);
    LoneColonParts(line, name);
    LoneColonText(line, name);
    LoneColonRead(line, name, beyond, value);
    TextParsed(s + [NUL] + beyond, s, Some(beyond), [], badPort);
  }
}
