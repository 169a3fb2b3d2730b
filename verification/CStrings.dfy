/** Character buffers in the manner of C: a string runs from an offset up to the next zero,
    and `strtok_r` cuts tokens in place. */
module CStrings {
  import opened HeaderSpec
  import opened Options

  const NUL := '\0'

  /** The buffer ends with a zero, so that a string starts at each of its offsets. */
  predicate Terminated(buf: string) {
    buf != "" && buf[|buf| - 1] == NUL
  }

  /** The first offset, from `off` on, of a delimiter or the end of the string. */
  function Until(buf: string, off: nat, delims: string): (e: nat)
    requires Terminated(buf) && off < |buf|
    ensures off <= e < |buf|
    decreases |buf| - off
  {
    if buf[off] == NUL || buf[off] in delims then off else Until(buf, off + 1, delims)
  }

  lemma {:induction false} UntilFacts(buf: string, off: nat, delims: string)
    requires Terminated(buf) && off < |buf|
    ensures var e := Until(buf, off, delims); buf[e] == NUL || buf[e] in delims
    ensures forall i :: off <= i < Until(buf, off, delims) ==> buf[i] != NUL && buf[i] !in delims
    decreases |buf| - off
  {
    if buf[off] != NUL && buf[off] !in delims {
      UntilFacts(buf, off + 1, delims);
    }
  }

  lemma {:induction false} UntilIs(buf: string, off: nat, delims: string, e: nat)
    requires Terminated(buf) && off <= e < |buf|
    requires buf[e] == NUL || buf[e] in delims
    requires forall i :: off <= i < e ==> buf[i] != NUL && buf[i] !in delims
    ensures Until(buf, off, delims) == e
    decreases e - off
  {
    if off < e {
      UntilIs(buf, off + 1, delims, e);
    }
  }

  /** The first offset, from `off` on, that is not a delimiter. */
  function Skip(buf: string, off: nat, delims: string): (e: nat)
    requires Terminated(buf) && off < |buf| && NUL !in delims
    ensures off <= e < |buf|
    decreases |buf| - off
  {
    if buf[off] !in delims then off else Skip(buf, off + 1, delims)
  }

  lemma {:induction false} SkipFacts(buf: string, off: nat, delims: string)
    requires Terminated(buf) && off < |buf| && NUL !in delims
    ensures buf[Skip(buf, off, delims)] !in delims
    decreases |buf| - off
  {
    if buf[off] in delims {
      SkipFacts(buf, off + 1, delims);
    }
  }

  lemma {:induction false} SkipPassed(buf: string, off: nat, delims: string)
    requires Terminated(buf) && off < |buf| && NUL !in delims
    ensures forall i :: off <= i < Skip(buf, off, delims) ==> buf[i] in delims
    decreases |buf| - off
  {
    if buf[off] in delims {
      SkipPassed(buf, off + 1, delims);
    }
  }

  lemma {:induction false} SkipIs(buf: string, off: nat, delims: string, e: nat)
    requires Terminated(buf) && off <= e < |buf| && NUL !in delims
    requires buf[e] !in delims
    requires forall i :: off <= i < e ==> buf[i] in delims
    ensures Skip(buf, off, delims) == e
    decreases e - off
  {
    if off < e {
      SkipIs(buf, off + 1, delims, e);
    }
  }

  lemma {:induction false} SkipWithin(buf: string, start: nat, delims: string, end: nat)
    requires Terminated(buf) && start <= end < |buf| && buf[end] == NUL && NUL !in delims
    ensures Skip(buf, start, delims) <= end
    decreases end - start
  {
    if start < end {
      SkipWithin(buf, start + 1, delims, end);
    }
  }

  /** The C string at an offset. */
  function CStr(buf: string, off: nat): (s: string)
    requires Terminated(buf) && off < |buf|
    ensures NUL !in s && off + |s| < |buf|
  {
    UntilFacts(buf, off, "");
    buf[off..Until(buf, off, "")]
  }

  /** The outcome of one `strtok_r`: where the token starts, the buffer after the cut, and
      where the next search starts. */
  datatype Cut = Cut(token: Option<nat>, buf: string, save: nat)

  function Strtok(buf: string, start: nat, delims: string): (c: Cut)
    requires Terminated(buf) && start < |buf| && NUL !in delims
    ensures Terminated(c.buf) && |c.buf| == |buf| && start <= c.save < |buf|
    ensures c.token.Some? ==> start <= c.token.value < c.save
  {
    var t := Skip(buf, start, delims);
    SkipFacts(buf, start, delims);
    if buf[t] == NUL then Cut(None, buf, t)
    else
      var e := Until(buf, t, delims);
      UntilFacts(buf, t, delims);
      if buf[e] == NUL then Cut(Some(t), buf, e)
      else Cut(Some(t), buf[e := NUL], e + 1)
  }

  /** A cut writes zeros only, and none in front of where it starts. */
  lemma StrtokKeeps(buf: string, start: nat, delims: string)
    requires Terminated(buf) && start < |buf| && NUL !in delims
    ensures forall i :: 0 <= i < |buf| ==>
              Strtok(buf, start, delims).buf[i] == buf[i]
              || Strtok(buf, start, delims).buf[i] == NUL
    ensures forall i :: 0 <= i < start ==> Strtok(buf, start, delims).buf[i] == buf[i]
  {
  }

  // ------------------------------------------------------- pieces of a buffer

  /** No character of `s` ends or separates. */
  predicate Free(s: string, delims: string) {
    forall c :: c in s ==> c != NUL && c !in delims
  }

  /** The piece `s` lies at offset `i`. */
  predicate At(buf: string, i: nat, s: string) {
    i + |s| <= |buf| && buf[i..i + |s|] == s
  }

  /** Nothing from `lo` up to `hi` ends or separates. */
  predicate Clean(buf: string, lo: nat, hi: nat, delims: string) {
    lo <= hi <= |buf| && forall i :: lo <= i < hi ==> buf[i] != NUL && buf[i] !in delims
  }

  lemma AtIndex(buf: string, i: nat, s: string, j: nat)
    requires At(buf, i, s) && j < |s|
    ensures i + j < |buf| && buf[i + j] == s[j]
  {
    assert buf[i..i + |s|][j] == s[j];
  }

  lemma CleanAt(buf: string, i: nat, s: string, delims: string)
    requires At(buf, i, s) && Free(s, delims)
    ensures Clean(buf, i, i + |s|, delims)
  {
    forall k | i <= k < i + |s|
      ensures buf[k] != NUL && buf[k] !in delims
    {
      assert buf[k] == buf[i..i + |s|][k - i] == s[k - i];
      assert s[k - i] in s;
    }
  }

  /** A zero written elsewhere does no harm. */
  lemma AtKept(buf: string, i: nat, s: string, k: nat)
    requires At(buf, i, s) && k < |buf| && (k < i || i + |s| <= k)
    ensures At(buf[k := NUL], i, s)
  {
  }

  /** A token that starts at `t`, behind delimiters, and ends at a delimiter: it is cut off. */
  lemma TokenCut(buf: string, start: nat, t: nat, e: nat, delims: string)
    requires Terminated(buf) && start <= t < e < |buf| && NUL !in delims
    requires forall i :: start <= i < t ==> buf[i] in delims
    requires Clean(buf, t, e, delims) && buf[e] in delims
    ensures Strtok(buf, start, delims) == Cut(Some(t), buf[e := NUL], e + 1)
  {
    SkipIs(buf, start, delims, t);
    UntilIs(buf, t, delims, e);
  }

  /** A token that runs up to the end of the string: nothing is cut. */
  lemma TokenLast(buf: string, t: nat, e: nat, delims: string)
    requires Terminated(buf) && t < e < |buf| && NUL !in delims
    requires Clean(buf, t, e, delims) && buf[e] == NUL
    ensures Strtok(buf, t, delims) == Cut(Some(t), buf, e)
  {
    SkipIs(buf, t, delims, t);
    UntilIs(buf, t, delims, e);
  }

  lemma TokenNone(buf: string, t: nat, delims: string)
    requires Terminated(buf) && t < |buf| && NUL !in delims && buf[t] == NUL
    ensures Strtok(buf, t, delims) == Cut(None, buf, t)
  {
    SkipIs(buf, t, delims, t);
  }

  lemma CStrAt(buf: string, i: nat, s: string)
    requires Terminated(buf) && At(buf, i, s) && NUL !in s
    requires i + |s| < |buf| && buf[i + |s|] == NUL
    ensures CStr(buf, i) == s
  {
    CleanAt(buf, i, s, "");
    UntilIs(buf, i, "", i + |s|);
  }

  lemma CStrLength(buf: string, lo: nat, hi: nat)
    requires Terminated(buf) && hi < |buf| && Clean(buf, lo, hi, "") && buf[hi] == NUL
    ensures Until(buf, lo, "") == hi && |CStr(buf, lo)| == hi - lo
  {
    UntilIs(buf, lo, "", hi);
  }

  // ------------------------------------------------------- cuts

  /** `b` is `a` with zeros written between `lo` and `hi`. */
  predicate CutWithin(a: string, b: string, lo: nat, hi: nat) {
    |a| == |b| && forall i :: 0 <= i < |a| ==> b[i] == a[i] || (lo <= i < hi && b[i] == NUL)
  }

  lemma CutTwice(a: string, b: string, c: string, lo: nat, hi: nat, lo': nat, hi': nat)
    requires CutWithin(a, b, lo, hi) && CutWithin(b, c, lo', hi')
    requires lo <= lo' && hi' <= hi
    ensures CutWithin(a, c, lo, hi)
  {
  }

  /** A string that the cuts do not reach. */
  lemma CStrAcross(a: string, b: string, lo: nat, hi: nat, off: nat)
    requires CutWithin(a, b, lo, hi) && Terminated(a) && Terminated(b) && off < |a|
    requires off + |CStr(a, off)| <= lo || hi <= off
    ensures CStr(b, off) == CStr(a, off)
  {
    UntilFacts(a, off, "");
    UntilIs(b, off, "", Until(a, off, ""));
  }

  // ------------------------------------------------------- searching

  predicate CrlfAt(s: string, i: nat) {
    i + 1 < |s| && s[i] == '\r' && s[i + 1] == '\n'
  }

  /** `strstr` for the end of a line; the length of the string if there is none. */
  function FindCrlf(s: string, from: nat): (i: nat)
    requires from <= |s|
    ensures from <= i <= |s|
    ensures i < |s| ==> CrlfAt(s, i)
    decreases |s| - from
  {
    if from == |s| || CrlfAt(s, from) then from else FindCrlf(s, from + 1)
  }

  lemma {:induction false} FindCrlfIs(s: string, from: nat, i: nat)
    requires from <= i && CrlfAt(s, i)
    ensures FindCrlf(s, from) <= i
    ensures (forall j :: from <= j < i ==> !CrlfAt(s, j)) ==> FindCrlf(s, from) == i
    decreases i - from
  {
    if from < i && !CrlfAt(s, from) {
      FindCrlfIs(s, from + 1, i);
    }
  }

  /** `strstr` for the end of the header. */
  predicate HasEndOfHeader(s: string) {
    exists i :: 0 <= i < |s| && CrlfAt(s, i) && CrlfAt(s, i + 2)
  }

  lemma EndOfHeaderLine(s: string)
    requires HasEndOfHeader(s)
    ensures CrlfAt(s, FindCrlf(s, 0))
  {
    var i :| 0 <= i < |s| && CrlfAt(s, i) && CrlfAt(s, i + 2);
    FindCrlfIs(s, 0, i);
  }

  /** `index`; the length of the string if the character is not there. */
  function FindChar(s: string, c: char, from: nat): (i: nat)
    requires from <= |s|
    ensures from <= i <= |s|
    decreases |s| - from
  {
    if from == |s| || s[from] == c then from else FindChar(s, c, from + 1)
  }

  lemma {:induction false} FindCharIs(s: string, c: char, from: nat, i: nat)
    requires from <= i < |s| && s[i] == c
    requires forall j :: from <= j < i ==> s[j] != c
    ensures FindChar(s, c, from) == i
    decreases i - from
  {
    if from < i {
      FindCharIs(s, c, from + 1, i);
    }
  }

  lemma {:induction false} FindCharFacts(s: string, c: char, from: nat)
    requires from <= |s|
    ensures FindChar(s, c, from) < |s| ==> s[FindChar(s, c, from)] == c
    ensures forall j :: from <= j < FindChar(s, c, from) ==> s[j] != c
    decreases |s| - from
  {
    if from < |s| && s[from] != c {
      FindCharFacts(s, c, from + 1);
    }
  }

  lemma {:induction false} FindCrlfFacts(s: string, from: nat)
    requires from <= |s|
    ensures forall j :: from <= j < FindCrlf(s, from) ==> !CrlfAt(s, j)
    decreases |s| - from
  {
    if from < |s| && !CrlfAt(s, from) {
      FindCrlfFacts(s, from + 1);
    }
  }

  predicate NoCrlf(s: string) {
    forall i :: 0 <= i < |s| ==> !CrlfAt(s, i)
  }

  /** A line without a line end of its own ends where its CRLF is. */
  lemma FindCrlfAt(all: string, i: nat, s: string)
    requires At(all, i, s) && NoCrlf(s) && CrlfAt(all, i + |s|)
    ensures FindCrlf(all, i) == i + |s|
    ensures s != "" ==> !CrlfAt(all, i)
  {
    forall j | i <= j < i + |s|
      ensures !CrlfAt(all, j)
    {
      AtIndex(all, i, s, j - i);
      if j + 1 < i + |s| {
        AtIndex(all, i, s, j + 1 - i);
      }
      assert !CrlfAt(s, j - i);
    }
    FindCrlfIs(all, i, i + |s|);
  }

  lemma FindCharAt(all: string, i: nat, s: string, c: char)
    requires At(all, i, s) && c !in s && i + |s| < |all| && all[i + |s|] == c
    ensures FindChar(all, c, i) == i + |s|
  {
    forall j | i <= j < i + |s|
      ensures all[j] != c
    {
      AtIndex(all, i, s, j - i);
    }
    FindCharIs(all, c, i, i + |s|);
  }
}
