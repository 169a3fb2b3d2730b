/** What reading header lines leaves behind, for every text; and exactly which lists of headers
    come back when they are printed and read again. */
module ProxyHeaders {
  import opened HeaderSpec
  import opened Options
  import opened CStrings
  import opened ProxySpec

  // ------------------------------------------------------------------ keys over line ends

  /** The keys that are set from one colon: the whole text in front of it, and then what follows
      each line end in it, up to an empty line. */
  function Chain(key: string): (keys: seq<string>)
    ensures keys != [] && keys[0] == key
    decreases |key|
  {
    var p := FindCrlf(key, 0);
    if p == |key| || CrlfAt(key, p + 2) then [key] else [key] + Chain(key[p + 2..])
  }

  /** An empty line in front of the colon ends the headers. */
  predicate Stops(key: string)
    decreases |key|
  {
    var p := FindCrlf(key, 0);
    p < |key| && (CrlfAt(key, p + 2) || Stops(key[p + 2..]))
  }

  /** All of these keys are set, one after the other, to the same value. */
  function Taken(list: seq<(string, string)>, key: string, value: string): seq<(string, string)>
    decreases |key|
  {
    var first := Set(list, key, value);
    var p := FindCrlf(key, 0);
    if p == |key| || CrlfAt(key, p + 2) then first else Taken(first, key[p + 2..], value)
  }

  lemma {:induction false} TakenDistinct(list: seq<(string, string)>, key: string, value: string)
    requires DistinctKeys(list)
    ensures DistinctKeys(Taken(list, key, value))
    decreases |key|
  {
    SetThenGet(list, key, value, key);
    var p := FindCrlf(key, 0);
    if p < |key| && !CrlfAt(key, p + 2) {
      TakenDistinct(Set(list, key, value), key[p + 2..], value);
    }
  }

  /** The line end that a text has first, seen in front of a colon and in all of the text. */
  lemma KeyLineEnd(s: string, cur: nat, colon: nat)
    requires cur <= colon < |s| && s[colon] == ':'
    ensures var p := FindCrlf(s[cur..colon], 0);
            FindCrlf(s, cur) == if p < colon - cur then cur + p else FindCrlf(s, colon)
  {
    var key := s[cur..colon];
    var p := FindCrlf(key, 0);
    FindCrlfFacts(key, 0);
    forall j | cur <= j < cur + p
      ensures !CrlfAt(s, j)
    {
      if CrlfAt(s, j) {
        assert CrlfAt(key, j - cur);
      }
    }
    if p < |key| {
      FindCrlfIs(s, cur, cur + p);
    } else {
      SkipLines(s, cur, colon);
    }
  }

  lemma {:induction false} SkipLines(s: string, i: nat, j: nat)
    requires i <= j <= |s| && forall k :: i <= k < j ==> !CrlfAt(s, k)
    ensures FindCrlf(s, i) == FindCrlf(s, j)
    decreases j - i
  {
    if i < j {
      SkipLines(s, i + 1, j);
    }
  }

  lemma {:induction false} SameColon(s: string, i: nat, j: nat)
    requires i <= |s| && i <= j <= FindChar(s, ':', i)
    ensures FindChar(s, ':', j) == FindChar(s, ':', i)
    decreases j - i
  {
    if i < j {
      SameColon(s, i + 1, j);
    }
  }

  /** There is a colon behind `cur`, and a value behind the colon. */
  predicate HasHeader(s: string, beyond: Option<string>, cur: nat) {
    && cur < |s| && !CrlfAt(s, cur)
    && FindChar(s, ':', cur) < |s|
    && ValueAt(s, beyond, FindChar(s, ':', cur) + 2).Some?
  }

  function HeaderOf(s: string, beyond: Option<string>, cur: nat): (string, string)
    requires HasHeader(s, beyond, cur)
  {
    var colon := FindChar(s, ':', cur);
    (s[cur..colon], ValueAt(s, beyond, colon + 2).value)
  }

  /** Where reading goes on when the whole chain has been set. */
  function NextLine(s: string, cur: nat): nat
    requires cur < |s| && FindChar(s, ':', cur) < |s|
  {
    LineBehind(s, FindChar(s, ':', cur))
  }

  lemma NextLineFacts(s: string, cur: nat)
    requires cur < |s| && FindChar(s, ':', cur) < |s|
    ensures cur < NextLine(s, cur) <= |s|
    ensures s[FindChar(s, ':', cur)] == ':'
  {
    FindCharFacts(s, ':', cur);
  }

  /** One pass of the header loop: the next line start is behind the first line end, which may
      lie in the key. */
  lemma HeaderTaken(s: string, beyond: Option<string>, cur: nat, list: seq<(string, string)>)
    requires HasHeader(s, beyond, cur)
    ensures var (key, value) := HeaderOf(s, beyond, cur);
            var p := FindCrlf(key, 0);
            var next := if p < |key| then cur + p + 2 else NextLine(s, cur);
            && next <= |s|
            && ParseHeaders(s, beyond, cur, list)
               == ParseHeaders(s, beyond, next, Set(list, key, value))
  {
    hide FindChar, FindCrlf, Set, ValueAt, CrlfAt;
    NextLineFacts(s, cur);
    KeyLineEnd(s, cur, FindChar(s, ':', cur));
  }

  lemma HeaderThere(s: string, beyond: Option<string>, cur: nat)
    requires HasHeader(s, beyond, cur)
    ensures cur < |s| && FindChar(s, ':', cur) < |s|
  {
  }

  /** Reading from one line start up to the line behind the colon. */
  lemma {:induction false} ChainRead(s: string, beyond: Option<string>, cur: nat,
                                     list: seq<(string, string)>)
    requires HasHeader(s, beyond, cur)
    ensures NextLine(s, cur) <= |s|
    ensures var (key, value) := HeaderOf(s, beyond, cur);
            ParseHeaders(s, beyond, cur, list)
            == if Stops(key) then HeadersOk(Taken(list, key, value))
               else ParseHeaders(s, beyond, NextLine(s, cur), Taken(list, key, value))
    decreases |s| - cur
  {
    hide ParseHeaders, HasHeader, HeaderOf, NextLine, Set, FindChar, FindCrlf, Stops, Taken, CrlfAt,
      ValueAt, LineBehind, Chain;
    HeaderThere(s, beyond, cur);
    var (key, value) := HeaderOf(s, beyond, cur);
    NextLineFacts(s, cur);
    HeaderTaken(s, beyond, cur, list);
    ChainStep(list, key, value);
    var p := FindCrlf(key, 0);
    if p < |key| {
      if CrlfAt(key, p + 2) {
        KeyLineStart(s, beyond, cur, p);
        HeadersStop(s, beyond, cur + p + 2, Set(list, key, value));
      } else {
        SameHeader(s, beyond, cur, p);
        ChainRead(s, beyond, cur + p + 2, Set(list, key, value));
      }
    }
  }

  lemma ChainStep(list: seq<(string, string)>, key: string, value: string)
    ensures var p := FindCrlf(key, 0);
            var first := Set(list, key, value);
            if p == |key| then !Stops(key) && Taken(list, key, value) == first
            else && p + 2 <= |key| && CrlfAt(key, p)
                 && if CrlfAt(key, p + 2) then Stops(key) && Taken(list, key, value) == first
                    else Stops(key) == Stops(key[p + 2..])
                         && Taken(list, key, value) == Taken(first, key[p + 2..], value)
  {
  }

  lemma KeyLineStart(s: string, beyond: Option<string>, cur: nat, p: nat)
    requires HasHeader(s, beyond, cur) && CrlfAt(HeaderOf(s, beyond, cur).0, p)
    requires CrlfAt(HeaderOf(s, beyond, cur).0, p + 2)
    ensures CrlfAt(s, cur + p + 2)
  {
    NextLineFacts(s, cur);
    KeyBehind(s, cur, FindChar(s, ':', cur), p);
  }

  lemma HeadersStop(s: string, beyond: Option<string>, cur: nat, list: seq<(string, string)>)
    requires CrlfAt(s, cur)
    ensures ParseHeaders(s, beyond, cur, list) == HeadersOk(list)
  {
  }

  /** Behind a line end in the key the colon and the value are the same. */
  lemma SameHeader(s: string, beyond: Option<string>, cur: nat, p: nat)
    requires HasHeader(s, beyond, cur) && CrlfAt(HeaderOf(s, beyond, cur).0, p)
    requires !CrlfAt(HeaderOf(s, beyond, cur).0, p + 2)
    ensures var next := cur + p + 2;
            && HasHeader(s, beyond, next) && NextLine(s, next) == NextLine(s, cur)
            && HeaderOf(s, beyond, next)
               == (HeaderOf(s, beyond, cur).0[p + 2..], HeaderOf(s, beyond, cur).1)
  {
    var colon := FindChar(s, ':', cur);
    NextLineFacts(s, cur);
    KeyBehind(s, cur, colon, p);
    SameColon(s, cur, cur + p + 2);
    hide FindCrlf, FindChar;
  }

  lemma KeyBehind(s: string, cur: nat, colon: nat, p: nat)
    requires cur <= colon < |s| && s[colon] == ':' && CrlfAt(s[cur..colon], p)
    ensures cur + p + 2 <= colon && s[cur + p + 2..colon] == s[cur..colon][p + 2..]
    ensures CrlfAt(s[cur..colon], p + 2) <==> CrlfAt(s, cur + p + 2)
  {
  }

  // ------------------------------------------------------------------ lists without some keys

  /** The headers with none of these keys. */
  function Except(list: seq<(string, string)>, keys: seq<string>): seq<(string, string)> {
    if list == [] then []
    else (if list[0].0 in keys then [] else [list[0]]) + Except(list[1..], keys)
  }

  lemma {:induction false} ExceptHas(list: seq<(string, string)>, keys: seq<string>, key: string)
    ensures HasKey(Except(list, keys), key) <==> HasKey(list, key) && key !in keys
  {
    if list != [] {
      ExceptHas(list[1..], keys, key);
      HasNext(list, key);
      var rest := Except(list[1..], keys);
      if list[0].0 in keys {
        assert Except(list, keys) == rest;
      } else {
        assert Except(list, keys)[1..] == rest;
        HasNext(Except(list, keys), key);
      }
    }
  }

  lemma HasNext(list: seq<(string, string)>, key: string)
    requires list != []
    ensures HasKey(list, key) <==> list[0].0 == key || HasKey(list[1..], key)
  {
    if HasKey(list[1..], key) {
      var i :| 0 <= i < |list[1..]| && list[1..][i].0 == key;
      assert list[i + 1].0 == key;
    }
    if HasKey(list, key) && list[0].0 != key {
      var i :| 0 <= i < |list| && list[i].0 == key;
      assert list[1..][i - 1].0 == key;
    }
  }

  lemma HasAppend(a: seq<(string, string)>, b: seq<(string, string)>, key: string)
    ensures HasKey(a + b, key) <==> HasKey(a, key) || HasKey(b, key)
  {
    if HasKey(a, key) {
      var i :| 0 <= i < |a| && a[i].0 == key;
      assert (a + b)[i].0 == key;
    }
    if HasKey(b, key) {
      var i :| 0 <= i < |b| && b[i].0 == key;
      assert (a + b)[|a| + i].0 == key;
    }
  }

  lemma {:induction false} ExceptAppend(a: seq<(string, string)>, b: seq<(string, string)>,
                                        keys: seq<string>)
    ensures Except(a + b, keys) == Except(a, keys) + Except(b, keys)
  {
    if a == [] {
      assert a + b == b;
    } else {
      assert (a + b)[1..] == a[1..] + b;
      ExceptAppend(a[1..], b, keys);
    }
  }

  lemma {:induction false} ExceptTwice(list: seq<(string, string)>, a: seq<string>, b: seq<string>)
    ensures Except(Except(list, a), b) == Except(list, a + b)
  {
    if list != [] {
      ExceptTwice(list[1..], a, b);
      var rest := Except(list[1..], a);
      assert list[0].0 in a + b <==> list[0].0 in a || list[0].0 in b;
      if list[0].0 in a {
        assert Except(list, a) == rest;
      } else {
        assert Except(list, a) == [list[0]] + rest;
        assert ([list[0]] + rest)[1..] == rest;
      }
    }
  }

  lemma {:induction false} ExceptSame(list: seq<(string, string)>, a: seq<string>, b: seq<string>)
    requires forall key :: key in a <==> key in b
    ensures Except(list, a) == Except(list, b)
  {
    if list != [] {
      ExceptSame(list[1..], a, b);
    }
  }

  /** No header of these keys: nothing is left out. */
  lemma {:induction false} ExceptNone(list: seq<(string, string)>, keys: seq<string>)
    requires forall i :: 0 <= i < |list| ==> list[i].0 !in keys
    ensures Except(list, keys) == list
  {
    if list != [] {
      ExceptNone(list[1..], keys);
    }
  }

  lemma {:induction false} RemoveIsExcept(list: seq<(string, string)>, key: string)
    requires DistinctKeys(list)
    ensures Remove(list, key) == Except(list, [key])
  {
    if list != [] {
      var rest := list[1..];
      assert forall i :: 0 <= i < |rest| ==> rest[i] == list[i + 1];
      if list[0].0 == key {
        ExceptNone(rest, [key]);
      } else {
        RemoveIsExcept(rest, key);
      }
    }
  }

  /** Headers of these keys with one value. */
  function Same(keys: seq<string>, value: string): (list: seq<(string, string)>)
    ensures |list| == |keys|
  {
    if keys == [] then [] else [(keys[0], value)] + Same(keys[1..], value)
  }

  lemma {:induction false} SameAt(keys: seq<string>, value: string, i: nat)
    requires i < |keys|
    ensures Same(keys, value)[i] == (keys[i], value)
  {
    if i > 0 {
      SameAt(keys[1..], value, i - 1);
    }
  }

  lemma SameHas(keys: seq<string>, value: string, key: string)
    requires key in keys
    ensures HasKey(Same(keys, value), key)
  {
    var i :| 0 <= i < |keys| && keys[i] == key;
    SameAt(keys, value, i);
    assert Same(keys, value)[i].0 == key;
  }

  lemma {:induction false} ExceptSameKeys(keys: seq<string>, value: string, without: seq<string>)
    requires forall key :: key in keys ==> key in without
    ensures Except(Same(keys, value), without) == []
  {
    if keys != [] {
      assert Same(keys, value)[1..] == Same(keys[1..], value);
      ExceptSameKeys(keys[1..], value, without);
    }
  }

  lemma {:induction false} ChainShorter(key: string, other: string)
    requires other in Chain(key)
    ensures |other| <= |key| && (other == key || |other| < |key|)
    decreases |key|
  {
    var p := FindCrlf(key, 0);
    if other != key {
      ChainShorter(key[p + 2..], other);
    }
  }

  lemma SetIs(list: seq<(string, string)>, key: string, value: string)
    requires DistinctKeys(list)
    ensures Set(list, key, value) == Except(list, [key]) + [(key, value)]
    ensures DistinctKeys(Set(list, key, value))
  {
    RemoveIsExcept(list, key);
    SetThenGet(list, key, value, key);
  }

  lemma SetBefore(list: seq<(string, string)>, key: string, value: string, keys: seq<string>)
    requires key !in keys
    ensures Except(Except(list, [key]) + [(key, value)], keys) + Same(keys, value)
         == Except(list, [key] + keys) + Same([key] + keys, value)
  {
    ExceptAppend(Except(list, [key]), [(key, value)], keys);
    ExceptTwice(list, [key], keys);
    ExceptNone([(key, value)], keys);
    SameNext(key, keys, value);
    hide Except, Same;
    Regroup(Except(list, [key] + keys), [(key, value)], Same(keys, value));
  }

  /** What the steps of a chain come to: its keys go to the end, all with the value. */
  lemma {:induction false} TakenIs(list: seq<(string, string)>, key: string, value: string)
    requires DistinctKeys(list)
    ensures Taken(list, key, value) == Except(list, Chain(key)) + Same(Chain(key), value)
    decreases |key|
  {
    var p := FindCrlf(key, 0);
    ChainStep(list, key, value);
    SetIs(list, key, value);
    SameOne(key, value);
    if p < |key| && !CrlfAt(key, p + 2) {
      var q := key[p + 2..];
      assert Chain(key) == [key] + Chain(q);
      hide Taken, Except, Same, Set, Chain;
      TakenIs(Set(list, key, value), q, value);
      KeyNotBehind(key, q);
      SetBefore(list, key, value, Chain(q));
    }
  }

  lemma SameOne(key: string, value: string)
    ensures Same([key], value) == [(key, value)]
  {
  }

  lemma KeyNotBehind(key: string, q: string)
    requires |q| < |key|
    ensures key !in Chain(q)
  {
    if key in Chain(q) {
      ChainShorter(q, key);
    }
  }

  lemma SameNext(key: string, keys: seq<string>, value: string)
    ensures Same([key] + keys, value) == [(key, value)] + Same(keys, value)
  {
    assert ([key] + keys)[1..] == keys;
  }

  // ------------------------------------------------------------------ lists that come back

  /** Every key that is set together with a header's is the key of a later one; and if reading
      stops at a header, those are all that follow, with its value.  No key starts with a line
      end. */
  predicate Rereadable(list: seq<(string, string)>) {
    list == []
    || (var (key, value) := list[0];
        && !CrlfAt(key, 0) && Followed(key, list[1..])
        && (Stops(key) ==> list[1..] == Same(Chain(key)[1..], value))
        && Rereadable(list[1..]))
  }

  predicate Followed(key: string, rest: seq<(string, string)>) {
    forall other :: other in Chain(key)[1..] ==> HasKey(rest, other)
  }

  predicate Unstopped(list: seq<(string, string)>) {
    forall i :: 0 <= i < |list| ==> !Stops(list[i].0)
  }

  lemma ConsRereadable(h: (string, string), rest: seq<(string, string)>)
    requires Rereadable(rest) && !CrlfAt(h.0, 0) && !Stops(h.0)
    requires Followed(h.0, rest)
    ensures Rereadable([h] + rest)
  {
    hide CrlfAt, Stops, Followed;
    var all := [h] + rest;
    assert all[1..] == rest && all[0] == h;
  }

  lemma RereadableParts(list: seq<(string, string)>)
    requires Rereadable(list) && Unstopped(list) && list != []
    ensures Rereadable(list[1..]) && Unstopped(list[1..])
    ensures !CrlfAt(list[0].0, 0) && !Stops(list[0].0)
    ensures Followed(list[0].0, list[1..])
  {
    var rest := list[1..];
    assert forall i :: 0 <= i < |rest| ==> rest[i] == list[i + 1];
  }

  lemma HasJoined(rest: seq<(string, string)>, keys: seq<string>, tail: seq<(string, string)>,
                  other: string)
    requires HasKey(rest, other) && (other in keys ==> HasKey(tail, other))
    ensures HasKey(Except(rest, keys) + tail, other)
  {
    ExceptHas(rest, keys, other);
    HasAppend(Except(rest, keys), tail, other);
  }

  lemma FollowedJoined(key: string, rest: seq<(string, string)>, keys: seq<string>,
                       tail: seq<(string, string)>)
    requires Followed(key, rest) && forall other :: other in keys ==> HasKey(tail, other)
    ensures Followed(key, Except(rest, keys) + tail)
  {
    forall other | other in Chain(key)[1..]
      ensures HasKey(Except(rest, keys) + tail, other)
    {
      HasJoined(rest, keys, tail, other);
    }
  }

  lemma ExceptStep(list: seq<(string, string)>, keys: seq<string>, tail: seq<(string, string)>)
    requires list != []
    ensures Except(list, keys) + tail
         == if list[0].0 in keys then Except(list[1..], keys) + tail
            else [list[0]] + (Except(list[1..], keys) + tail)
  {
    var h, rest := list[0], Except(list[1..], keys);
    ExceptHead(list, keys);
    hide Except;
    Regroup([h], rest, tail);
  }

  lemma ExceptHead(list: seq<(string, string)>, keys: seq<string>)
    requires list != []
    ensures Except(list, keys)
         == if list[0].0 in keys then Except(list[1..], keys)
            else [list[0]] + Except(list[1..], keys)
  {
    assert [] + Except(list[1..], keys) == Except(list[1..], keys);
  }

  lemma Regroup(a: seq<(string, string)>, b: seq<(string, string)>, c: seq<(string, string)>)
    ensures (a + b) + c == a + (b + c)
  {
  }

  /** A chain behind headers that are complete. */
  lemma {:induction false} JoinRereadable(list: seq<(string, string)>, keys: seq<string>,
                                          tail: seq<(string, string)>)
    requires Rereadable(list) && Unstopped(list) && Rereadable(tail)
    requires forall key :: key in keys ==> HasKey(tail, key)
    ensures Rereadable(Except(list, keys) + tail)
  {
    if list == [] {
      assert Except(list, keys) + tail == tail;
    } else {
      hide Rereadable, Unstopped, HasKey, CrlfAt, Stops, Followed, Except;
      var h, rest := list[0], list[1..];
      RereadableParts(list);
      JoinRereadable(rest, keys, tail);
      ExceptStep(list, keys, tail);
      if h.0 !in keys {
        var joined := Except(rest, keys) + tail;
        FollowedJoined(h.0, rest, keys, tail);
        ConsRereadable(h, joined);
      }
    }
  }

  lemma {:induction false} ChainRereadable(key: string, value: string)
    requires !CrlfAt(key, 0)
    ensures Rereadable(Same(Chain(key), value))
    decreases |key|
  {
    var list := Same(Chain(key), value);
    assert list[1..] == Same(Chain(key)[1..], value);
    forall other | other in Chain(key)[1..]
      ensures HasKey(list[1..], other)
    {
      SameHas(Chain(key)[1..], value, other);
    }
    var p := FindCrlf(key, 0);
    if p < |key| && !CrlfAt(key, p + 2) {
      assert Chain(key)[1..] == Chain(key[p + 2..]);
      ChainRereadable(key[p + 2..], value);
    }
  }

  lemma TakenRereadable(list: seq<(string, string)>, key: string, value: string)
    requires DistinctKeys(list) && Rereadable(list) && Unstopped(list) && !CrlfAt(key, 0)
    ensures DistinctKeys(Taken(list, key, value)) && Rereadable(Taken(list, key, value))
  {
    TakenDistinct(list, key, value);
    TakenIs(list, key, value);
    ChainRereadable(key, value);
    forall other | other in Chain(key)
      ensures HasKey(Same(Chain(key), value), other)
    {
      SameHas(Chain(key), value, other);
    }
    JoinRereadable(list, Chain(key), Same(Chain(key), value));
  }

  lemma {:induction false} ChainUnstopped(key: string, other: string)
    requires !Stops(key) && other in Chain(key)
    ensures !Stops(other)
    decreases |key|
  {
    if other != key {
      ChainUnstopped(key[FindCrlf(key, 0) + 2..], other);
    }
  }

  lemma {:induction false} ExceptUnstopped(list: seq<(string, string)>, keys: seq<string>)
    requires Unstopped(list)
    ensures Unstopped(Except(list, keys))
  {
    if list != [] {
      var rest := list[1..];
      assert Unstopped(rest) by {
        assert forall i :: 0 <= i < |rest| ==> rest[i] == list[i + 1];
      }
      ExceptUnstopped(rest, keys);
      assert !Stops(list[0].0);
    }
  }

  lemma TakenUnstopped(list: seq<(string, string)>, key: string, value: string)
    requires DistinctKeys(list) && Unstopped(list) && !Stops(key)
    ensures Unstopped(Taken(list, key, value))
  {
    TakenIs(list, key, value);
    ExceptUnstopped(list, Chain(key));
    var kept := Except(list, Chain(key));
    var all := kept + Same(Chain(key), value);
    forall i | 0 <= i < |all|
      ensures !Stops(all[i].0)
    {
      if i >= |kept| {
        SameAt(Chain(key), value, i - |kept|);
        ChainUnstopped(key, Chain(key)[i - |kept|]);
      }
    }
  }

  /** Whatever text is read: the list that comes out of it can be printed and read again. */
  lemma {:induction false} ResultRereadable(s: string, beyond: Option<string>, cur: nat,
                                            list: seq<(string, string)>)
    requires cur <= |s| && DistinctKeys(list) && Rereadable(list) && Unstopped(list)
    ensures var r := ParseHeaders(s, beyond, cur, list); r.HeadersOk? ==> Rereadable(r.list)
    decreases |s| - cur
  {
    if HasHeader(s, beyond, cur) {
      var (key, value) := HeaderOf(s, beyond, cur);
      ChainRead(s, beyond, cur, list);
      NextLineFacts(s, cur);
      KeyStart(s, cur, FindChar(s, ':', cur));
      TakenRereadable(list, key, value);
      if !Stops(key) {
        TakenUnstopped(list, key, value);
        ResultRereadable(s, beyond, NextLine(s, cur), Taken(list, key, value));
      }
    }
  }

  lemma KeyStart(s: string, cur: nat, colon: nat)
    requires cur <= colon <= |s| && !CrlfAt(s, cur)
    ensures !CrlfAt(s[cur..colon], 0)
  {
  }

  /** What the parser's lists look like: distinct keys without colons, values without line ends,
      no zeros. */
  predicate ReadHeader(h: (string, string)) {
    ':' !in h.0 && NUL !in h.0 && NUL !in h.1 && NoCrlf(h.1)
  }

  predicate ReadHeaders(list: seq<(string, string)>) {
    DistinctKeys(list) && forall i :: 0 <= i < |list| ==> ReadHeader(list[i])
  }

  // ------------------------------------------------------------------ reading a printed list

  /** The parts of a printed header. */
  lemma HeaderParts(s: string, cur: nat, h: (string, string))
    requires At(s, cur, HeaderText(h))
    ensures var colon := cur + |h.0|;
            var end := colon + 2 + |h.1|;
            && At(s, cur, h.0) && s[colon] == ':' && At(s, colon + 2, h.1) && CrlfAt(s, end)
            && At(s, cur, h.0 + ": " + h.1) && cur + |HeaderText(h)| == end + 2 <= |s|
  {
    var t := HeaderText(h);
    var line := h.0 + ": " + h.1;
    assert t == line + "\r\n";
    assert t[..|h.0|] == h.0 && t[|h.0| + 2..|line|] == h.1 && t[..|line|] == line;
    assert s[cur..cur + |t|][..|h.0|] == s[cur..cur + |h.0|];
    assert s[cur..cur + |t|][..|line|] == s[cur..cur + |line|];
    assert s[cur..cur + |t|][|h.0| + 2..|line|] == s[cur + |h.0| + 2..cur + |line|];
    AtIndex(s, cur, t, |h.0|);
    AtIndex(s, cur, t, |line|);
    AtIndex(s, cur, t, |line| + 1);
  }

  /** A printed header is read as itself, and reading goes on behind it. */
  lemma PrintedHeader(s: string, beyond: Option<string>, cur: nat, h: (string, string))
    requires ReadHeader(h) && !CrlfAt(h.0, 0) && At(s, cur, HeaderText(h))
    ensures HasHeader(s, beyond, cur) && HeaderOf(s, beyond, cur) == h
    ensures NextLine(s, cur) == cur + |HeaderText(h)|
  {
    var colon := cur + |h.0|;
    var end := colon + 2 + |h.1|;
    HeaderParts(s, cur, h);
    NotAtStart(s, cur, h.0);
    hide HeaderText;
    FindCharAt(s, cur, h.0, ':');
    FindCrlfAt(s, colon + 2, h.1);
    AtIndex(s, cur, h.0 + ": " + h.1, |h.0| + 1);
    hide NoCrlf, At, FindChar;
    SkipLines(s, colon, colon + 2);
  }

  lemma NotAtStart(s: string, cur: nat, key: string)
    requires At(s, cur, key) && !CrlfAt(key, 0) && cur + |key| < |s| && s[cur + |key|] == ':'
    ensures !CrlfAt(s, cur)
  {
    assert forall j :: 0 <= j < |key| ==> s[cur..cur + |key|][j] == key[j];
  }

  function KeysOf(list: seq<(string, string)>): (keys: seq<string>)
    ensures |keys| == |list|
  {
    if list == [] then [] else [list[0].0] + KeysOf(list[1..])
  }

  lemma {:induction false} KeysHas(list: seq<(string, string)>, key: string)
    ensures key in KeysOf(list) <==> HasKey(list, key)
  {
    if list != [] {
      HasNext(list, key);
      KeysHas(list[1..], key);
    }
  }

  lemma ChainCons(key: string)
    ensures Chain(key) == [key] + Chain(key)[1..]
    ensures forall other :: other in Chain(key)[1..] ==> |other| < |key|
  {
    var tail := Chain(key)[1..];
    forall other | other in tail
      ensures |other| < |key|
    {
      var p := FindCrlf(key, 0);
      ChainShorter(key[p + 2..], other);
    }
  }

  /** The keys of a chain are those of later headers: setting them all adds just the one. */
  lemma AfterChain(acc: seq<(string, string)>, h: (string, string), rest: seq<(string, string)>)
    requires !HasKey(rest, h.0)
    requires Followed(h.0, rest)
    ensures Except(Except(acc, Chain(h.0)) + Same(Chain(h.0), h.1), KeysOf(rest))
         == Except(acc, [h.0] + KeysOf(rest)) + [h]
  {
    var keys, tail, later := Chain(h.0), Chain(h.0)[1..], KeysOf(rest);
    ChainCons(h.0);
    SameNext(h.0, tail, h.1);
    hide Chain;
    forall key
      ensures key in keys + later <==> key in [h.0] + later
      ensures key in tail ==> key in later
    {
      KeysHas(rest, key);
    }
    KeysHas(rest, h.0);
    hide HasKey, KeysOf, Except, Same;
    ExceptAppend(Except(acc, keys), Same(keys, h.1), later);
    ExceptTwice(acc, keys, later);
    ExceptSame(acc, keys + later, [h.0] + later);
    ExceptAppend([h], Same(tail, h.1), later);
    ExceptNone([h], later);
    ExceptSameKeys(tail, h.1, later);
  }

  /** A chain that stops the reading: it is all that is left to print. */
  lemma LastChain(acc: seq<(string, string)>, rest: seq<(string, string)>)
    requires rest != [] && rest[1..] == Same(Chain(rest[0].0)[1..], rest[0].1)
    ensures Except(acc, Chain(rest[0].0)) + Same(Chain(rest[0].0), rest[0].1)
         == Except(acc, KeysOf(rest)) + rest
  {
    var (key, value) := rest[0];
    ChainCons(key);
    SameNext(key, Chain(key)[1..], value);
    assert rest == [rest[0]] + rest[1..];
    KeysOfSame(Chain(key), value);
  }

  lemma {:induction false} KeysOfSame(keys: seq<string>, value: string)
    ensures KeysOf(Same(keys, value)) == keys
  {
    if keys != [] {
      KeysOfSame(keys[1..], value);
      assert Same(keys, value)[1..] == Same(keys[1..], value);
    }
  }

  lemma HeadersTextNext(list: seq<(string, string)>)
    requires list != []
    ensures HeadersText(list) == HeaderText(list[0]) + HeadersText(list[1..])
  {
    assert list == [list[0]] + list[1..];
    HeadersTextAppend([list[0]], list[1..]);
    assert [list[0]][..0] == [];
    assert HeadersText([list[0]]) == "" + HeaderText(list[0]);
  }

  lemma AtSplit(s: string, i: nat, a: string, b: string)
    requires At(s, i, a + b)
    ensures At(s, i, a) && At(s, i + |a|, b)
  {
    var t := a + b;
    assert t[..|a|] == a && t[|a|..] == b;
    assert s[i..i + |t|][..|a|] == s[i..i + |a|] && s[i..i + |t|][|a|..] == s[i + |a|..i + |t|];
  }

  lemma RestParts(list: seq<(string, string)>)
    requires ReadHeaders(list) && Rereadable(list) && list != []
    ensures ReadHeader(list[0]) && !CrlfAt(list[0].0, 0)
    ensures ReadHeaders(list[1..]) && Rereadable(list[1..])
    ensures !HasKey(list[1..], list[0].0) && KeysOf(list) == [list[0].0] + KeysOf(list[1..])
    ensures Followed(list[0].0, list[1..])
    ensures Stops(list[0].0) ==> list[1..] == Same(Chain(list[0].0)[1..], list[0].1)
  {
    var rest := list[1..];
    assert forall i :: 0 <= i < |rest| ==> rest[i] == list[i + 1];
  }

  lemma ShiftOne(done: seq<(string, string)>, rest: seq<(string, string)>)
    requires rest != []
    ensures (done + [rest[0]]) + rest[1..] == done + rest
  {
  }

  lemma RereadEnd(s: string, beyond: Option<string>, cur: nat, done: seq<(string, string)>,
                  rest: seq<(string, string)>, acc: seq<(string, string)>)
    requires CrlfAt(s, cur) && rest == [] && Except(acc, KeysOf(rest)) == done
    ensures ParseHeaders(s, beyond, cur, acc) == HeadersOk(done + rest)
  {
    assert KeysOf(rest) == [];
    ExceptNone(acc, []);
    assert done + rest == acc;
  }

  /** At `cur` the printed headers stand, and the empty line behind them. */
  predicate Printed(s: string, cur: nat, list: seq<(string, string)>) {
    At(s, cur, HeadersText(list)) && CrlfAt(s, cur + |HeadersText(list)|)
  }

  lemma PrintedNext(s: string, cur: nat, list: seq<(string, string)>)
    requires Printed(s, cur, list) && list != []
    ensures At(s, cur, HeaderText(list[0])) && Printed(s, cur + |HeaderText(list[0])|, list[1..])
  {
    hide At, CrlfAt, HeadersText;
    HeadersTextNext(list);
    AtSplit(s, cur, HeaderText(list[0]), HeadersText(list[1..]));
  }

  lemma PrintedStart(pre: string, list: seq<(string, string)>)
    ensures Printed(pre + HeadersText(list) + "\r\n", |pre|, list)
  {
    hide HeadersText;
  }

  lemma PrintedIn(s: string, cur: nat, list: seq<(string, string)>)
    requires Printed(s, cur, list)
    ensures cur <= |s| && (list == [] ==> CrlfAt(s, cur))
  {
  }

  /** One printed header is read, with all of its chain. */
  lemma OneRead(s: string, beyond: Option<string>, cur: nat, h: (string, string),
                acc: seq<(string, string)>)
    requires ReadHeader(h) && !CrlfAt(h.0, 0) && At(s, cur, HeaderText(h)) && DistinctKeys(acc)
    ensures var next := cur + |HeaderText(h)|;
            var taken := Except(acc, Chain(h.0)) + Same(Chain(h.0), h.1);
            && cur <= next <= |s| && DistinctKeys(taken)
            && ParseHeaders(s, beyond, cur, acc)
               == if Stops(h.0) then HeadersOk(taken) else ParseHeaders(s, beyond, next, taken)
  {
    hide ParseHeaders, HeaderText, At, HasHeader, HeaderOf, NextLine, CrlfAt, Taken, Except, Same,
      Stops, DistinctKeys, ReadHeader, Chain;
    PrintedHeader(s, beyond, cur, h);
    ChainRead(s, beyond, cur, acc);
    TakenIs(acc, h.0, h.1);
    TakenDistinct(acc, h.0, h.1);
  }

  /** One header of a printed list is read: the reading is over, or it goes on with the rest. */
  lemma RereadStep(s: string, beyond: Option<string>, cur: nat, done: seq<(string, string)>,
                   rest: seq<(string, string)>, acc: seq<(string, string)>)
    requires ReadHeaders(rest) && Rereadable(rest) && DistinctKeys(acc) && rest != []
    requires Except(acc, KeysOf(rest)) == done && Printed(s, cur, rest)
    ensures var h, later, next := rest[0], rest[1..], cur + |HeaderText(rest[0])|;
            var taken := Except(acc, Chain(h.0)) + Same(Chain(h.0), h.1);
            && ReadHeaders(later) && Rereadable(later) && DistinctKeys(taken)
            && Printed(s, next, later) && cur <= next <= |s|
            && if Stops(h.0) then ParseHeaders(s, beyond, cur, acc) == HeadersOk(done + rest)
               else ParseHeaders(s, beyond, cur, acc) == ParseHeaders(s, beyond, next, taken)
                    && Except(taken, KeysOf(later)) == done + [h]
  {
    hide ParseHeaders, HeaderText, At, CrlfAt, Chain, Except, Same, Stops, ReadHeaders, ReadHeader,
      Rereadable, HasKey, KeysOf, DistinctKeys, Followed, Printed;
    RestParts(rest);
    PrintedNext(s, cur, rest);
    OneRead(s, beyond, cur, rest[0], acc);
    if Stops(rest[0].0) {
      LastChain(acc, rest);
    } else {
      AfterChain(acc, rest[0], rest[1..]);
    }
  }

  /** Reading the rest of a printed list, when `acc` holds the headers read so far and perhaps some
      that are still to come. */
  lemma {:induction false} Reread(s: string, beyond: Option<string>, cur: nat,
                                  done: seq<(string, string)>, rest: seq<(string, string)>,
                                  acc: seq<(string, string)>)
    requires ReadHeaders(rest) && Rereadable(rest) && DistinctKeys(acc)
    requires Except(acc, KeysOf(rest)) == done && Printed(s, cur, rest)
    ensures cur <= |s| && ParseHeaders(s, beyond, cur, acc) == HeadersOk(done + rest)
    decreases |rest|
  {
    hide ParseHeaders, HeaderText, Chain, Except, Same, Stops, ReadHeaders, Rereadable, KeysOf,
      DistinctKeys, Printed, CrlfAt;
    PrintedIn(s, cur, rest);
    if rest == [] {
      RereadEnd(s, beyond, cur, done, rest, acc);
    } else {
      var h := rest[0];
      RereadStep(s, beyond, cur, done, rest, acc);
      if !Stops(h.0) {
        Reread(s, beyond, cur + |HeaderText(h)|, done + [h], rest[1..],
               Except(acc, Chain(h.0)) + Same(Chain(h.0), h.1));
        ShiftOne(done, rest);
      }
    }
  }

  /** Printing a list and reading it gives it back, if it is of the right shape. */
  lemma PrintedList(pre: string, beyond: Option<string>, list: seq<(string, string)>)
    requires ReadHeaders(list) && Rereadable(list)
    ensures ParseHeaders(pre + HeadersText(list) + "\r\n", beyond, |pre|, []) == HeadersOk(list)
  {
    hide HeadersText, ParseHeaders, Printed, ReadHeaders, Rereadable, KeysOf;
    PrintedStart(pre, list);
    Reread(pre + HeadersText(list) + "\r\n", beyond, |pre|, [], list, []);
    assert [] + list == list;
  }

  /** A key that runs over a line end: alone it does not come back, since what is behind the line
      end is read as a second header; with that header behind it, it does. */
  lemma KeyReadTwice(pre: string, beyond: Option<string>, p: string, q: string, v: string)
    requires p != "" && NoCrlf(p) && ':' !in p && NUL !in p && ReadHeader((q, v)) && NoCrlf(q)
    ensures var h := (p + "\r\n" + q, v);
            var text := pre + HeadersText([h]) + "\r\n";
            && ParseHeaders(text, beyond, |pre|, []) == HeadersOk([h, (q, v)])
            && !Rereadable([h]) && Rereadable([h, (q, v)])
  {
    var h := (p + "\r\n" + q, v);
    var s := pre + HeadersText([h]) + "\r\n";
    TextOfOne(pre, h);
    KeyOfTwo(p, q);
    TwoRereadable(h, (q, v));
    hide HeadersText, HeaderText, At, CrlfAt, ParseHeaders, Rereadable, NoCrlf, Chain, Stops, Same;
    OneRead(s, beyond, |pre|, h, []);
    HeadersStop(s, beyond, |pre| + |HeaderText(h)|, [h, (q, v)]);
  }

  lemma TextOfOne(pre: string, h: (string, string))
    ensures var s := pre + HeadersText([h]) + "\r\n";
            At(s, |pre|, HeaderText(h)) && CrlfAt(s, |pre| + |HeaderText(h)|)
  {
    HeadersTextNext([h]);
    assert HeadersText([h]) == HeaderText(h);
  }

  lemma KeyOfTwo(p: string, q: string)
    requires p != "" && NoCrlf(p) && NoCrlf(q) && ':' !in p && ':' !in q
    ensures var key := p + "\r\n" + q;
            !CrlfAt(key, 0) && Chain(key) == [key, q] && !Stops(key) && ':' !in key
  {
    var key := p + "\r\n" + q;
    assert At(key, 0, p) && CrlfAt(key, |p|);
    FindCrlfAt(key, 0, p);
    assert key[|p| + 2..] == q;
    PlainKey(q);
    assert !CrlfAt(q, 0) ==> !CrlfAt(key, |p| + 2);
  }

  lemma TwoRereadable(h: (string, string), k: (string, string))
    requires !CrlfAt(h.0, 0) && Chain(h.0) == [h.0, k.0] && !Stops(h.0) && NoCrlf(k.0)
    ensures !Rereadable([h]) && Rereadable([h, k])
    ensures Same(Chain(h.0), h.1) == [h, (k.0, h.1)]
  {
    PlainKey(k.0);
    assert |[h][1..]| == 0 && [h, k][1..] == [k] && |[k][1..]| == 0;
    assert Chain(h.0)[1..] == [k.0] && k.0 in Chain(h.0)[1..];
    assert [k][0].0 == k.0;
  }

  /** Keys without a line end are the ordinary case: nothing more is asked of such lists. */
  lemma {:induction false} PlainKeys(list: seq<(string, string)>)
    requires forall i :: 0 <= i < |list| ==> NoCrlf(list[i].0)
    ensures Rereadable(list)
  {
    if list != [] {
      var rest := list[1..];
      assert forall i :: 0 <= i < |rest| ==> rest[i] == list[i + 1];
      PlainKeys(rest);
      PlainKey(list[0].0);
    }
  }

  lemma PlainKey(key: string)
    requires NoCrlf(key)
    ensures !CrlfAt(key, 0) && Chain(key) == [key] && !Stops(key)
  {
    SkipLines(key, 0, |key|);
  }
}
