/** The header list of a request: what the table of headers stands for, and what set, get
    and remove do to it. */
module HeaderSpec {
  import opened Options

  /** A table entry; removal leaves one without a key behind. */
  datatype Header = Header(key: Option<string>, value: string)

  function LiveOne(h: Header): seq<(string, string)> {
    if h.key.Some? then [(h.key.value, h.value)] else []
  }

  /** The headers that have a key, in the order of the table. */
  function Live(table: seq<Header>): seq<(string, string)> {
    if table == [] then [] else Live(table[..|table| - 1]) + LiveOne(table[|table| - 1])
  }

  lemma {:induction false} LiveAppend(a: seq<Header>, b: seq<Header>)
    ensures Live(a + b) == Live(a) + Live(b)
  {
    if b == [] {
      assert a + b == a;
    } else {
      assert (a + b)[..|a + b| - 1] == a + b[..|b| - 1];
      LiveAppend(a, b[..|b| - 1]);
    }
  }

  /** The first entry with the key, or the size of the table. */
  function IndexOf(table: seq<Header>, key: string): (i: nat)
    ensures i <= |table|
    ensures i < |table| ==> table[i].key == Some(key)
    ensures forall j :: 0 <= j < i ==> table[j].key != Some(key)
  {
    if table == [] || table[0].key == Some(key) then 0 else 1 + IndexOf(table[1..], key)
  }

  predicate HasKey(list: seq<(string, string)>, key: string) {
    exists i :: 0 <= i < |list| && list[i].0 == key
  }

  predicate DistinctKeys(list: seq<(string, string)>) {
    forall i, j :: 0 <= i < j < |list| ==> list[i].0 != list[j].0
  }

  /** The list without the first header of that key. */
  function Remove(list: seq<(string, string)>, key: string): seq<(string, string)> {
    if list == [] then [] else if list[0].0 == key then list[1..]
    else [list[0]] + Remove(list[1..], key)
  }

  function Set(list: seq<(string, string)>, key: string, value: string): seq<(string, string)> {
    Remove(list, key) + [(key, value)]
  }

  function Get(list: seq<(string, string)>, key: string): Option<string> {
    if list == [] then None else if list[0].0 == key then Some(list[0].1)
    else Get(list[1..], key)
  }

  lemma {:induction false} GetAppend(a: seq<(string, string)>, b: seq<(string, string)>, key: string)
    ensures Get(a + b, key) == if Get(a, key).Some? then Get(a, key) else Get(b, key)
  {
    if a == [] {
      assert a + b == b;
    } else {
      assert (a + b)[1..] == a[1..] + b;
      GetAppend(a[1..], b, key);
    }
  }

  lemma {:induction false} GetHas(list: seq<(string, string)>, key: string)
    ensures Get(list, key).Some? <==> HasKey(list, key)
  {
    if list != [] {
      GetHas(list[1..], key);
      if HasKey(list[1..], key) {
        var i :| 0 <= i < |list[1..]| && list[1..][i].0 == key;
        assert list[i + 1].0 == key;
      }
      if HasKey(list, key) && list[0].0 != key {
        var i :| 0 <= i < |list| && list[i].0 == key;
        assert list[1..][i - 1].0 == key;
      }
    }
  }

  lemma {:induction false} RemoveAppend(a: seq<(string, string)>, b: seq<(string, string)>,
                                        key: string)
    ensures Remove(a + b, key)
         == if HasKey(a, key) then Remove(a, key) + b else a + Remove(b, key)
  {
    if a == [] {
      assert a + b == b;
    } else {
      hide HasKey;
      assert (a + b)[1..] == a[1..] + b && (a + b)[0] == a[0];
      RemoveAppend(a[1..], b, key);
      GetHas(a, key);
      GetHas(a[1..], key);
      if a[0].0 != key {
        var rest := Remove(a[1..] + b, key);
        assert Remove(a + b, key) == [a[0]] + rest;
        if HasKey(a, key) {
          assert [a[0]] + (Remove(a[1..], key) + b) == [a[0]] + Remove(a[1..], key) + b;
        } else {
          assert [a[0]] + (a[1..] + Remove(b, key)) == a + Remove(b, key);
        }
      }
    }
  }

  lemma {:induction false} RemoveSubset(list: seq<(string, string)>, key: string,
                                        h: (string, string))
    requires h in Remove(list, key)
    ensures h in list
  {
    if list[0].0 != key && h != list[0] {
      RemoveSubset(list[1..], key, h);
    }
  }

  /** Among distinct keys removal leaves exactly the other headers, in order. */
  lemma {:induction false} RemoveOthers(list: seq<(string, string)>, key: string, other: string)
    requires DistinctKeys(list)
    ensures DistinctKeys(Remove(list, key))
    ensures Get(Remove(list, key), other) == if other == key then None else Get(list, other)
    ensures !HasKey(list, key) ==> Remove(list, key) == list
  {
    if list != [] {
      var rest := list[1..];
      assert forall i :: 0 <= i < |rest| ==> rest[i] == list[i + 1];
      RemoveOthers(rest, key, other);
      GetHas(rest, key);
      if list[0].0 != key {
        var kept := Remove(rest, key);
        forall i | 0 <= i < |kept|
          ensures kept[i].0 != list[0].0
        {
          RemoveSubset(rest, key, kept[i]);
        }
        assert HasKey(rest, key) ==> HasKey(list, key) by {
          if HasKey(rest, key) {
            var i :| 0 <= i < |rest| && rest[i].0 == key;
            assert list[i + 1].0 == key;
          }
        }
      } else {
        assert list[0].0 == key;
      }
    }
  }

  /** Set then get: the new value under its key, everything else as it was, one header for
      each key; and a new key goes to the end. */
  lemma SetThenGet(list: seq<(string, string)>, key: string, value: string, other: string)
    requires DistinctKeys(list)
    ensures DistinctKeys(Set(list, key, value))
    ensures Get(Set(list, key, value), other)
         == if other == key then Some(value) else Get(list, other)
    ensures !HasKey(list, key) ==> Set(list, key, value) == list + [(key, value)]
  {
    RemoveOthers(list, key, other);
    RemoveOthers(list, key, key);
    var kept := Remove(list, key);
    GetHas(kept, key);
    GetAppend(kept, [(key, value)], other);
    assert forall i :: 0 <= i < |kept| ==> kept[i].0 != key;
  }

  lemma LiveSplit(table: seq<Header>, i: nat)
    requires i < |table|
    ensures Live(table) == Live(table[..i]) + (LiveOne(table[i]) + Live(table[i + 1..]))
  {
    hide Live, LiveOne;
    var a, b, h := table[..i], table[i + 1..], table[i];
    LiveAppend(a, [h] + b);
    LiveAppend([h], b);
    LiveSingle(h);
    InThree(table, i);
  }

  lemma InThree(table: seq<Header>, i: nat)
    requires i < |table|
    ensures table == table[..i] + ([table[i]] + table[i + 1..])
  {
  }

  lemma LiveSingle(h: Header)
    ensures Live([h]) == LiveOne(h)
  {
    assert [h][..0] == [];
    assert Live([h]) == [] + LiveOne(h);
  }

  /** A tombstone in the table is a removal from the list. */
  lemma TombstoneRemoves(table: seq<Header>, i: nat, key: string)
    requires i == IndexOf(table, key) < |table|
    ensures Live(table[i := Header(None, table[i].value)]) == Remove(Live(table), key)
    ensures HasKey(Live(table), key)
  {
    var t := table[i := Header(None, table[i].value)];
    LiveSplit(table, i);
    LiveSplit(t, i);
    assert t[..i] == table[..i] && t[i + 1..] == table[i + 1..];
    NoKeyLive(table[..i], key);
    hide Live;
    var a, b := Live(table[..i]), Live(table[i + 1..]);
    RemoveAppend(a, [(key, table[i].value)] + b, key);
    assert ([(key, table[i].value)] + b)[1..] == b;
    assert [] + b == b;
    assert Live(table)[|a|].0 == key;
  }

  lemma {:induction false} NoKeyLive(table: seq<Header>, key: string)
    requires forall j :: 0 <= j < |table| ==> table[j].key != Some(key)
    ensures !HasKey(Live(table), key)
  {
    if table != [] {
      NoKeyLive(table[..|table| - 1], key);
    }
  }

  /** Nothing to remove. */
  lemma AbsentKey(table: seq<Header>, key: string)
    requires IndexOf(table, key) == |table|
    ensures !HasKey(Live(table), key)
    ensures Remove(Live(table), key) == Live(table)
  {
    NoKeyLive(table, key);
    RemoveAppend(Live(table), [], key);
    assert Live(table) + [] == Live(table);
  }

  /** The first entry with a key is where the list finds it. */
  lemma IndexGet(table: seq<Header>, key: string)
    ensures var i := IndexOf(table, key);
            Get(Live(table), key) == if i < |table| then Some(table[i].value) else None
  {
    var i := IndexOf(table, key);
    if i < |table| {
      LiveSplit(table, i);
      NoKeyLive(table[..i], key);
      hide Live;
      GetHas(Live(table[..i]), key);
      GetAppend(Live(table[..i]), [(key, table[i].value)] + Live(table[i + 1..]), key);
    } else {
      NoKeyLive(table, key);
      GetHas(Live(table), key);
    }
  }

  // ------------------------------------------------------------------ printing

  function HeaderText(h: (string, string)): string {
    h.0 + ": " + h.1 + "\r\n"
  }

  function HeadersText(list: seq<(string, string)>): string {
    if list == [] then ""
    else HeadersText(list[..|list| - 1]) + HeaderText(list[|list| - 1])
  }

  lemma {:induction false} HeadersTextAppend(a: seq<(string, string)>, b: seq<(string, string)>)
    ensures HeadersText(a + b) == HeadersText(a) + HeadersText(b)
  {
    if b == [] {
      assert a + b == a;
    } else {
      assert (a + b)[..|a + b| - 1] == a + b[..|b| - 1];
      HeadersTextAppend(a, b[..|b| - 1]);
    }
  }
}
