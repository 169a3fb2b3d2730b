/** The chained hash table behind the listen table: insertion at the head of a chain without
    a look for duplicates, lookup and deletion of the first entry with the key. */
module HashTable {

  /** The data stored under a key in one chain, the newest first. */
  function Values<K(==), V>(chain: seq<(K, V)>, key: K): seq<V> {
    if chain == [] then []
    else (if chain[0].0 == key then [chain[0].1] else []) + Values(chain[1..], key)
  }

  lemma {:induction false} ValuesAppend<K, V>(a: seq<(K, V)>, b: seq<(K, V)>, key: K)
    ensures Values(a + b, key) == Values(a, key) + Values(b, key)
  {
    if a == [] {
      assert a + b == b;
    } else {
      assert (a + b)[1..] == a[1..] + b;
      ValuesAppend(a[1..], b, key);
      var first := if a[0].0 == key then [a[0].1] else [];
      assert first + (Values(a[1..], key) + Values(b, key))
          == first + Values(a[1..], key) + Values(b, key);
    }
  }

  lemma ValuesFirst<K, V>(chain: seq<(K, V)>, key: K, data: V, other: K)
    ensures Values([(key, data)] + chain, other)
         == if other == key then [data] + Values(chain, other) else Values(chain, other)
  {
    assert ([(key, data)] + chain)[1..] == chain;
  }

  predicate Absent<K(==), V>(chain: seq<(K, V)>, key: K) {
    forall i :: 0 <= i < |chain| ==> chain[i].0 != key
  }

  lemma {:induction false} AbsentValues<K, V>(chain: seq<(K, V)>, key: K)
    ensures Absent(chain, key) <==> Values(chain, key) == []
  {
    if chain != [] {
      AbsentValues(chain[1..], key);
      assert forall i :: 0 < i < |chain| ==> chain[i] == chain[1..][i - 1];
    }
  }

  /** The first entry with the key carries the newest data; taking it out, or changing its
      data, leaves the rest of the stack and all other keys as they are. */
  lemma FirstMatch<K, V>(chain: seq<(K, V)>, p: nat, key: K, other: K, data: V)
    requires p < |chain| && chain[p].0 == key && Absent(chain[..p], key)
    ensures Values(chain, key) != [] && chain[p].1 == Values(chain, key)[0]
    ensures Values(chain[..p] + chain[p + 1..], other)
         == if other == key then Values(chain, key)[1..] else Values(chain, other)
    ensures Values(chain[p := (key, data)], other)
         == if other == key then [data] + Values(chain, key)[1..] else Values(chain, other)
  {
    SplitAt(chain, p, key);
    SplitAt(chain, p, other);
    AbsentValues(chain[..p], key);
    var changed := chain[p := (key, data)];
    assert changed[..p] == chain[..p] && changed[p + 1..] == chain[p + 1..];
    SplitAt(changed, p, other);
    ValuesAppend(chain[..p], chain[p + 1..], other);
  }

  lemma SplitAt<K, V>(chain: seq<(K, V)>, p: nat, key: K)
    requires p < |chain|
    ensures Values(chain, key)
         == Values(chain[..p], key) + (if chain[p].0 == key then [chain[p].1] else [])
            + Values(chain[p + 1..], key)
  {
    assert chain == chain[..p] + chain[p..];
    ValuesAppend(chain[..p], chain[p..], key);
    assert chain[p..][1..] == chain[p + 1..];
  }

  class Entry<K, V> {
    const key: K
    var data: V
    var next: Entry?<K, V>

    constructor (key: K, data: V, next: Entry?<K, V>)
      ensures this.key == key && this.data == data && this.next == next
    {
      this.key := key;
      this.data := data;
      this.next := next;
    }
  }

  class Table<K(==,!new), V(!new)> {
    const hash: K -> nat
    const buckets: array<Entry?<K, V>>
    ghost var chains: seq<seq<Entry<K, V>>>
    ghost var pairs: seq<seq<(K, V)>>
    ghost var Repr: set<Entry<K, V>>

    ghost predicate Valid()
      reads this, buckets, Repr
    {
      && (forall key :: hash(key) < buckets.Length)
      && |chains| == |pairs| == buckets.Length
      && (forall i :: 0 <= i < |chains| ==> Within(chains[i]))
      && forall i :: 0 <= i < |chains| ==> ChainValid(i, buckets[i], chains[i], pairs[i])
    }

    ghost predicate Within(chain: seq<Entry<K, V>>)
      reads this`Repr
    {
      forall p :: 0 <= p < |chain| ==> chain[p] in Repr
    }

    /** `chain` is the list that starts at `head`, all of bucket `i`, holding `content`. */
    ghost predicate ChainValid(i: nat, head: Entry?<K, V>, chain: seq<Entry<K, V>>,
                               content: seq<(K, V)>)
      reads chain
    {
      && |content| == |chain|
      && head == (if chain == [] then null else chain[0])
      && (forall p :: 0 <= p < |chain| ==> hash(chain[p].key) == i)
      && (forall p :: 0 <= p < |chain| ==> content[p] == (chain[p].key, chain[p].data))
      && (forall p, q :: 0 <= p < |chain| && 0 <= q < |chain| && q == p + 1 ==>
            chain[p].next == chain[q])
      && (chain != [] ==> chain[|chain| - 1].next == null)
      && (forall p, q :: 0 <= p < q < |chain| ==> chain[p] != chain[q])
    }

    /** The stack of data under a key, the newest first. */
    ghost function Stack(key: K): seq<V>
      requires Valid()
      reads this, buckets, Repr
    {
      Values(pairs[hash(key)], key)
    }

    constructor (size: nat, hash: K -> nat)
      requires forall key :: hash(key) < size
      ensures Valid() && this.hash == hash && fresh(Repr) && fresh(buckets)
      ensures forall key :: Stack(key) == []
    {
      this.hash := hash;
      buckets := new Entry?<K, V>[size](_ => null);
      chains := seq(size, i => []);
      pairs := seq(size, i => []);
      Repr := {};
    }

    /** `_hash_get_entry`: the newest entry with the key. */
    method GetEntry(key: K) returns (e: Entry?<K, V>, ghost p: nat)
      requires Valid()
      ensures e == null <==> Stack(key) == []
      ensures e != null ==> var c := chains[hash(key)];
                p < |c| && e == c[p] && e.key == key && e.data == Stack(key)[0]
                && Absent(pairs[hash(key)][..p], key)
    {
      var ndx := hash(key);
      ghost var chain, content := chains[ndx], pairs[ndx];
      assert ChainValid(ndx, buckets[ndx], chain, content);
      e, p := buckets[ndx], 0;
      while e != null && e.key != key
        invariant p <= |chain| && e == if p < |chain| then chain[p] else null
        invariant Absent(content[..p], key)
        decreases |chain| - p
      {
        assert content[..p + 1] == content[..p] + [content[p]];
        e, p := e.next, p + 1;
      }
      AbsentValues(content, key);
      if e == null {
        assert content[..p] == content;
      } else {
        FirstMatch(content, p, key, key, e.data);
      }
    }

    /** `_hash_lookup`: the newest data; there must be an entry. */
    method Lookup(key: K) returns (data: V)
      requires Valid() && Stack(key) != []
      ensures data == Stack(key)[0]
    {
      var e, _ := GetEntry(key);
      data := e.data;
    }

    /** `_hash_lookup_ptr`: the newest data, or `missing` (the null pointer). */
    method LookupPtr(key: K, missing: V) returns (data: V)
      requires Valid()
      ensures data == if Stack(key) == [] then missing else Stack(key)[0]
    {
      var e, _ := GetEntry(key);
      data := if e != null then e.data else missing;
    }

    /** `_hash_entry_exists`. */
    method Exists(key: K) returns (found: bool)
      requires Valid()
      ensures found <==> Stack(key) != []
    {
      var e, _ := GetEntry(key);
      found := e != null;
    }

    /** `_hash_insert` pushes; its closing assertion, that the new entry is the one found,
        holds always. */
    method Insert(key: K, data: V)
      requires Valid()
      modifies this, buckets
      ensures Valid() && fresh(Repr - old(Repr)) && old(Repr) <= Repr
      ensures forall k :: Stack(k) == if k == key then [data] + old(Stack(k)) else old(Stack(k))
    {
      var entry := Push(key, data);
      var found, p := GetEntry(key);
      assert pairs[hash(key)][0].0 == key;
      assert found == buckets[hash(key)] == entry;
    }

    method Push(key: K, data: V) returns (entry: Entry<K, V>)
      requires Valid()
      modifies this, buckets
      ensures Valid() && fresh(Repr - old(Repr)) && old(Repr) <= Repr
      ensures entry == buckets[hash(key)] && entry.key == key && entry.data == data
      ensures forall k :: Stack(k) == if k == key then [data] + old(Stack(k)) else old(Stack(k))
    {
      hide Values;
      var ndx := hash(key);
      ghost var chain, content := chains[ndx], pairs[ndx];
      assert ChainValid(ndx, buckets[ndx], chain, content);
      assert Within(chain);
      entry := new Entry<K, V>(key, data, buckets[ndx]);
      buckets[ndx] := entry;
      Repr := Repr + {entry};
      PutChain(ndx, [entry] + chain, [(key, data)] + content);
      forall k
        ensures Stack(k) == if k == key then [data] + old(Stack(k)) else old(Stack(k))
      {
        ValuesFirst(content, key, data, k);
      }
    }

    /** Records the new chain of one bucket; the others are as they were. */
    ghost method PutChain(ndx: nat, chain: seq<Entry<K, V>>, content: seq<(K, V)>)
      requires |chains| == |pairs| == buckets.Length && ndx < buckets.Length
      requires forall key :: hash(key) < buckets.Length
      requires forall i :: 0 <= i < |chains| ==> i == ndx || Within(chains[i])
      requires forall i :: 0 <= i < |chains| ==>
                 i == ndx || ChainValid(i, buckets[i], chains[i], pairs[i])
      requires Within(chain) && ChainValid(ndx, buckets[ndx], chain, content)
      modifies this`chains, this`pairs
      ensures Valid()
      ensures chains == old(chains)[ndx := chain] && pairs == old(pairs)[ndx := content]
    {
      chains := chains[ndx := chain];
      pairs := pairs[ndx := content];
    }

    /** `_hash_set_entry`: replaces the newest data, or inserts. */
    method SetEntry(key: K, data: V)
      requires Valid()
      modifies this, buckets, Repr
      ensures Valid() && fresh(Repr - old(Repr)) && old(Repr) <= Repr
      ensures forall k :: Stack(k) ==
                if k != key then old(Stack(k))
                else [data] + if old(Stack(key)) == [] then [] else old(Stack(key))[1..]
    {
      var e, p := GetEntry(key);
      if e != null {
        Assign(key, data, e, p);
      } else {
        Insert(key, data);
      }
    }

    method Assign(key: K, data: V, e: Entry<K, V>, ghost p: nat)
      requires Valid() && p < |chains[hash(key)]| && e == chains[hash(key)][p] && e.key == key
      requires Absent(pairs[hash(key)][..p], key)
      modifies this`chains, this`pairs, e
      ensures Valid()
      ensures old(Stack(key)) != []
      ensures forall k :: Stack(k) ==
                if k == key then [data] + old(Stack(key))[1..] else old(Stack(k))
    {
      ghost var ndx := hash(key);
      ghost var chain, content := chains[ndx], pairs[ndx];
      assert ChainValid(ndx, buckets[ndx], chain, content) && Within(chain);
      OtherChains(ndx);
      e.data := data;
      PutChain(ndx, chain, content[p := (key, data)]);
      FirstMatch(content, p, key, key, data);
      forall k
        ensures Stack(k) == if k == key then [data] + old(Stack(key))[1..] else old(Stack(k))
      {
        FirstMatch(content, p, key, k, data);
      }
    }

    /** No entry of another bucket is in this bucket's chain. */
    lemma OtherChains(ndx: nat)
      requires Valid() && ndx < |chains|
      ensures forall i, p, q ::
                0 <= i < |chains| && i != ndx && 0 <= p < |chains[i]| && 0 <= q < |chains[ndx]|
                ==> chains[i][p] != chains[ndx][q]
    {
      forall i, p, q | 0 <= i < |chains| && i != ndx && 0 <= p < |chains[i]|
                       && 0 <= q < |chains[ndx]|
        ensures chains[i][p] != chains[ndx][q]
      {
        assert ChainValid(i, buckets[i], chains[i], pairs[i]);
        assert ChainValid(ndx, buckets[ndx], chains[ndx], pairs[ndx]);
      }
    }

    /** `_hash_delete` pops.  The result is its closing assertion, that the key is gone: it
        holds exactly when the key had at most one entry. */
    method Delete(key: K) returns (gone: bool)
      requires Valid()
      modifies this, buckets, Repr
      ensures Valid() && Repr == old(Repr)
      ensures forall k :: Stack(k) ==
                if k == key && old(Stack(key)) != [] then old(Stack(key))[1..] else old(Stack(k))
      ensures gone <==> |old(Stack(key))| <= 1
    {
      var ndx := hash(key);
      ghost var chain, content := chains[ndx], pairs[ndx];
      assert ChainValid(ndx, buckets[ndx], chain, content);
      var prev: Entry?<K, V> := null;
      var e := buckets[ndx];
      ghost var p := 0;
      while e != null && e.key != key
        invariant p <= |chain| && e == if p < |chain| then chain[p] else null
        invariant prev == if p == 0 then null else chain[p - 1]
        invariant Absent(content[..p], key)
        decreases |chain| - p
      {
        assert content[..p + 1] == content[..p] + [content[p]];
        prev := e;
        e := e.next;
        p := p + 1;
      }
      AbsentValues(content, key);
      if e != null {
        Unlink(key, prev, e, p);
      } else {
        assert content[..p] == content;
      }
      gone := Exists(key);
      gone := !gone;
    }

    /** The pointers of one chain, without its `p`-th entry. */
    method Relink(ndx: nat, prev: Entry?<K, V>, e: Entry<K, V>,
                  ghost chain: seq<Entry<K, V>>, ghost content: seq<(K, V)>, ghost p: nat)
      requires ndx < buckets.Length && ChainValid(ndx, buckets[ndx], chain, content)
      requires p < |chain| && e == chain[p] && prev == if p == 0 then null else chain[p - 1]
      modifies buckets, chain
      ensures forall i :: 0 <= i < buckets.Length && i != ndx ==> buckets[i] == old(buckets[i])
      ensures ChainValid(ndx, buckets[ndx], chain[..p] + chain[p + 1..],
                         content[..p] + content[p + 1..])
    {
      assert p + 1 < |chain| ==> e.next == chain[p + 1];
      if e == buckets[ndx] {
        buckets[ndx] := e.next;
      } else {
        prev.next := e.next;
      }
      ghost var rest, left := chain[..p] + chain[p + 1..], content[..p] + content[p + 1..];
      assert forall q :: 0 <= q < |rest| ==>
               rest[q] == chain[if q < p then q else q + 1]
               && left[q] == content[if q < p then q else q + 1];
    }

    /** Takes the `p`-th entry out of its chain. */
    method Unlink(key: K, prev: Entry?<K, V>, e: Entry<K, V>, ghost p: nat)
      requires Valid() && p < |chains[hash(key)]| && e == chains[hash(key)][p] && e.key == key
      requires prev == if p == 0 then null else chains[hash(key)][p - 1]
      requires Absent(pairs[hash(key)][..p], key)
      modifies this`chains, this`pairs, buckets, Repr
      ensures Valid() && Repr == old(Repr)
      ensures old(Stack(key)) != []
      ensures forall k :: Stack(k) ==
                if k == key then old(Stack(key))[1..] else old(Stack(k))
    {
      var ndx := hash(key);
      ghost var chain, content := chains[ndx], pairs[ndx];
      assert ChainValid(ndx, buckets[ndx], chain, content) && Within(chain);
      OtherChains(ndx);
      ghost var rest, left := chain[..p] + chain[p + 1..], content[..p] + content[p + 1..];
      Relink(ndx, prev, e, chain, content, p);
      PutChain(ndx, rest, left);
      FirstMatch(content, p, key, key, e.data);
      forall k
        ensures Stack(k) == if k == key then old(Stack(key))[1..] else old(Stack(k))
      {
        FirstMatch(content, p, key, k, e.data);
      }
    }
  }

  // ------------------------------------------------------------------ runs

  datatype Op<K, V> = Insert(key: K, data: V) | Set(key: K, data: V) | Delete(key: K)

  /** What each operation does to the stack of `k`, as the methods state it. */
  function StackStep<K(==), V>(s: seq<V>, k: K, op: Op<K, V>): seq<V> {
    if op.key != k then s
    else match op
      case Insert(_, d) => [d] + s
      case Set(_, d) => [d] + if s == [] then [] else s[1..]
      case Delete(_) => if s == [] then [] else s[1..]
  }

  function StackAfter<K(==), V>(s: seq<V>, k: K, ops: seq<Op<K, V>>): seq<V> {
    if ops == [] then s
    else StackStep(StackAfter(s, k, ops[..|ops| - 1]), k, ops[|ops| - 1])
  }

  /** The same operations on a finite map. */
  function MapStep<K(==), V>(m: map<K, V>, op: Op<K, V>): map<K, V> {
    match op
    case Insert(k, d) => m[k := d]
    case Set(k, d) => m[k := d]
    case Delete(k) => m - {k}
  }

  function MapAfter<K(==), V>(ops: seq<Op<K, V>>): map<K, V> {
    if ops == [] then map[] else MapStep(MapAfter(ops[..|ops| - 1]), ops[|ops| - 1])
  }

  /** Insertions are of keys that are not in the table. */
  predicate FreshInserts<K(==), V>(ops: seq<Op<K, V>>) {
    forall i :: 0 <= i < |ops| && ops[i].Insert? ==> ops[i].key !in MapAfter(ops[..i])
  }

  function StackOf<K, V>(m: map<K, V>, k: K): seq<V> {
    if k in m then [m[k]] else []
  }

  /** After each operation, what is stored under every key is what the map says. */
  ghost predicate BehavesAsMap<K(!new), V>(ops: seq<Op<K, V>>) {
    forall n, k :: 0 <= n <= |ops| ==> StackAfter([], k, ops[..n]) == StackOf(MapAfter(ops[..n]), k)
  }

  lemma {:induction false} FreshStack<K, V>(ops: seq<Op<K, V>>, k: K)
    requires FreshInserts(ops)
    ensures StackAfter([], k, ops) == StackOf(MapAfter(ops), k)
  {
    if ops != [] {
      var n := |ops| - 1;
      FreshPrefix(ops, n);
      FreshStack(ops[..n], k);
    }
  }

  lemma FreshPrefix<K, V>(ops: seq<Op<K, V>>, n: nat)
    requires FreshInserts(ops) && n <= |ops|
    ensures FreshInserts(ops[..n])
  {
    var before := ops[..n];
    assert forall i :: 0 <= i < n ==> before[i] == ops[i] && before[..i] == ops[..i];
  }

  /** An empty table behaves as a finite map, so that the assertion that closes a deletion always
      holds, exactly when only new keys are inserted; `set_entry` is free. */
  lemma FiniteMap<K(!new), V>(ops: seq<Op<K, V>>)
    ensures BehavesAsMap(ops) <==> FreshInserts(ops)
  {
    if FreshInserts(ops) {
      forall n, k | 0 <= n <= |ops|
        ensures StackAfter([], k, ops[..n]) == StackOf(MapAfter(ops[..n]), k)
      {
        FreshPrefix(ops, n);
        FreshStack(ops[..n], k);
      }
    }
    if BehavesAsMap(ops) {
      forall i | 0 <= i < |ops| && ops[i].Insert?
        ensures ops[i].key !in MapAfter(ops[..i])
      {
        var k, before, after := ops[i].key, ops[..i], ops[..i + 1];
        assert after[..i] == before && after[i] == ops[i];
        assert StackAfter([], k, after) == [ops[i].data] + StackAfter([], k, before);
        assert |StackAfter([], k, after)| == |StackOf(MapAfter(after), k)| <= 1;
        assert StackAfter([], k, before) == StackOf(MapAfter(before), k);
      }
    }
  }

  /** With any other insertion it fails: deleting the key leaves the older data behind. */
  lemma DuplicateInsert<K, V>(s: seq<V>, k: K, d: V)
    requires s != []
    ensures StackStep(StackStep(s, k, Op.Insert(k, d)), k, Op.Delete(k)) == s
  {
  }
}
