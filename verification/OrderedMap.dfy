/** Finite maps with numeric keys kept in ascending key order, the way `BTreeMap` iterates them. */
module OrderedMap {
  datatype Entry<+V> = Entry(key: nat, value: V)

  datatype Lookup<+V> = Missing | Found(value: V)

  ghost predicate Sorted<V>(m: seq<Entry<V>>) {
    forall i, j :: 0 <= i < j < |m| ==> m[i].key < m[j].key
  }

  /** The keys of a list of bindings. */
  ghost function Keys<V>(m: seq<Entry<V>>): set<nat> {
    set i | 0 <= i < |m| :: m[i].key
  }

  /** The map that a list of distinct bindings stands for. */
  ghost function Contents<V>(m: seq<Entry<V>>): map<nat, V> {
    if m == [] then map[] else Contents(m[1..])[m[0].key := m[0].value]
  }

  lemma {:induction false} ContentsKeys<V>(m: seq<Entry<V>>)
    ensures Contents(m).Keys == Keys(m)
  {
    if m != [] {
      ContentsKeys(m[1..]);
      KeysCons(m[0], m[1..]);
      assert m == [m[0]] + m[1..];
    }
  }

  lemma KeysCons<V>(e: Entry<V>, m: seq<Entry<V>>)
    ensures Keys([e] + m) == {e.key} + Keys(m)
  {
    var em := [e] + m;
    forall k | k in Keys(m)
      ensures k in Keys(em)
    {
      var i :| 0 <= i < |m| && m[i].key == k;
      assert em[i + 1].key == k;
    }
    assert em[0].key == e.key;
  }

  function Get<V>(m: seq<Entry<V>>, key: nat): Lookup<V> {
    if m == [] then Missing
    else if m[0].key == key then Found(m[0].value)
    else Get(m[1..], key)
  }

  /** Binds `key` to `value`, overwriting any earlier binding. */
  function Insert<V>(m: seq<Entry<V>>, key: nat, value: V): (r: seq<Entry<V>>) {
    if m == [] then [Entry(key, value)]
    else if key < m[0].key then [Entry(key, value)] + m
    else if key == m[0].key then [Entry(key, value)] + m[1..]
    else [m[0]] + Insert(m[1..], key, value)
  }

  function Remove<V>(m: seq<Entry<V>>, key: nat): (r: seq<Entry<V>>)
    ensures |r| <= |m|
  {
    if m == [] then []
    else if m[0].key == key then m[1..]
    else [m[0]] + Remove(m[1..], key)
  }

  /** Collecting a list of bindings: later bindings of a key overwrite earlier ones. */
  function Collect<V>(bindings: seq<Entry<V>>): (m: seq<Entry<V>>) {
    if bindings == [] then []
    else
      var last := bindings[|bindings| - 1];
      Insert(Collect(bindings[..|bindings| - 1]), last.key, last.value)
  }

  // ---------------------------------------------------------------- the operations are map operations

  lemma {:induction false} GetContents<V>(m: seq<Entry<V>>, key: nat)
    ensures Get(m, key) == if key in Contents(m) then Found(Contents(m)[key]) else Missing
  {
    if m != [] { GetContents(m[1..], key); }
  }

  lemma {:induction false} InsertContents<V>(m: seq<Entry<V>>, key: nat, value: V)
    ensures Contents(Insert(m, key, value)) == Contents(m)[key := value]
  {
    if m == [] {
    } else if key < m[0].key {
      assert Insert(m, key, value)[1..] == m;
    } else if key == m[0].key {
      assert Insert(m, key, value)[1..] == m[1..];
    } else {
      InsertContents(m[1..], key, value);
      assert Insert(m, key, value)[1..] == Insert(m[1..], key, value);
    }
  }

  /** Inserting keeps the order; the head is the old head or the new key. */
  lemma {:induction false} InsertSorted<V>(m: seq<Entry<V>>, key: nat, value: V)
    requires Sorted(m)
    ensures Sorted(Insert(m, key, value))
    ensures Insert(m, key, value)[0].key == if m != [] && m[0].key < key then m[0].key else key
  {
    if m != [] && key > m[0].key {
      InsertSorted(m[1..], key, value);
      SortedCons(m[0], Insert(m[1..], key, value));
    }
  }

  lemma SortedCons<V>(e: Entry<V>, m: seq<Entry<V>>)
    requires Sorted(m) && (m != [] ==> e.key < m[0].key)
    ensures Sorted([e] + m)
  {
  }

  lemma {:induction false} RemoveContents<V>(m: seq<Entry<V>>, key: nat)
    requires Sorted(m)
    ensures Contents(Remove(m, key)) == Contents(m) - {key}
  {
    if m == [] {
    } else if m[0].key == key {
      ContentsKeys(m[1..]);
      assert key !in Keys(m[1..]);
      assert Contents(m[1..]) == Contents(m) - {key};
    } else {
      RemoveContents(m[1..], key);
      assert Remove(m, key)[1..] == Remove(m[1..], key);
    }
  }

  /** `Collect` is the sorted list of the map in which the last binding of every key wins. */
  ghost function LastWins<V>(bindings: seq<Entry<V>>): map<nat, V> {
    if bindings == [] then map[]
    else LastWins(bindings[..|bindings| - 1])[bindings[|bindings| - 1].key := bindings[|bindings| - 1].value]
  }

  lemma {:induction false} CollectLastWins<V>(bindings: seq<Entry<V>>)
    ensures Sorted(Collect(bindings)) && Contents(Collect(bindings)) == LastWins(bindings)
  {
    if bindings != [] {
      var init, last := bindings[..|bindings| - 1], bindings[|bindings| - 1];
      CollectLastWins(init);
      InsertContents(Collect(init), last.key, last.value);
      InsertSorted(Collect(init), last.key, last.value);
    }
  }

  /** A sorted list is determined by the map it stands for. */
  lemma {:induction false} SortedUnique<V>(m: seq<Entry<V>>, n: seq<Entry<V>>)
    requires Sorted(m) && Sorted(n) && Contents(m) == Contents(n)
    ensures m == n
  {
    ContentsKeys(m);
    ContentsKeys(n);
    assert m != [] ==> m[0].key in Keys(m);
    assert n != [] ==> n[0].key in Keys(n);
    if m != [] && n != [] {
      SameHead(m, n);
      TailContents(m);
      TailContents(n);
      SortedUnique(m[1..], n[1..]);
      assert m == [m[0]] + m[1..] && n == [n[0]] + n[1..];
    }
  }

  lemma SameHead<V>(m: seq<Entry<V>>, n: seq<Entry<V>>)
    requires Sorted(m) && Sorted(n) && m != [] && n != [] && Contents(m) == Contents(n)
    ensures m[0] == n[0]
  {
    ContentsKeys(m);
    ContentsKeys(n);
    assert m[0].key in Keys(m) && n[0].key in Keys(n);
    assert m[0].key in Keys(n) && n[0].key in Keys(m);
    assert m[0].key == n[0].key;
    assert Contents(m)[m[0].key] == m[0].value && Contents(n)[n[0].key] == n[0].value;
  }

  lemma {:induction false} ContentsAt<V>(m: seq<Entry<V>>, i: nat)
    requires Sorted(m) && i < |m|
    ensures m[i].key in Contents(m) && Contents(m)[m[i].key] == m[i].value
  {
    if i > 0 { ContentsAt(m[1..], i - 1); }
  }

  /** No later binding has the same key. */
  ghost predicate IsLast<V>(bindings: seq<Entry<V>>, i: nat) {
    i < |bindings| && forall j :: i < j < |bindings| ==> bindings[j].key != bindings[i].key
  }

  lemma {:induction false} LastWinsAt<V>(bindings: seq<Entry<V>>, i: nat)
    requires IsLast(bindings, i)
    ensures bindings[i].key in LastWins(bindings) && LastWins(bindings)[bindings[i].key] == bindings[i].value
  {
    if i < |bindings| - 1 {
      assert bindings[|bindings| - 1].key != bindings[i].key;
      LastWinsAt(bindings[..|bindings| - 1], i);
    }
  }

  /** Every key has a last binding. */
  lemma {:induction false} LastExists<V>(bindings: seq<Entry<V>>, i: nat) returns (j: nat)
    requires i < |bindings|
    ensures i <= j && IsLast(bindings, j) && bindings[j].key == bindings[i].key
    decreases |bindings| - i
  {
    j := i;
    if !IsLast(bindings, i) {
      var k :| i < k < |bindings| && bindings[k].key == bindings[i].key;
      j := LastExists(bindings, k);
    }
  }

  ghost predicate Distinct<V>(bindings: seq<Entry<V>>) {
    forall i, j :: 0 <= i < j < |bindings| ==> bindings[i].key != bindings[j].key
  }

  lemma DistinctAllLast<V>(bindings: seq<Entry<V>>)
    ensures Distinct(bindings) <==> forall i :: 0 <= i < |bindings| ==> IsLast(bindings, i)
  {
    if forall i :: 0 <= i < |bindings| ==> IsLast(bindings, i) {
      forall i, j | 0 <= i < j < |bindings|
        ensures bindings[i].key != bindings[j].key
      {
        assert IsLast(bindings, i);
      }
    }
  }

  lemma {:induction false} LastWinsKeys<V>(bindings: seq<Entry<V>>)
    ensures LastWins(bindings).Keys == Keys(bindings)
  {
    if bindings != [] {
      var init, last := bindings[..|bindings| - 1], bindings[|bindings| - 1];
      LastWinsKeys(init);
      assert Keys(bindings) == Keys(init) + {last.key};
    }
  }

  lemma TailContents<V>(m: seq<Entry<V>>)
    requires Sorted(m) && m != []
    ensures Contents(m[1..]) == Contents(m) - {m[0].key}
  {
    RemoveContents(m, m[0].key);
  }
}
