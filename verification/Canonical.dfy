/** One map, one encoding: insertion order is irrelevant at every level of nesting. */
module Canonical {
  import opened Bytes
  import opened Wire
  import opened PackEncoder

  /** Sorting fields and encoding them commute, because sorting only looks at keys. */
  lemma {:induction false} InsertThenEncode(x: Item<Key, Value>, fields: seq<Item<Key, Value>>)
    ensures EncodeFields(InsertByKey(KeyLe, x, fields))
         == InsertByKey(KeyLe, Item(x.key, EncodeValue(x.value)), EncodeFields(fields))
  {
    if fields == [] || KeyLe(x.key, fields[0].key) {
      assert ([x] + fields)[1..] == fields;
    } else {
      InsertThenEncode(x, fields[1..]);
      assert InsertByKey(KeyLe, x, fields)[1..] == InsertByKey(KeyLe, x, fields[1..]);
      assert EncodeFields(fields)[1..] == EncodeFields(fields[1..]);
    }
  }

  lemma {:induction false} SortThenEncode(fields: seq<Item<Key, Value>>)
    ensures EncodeFields(SortByKey(KeyLe, fields)) == SortByKey(KeyLe, EncodeFields(fields))
  {
    if fields != [] {
      SortThenEncode(fields[1..]);
      InsertThenEncode(fields[0], SortByKey(KeyLe, fields[1..]));
      assert EncodeFields(fields)[1..] == EncodeFields(fields[1..]);
    }
  }

  lemma {:induction false} InsertThenEncodeEntry(x: Item<U64, Pack>, entries: seq<Item<U64, Pack>>)
    ensures EncodeEntries(InsertByKey(NumLe, x, entries))
         == InsertByKey(NumLe, Item(x.key, EncodePack(x.value)), EncodeEntries(entries))
  {
    if entries == [] || NumLe(x.key, entries[0].key) {
      assert ([x] + entries)[1..] == entries;
    } else {
      InsertThenEncodeEntry(x, entries[1..]);
      assert InsertByKey(NumLe, x, entries)[1..] == InsertByKey(NumLe, x, entries[1..]);
      assert EncodeEntries(entries)[1..] == EncodeEntries(entries[1..]);
    }
  }

  lemma {:induction false} SortThenEncodeEntries(entries: seq<Item<U64, Pack>>)
    ensures EncodeEntries(SortByKey(NumLe, entries)) == SortByKey(NumLe, EncodeEntries(entries))
  {
    if entries != [] {
      SortThenEncodeEntries(entries[1..]);
      InsertThenEncodeEntry(entries[0], SortByKey(NumLe, entries[1..]));
      assert EncodeEntries(entries)[1..] == EncodeEntries(entries[1..]);
    }
  }

  // ---------------------------------------------------------------- one map

  /** Distinct keys have one sorted arrangement, whatever arrangement they come in. */
  lemma SortedAlike<K(!new), V>(le: (K, K) -> bool, s: seq<Item<K, V>>, t: seq<Item<K, V>>)
    requires TotalOrder(le) && multiset(s) == multiset(t) && DistinctKeys(s)
    ensures SortByKey(le, s) == SortByKey(le, t)
  {
    SortAscending(le, s);
    SortAscending(le, t);
    DistinctPermutation(s, SortByKey(le, s));
    AscendingUnique(le, SortByKey(le, s), SortByKey(le, t));
  }

  lemma NumLeIsTotalOrder()
    ensures TotalOrder(NumLe)
  {
  }

  /** Two maps with the same fields, inserted in whatever order, have one encoding. */
  lemma InsertionOrderIrrelevant(p: Pack, q: Pack)
    requires multiset(p.fields) == multiset(q.fields) && DistinctKeys(p.fields)
    ensures EncodePack(p) == EncodePack(q)
  {
    hide WriteMapHeader, JoinFields, EncodeFields, SortByKey;
    assert |multiset(p.fields)| == |p.fields| && |multiset(q.fields)| == |q.fields|;
    KeyLeIsTotalOrder();
    SortedAlike(KeyLe, p.fields, q.fields);
    SortThenEncode(p.fields);
    SortThenEncode(q.fields);
  }

  /** The same for integer-keyed maps. */
  lemma EntryOrderIrrelevant(es: seq<Item<U64, Pack>>, fs: seq<Item<U64, Pack>>)
    requires multiset(es) == multiset(fs) && DistinctKeys(es)
    ensures EncodeValue(UintKeyedMap(es)) == EncodeValue(UintKeyedMap(fs))
  {
    hide WriteMapHeader, JoinEntries, EncodeEntries, SortByKey;
    assert |multiset(es)| == |es| && |multiset(fs)| == |fs|;
    NumLeIsTotalOrder();
    SortedAlike(NumLe, es, fs);
    SortThenEncodeEntries(es);
    SortThenEncodeEntries(fs);
  }

  lemma {:induction false} DistinctPermutation<K, V>(s: seq<Item<K, V>>, t: seq<Item<K, V>>)
    requires DistinctKeys(s) && multiset(s) == multiset(t)
    ensures DistinctKeys(t)
  {
    forall i, j | 0 <= i < j < |t|
      ensures t[i].key != t[j].key
    {
      if t[i].key == t[j].key {
        assert t[i] in multiset(s) && t[j] in multiset(s);
        assert t[i] == t[j];
        TwiceInSequence(t, i, j);
        OnceWhenDistinct(s, t[i]);
        assert false;
      }
    }
  }

  lemma TwiceInSequence<T>(t: seq<T>, i: nat, j: nat)
    requires i < j < |t| && t[i] == t[j]
    ensures multiset(t)[t[i]] >= 2
  {
    assert t == t[..j] + [t[j]] + t[j + 1..];
    assert t[..j][i] == t[i] && t[i] in multiset(t[..j]);
  }

  lemma {:induction false} OnceWhenDistinct<K, V>(s: seq<Item<K, V>>, x: Item<K, V>)
    requires DistinctKeys(s)
    ensures multiset(s)[x] <= 1
  {
    if s != [] {
      OnceWhenDistinct(s[1..], x);
      assert s == [s[0]] + s[1..];
      if x == s[0] { assert x !in multiset(s[1..]); }
    }
  }

  // ---------------------------------------------------------------- maps within maps

  /** The maps differ only in the order of their fields, here and in every map within them. */
  ghost predicate SamePack(p: Pack, q: Pack)
    decreases p, 1
  {
    exists mid: seq<Item<Key, Value>> :: multiset(mid) == multiset(q.fields) && SameFields(p.fields, mid)
  }

  ghost predicate SameFields(s: seq<Item<Key, Value>>, t: seq<Item<Key, Value>>)
    decreases s, 0
  {
    |s| == |t| && forall i :: 0 <= i < |s| ==>
      (assert s decreases to s[i]; s[i].key == t[i].key && SameValue(s[i].value, t[i].value))
  }

  ghost predicate SameValue(v: Value, w: Value)
    decreases v, 2
  {
    match v
    case Map(p) => w.Map? && SamePack(p, w.pack)
    case UintKeyedMap(es) =>
      && w.UintKeyedMap?
      && exists mid: seq<Item<U64, Pack>> :: multiset(mid) == multiset(w.entries) && SameEntries(es, mid)
    case _ => v == w
  }

  ghost predicate SameEntries(s: seq<Item<U64, Pack>>, t: seq<Item<U64, Pack>>)
    decreases s, 0
  {
    |s| == |t| && forall i :: 0 <= i < |s| ==>
      (assert s decreases to s[i]; s[i].key == t[i].key && SamePack(s[i].value, t[i].value))
  }

  /** Keys are distinct in this map and in every map within it. */
  ghost predicate DistinctThroughout(p: Pack)
    decreases p, 1
  {
    DistinctKeys(p.fields) && FieldsDistinct(p.fields)
  }

  ghost predicate FieldsDistinct(fields: seq<Item<Key, Value>>)
    decreases fields, 0
  {
    forall i :: 0 <= i < |fields| ==> (assert fields decreases to fields[i]; DistinctWithin(fields[i].value))
  }

  ghost predicate EntriesDistinct(entries: seq<Item<U64, Pack>>)
    decreases entries, 0
  {
    forall i :: 0 <= i < |entries| ==> (assert entries decreases to entries[i]; DistinctThroughout(entries[i].value))
  }

  ghost predicate DistinctWithin(v: Value)
    decreases v, 2
  {
    match v
    case Map(p) => DistinctThroughout(p)
    case UintKeyedMap(es) => DistinctKeys(es) && EntriesDistinct(es)
    case _ => true
  }

  /** Maps that are the same up to the order of fields at every level have one encoding. */
  lemma {:induction false} SamePackSameBytes(p: Pack, q: Pack)
    requires SamePack(p, q) && DistinctThroughout(p)
    ensures EncodePack(p) == EncodePack(q)
    decreases p, 1
  {
    var mid: seq<Item<Key, Value>> :| multiset(mid) == multiset(q.fields) && SameFields(p.fields, mid);
    SameFieldsSameBytes(p.fields, mid);
    assert EncodePack(p) == EncodePack(Pack(mid));
    InsertionOrderIrrelevant(Pack(mid), q);
  }

  lemma {:induction false} SameFieldsSameBytes(s: seq<Item<Key, Value>>, t: seq<Item<Key, Value>>)
    requires SameFields(s, t) && FieldsDistinct(s)
    ensures EncodeFields(s) == EncodeFields(t)
    decreases s, 0
  {
    hide EncodeValue, SameValue, DistinctWithin;
    if s != [] {
      assert s decreases to s[0];
      SameValueSameBytes(s[0].value, t[0].value);
      SameFieldsSameBytes(s[1..], t[1..]);
    }
  }

  lemma {:induction false} SameValueSameBytes(v: Value, w: Value)
    requires SameValue(v, w) && DistinctWithin(v)
    ensures EncodeValue(v) == EncodeValue(w)
    decreases v, 2
  {
    match v
    case Map(p) => SamePackSameBytes(p, w.pack);
    case UintKeyedMap(es) =>
      var mid: seq<Item<U64, Pack>> :| multiset(mid) == multiset(w.entries) && SameEntries(es, mid);
      SameEntriesSameBytes(es, mid);
      assert EncodeValue(UintKeyedMap(es)) == EncodeValue(UintKeyedMap(mid));
      EntryOrderIrrelevant(mid, w.entries);
    case _ =>
  }

  lemma {:induction false} SameEntriesSameBytes(s: seq<Item<U64, Pack>>, t: seq<Item<U64, Pack>>)
    requires SameEntries(s, t) && EntriesDistinct(s)
    ensures EncodeEntries(s) == EncodeEntries(t)
    decreases s, 0
  {
    hide EncodePack, SamePack, DistinctThroughout;
    if s != [] {
      assert s decreases to s[0];
      SamePackSameBytes(s[0].value, t[0].value);
      SameEntriesSameBytes(s[1..], t[1..]);
    }
  }
}
