/** The canonical map builder: nested values, sorted keys, and the bytes they are written as. */
module PackEncoder {
  import opened Bytes
  import opened Wire

  /** Map keys are string literals that `write_str` accepts. */
  type Key = k: seq<Byte> | |k| <= MAX_STR && Utf8(k)

  datatype Item<+K, +V> = Item(key: K, value: V)

  datatype Value =
    | Uint(v: U64)
    | Bin(b: seq<Byte>)
    | BinArray(bins: seq<seq<Byte>>)
    | UintArray(uints: seq<U64>)
    | UintKeyedMap(entries: seq<Item<U64, Pack>>)
    | Map(pack: Pack)

  datatype Pack = Pack(fields: seq<Item<Key, Value>>) {
    /** Appends a u64 field; omitted if zero. */
    function AddUint(key: Key, v: U64): Pack {
      if v != 0 then Pack(fields + [Item(key, Uint(v))]) else this
    }

    /** Appends a binary field; omitted if empty. */
    function AddBytes(key: Key, b: seq<Byte>): Pack {
      if b != [] then Pack(fields + [Item(key, Bin(b))]) else this
    }

    /** Appends an array of binaries; omitted if empty. */
    function AddBytesArray(key: Key, bins: seq<seq<Byte>>): Pack {
      if bins != [] then Pack(fields + [Item(key, BinArray(bins))]) else this
    }

    /** Appends a nested map; omitted if it has no entries. */
    function AddMap(key: Key, inner: Pack): Pack {
      if inner.fields != [] then Pack(fields + [Item(key, Map(inner))]) else this
    }
  }

  // ---------------------------------------------------------------- sorting by key

  /** Inserts before the first greater key. */
  function InsertByKey<K, V>(le: (K, K) -> bool, x: Item<K, V>, s: seq<Item<K, V>>): (r: seq<Item<K, V>>)
    ensures |r| == |s| + 1 && multiset(r) == multiset(s) + multiset{x}
  {
    if s == [] then [x]
    else if le(x.key, s[0].key) then [x] + s
    else
      assert s == [s[0]] + s[1..];
      [s[0]] + InsertByKey(le, x, s[1..])
  }

  function SortByKey<K, V>(le: (K, K) -> bool, s: seq<Item<K, V>>): (r: seq<Item<K, V>>)
    ensures |r| == |s| && multiset(r) == multiset(s)
  {
    if s == [] then []
    else
      assert s == [s[0]] + s[1..];
      InsertByKey(le, s[0], SortByKey(le, s[1..]))
  }

  ghost predicate TotalOrder<K(!new)>(le: (K, K) -> bool) {
    && (forall x, y :: le(x, y) || le(y, x))
    && (forall x, y :: le(x, y) && le(y, x) ==> x == y)
    && (forall x, y, z :: le(x, y) && le(y, z) ==> le(x, z))
  }

  ghost predicate Ascending<K, V>(le: (K, K) -> bool, s: seq<Item<K, V>>) {
    forall i, j :: 0 <= i < j < |s| ==> le(s[i].key, s[j].key)
  }

  ghost predicate DistinctKeys<K, V>(s: seq<Item<K, V>>) {
    forall i, j :: 0 <= i < j < |s| ==> s[i].key != s[j].key
  }

  lemma {:induction false} InsertAscending<K(!new), V>(le: (K, K) -> bool, x: Item<K, V>, s: seq<Item<K, V>>)
    requires TotalOrder(le) && Ascending(le, s)
    ensures Ascending(le, InsertByKey(le, x, s))
  {
    if s != [] && !le(x.key, s[0].key) {
      var r := InsertByKey(le, x, s[1..]);
      InsertAscending(le, x, s[1..]);
      forall i | 0 <= i < |r|
        ensures le(s[0].key, r[i].key)
      {
        assert r[i] in multiset(r);
        assert r[i] == x || r[i] in s[1..];
      }
    }
  }

  /** The sorted list is ascending, and a permutation of the original by `SortByKey`'s contract. */
  lemma {:induction false} SortAscending<K(!new), V>(le: (K, K) -> bool, s: seq<Item<K, V>>)
    requires TotalOrder(le)
    ensures Ascending(le, SortByKey(le, s))
  {
    if s != [] {
      SortAscending(le, s[1..]);
      InsertAscending(le, s[0], SortByKey(le, s[1..]));
    }
  }

  /** Sorting a list that is already in order changes nothing. */
  lemma {:induction false} SortAscendingIsIdentity<K(!new), V>(le: (K, K) -> bool, s: seq<Item<K, V>>)
    requires TotalOrder(le) && Ascending(le, s)
    ensures SortByKey(le, s) == s
  {
    if s != [] {
      SortAscendingIsIdentity(le, s[1..]);
      if |s| > 1 { assert le(s[0].key, s[1].key); }
    }
  }

  /** With distinct keys there is only one ascending arrangement, so insertion order is irrelevant. */
  lemma {:induction false} AscendingUnique<K(!new), V>(le: (K, K) -> bool, s: seq<Item<K, V>>, t: seq<Item<K, V>>)
    requires TotalOrder(le) && Ascending(le, s) && Ascending(le, t) && DistinctKeys(s)
    requires multiset(s) == multiset(t)
    ensures s == t
    decreases |s|
  {
    assert |multiset(s)| == |multiset(t)| == |t|;
    if s != [] {
      LeastUnique(le, s, t);
      TailMultiset(s);
      TailMultiset(t);
      AscendingUnique(le, s[1..], t[1..]);
      assert s == [s[0]] + s[1..] && t == [t[0]] + t[1..];
    }
  }

  lemma TailMultiset<T>(s: seq<T>)
    requires s != []
    ensures multiset(s[1..]) == multiset(s) - multiset{s[0]}
  {
    assert s == [s[0]] + s[1..];
  }

  lemma LeastKey<K(!new), V>(le: (K, K) -> bool, s: seq<Item<K, V>>, x: Item<K, V>)
    requires TotalOrder(le) && Ascending(le, s) && x in s
    ensures le(s[0].key, x.key)
  {
    assert le(x.key, x.key);
  }

  lemma LeastUnique<K(!new), V>(le: (K, K) -> bool, s: seq<Item<K, V>>, t: seq<Item<K, V>>)
    requires TotalOrder(le) && Ascending(le, s) && Ascending(le, t) && DistinctKeys(s)
    requires multiset(s) == multiset(t) && s != [] && t != []
    ensures s[0] == t[0]
  {
    assert t[0] in multiset(s) && s[0] in multiset(t);
    LeastKey(le, s, t[0]);
    LeastKey(le, t, s[0]);
  }

  // ---------------------------------------------------------------- key orders

  /** Byte-wise lexicographic order, the order of Rust string slices. */
  predicate LexLe(a: seq<Byte>, b: seq<Byte>)
    decreases |a|
  {
    if a == [] then true
    else if b == [] then false
    else if a[0] == b[0] then LexLe(a[1..], b[1..])
    else a[0] < b[0]
  }

  /** The first byte in which the two differ. */
  predicate DifferAt(a: seq<Byte>, b: seq<Byte>, k: nat) {
    k < |a| && k < |b| && a[..k] == b[..k] && a[k] != b[k]
  }

  /** One comes before the other exactly if it is its beginning, or smaller where they first differ. */
  lemma {:induction false} LexLeIff(a: seq<Byte>, b: seq<Byte>)
    ensures LexLe(a, b) <==> a <= b || exists k: nat :: DifferAt(a, b, k) && a[k] < b[k]
    decreases |a|
  {
    if a != [] && b != [] {
      assert a == [a[0]] + a[1..] && b == [b[0]] + b[1..];
      if a[0] == b[0] {
        LexLeIff(a[1..], b[1..]);
        assert a <= b <==> a[1..] <= b[1..];
        if k: nat :| DifferAt(a[1..], b[1..], k) && a[1..][k] < b[1..][k] {
          assert a[..k + 1] == [a[0]] + a[1..][..k] && b[..k + 1] == [b[0]] + b[1..][..k];
          assert DifferAt(a, b, k + 1);
        }
        if k: nat :| DifferAt(a, b, k) && a[k] < b[k] {
          assert a[1..][..k - 1] == a[..k][1..] && b[1..][..k - 1] == b[..k][1..];
          assert DifferAt(a[1..], b[1..], k - 1);
        }
      } else {
        assert DifferAt(a, b, 0);
      }
    }
  }

  /** The entries of an integer-keyed map are written in ascending order of their numbers. */
  lemma NumbersAscend<V>(entries: seq<Item<U64, V>>)
    ensures var sorted := SortByKey(NumLe, entries);
            && multiset(sorted) == multiset(entries)
            && forall i, j :: 0 <= i < j < |sorted| ==> sorted[i].key <= sorted[j].key
  {
    SortAscending(NumLe, entries);
  }

  lemma {:induction false} LexTotal(a: seq<Byte>, b: seq<Byte>)
    ensures LexLe(a, b) || LexLe(b, a)
    ensures LexLe(a, b) && LexLe(b, a) ==> a == b
    decreases |a|
  {
    if a != [] && b != [] {
      LexTotal(a[1..], b[1..]);
      assert a == [a[0]] + a[1..] && b == [b[0]] + b[1..];
    }
  }

  lemma {:induction false} LexTransitive(a: seq<Byte>, b: seq<Byte>, c: seq<Byte>)
    requires LexLe(a, b) && LexLe(b, c)
    ensures LexLe(a, c)
    decreases |a|
  {
    if a != [] && a[0] == b[0] == c[0] { LexTransitive(a[1..], b[1..], c[1..]); }
  }

  predicate KeyLe(a: Key, b: Key) { LexLe(a, b) }

  lemma KeyLeIsTotalOrder()
    ensures TotalOrder(KeyLe)
  {
    forall x: Key, y: Key
      ensures KeyLe(x, y) || KeyLe(y, x)
      ensures KeyLe(x, y) && KeyLe(y, x) ==> x == y
    {
      LexTotal(x, y);
    }
    forall x: Key, y: Key, z: Key | KeyLe(x, y) && KeyLe(y, z)
      ensures KeyLe(x, z)
    {
      LexTransitive(x, y, z);
    }
  }

  predicate NumLe(a: U64, b: U64) { a <= b }

  // ---------------------------------------------------------------- encoding

  function EncodeValue(v: Value): seq<Byte>
    decreases v, 1
  {
    match v
    case Uint(n) => WriteUint(n)
    case Bin(b) => WriteBin(b)
    case BinArray(bins) => WriteArrayHeader(|bins|) + WriteBins(bins)
    case UintArray(uints) => WriteArrayHeader(|uints|) + WriteUints(uints)
    case UintKeyedMap(entries) =>
      WriteMapHeader(|entries|) + JoinEntries(SortByKey(NumLe, EncodeEntries(entries)))
    case Map(pack) => EncodePack(pack)
  }

  /** The canonical bytes of a map: its header, then the fields in key order. */
  function EncodePack(p: Pack): seq<Byte>
    decreases p, 1
  {
    WriteMapHeader(|p.fields|) + JoinFields(SortByKey(KeyLe, EncodeFields(p.fields)))
  }

  function EncodeFields(fields: seq<Item<Key, Value>>): (r: seq<Item<Key, seq<Byte>>>)
    ensures |r| == |fields|
    decreases fields, 0
  {
    if fields == [] then []
    else
      assert fields decreases to fields[0];
      [Item(fields[0].key, EncodeValue(fields[0].value))] + EncodeFields(fields[1..])
  }

  function EncodeEntries(entries: seq<Item<U64, Pack>>): (r: seq<Item<U64, seq<Byte>>>)
    ensures |r| == |entries|
    decreases entries, 0
  {
    if entries == [] then []
    else
      assert entries decreases to entries[0];
      [Item(entries[0].key, EncodePack(entries[0].value))] + EncodeEntries(entries[1..])
  }

  function JoinFields(items: seq<Item<Key, seq<Byte>>>): seq<Byte> {
    if items == [] then [] else WriteStr(items[0].key) + items[0].value + JoinFields(items[1..])
  }

  function JoinEntries(items: seq<Item<U64, seq<Byte>>>): seq<Byte> {
    if items == [] then [] else WriteUint(items[0].key) + items[0].value + JoinEntries(items[1..])
  }

  function WriteBins(bins: seq<seq<Byte>>): seq<Byte> {
    if bins == [] then [] else WriteBin(bins[0]) + WriteBins(bins[1..])
  }

  function WriteUints(uints: seq<U64>): seq<Byte> {
    if uints == [] then [] else WriteUint(uints[0]) + WriteUints(uints[1..])
  }

  // ---------------------------------------------------------------- the skipper reads every encoding

  /** All lengths fit the widest format. */
  predicate InRange(v: Value)
    decreases v, 1
  {
    match v
    case Uint(_) => true
    case Bin(b) => |b| < TWO_32
    case BinArray(bins) => |bins| < TWO_32 && forall i :: 0 <= i < |bins| ==> |bins[i]| < TWO_32
    case UintArray(uints) => |uints| < TWO_32
    case UintKeyedMap(entries) => |entries| < TWO_32 && EntriesInRange(entries)
    case Map(pack) => PackInRange(pack)
  }

  predicate PackInRange(p: Pack)
    decreases p, 1
  {
    |p.fields| < TWO_32 && FieldsInRange(p.fields)
  }

  predicate FieldsInRange(fields: seq<Item<Key, Value>>)
    decreases fields, 0
  {
    fields == [] ||
    (assert fields decreases to fields[0];
     InRange(fields[0].value) && FieldsInRange(fields[1..]))
  }

  predicate EntriesInRange(entries: seq<Item<U64, Pack>>)
    decreases entries, 0
  {
    entries == [] ||
    (assert entries decreases to entries[0];
     PackInRange(entries[0].value) && EntriesInRange(entries[1..]))
  }

  /** The bytes are exactly one value to the skipper, whatever follows them. */
  ghost predicate OneValue(bytes: seq<Byte>) {
    forall rest :: Skip(bytes + rest) == Ok((), rest)
  }

  lemma {:induction false} EncodedValueIsOneValue(v: Value, rest: seq<Byte>)
    requires InRange(v)
    ensures Skip(EncodeValue(v) + rest) == Ok((), rest)
    decreases v, 1
  {
    match v
    case Uint(n) =>
      UintRoundTrip(n, rest);
      ReadUintConforms(EncodeValue(v) + rest, []);
    case Bin(b) =>
      BinRoundTrip(b, rest);
      ReadBinConforms(EncodeValue(v) + rest, []);
    case BinArray(bins) =>
      ArraySkip(|bins|, WriteBins(bins), rest);
      BinsSkip(bins, rest);
    case UintArray(uints) =>
      ArraySkip(|uints|, WriteUints(uints), rest);
      UintsSkip(uints, rest);
    case UintKeyedMap(entries) =>
      var items := EncodeEntries(entries);
      MapSkip(|entries|, JoinEntries(SortByKey(NumLe, items)), rest);
      EntriesAreValues(entries);
      SortedValues(NumLe, items);
      EntriesSkip(SortByKey(NumLe, items), rest);
    case Map(pack) => EncodedPackIsOneValue(pack, rest);
  }

  /** Whatever map was encoded, the skipper steps over exactly its bytes. */
  lemma {:induction false} EncodedPackIsOneValue(p: Pack, rest: seq<Byte>)
    requires PackInRange(p)
    ensures Skip(EncodePack(p) + rest) == Ok((), rest)
    decreases p, 1
  {
    var items := EncodeFields(p.fields);
    MapSkip(|p.fields|, JoinFields(SortByKey(KeyLe, items)), rest);
    FieldsAreValues(p.fields);
    SortedValues(KeyLe, items);
    FieldsSkip(SortByKey(KeyLe, items), rest);
  }

  ghost predicate AllOneValue<K>(items: seq<Item<K, seq<Byte>>>) {
    forall i :: 0 <= i < |items| ==> OneValue(items[i].value)
  }

  lemma {:induction false} FieldsAreValues(fields: seq<Item<Key, Value>>)
    requires FieldsInRange(fields)
    ensures AllOneValue(EncodeFields(fields))
    decreases fields, 0
  {
    if fields != [] {
      assert fields decreases to fields[0];
      forall rest
        ensures Skip(EncodeValue(fields[0].value) + rest) == Ok((), rest)
      {
        EncodedValueIsOneValue(fields[0].value, rest);
      }
      FieldsAreValues(fields[1..]);
    }
  }

  lemma {:induction false} EntriesAreValues(entries: seq<Item<U64, Pack>>)
    requires EntriesInRange(entries)
    ensures AllOneValue(EncodeEntries(entries))
    decreases entries, 0
  {
    if entries != [] {
      assert entries decreases to entries[0];
      forall rest
        ensures Skip(EncodePack(entries[0].value) + rest) == Ok((), rest)
      {
        EncodedPackIsOneValue(entries[0].value, rest);
      }
      EntriesAreValues(entries[1..]);
    }
  }

  lemma SortedValues<K>(le: (K, K) -> bool, items: seq<Item<K, seq<Byte>>>)
    requires AllOneValue(items)
    ensures AllOneValue(SortByKey(le, items))
  {
    var sorted := SortByKey(le, items);
    forall i | 0 <= i < |sorted|
      ensures OneValue(sorted[i].value)
    {
      assert sorted[i] in multiset(items);
    }
  }

  lemma MapSkip(n: nat, body: seq<Byte>, rest: seq<Byte>)
    requires n < TWO_32
    ensures Skip((WriteMapHeader(n) + body) + rest) == SkipMany(2 * n, body + rest)
  {
    assert (WriteMapHeader(n) + body) + rest == WriteMapHeader(n) + (body + rest);
    HeaderRoundTrip(n, body + rest);
    HeadersSkip(WriteMapHeader(n) + (body + rest));
  }

  lemma ArraySkip(n: nat, body: seq<Byte>, rest: seq<Byte>)
    requires n < TWO_32
    ensures Skip((WriteArrayHeader(n) + body) + rest) == SkipMany(n, body + rest)
  {
    assert (WriteArrayHeader(n) + body) + rest == WriteArrayHeader(n) + (body + rest);
    HeaderRoundTrip(n, body + rest);
    HeadersSkip(WriteArrayHeader(n) + (body + rest));
  }

  /** Skipping a value and then `n` more is skipping `n + 1`. */
  lemma SkipOneMore(n: nat, first: seq<Byte>, more: seq<Byte>, rest: seq<Byte>)
    requires Skip(first + (more + rest)) == Ok((), more + rest)
    ensures SkipMany(n + 1, (first + more) + rest) == SkipMany(n, more + rest)
  {
    hide Skip;
    assert (first + more) + rest == first + (more + rest);
  }

  lemma SkipNone(s: seq<Byte>)
    ensures SkipMany(0, s) == Ok((), s)
  {
  }

  lemma {:induction false} BinsSkip(bins: seq<seq<Byte>>, rest: seq<Byte>)
    requires forall i :: 0 <= i < |bins| ==> |bins[i]| < TWO_32
    ensures SkipMany(|bins|, WriteBins(bins) + rest) == Ok((), rest)
  {
    if bins == [] {
      assert WriteBins(bins) + rest == rest;
    } else {
      var more := WriteBins(bins[1..]);
      BinRoundTrip(bins[0], more + rest);
      ReadBinConforms(WriteBin(bins[0]) + (more + rest), []);
      SkipOneMore(|bins| - 1, WriteBin(bins[0]), more, rest);
      BinsSkip(bins[1..], rest);
    }
  }

  lemma {:induction false} UintsSkip(uints: seq<U64>, rest: seq<Byte>)
    ensures SkipMany(|uints|, WriteUints(uints) + rest) == Ok((), rest)
  {
    if uints == [] {
      assert WriteUints(uints) + rest == rest;
    } else {
      var more := WriteUints(uints[1..]);
      UintRoundTrip(uints[0], more + rest);
      ReadUintConforms(WriteUint(uints[0]) + (more + rest), []);
      SkipOneMore(|uints| - 1, WriteUint(uints[0]), more, rest);
      UintsSkip(uints[1..], rest);
    }
  }

  lemma {:induction false} FieldsSkip(items: seq<Item<Key, seq<Byte>>>, rest: seq<Byte>)
    requires AllOneValue(items)
    ensures SkipMany(2 * |items|, JoinFields(items) + rest) == Ok((), rest)
  {
    hide Skip, SkipMany, WriteStr;
    if items == [] {
      assert SkipMany(0, rest) == Ok((), rest) by { SkipNone(rest); }
      assert JoinFields(items) + rest == rest;
    } else {
      var more := JoinFields(items[1..]);
      var key, value := WriteStr(items[0].key), items[0].value;
      assert JoinFields(items) == key + (value + more);
      StrRoundTrip(items[0].key, (value + more) + rest);
      SkipOneMore(2 * |items| - 1, key, value + more, rest);
      assert OneValue(value) && Skip(value + (more + rest)) == Ok((), more + rest);
      SkipOneMore(2 * |items| - 2, value, more, rest);
      FieldsSkip(items[1..], rest);
    }
  }

  lemma {:induction false} EntriesSkip(items: seq<Item<U64, seq<Byte>>>, rest: seq<Byte>)
    requires AllOneValue(items)
    ensures SkipMany(2 * |items|, JoinEntries(items) + rest) == Ok((), rest)
  {
    hide Skip, SkipMany, WriteUint;
    if items == [] {
      assert SkipMany(0, rest) == Ok((), rest) by { SkipNone(rest); }
      assert JoinEntries(items) + rest == rest;
    } else {
      var more := JoinEntries(items[1..]);
      var key, value := WriteUint(items[0].key), items[0].value;
      assert JoinEntries(items) == key + (value + more);
      UintRoundTrip(items[0].key, (value + more) + rest);
      ReadUintConforms(key + ((value + more) + rest), []);
      SkipOneMore(2 * |items| - 1, key, value + more, rest);
      assert OneValue(value) && Skip(value + (more + rest)) == Ok((), more + rest);
      SkipOneMore(2 * |items| - 2, value, more, rest);
      EntriesSkip(items[1..], rest);
    }
  }
}
