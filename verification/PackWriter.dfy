/** The writers as they run: every one appends to a growing output buffer. */
module PackWriter {
  import opened Bytes
  import opened Wire
  import opened PackEncoder
  import opened Canonical

  lemma NothingLeft()
    ensures WriteUints([]) == [] && WriteBins([]) == []
  {
  }

  lemma UintsStep(pre: seq<Byte>, uints: seq<U64>, i: nat)
    requires i < |uints|
    ensures pre + WriteUints(uints[i..]) == pre + WriteUint(uints[i]) + WriteUints(uints[i + 1..])
  {
    hide WriteUint;
    assert uints[i..][1..] == uints[i + 1..];
  }

  lemma BinsStep(pre: seq<Byte>, bins: seq<seq<Byte>>, i: nat)
    requires i < |bins|
    ensures pre + WriteBins(bins[i..]) == pre + WriteBin(bins[i]) + WriteBins(bins[i + 1..])
  {
    hide WriteBin;
    assert bins[i..][1..] == bins[i + 1..];
  }

  /** A sorted element is one of the originals. */
  lemma SortedFrom<K, V>(le: (K, K) -> bool, s: seq<Item<K, V>>, i: nat) returns (j: nat)
    requires i < |s|
    ensures j < |s| && s[j] == SortByKey(le, s)[i]
  {
    var x := SortByKey(le, s)[i];
    assert x in multiset(SortByKey(le, s));
    assert x in multiset(s);
    j :| 0 <= j < |s| && s[j] == x;
  }

  lemma FieldsStep(pre: seq<Byte>, fields: seq<Item<Key, Value>>, i: nat)
    requires i < |fields|
    ensures pre + JoinFields(EncodeFields(fields[i..]))
         == pre + WriteStr(fields[i].key) + EncodeValue(fields[i].value) + JoinFields(EncodeFields(fields[i + 1..]))
  {
    hide WriteStr;
    var rest := fields[i..];
    assert rest[1..] == fields[i + 1..];
    assert EncodeFields(rest)[1..] == EncodeFields(rest[1..]);
  }

  lemma EntriesStep(pre: seq<Byte>, entries: seq<Item<U64, Pack>>, i: nat)
    requires i < |entries|
    ensures pre + JoinEntries(EncodeEntries(entries[i..]))
         == pre + WriteUint(entries[i].key) + EncodePack(entries[i].value)
          + JoinEntries(EncodeEntries(entries[i + 1..]))
  {
    hide WriteUint;
    var rest := entries[i..];
    assert rest[1..] == entries[i + 1..];
    assert EncodeEntries(rest)[1..] == EncodeEntries(rest[1..]);
  }

  class Buffer {
    var data: seq<Byte>

    constructor ()
      ensures data == []
    {
      data := [];
    }

    method Push(b: Byte)
      modifies this
      ensures data == old(data) + [b]
    {
      data := data + [b];
    }

    method Extend(bytes: seq<Byte>)
      modifies this
      ensures data == old(data) + bytes
    {
      data := data + bytes;
    }

    method PutUint(v: U64)
      modifies this
      ensures data == old(data) + WriteUint(v)
    {
      if v <= 0x7f { Push(v); }
      else if v <= 0xff { Push(0xcc); Push(v); }
      else if v <= 0xffff { Push(0xcd); Extend(BE(2, v)); }
      else if v <= 0xffff_ffff { Push(0xce); Extend(BE(4, v)); }
      else { Push(0xcf); Extend(BE(8, v)); }
    }

    method PutStr(b: Key)
      modifies this
      ensures data == old(data) + WriteStr(b)
    {
      if |b| <= 31 { Push(0xa0 + |b|); } else { Push(0xd9); Push(|b|); }
      Extend(b);
    }

    method PutBin(b: seq<Byte>)
      modifies this
      ensures data == old(data) + WriteBin(b)
    {
      if |b| <= 0xff { Push(0xc4); Push(|b|); }
      else if |b| <= 0xffff { Push(0xc5); Extend(BE(2, |b|)); }
      else { Push(0xc6); Extend(BE(4, |b|)); }
      Extend(b);
    }

    method PutHeader(n: nat, fix: Byte, tag16: Byte, tag32: Byte)
      requires fix + 15 < 256
      modifies this
      ensures data == old(data) + WriteHeader(n, fix, tag16, tag32)
    {
      if n <= 15 { Push(fix + n); }
      else if n <= 0xffff { Push(tag16); Extend(BE(2, n)); }
      else { Push(tag32); Extend(BE(4, n)); }
    }

    method PutBins(bins: seq<seq<Byte>>)
      modifies this
      ensures data == old(data) + WriteBins(bins)
    {
      hide WriteBin, WriteBins;
      var i := 0;
      while i < |bins|
        invariant 0 <= i <= |bins| && data + WriteBins(bins[i..]) == old(data) + WriteBins(bins)
      {
        BinsStep(data, bins, i);
        PutBin(bins[i]);
        i := i + 1;
      }
      assert bins[i..] == [];
      NothingLeft();
    }

    method PutUints(uints: seq<U64>)
      modifies this
      ensures data == old(data) + WriteUints(uints)
    {
      hide WriteUint, WriteUints;
      var i := 0;
      while i < |uints|
        invariant 0 <= i <= |uints| && data + WriteUints(uints[i..]) == old(data) + WriteUints(uints)
      {
        UintsStep(data, uints, i);
        PutUint(uints[i]);
        i := i + 1;
      }
      assert uints[i..] == [];
      NothingLeft();
    }

    method PutValue(v: Value)
      modifies this
      ensures data == old(data) + EncodeValue(v)
      decreases v, 2
    {
      hide WriteUint, WriteBin, WriteHeader, WriteBins, WriteUints, EncodePack, EncodeEntries, SortByKey;
      match v
      case Uint(n) => PutUint(n);
      case Bin(b) => PutBin(b);
      case BinArray(bins) => PutHeader(|bins|, 0x90, 0xdc, 0xdd); PutBins(bins);
      case UintArray(uints) => PutHeader(|uints|, 0x90, 0xdc, 0xdd); PutUints(uints);
      case UintKeyedMap(entries) => PutHeader(|entries|, 0x80, 0xde, 0xdf); PutEntries(entries);
      case Map(pack) => EncodeInto(pack);
    }

    /** Sorts integer keys numerically and writes the entries in that order. */
    method PutEntries(entries: seq<Item<U64, Pack>>)
      modifies this
      ensures data == old(data) + JoinEntries(SortByKey(NumLe, EncodeEntries(entries)))
      decreases entries, 1
    {
      hide WriteUint, EncodePack, SortByKey;
      var sorted := SortByKey(NumLe, entries);
      SortThenEncodeEntries(entries);
      var i := 0;
      while i < |sorted|
        invariant 0 <= i <= |sorted|
        invariant data + JoinEntries(EncodeEntries(sorted[i..])) == old(data) + JoinEntries(EncodeEntries(sorted))
      {
        EntriesStep(data, sorted, i);
        ghost var j := SortedFrom(NumLe, entries, i);
        assert entries decreases to entries[j];
        PutUint(sorted[i].key);
        EncodeInto(sorted[i].value);
        i := i + 1;
      }
    }

    /** Sorts the fields by key and writes them in that order; nested maps recursively. */
    method EncodeInto(p: Pack)
      modifies this
      ensures data == old(data) + EncodePack(p)
      decreases p, 2
    {
      hide WriteStr, EncodeValue, WriteHeader, SortByKey;
      var sorted := SortByKey(KeyLe, p.fields);
      SortThenEncode(p.fields);
      PutHeader(|p.fields|, 0x80, 0xde, 0xdf);
      ghost var start := data;
      var i := 0;
      while i < |sorted|
        invariant 0 <= i <= |sorted|
        invariant data + JoinFields(EncodeFields(sorted[i..])) == start + JoinFields(EncodeFields(sorted))
      {
        FieldsStep(data, sorted, i);
        ghost var j := SortedFrom(KeyLe, p.fields, i);
        assert p.fields decreases to p.fields[j];
        PutStr(sorted[i].key);
        PutValue(sorted[i].value);
        i := i + 1;
      }
      assert data == start + JoinFields(EncodeFields(sorted));
      assert old(data) + EncodePack(p) == old(data) + WriteMapHeader(|p.fields|) + JoinFields(EncodeFields(sorted));
    }
  }

  /** `AlgorandMessagePack::encode` */
  method Encode(p: Pack) returns (bytes: seq<Byte>)
    ensures bytes == EncodePack(p)
  {
    var out := new Buffer();
    out.EncodeInto(p);
    bytes := out.data;
  }
}
