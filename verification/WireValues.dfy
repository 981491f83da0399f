/**
 MessagePack values as trees, each format with its own tag, and the bytes they are written as. The skipper steps over
 exactly these bytes, over nothing else, and every reader takes from a tree what its format says.
 */
module WireValues {
  import opened Bytes
  import opened Wire

  /** One value in one format. `log` picks a width of 1, 2, 4, 8 or 16 bytes. */
  datatype Msg =
    | Nil
    | Boolean(truth: bool)
    | PositiveFix(n: nat)
    | NegativeFix(minus: nat)
    | Unsigned(log: nat, digits: seq<Byte>)
    | Signed(log: nat, digits: seq<Byte>)
    | Float(log: nat, digits: seq<Byte>)
    | FixExt(log: nat, kind: Byte, data: seq<Byte>)
    | Ext(log: nat, kind: Byte, data: seq<Byte>)
    | FixStr(data: seq<Byte>)
    | Str(log: nat, data: seq<Byte>)
    | Bin(log: nat, data: seq<Byte>)
    | FixArray(items: seq<Msg>)
    | Array(log: nat, items: seq<Msg>)
    | FixMap(entries: seq<Entry>)
    | Map(log: nat, entries: seq<Entry>)

  datatype Entry = Entry(key: Msg, value: Msg)

  function Width(log: nat): (w: nat)
    ensures w > 0
  {
    match log
    case 0 => 1
    case 1 => 2
    case 2 => 4
    case 3 => 8
    case _ => 16
  }

  /** Payloads and counts fit their format. */
  predicate Formed(t: Msg)
    decreases t
  {
    match t
    case Nil => true
    case Boolean(_) => true
    case PositiveFix(n) => n <= 127
    case NegativeFix(minus) => 1 <= minus <= 32
    case Unsigned(log, digits) => log <= 3 && |digits| == Width(log)
    case Signed(log, digits) => log <= 3 && |digits| == Width(log)
    case Float(log, digits) => 2 <= log <= 3 && |digits| == Width(log)
    case FixExt(log, _, data) => log <= 4 && |data| == Width(log)
    case Ext(log, _, data) => log <= 2 && |data| < Pow256(Width(log))
    case FixStr(data) => |data| <= 31
    case Str(log, data) => log <= 2 && |data| < Pow256(Width(log))
    case Bin(log, data) => log <= 2 && |data| < Pow256(Width(log))
    case FixArray(items) => |items| <= 15 && forall i :: 0 <= i < |items| ==> Formed(items[i])
    case Array(log, items) =>
      1 <= log <= 2 && |items| < Pow256(Width(log)) && forall i :: 0 <= i < |items| ==> Formed(items[i])
    case FixMap(entries) =>
      |entries| <= 15 && forall i :: 0 <= i < |entries| ==> Formed(entries[i].key) && Formed(entries[i].value)
    case Map(log, entries) =>
      && 1 <= log <= 2 && |entries| < Pow256(Width(log))
      && forall i :: 0 <= i < |entries| ==> Formed(entries[i].key) && Formed(entries[i].value)
  }

  predicate AllFormed(items: seq<Msg>) {
    forall i :: 0 <= i < |items| ==> Formed(items[i])
  }

  predicate EntriesFormed(entries: seq<Entry>) {
    forall i :: 0 <= i < |entries| ==> Formed(entries[i].key) && Formed(entries[i].value)
  }

  /** The bytes of a value: the tag of its format, then what the format prescribes. */
  function Emit(t: Msg): (s: seq<Byte>)
    requires Formed(t)
    ensures s != []
    decreases t, 1
  {
    match t
    case Nil => [0xc0]
    case Boolean(truth) => [if truth then 0xc3 else 0xc2]
    case PositiveFix(n) => [n]
    case NegativeFix(minus) => [256 - minus]
    case Unsigned(log, digits) => [0xcc + log] + digits
    case Signed(log, digits) => [0xd0 + log] + digits
    case Float(log, digits) => [0xc8 + log] + digits
    case FixExt(log, kind, data) => [0xd4 + log] + ([kind] + data)
    case Ext(log, kind, data) => [0xc7 + log] + (BE(Width(log), |data|) + ([kind] + data))
    case FixStr(data) => [0xa0 + |data|] + data
    case Str(log, data) => [0xd9 + log] + (BE(Width(log), |data|) + data)
    case Bin(log, data) => [0xc4 + log] + (BE(Width(log), |data|) + data)
    case FixArray(items) => [0x90 + |items|] + EmitAll(items)
    case Array(log, items) => [0xdb + log] + (BE(Width(log), |items|) + EmitAll(items))
    case FixMap(entries) => [0x80 + |entries|] + EmitEntries(entries)
    case Map(log, entries) => [0xdd + log] + (BE(Width(log), |entries|) + EmitEntries(entries))
  }

  function EmitAll(items: seq<Msg>): seq<Byte>
    requires AllFormed(items)
    decreases items, 0
  {
    if items == [] then []
    else
      assert items decreases to items[0];
      Emit(items[0]) + EmitAll(items[1..])
  }

  function EmitEntries(entries: seq<Entry>): seq<Byte>
    requires EntriesFormed(entries)
    decreases entries, 0
  {
    if entries == [] then []
    else
      assert entries decreases to entries[0];
      Emit(entries[0].key) + (Emit(entries[0].value) + EmitEntries(entries[1..]))
  }

  // ---------------------------------------------------------------- the skipper lands behind every value

  lemma SkipFixed(b: Byte, payload: seq<Byte>, rest: seq<Byte>)
    requires ShapeOf(b) == Fixed(|payload|)
    ensures Skip(([b] + payload) + rest) == Ok((), rest)
  {
    hide ShapeOf, Skip, SkipBody;
    var s := ([b] + payload) + rest;
    assert s[1..] == payload + rest;
    SkipHead(s);
    FixedSkips(b, payload + rest);
    assert (payload + rest)[|payload|..] == rest;
  }

  lemma SkipTag(b: Byte, rest: seq<Byte>)
    requires ShapeOf(b) == Fixed(0)
    ensures Skip([b] + rest) == Ok((), rest)
  {
    assert [b] + [] == [b];
    SkipFixed(b, [], rest);
  }

  lemma SkipCounted(b: Byte, width: nat, n: nat, payload: seq<Byte>, rest: seq<Byte>)
    requires ShapeOf(b).Counted? && ShapeOf(b).width == width && n < Pow256(width)
    requires |payload| == n + ShapeOf(b).extra
    ensures Skip(([b] + (BE(width, n) + payload)) + rest) == Ok((), rest)
  {
    hide ShapeOf, Skip, SkipBody, BE, ReadBE, Pow256;
    var s := ([b] + (BE(width, n) + payload)) + rest;
    assert s[1..] == BE(width, n) + (payload + rest);
    SkipHead(s);
    ReadBEWritten(width, n, payload + rest);
    CountedSkips(b, s[1..]);
    assert (payload + rest)[|payload|..] == rest;
  }

  lemma SkipItems(b: Byte, body: seq<Byte>, rest: seq<Byte>)
    requires ShapeOf(b).Items?
    ensures Skip(([b] + body) + rest) == SkipMany(ShapeOf(b).count, body + rest)
  {
    hide ShapeOf, SkipMany;
    var s := ([b] + body) + rest;
    assert s[1..] == body + rest;
  }

  lemma SkipCountedItems(b: Byte, width: nat, n: nat, body: seq<Byte>, rest: seq<Byte>)
    requires ShapeOf(b).CountedItems? && ShapeOf(b).width == width && n < Pow256(width)
    ensures Skip(([b] + (BE(width, n) + body)) + rest) == SkipMany(ShapeOf(b).per * n, body + rest)
  {
    hide ShapeOf, SkipMany, BE, ReadBE, Pow256;
    var s := ([b] + (BE(width, n) + body)) + rest;
    assert s[1..] == BE(width, n) + (body + rest);
    ReadBEWritten(width, n, body + rest);
  }

  /** Formats that are a tag and a payload of known size. */
  predicate Plain(t: Msg) {
    t.Nil? || t.Boolean? || t.PositiveFix? || t.NegativeFix? || t.Unsigned? || t.Signed? || t.Float? || t.FixExt?
    || t.FixStr?
  }

  lemma SkipPlain(t: Msg, rest: seq<Byte>)
    requires Formed(t) && Plain(t)
    ensures Skip(Emit(t) + rest) == Ok((), rest)
  {
    hide Skip, EmitAll, EmitEntries;
    match t
    case Nil => SkipTag(0xc0, rest);
    case Boolean(truth) => SkipTag(if truth then 0xc3 else 0xc2, rest);
    case PositiveFix(n) => SkipTag(n, rest);
    case NegativeFix(minus) => SkipTag(256 - minus, rest);
    case Unsigned(log, digits) => SkipFixed(0xcc + log, digits, rest);
    case Signed(log, digits) => SkipFixed(0xd0 + log, digits, rest);
    case Float(log, digits) => SkipFixed(0xc8 + log, digits, rest);
    case FixExt(log, kind, data) => SkipFixed(0xd4 + log, [kind] + data, rest);
    case FixStr(data) => SkipFixed(0xa0 + |data|, data, rest);
  }

  /** Formats that carry the size of their payload. */
  predicate Sized(t: Msg) {
    t.Ext? || t.Str? || t.Bin?
  }

  lemma SkipSized(t: Msg, rest: seq<Byte>)
    requires Formed(t) && Sized(t)
    ensures Skip(Emit(t) + rest) == Ok((), rest)
  {
    hide Skip, EmitAll, EmitEntries, Pow256, BE;
    match t
    case Ext(log, kind, data) => SkipCounted(0xc7 + log, Width(log), |data|, [kind] + data, rest);
    case Str(log, data) => SkipCounted(0xd9 + log, Width(log), |data|, data, rest);
    case Bin(log, data) => SkipCounted(0xc4 + log, Width(log), |data|, data, rest);
  }

  /** A collection is skipped by skipping what it contains. */
  lemma SkipCollection(t: Msg, rest: seq<Byte>)
    requires Formed(t)
    ensures t.FixArray? || t.Array? ==>
              AllFormed(t.items) && Skip(Emit(t) + rest) == SkipMany(|t.items|, EmitAll(t.items) + rest)
    ensures t.FixMap? || t.Map? ==>
              && EntriesFormed(t.entries)
              && Skip(Emit(t) + rest) == SkipMany(2 * |t.entries|, EmitEntries(t.entries) + rest)
  {
    hide Skip, SkipMany, EmitAll, EmitEntries, Pow256, BE;
    match t
    case FixArray(items) => SkipItems(0x90 + |items|, EmitAll(items), rest);
    case Array(log, items) => SkipCountedItems(0xdb + log, Width(log), |items|, EmitAll(items), rest);
    case FixMap(entries) => SkipItems(0x80 + |entries|, EmitEntries(entries), rest);
    case Map(log, entries) => SkipCountedItems(0xdd + log, Width(log), |entries|, EmitEntries(entries), rest);
    case _ =>
  }

  /** Whatever the value and its format, the skipper lands exactly behind its bytes. */
  lemma {:induction false} SkipLandsBehind(t: Msg, rest: seq<Byte>)
    requires Formed(t)
    ensures Skip(Emit(t) + rest) == Ok((), rest)
    decreases t, 1
  {
    hide Skip, SkipMany, Emit, EmitAll, EmitEntries, Formed;
    SkipCollection(t, rest);
    if t.FixArray? || t.Array? {
      SkipItemsLands(t.items, rest);
    } else if t.FixMap? || t.Map? {
      SkipEntriesLands(t.entries, rest);
    } else if Plain(t) {
      SkipPlain(t, rest);
    } else {
      SkipSized(t, rest);
    }
  }

  lemma {:induction false} SkipItemsLands(items: seq<Msg>, rest: seq<Byte>)
    requires AllFormed(items)
    ensures SkipMany(|items|, EmitAll(items) + rest) == Ok((), rest)
    decreases items, 0
  {
    hide Emit, Formed, Skip;
    if items == [] {
      assert EmitAll(items) + rest == rest;
    } else {
      assert items decreases to items[0];
      var more := EmitAll(items[1..]) + rest;
      assert EmitAll(items) + rest == Emit(items[0]) + more;
      SkipLandsBehind(items[0], more);
      SkipItemsLands(items[1..], rest);
    }
  }

  lemma {:induction false} SkipEntriesLands(entries: seq<Entry>, rest: seq<Byte>)
    requires EntriesFormed(entries)
    ensures SkipMany(2 * |entries|, EmitEntries(entries) + rest) == Ok((), rest)
    decreases entries, 0
  {
    hide Emit, Formed, Skip;
    if entries == [] {
      assert EmitEntries(entries) + rest == rest;
    } else {
      assert entries decreases to entries[0];
      var more := EmitEntries(entries[1..]) + rest;
      var value := Emit(entries[0].value) + more;
      assert EmitEntries(entries) + rest == Emit(entries[0].key) + value;
      SkipLandsBehind(entries[0].key, value);
      SkipLandsBehind(entries[0].value, more);
      SkipEntriesLands(entries[1..], rest);
      assert SkipMany(2 * |entries|, Emit(entries[0].key) + value) == SkipMany(2 * |entries| - 1, value);
      assert SkipMany(2 * |entries| - 1, value) == SkipMany(2 * |entries| - 2, more);
    }
  }

  // ---------------------------------------------------------------- and over nothing else

  lemma {:induction false} BEInvertsFromBE(s: seq<Byte>)
    ensures BE(|s|, FromBE(s)) == s
  {
    if s != [] {
      BEInvertsFromBE(s[..|s| - 1]);
      OneMoreDigit(|s| - 1, FromBE(s[..|s| - 1]), s[|s| - 1]);
      assert s == s[..|s| - 1] + [s[|s| - 1]];
    }
  }

  lemma OneMoreDigit(n: nat, x: nat, digit: Byte)
    ensures BE(n + 1, 256 * x + digit) == BE(n, x) + [digit]
  {
  }

  /** What a big-endian read leaves behind are the digits of the number. */
  lemma ReadBETaken(n: nat, s: seq<Byte>)
    requires ReadBE(n, s).Ok?
    ensures ReadBE(n, s).value < Pow256(n) && s == BE(n, ReadBE(n, s).value) + ReadBE(n, s).rest
  {
    hide BE, FromBE;
    BEInvertsFromBE(s[..n]);
    assert s == s[..n] + s[n..];
  }

  /** A skipped value of known size. */
  lemma PlainFound(s: seq<Byte>) returns (t: Msg)
    requires s != [] && ShapeOf(s[0]).Fixed? && Skip(s).Ok?
    ensures Formed(t) && s == Emit(t) + Skip(s).rest
  {
    hide Skip, SkipBody, EmitAll, EmitEntries, BE;
    SkipHead(s);
    FixedSkips(s[0], s[1..]);
    var b, n := s[0], ShapeOf(s[0]).size;
    var payload, rest := s[1..][..n], s[1..][n..];
    assert s == [b] + payload + rest;
    t := PlainTree(b, payload);
  }

  function PlainTree(b: Byte, payload: seq<Byte>): (t: Msg)
    requires ShapeOf(b) == Fixed(|payload|)
    ensures Formed(t) && Emit(t) == [b] + payload
  {
    hide EmitAll, EmitEntries, BE;
    if b <= 0x7f then PositiveFix(b)
    else if b <= 0xbf then FixStr(payload)
    else if b == 0xc0 then Nil
    else if b <= 0xc3 then Boolean(b == 0xc3)
    else if b <= 0xcb then Float(b - 0xc8, payload)
    else if b <= 0xcf then Unsigned(b - 0xcc, payload)
    else if b <= 0xd3 then Signed(b - 0xd0, payload)
    else if b <= 0xd8 then
      assert payload == [payload[0]] + payload[1..];
      FixExt(b - 0xd4, payload[0], payload[1..])
    else NegativeFix(256 - b)
  }

  /** A skipped value that carries its size. */
  lemma SizedFound(s: seq<Byte>) returns (t: Msg)
    requires s != [] && ShapeOf(s[0]).Counted? && Skip(s).Ok?
    ensures Formed(t) && s == Emit(t) + Skip(s).rest
  {
    hide Skip, SkipBody, EmitAll, EmitEntries, BE, ReadBE, Pow256, ShapeOf;
    SkipHead(s);
    var b, width, extra := s[0], ShapeOf(s[0]).width, ShapeOf(s[0]).extra;
    CountRead(s);
    CountedSkips(b, s[1..]);
    ReadBETaken(width, s[1..]);
    var n, more := ReadBE(width, s[1..]).value, ReadBE(width, s[1..]).rest;
    var payload := more[..n + extra];
    assert more == payload + more[n + extra..];
    assert s == [b] + s[1..];
    t := SizedTree(b, n, payload);
    assert [b] + (BE(width, n) + (payload + more[n + extra..]))
        == ([b] + (BE(width, n) + payload)) + more[n + extra..];
  }

  lemma CountRead(s: seq<Byte>)
    requires s != [] && (ShapeOf(s[0]).Counted? || ShapeOf(s[0]).CountedItems?) && Skip(s).Ok?
    ensures ReadBE(ShapeOf(s[0]).width, s[1..]).Ok?
  {
    hide ReadBE, SkipMany, ShapeOf;
  }

  function SizedTree(b: Byte, n: nat, payload: seq<Byte>): (t: Msg)
    requires ShapeOf(b).Counted? && n < Pow256(ShapeOf(b).width) && |payload| == n + ShapeOf(b).extra
    ensures Formed(t) && Emit(t) == [b] + (BE(ShapeOf(b).width, n) + payload)
  {
    hide EmitAll, EmitEntries, BE, Pow256;
    if b <= 0xc6 then Bin(b - 0xc4, payload)
    else if b <= 0xc9 then
      assert payload == [payload[0]] + payload[1..];
      Ext(b - 0xc7, payload[0], payload[1..])
    else Str(b - 0xd9, payload)
  }

  lemma FixedCount(s: seq<Byte>)
    requires s != [] && ShapeOf(s[0]).Items? && Skip(s).Ok?
    ensures Skip(s) == SkipMany(ShapeOf(s[0]).count, s[1..])
  {
    hide SkipMany, ShapeOf;
  }

  lemma WrittenCount(s: seq<Byte>)
    requires s != [] && ShapeOf(s[0]).CountedItems? && Skip(s).Ok?
    ensures var p := ReadBE(ShapeOf(s[0]).width, s[1..]);
            && p.Ok? && Skip(s) == SkipMany(ShapeOf(s[0]).per * p.value, p.rest)
            && p.value < Pow256(ShapeOf(s[0]).width) && s[1..] == BE(ShapeOf(s[0]).width, p.value) + p.rest
            && |p.rest| < |s|
  {
    hide SkipMany, ShapeOf, ReadBE, BE, Pow256;
    CountRead(s);
    ReadBETaken(ShapeOf(s[0]).width, s[1..]);
  }

  lemma {:induction false} FixedCollectionFound(s: seq<Byte>) returns (t: Msg)
    requires s != [] && ShapeOf(s[0]).Items? && Skip(s).Ok?
    ensures Formed(t) && s == Emit(t) + Skip(s).rest
    decreases |s|, 0, 0
  {
    hide Skip, SkipMany, EmitAll, EmitEntries, BE;
    FixedCount(s);
    var b, rest := s[0], Skip(s).rest;
    assert s == [b] + s[1..];
    if b <= 0x8f {
      var entries := EntriesFound(b - 0x80, s[1..]);
      t := FixMap(entries);
      assert [b] + (EmitEntries(entries) + rest) == ([b] + EmitEntries(entries)) + rest;
    } else {
      var items := ItemsFound(b - 0x90, s[1..]);
      t := FixArray(items);
      assert [b] + (EmitAll(items) + rest) == ([b] + EmitAll(items)) + rest;
    }
  }

  lemma {:induction false} CountedCollectionFound(s: seq<Byte>) returns (t: Msg)
    requires s != [] && ShapeOf(s[0]).CountedItems? && Skip(s).Ok?
    ensures Formed(t) && s == Emit(t) + Skip(s).rest
    decreases |s|, 0, 0
  {
    hide Skip, SkipMany, EmitAll, EmitEntries, BE, ReadBE, Pow256;
    WrittenCount(s);
    var b, width, rest := s[0], ShapeOf(s[0]).width, Skip(s).rest;
    var n, more := ReadBE(width, s[1..]).value, ReadBE(width, s[1..]).rest;
    assert s == [b] + s[1..];
    if b >= 0xde {
      var entries := EntriesFound(n, more);
      t := Map(b - 0xdd, entries);
      Regroup(b, BE(width, n), EmitEntries(entries), rest);
    } else {
      var items := ItemsFound(n, more);
      t := Array(b - 0xdb, items);
      Regroup(b, BE(width, n), EmitAll(items), rest);
    }
  }

  lemma Regroup(b: Byte, count: seq<Byte>, body: seq<Byte>, rest: seq<Byte>)
    ensures [b] + (count + (body + rest)) == ([b] + (count + body)) + rest
  {
  }

  /** Whatever the skipper steps over is one value. */
  lemma {:induction false} SkipFinds(s: seq<Byte>) returns (t: Msg)
    requires Skip(s).Ok?
    ensures Formed(t) && s == Emit(t) + Skip(s).rest
    decreases |s|, 1, 0
  {
    hide Skip, SkipMany, SkipBody, Emit, EmitAll, EmitEntries, Formed, ShapeOf;
    NeverSkipped(s);
    match ShapeOf(s[0])
    case Fixed(_) => t := PlainFound(s);
    case Counted(_, _) => t := SizedFound(s);
    case Items(_) => t := FixedCollectionFound(s);
    case CountedItems(_, _) => t := CountedCollectionFound(s);
  }

  /** A value that is cut off anywhere is reported as the end of the input, never as something else. */
  lemma SkipTruncated(t: Msg, cut: nat)
    requires Formed(t) && cut < |Emit(t)|
    ensures Skip(Emit(t)[..cut]) == Err(UnexpectedEof)
  {
    hide Skip, Emit, Formed;
    var s, ext := Emit(t)[..cut], Emit(t)[cut..];
    assert s + ext == Emit(t) == Emit(t) + [];
    SkipLandsBehind(t, []);
    SkipExtends(s, ext);
    SkipRunsOut(s, ext);
  }

  /** What is skipped with more input can only run out of input without it. */
  lemma {:induction false} SkipRunsOut(s: seq<Byte>, ext: seq<Byte>)
    requires Skip(s + ext).Ok?
    ensures Skip(s).Ok? || Skip(s) == Err(UnexpectedEof)
    decreases |s|, 0, 0
  {
    hide SkipMany, SkipBody, ShapeOf;
    if s != [] {
      SkipHead(s);
      SkipHead(s + ext);
      assert (s + ext)[0] == s[0] && (s + ext)[1..] == s[1..] + ext;
      BodyRunsOut(s[0], s[1..], ext);
    }
  }

  lemma {:induction false} BodyRunsOut(b: Byte, s: seq<Byte>, ext: seq<Byte>)
    requires SkipBody(b, s + ext).Ok?
    ensures SkipBody(b, s).Ok? || SkipBody(b, s) == Err(UnexpectedEof)
    decreases |s|, 2, 0
  {
    hide Skip, SkipMany, ShapeOf, FromBE;
    match ShapeOf(b)
    case Never =>
    case Fixed(size) =>
    case Counted(width, extra) =>
    case Items(count) => ManyRunOut(count, s, ext);
    case CountedItems(width, per) =>
      BEExtends(width, s, ext);
      var p := ReadBE(width, s);
      if p.Ok? { ManyRunOut(per * p.value, p.rest, ext); }
  }

  lemma {:induction false} ManyRunOut(n: nat, s: seq<Byte>, ext: seq<Byte>)
    requires SkipMany(n, s + ext).Ok?
    ensures SkipMany(n, s).Ok? || SkipMany(n, s) == Err(UnexpectedEof)
    decreases |s|, 1, n
  {
    hide Skip;
    if n > 0 {
      SkipExtends(s, ext);
      SkipRunsOut(s, ext);
      if Skip(s).Ok? { ManyRunOut(n - 1, Skip(s).rest, ext); }
    }
  }

  lemma NeverSkipped(s: seq<Byte>)
    requires Skip(s).Ok?
    ensures s != [] && !ShapeOf(s[0]).Never?
  {
    hide SkipMany, ShapeOf;
  }

  lemma {:induction false} ItemsFound(n: nat, s: seq<Byte>) returns (items: seq<Msg>)
    requires SkipMany(n, s).Ok?
    ensures |items| == n && AllFormed(items) && s == EmitAll(items) + SkipMany(n, s).rest
    decreases |s|, 2, n
  {
    hide Skip, Emit, Formed;
    if n == 0 {
      items := [];
    } else {
      var t := SkipFinds(s);
      var more := ItemsFound(n - 1, Skip(s).rest);
      items := [t] + more;
      assert items[1..] == more;
    }
  }

  lemma {:induction false} EntriesFound(n: nat, s: seq<Byte>) returns (entries: seq<Entry>)
    requires SkipMany(2 * n, s).Ok?
    ensures |entries| == n && EntriesFormed(entries) && s == EmitEntries(entries) + SkipMany(2 * n, s).rest
    decreases |s|, 2, n
  {
    hide Skip, Emit, Formed;
    if n == 0 {
      entries := [];
    } else {
      assert SkipMany(2 * n, s) == SkipMany(2 * n - 1, Skip(s).rest);
      assert SkipMany(2 * n, s) == SkipMany(2 * (n - 1), Skip(Skip(s).rest).rest);
      var key := SkipFinds(s);
      var value := SkipFinds(Skip(s).rest);
      var more := EntriesFound(n - 1, Skip(Skip(s).rest).rest);
      entries := [Entry(key, value)] + more;
      assert entries[1..] == more;
    }
  }

  /** The skipper steps over exactly the MessagePack values. */
  lemma SkipIff(s: seq<Byte>, rest: seq<Byte>)
    ensures Skip(s) == Ok((), rest) <==> exists t: Msg :: Formed(t) && s == Emit(t) + rest
  {
    hide Skip, Emit, Formed;
    if Skip(s) == Ok((), rest) { var t := SkipFinds(s); }
    forall t: Msg | Formed(t) && s == Emit(t) + rest
      ensures Skip(s) == Ok((), rest)
    {
      SkipLandsBehind(t, rest);
    }
  }
}
