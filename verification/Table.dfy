/**
  Field tables and arrays (amqp_table.c): what the nested, length-prefixed encoding of a
  table means, and proof that decoding undoes it.
 */
module Table {
  import opened Wire

  /** The value kinds that occupy a fixed number of octets. */
  datatype FixedKind =
    | Bool | I8 | U8 | I16 | U16 | I32 | U32 | I64 | U64 | F32 | F64 | Timestamp

  datatype FieldValue =
    | Fixed(kind: FixedKind, bits: nat)
    | Decimal(decimals: nat, number: nat)
    | Utf8(text: Bytes)
    | Octets(octets: Bytes)
    | Array(items: seq<FieldValue>)
    | Nested(entries: seq<Entry>)
    | Void
    | Unknown(tag: UnknownTag)

  datatype Entry = Entry(key: Bytes, value: FieldValue)

  function Tag(k: FixedKind): Byte {
    match k
    case Bool => 't' as int
    case I8 => 'b' as int
    case U8 => 'B' as int
    case I16 => 's' as int
    case U16 => 'u' as int
    case I32 => 'I' as int
    case U32 => 'i' as int
    case I64 => 'l' as int
    case U64 => 'L' as int
    case F32 => 'f' as int
    case F64 => 'd' as int
    case Timestamp => 'T' as int
  }

  function Width(k: FixedKind): nat {
    match k
    case Bool | I8 | U8 => 1
    case I16 | U16 => 2
    case I32 | U32 | F32 => 4
    case I64 | U64 | F64 | Timestamp => 8
  }

  const DECIMAL: Byte := 'D' as int
  const UTF8: Byte := 'S' as int
  const OCTETS: Byte := 'x' as int
  const ARRAY: Byte := 'A' as int
  const TABLE: Byte := 'F' as int
  const VOID: Byte := 'V' as int

  function KindOf(tag: Byte): Option<FixedKind> {
    if tag == 't' as int then Some(Bool)
    else if tag == 'b' as int then Some(I8)
    else if tag == 'B' as int then Some(U8)
    else if tag == 's' as int then Some(I16)
    else if tag == 'u' as int then Some(U16)
    else if tag == 'I' as int then Some(I32)
    else if tag == 'i' as int then Some(U32)
    else if tag == 'l' as int then Some(I64)
    else if tag == 'L' as int then Some(U64)
    else if tag == 'f' as int then Some(F32)
    else if tag == 'd' as int then Some(F64)
    else if tag == 'T' as int then Some(Timestamp)
    else None
  }

  const KNOWN_TAGS: seq<Byte> :=
    ['t' as int, 'b' as int, 'B' as int, 's' as int, 'u' as int, 'I' as int, 'i' as int, 'l' as int, 'L' as int,
     'f' as int, 'd' as int, 'T' as int, DECIMAL, UTF8, OCTETS, ARRAY, TABLE, VOID]

  /** A value of such a kind can be offered to the encoder, which refuses it. */
  type UnknownTag = b: Byte | b !in KNOWN_TAGS witness 0

  function Bound(width: nat): nat {
    if width == 1 then 256 else if width == 2 then TWO16 else if width == 4 then TWO32 else TWO64
  }

  /** A boolean is stored as 0 or 1, whatever non-zero value stands for true. */
  function Norm(k: FixedKind, bits: nat): nat {
    if k.Bool? && bits != 0 then 1 else bits
  }

  function EncFixed(width: nat, v: nat): Bytes {
    if width == 1 then E8(v) else if width == 2 then E16(v) else if width == 4 then E32(v) else E64(v)
  }

  function DecFixed(width: nat, s: Bytes): (r: Option<(nat, Bytes)>)
    requires width in {1, 2, 4, 8}
    ensures r.Some? <==> width <= |s|
    ensures r.Some? ==> r.value.0 < Bound(width) && r.value.1 == s[width..]
  {
    if |s| < width then None
    else if width == 1 then Some((s[0] as int, s[1..]))
    else if width == 2 then Some((D16(s, 0), s[2..]))
    else if width == 4 then Some((D32(s, 0), s[4..]))
    else Some((D64(s, 0), s[8..]))
  }

  lemma FixedRoundTrip(width: nat, v: nat, rest: Bytes)
    requires width in {1, 2, 4, 8}
    ensures |EncFixed(width, v)| == width
    ensures DecFixed(width, EncFixed(width, v) + rest) == Some((v % Bound(width), rest))
  {
    D16OfE16(v, rest);
    D32OfE32(v, rest);
    D64OfE64(v, rest);
  }

  /** Takes `n` octets off the front. */
  function Take(n: nat, s: Bytes): (r: Option<(Bytes, Bytes)>)
    ensures r.Some? ==> |r.value.0| == n && r.value.0 + r.value.1 == s
    ensures r.Some? <==> n <= |s|
  {
    if n <= |s| then Some((s[..n], s[n..])) else None
  }

  // ---------- the encoding ----------

  function EncValue(v: FieldValue): Bytes
    decreases v, 1
  {
    match v
    case Fixed(k, b) => [Tag(k)] + EncFixed(Width(k), Norm(k, b))
    case Decimal(d, n) => [DECIMAL] + E8(d) + E32(n)
    case Utf8(t) => [UTF8] + E32(|t|) + t
    case Octets(o) => [OCTETS] + E32(|o|) + o
    case Array(items) => [ARRAY] + E32(|EncItems(items)|) + EncItems(items)
    case Nested(es) => [TABLE] + E32(|EncEntries(es)|) + EncEntries(es)
    case Void => [VOID]
    case Unknown(tag) => [tag]
  }

  function EncItems(items: seq<FieldValue>): Bytes
    decreases items, 0
  {
    if items == [] then [] else EncValue(items[0]) + EncItems(items[1..])
  }

  function EncEntry(e: Entry): Bytes
    decreases e, 2
  {
    E8(|e.key|) + e.key + EncValue(e.value)
  }

  function EncEntries(es: seq<Entry>): Bytes
    decreases es, 0
  {
    if es == [] then [] else EncEntry(es[0]) + EncEntries(es[1..])
  }

  function EncTable(es: seq<Entry>): Bytes {
    E32(|EncEntries(es)|) + EncEntries(es)
  }

  // ---------- the decoding ----------

  /** The value fits its wire format: numbers fit their width, and keys, whose length
      has one octet, are at most 255 octets long. */
  predicate Fits(v: FieldValue)
    decreases v, 1
  {
    match v
    case Fixed(k, b) => Norm(k, b) < Bound(Width(k))
    case Decimal(d, n) => d < 256 && n < TWO32
    case Array(items) => FitItems(items)
    case Nested(es) => FitEntries(es)
    case Unknown(_) => false
    case _ => true
  }

  predicate FitItems(items: seq<FieldValue>)
    decreases items, 0
  {
    items != [] ==> Fits(items[0]) && FitItems(items[1..])
  }

  predicate FitEntries(es: seq<Entry>)
    decreases es, 0
  {
    es != [] ==> |es[0].key| <= 255 && Fits(es[0].value) && FitEntries(es[1..])
  }

  /** A value that contains no other values. */
  function DecSimple(tag: Byte, t: Bytes): (r: Option<(FieldValue, Bytes)>)
    ensures r.Some? ==> |r.value.1| <= |t| && Fits(r.value.0)
  {
    if tag == DECIMAL then
      var (d, t1) :- DecFixed(1, t);
      var (n, rest) :- DecFixed(4, t1);
      Some((Decimal(d, n), rest))
    else if tag == UTF8 || tag == OCTETS then
      var (n, t1) :- DecFixed(4, t);
      var (o, rest) :- Take(n, t1);
      Some((if tag == UTF8 then Utf8(o) else Octets(o), rest))
    else if tag == VOID then Some((Void, t))
    else
      var k :- KindOf(tag);
      var (b, rest) :- DecFixed(Width(k), t);
      Some((Fixed(k, Norm(k, b)), rest))
  }

  function DecValue(s: Bytes): (r: Option<(FieldValue, Bytes)>)
    ensures r.Some? ==> |r.value.1| < |s|
    decreases |s|, 0
  {
    if s == [] then None
    else
      var tag, t := s[0], s[1..];
      if tag == ARRAY then
        var (n, t1) :- DecFixed(4, t);
        var (items, rest) :- DecItems(t1, n);
        Some((Array(items), rest))
      else if tag == TABLE then
        var (es, rest) :- DecTable(t);
        Some((Nested(es), rest))
      else DecSimple(tag, t)
  }

  /** Reads items until at least `limit` octets are used up; the last one may overrun the limit. */
  function DecItems(s: Bytes, limit: int): (r: Option<(seq<FieldValue>, Bytes)>)
    ensures r.Some? ==> |r.value.1| <= |s|
    decreases |s|, 1
  {
    if limit <= 0 then Some(([], s))
    else
      var (v, rest) :- DecValue(s);
      var (vs, rest') :- DecItems(rest, limit - (|s| - |rest|));
      Some(([v] + vs, rest'))
  }

  function DecEntry(s: Bytes): (r: Option<(Entry, Bytes)>)
    ensures r.Some? ==> |r.value.1| < |s|
    decreases |s|, 1
  {
    var (n, t) :- DecFixed(1, s);
    var (key, t1) :- Take(n, t);
    var (v, rest) :- DecValue(t1);
    Some((Entry(key, v), rest))
  }

  function DecEntries(s: Bytes, limit: int): (r: Option<(seq<Entry>, Bytes)>)
    ensures r.Some? ==> |r.value.1| <= |s|
    decreases |s|, 2
  {
    if limit <= 0 then Some(([], s))
    else
      var (e, rest) :- DecEntry(s);
      var (es, rest') :- DecEntries(rest, limit - (|s| - |rest|));
      Some(([e] + es, rest'))
  }

  function DecTable(s: Bytes): (r: Option<(seq<Entry>, Bytes)>)
    ensures r.Some? ==> |r.value.1| <= |s| - 4
    decreases |s|, 3
  {
    var (n, t) :- DecFixed(4, s);
    DecEntries(t, n)
  }

  // ---------- what survives the trip ----------

  /** The value the decoder can give back: every boolean is 0 or 1. */
  function Canon(v: FieldValue): FieldValue
    decreases v, 1
  {
    match v
    case Fixed(k, b) => Fixed(k, Norm(k, b))
    case Array(items) => Array(CanonItems(items))
    case Nested(es) => Nested(CanonEntries(es))
    case _ => v
  }

  function CanonItems(items: seq<FieldValue>): seq<FieldValue>
    decreases items, 0
  {
    if items == [] then [] else [Canon(items[0])] + CanonItems(items[1..])
  }

  function CanonEntries(es: seq<Entry>): seq<Entry>
    decreases es, 0
  {
    if es == [] then []
    else [Entry(es[0].key, Canon(es[0].value))] + CanonEntries(es[1..])
  }

  /** No value in it, at any depth, is of an unknown kind. */
  predicate KnownValue(v: FieldValue)
    decreases v, 1
  {
    match v
    case Array(items) => KnownItems(items)
    case Nested(es) => KnownEntries(es)
    case Unknown(_) => false
    case _ => true
  }

  predicate KnownItems(items: seq<FieldValue>)
    decreases items, 0
  {
    forall i | 0 <= i < |items| :: KnownValue(items[i])
  }

  predicate KnownEntries(es: seq<Entry>)
    decreases es, 0
  {
    forall i | 0 <= i < |es| :: KnownValue(es[i].value)
  }

  // ---------- decoding undoes encoding ----------

  /** A length prefix that fits comes back. */
  lemma PrefixRoundTrip(width: nat, n: nat, rest: Bytes)
    requires width in {1, 2, 4, 8} && n < Bound(width)
    ensures DecFixed(width, EncFixed(width, n) + rest) == Some((n, rest))
  {
    hide E8, E16, E32, E64;
    FixedRoundTrip(width, n, rest);
  }

  lemma ContainerPrefix(tag: Byte, body: Bytes, rest: Bytes)
    requires |body| < TWO32
    ensures var s := [tag] + E32(|body|) + body + rest;
            s[0] == tag && DecFixed(4, s[1..]) == Some((|body|, body + rest))
  {
    hide E8, E16, E32, E64;
    var s := [tag] + E32(|body|) + body + rest;
    assert s[1..] == EncFixed(4, |body|) + (body + rest);
    PrefixRoundTrip(4, |body|, body + rest);
  }

  lemma ArrayFromItems(items: seq<FieldValue>, rest: Bytes)
    requires |EncItems(items)| < TWO32
    requires DecItems(EncItems(items) + rest, |EncItems(items)|) == Some((CanonItems(items), rest))
    ensures DecValue(EncValue(Array(items)) + rest) == Some((Array(CanonItems(items)), rest))
  {
    hide E8, E16, E32, E64, EncItems, DecItems, CanonItems, DecSimple, DecTable, DecFixed;
    ContainerPrefix(ARRAY, EncItems(items), rest);
  }

  lemma NestedFromEntries(es: seq<Entry>, rest: Bytes)
    requires |EncEntries(es)| < TWO32
    requires DecEntries(EncEntries(es) + rest, |EncEntries(es)|) == Some((CanonEntries(es), rest))
    ensures DecValue(EncValue(Nested(es)) + rest) == Some((Nested(CanonEntries(es)), rest))
  {
    hide E8, E16, E32, E64, EncEntries, DecEntries, CanonEntries, DecSimple, DecItems, DecFixed;
    ContainerPrefix(TABLE, EncEntries(es), rest);
  }

  lemma FixedValueRoundTrip(k: FixedKind, b: nat, rest: Bytes)
    requires Fits(Fixed(k, b))
    ensures DecValue(EncValue(Fixed(k, b)) + rest) == Some((Canon(Fixed(k, b)), rest))
  {
    hide E8, E16, E32, E64;
    var s := EncValue(Fixed(k, b)) + rest;
    assert s[1..] == EncFixed(Width(k), Norm(k, b)) + rest;
    PrefixRoundTrip(Width(k), Norm(k, b), rest);
  }

  lemma DecimalRoundTrip(d: nat, n: nat, rest: Bytes)
    requires Fits(Decimal(d, n))
    ensures DecValue(EncValue(Decimal(d, n)) + rest) == Some((Decimal(d, n), rest))
  {
    hide E8, E16, E32, E64;
    var s := EncValue(Decimal(d, n)) + rest;
    assert s[1..] == EncFixed(1, d) + (EncFixed(4, n) + rest);
    PrefixRoundTrip(1, d, EncFixed(4, n) + rest);
    PrefixRoundTrip(4, n, rest);
  }

  lemma StringRoundTrip(tag: Byte, t: Bytes, rest: Bytes)
    requires tag == UTF8 || tag == OCTETS
    requires |t| < TWO32
    ensures var v := if tag == UTF8 then Utf8(t) else Octets(t);
            DecValue(EncValue(v) + rest) == Some((v, rest))
  {
    hide E8, E16, E32, E64;
    ContainerPrefix(tag, t, rest);
  }

  lemma {:induction false} ValueRoundTrip(v: FieldValue, rest: Bytes)
    requires Fits(v) && |EncValue(v)| < TWO32
    ensures DecValue(EncValue(v) + rest) == Some((Canon(v), rest))
    decreases v, 1
  {
    match v
    case Fixed(k, b) => FixedValueRoundTrip(k, b, rest);
    case Decimal(d, n) => DecimalRoundTrip(d, n, rest);
    case Utf8(t) => StringRoundTrip(UTF8, t, rest);
    case Octets(t) => StringRoundTrip(OCTETS, t, rest);
    case Array(items) =>
      ItemsRoundTrip(items, rest);
      ArrayFromItems(items, rest);
    case Nested(es) =>
      EntriesRoundTrip(es, rest);
      NestedFromEntries(es, rest);
    case Void =>
      assert (EncValue(v) + rest)[1..] == rest;
    case Unknown(_) =>
  }

  lemma EncValueNonEmpty(v: FieldValue)
    ensures |EncValue(v)| > 0
  {
  }

  lemma {:induction false} ItemsRoundTrip(items: seq<FieldValue>, rest: Bytes)
    requires FitItems(items) && |EncItems(items)| < TWO32
    ensures DecItems(EncItems(items) + rest, |EncItems(items)|) == Some((CanonItems(items), rest))
    decreases items, 0
  {
    hide E8, E16, E32, E64;
    if items == [] {
      assert [] + rest == rest;
    } else {
      var tail := EncItems(items[1..]) + rest;
      assert EncItems(items) + rest == EncValue(items[0]) + tail;
      ValueRoundTrip(items[0], tail);
      assert |EncItems(items)| > 0 by { EncValueNonEmpty(items[0]); }
      ItemsRoundTrip(items[1..], rest);
    }
  }

  lemma {:induction false} EntryRoundTrip(e: Entry, rest: Bytes)
    requires |e.key| <= 255 && Fits(e.value) && |EncEntry(e)| < TWO32
    ensures DecEntry(EncEntry(e) + rest) == Some((Entry(e.key, Canon(e.value)), rest))
    decreases e, 2
  {
    hide E8, E16, E32, E64;
    var tail := EncValue(e.value) + rest;
    assert EncEntry(e) + rest == EncFixed(1, |e.key|) + (e.key + tail);
    PrefixRoundTrip(1, |e.key|, e.key + tail);
    ValueRoundTrip(e.value, rest);
  }

  lemma {:induction false} EntriesRoundTrip(es: seq<Entry>, rest: Bytes)
    requires FitEntries(es) && |EncEntries(es)| < TWO32
    ensures DecEntries(EncEntries(es) + rest, |EncEntries(es)|) == Some((CanonEntries(es), rest))
    decreases es, 0
  {
    hide E8, E16, E32, E64;
    if es == [] {
      assert [] + rest == rest;
    } else {
      var tail := EncEntries(es[1..]) + rest;
      assert EncEntries(es) + rest == EncEntry(es[0]) + tail;
      EntryRoundTrip(es[0], tail);
      EntriesRoundTrip(es[1..], rest);
    }
  }

  lemma TableRoundTrip(es: seq<Entry>, rest: Bytes)
    requires FitEntries(es) && |EncTable(es)| < TWO32
    ensures DecTable(EncTable(es) + rest) == Some((CanonEntries(es), rest))
  {
    hide E8, E16, E32, E64;
    var body := EncEntries(es);
    assert EncTable(es) + rest == EncFixed(4, |body|) + (body + rest);
    PrefixRoundTrip(4, |body|, body + rest);
    EntriesRoundTrip(es, rest);
  }

  // ---------- and only what fits ----------

  lemma {:induction false} DecodedValueFits(s: Bytes)
    ensures DecValue(s).Some? ==> Fits(DecValue(s).value.0)
    decreases |s|, 0
  {
    if DecValue(s).Some? && s[0] == ARRAY {
      DecodedItemsFit(DecFixed(4, s[1..]).value.1, DecFixed(4, s[1..]).value.0);
    } else if DecValue(s).Some? && s[0] == TABLE {
      DecodedEntriesFit(DecFixed(4, s[1..]).value.1, DecFixed(4, s[1..]).value.0);
    }
  }

  lemma {:induction false} DecodedItemsFit(s: Bytes, limit: int)
    ensures DecItems(s, limit).Some? ==> FitItems(DecItems(s, limit).value.0)
    decreases |s|, 1
  {
    if DecItems(s, limit).Some? && limit > 0 {
      DecodedValueFits(s);
      var rest := DecValue(s).value.1;
      DecodedItemsFit(rest, limit - (|s| - |rest|));
    }
  }

  lemma {:induction false} DecodedEntriesFit(s: Bytes, limit: int)
    ensures DecEntries(s, limit).Some? ==> FitEntries(DecEntries(s, limit).value.0)
    decreases |s|, 2
  {
    if DecEntries(s, limit).Some? && limit > 0 {
      assert DecEntry(s).Some?;
      var t := DecFixed(1, s).value;
      DecodedValueFits(Take(t.0, t.1).value.1);
      var rest := DecEntry(s).value.1;
      DecodedEntriesFit(rest, limit - (|s| - |rest|));
    }
  }

  lemma {:induction false} CanonFits(v: FieldValue)
    ensures Fits(Canon(v)) <==> Fits(v)
    decreases v, 1
  {
    match v
    case Array(items) => CanonItemsFit(items);
    case Nested(es) => CanonEntriesFit(es);
    case _ =>
  }

  lemma {:induction false} CanonItemsFit(items: seq<FieldValue>)
    ensures FitItems(CanonItems(items)) <==> FitItems(items)
    decreases items, 0
  {
    if items != [] {
      CanonFits(items[0]);
      CanonItemsFit(items[1..]);
    }
  }

  lemma {:induction false} CanonEntriesFit(es: seq<Entry>)
    ensures FitEntries(CanonEntries(es)) <==> FitEntries(es)
    decreases es, 0
  {
    if es != [] {
      CanonFits(es[0].value);
      CanonEntriesFit(es[1..]);
    }
  }

  /** A table comes back, with its booleans normalised and whatever follows it untouched, exactly
      when every key and number in it, at every depth, fits its wire format.  The bound on the
      total size holds for every table that lies in a frame buffer. */
  lemma TableTripIffFits(es: seq<Entry>, rest: Bytes)
    requires |EncTable(es)| < TWO32
    ensures DecTable(EncTable(es) + rest) == Some((CanonEntries(es), rest)) <==> FitEntries(es)
  {
    if FitEntries(es) {
      TableRoundTrip(es, rest);
    }
    if DecTable(EncTable(es) + rest) == Some((CanonEntries(es), rest)) {
      var t := DecFixed(4, EncTable(es) + rest).value;
      DecodedEntriesFit(t.1, t.0);
      CanonEntriesFit(es);
    }
  }

  // ---------- octet by octet ----------

  /** The number in 1, 2, 4 or 8 octets. */
  lemma FixedOctets(width: nat, v: nat)
    requires width in {1, 2, 4, 8}
    ensures |EncFixed(width, v)| == width && BigEndian(EncFixed(width, v)) == v % Bound(width)
  {
    BigEndianOfE8(v);
    BigEndianOfE16(v);
    BigEndianOfE32(v);
    BigEndianOfE64(v);
  }

  /** The tag, the width and the number of a value of fixed size. */
  lemma FixedValueOctets(k: FixedKind, b: nat)
    ensures var s := EncValue(Fixed(k, b));
            match k
            case Bool => s == ['t' as int, if b == 0 then 0 else 1]
            case I8 => s == ['b' as int, b % 256]
            case U8 => s == ['B' as int, b % 256]
            case I16 => |s| == 3 && s[0] == 's' as int && BigEndian(s[1..]) == b % TWO16
            case U16 => |s| == 3 && s[0] == 'u' as int && BigEndian(s[1..]) == b % TWO16
            case I32 => |s| == 5 && s[0] == 'I' as int && BigEndian(s[1..]) == b % TWO32
            case U32 => |s| == 5 && s[0] == 'i' as int && BigEndian(s[1..]) == b % TWO32
            case F32 => |s| == 5 && s[0] == 'f' as int && BigEndian(s[1..]) == b % TWO32
            case I64 => |s| == 9 && s[0] == 'l' as int && BigEndian(s[1..]) == b % TWO64
            case U64 => |s| == 9 && s[0] == 'L' as int && BigEndian(s[1..]) == b % TWO64
            case F64 => |s| == 9 && s[0] == 'd' as int && BigEndian(s[1..]) == b % TWO64
            case Timestamp => |s| == 9 && s[0] == 'T' as int && BigEndian(s[1..]) == b % TWO64
  {
    hide E16, E32, E64, BigEndian;
    FixedOctets(Width(k), Norm(k, b));
    assert EncValue(Fixed(k, b))[1..] == EncFixed(Width(k), Norm(k, b));
  }

  lemma SizedOctets(tag: Byte, body: Bytes)
    ensures var s := [tag] + E32(|body|) + body;
            |s| == 5 + |body| && s[0] == tag && BigEndian(s[1..5]) == |body| % TWO32 && s[5..] == body
  {
    hide E32, BigEndian;
    BigEndianOfE32(|body|);
    assert ([tag] + E32(|body|) + body)[1..5] == E32(|body|);
  }

  /** The tag, and what follows it, of all other values. */
  lemma ValueOctets(v: FieldValue)
    ensures var s := EncValue(v);
            match v
            case Fixed(_, _) => s != []
            case Decimal(d, n) => |s| == 6 && s[..2] == ['D' as int, d % 256] && BigEndian(s[2..]) == n % TWO32
            case Utf8(t) => |s| == 5 + |t| && s[0] == 'S' as int && BigEndian(s[1..5]) == |t| % TWO32 && s[5..] == t
            case Octets(t) => |s| == 5 + |t| && s[0] == 'x' as int && BigEndian(s[1..5]) == |t| % TWO32 && s[5..] == t
            case Array(items) =>
              |s| == 5 + |EncItems(items)| && s[0] == 'A' as int && BigEndian(s[1..5]) == (|s| - 5) % TWO32 && s[5..] == EncItems(items)
            case Nested(es) =>
              |s| == 5 + |EncEntries(es)| && s[0] == 'F' as int && BigEndian(s[1..5]) == (|s| - 5) % TWO32 && s[5..] == EncEntries(es)
            case Void => s == ['V' as int]
            case Unknown(tag) => s == [tag]
  {
    hide E32, BigEndian, EncItems, EncEntries;
    match v
    case Decimal(d, n) =>
      BigEndianOfE32(n);
      assert EncValue(v)[2..] == E32(n);
    case Utf8(t) => SizedOctets(UTF8, t);
    case Octets(t) => SizedOctets(OCTETS, t);
    case Array(items) => SizedOctets(ARRAY, EncItems(items));
    case Nested(es) => SizedOctets(TABLE, EncEntries(es));
    case _ =>
  }

  /** An entry: the length of its key in one octet, the key, and the value. */
  lemma EntryOctets(e: Entry)
    ensures var s := EncEntry(e);
            s[0] == |e.key| % 256 && s[1..1 + |e.key|] == e.key && s[1 + |e.key|..] == EncValue(e.value)
  {
    hide EncValue;
  }

  /** Items and entries stand one behind the other, in order. */
  lemma {:induction false} ItemsOctets(a: seq<FieldValue>, v: FieldValue)
    ensures EncItems([]) == [] && EncItems(a + [v]) == EncItems(a) + EncValue(v)
  {
    hide EncValue;
    if a == [] {
      assert [v] + [] == [v];
    } else {
      ItemsOctets(a[1..], v);
      assert (a + [v])[1..] == a[1..] + [v];
    }
  }

  lemma {:induction false} EntriesOctets(a: seq<Entry>, e: Entry)
    ensures EncEntries([]) == [] && EncEntries(a + [e]) == EncEntries(a) + EncEntry(e)
  {
    hide EncEntry;
    if a == [] {
      assert [e] + [] == [e];
    } else {
      EntriesOctets(a[1..], e);
      assert (a + [e])[1..] == a[1..] + [e];
    }
  }

  lemma {:induction false} CanonItemsAt(items: seq<FieldValue>)
    ensures |CanonItems(items)| == |items|
    ensures forall i | 0 <= i < |items| :: CanonItems(items)[i] == Canon(items[i])
  {
    hide Canon;
    if items != [] {
      CanonItemsAt(items[1..]);
    }
  }

  lemma {:induction false} CanonEntriesAt(es: seq<Entry>)
    ensures |CanonEntries(es)| == |es|
    ensures forall i | 0 <= i < |es| :: CanonEntries(es)[i] == Entry(es[i].key, Canon(es[i].value))
  {
    hide Canon;
    if es != [] {
      CanonEntriesAt(es[1..]);
    }
  }

  /** The value given back differs from the one encoded only in its booleans, at any depth. */
  lemma CanonValue(v: FieldValue)
    ensures match v
            case Fixed(Bool, b) => Canon(v) == Fixed(Bool, if b == 0 then 0 else 1)
            case Array(items) =>
              && Canon(v).Array? && |Canon(v).items| == |items|
              && forall i | 0 <= i < |items| :: Canon(v).items[i] == Canon(items[i])
            case Nested(es) =>
              && Canon(v).Nested? && |Canon(v).entries| == |es|
              && forall i | 0 <= i < |es| :: Canon(v).entries[i] == Entry(es[i].key, Canon(es[i].value))
            case _ => Canon(v) == v
  {
    if v.Array? {
      CanonItemsAt(v.items);
    } else if v.Nested? {
      CanonEntriesAt(v.entries);
    }
  }

  // ---------- what is read from any octets ----------

  lemma FixedSize(width: nat, v: nat)
    requires width in {1, 2, 4, 8}
    ensures |EncFixed(width, v)| == width
  {
  }

  lemma {:induction false} DecodedSimpleSpan(s: Bytes)
    requires s != [] && s[0] != ARRAY && s[0] != TABLE && DecSimple(s[0], s[1..]).Some?
    ensures var (v, rest) := DecSimple(s[0], s[1..]).value; |EncValue(v)| + |rest| == |s| && rest == s[|EncValue(v)|..]
  {
    hide D16, D32, D64, E8, E16, E32, E64;
    var tag, t := s[0], s[1..];
    if tag == DECIMAL {
      assert t[1..][4..] == s[6..];
    } else if tag == UTF8 || tag == OCTETS {
      var n := DecFixed(4, t).value.0;
      assert t[4..][n..] == s[5 + n..];
    } else if tag != VOID {
      var w := Width(KindOf(tag).value);
      FixedSize(w, DecFixed(w, t).value.0);
      FixedSize(w, Norm(KindOf(tag).value, DecFixed(w, t).value.0));
      assert t[w..] == s[1 + w..];
    }
  }

  /** The octets used up are as many as those of the value read, and the rest is what lies behind them. */
  lemma {:induction false} DecodedValueSpan(s: Bytes)
    ensures DecValue(s).Some? ==>
              var (v, rest) := DecValue(s).value; |EncValue(v)| + |rest| == |s| && rest == s[|EncValue(v)|..]
    decreases |s|, 0
  {
    hide E8, E16, E32, E64;
    if DecValue(s).Some? {
      if s[0] == ARRAY {
        var t := DecFixed(4, s[1..]).value.1;
        DecodedItemsSpan(t, DecFixed(4, s[1..]).value.0);
      } else if s[0] == TABLE {
        DecodedEntriesSpan(DecFixed(4, s[1..]).value.1, DecFixed(4, s[1..]).value.0);
      } else {
        DecodedSimpleSpan(s);
      }
    }
  }

  /** Items are read up to the first that reaches the size announced. */
  lemma {:induction false} DecodedItemsSpan(s: Bytes, limit: int)
    ensures DecItems(s, limit).Some? ==>
              var (items, rest) := DecItems(s, limit).value;
              && |EncItems(items)| + |rest| == |s| && rest == s[|EncItems(items)|..]
              && |EncItems(items)| >= limit
              && (items != [] ==> |EncItems(items[..|items| - 1])| < limit)
    decreases |s|, 1
  {
    hide EncValue, DecValue;
    if DecItems(s, limit).Some? && limit > 0 {
      DecodedValueSpan(s);
      var (v, rest) := DecValue(s).value;
      DecodedItemsSpan(rest, limit - (|s| - |rest|));
      var vs := DecItems(rest, limit - (|s| - |rest|)).value.0;
      var items := [v] + vs;
      assert items[1..] == vs;
      if vs == [] {
        assert items[..0] == [];
      } else {
        assert items[..|items| - 1][1..] == vs[..|vs| - 1];
      }
    }
  }

  lemma {:induction false} DecodedEntrySpan(s: Bytes)
    requires DecEntry(s).Some?
    ensures var (e, rest) := DecEntry(s).value; |EncEntry(e)| + |rest| == |s| && rest == s[|EncEntry(e)|..]
    decreases |s|, 1
  {
    hide E8, E16, E32, E64, EncValue, DecValue;
    var (n, t) := DecFixed(1, s).value;
    DecodedValueSpan(Take(n, t).value.1);
  }

  lemma {:induction false} DecodedEntriesSpan(s: Bytes, limit: int)
    ensures DecEntries(s, limit).Some? ==>
              var (es, rest) := DecEntries(s, limit).value;
              && |EncEntries(es)| + |rest| == |s| && rest == s[|EncEntries(es)|..]
              && |EncEntries(es)| >= limit
              && (es != [] ==> |EncEntries(es[..|es| - 1])| < limit)
    decreases |s|, 2
  {
    hide EncEntry, DecEntry;
    if DecEntries(s, limit).Some? && limit > 0 {
      DecodedEntrySpan(s);
      var (e, rest) := DecEntry(s).value;
      DecodedEntriesSpan(rest, limit - (|s| - |rest|));
      var more := DecEntries(rest, limit - (|s| - |rest|)).value.0;
      var es := [e] + more;
      assert es[1..] == more;
      if more == [] {
        assert es[..0] == [];
      } else {
        assert es[..|es| - 1][1..] == more[..|more| - 1];
      }
    }
  }
}
