/**
  amqp_encode_table and amqp_decode_table as they run: loops that move an offset through a
  buffer, with the size of a table stored after its entries.
 */
module TableCodec {
  import opened Wire
  import opened Buffer
  import opened Table

  lemma {:induction false} EntriesSplit(es: seq<Entry>, i: nat)
    requires i <= |es|
    ensures EncEntries(es) == EncEntries(es[..i]) + EncEntries(es[i..])
    decreases i
  {
    hide EncEntry;
    if i == 0 {
      assert es[0..] == es;
    } else {
      EntriesSplit(es[1..], i - 1);
      assert es[1..][..i - 1] == es[..i][1..];
      assert es[1..][i - 1..] == es[i..];
    }
  }

  lemma {:induction false} ItemsSplit(items: seq<FieldValue>, i: nat)
    requires i <= |items|
    ensures EncItems(items) == EncItems(items[..i]) + EncItems(items[i..])
    decreases i
  {
    hide EncValue;
    if i == 0 {
      assert items[0..] == items;
    } else {
      ItemsSplit(items[1..], i - 1);
      assert items[1..][..i - 1] == items[..i][1..];
      assert items[1..][i - 1..] == items[i..];
    }
  }

  /** How the first `i + 1` entries extend the first `i`, and how all of them do. */
  lemma EntriesStep(es: seq<Entry>, i: nat)
    requires i < |es|
    ensures EncEntries(es[..i + 1]) == EncEntries(es[..i]) + EncEntry(es[i])
    ensures |EncEntries(es)| >= |EncEntries(es[..i])| + |EncEntry(es[i])|
  {
    hide EncEntry;
    EntriesSplit(es[..i + 1], i);
    assert es[..i + 1][..i] == es[..i] && es[..i + 1][i..] == [es[i]];
    assert EncEntries([es[i]]) == EncEntry(es[i]) + EncEntries([]);
    EntriesSplit(es, i + 1);
  }

  lemma ItemsStep(items: seq<FieldValue>, i: nat)
    requires i < |items|
    ensures EncItems(items[..i + 1]) == EncItems(items[..i]) + EncValue(items[i])
    ensures |EncItems(items)| >= |EncItems(items[..i])| + |EncValue(items[i])|
  {
    hide EncValue;
    ItemsSplit(items[..i + 1], i);
    assert items[..i + 1][..i] == items[..i] && items[..i + 1][i..] == [items[i]];
    assert EncItems([items[i]]) == EncValue(items[i]) + EncItems([]);
    ItemsSplit(items, i + 1);
  }

  /** What every encoder below promises: it succeeds exactly when everything is of a known kind and the
      encoding fits below `limit`, it then has stored the encoding at `o`, and it never writes outside
      `o..limit`. */
  ghost predicate Encoded(known: bool, before: Bytes, after: Bytes, limit: nat, o: nat, o': nat, data: Bytes, status: Status) {
    && (status == Ok <==> known && o + |data| <= limit)
    && (status == Ok ==> o' == o + |data| && Wrote(before, after, o, data))
    && Within(before, after, o, limit)
  }

  lemma EncodedThen(known: bool, a: Bytes, b: Bytes, c: Bytes, limit: nat, o: nat, m: nat, o': nat, x: Bytes, y: Bytes, status: Status)
    requires Encoded(true, a, b, limit, o, m, x, Ok) && Encoded(known, b, c, limit, m, o', y, status)
    requires limit <= |a|
    ensures Encoded(known, a, c, limit, o, o', x + y, status)
  {
    if status == Ok {
      WroteNext(a, b, c, o, x, y);
    }
  }

  lemma StoreEncoded(a: Bytes, b: Bytes, limit: nat, o: nat, data: Bytes)
    requires limit <= |a|
    requires if o + |data| <= limit then Wrote(a, b, o, data) else b == a
    ensures Encoded(true, a, b, limit, o, o + |data|, data, if o + |data| <= limit then Ok else BadData)
  {
    if o + |data| <= limit {
      WroteWithin(a, b, o, data, o, limit);
    }
  }

  /** Two stores in a row; the second is tried only after the first succeeded. */
  method StoreTwo(buf: array<Byte>, limit: nat, o: nat, x: Bytes, y: Bytes) returns (ok: bool, o': nat)
    requires limit <= buf.Length
    modifies buf
    ensures Encoded(true, old(buf[..]), buf[..], limit, o, o', x + y, if ok then Ok else BadData)
  {
    hide Wrote, Within;
    ghost var b0 := buf[..];
    ok, o' := Store(buf, limit, o, x);
    ghost var b1, o1 := buf[..], o';
    StoreEncoded(b0, b1, limit, o, x);
    if ok {
      ok, o' := Store(buf, limit, o', y);
      StoreEncoded(b1, buf[..], limit, o1, y);
      EncodedThen(true, b0, b1, buf[..], limit, o, o1, o', x, y, if ok then Ok else BadData);
    }
  }

  /** The loop over a table or array that starts at `o`: `i` elements, encoded as `body`, are
      stored after the four octets left for their size. */
  ghost predicate Body(a: Bytes, b: Bytes, limit: nat, o: nat, o': nat, body: Bytes, i: nat) {
    && o' == o + 4 + |body|
    && (i == 0 ==> body == [])
    && (i > 0 ==> o' <= limit)
    && (o' <= limit ==> Wrote(a, b, o + 4, body))
    && Within(a, b, o, limit)
  }

  lemma BodyStart(a: Bytes, limit: nat, o: nat)
    requires limit <= |a|
    ensures Body(a, a, limit, o, o + 4, [], 0)
  {
  }

  lemma BodyThen(known: bool, a: Bytes, b: Bytes, c: Bytes, limit: nat, o: nat, m: nat, o': nat, body: Bytes, x: Bytes,
                 i: nat, status: Status)
    requires limit <= |a|
    requires Body(a, b, limit, o, m, body, i) && Encoded(known, b, c, limit, m, o', x, status)
    ensures status == Ok ==> known && Body(a, c, limit, o, o', body + x, i + 1)
    ensures status != Ok ==> !known || o + 4 + |body + x| > limit
    ensures Within(a, c, o, limit)
  {
    if status == Ok {
      WroteNext(a, b, c, o + 4, body, x);
    }
  }

  lemma BodyDone(a: Bytes, b: Bytes, c: Bytes, limit: nat, o: nat, o': nat, body: Bytes, i: nat, status: Status)
    requires limit <= |a|
    requires Body(a, b, limit, o, o', body, i)
    requires Encoded(true, b, c, limit, o, o + 4, E32(|body|), status)
    ensures Encoded(true, a, c, limit, o, o', E32(|body|) + body, status)
  {
    hide E32;
    if status == Ok {
      WroteBefore(a, b, c, o, E32(|body|), body);
    }
  }

  function TagOf(v: FieldValue): Byte {
    match v
    case Fixed(k, _) => Tag(k)
    case Decimal(_, _) => DECIMAL
    case Utf8(_) => UTF8
    case Octets(_) => OCTETS
    case Array(_) => ARRAY
    case Nested(_) => TABLE
    case Void => VOID
    case Unknown(tag) => tag
  }

  /** What follows the tag of a value that is not a container, in the two pieces it is stored. */
  function Pieces(v: FieldValue): (Bytes, Bytes)
    requires !v.Array? && !v.Nested?
  {
    match v
    case Fixed(k, b) => (EncFixed(Width(k), Norm(k, b)), [])
    case Decimal(d, n) => (E8(d), E32(n))
    case Utf8(t) => (E32(|t|), t)
    case Octets(t) => (E32(|t|), t)
    case Void | Unknown(_) => ([], [])
  }

  function ValuePayload(v: FieldValue): Bytes {
    match v
    case Array(items) => E32(|EncItems(items)|) + EncItems(items)
    case Nested(es) => EncTable(es)
    case _ => Pieces(v).0 + Pieces(v).1
  }

  lemma ValueIsTagAndPayload(v: FieldValue)
    ensures EncValue(v) == [TagOf(v)] + ValuePayload(v)
  {
    hide E8, E16, E32, E64;
  }

  // ---------- which failure is reported ----------

  /** A value whose tag does not fit is bad data, anything else that does not fit is too big, and a kind
      that is not known is an invalid parameter.  These say which comes first, for an encoding at `o` that
      fails below `limit`. */
  function ValueFailure(v: FieldValue, o: nat, limit: nat): Status
    decreases v, 1
  {
    if o + 1 > limit then BadData
    else
      match v
      case Array(items) => ItemsFailure(items, o + 5, limit)
      case Nested(es) => EntriesFailure(es, o + 5, limit)
      case Unknown(_) => InvalidParameter
      case _ => TableTooBig
  }

  function ItemsFailure(items: seq<FieldValue>, o: nat, limit: nat): Status
    decreases items, 0
  {
    if items == [] then TableTooBig
    else if !KnownValue(items[0]) || o + |EncValue(items[0])| > limit then ValueFailure(items[0], o, limit)
    else ItemsFailure(items[1..], o + |EncValue(items[0])|, limit)
  }

  function EntryFailure(e: Entry, o: nat, limit: nat): Status
    decreases e, 2
  {
    if o + 1 + |e.key| > limit then TableTooBig else ValueFailure(e.value, o + 1 + |e.key|, limit)
  }

  function EntriesFailure(es: seq<Entry>, o: nat, limit: nat): Status
    decreases es, 0
  {
    if es == [] then TableTooBig
    else if !KnownValue(es[0].value) || o + |EncEntry(es[0])| > limit then EntryFailure(es[0], o, limit)
    else EntriesFailure(es[1..], o + |EncEntry(es[0])|, limit)
  }

  lemma EntriesFailureNext(es: seq<Entry>, i: nat, o: nat, limit: nat)
    requires i < |es|
    ensures EntriesFailure(es[i..], o, limit) ==
            if !KnownValue(es[i].value) || o + |EncEntry(es[i])| > limit then EntryFailure(es[i], o, limit)
            else EntriesFailure(es[i + 1..], o + |EncEntry(es[i])|, limit)
  {
    hide EncEntry, EntryFailure, KnownValue;
    assert es[i..][0] == es[i] && es[i..][1..] == es[i + 1..];
  }

  lemma NothingFails(o: nat, limit: nat)
    ensures EntriesFailure([], o, limit) == ItemsFailure([], o, limit) == TableTooBig
  {
  }

  lemma ItemsFailureNext(items: seq<FieldValue>, i: nat, o: nat, limit: nat)
    requires i < |items|
    ensures ItemsFailure(items[i..], o, limit) ==
            if !KnownValue(items[i]) || o + |EncValue(items[i])| > limit then ValueFailure(items[i], o, limit)
            else ItemsFailure(items[i + 1..], o + |EncValue(items[i])|, limit)
  {
    hide EncValue, ValueFailure, KnownValue;
    assert items[i..][0] == items[i] && items[i..][1..] == items[i + 1..];
  }

  /** Of a value that cannot be stored: bad data if its tag does not fit, an invalid parameter if its kind is unknown,
      too big if it is neither an array nor a table. */
  lemma ValueFailing(v: FieldValue, o: nat, limit: nat)
    ensures o >= limit ==> ValueFailure(v, o, limit) == BadData
    ensures o < limit && v.Unknown? ==> ValueFailure(v, o, limit) == InvalidParameter
    ensures o < limit && !v.Unknown? && !v.Array? && !v.Nested? ==> ValueFailure(v, o, limit) == TableTooBig
  {
  }

  lemma ItemsBefore(items: seq<FieldValue>, k: nat)
    requires 0 < k <= |items|
    ensures |EncItems(items[..k])| == |EncValue(items[0])| + |EncItems(items[1..][..k - 1])|
  {
    hide EncValue;
    assert items[..k][1..] == items[1..][..k - 1];
  }

  /** Item `j` is of a known kind and fits, with all in front of it. */
  predicate ItemStored(items: seq<FieldValue>, o: nat, limit: nat, j: nat)
    requires j < |items|
  {
    KnownValue(items[j]) && o + |EncItems(items[..j + 1])| <= limit
  }

  lemma NoItems(items: seq<FieldValue>)
    requires items != []
    ensures EncItems(items[..0]) == [] && EncItems(items[1..][..0]) == []
  {
  }

  /** Of an array: that of the first item that is not known or does not fit; if there is none, its size does not fit. */
  lemma {:induction false} ItemFailing(items: seq<FieldValue>, o: nat, limit: nat, k: nat)
    requires k <= |items|
    requires forall j | 0 <= j < k :: ItemStored(items, o, limit, j)
    requires k < |items| ==> !ItemStored(items, o, limit, k)
    ensures ItemsFailure(items, o, limit)
            == if k == |items| then TableTooBig else ValueFailure(items[k], o + |EncItems(items[..k])|, limit)
    decreases k
  {
    hide EncValue, EncItems, ValueFailure, KnownValue;
    if items != [] {
      ItemsBefore(items, 1);
      NoItems(items);
      if k > 0 {
        assert ItemStored(items, o, limit, 0);
        var tail, o' := items[1..], o + |EncValue(items[0])|;
        forall j | 0 <= j < k - 1 ensures ItemStored(tail, o', limit, j) {
          ItemsBefore(items, j + 2);
          assert ItemStored(items, o, limit, j + 1);
        }
        ItemsBefore(items, k);
        if k < |items| {
          ItemsBefore(items, k + 1);
        }
        ItemFailing(tail, o', limit, k - 1);
      }
    }
  }

  lemma EntriesBefore(es: seq<Entry>, k: nat)
    requires 0 < k <= |es|
    ensures |EncEntries(es[..k])| == |EncEntry(es[0])| + |EncEntries(es[1..][..k - 1])|
  {
    hide EncEntry;
    assert es[..k][1..] == es[1..][..k - 1];
  }

  lemma NoEntries(es: seq<Entry>)
    requires es != []
    ensures EncEntries(es[..0]) == [] && EncEntries(es[1..][..0]) == []
  {
  }

  predicate EntryStored(es: seq<Entry>, o: nat, limit: nat, j: nat)
    requires j < |es|
  {
    KnownValue(es[j].value) && o + |EncEntries(es[..j + 1])| <= limit
  }

  /** Of a table: that of the value of the first entry that is not known or does not fit, if its key still fits. */
  lemma {:induction false} EntryFailing(es: seq<Entry>, o: nat, limit: nat, k: nat)
    requires k <= |es|
    requires forall j | 0 <= j < k :: EntryStored(es, o, limit, j)
    requires k < |es| ==> !EntryStored(es, o, limit, k)
    ensures EntriesFailure(es, o, limit)
            == if k == |es| || o + |EncEntries(es[..k])| + 1 + |es[k].key| > limit then TableTooBig
               else ValueFailure(es[k].value, o + |EncEntries(es[..k])| + 1 + |es[k].key|, limit)
    decreases k
  {
    hide EncEntry, EncEntries, ValueFailure, KnownValue;
    if es != [] {
      EntriesBefore(es, 1);
      NoEntries(es);
      if k > 0 {
        assert EntryStored(es, o, limit, 0);
        var tail, o' := es[1..], o + |EncEntry(es[0])|;
        forall j | 0 <= j < k - 1 ensures EntryStored(tail, o', limit, j) {
          EntriesBefore(es, j + 2);
          assert EntryStored(es, o, limit, j + 1);
        }
        EntriesBefore(es, k);
        if k < |es| {
          EntriesBefore(es, k + 1);
        }
        EntryFailing(tail, o', limit, k - 1);
      }
    }
  }

  // ---------- encoding ----------

  method EncodeEntry(buf: array<Byte>, limit: nat, o: nat, e: Entry) returns (status: Status, o': nat)
    requires limit <= buf.Length
    modifies buf
    ensures Encoded(KnownValue(e.value), old(buf[..]), buf[..], limit, o, o', EncEntry(e), status)
    ensures status != Ok ==> status == EntryFailure(e, o, limit)
    decreases e, 2
  {
    hide EncValue, E8, Wrote, Within, KnownValue;
    ghost var b0 := buf[..];
    var ok;
    ok, o' := StoreTwo(buf, limit, o, E8(|e.key|), e.key);
    if !ok { return TableTooBig, o'; }
    ghost var b1, o1 := buf[..], o';
    status, o' := EncodeFieldValue(buf, limit, o', e.value);
    EncodedThen(KnownValue(e.value), b0, b1, buf[..], limit, o, o1, o', E8(|e.key|) + e.key, EncValue(e.value), status);
  }

  method EncodeTable(buf: array<Byte>, limit: nat, o: nat, es: seq<Entry>) returns (status: Status, o': nat)
    requires limit <= buf.Length
    modifies buf
    ensures Encoded(KnownEntries(es), old(buf[..]), buf[..], limit, o, o', EncTable(es), status)
    ensures status != Ok ==> status == EntriesFailure(es, o + 4, limit)
    decreases es, 1
  {
    hide EncEntry, E32, EntryFailure, EntriesFailure, KnownValue, Wrote, Within;
    ghost var b0 := buf[..];
    o' := o + 4;
    BodyStart(b0, limit, o);
    assert es[..0] == [] && es[0..] == es;
    var i := 0;
    while i < |es|
      invariant 0 <= i <= |es| && forall j | 0 <= j < i :: KnownValue(es[j].value)
      invariant Body(b0, buf[..], limit, o, o', EncEntries(es[..i]), i)
      invariant EntriesFailure(es, o + 4, limit) == EntriesFailure(es[i..], o', limit)
    {
      ghost var b1, o1 := buf[..], o';
      status, o' := EncodeEntry(buf, limit, o', es[i]);
      EntriesStep(es, i);
      EntriesFailureNext(es, i, o1, limit);
      BodyThen(KnownValue(es[i].value), b0, b1, buf[..], limit, o, o1, o', EncEntries(es[..i]), EncEntry(es[i]), i, status);
      if status != Ok {
        return;
      }
      i := i + 1;
    }
    assert es[..i] == es && es[i..] == [];
    NothingFails(o', limit);
    ghost var b1 := buf[..];
    var ok, _ := Store(buf, limit, o, E32(o' - o - 4));
    StoreEncoded(b1, buf[..], limit, o, E32(|EncEntries(es)|));
    status := if ok then Ok else TableTooBig;
    BodyDone(b0, b1, buf[..], limit, o, o', EncEntries(es), i, status);
  }

  method EncodeArray(buf: array<Byte>, limit: nat, o: nat, items: seq<FieldValue>) returns (status: Status, o': nat)
    requires limit <= buf.Length
    modifies buf
    ensures Encoded(KnownItems(items), old(buf[..]), buf[..], limit, o, o', E32(|EncItems(items)|) + EncItems(items), status)
    ensures status != Ok ==> status == ItemsFailure(items, o + 4, limit)
    decreases items, 1
  {
    hide EncValue, E32, ValueFailure, ItemsFailure, KnownValue, Wrote, Within;
    ghost var b0 := buf[..];
    o' := o + 4;
    BodyStart(b0, limit, o);
    assert items[..0] == [] && items[0..] == items;
    var i := 0;
    while i < |items|
      invariant 0 <= i <= |items| && forall j | 0 <= j < i :: KnownValue(items[j])
      invariant Body(b0, buf[..], limit, o, o', EncItems(items[..i]), i)
      invariant ItemsFailure(items, o + 4, limit) == ItemsFailure(items[i..], o', limit)
    {
      ghost var b1, o1 := buf[..], o';
      status, o' := EncodeFieldValue(buf, limit, o', items[i]);
      ItemsStep(items, i);
      ItemsFailureNext(items, i, o1, limit);
      BodyThen(KnownValue(items[i]), b0, b1, buf[..], limit, o, o1, o', EncItems(items[..i]), EncValue(items[i]), i, status);
      if status != Ok {
        return;
      }
      i := i + 1;
    }
    assert items[..i] == items && items[i..] == [];
    NothingFails(o', limit);
    ghost var b1 := buf[..];
    var ok, _ := Store(buf, limit, o, E32(o' - o - 4));
    StoreEncoded(b1, buf[..], limit, o, E32(|EncItems(items)|));
    status := if ok then Ok else TableTooBig;
    BodyDone(b0, b1, buf[..], limit, o, o', EncItems(items), i, status);
  }

  lemma NothingWritten(a: Bytes, o: nat, limit: nat)
    ensures Within(a, a, o, limit)
  {
  }

  method EncodeFieldValue(buf: array<Byte>, limit: nat, o: nat, v: FieldValue) returns (status: Status, o': nat)
    requires limit <= buf.Length
    modifies buf
    ensures Encoded(KnownValue(v), old(buf[..]), buf[..], limit, o, o', EncValue(v), status)
    ensures status != Ok ==> status == ValueFailure(v, o, limit)
    decreases v, 2
  {
    hide E8, E16, E32, E64, Wrote, Within, EncItems, EncEntries;
    ghost var b0 := buf[..];
    var ok;
    ok, o' := Store(buf, limit, o, [TagOf(v)]);
    ghost var b1, o1 := buf[..], o';
    StoreEncoded(b0, b1, limit, o, [TagOf(v)]);
    if !ok { return BadData, o'; }
    match v {
      case Array(items) =>
        status, o' := EncodeArray(buf, limit, o', items);
      case Nested(es) =>
        status, o' := EncodeTable(buf, limit, o', es);
      case Unknown(_) =>
        status := InvalidParameter;
        NothingWritten(b1, o1, limit);
      case _ =>
        ok, o' := StoreTwo(buf, limit, o', Pieces(v).0, Pieces(v).1);
        status := if ok then Ok else TableTooBig;
    }
    ValueIsTagAndPayload(v);
    EncodedThen(KnownValue(v), b0, b1, buf[..], limit, o, o1, o', [TagOf(v)], ValuePayload(v), status);
  }

  // ---------- decoding ----------

  method DecodeFixed(s: Bytes, o: nat, width: nat) returns (ok: bool, v: nat, o': nat)
    requires width in {1, 2, 4, 8} && o <= |s|
    ensures ok <==> DecFixed(width, s[o..]).Some?
    ensures ok ==> o' == o + width <= |s| && DecFixed(width, s[o..]) == Some((v, s[o'..]))
  {
    o' := o + width;
    ok := o' <= |s|;
    v := 0;
    if ok {
      v := if width == 1 then s[o] as int else if width == 2 then D16(s, o) else if width == 4 then D32(s, o) else D64(s, o);
      assert s[o..][width..] == s[o'..];
      assert s == s[..o] + s[o..];
      ReadShift(s[..o], s[o..]);
    }
  }

  method DecodeBytes(s: Bytes, o: nat, n: nat) returns (ok: bool, data: Bytes, o': nat)
    requires o <= |s|
    ensures ok <==> Take(n, s[o..]).Some?
    ensures ok ==> o' == o + n <= |s| && Take(n, s[o..]) == Some((data, s[o'..]))
  {
    o' := o + n;
    ok := o' <= |s|;
    data := [];
    if ok {
      data := s[o..o'];
      assert s[o..][..n] == data && s[o..][n..] == s[o'..];
    }
  }

  /** The elements read so far, put in front of what the rest decodes to. */
  ghost function Onto<T>(done: seq<T>, rest: Option<(seq<T>, Bytes)>): Option<(seq<T>, Bytes)> {
    if rest.None? then None else Some((done + rest.value.0, rest.value.1))
  }

  lemma OntoLaws<T>(done: seq<T>, x: T, rest: Option<(seq<T>, Bytes)>, s: Bytes)
    ensures Onto([], rest) == rest
    ensures Onto(done, Some(([], s))) == Some((done, s))
    ensures Onto(done + [x], rest) == Onto(done, Onto([x], rest))
  {
    assert done + [] == done;
    if rest.Some? {
      assert [] + rest.value.0 == rest.value.0;
      assert done + [x] + rest.value.0 == done + ([x] + rest.value.0);
    }
  }

  method DecodeTable(s: Bytes, o: nat) returns (status: Status, entries: seq<Entry>, o': nat)
    requires o <= |s|
    ensures status == Ok <==> DecTable(s[o..]).Some?
    ensures status == Ok ==> o' <= |s| && DecTable(s[o..]) == Some((entries, s[o'..]))
    ensures status != Ok ==> status == BadData
    decreases |s| - o, 3
  {
    hide DecEntry;
    entries := [];
    var ok, size;
    ok, size, o' := DecodeFixed(s, o, 4);
    if !ok { return BadData, entries, o'; }
    var limit := o' + size;
    ghost var whole := DecEntries(s[o'..], size);
    OntoLaws([], Entry([], Void), whole, s);
    while o' < limit
      invariant o + 4 <= o' <= |s|
      invariant whole == Onto(entries, DecEntries(s[o'..], limit - o'))
      decreases |s| - o'
    {
      var e, o1 := Entry([], Void), o';
      status, e, o' := DecodeEntry(s, o');
      if status != Ok { return; }
      assert |s[o1..]| - |s[o'..]| == o' - o1;
      assert DecEntries(s[o1..], limit - o1) == Onto([e], DecEntries(s[o'..], limit - o'));
      OntoLaws(entries, e, DecEntries(s[o'..], limit - o'), s);
      entries := entries + [e];
    }
    OntoLaws(entries, Entry([], Void), None, s[o'..]);
    status := Ok;
  }

  method DecodeEntry(s: Bytes, o: nat) returns (status: Status, e: Entry, o': nat)
    requires o <= |s|
    ensures status == Ok <==> DecEntry(s[o..]).Some?
    ensures status == Ok ==> o < o' <= |s| && DecEntry(s[o..]) == Some((e, s[o'..]))
    ensures status != Ok ==> status == BadData
    decreases |s| - o, 2
  {
    e := Entry([], Void);
    var ok, n, key, v;
    ok, n, o' := DecodeFixed(s, o, 1);
    if !ok { return BadData, e, o'; }
    ok, key, o' := DecodeBytes(s, o', n);
    if !ok { return BadData, e, o'; }
    status, v, o' := DecodeFieldValue(s, o');
    e := Entry(key, v);
  }

  method DecodeArray(s: Bytes, o: nat) returns (status: Status, items: seq<FieldValue>, o': nat)
    requires o + 4 <= |s|
    ensures status == Ok <==> DecItems(s[o + 4..], D32(s, o)).Some?
    ensures status == Ok ==> o < o' <= |s| && DecItems(s[o + 4..], D32(s, o)) == Some((items, s[o'..]))
    ensures status != Ok ==> status == BadData
    decreases |s| - o, 2
  {
    hide DecValue;
    items := [];
    var size := D32(s, o);
    o' := o + 4;
    var limit := o' + size;
    ghost var whole := DecItems(s[o'..], size);
    OntoLaws([], Void, whole, s);
    while o' < limit
      invariant o + 4 <= o' <= |s|
      invariant whole == Onto(items, DecItems(s[o'..], limit - o'))
      decreases |s| - o'
    {
      var v, o1 := Void, o';
      status, v, o' := DecodeFieldValue(s, o');
      if status != Ok { return; }
      assert |s[o1..]| - |s[o'..]| == o' - o1;
      assert DecItems(s[o1..], limit - o1) == Onto([v], DecItems(s[o'..], limit - o'));
      OntoLaws(items, v, DecItems(s[o'..], limit - o'), s);
      items := items + [v];
    }
    OntoLaws(items, Void, None, s[o'..]);
    status := Ok;
  }

  method DecodeSimple(s: Bytes, o: nat, tag: Byte) returns (status: Status, v: FieldValue, o': nat)
    requires o <= |s|
    ensures status == Ok <==> DecSimple(tag, s[o..]).Some?
    ensures status == Ok ==> o <= o' <= |s| && DecSimple(tag, s[o..]) == Some((v, s[o'..]))
    ensures status != Ok ==> status == BadData
  {
    hide DecFixed, Take;
    v := Void;
    o' := o;
    var ok, n, d;
    if tag == DECIMAL {
      ok, d, o' := DecodeFixed(s, o', 1);
      if !ok { return BadData, v, o'; }
      ok, n, o' := DecodeFixed(s, o', 4);
      if !ok { return BadData, v, o'; }
      v := Decimal(d, n);
    } else if tag == UTF8 || tag == OCTETS {
      ok, n, o' := DecodeFixed(s, o', 4);
      if !ok { return BadData, v, o'; }
      var t;
      ok, t, o' := DecodeBytes(s, o', n);
      if !ok { return BadData, v, o'; }
      v := if tag == UTF8 then Utf8(t) else Octets(t);
    } else if tag != VOID {
      var kind := KindOf(tag);
      if kind.None? { return BadData, v, o'; }
      ok, n, o' := DecodeFixed(s, o', Width(kind.value));
      if !ok { return BadData, v, o'; }
      v := Fixed(kind.value, Norm(kind.value, n));
    }
    status := Ok;
  }

  method DecodeFieldValue(s: Bytes, o: nat) returns (status: Status, v: FieldValue, o': nat)
    requires o <= |s|
    ensures status == Ok <==> DecValue(s[o..]).Some?
    ensures status == Ok ==> o < o' <= |s| && DecValue(s[o..]) == Some((v, s[o'..]))
    ensures status != Ok ==> status == BadData
    decreases |s| - o, 1
  {
    hide DecItems, DecTable, DecSimple;
    v := Void;
    var ok, tag;
    ok, tag, o' := DecodeFixed(s, o, 1);
    if !ok { return BadData, v, o'; }
    if tag == ARRAY {
      if |s| < o' + 4 { return BadData, v, o'; }
      var items;
      status, items, o' := DecodeArray(s, o');
      v := Array(items);
    } else if tag == TABLE {
      var entries;
      status, entries, o' := DecodeTable(s, o');
      v := Nested(entries);
    } else {
      status, v, o' := DecodeSimple(s, o', tag);
    }
  }
}
