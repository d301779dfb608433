/**
  amqp_encode_method, amqp_decode_method and their property counterparts as they run: a moving
  offset over a buffer, a bit buffer, and the flag-word loops.
 */
module FramingCodec {
  import opened Wire
  import opened Buffer
  import opened Table
  import opened TableCodec
  import opened Framing
  import opened Properties

  // ---------- encoding ----------

  lemma {:induction false} NextBit(bits: seq<int>, bit: int)
    ensures BitBuffer(bits + [bit]) == BitBuffer(bits) + if bit != 0 then Pow2(|bits|) else 0
  {
    if bits != [] {
      assert (bits + [bit])[1..] == bits[1..] + [bit];
      NextBit(bits[1..], bit);
    }
  }

  method PackBits(bits: seq<int>) returns (buffer: nat)
    ensures buffer == BitBuffer(bits)
  {
    buffer := 0;
    var weight := 1;
    for i := 0 to |bits|
      invariant buffer == BitBuffer(bits[..i]) && weight == Pow2(i)
    {
      assert bits[..i + 1] == bits[..i] + [bits[i]];
      NextBit(bits[..i], bits[i]);
      if bits[i] != 0 {
        buffer := buffer + weight;
      }
      weight := 2 * weight;
    }
    assert bits[..|bits|] == bits;
  }

  /** No table in them holds a value of an unknown kind. */
  predicate KnownField(f: Field) {
    f.TableF? ==> KnownEntries(f.entries)
  }

  predicate KnownFields(fs: seq<Field>) {
    forall i | 0 <= i < |fs| :: KnownField(fs[i])
  }

  /** Only tables can be too big or invalid; any other field that does not fit is bad data. */
  function FieldFailure(k: FieldKind, f: Field, o: nat, limit: nat): Status
    requires Typed(k, f)
  {
    if k == TableArg then EntriesFailure(f.entries, o + 4, limit) else BadData
  }

  /** The status reported for fields that cannot be stored below `limit`: that of the first. */
  function FieldsFailure(ks: seq<FieldKind>, fs: seq<Field>, o: nat, limit: nat): Status
    requires AllTyped(ks, fs)
  {
    if ks == [] then Ok
    else if !KnownField(fs[0]) || o + |EncField(ks[0], fs[0])| > limit then FieldFailure(ks[0], fs[0], o, limit)
    else FieldsFailure(ks[1..], fs[1..], o + |EncField(ks[0], fs[0])|, limit)
  }

  /** One field in front of which all others are stored: bad data, unless it is a table. */
  lemma {:induction false} FieldsFailing(ks: seq<FieldKind>, fs: seq<Field>, k: FieldKind, f: Field, o: nat, limit: nat)
    requires AllTyped(ks, fs) && Typed(k, f) && k != TableArg
    requires (forall i | 0 <= i < |fs| :: KnownField(fs[i])) && o + |EncFields(ks, fs)| <= limit
    requires o + |EncFields(ks, fs)| + |EncField(k, f)| > limit
    ensures AllTyped(ks + [k], fs + [f]) && FieldsFailure(ks + [k], fs + [f], o, limit) == BadData
  {
    hide EncField, KnownField, Typed;
    if ks != [] {
      assert (ks + [k])[1..] == ks[1..] + [k] && (fs + [f])[1..] == fs[1..] + [f];
      FieldsFailing(ks[1..], fs[1..], k, f, o + |EncField(ks[0], fs[0])|, limit);
    }
  }

  method EncodeField(buf: array<Byte>, limit: nat, o: nat, k: FieldKind, f: Field) returns (status: Status, o': nat)
    requires limit <= buf.Length && Typed(k, f)
    modifies buf
    ensures Encoded(KnownField(f), old(buf[..]), buf[..], limit, o, o', EncField(k, f), status)
    ensures status != Ok ==> status == FieldFailure(k, f, o, limit)
  {
    hide E8, E16, E32, E64, Wrote, Within, EncTable, KnownEntries;
    ghost var b0 := buf[..];
    var ok: bool;
    match k {
      case Num(w) =>
        ok, o' := Store(buf, limit, o, EncFixed(w, f.v));
        StoreEncoded(b0, buf[..], limit, o, EncFixed(w, f.v));
        status := if ok then Ok else BadData;
      case ShortStr =>
        ok, o' := StoreTwo(buf, limit, o, E8(|f.octets|), f.octets);
        status := if ok then Ok else BadData;
      case LongStr =>
        ok, o' := StoreTwo(buf, limit, o, E32(|f.octets|), f.octets);
        status := if ok then Ok else BadData;
      case Bits(_) =>
        var buffer := PackBits(f.bits);
        ok, o' := Store(buf, limit, o, E8(buffer));
        StoreEncoded(b0, buf[..], limit, o, E8(buffer));
        status := if ok then Ok else BadData;
      case TableArg =>
        status, o' := EncodeTable(buf, limit, o, f.entries);
    }
  }

  lemma FieldsNext(ks: seq<FieldKind>, fs: seq<Field>, i: nat)
    requires AllTyped(ks, fs) && i < |ks|
    ensures EncFields(ks[i..], fs[i..]) == EncField(ks[i], fs[i]) + EncFields(ks[i + 1..], fs[i + 1..])
    ensures forall o: nat, limit: nat :: FieldsFailure(ks[i..], fs[i..], o, limit) ==
              if !KnownField(fs[i]) || o + |EncField(ks[i], fs[i])| > limit then FieldFailure(ks[i], fs[i], o, limit)
              else FieldsFailure(ks[i + 1..], fs[i + 1..], o + |EncField(ks[i], fs[i])|, limit)
  {
    hide EncField, FieldFailure, KnownField;
    assert ks[i..][1..] == ks[i + 1..] && fs[i..][1..] == fs[i + 1..];
  }

  method EncodeFields(buf: array<Byte>, limit: nat, o: nat, ks: seq<FieldKind>, fs: seq<Field>) returns (status: Status, o': nat)
    requires o <= limit <= buf.Length && AllTyped(ks, fs)
    modifies buf
    ensures Encoded(KnownFields(fs), old(buf[..]), buf[..], limit, o, o', EncFields(ks, fs), status)
    ensures status != Ok ==> status == FieldsFailure(ks, fs, o, limit)
  {
    hide EncField, Wrote, Within, FieldFailure, FieldsFailure, KnownField;
    ghost var b0 := buf[..];
    ghost var done: Bytes := [];
    o' := o;
    assert Encoded(true, b0, b0, limit, o, o, [], Ok) by {
      StoreEncoded(b0, b0, limit, o, []);
    }
    assert ks[0..] == ks && fs[0..] == fs;
    for i := 0 to |ks|
      invariant Encoded(true, b0, buf[..], limit, o, o', done, Ok)
      invariant EncFields(ks, fs) == done + EncFields(ks[i..], fs[i..]) && forall j | 0 <= j < i :: KnownField(fs[j])
      invariant FieldsFailure(ks, fs, o, limit) == FieldsFailure(ks[i..], fs[i..], o', limit)
    {
      ghost var b1, o1, x := buf[..], o', EncField(ks[i], fs[i]);
      FieldsNext(ks, fs, i);
      status, o' := EncodeField(buf, limit, o', ks[i], fs[i]);
      EncodedThen(KnownField(fs[i]), b0, b1, buf[..], limit, o, o1, o', done, x, status);
      assert EncFields(ks, fs) == done + x + EncFields(ks[i + 1..], fs[i + 1..]);
      if status != Ok { return; }
      done := done + x;
    }
    assert done + [] == done;
    status := Ok;
  }

  /** On success `n` octets were stored at `o`. */
  method EncodeMethod(buf: array<Byte>, limit: nat, o: nat, id: nat, fs: seq<Field>) returns (status: Status, n: nat)
    requires o <= limit <= buf.Length
    requires Schema(id).Some? ==> AllTyped(Schema(id).value, fs)
    modifies buf
    ensures Schema(id).None? ==> status == UnknownMethod && buf[..] == old(buf[..])
    ensures Schema(id).Some? ==>
              && Encoded(KnownFields(fs), old(buf[..]), buf[..], limit, o, o + n, EncFields(Schema(id).value, fs), status)
              && (status != Ok ==> status == FieldsFailure(Schema(id).value, fs, o, limit))
  {
    hide Schema;
    n := 0;
    var ks := Schema(id);
    if ks.None? { return UnknownMethod, n; }
    var o';
    status, o' := EncodeFields(buf, limit, o, ks.value, fs);
    if status == Ok { n := o' - o; }
  }

  lemma FlagWordsNext(done: Bytes, flags: nat)
    ensures done + FlagWords(flags) ==
            done + E16(Word(flags)) + if flags / TWO16 != 0 then FlagWords(flags / TWO16) else []
  {
    hide E16, Word;
  }

  /** The word to send next, and what remains for the words after it. */
  method SplitFlags(flags: nat) returns (word: nat, remainder: nat)
    ensures word == Word(flags) && remainder == flags / TWO16
    ensures remainder <= flags && (remainder != 0 ==> remainder < flags)
  {
    remainder := flags / TWO16;
    word := flags % TWO16 - flags % 2;
    if remainder != 0 {
      word := word + 1;
    }
  }

  method EncodeFlags(buf: array<Byte>, limit: nat, o: nat, flags: nat) returns (status: Status, o': nat)
    requires o <= limit <= buf.Length
    modifies buf
    ensures Encoded(true, old(buf[..]), buf[..], limit, o, o', FlagWords(flags), status)
    ensures status != Ok ==> status == BadData
  {
    hide E16, Word, FlagWords, Wrote, Within;
    ghost var b0 := buf[..];
    ghost var done: Bytes := [];
    o' := o;
    assert Encoded(true, b0, b0, limit, o, o, [], Ok) by {
      StoreEncoded(b0, b0, limit, o, []);
    }
    var remaining: nat, more := flags, true;
    while more
      invariant Encoded(true, b0, buf[..], limit, o, o', done, Ok)
      invariant FlagWords(flags) == done + if more then FlagWords(remaining) else []
      decreases more, remaining
    {
      ghost var b1, o1 := buf[..], o';
      FlagWordsNext(done, remaining);
      var word, ok;
      word, remaining := SplitFlags(remaining);
      ok, o' := Store(buf, limit, o', E16(word));
      StoreEncoded(b1, buf[..], limit, o1, E16(word));
      EncodedThen(true, b0, b1, buf[..], limit, o, o1, o', done, E16(word), if ok then Ok else BadData);
      if !ok { return BadData, o'; }
      done := done + E16(word);
      more := remaining != 0;
    }
    assert done + [] == done;
    status := Ok;
  }

  method EncodeProperties(buf: array<Byte>, limit: nat, o: nat, classId: nat, p: Properties) returns (status: Status, n: nat)
    requires o <= limit <= buf.Length
    requires FieldKinds(classId, p.flags).Some? ==> PropsTyped(classId, p)
    modifies buf
    ensures FieldKinds(classId, p.flags).None? ==>
              status == if o + |FlagWords(p.flags)| <= limit then UnknownClass else BadData
    ensures FieldKinds(classId, p.flags).Some? ==>
              && Encoded(KnownFields(p.fields), old(buf[..]), buf[..], limit, o, o + n, EncProps(classId, p), status)
              && (status != Ok ==>
                    status == if o + |FlagWords(p.flags)| > limit then BadData
                              else FieldsFailure(FieldKinds(classId, p.flags).value, p.fields, o + |FlagWords(p.flags)|, limit))
    ensures Within(old(buf[..]), buf[..], o, limit)
  {
    hide FlagWords, FieldKinds, EncFields, Wrote, Within;
    n := 0;
    ghost var b0 := buf[..];
    var o1, o2;
    status, o1 := EncodeFlags(buf, limit, o, p.flags);
    ghost var b1 := buf[..];
    if status != Ok { return BadData, n; }
    var ks := FieldKinds(classId, p.flags);
    if ks.None? { return UnknownClass, n; }
    status, o2 := EncodeFields(buf, limit, o1, ks.value, p.fields);
    EncodedThen(KnownFields(p.fields), b0, b1, buf[..], limit, o, o1, o2, FlagWords(p.flags), EncFields(ks.value, p.fields), status);
    if status == Ok { n := o2 - o; }
  }

  // ---------- decoding ----------

  method UnpackBits(n: nat, buffer: nat) returns (bits: seq<int>)
    ensures bits == BitsOf(n, buffer)
  {
    bits := [];
    var rest := buffer;
    for i := 0 to n
      invariant BitsOf(n, buffer) == bits + BitsOf(n - i, rest)
    {
      bits := bits + [rest % 2];
      rest := rest / 2;
    }
  }

  method DecodeField(s: Bytes, o: nat, k: FieldKind) returns (status: Status, f: Field, o': nat)
    requires o <= |s| && KindOk(k)
    ensures status == Ok <==> DecField(k, s[o..]).Some?
    ensures status == Ok ==> o' <= |s| && DecField(k, s[o..]) == Some((f, s[o'..]))
    ensures status != Ok ==> status == BadData
  {
    hide DecTable, DecFixed, Take, BitsOf;
    f := NumF(0);
    var ok: bool, n: nat, data: Bytes;
    match k {
      case Num(w) =>
        ok, n, o' := DecodeFixed(s, o, w);
        f := NumF(n);
      case ShortStr =>
        ok, n, o' := DecodeFixed(s, o, 1);
        if ok {
          ok, data, o' := DecodeBytes(s, o', n);
          f := StrF(data);
        }
      case LongStr =>
        ok, n, o' := DecodeFixed(s, o, 4);
        if ok {
          ok, data, o' := DecodeBytes(s, o', n);
          f := StrF(data);
        }
      case Bits(count) =>
        ok, n, o' := DecodeFixed(s, o, 1);
        if ok {
          var bits := UnpackBits(count, n);
          f := BitsF(bits);
        }
      case TableArg =>
        var entries;
        status, entries, o' := DecodeTable(s, o);
        f := TableF(entries);
        ok := status == Ok;
    }
    status := if ok then Ok else BadData;
  }

  method DecodeFields(s: Bytes, o: nat, ks: seq<FieldKind>) returns (status: Status, fs: seq<Field>, o': nat)
    requires o <= |s| && KindsOk(ks)
    ensures status == Ok <==> DecFields(ks, s[o..]).Some?
    ensures status == Ok ==> o' <= |s| && DecFields(ks, s[o..]) == Some((fs, s[o'..]))
    ensures status != Ok ==> status == BadData
  {
    hide DecField;
    fs, o' := [], o;
    ghost var whole := DecFields(ks, s[o..]);
    assert ks[0..] == ks;
    OntoLaws([], NumF(0), whole, s);
    for i := 0 to |ks|
      invariant o' <= |s|
      invariant whole == Onto(fs, DecFields(ks[i..], s[o'..]))
    {
      var f;
      ghost var o1 := o';
      assert ks[i..][1..] == ks[i + 1..];
      status, f, o' := DecodeField(s, o', ks[i]);
      if status != Ok { return; }
      assert DecFields(ks[i..], s[o1..]) == Onto([f], DecFields(ks[i + 1..], s[o'..]));
      OntoLaws(fs, f, DecFields(ks[i + 1..], s[o'..]), s);
      fs := fs + [f];
    }
    OntoLaws(fs, NumF(0), None, s[o'..]);
    status := Ok;
  }

  method DecodeMethod(id: nat, s: Bytes) returns (status: Status, fs: seq<Field>)
    ensures status == Ok <==> DecMethod(id, s).Success?
    ensures if status == Ok then DecMethod(id, s).value.0 == fs else DecMethod(id, s) == Failure(status)
  {
    hide Schema, DecFields;
    fs := [];
    var ks := Schema(id);
    if ks.None? { return UnknownMethod, fs; }
    assert s[0..] == s;
    var consumed;
    status, fs, consumed := DecodeFields(s, 0, ks.value);
  }

  method DecodeProperties(classId: nat, s: Bytes) returns (status: Status, p: Properties)
    ensures status == Ok <==> DecProps(classId, s).Success?
    ensures if status == Ok then DecProps(classId, s).value.0 == p else DecProps(classId, s) == Failure(status)
  {
    hide FieldKinds, DecFields;
    p := Properties(0, []);
    var o, flags, index, partial: nat := 0, 0, 0, 1;
    while partial % 2 == 1
      invariant 0 <= index <= 2 && o == 2 * index <= |s|
      invariant index == 0 ==> flags == 0 && partial % 2 == 1
      invariant index == 1 ==> flags == partial == D16(s, 0)
      invariant index == 2 ==> D16(s, 0) % 2 == 1 && partial == D16(s, 2) && flags == D16(s, 0) + partial * TWO16
      decreases 2 - index, partial % 2
    {
      if |s| < o + 2 { return BadData, p; }
      if index == 2 { return Undefined, p; }
      partial := D16(s, o);
      flags := flags + (if index == 0 then partial else partial * TWO16);
      index, o := index + 1, o + 2;
    }
    assert DecFlags(s) == Success((flags, s[o..]));
    var ks := FieldKinds(classId, flags);
    if ks.None? { return UnknownClass, p; }
    var fs, consumed;
    status, fs, consumed := DecodeFields(s, o, ks.value);
    p := Properties(flags, fs);
  }
}
