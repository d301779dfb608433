/**
  The generated codec of amqp_framing.c.  The encoder and the decoder of a method treat the same
  fields in the same order, so each method is described once, by its list of field kinds.
 */
module Framing {
  import opened Wire
  import opened Table

  datatype FieldKind = Num(width: nat) | ShortStr | LongStr | Bits(count: nat) | TableArg

  datatype Field = NumF(v: nat) | StrF(octets: Bytes) | BitsF(bits: seq<int>) | TableF(entries: seq<Entry>)

  predicate KindOk(k: FieldKind) {
    (k.Num? ==> k.width in {1, 2, 4, 8}) && (k.Bits? ==> k.count <= 8)
  }

  predicate KindsOk(ks: seq<FieldKind>) {
    forall k | k in ks :: KindOk(k)
  }

  predicate Typed(k: FieldKind, f: Field) {
    match k
    case Num(_) => f.NumF?
    case ShortStr | LongStr => f.StrF?
    case Bits(n) => f.BitsF? && |f.bits| == n
    case TableArg => f.TableF?
  }

  predicate AllTyped(ks: seq<FieldKind>, fs: seq<Field>) {
    |ks| == |fs| && forall i | 0 <= i < |ks| :: Typed(ks[i], fs[i])
  }

  // ---------- bit fields ----------

  function BitBuffer(bits: seq<int>): nat {
    if bits == [] then 0 else (if bits[0] != 0 then 1 else 0) + 2 * BitBuffer(bits[1..])
  }

  function BitsOf(n: nat, buffer: nat): (bits: seq<int>)
    ensures |bits| == n
  {
    if n == 0 then [] else [buffer % 2] + BitsOf(n - 1, buffer / 2)
  }

  function CanonBits(bits: seq<int>): (r: seq<int>)
    ensures |r| == |bits|
  {
    if bits == [] then [] else [if bits[0] != 0 then 1 else 0] + CanonBits(bits[1..])
  }

  function Pow2(n: nat): (r: nat)
    ensures r > 0
  {
    if n == 0 then 1 else 2 * Pow2(n - 1)
  }

  lemma {:induction false} BitsRoundTrip(bits: seq<int>)
    ensures BitsOf(|bits|, BitBuffer(bits)) == CanonBits(bits)
    ensures BitBuffer(bits) < Pow2(|bits|)
  {
    if bits != [] {
      BitsRoundTrip(bits[1..]);
    }
  }

  lemma OneOctetOfBits(n: nat)
    requires n <= 8
    ensures Pow2(n) <= 256
    decreases 8 - n
  {
    if n < 8 {
      OneOctetOfBits(n + 1);
    } else {
      assert Pow2(8) == 2 * Pow2(7) == 4 * Pow2(6) == 8 * Pow2(5) == 16 * Pow2(4);
    }
  }

  // ---------- one field ----------

  function EncField(k: FieldKind, f: Field): Bytes
    requires Typed(k, f)
  {
    match k
    case Num(w) => EncFixed(w, f.v)
    case ShortStr => E8(|f.octets|) + f.octets
    case LongStr => E32(|f.octets|) + f.octets
    case Bits(_) => E8(BitBuffer(f.bits))
    case TableArg => EncTable(f.entries)
  }

  function DecField(k: FieldKind, s: Bytes): Option<(Field, Bytes)>
    requires KindOk(k)
  {
    match k
    case Num(w) =>
      var (v, rest) :- DecFixed(w, s);
      Some((NumF(v), rest))
    case ShortStr =>
      var (n, t) :- DecFixed(1, s);
      var (o, rest) :- Take(n, t);
      Some((StrF(o), rest))
    case LongStr =>
      var (n, t) :- DecFixed(4, s);
      var (o, rest) :- Take(n, t);
      Some((StrF(o), rest))
    case Bits(n) =>
      var (b, rest) :- DecFixed(1, s);
      Some((BitsF(BitsOf(n, b)), rest))
    case TableArg =>
      var (es, rest) :- DecTable(s);
      Some((TableF(es), rest))
  }

  /** The field with every boolean 0 or 1. */
  function CanonField(f: Field): Field {
    match f
    case BitsF(bits) => BitsF(CanonBits(bits))
    case TableF(es) => TableF(CanonEntries(es))
    case _ => f
  }

  /** The field fits its wire format; the length of a short string has one octet. */
  predicate FitsField(k: FieldKind, f: Field)
    requires Typed(k, f)
  {
    match k
    case Num(w) => f.v < Bound(w)
    case ShortStr => |f.octets| <= 255
    case LongStr => |f.octets| < TWO32
    case Bits(_) => true
    case TableArg => FitEntries(f.entries)
  }

  lemma StringFieldTrip(width: nat, o: Bytes, rest: Bytes)
    requires width in {1, 4} && |o| < Bound(width)
    ensures var s := EncFixed(width, |o|) + o + rest;
            DecFixed(width, s) == Some((|o|, o + rest)) && Take(|o|, o + rest) == Some((o, rest))
  {
    assert EncFixed(width, |o|) + o + rest == EncFixed(width, |o|) + (o + rest);
    PrefixRoundTrip(width, |o|, o + rest);
  }

  lemma FieldTrip(k: FieldKind, f: Field, rest: Bytes)
    requires KindOk(k) && Typed(k, f) && FitsField(k, f) && |EncField(k, f)| < TWO32
    ensures DecField(k, EncField(k, f) + rest) == Some((CanonField(f), rest))
  {
    hide E8, E16, E32, E64;
    match k
    case Num(w) => PrefixRoundTrip(w, f.v, rest);
    case ShortStr => StringFieldTrip(1, f.octets, rest);
    case LongStr => StringFieldTrip(4, f.octets, rest);
    case Bits(n) =>
      BitsRoundTrip(f.bits);
      OneOctetOfBits(n);
      PrefixRoundTrip(1, BitBuffer(f.bits), rest);
    case TableArg => TableRoundTrip(f.entries, rest);
  }

  lemma DecodedFieldFits(k: FieldKind, s: Bytes)
    requires KindOk(k) && DecField(k, s).Some?
    ensures var f := DecField(k, s).value.0; Typed(k, f) && FitsField(k, f)
  {
    if k.TableArg? {
      var t := DecFixed(4, s).value;
      DecodedEntriesFit(t.1, t.0);
    }
  }

  // ---------- a list of fields ----------

  function EncFields(ks: seq<FieldKind>, fs: seq<Field>): Bytes
    requires AllTyped(ks, fs)
  {
    if ks == [] then [] else EncField(ks[0], fs[0]) + EncFields(ks[1..], fs[1..])
  }

  function DecFields(ks: seq<FieldKind>, s: Bytes): Option<(seq<Field>, Bytes)>
    requires KindsOk(ks)
  {
    if ks == [] then Some(([], s))
    else
      var (f, t) :- DecField(ks[0], s);
      var (fs, rest) :- DecFields(ks[1..], t);
      Some(([f] + fs, rest))
  }

  function CanonFields(fs: seq<Field>): (r: seq<Field>)
    ensures |r| == |fs|
  {
    if fs == [] then [] else [CanonField(fs[0])] + CanonFields(fs[1..])
  }

  predicate FitFields(ks: seq<FieldKind>, fs: seq<Field>)
    requires AllTyped(ks, fs)
  {
    ks != [] ==> FitsField(ks[0], fs[0]) && FitFields(ks[1..], fs[1..])
  }

  lemma {:induction false} FieldsTrip(ks: seq<FieldKind>, fs: seq<Field>, rest: Bytes)
    requires KindsOk(ks) && AllTyped(ks, fs) && FitFields(ks, fs) && |EncFields(ks, fs)| < TWO32
    ensures DecFields(ks, EncFields(ks, fs) + rest) == Some((CanonFields(fs), rest))
  {
    hide EncField, DecField;
    if ks == [] {
      assert [] + rest == rest;
    } else {
      var tail := EncFields(ks[1..], fs[1..]) + rest;
      assert EncFields(ks, fs) + rest == EncField(ks[0], fs[0]) + tail;
      FieldTrip(ks[0], fs[0], tail);
      FieldsTrip(ks[1..], fs[1..], rest);
    }
  }

  lemma {:induction false} DecodedFieldsFit(ks: seq<FieldKind>, s: Bytes)
    requires KindsOk(ks) && DecFields(ks, s).Some?
    ensures var fs := DecFields(ks, s).value.0; AllTyped(ks, fs) && FitFields(ks, fs)
  {
    hide DecField;
    if ks != [] {
      DecodedFieldFits(ks[0], s);
      DecodedFieldsFit(ks[1..], DecField(ks[0], s).value.1);
    }
  }

  lemma CanonFieldKeeps(k: FieldKind, f: Field)
    ensures Typed(k, CanonField(f)) <==> Typed(k, f)
    ensures Typed(k, f) ==> (FitsField(k, CanonField(f)) <==> FitsField(k, f))
  {
    if f.TableF? {
      CanonEntriesFit(f.entries);
    }
  }

  lemma {:induction false} CanonFieldsKeep(ks: seq<FieldKind>, fs: seq<Field>)
    requires AllTyped(ks, fs)
    ensures AllTyped(ks, CanonFields(fs))
    ensures FitFields(ks, CanonFields(fs)) <==> FitFields(ks, fs)
  {
    if ks != [] {
      CanonFieldKeeps(ks[0], fs[0]);
      CanonFieldsKeep(ks[1..], fs[1..]);
    }
  }

  /** Fields come back, booleans normalised and the octets behind them untouched, exactly when each
      of them fits. */
  lemma FieldsTripIffFit(ks: seq<FieldKind>, fs: seq<Field>, rest: Bytes)
    requires KindsOk(ks) && AllTyped(ks, fs) && |EncFields(ks, fs)| < TWO32
    ensures DecFields(ks, EncFields(ks, fs) + rest) == Some((CanonFields(fs), rest)) <==> FitFields(ks, fs)
  {
    if FitFields(ks, fs) {
      FieldsTrip(ks, fs, rest);
    }
    CanonFieldsKeep(ks, fs);
    if DecFields(ks, EncFields(ks, fs) + rest) == Some((CanonFields(fs), rest)) {
      DecodedFieldsFit(ks, EncFields(ks, fs) + rest);
    }
  }

  // ---------- octet by octet ----------

  lemma LengthOctet(n: nat)
    ensures E8(n)[0] == n % 256
  {
  }

  /** The i-th boolean is the bit of weight 2 to the i of the octet. */
  predicate HoldsBits(octet: nat, bits: seq<int>)
    requires |bits| <= 8
  {
    forall i | 0 <= i < |bits| :: octet / [1, 2, 4, 8, 16, 32, 64, 128][i] % 2 == if bits[i] != 0 then 1 else 0
  }

  lemma OctetItself(n: nat)
    requires n < 256
    ensures E8(n)[0] == n
  {
  }

  lemma AtLeast(k: nat, m: nat)
    requires k > 0
    ensures k * m >= m
  {
  }

  lemma Divides(q: nat, m: nat, r: nat)
    requires r < m
    ensures (q * m + r) / m == q
  {
    var d := (q * m + r) / m;
    if d > q {
      AtLeast(d - q, m);
    } else if d < q {
      AtLeast(q - d, m);
    }
  }

  lemma HalfFirst(n: nat, m: nat)
    requires m > 0
    ensures n / (2 * m) == n / 2 / m
  {
    var q := n / (2 * m);
    var r := n - q * (2 * m);
    assert n / 2 == q * m + r / 2;
    assert 0 <= r / 2 < m;
    Divides(q, m, r / 2);
  }

  lemma {:induction false} BitAt(bits: seq<int>, i: nat)
    requires i < |bits|
    ensures BitBuffer(bits) / Pow2(i) % 2 == (if bits[i] != 0 then 1 else 0)
  {
    if i > 0 {
      BitAt(bits[1..], i - 1);
      HalfFirst(BitBuffer(bits), Pow2(i - 1));
    }
  }

  lemma Weights(i: nat)
    requires i < 8
    ensures Pow2(i) == [1, 2, 4, 8, 16, 32, 64, 128][i]
  {
    if i > 0 {
      Weights(i - 1);
    }
  }

  lemma BitOfWeight(bits: seq<int>, i: nat)
    requires i < |bits| <= 8
    ensures BitBuffer(bits) / [1, 2, 4, 8, 16, 32, 64, 128][i] % 2 == if bits[i] != 0 then 1 else 0
  {
    hide *;
    BitAt(bits, i);
    Weights(i);
  }

  lemma BufferHolds(bits: seq<int>)
    requires |bits| <= 8
    ensures HoldsBits(BitBuffer(bits), bits)
  {
    hide BitBuffer;
    forall i | 0 <= i < |bits|
      ensures BitBuffer(bits) / [1, 2, 4, 8, 16, 32, 64, 128][i] % 2 == if bits[i] != 0 then 1 else 0
    {
      BitOfWeight(bits, i);
    }
  }

  lemma BitOctets(bits: seq<int>)
    requires |bits| <= 8
    ensures HoldsBits(E8(BitBuffer(bits))[0], bits)
  {
    hide *;
    OneOctetOfBits(|bits|);
    BitsRoundTrip(bits);
    OctetItself(BitBuffer(bits));
    BufferHolds(bits);
  }

  /** A field on the wire: numbers with the most significant octet first, strings behind their length,
      booleans as the bits of an octet. */
  lemma FieldOctets(k: FieldKind, f: Field)
    requires KindOk(k) && Typed(k, f)
    ensures var s := EncField(k, f);
            match k
            case Num(w) =>
              |s| == w && BigEndian(s) == f.v % (if w == 1 then 256 else if w == 2 then TWO16 else if w == 4 then TWO32 else TWO64)
            case ShortStr => |s| == 1 + |f.octets| && s[0] == |f.octets| % 256 && s[1..] == f.octets
            case LongStr => |s| == 4 + |f.octets| && BigEndian(s[..4]) == |f.octets| % TWO32 && s[4..] == f.octets
            case Bits(_) => |s| == 1 && HoldsBits(s[0], f.bits)
            case TableArg =>
              |s| == 4 + |EncEntries(f.entries)| && BigEndian(s[..4]) == (|s| - 4) % TWO32 && s[4..] == EncEntries(f.entries)
  {
    hide E8, E16, E32, E64, BigEndian, EncEntries, BitBuffer, HoldsBits;
    match k
    case Num(w) => FixedOctets(w, f.v);
    case ShortStr => assert E8(|f.octets|)[0] == |f.octets| % 256 by { LengthOctet(|f.octets|); }
    case LongStr => BigEndianOfE32(|f.octets|);
    case Bits(n) =>
      BitOctets(f.bits);
    case TableArg => BigEndianOfE32(|EncEntries(f.entries)|);
  }

  /** The fields of a list stand one behind the other, in order. */
  lemma {:induction false} FieldsOctets(ks: seq<FieldKind>, fs: seq<Field>, k: FieldKind, f: Field)
    requires AllTyped(ks, fs) && Typed(k, f)
    ensures EncFields([], []) == []
    ensures AllTyped(ks + [k], fs + [f]) && EncFields(ks + [k], fs + [f]) == EncFields(ks, fs) + EncField(k, f)
  {
    hide EncField, Typed;
    if ks == [] {
      assert [k] == [k] + [] && [f] == [f] + [];
    } else {
      FieldsOctets(ks[1..], fs[1..], k, f);
      assert (ks + [k])[1..] == ks[1..] + [k] && (fs + [f])[1..] == fs[1..] + [f];
    }
  }

  lemma {:induction false} CanonBitsAt(bits: seq<int>)
    ensures forall i | 0 <= i < |bits| :: CanonBits(bits)[i] == if bits[i] == 0 then 0 else 1
  {
    if bits != [] {
      CanonBitsAt(bits[1..]);
    }
  }

  /** What comes back is what was encoded, but for booleans, which are 0 or 1. */
  lemma CanonFieldIs(f: Field)
    ensures match f
            case BitsF(bits) =>
              && CanonField(f).BitsF? && |CanonField(f).bits| == |bits|
              && forall i | 0 <= i < |bits| :: CanonField(f).bits[i] == if bits[i] == 0 then 0 else 1
            case TableF(es) => CanonField(f) == TableF(Canon(Nested(es)).entries)
            case _ => CanonField(f) == f
  {
    if f.BitsF? {
      CanonBitsAt(f.bits);
    }
  }

  // ---------- methods ----------

  /** The fields of each method, by method number (class number in the high 16 bits). */
  function Schema(id: nat): (r: Option<seq<FieldKind>>)
    ensures r.Some? ==> KindsOk(r.value)
  {
    match id
    case 0x000A_000A => Some([Num(1), Num(1), TableArg, LongStr, LongStr])  // connection.start
    case 0x000A_000B => Some([TableArg, ShortStr, LongStr, ShortStr])  // connection.start-ok
    case 0x000A_0014 => Some([LongStr])  // connection.secure
    case 0x000A_0015 => Some([LongStr])  // connection.secure-ok
    case 0x000A_001E => Some([Num(2), Num(4), Num(2)])  // connection.tune
    case 0x000A_001F => Some([Num(2), Num(4), Num(2)])  // connection.tune-ok
    case 0x000A_0028 => Some([ShortStr, ShortStr, Bits(1)])  // connection.open
    case 0x000A_0029 => Some([ShortStr])  // connection.open-ok
    case 0x000A_0032 => Some([Num(2), ShortStr, Num(2), Num(2)])  // connection.close
    case 0x000A_0033 => Some([])  // connection.close-ok
    case 0x0014_000A => Some([ShortStr])  // channel.open
    case 0x0014_000B => Some([LongStr])  // channel.open-ok
    case 0x0014_0014 => Some([Bits(1)])  // channel.flow
    case 0x0014_0015 => Some([Bits(1)])  // channel.flow-ok
    case 0x0014_0028 => Some([Num(2), ShortStr, Num(2), Num(2)])  // channel.close
    case 0x0014_0029 => Some([])  // channel.close-ok
    case 0x001E_000A => Some([ShortStr, Bits(5)])  // access.request
    case 0x001E_000B => Some([Num(2)])  // access.request-ok
    case 0x0028_000A => Some([Num(2), ShortStr, ShortStr, Bits(5), TableArg])  // exchange.declare
    case 0x0028_000B => Some([])  // exchange.declare-ok
    case 0x0028_0014 => Some([Num(2), ShortStr, Bits(2)])  // exchange.delete
    case 0x0028_0015 => Some([])  // exchange.delete-ok
    case 0x0028_001E => Some([Num(2), ShortStr, ShortStr, ShortStr, Bits(1), TableArg])  // exchange.bind
    case 0x0028_001F => Some([])  // exchange.bind-ok
    case 0x0028_0028 => Some([Num(2), ShortStr, ShortStr, ShortStr, Bits(1), TableArg])  // exchange.unbind
    case 0x0028_0033 => Some([])  // exchange.unbind-ok
    case 0x0032_000A => Some([Num(2), ShortStr, Bits(5), TableArg])  // queue.declare
    case 0x0032_000B => Some([ShortStr, Num(4), Num(4)])  // queue.declare-ok
    case 0x0032_0014 => Some([Num(2), ShortStr, ShortStr, ShortStr, Bits(1), TableArg])  // queue.bind
    case 0x0032_0015 => Some([])  // queue.bind-ok
    case 0x0032_001E => Some([Num(2), ShortStr, Bits(1)])  // queue.purge
    case 0x0032_001F => Some([Num(4)])  // queue.purge-ok
    case 0x0032_0028 => Some([Num(2), ShortStr, Bits(3)])  // queue.delete
    case 0x0032_0029 => Some([Num(4)])  // queue.delete-ok
    case 0x0032_0032 => Some([Num(2), ShortStr, ShortStr, ShortStr, TableArg])  // queue.unbind
    case 0x0032_0033 => Some([])  // queue.unbind-ok
    case 0x003C_000A => Some([Num(4), Num(2), Bits(1)])  // basic.qos
    case 0x003C_000B => Some([])  // basic.qos-ok
    case 0x003C_0014 => Some([Num(2), ShortStr, ShortStr, Bits(4), TableArg])  // basic.consume
    case 0x003C_0015 => Some([ShortStr])  // basic.consume-ok
    case 0x003C_001E => Some([ShortStr, Bits(1)])  // basic.cancel
    case 0x003C_001F => Some([ShortStr])  // basic.cancel-ok
    case 0x003C_0028 => Some([Num(2), ShortStr, ShortStr, Bits(2)])  // basic.publish
    case 0x003C_0032 => Some([Num(2), ShortStr, ShortStr, ShortStr])  // basic.return
    case 0x003C_003C => Some([ShortStr, Num(8), Bits(1), ShortStr, ShortStr])  // basic.deliver
    case 0x003C_0046 => Some([Num(2), ShortStr, Bits(1)])  // basic.get
    case 0x003C_0047 => Some([Num(8), Bits(1), ShortStr, ShortStr, Num(4)])  // basic.get-ok
    case 0x003C_0048 => Some([ShortStr])  // basic.get-empty
    case 0x003C_0050 => Some([Num(8), Bits(1)])  // basic.ack
    case 0x003C_005A => Some([Num(8), Bits(1)])  // basic.reject
    case 0x003C_0064 => Some([Bits(1)])  // basic.recover-async
    case 0x003C_006E => Some([Bits(1)])  // basic.recover
    case 0x003C_006F => Some([])  // basic.recover-ok
    case 0x003C_0078 => Some([Num(8), Bits(2)])  // basic.nack
    case 0x005A_000A => Some([])  // tx.select
    case 0x005A_000B => Some([])  // tx.select-ok
    case 0x005A_0014 => Some([])  // tx.commit
    case 0x005A_0015 => Some([])  // tx.commit-ok
    case 0x005A_001E => Some([])  // tx.rollback
    case 0x005A_001F => Some([])  // tx.rollback-ok
    case 0x0055_000A => Some([Bits(1)])  // confirm.select
    case 0x0055_000B => Some([])  // confirm.select-ok
    case _ => None
  }

  // ---------- which methods have which arguments ----------

  /** The methods without arguments, and those of bits alone. */
  lemma BareMethods(id: nat)
    ensures Schema(id) == Some([]) <==>
              id in {0x000A_0033, 0x0014_0029, 0x0028_000B, 0x0028_0015, 0x0028_001F, 0x0028_0033,
                     0x0032_0015, 0x0032_0033, 0x003C_000B, 0x003C_006F, 0x005A_000A, 0x005A_000B,
                     0x005A_0014, 0x005A_0015, 0x005A_001E, 0x005A_001F, 0x0055_000B}
    ensures Schema(id) == Some([Bits(1)]) <==> id in {0x0014_0014, 0x0014_0015, 0x003C_0064, 0x003C_006E, 0x0055_000A}
  {
  }

  /** The methods that begin with a string or a table. */
  lemma StringMethods(id: nat)
    ensures Schema(id) == Some([TableArg, ShortStr, LongStr, ShortStr]) <==> id == 0x000A_000B
    ensures Schema(id) == Some([LongStr]) <==> id in {0x000A_0014, 0x000A_0015, 0x0014_000B}
    ensures Schema(id) == Some([ShortStr, ShortStr, Bits(1)]) <==> id == 0x000A_0028
    ensures Schema(id) == Some([ShortStr]) <==>
              id in {0x000A_0029, 0x0014_000A, 0x003C_0015, 0x003C_001F, 0x003C_0048}
    ensures Schema(id) == Some([ShortStr, Bits(5)]) <==> id == 0x001E_000A
    ensures Schema(id) == Some([ShortStr, Num(4), Num(4)]) <==> id == 0x0032_000B
    ensures Schema(id) == Some([ShortStr, Bits(1)]) <==> id == 0x003C_001E
    ensures Schema(id) == Some([ShortStr, Num(8), Bits(1), ShortStr, ShortStr]) <==> id == 0x003C_003C
  {
  }

  /** Those that begin with a number other than a ticket. */
  lemma NumberMethods(id: nat)
    ensures Schema(id) == Some([Num(1), Num(1), TableArg, LongStr, LongStr]) <==> id == 0x000A_000A
    ensures Schema(id) == Some([Num(2), Num(4), Num(2)]) <==> id in {0x000A_001E, 0x000A_001F}
    ensures Schema(id) == Some([Num(2)]) <==> id == 0x001E_000B
    ensures Schema(id) == Some([Num(4)]) <==> id in {0x0032_001F, 0x0032_0029}
    ensures Schema(id) == Some([Num(4), Num(2), Bits(1)]) <==> id == 0x003C_000A
    ensures Schema(id) == Some([Num(8), Bits(1), ShortStr, ShortStr, Num(4)]) <==> id == 0x003C_0047
    ensures Schema(id) == Some([Num(8), Bits(1)]) <==> id in {0x003C_0050, 0x003C_005A}
    ensures Schema(id) == Some([Num(8), Bits(2)]) <==> id == 0x003C_0078
  {
  }

  /** Those that begin with a number and a short string. */
  lemma TicketMethods(id: nat)
    ensures Schema(id) == Some([Num(2), ShortStr, Num(2), Num(2)]) <==> id in {0x000A_0032, 0x0014_0028}
    ensures Schema(id) == Some([Num(2), ShortStr, ShortStr, Bits(5), TableArg]) <==> id == 0x0028_000A
    ensures Schema(id) == Some([Num(2), ShortStr, Bits(2)]) <==> id == 0x0028_0014
    ensures Schema(id) == Some([Num(2), ShortStr, ShortStr, ShortStr, Bits(1), TableArg]) <==>
              id in {0x0028_001E, 0x0028_0028, 0x0032_0014}
    ensures Schema(id) == Some([Num(2), ShortStr, Bits(5), TableArg]) <==> id == 0x0032_000A
    ensures Schema(id) == Some([Num(2), ShortStr, Bits(1)]) <==> id in {0x0032_001E, 0x003C_0046}
    ensures Schema(id) == Some([Num(2), ShortStr, Bits(3)]) <==> id == 0x0032_0028
    ensures Schema(id) == Some([Num(2), ShortStr, ShortStr, ShortStr, TableArg]) <==> id == 0x0032_0032
    ensures Schema(id) == Some([Num(2), ShortStr, ShortStr, Bits(4), TableArg]) <==> id == 0x003C_0014
    ensures Schema(id) == Some([Num(2), ShortStr, ShortStr, Bits(2)]) <==> id == 0x003C_0028
    ensures Schema(id) == Some([Num(2), ShortStr, ShortStr, ShortStr]) <==> id == 0x003C_0032
  {
  }

  /** There are no others. */
  lemma KnownMethods(id: nat)
    ensures Schema(id).Some? <==>
              id in {0x000A_000A, 0x000A_000B, 0x000A_0014, 0x000A_0015, 0x000A_001E, 0x000A_001F,
                     0x000A_0028, 0x000A_0029, 0x000A_0032, 0x000A_0033, 0x0014_000A, 0x0014_000B,
                     0x0014_0014, 0x0014_0015, 0x0014_0028, 0x0014_0029, 0x001E_000A, 0x001E_000B,
                     0x0028_000A, 0x0028_000B, 0x0028_0014, 0x0028_0015, 0x0028_001E, 0x0028_001F,
                     0x0028_0028, 0x0028_0033, 0x0032_000A, 0x0032_000B, 0x0032_0014, 0x0032_0015,
                     0x0032_001E, 0x0032_001F, 0x0032_0028, 0x0032_0029, 0x0032_0032, 0x0032_0033,
                     0x003C_000A, 0x003C_000B, 0x003C_0014, 0x003C_0015, 0x003C_001E, 0x003C_001F,
                     0x003C_0028, 0x003C_0032, 0x003C_003C, 0x003C_0046, 0x003C_0047, 0x003C_0048,
                     0x003C_0050, 0x003C_005A, 0x003C_0064, 0x003C_006E, 0x003C_006F, 0x003C_0078,
                     0x005A_000A, 0x005A_000B, 0x005A_0014, 0x005A_0015, 0x005A_001E, 0x005A_001F,
                     0x0055_000A, 0x0055_000B}
  {
  }

  const BASIC_PUBLISH := 0x003C_0028
  const BASIC_DELIVER := 0x003C_003C

  function DecMethod(id: nat, s: Bytes): Result<(seq<Field>, Bytes)> {
    if Schema(id).None? then Failure(UnknownMethod)
    else
      var r := DecFields(Schema(id).value, s);
      if r.None? then Failure(BadData) else Success(r.value)
  }

  /** For each of the 62 methods: the record comes back with its booleans normalised, and the
      decoder stops at the octet where the encoder stopped, exactly when every field fits. */
  lemma MethodTripIffFits(id: nat, fs: seq<Field>, rest: Bytes)
    requires Schema(id).Some? && AllTyped(Schema(id).value, fs)
    requires |EncFields(Schema(id).value, fs)| < TWO32
    ensures DecMethod(id, EncFields(Schema(id).value, fs) + rest) == Success((CanonFields(fs), rest))
       <==> FitFields(Schema(id).value, fs)
  {
    hide Schema;
    FieldsTripIffFit(Schema(id).value, fs, rest);
  }
}
