/**
  Octets on the wire: the big-endian integer accessors and the bounds-checked
  primitive encoders that every AMQP codec is built from.
 */
module Wire {

  type Byte = x: int | 0 <= x < 256
  type Bytes = seq<Byte>

  datatype Option<+T> = None | Some(value: T) {
    predicate IsFailure() { None? }
    function PropagateFailure<U>(): Option<U> requires None? { None }
    function Extract(): T requires Some? { value }
  }

  /** The status codes the modelled operations return.  `Undefined` stands for the inputs on which
      the C code reads or writes outside its buffer, shifts by at least the width of the operand, or
      takes as many octets as happen to be there. */
  datatype Status =
    | Ok | BadData | UnknownClass | UnknownMethod | InvalidParameter | TableTooBig | NoMemory | Undefined

  datatype Result<+T> = Success(value: T) | Failure(status: Status) {
    predicate IsFailure() { Failure? }
    function PropagateFailure<U>(): Result<U> requires Failure? { Failure(status) }
    function Extract(): T requires Success? { value }
  }

  const TWO16 := 0x1_0000
  const TWO32 := 0x1_0000_0000
  const TWO64 := 0x1_0000_0000_0000_0000

  // Unsigned big-endian encodings; an argument wider than the field is truncated, as the
  // conversion to uintN_t does.

  function E8(v: nat): (r: Bytes)
    ensures |r| == 1
  {
    [v % 256]
  }

  function E16(v: nat): (r: Bytes)
    ensures |r| == 2
  {
    [v / 256 % 256, v % 256]
  }

  function E32(v: nat): (r: Bytes)
    ensures |r| == 4
  {
    E16(v / TWO16) + E16(v)
  }

  function E64(v: nat): (r: Bytes)
    ensures |r| == 8
  {
    E32(v / TWO32) + E32(v)
  }

  function D16(s: Bytes, o: nat): (v: nat)
    requires o + 2 <= |s|
    ensures v < TWO16
  {
    s[o] as int * 256 + s[o + 1] as int
  }

  function D32(s: Bytes, o: nat): (v: nat)
    requires o + 4 <= |s|
    ensures v < TWO32
  {
    D16(s, o) * TWO16 + D16(s, o + 2)
  }

  function D64(s: Bytes, o: nat): (v: nat)
    requires o + 8 <= |s|
    ensures v < TWO64
  {
    D32(s, o) * TWO32 + D32(s, o + 4)
  }

  lemma OctetsJoin(v: nat)
    ensures v / 256 % 256 * 256 + v % 256 == v % TWO16
  {
    var h := v / 256;
    assert v == (h / 256) * TWO16 + (h % 256 * 256 + v % 256);
  }

  lemma D16OfE16(v: nat, rest: Bytes)
    ensures D16(E16(v) + rest, 0) == v % TWO16
  {
    var s := E16(v) + rest;
    assert s[0] == v / 256 % 256 && s[1] == v % 256;
    hide E16;
    OctetsJoin(v);
  }

  lemma D32OfE32(v: nat, rest: Bytes)
    ensures D32(E32(v) + rest, 0) == v % TWO32
  {
    var s := E32(v) + rest;
    assert s == E16(v / TWO16) + (E16(v) + rest);
    D16OfE16(v / TWO16, E16(v) + rest);
    D16OfE16(v, rest);
    assert D16(s, 2) == D16(E16(v) + rest, 0);
  }

  lemma HalvesJoin(v: nat)
    ensures v / TWO32 % TWO32 * TWO32 + v % TWO32 == v % TWO64
  {
    var h := v / TWO32;
    assert v == (h / TWO32) * TWO64 + (h % TWO32 * TWO32 + v % TWO32);
  }

  lemma D64OfE64(v: nat, rest: Bytes)
    ensures D64(E64(v) + rest, 0) == v % TWO64
  {
    var s := E64(v) + rest;
    assert s == E32(v / TWO32) + (E32(v) + rest);
    D32OfE32(v / TWO32, E32(v) + rest);
    D32OfE32(v, rest);
    HalvesJoin(v);
    assert D32(s, 4) == D32(E32(v) + rest, 0);
  }

  // ---------- network byte order ----------

  /** The number that octets stand for, the most significant one first. */
  function BigEndian(s: Bytes): nat {
    if s == [] then 0 else BigEndian(s[..|s| - 1]) * 256 + s[|s| - 1]
  }

  lemma BigEndianPush(s: Bytes, b: Byte)
    ensures BigEndian(s + [b]) == BigEndian(s) * 256 + b
  {
    assert (s + [b])[..|s|] == s;
  }

  lemma BigEndianDigits(a: Byte, b: Byte, c: Byte, d: Byte)
    ensures BigEndian([a, b, c, d]) == ((a * 256 + b) * 256 + c) * 256 + d
  {
    assert [a, b, c, d] == [] + [a] + [b] + [c] + [d];
    BigEndianPush([], a);
    BigEndianPush([] + [a], b);
    BigEndianPush([] + [a] + [b], c);
    BigEndianPush([] + [a] + [b] + [c], d);
  }

  lemma BigEndianTwo(s: Bytes, t: Bytes)
    requires |t| == 2
    ensures BigEndian(s + t) == BigEndian(s) * TWO16 + BigEndian(t)
  {
    assert s + t == s + [t[0]] + [t[1]] && t == [] + [t[0]] + [t[1]];
    BigEndianPush(s, t[0]);
    BigEndianPush(s + [t[0]], t[1]);
    BigEndianPush([], t[0]);
    BigEndianPush([] + [t[0]], t[1]);
  }

  lemma BigEndianFour(s: Bytes, t: Bytes)
    requires |t| == 4
    ensures BigEndian(s + t) == BigEndian(s) * TWO32 + BigEndian(t)
  {
    hide BigEndian;
    assert s + t == s + t[..2] + t[2..] && t == t[..2] + t[2..];
    BigEndianTwo(s, t[..2]);
    BigEndianTwo(s + t[..2], t[2..]);
    BigEndianTwo(t[..2], t[2..]);
  }

  lemma BigEndianOfE8(v: nat)
    ensures BigEndian(E8(v)) == v % 256
  {
    BigEndianPush([], v % 256);
    assert E8(v) == [] + [v % 256];
  }

  /** The encoders write in network byte order. */
  lemma BigEndianOfE16(v: nat)
    ensures BigEndian(E16(v)) == v % TWO16
  {
    var s := E16(v);
    assert s == [] + [v / 256 % 256] + [v % 256];
    BigEndianPush([], v / 256 % 256);
    BigEndianPush([] + [v / 256 % 256], v % 256);
    hide E16;
    OctetsJoin(v);
  }

  lemma WordsJoin(v: nat)
    ensures v / TWO16 % TWO16 * TWO16 + v % TWO16 == v % TWO32
  {
    var h := v / TWO16;
    assert v == (h / TWO16) * TWO32 + (h % TWO16 * TWO16 + v % TWO16);
  }

  lemma BigEndianOfE32(v: nat)
    ensures BigEndian(E32(v)) == v % TWO32
  {
    hide BigEndian, E16;
    BigEndianTwo(E16(v / TWO16), E16(v));
    BigEndianOfE16(v / TWO16);
    BigEndianOfE16(v);
    WordsJoin(v);
  }

  lemma BigEndianOfE64(v: nat)
    ensures BigEndian(E64(v)) == v % TWO64
  {
    hide BigEndian, E32;
    BigEndianFour(E32(v / TWO32), E32(v));
    BigEndianOfE32(v / TWO32);
    BigEndianOfE32(v);
    HalvesJoin(v);
  }

  /** The decoders read in network byte order. */
  lemma D16IsBigEndian(s: Bytes, o: nat)
    requires o + 2 <= |s|
    ensures D16(s, o) == BigEndian(s[o..o + 2])
  {
    var t := s[o..o + 2];
    assert t == [] + [t[0]] + [t[1]];
    BigEndianPush([], t[0]);
    BigEndianPush([] + [t[0]], t[1]);
  }

  lemma D32IsBigEndian(s: Bytes, o: nat)
    requires o + 4 <= |s|
    ensures D32(s, o) == BigEndian(s[o..o + 4])
  {
    hide BigEndian, D16;
    D16IsBigEndian(s, o);
    D16IsBigEndian(s, o + 2);
    assert s[o..o + 4] == s[o..o + 2] + s[o + 2..o + 4];
    BigEndianTwo(s[o..o + 2], s[o + 2..o + 4]);
  }

  lemma D64IsBigEndian(s: Bytes, o: nat)
    requires o + 8 <= |s|
    ensures D64(s, o) == BigEndian(s[o..o + 8])
  {
    hide BigEndian, D32;
    D32IsBigEndian(s, o);
    D32IsBigEndian(s, o + 4);
    assert s[o..o + 8] == s[o..o + 4] + s[o + 4..o + 8];
    BigEndianFour(s[o..o + 4], s[o + 4..o + 8]);
  }

  /** Reading at an offset looks only at the octets from that offset on. */
  lemma ReadShift(a: Bytes, b: Bytes)
    ensures |b| >= 2 ==> D16(a + b, |a|) == D16(b, 0)
    ensures |b| >= 4 ==> D32(a + b, |a|) == D32(b, 0)
    ensures |b| >= 8 ==> D64(a + b, |a|) == D64(b, 0)
  {
  }
}
