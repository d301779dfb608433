/**
  Content-header properties: the chain of 16-bit flag words and the flagged fields of the basic class.
 */
module Properties {
  import opened Wire
  import opened Framing

  /** `flags` as the program holds it, and the fields whose flag is set, in wire order. */
  datatype Properties = Properties(flags: nat, fields: seq<Field>)

  // ---------- flag words ----------

  /** The lower 16 bits with bit 0 replaced by the continuation bit. */
  function Word(flags: nat): (w: nat)
    ensures w < TWO16
  {
    flags % TWO16 / 2 * 2 + (if flags / TWO16 != 0 then 1 else 0)
  }

  function FlagWords(flags: nat): (r: Bytes) {
    E16(Word(flags)) + (if flags / TWO16 == 0 then [] else FlagWords(flags / TWO16))
  }

  /** A second word is shifted by 16; a third would be shifted by the full width of the flags. */
  function DecFlags(s: Bytes): Result<(nat, Bytes)> {
    if |s| < 2 then Failure(BadData)
    else if D16(s, 0) % 2 == 0 then Success((D16(s, 0), s[2..]))
    else if |s| < 4 then Failure(BadData)
    else if D16(s, 2) % 2 == 0 then Success((D16(s, 0) + D16(s, 2) * TWO16, s[4..]))
    else if |s| < 6 then Failure(BadData)
    else Failure(Undefined)
  }

  /** `flags & 0xFFFEFFFE`, with bit 0 telling whether a second word was needed. */
  function FlagsBack(flags: nat): nat {
    flags / TWO16 / 2 * 2 * TWO16 + flags % TWO16 / 2 * 2 + (if flags >= TWO16 then 1 else 0)
  }

  lemma FlagWordsTrip(flags: nat, rest: Bytes)
    requires flags < TWO32
    ensures DecFlags(FlagWords(flags) + rest) == Success((FlagsBack(flags), rest))
  {
    hide E16;
    var s, hi := FlagWords(flags) + rest, flags / TWO16;
    if hi == 0 {
      assert s == E16(Word(flags)) + rest;
      D16OfE16(Word(flags), rest);
    } else {
      assert hi / TWO16 == 0;
      assert FlagWords(hi) == E16(Word(hi)) + [];
      assert s == E16(Word(flags)) + (E16(Word(hi)) + rest);
      D16OfE16(Word(flags), E16(Word(hi)) + rest);
      D16OfE16(Word(hi), rest);
      ReadShift(E16(Word(flags)), E16(Word(hi)) + rest);
    }
  }

  lemma Halves(n: nat)
    ensures n == n / 2 * 2 + n % 2
  {
  }

  lemma FlagsBackIff(hi: nat, lo: nat)
    requires lo < TWO16
    ensures var flags := hi * TWO16 + lo;
            FlagsBack(flags) == flags <==> flags / TWO16 % 2 == 0 && flags % 2 == (if flags >= TWO16 then 1 else 0)
  {
    var flags := hi * TWO16 + lo;
    assert flags / TWO16 == hi && flags % TWO16 == lo;
    Halves(hi);
    Halves(lo);
    assert flags % 2 == lo % 2;
  }

  /** The flags themselves come back exactly when neither continuation bit carries information. */
  lemma FlagsSurviveIff(flags: nat, rest: Bytes)
    requires flags < TWO32
    ensures DecFlags(FlagWords(flags) + rest) == Success((flags, rest))
       <==> flags / TWO16 % 2 == 0 && flags % 2 == (if flags >= TWO16 then 1 else 0)
  {
    hide FlagWords, DecFlags, FlagsBack;
    FlagWordsTrip(flags, rest);
    FlagsBackIff(flags / TWO16, flags % TWO16);
    assert flags == flags / TWO16 * TWO16 + flags % TWO16;
  }

  // ---------- flagged fields ----------

  /** The basic-class properties in wire order, each with the bit number of its flag. */
  const BASIC_PROPERTIES: seq<(nat, FieldKind)> := [
    (15, ShortStr),  // content-type
    (14, ShortStr),  // content-encoding
    (13, TableArg),  // headers
    (12, Num(1)),    // delivery-mode
    (11, Num(1)),    // priority
    (10, ShortStr),  // correlation-id
    (9, ShortStr),   // reply-to
    (8, ShortStr),   // expiration
    (7, ShortStr),   // message-id
    (6, Num(8)),     // timestamp
    (5, ShortStr),   // type
    (4, ShortStr),   // user-id
    (3, ShortStr),   // app-id
    (2, ShortStr)    // cluster-id
  ]

  const BASIC_CLASS := 60

  /** `flags & (1 << k)` */
  predicate HasFlag(flags: nat, k: nat) {
    if k == 0 then flags % 2 == 1 else HasFlag(flags / 2, k - 1)
  }

  predicate FlagsOk(ps: seq<(nat, FieldKind)>) {
    forall i | 0 <= i < |ps| :: KindOk(ps[i].1) && 0 < ps[i].0 < 16
  }

  function Selected(flags: nat, ps: seq<(nat, FieldKind)>): (r: seq<FieldKind>)
    requires FlagsOk(ps)
    ensures KindsOk(r)
  {
    if ps == [] then []
    else (if HasFlag(flags, ps[0].0) then [ps[0].1] else []) + Selected(flags, ps[1..])
  }

  /** The kinds of the fields that follow the flag words. */
  function FieldKinds(classId: nat, flags: nat): (r: Option<seq<FieldKind>>)
    ensures r.Some? ==> KindsOk(r.value)
  {
    if classId == BASIC_CLASS then Some(Selected(flags, BASIC_PROPERTIES))
    else if classId in {10, 20, 30, 40, 50, 85, 90} then Some([])
    else None
  }

  lemma HalvesDiffer(x: nat, y: nat, d: int, h: nat)
    requires x - y == d * (2 * h)
    ensures x / 2 - y / 2 == d * h && x % 2 == y % 2
  {
    assert x - y == 2 * (d * h);
  }

  /** Numbers that differ by a multiple of 2 to the n agree on their lowest n bits. */
  lemma {:induction false} LowBitsAgree(x: nat, y: nat, d: int, n: nat, k: nat)
    requires x - y == d * Pow2(n) && k < n
    ensures HasFlag(x, k) == HasFlag(y, k)
  {
    HalvesDiffer(x, y, d, Pow2(n - 1));
    if k > 0 {
      LowBitsAgree(x / 2, y / 2, d, n - 1, k - 1);
    }
  }

  lemma FlagsBackHalf(flags: nat)
    ensures flags / 2 - FlagsBack(flags) / 2 == flags / TWO16 % 2 * Pow2(15)
  {
    assert Pow2(15) == 0x8000 by {
      assert Pow2(15) == 8 * Pow2(12) == 64 * Pow2(9) == 512 * Pow2(6) == 4096 * Pow2(3);
    }
    var hi, lo := flags / TWO16, flags % TWO16;
    assert flags / 2 == hi * 0x8000 + lo / 2;
    assert FlagsBack(flags) / 2 == hi / 2 * 2 * 0x8000 + lo / 2;
  }

  lemma {:induction false} SelectedSurvive(flags: nat, ps: seq<(nat, FieldKind)>)
    requires FlagsOk(ps)
    ensures Selected(FlagsBack(flags), ps) == Selected(flags, ps)
  {
    hide FlagsBack;
    if ps != [] {
      FlagsBackHalf(flags);
      LowBitsAgree(flags / 2, FlagsBack(flags) / 2, flags / TWO16 % 2, 15, ps[0].0 - 1);
      SelectedSurvive(flags, ps[1..]);
    }
  }

  /** The continuation bits do not decide which fields are present. */
  lemma KindsSurvive(classId: nat, flags: nat)
    ensures FieldKinds(classId, FlagsBack(flags)) == FieldKinds(classId, flags)
  {
    hide Selected, FlagsBack;
    SelectedSurvive(flags, BASIC_PROPERTIES);
  }

  // ---------- octet by octet ----------

  /** The flag words: 16 bits each, the lowest word first, where bit 0 says whether there is another one. */
  lemma FlagOctets(flags: nat)
    requires flags < TWO32
    ensures var s := FlagWords(flags);
            && |s| == (if flags < 0x1_0000 then 2 else 4)
            && BigEndian(s[..2]) == flags % 0x1_0000 / 2 * 2 + (if flags < 0x1_0000 then 0 else 1)
            && (flags >= 0x1_0000 ==> BigEndian(s[2..]) == flags / 0x1_0000 / 2 * 2)
  {
    hide E16, BigEndian;
    var hi := flags / TWO16;
    BigEndianOfE16(Word(flags));
    if hi == 0 {
      assert FlagWords(flags) == E16(Word(flags)) + [];
    } else {
      assert hi / TWO16 == 0;
      assert FlagWords(hi) == E16(Word(hi)) + [];
      assert FlagWords(flags)[2..] == E16(Word(hi));
      BigEndianOfE16(Word(hi));
    }
  }

  /** The flags that octets stand for. */
  lemma DecodedFlags(s: Bytes)
    requires DecFlags(s).Success?
    ensures var (flags, rest) := DecFlags(s).value;
            if BigEndian(s[..2]) % 2 == 0 then flags == BigEndian(s[..2]) && rest == s[2..]
            else flags == BigEndian(s[..2]) + BigEndian(s[2..4]) * 0x1_0000 && rest == s[4..] && BigEndian(s[2..4]) % 2 == 0
  {
    hide D16, BigEndian;
    D16IsBigEndian(s, 0);
    if D16(s, 0) % 2 == 1 {
      D16IsBigEndian(s, 2);
    }
  }

  lemma {:induction false} FlagWeight(flags: nat, k: nat)
    ensures HasFlag(flags, k) <==> flags / Pow2(k) % 2 == 1
  {
    if k > 0 {
      FlagWeight(flags / 2, k - 1);
      HalfFirst(flags, Pow2(k - 1));
    }
  }

  lemma FlagsOkTail(ps: seq<(nat, FieldKind)>, p: (nat, FieldKind))
    requires FlagsOk(ps) && FlagsOk(ps + [p]) && ps != []
    ensures FlagsOk(ps[1..]) && FlagsOk(ps[1..] + [p]) && (ps + [p])[1..] == ps[1..] + [p]
  {
    assert (ps + [p])[1..] == ps[1..] + [p];
  }

  lemma {:induction false} SelectedLast(flags: nat, ps: seq<(nat, FieldKind)>, p: (nat, FieldKind))
    requires FlagsOk(ps) && FlagsOk(ps + [p])
    ensures Selected(flags, ps + [p]) == Selected(flags, ps) + (if HasFlag(flags, p.0) then [p.1] else [])
  {
    hide HasFlag, FlagsOk;
    if ps == [] {
      assert [] + [p] == [p] && [p][1..] == [];
    } else {
      FlagsOkTail(ps, p);
      SelectedLast(flags, ps[1..], p);
    }
  }

  /** A field of this kind if the lowest bit is set. */
  function Present(flags: nat, k: FieldKind): seq<FieldKind> {
    if flags % 2 == 1 then [k] else []
  }

  lemma NoneSelected(flags: nat)
    ensures Selected(flags, []) == []
  {
  }

  lemma BasicFlag(i: nat)
    requires i < 14
    ensures BASIC_PROPERTIES[i].0 == 15 - i
    ensures BASIC_PROPERTIES[..i + 1] == BASIC_PROPERTIES[..i] + [BASIC_PROPERTIES[i]]
    ensures FlagsOk(BASIC_PROPERTIES[..i]) && FlagsOk(BASIC_PROPERTIES[..i] + [BASIC_PROPERTIES[i]])
  {
  }

  lemma OneWeight(i: nat)
    requires i < 14
    ensures [32768, 16384, 8192, 4096, 2048, 1024, 512, 256, 128, 64, 32, 16, 8, 4][i]
            == [1, 2, 4, 8, 16, 32, 64, 128, 256, 512, 1024, 2048, 4096, 8192, 16384, 32768][15 - i]
  {
  }

  lemma WordWeights(k: nat)
    requires k < 16
    ensures Pow2(k) == [1, 2, 4, 8, 16, 32, 64, 128, 256, 512, 1024, 2048, 4096, 8192, 16384, 32768][k]
  {
    if k > 0 {
      WordWeights(k - 1);
    }
  }

  lemma FlagPresent(flags: nat, b: nat, k: FieldKind)
    requires b < 16
    ensures (if HasFlag(flags, b) then [k] else [])
            == Present(flags / [1, 2, 4, 8, 16, 32, 64, 128, 256, 512, 1024, 2048, 4096, 8192, 16384, 32768][b], k)
  {
    FlagWeight(flags, b);
    WordWeights(b);
  }

  lemma BasicField(flags: nat, i: nat, weight: nat)
    requires i < 14 && weight == [32768, 16384, 8192, 4096, 2048, 1024, 512, 256, 128, 64, 32, 16, 8, 4][i]
    ensures Selected(flags, BASIC_PROPERTIES[..i + 1])
            == Selected(flags, BASIC_PROPERTIES[..i]) + Present(flags / weight, BASIC_PROPERTIES[i].1)
  {
    hide Present, Selected, FlagsOk;
    BasicFlag(i);
    SelectedLast(flags, BASIC_PROPERTIES[..i], BASIC_PROPERTIES[i]);
    FlagPresent(flags, 15 - i, BASIC_PROPERTIES[i].1);
    OneWeight(i);
  }

  lemma FirstFields(flags: nat)
    ensures Selected(flags, BASIC_PROPERTIES[..7]) == []
              + Present(flags / 32768, ShortStr)  // content-type
              + Present(flags / 16384, ShortStr)  // content-encoding
              + Present(flags / 8192, TableArg)  // headers
              + Present(flags / 4096, Num(1))  // delivery-mode
              + Present(flags / 2048, Num(1))  // priority
              + Present(flags / 1024, ShortStr)  // correlation-id
              + Present(flags / 512, ShortStr)  // reply-to
  {
    hide Present, Selected;
    assert BASIC_PROPERTIES[..0] == [];
    NoneSelected(flags);
    BasicField(flags, 0, 32768);
    BasicField(flags, 1, 16384);
    BasicField(flags, 2, 8192);
    BasicField(flags, 3, 4096);
    BasicField(flags, 4, 2048);
    BasicField(flags, 5, 1024);
    BasicField(flags, 6, 512);
  }

  /** A field is present if its flag is set, from the flag of weight 2 to the 15 down to that of weight 4. */
  lemma BasicFields(flags: nat)
    ensures FieldKinds(60, flags) == Some([]
              + Present(flags / 32768, ShortStr)  // content-type
              + Present(flags / 16384, ShortStr)  // content-encoding
              + Present(flags / 8192, TableArg)  // headers
              + Present(flags / 4096, Num(1))  // delivery-mode
              + Present(flags / 2048, Num(1))  // priority
              + Present(flags / 1024, ShortStr)  // correlation-id
              + Present(flags / 512, ShortStr)  // reply-to
              + Present(flags / 256, ShortStr)  // expiration
              + Present(flags / 128, ShortStr)  // message-id
              + Present(flags / 64, Num(8))  // timestamp
              + Present(flags / 32, ShortStr)  // type
              + Present(flags / 16, ShortStr)  // user-id
              + Present(flags / 8, ShortStr)  // app-id
              + Present(flags / 4, ShortStr))  // cluster-id
  {
    hide Present, Selected;
    assert BASIC_PROPERTIES[..14] == BASIC_PROPERTIES;
    FirstFields(flags);
    BasicField(flags, 7, 256);
    BasicField(flags, 8, 128);
    BasicField(flags, 9, 64);
    BasicField(flags, 10, 32);
    BasicField(flags, 11, 16);
    BasicField(flags, 12, 8);
    BasicField(flags, 13, 4);
  }

  /** The other classes have no properties. */
  lemma ClassFields(classId: nat, flags: nat)
    requires classId != 60
    ensures FieldKinds(classId, flags) == if classId in {10, 20, 30, 40, 50, 85, 90} then Some([]) else None
  {
  }

  // ---------- the whole payload ----------

  predicate PropsTyped(classId: nat, p: Properties) {
    && p.flags < TWO32
    && FieldKinds(classId, p.flags).Some?
    && AllTyped(FieldKinds(classId, p.flags).value, p.fields)
  }

  function EncProps(classId: nat, p: Properties): Bytes
    requires PropsTyped(classId, p)
  {
    FlagWords(p.flags) + EncFields(FieldKinds(classId, p.flags).value, p.fields)
  }

  predicate PropsFit(classId: nat, p: Properties)
    requires PropsTyped(classId, p)
  {
    FitFields(FieldKinds(classId, p.flags).value, p.fields)
  }

  function DecProps(classId: nat, s: Bytes): Result<(Properties, Bytes)> {
    var (flags, t) :- DecFlags(s);
    if FieldKinds(classId, flags).None? then Failure(UnknownClass)
    else
      var r := DecFields(FieldKinds(classId, flags).value, t);
      if r.None? then Failure(BadData) else Success((Properties(flags, r.value.0), r.value.1))
  }

  /** What the decoder gives back for properties that fit. */
  function CanonProps(p: Properties): Properties {
    Properties(FlagsBack(p.flags), CanonFields(p.fields))
  }

  lemma PropsTripIffFit(classId: nat, p: Properties, rest: Bytes)
    requires PropsTyped(classId, p) && |EncProps(classId, p)| < TWO32
    ensures DecProps(classId, EncProps(classId, p) + rest) == Success((CanonProps(p), rest))
       <==> PropsFit(classId, p)
  {
    hide FlagWords, DecFlags, FieldKinds, EncFields, DecFields, FlagsBack;
    var ks := FieldKinds(classId, p.flags).value;
    var body := EncFields(ks, p.fields);
    assert EncProps(classId, p) + rest == FlagWords(p.flags) + (body + rest);
    FlagWordsTrip(p.flags, body + rest);
    KindsSurvive(classId, p.flags);
    FieldsTripIffFit(ks, p.fields, rest);
  }
}
