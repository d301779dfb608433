/**
  The sending half of a connection: amqp_send_frame and amqp_basic_publish.  The socket is the sequence
  of octets written to it.
 */
module Publisher {
  import opened Wire
  import opened Buffer
  import opened TableCodec
  import opened Framing
  import opened Properties
  import opened FramingCodec
  import opened Frames

  // ---------- what a publication consists of ----------

  const NO_PROPERTIES := Properties(0, [])

  function BodyFrames(channel: nat, body: Bytes, usable: nat): (fs: seq<Frame>)
    requires usable > 0
    ensures forall f | f in fs :: f.BodyFrame? && f.channel == channel && 0 < |f.payload| <= usable
  {
    if body == [] then []
    else
      var n := if |body| >= usable then usable else |body|;
      [BodyFrame(channel, body[..n])] + BodyFrames(channel, body[n..], usable)
  }

  /** The content header and the body, cut into pieces that fill a frame. */
  function ContentFrames(channel: nat, props: Properties, body: Bytes, frameMax: nat): seq<Frame>
    requires frameMax > HEADER_SIZE + FOOTER_SIZE
  {
    [HeaderFrame(channel, BASIC_CLASS, |body|, props)] + BodyFrames(channel, body, frameMax - HEADER_SIZE - FOOTER_SIZE)
  }

  function PublishMethod(channel: nat, exchange: Bytes, routingKey: Bytes, mandatory: int, immediate: int): Frame {
    MethodFrame(channel, BASIC_PUBLISH, [NumF(0), StrF(exchange), StrF(routingKey), BitsF([mandatory, immediate])])
  }

  lemma {:induction false} NoFlag(k: nat)
    ensures !HasFlag(0, k)
  {
    if k > 0 {
      NoFlag(k - 1);
    }
  }

  lemma {:induction false} NothingSelected(ps: seq<(nat, FieldKind)>)
    requires FlagsOk(ps)
    ensures Selected(0, ps) == []
  {
    if ps != [] {
      NoFlag(ps[0].0);
      NothingSelected(ps[1..]);
    }
  }

  lemma PublishMethodTyped(channel: nat, exchange: Bytes, routingKey: Bytes, mandatory: int, immediate: int)
    requires channel < TWO16
    ensures FrameTyped(PublishMethod(channel, exchange, routingKey, mandatory, immediate))
  {
  }

  lemma HeaderTyped(channel: nat, props: Properties, body: Bytes)
    requires channel < TWO16 && |body| < TWO64 && PropsTyped(BASIC_CLASS, props)
    ensures FrameTyped(HeaderFrame(channel, BASIC_CLASS, |body|, props))
  {
    hide PropsTyped;
  }

  lemma ContentTyped(channel: nat, props: Properties, body: Bytes, frameMax: nat)
    requires channel < TWO16 && |body| < TWO64 && PropsTyped(BASIC_CLASS, props)
    requires frameMax > HEADER_SIZE + FOOTER_SIZE
    ensures forall f | f in ContentFrames(channel, props, body, frameMax) :: FrameTyped(f)
  {
    hide PropsTyped;
  }

  /** Every frame a body is cut into is at most `frameMax` octets on the wire. */
  lemma BodyFrameSize(channel: nat, body: Bytes, frameMax: nat)
    requires channel < TWO16 && frameMax > HEADER_SIZE + FOOTER_SIZE
    ensures forall f | f in BodyFrames(channel, body, frameMax - HEADER_SIZE - FOOTER_SIZE) ::
              FrameTyped(f) && |FrameBytes(f)| <= frameMax
  {
    hide BodyFrames, Head;
  }

  /** Octets i * n up to (i + 1) * n of the body, as far as it goes. */
  function Segment(body: Bytes, i: nat, n: nat): Bytes {
    if i * n >= |body| then [] else if i * n + n <= |body| then body[i * n..i * n + n] else body[i * n..]
  }

  /** A body cut to fit the frame size, of which 7 octets of header and the end mark are not the body's: as few
      frames as can hold it, all but the last of exactly the frame size on the wire, in order. */
  ghost predicate CutToFit(fs: seq<Frame>, channel: nat, body: Bytes, frameMax: nat)
    requires frameMax > 8
  {
    && |fs| == (|body| + frameMax - 9) / (frameMax - 8)
    && forall i | 0 <= i < |fs| ::
         && FrameTyped(fs[i]) && fs[i].BodyFrame? && fs[i].channel == channel
         && (if i < |fs| - 1 then |FrameBytes(fs[i])| == frameMax else 8 < |FrameBytes(fs[i])| <= frameMax)
         && fs[i].payload == Segment(body, i, frameMax - 8)
  }

  lemma FullSegment(body: Bytes, i: nat, n: nat)
    requires i * n + n <= |body|
    ensures |Segment(body, i, n)| == n
  {
  }

  lemma AtMost(i: nat, k: nat, n: nat)
    requires i <= k
    ensures i * n <= k * n && i * n == (if i == 0 then 0 else (i - 1) * n + n)
  {
  }

  lemma FewestFrames(k: nat, size: nat, usable: nat)
    requires usable > 0 && ((k - 1) * usable < size <= k * usable || k == size == 0)
    ensures k == (size + usable - 1) / usable
  {
    if k > 0 {
      assert (k - 1) * usable == k * usable - usable;
      Divides(k, usable, size + usable - 1 - k * usable);
    }
  }

  lemma Times(k: nat, n: nat)
    ensures (k - 1) * n == k * n - n && (k + 1) * n == k * n + n
  {
  }

  lemma {:induction false} BodyCount(channel: nat, body: Bytes, usable: nat)
    requires usable > 0
    ensures var k := |BodyFrames(channel, body, usable)|;
            (body == [] && k == 0) || (k - 1) * usable < |body| <= k * usable
  {
    if |body| > usable {
      BodyCount(channel, body[usable..], usable);
      Times(|BodyFrames(channel, body[usable..], usable)|, usable);
    } else if body != [] {
      assert BodyFrames(channel, body[|body|..], usable) == [];
    }
  }

  lemma FirstSegment(body: Bytes, n: nat)
    requires n > 0
    ensures Segment(body, 0, n) == body[..if |body| >= n then n else |body|]
  {
  }

  lemma LaterSegment(body: Bytes, skip: nat, i: nat, n: nat)
    requires i > 0 && n > 0 && skip == if |body| >= n then n else |body|
    ensures Segment(body[skip..], i - 1, n) == Segment(body, i, n)
  {
    Times(i, n);
    AtMost(1, i, n);
    var k := (i - 1) * n;
    assert i * n == k + n;
    if k + n < |body| {
      assert body[n..][k..] == body[k + n..];
    }
  }

  lemma {:induction false} BodyAt(channel: nat, body: Bytes, usable: nat, i: nat)
    requires usable > 0 && i < |BodyFrames(channel, body, usable)|
    ensures BodyFrames(channel, body, usable)[i].payload == Segment(body, i, usable)
  {
    hide Segment;
    var n := if |body| >= usable then usable else |body|;
    if i == 0 {
      FirstSegment(body, usable);
    } else {
      BodyAt(channel, body[n..], usable, i - 1);
      LaterSegment(body, n, i, usable);
    }
  }

  lemma BodyIsCut(channel: nat, body: Bytes, frameMax: nat)
    requires channel < TWO16 && frameMax > 8
    ensures CutToFit(BodyFrames(channel, body, frameMax - 8), channel, body, frameMax)
  {
    hide BodyFrames, Head, Segment;
    var usable := frameMax - 8;
    var fs := BodyFrames(channel, body, usable);
    BodyCount(channel, body, usable);
    FewestFrames(|fs|, |body|, usable);
    forall i | 0 <= i < |fs|
      ensures fs[i].payload == Segment(body, i, usable)
      ensures i < |fs| - 1 ==> |fs[i].payload| == usable
    {
      BodyAt(channel, body, usable, i);
      if i < |fs| - 1 {
        AtMost(i + 1, |fs| - 1, usable);
        FullSegment(body, i, usable);
      }
    }
  }

  lemma BitsTwo(x: int, y: int)
    ensures BitBuffer([x, y]) == (if x != 0 then 1 else 0) + (if y != 0 then 2 else 0)
  {
    assert BitBuffer([x, y][1..]) == if y != 0 then 1 else 0;
  }

  lemma PublishFields(ticket: Field, exchange: Field, routingKey: Field, bits: Field)
    requires ticket.NumF? && exchange.StrF? && routingKey.StrF? && bits.BitsF? && |bits.bits| == 2
    ensures var ks := [Num(2), ShortStr, ShortStr, Bits(2)];
            var fs := [ticket, exchange, routingKey, bits];
            && AllTyped(ks, fs)
            && EncFields(ks, fs) == EncField(Num(2), ticket) + EncField(ShortStr, exchange) + EncField(ShortStr, routingKey)
                                    + EncField(Bits(2), bits)
  {
    hide EncField, EncFields;
    FieldsOctets([], [], Num(2), ticket);
    FieldsOctets([Num(2)], [ticket], ShortStr, exchange);
    FieldsOctets([Num(2), ShortStr], [ticket, exchange], ShortStr, routingKey);
    FieldsOctets([Num(2), ShortStr, ShortStr], [ticket, exchange, routingKey], Bits(2), bits);
    assert [] + [Num(2)] == [Num(2)] && [Num(2)] + [ShortStr] == [Num(2), ShortStr];
    assert [Num(2), ShortStr] + [ShortStr] == [Num(2), ShortStr, ShortStr];
    assert [Num(2), ShortStr, ShortStr] + [Bits(2)] == [Num(2), ShortStr, ShortStr, Bits(2)];
    assert [] + [ticket] == [ticket] && [ticket] + [exchange] == [ticket, exchange];
    assert [ticket, exchange] + [routingKey] == [ticket, exchange, routingKey];
    assert [ticket, exchange, routingKey] + [bits] == [ticket, exchange, routingKey, bits];
    assert [] + EncField(Num(2), ticket) == EncField(Num(2), ticket);
  }

  /** The payload of the publish method, octet by octet: method 40 of class 60, the ticket, which is 0, the two
      names behind their lengths, and the two bits. */
  lemma PublishOctets(channel: nat, exchange: Bytes, routingKey: Bytes, mandatory: int, immediate: int)
    requires channel < TWO16 && |exchange| <= 255 && |routingKey| <= 255
    ensures var m := PublishMethod(channel, exchange, routingKey, mandatory, immediate);
            && FrameTyped(m)
            && Payload(m) == [0, 60, 0, 40, 0, 0] + ([|exchange|] + exchange) + ([|routingKey|] + routingKey)
                             + [(if mandatory != 0 then 1 else 0) + (if immediate != 0 then 2 else 0)]
  {
    var m := PublishMethod(channel, exchange, routingKey, mandatory, immediate);
    PublishMethodTyped(channel, exchange, routingKey, mandatory, immediate);
    var ks := [Num(2), ShortStr, ShortStr, Bits(2)];
    assert Schema(BASIC_PUBLISH).value == ks;
    hide Schema, EncFields;
    PublishFields(m.fields[0], m.fields[1], m.fields[2], m.fields[3]);
    BitsTwo(mandatory, immediate);
    assert E32(BASIC_PUBLISH) == [0, 60, 0, 40];
    assert E16(0) == [0, 0] && [0, 60, 0, 40] + [0, 0] == [0, 60, 0, 40, 0, 0];
  }

  // ---------- the stream of what is written ----------

  predicate AllTypedFrames(fs: seq<Frame>) {
    forall f | f in fs :: FrameTyped(f)
  }

  lemma TypedFrames(fs: seq<Frame>)
    requires forall f | f in fs :: FrameTyped(f)
    ensures AllTypedFrames(fs)
  {
  }

  lemma OneMoreTyped(f: Frame, rest: seq<Frame>)
    requires FrameTyped(f) && AllTypedFrames(rest)
    ensures AllTypedFrames([f] + rest)
  {
    hide FrameTyped;
  }

  lemma StreamOfOne(f: Frame, rest: seq<Frame>)
    requires FrameTyped(f) && AllTypedFrames(rest) && AllTypedFrames([f] + rest)
    ensures Stream([f] + rest) == FrameBytes(f) + Stream(rest)
  {
    hide FrameBytes, FrameTyped;
    assert ([f] + rest)[1..] == rest;
  }

  lemma Regroup(a: Bytes, b: Bytes, c: Bytes)
    ensures a + (b + c) == a + b + c
  {
  }

  lemma StreamNext(f: Frame, rest: seq<Frame>, sent: Bytes)
    requires FrameTyped(f) && AllTypedFrames(rest)
    ensures AllTypedFrames([f] + rest) && sent + Stream([f] + rest) == sent + FrameBytes(f) + Stream(rest)
  {
    hide FrameBytes, FrameTyped, Stream;
    OneMoreTyped(f, rest);
    StreamOfOne(f, rest);
    Regroup(sent, FrameBytes(f), Stream(rest));
  }

  lemma StreamOfContent(m: Frame, h: Frame, rest: seq<Frame>)
    requires FrameTyped(m) && FrameTyped(h) && AllTypedFrames(rest)
    ensures AllTypedFrames([m] + ([h] + rest))
    ensures Stream([m] + ([h] + rest)) == FrameBytes(m) + FrameBytes(h) + Stream(rest)
  {
    hide FrameBytes, FrameTyped, Stream;
    OneMoreTyped(h, rest);
    OneMoreTyped(m, [h] + rest);
    StreamOfOne(h, rest);
    StreamOfOne(m, [h] + rest);
    Regroup(FrameBytes(m), FrameBytes(h), Stream(rest));
  }

  lemma BehindTwo<T>(m: T, h: T, rest: seq<T>)
    ensures ([m] + ([h] + rest))[1] == h && ([m] + ([h] + rest))[2..] == rest
    ensures forall f | f in [m] + ([h] + rest) :: f == m || f == h || f in rest
  {
  }

  /** The frames of a publication: method and header, and the body cut to fit. */
  ghost predicate Publication(fs: seq<Frame>, m: Frame, header: Frame, channel: nat, body: Bytes, frameMax: nat)
    requires frameMax > 8
  {
    && |fs| >= 2 && fs[0] == m && fs[1] == header && CutToFit(fs[2..], channel, body, frameMax)
    && forall i | 0 <= i < |fs| :: FrameTyped(fs[i]) && |FrameBytes(fs[i])| <= frameMax
  }

  lemma WholePublication(m: Frame, header: Frame, channel: nat, body: Bytes, frameMax: nat)
    requires FrameTyped(m) && FrameTyped(header) && |FrameBytes(m)| <= frameMax && |FrameBytes(header)| <= frameMax
    requires channel < TWO16 && frameMax > 8
    ensures Publication([m] + ([header] + BodyFrames(channel, body, frameMax - 8)), m, header, channel, body, frameMax)
  {
    hide FrameBytes, FrameTyped, BodyFrames, CutToFit;
    var bodies := BodyFrames(channel, body, frameMax - 8);
    BodyIsCut(channel, body, frameMax);
    BodyFrameSize(channel, body, frameMax);
    BehindTwo(m, header, bodies);
  }

  // ---------- which frames can be sent ----------

  /** What a caller may pass: a record of the kind its number says, if the number is known. */
  predicate Offered(f: Frame) {
    match f
    case MethodFrame(c, id, fs) => c < TWO16 && id < TWO32 && (Schema(id).Some? ==> AllTyped(Schema(id).value, fs))
    case HeaderFrame(c, cl, size, p) =>
      c < TWO16 && cl < TWO16 && size < TWO64 && p.flags < TWO32 && (FieldKinds(cl, p.flags).Some? ==> PropsTyped(cl, p))
    case BodyFrame(c, _) => c < TWO16
    case HeartbeatFrame(c) => c < TWO16
    case ProtocolHeader(_, _, _, _) => true
  }

  lemma TypedOffered(f: Frame)
    requires FrameTyped(f)
    ensures Offered(f)
  {
  }

  /** frame->frame_type */
  function KindOctet(f: Frame): (b: Byte)
    requires !f.ProtocolHeader?
    ensures FrameTyped(f) ==> b == TypeOctet(f)
  {
    match f
    case MethodFrame(_, _, _) => FRAME_METHOD
    case HeaderFrame(_, _, _, _) => FRAME_HEADER
    case BodyFrame(_, _) => FRAME_BODY
    case HeartbeatFrame(_) => FRAME_HEARTBEAT
  }

  predicate KnownFrame(f: Frame) {
    match f
    case MethodFrame(_, _, fs) => KnownFields(fs)
    case HeaderFrame(_, _, _, p) => KnownFields(p.fields)
    case _ => true
  }

  /** How many octets are written without a check that they fit the buffer. */
  function Unchecked(f: Frame): nat {
    match f
    case ProtocolHeader(_, _, _, _) => 3
    case MethodFrame(_, id, _) => HEADER_SIZE + 4 + if Schema(id).Some? then FOOTER_SIZE else 0
    case HeaderFrame(_, _, _, _) => HEADER_SIZE + 12 + FOOTER_SIZE
    case BodyFrame(_, _) => HEADER_SIZE
    case HeartbeatFrame(_) => HEADER_SIZE + FOOTER_SIZE
  }

  /** What amqp_send_frame returns if the socket takes everything; undefined if it leaves a buffer that is
      too small for any frame of this kind. */
  function SendStatus(f: Frame, frameMax: nat): Status
    requires Offered(f)
  {
    if frameMax < Unchecked(f) then Undefined
    else
      match f
      case ProtocolHeader(_, _, _, _) => InvalidParameter
      case MethodFrame(_, id, fs) =>
        if Schema(id).None? then UnknownMethod
        else if KnownFields(fs) && HEADER_SIZE + |Payload(f)| + FOOTER_SIZE <= frameMax then Ok
        else FieldsFailure(Schema(id).value, fs, HEADER_SIZE + 4, frameMax - FOOTER_SIZE)
      case HeaderFrame(_, cl, _, p) =>
        var o := HEADER_SIZE + 12 + |FlagWords(p.flags)|;
        if FieldKinds(cl, p.flags).Some? && KnownFields(p.fields) && HEADER_SIZE + |Payload(f)| + FOOTER_SIZE <= frameMax then Ok
        else if o + FOOTER_SIZE > frameMax then BadData
        else if FieldKinds(cl, p.flags).None? then UnknownClass
        else FieldsFailure(FieldKinds(cl, p.flags).value, p.fields, o, frameMax - FOOTER_SIZE)
      case BodyFrame(_, _) => Ok
      case HeartbeatFrame(_) => Ok
  }

  /** What becomes of frames for which the buffer has room for the fixed part. */
  lemma RefusedFrames(f: Frame, frameMax: nat)
    requires Offered(f) && frameMax >= 20
    ensures f.ProtocolHeader? ==> SendStatus(f, frameMax) == InvalidParameter
    ensures f.MethodFrame? && Schema(f.id).None? ==> SendStatus(f, frameMax) == UnknownMethod
    ensures f.HeaderFrame? && 20 + |FlagWords(f.props.flags)| > frameMax ==> SendStatus(f, frameMax) == BadData
    ensures f.HeaderFrame? && 20 + |FlagWords(f.props.flags)| <= frameMax && FieldKinds(f.classId, f.props.flags).None?
            ==> SendStatus(f, frameMax) == UnknownClass
    ensures f.BodyFrame? || f.HeartbeatFrame? ==> SendStatus(f, frameMax) == Ok
    ensures FrameTyped(f) && KnownFrame(f) && |FrameBytes(f)| <= frameMax ==> SendStatus(f, frameMax) == Ok
  {
    hide Schema, FieldKinds, FlagWords, EncFields, FieldsFailure, Head;
  }

  class Publisher {
    const frameMax: nat
    const outbound: array<Byte>
    var wire: Bytes

    ghost predicate Valid()
      reads this
    {
      outbound.Length == frameMax
    }

    constructor (frameMax: nat)
      ensures Valid() && fresh(outbound) && wire == [] && this.frameMax == frameMax
    {
      this.frameMax := frameMax;
      outbound := new Byte[frameMax](_ => 0);
      wire := [];
    }

    lemma Assemble(b0: Bytes, b1: Bytes, b2: Bytes, f: Frame, n: nat)
      requires FrameTyped(f) && n == |Payload(f)| && HEADER_SIZE + n + FOOTER_SIZE <= |b0|
      requires b0[..3] == [TypeOctet(f)] + E16(f.channel) && b0[HEADER_SIZE..HEADER_SIZE + n] == Payload(f)
      requires Wrote(b0, b1, 3, E32(n)) && Wrote(b1, b2, HEADER_SIZE + n, [FRAME_END])
      ensures b2[..HEADER_SIZE + n + FOOTER_SIZE] == FrameBytes(f)
    {
      hide E16, E32, Payload;
      assert b1[..HEADER_SIZE] == b0[..3] + E32(n);
      assert b1[HEADER_SIZE..HEADER_SIZE + n] == b0[HEADER_SIZE..HEADER_SIZE + n];
      assert b2[..HEADER_SIZE + n] == b1[..HEADER_SIZE + n] == b1[..HEADER_SIZE] + b1[HEADER_SIZE..HEADER_SIZE + n];
    }

    /** Stores the frame header and footer around a payload that is already in place. */
    method WrapAndSend(ghost f: Frame, n: nat)
      requires Valid() && FrameTyped(f) && n == |Payload(f)| && HEADER_SIZE + n + FOOTER_SIZE <= frameMax
      requires outbound[..3] == [TypeOctet(f)] + E16(f.channel)
      requires outbound[HEADER_SIZE..HEADER_SIZE + n] == Payload(f)
      modifies this`wire, outbound
      ensures wire == old(wire) + FrameBytes(f)
    {
      hide E16, E32, Payload;
      ghost var b0 := outbound[..];
      var ok, o := Store(outbound, frameMax, 3, E32(n));
      ghost var b1 := outbound[..];
      ok, o := Store(outbound, frameMax, HEADER_SIZE + n, [FRAME_END]);
      ghost var b2 := outbound[..];
      Assemble(b0, b1, b2, f, n);
      wire := wire + outbound[..HEADER_SIZE + n + FOOTER_SIZE];
    }

    /** The payload of `f` is in place, and the octets before it are as they were. */
    ghost predicate Stored(before: Bytes, f: Frame, n: nat)
      reads outbound
      requires FrameTyped(f) && |before| == outbound.Length >= HEADER_SIZE
    {
      && n == |Payload(f)| && HEADER_SIZE + n <= outbound.Length
      && outbound[HEADER_SIZE..HEADER_SIZE + n] == Payload(f)
      && outbound[..HEADER_SIZE] == before[..HEADER_SIZE]
    }

    lemma StoredFrom(b0: Bytes, b: Bytes, limit: nat, f: Frame, n: nat, status: Status)
      requires FrameTyped(f) && |b0| == outbound.Length && b == outbound[..] && HEADER_SIZE <= limit <= |b0|
      requires Encoded(KnownFrame(f), b0, b, limit, HEADER_SIZE, HEADER_SIZE + n, Payload(f), status)
      ensures status == Ok ==> Stored(b0, f, n)
    {
      hide Payload;
    }

    /** Stores the payload of a method frame. */
    method StoreMethod(f: Frame) returns (status: Status, n: nat)
      requires Valid() && f.MethodFrame? && Offered(f) && frameMax >= HEADER_SIZE + 4 + FOOTER_SIZE
      modifies outbound
      ensures status == SendStatus(f, frameMax)
      ensures status == Ok <==> FrameTyped(f) && KnownFrame(f) && HEADER_SIZE + |Payload(f)| + FOOTER_SIZE <= frameMax
      ensures status == Ok ==> Stored(old(outbound[..]), f, n)
    {
      hide E32, Schema, EncFields, Wrote, Within, FieldsFailure, KnownFields;
      ghost var b0 := outbound[..];
      var limit := frameMax - FOOTER_SIZE;
      var ok, o := Store(outbound, limit, HEADER_SIZE, E32(f.id));
      ghost var b1 := outbound[..];
      StoreEncoded(b0, b1, limit, HEADER_SIZE, E32(f.id));
      status, n := EncodeMethod(outbound, limit, o, f.id, f.fields);
      if Schema(f.id).None? { return; }
      EncodedThen(KnownFields(f.fields), b0, b1, outbound[..], limit, HEADER_SIZE, o, o + n, E32(f.id),
                  EncFields(Schema(f.id).value, f.fields), status);
      n := n + 4;
      StoredFrom(b0, outbound[..], limit, f, n, status);
    }

    /** Stores the payload of a content header. */
    method StoreHeader(f: Frame) returns (status: Status, n: nat)
      requires Valid() && f.HeaderFrame? && Offered(f) && frameMax >= HEADER_SIZE + 12 + FOOTER_SIZE
      modifies outbound
      ensures status == SendStatus(f, frameMax)
      ensures status == Ok <==> FrameTyped(f) && KnownFrame(f) && HEADER_SIZE + |Payload(f)| + FOOTER_SIZE <= frameMax
      ensures status == Ok ==> Stored(old(outbound[..]), f, n)
    {
      hide E16, E64, EncProps, FieldKinds, Wrote, Within, FieldsFailure, FlagWords, KnownFields;
      ghost var b0 := outbound[..];
      var limit := frameMax - FOOTER_SIZE;
      var ok, o := Store(outbound, limit, HEADER_SIZE, E16(f.classId));
      ghost var b1 := outbound[..];
      StoreEncoded(b0, b1, limit, HEADER_SIZE, E16(f.classId));
      ok, o := Store(outbound, limit, HEADER_SIZE + 2, E16(0));
      ghost var b2 := outbound[..];
      StoreEncoded(b1, b2, limit, HEADER_SIZE + 2, E16(0));
      EncodedThen(true, b0, b1, b2, limit, HEADER_SIZE, HEADER_SIZE + 2, o, E16(f.classId), E16(0), Ok);
      ok, o := Store(outbound, limit, HEADER_SIZE + 4, E64(f.bodySize));
      ghost var b3 := outbound[..];
      StoreEncoded(b2, b3, limit, HEADER_SIZE + 4, E64(f.bodySize));
      EncodedThen(true, b0, b2, b3, limit, HEADER_SIZE, HEADER_SIZE + 4, o, E16(f.classId) + E16(0), E64(f.bodySize), Ok);
      status, n := EncodeProperties(outbound, limit, o, f.classId, f.props);
      if FieldKinds(f.classId, f.props.flags).None? { return; }
      EncodedThen(KnownFields(f.props.fields), b0, b3, outbound[..], limit, HEADER_SIZE, o, o + n,
                  E16(f.classId) + E16(0) + E64(f.bodySize), EncProps(f.classId, f.props), status);
      n := n + 12;
      StoredFrom(b0, outbound[..], limit, f, n, status);
    }

    /** No frame fits a buffer that is too small for its kind. */
    lemma TooSmall(f: Frame)
      requires frameMax < Unchecked(f)
      ensures FrameTyped(f) ==> (if f.BodyFrame? then HEADER_SIZE else HEADER_SIZE + |Payload(f)| + FOOTER_SIZE) > frameMax
    {
      hide Schema;
    }

    lemma NoPayload(f: Frame)
      requires f.HeartbeatFrame? && FrameTyped(f) && outbound.Length >= HEADER_SIZE
      ensures |Payload(f)| == 0 && Stored(outbound[..], f, 0)
    {
    }

    lemma Unstore(before: Bytes, f: Frame, n: nat)
      requires FrameTyped(f) && |before| == outbound.Length >= HEADER_SIZE && Stored(before, f, n)
      ensures n == |Payload(f)| && HEADER_SIZE + n <= outbound.Length
      ensures outbound[HEADER_SIZE..HEADER_SIZE + n] == Payload(f)
      ensures outbound[..3] == before[..3]
    {
      hide Payload;
      assert outbound[..3] == outbound[..HEADER_SIZE][..3];
    }

    /** A body is written from where it is, between a header from the buffer and a footer. */
    method SendBody(f: Frame)
      requires Valid() && f.BodyFrame? && FrameTyped(f) && frameMax >= HEADER_SIZE
      requires outbound[..3] == [TypeOctet(f)] + E16(f.channel)
      modifies this`wire, outbound
      ensures wire == old(wire) + FrameBytes(f)
    {
      hide E16, E32;
      ghost var b0 := outbound[..];
      var ok, o := Store(outbound, frameMax, 3, E32(|f.payload|));
      assert outbound[..HEADER_SIZE] == b0[..3] + E32(|f.payload|);
      assert Payload(f) == f.payload;
      wire := wire + (outbound[..HEADER_SIZE] + f.payload + [FRAME_END]);
    }

    /** amqp_send_frame: on success exactly the octets of the frame were written, and nothing on failure.
        Body frames are not checked against the frame size; the publisher cuts them to fit. */
    method SendFrame(f: Frame) returns (status: Status)
      requires Valid() && Offered(f)
      modifies this`wire, outbound
      ensures status == SendStatus(f, frameMax)
      ensures status == Ok <==>
                && FrameTyped(f) && KnownFrame(f)
                && (if f.BodyFrame? then HEADER_SIZE else HEADER_SIZE + |Payload(f)| + FOOTER_SIZE) <= frameMax
      ensures wire == old(wire) + if status == Ok then FrameBytes(f) else []
    {
      hide E16, E32, Payload, FrameBytes, Stored, Schema, KnownFields;
      if frameMax < Unchecked(f) {
        // the frame is written past the end of the buffer
        TooSmall(f);
        return Undefined;
      }
      if f.ProtocolHeader? {
        return InvalidParameter;
      }
      if f.MethodFrame? && frameMax < HEADER_SIZE + 4 + FOOTER_SIZE {
        // of an unknown method only the number is written
        return UnknownMethod;
      }
      ghost var b0 := outbound[..];
      var ok, o := Store(outbound, frameMax, 0, [KindOctet(f)]);
      ghost var b1 := outbound[..];
      ok, o := Store(outbound, frameMax, 1, E16(f.channel));
      ghost var b2 := outbound[..];
      assert b2[..3] == [KindOctet(f)] + E16(f.channel) by {
        assert b2[..3] == b1[..1] + E16(f.channel);
      }
      if f.BodyFrame? {
        SendBody(f);
        return Ok;
      }
      var n := 0;
      status := Ok;
      if f.MethodFrame? {
        status, n := StoreMethod(f);
      } else if f.HeaderFrame? {
        status, n := StoreHeader(f);
      } else {
        NoPayload(f);
      }
      if status != Ok { return; }
      Unstore(b2, f, n);
      WrapAndSend(f, n);
    }

    lemma HeaderSize(f: Frame)
      requires f.HeaderFrame? && FrameTyped(f)
      ensures |FrameBytes(f)| >= HEADER_SIZE + 12 + FOOTER_SIZE
    {
    }

    lemma NoKinds()
      ensures FieldKinds(BASIC_CLASS, 0) == Some([])
    {
      hide Selected, HasFlag;
      NothingSelected(BASIC_PROPERTIES);
    }

    lemma DefaultTyped()
      ensures PropsTyped(BASIC_CLASS, NO_PROPERTIES)
    {
      NoKinds();
      hide FieldKinds;
    }

    lemma NoBody(channel: nat, usable: nat)
      requires usable > 0
      ensures BodyFrames(channel, [], usable) == [] && Stream([]) == []
    {
    }

    lemma BodyNext(channel: nat, body: Bytes, usable: nat, sent: Bytes)
      requires body != [] && usable > 0 && channel < TWO16
      ensures var n := if |body| >= usable then usable else |body|;
              sent + Stream(BodyFrames(channel, body, usable))
              == sent + FrameBytes(BodyFrame(channel, body[..n])) + Stream(BodyFrames(channel, body[n..], usable))
    {
      hide FrameBytes;
      var n := if |body| >= usable then usable else |body|;
      var f := BodyFrame(channel, body[..n]);
      var rest := BodyFrames(channel, body[n..], usable);
      assert BodyFrames(channel, body, usable) == [f] + rest;
      hide BodyFrames;
      StreamNext(f, rest, sent);
    }

    /** The loop that cuts the body into frames. */
    method SendBodies(channel: nat, body: Bytes, usable: nat)
      requires Valid() && channel < TWO16 && usable > 0 && frameMax >= HEADER_SIZE
      modifies this`wire, outbound
      ensures forall f | f in BodyFrames(channel, body, usable) :: FrameTyped(f)
      ensures wire == old(wire) + Stream(BodyFrames(channel, body, usable))
    {
      hide FrameBytes, Payload, BodyFrames, Stream;
      var offset := 0;
      assert body[0..] == body;
      ghost var sent: Bytes := [];
      ghost var whole := Stream(BodyFrames(channel, body, usable));
      assert sent + whole == whole;
      while offset < |body|
        invariant offset <= |body|
        invariant wire == old(wire) + sent
        invariant whole == sent + Stream(BodyFrames(channel, body[offset..], usable))
      {
        var remaining := |body| - offset;
        var n := if remaining >= usable then usable else remaining;
        var f := BodyFrame(channel, body[offset..offset + n]);
        BodyNext(channel, body[offset..], usable, sent);
        assert body[offset..][..n] == f.payload && body[offset..][n..] == body[offset + n..];
        offset := offset + n;
        var status := SendFrame(f);
        sent := sent + FrameBytes(f);
      }
      assert body[|body|..] == [];
      NoBody(channel, usable);
      assert sent + [] == sent;
    }

    /** amqp_basic_publish: a publish method, a content header and the body in pieces. */
    method Publish(channel: nat, exchange: Bytes, routingKey: Bytes, mandatory: int, immediate: int,
                   properties: Option<Properties>, body: Bytes) returns (status: Status)
      requires Valid() && channel < TWO16 && |body| < TWO64
      requires properties.Some? ==> PropsTyped(BASIC_CLASS, properties.value)
      modifies this`wire, outbound
      ensures var props := if properties.Some? then properties.value else NO_PROPERTIES;
              var m := PublishMethod(channel, exchange, routingKey, mandatory, immediate);
              var header := HeaderFrame(channel, BASIC_CLASS, |body|, props);
              && PropsTyped(BASIC_CLASS, props) && FrameTyped(m) && FrameTyped(header)
              && (status == Ok <==> |FrameBytes(m)| <= frameMax && KnownFields(props.fields) && |FrameBytes(header)| <= frameMax)
              && (status == Ok ==>
                    && frameMax > HEADER_SIZE + FOOTER_SIZE
                    && var fs := [m] + ContentFrames(channel, props, body, frameMax);
                       && Publication(fs, m, header, channel, body, frameMax)
                       && wire == old(wire) + Stream(fs))
              && (status != Ok ==> wire == old(wire) + if |FrameBytes(m)| <= frameMax then FrameBytes(m) else [])
              && Offered(m) && Offered(header)
              && status == if |FrameBytes(m)| <= frameMax then SendStatus(header, frameMax) else SendStatus(m, frameMax)
    {
      hide Payload, FrameBytes, FrameTyped, PropsTyped, BodyFrames, Stream, SendStatus, Offered, Publication;
      DefaultTyped();
      var props := if properties.Some? then properties.value else NO_PROPERTIES;
      var m := PublishMethod(channel, exchange, routingKey, mandatory, immediate);
      var header := HeaderFrame(channel, BASIC_CLASS, |body|, props);
      PublishMethodTyped(channel, exchange, routingKey, mandatory, immediate);
      HeaderTyped(channel, props, body);
      TypedOffered(m);
      TypedOffered(header);
      status := SendFrame(m);
      if status != Ok { return; }
      status := SendFrame(header);
      if status != Ok { return; }
      HeaderSize(header);
      // for smaller frame sizes the subtraction wraps around, but then no header fits
      var usable := frameMax - (HEADER_SIZE + FOOTER_SIZE);
      SendBodies(channel, body, usable);
      StreamOfContent(m, header, BodyFrames(channel, body, usable));
      WholePublication(m, header, channel, body, frameMax);
    }
  }
}
