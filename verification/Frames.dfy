/**
  Frames and the stream they form.  `Parse` says what a sequence of octets means as a sequence of
  frames, without any decoder state; the connection's resumable decoder is proved against it.
 */
module Frames {
  import opened Wire
  import opened Framing
  import opened Properties

  const HEADER_SIZE := 7
  const FOOTER_SIZE := 1
  const FRAME_END: Byte := 206

  /** From this size on the size of the whole frame wraps around.  Frames sent are far smaller: the frame
      size is an int. */
  const MAX_PAYLOAD := TWO32 - HEADER_SIZE - FOOTER_SIZE

  const FRAME_METHOD: Byte := 1
  const FRAME_HEADER: Byte := 2
  const FRAME_BODY: Byte := 3
  const FRAME_HEARTBEAT: Byte := 8

  datatype Frame =
    | MethodFrame(channel: nat, id: nat, fields: seq<Field>)
    | HeaderFrame(channel: nat, classId: nat, bodySize: nat, props: Properties)
    | BodyFrame(channel: nat, payload: Bytes)
    | HeartbeatFrame(channel: nat)
    | ProtocolHeader(transportHigh: Byte, transportLow: Byte, major: Byte, minor: Byte)

  // ---------- one frame on the wire ----------

  predicate FrameTyped(f: Frame) {
    match f
    case MethodFrame(c, id, fs) => c < TWO16 && id < TWO32 && Schema(id).Some? && AllTyped(Schema(id).value, fs)
    case HeaderFrame(c, cl, size, p) => c < TWO16 && cl < TWO16 && size < TWO64 && PropsTyped(cl, p)
    case BodyFrame(c, _) => c < TWO16
    case HeartbeatFrame(c) => c < TWO16
    case ProtocolHeader(_, _, _, _) => false
  }

  predicate FrameFits(f: Frame)
    requires FrameTyped(f)
  {
    match f
    case MethodFrame(_, id, fs) => FitFields(Schema(id).value, fs)
    case HeaderFrame(_, cl, _, p) => PropsFit(cl, p)
    case _ => true
  }

  function CanonFrame(f: Frame): Frame {
    match f
    case MethodFrame(c, id, fs) => MethodFrame(c, id, CanonFields(fs))
    case HeaderFrame(c, cl, size, p) => HeaderFrame(c, cl, size, CanonProps(p))
    case _ => f
  }

  function TypeOctet(f: Frame): Byte
    requires FrameTyped(f)
  {
    match f
    case MethodFrame(_, _, _) => FRAME_METHOD
    case HeaderFrame(_, _, _, _) => FRAME_HEADER
    case BodyFrame(_, _) => FRAME_BODY
    case HeartbeatFrame(_) => FRAME_HEARTBEAT
  }

  /** The fixed part of the payload: method number, or class, weight and body size. */
  function Prelude(f: Frame): Bytes
    requires FrameTyped(f)
  {
    match f
    case MethodFrame(_, id, _) => E32(id)
    case HeaderFrame(_, cl, size, _) => E16(cl) + E16(0) + E64(size)
    case _ => []
  }

  function Arguments(f: Frame): Bytes
    requires FrameTyped(f)
  {
    match f
    case MethodFrame(_, id, fs) => EncFields(Schema(id).value, fs)
    case HeaderFrame(_, cl, _, p) => EncProps(cl, p)
    case BodyFrame(_, payload) => payload
    case HeartbeatFrame(_) => []
  }

  function Payload(f: Frame): Bytes
    requires FrameTyped(f)
  {
    Prelude(f) + Arguments(f)
  }

  function Head(tag: Byte, channel: nat, size: nat): (r: Bytes)
    ensures |r| == HEADER_SIZE
  {
    [tag] + E16(channel) + E32(size)
  }

  function FrameBytes(f: Frame): (r: Bytes)
    requires FrameTyped(f)
    ensures |r| == HEADER_SIZE + |Payload(f)| + FOOTER_SIZE
  {
    Head(TypeOctet(f), f.channel, |Payload(f)|) + Payload(f) + [FRAME_END]
  }

  // ---------- reading a stream ----------

  /** The size of the frame whose header starts `s`, in 32-bit arithmetic: it wraps around for the
      eight largest payload sizes. */
  function Target(s: Bytes): (n: nat)
    requires |s| >= HEADER_SIZE
    ensures n < TWO32
  {
    (D32(s, 3) + HEADER_SIZE + FOOTER_SIZE) % TWO32
  }

  predicate Complete(s: Bytes) {
    |s| >= HEADER_SIZE && |s| >= Target(s)
  }

  function DecodeMethodRaw(raw: Bytes): Result<Option<Frame>>
    requires |raw| >= HEADER_SIZE
  {
    if |raw| < HEADER_SIZE + 4 + FOOTER_SIZE then Failure(Undefined)
    else
      var (fs, _) :- DecMethod(D32(raw, HEADER_SIZE), raw[HEADER_SIZE + 4..|raw| - FOOTER_SIZE]);
      Success(Some(MethodFrame(D16(raw, 1), D32(raw, HEADER_SIZE), fs)))
  }

  function DecodeHeaderRaw(raw: Bytes): Result<Option<Frame>>
    requires |raw| >= HEADER_SIZE
  {
    if |raw| < HEADER_SIZE + 12 + FOOTER_SIZE then Failure(Undefined)
    else
      var (p, _) :- DecProps(D16(raw, HEADER_SIZE), raw[HEADER_SIZE + 12..|raw| - FOOTER_SIZE]);
      Success(Some(HeaderFrame(D16(raw, 1), D16(raw, HEADER_SIZE), D64(raw, HEADER_SIZE + 4), p)))
  }

  /** The frame in `raw`; None for a complete frame of a type that is ignored. */
  function DecodeRaw(raw: Bytes): (r: Result<Option<Frame>>)
    requires |raw| >= HEADER_SIZE
    ensures r.Failure? ==> r.status != Ok
  {
    if raw[|raw| - 1] != FRAME_END then Failure(BadData)
    else if raw[0] == FRAME_METHOD then DecodeMethodRaw(raw)
    else if raw[0] == FRAME_HEADER then DecodeHeaderRaw(raw)
    else if raw[0] == FRAME_BODY then
      if |raw| < HEADER_SIZE + FOOTER_SIZE then Failure(Undefined)
      else Success(Some(BodyFrame(D16(raw, 1), raw[HEADER_SIZE..|raw| - FOOTER_SIZE])))
    else if raw[0] == FRAME_HEARTBEAT then Success(Some(HeartbeatFrame(D16(raw, 1))))
    else Success(None)
  }

  /** The first frame of `s`.  The pool gives nothing for a size of 0.  Below the size of the header,
      which was received already, the number of octets still wanted underflows. */
  function DecodeFirst(s: Bytes): (r: Result<Option<Frame>>)
    requires Complete(s)
    ensures r.Failure? ==> r.status != Ok
    ensures r.Success? ==> HEADER_SIZE <= Target(s) && r == DecodeRaw(s[..Target(s)])
  {
    if Target(s) == 0 then Failure(NoMemory)
    else if Target(s) < HEADER_SIZE then Failure(Undefined)
    else DecodeRaw(s[..Target(s)])
  }

  /** A decoded frame is on the channel its header names. */
  lemma ChannelRead(raw: Bytes)
    requires |raw| >= HEADER_SIZE && DecodeRaw(raw).Success? && DecodeRaw(raw).value.Some?
    ensures var f := DecodeRaw(raw).value.value; !f.ProtocolHeader? && f.channel == D16(raw, 1)
  {
  }

  function AsSeq<T>(o: Option<T>): seq<T> {
    if o.Some? then [o.value] else []
  }

  /** The frames read, the octets of the frame that is not complete yet, and the status; a run
      ends at the first failure. */
  datatype Parsed = Parsed(frames: seq<Frame>, residue: Bytes, status: Status)

  function Prepend(fs: seq<Frame>, p: Parsed): Parsed {
    p.(frames := fs + p.frames)
  }

  function Parse(s: Bytes): (p: Parsed)
    decreases |s|
  {
    if !Complete(s) then Parsed([], s, Ok)
    else
      match DecodeFirst(s)
      case Failure(e) => Parsed([], [], e)
      case Success(f) => Prepend(AsSeq(f), Parse(s[Target(s)..]))
  }

  // ---------- sizes that wrap around ----------

  lemma LargestSize(s: Bytes)
    requires |s| >= HEADER_SIZE && D32(s, 3) == TWO32 - 1
    ensures DecodeRaw(s[..HEADER_SIZE]) == Failure(BadData)
  {
    hide DecodeMethodRaw, DecodeHeaderRaw;
    assert s[6] == 255;
    hide D16, D32;
    assert s[..HEADER_SIZE][HEADER_SIZE - 1] == s[6];
  }

  /** What becomes of a frame whose size wraps around, as soon as its header is there. */
  lemma WrappedSize(s: Bytes)
    requires |s| >= HEADER_SIZE && D32(s, 3) >= MAX_PAYLOAD
    ensures Parse(s) == Parsed([], [], if D32(s, 3) == TWO32 - 8 then NoMemory
                                       else if D32(s, 3) < TWO32 - 1 then Undefined
                                       else BadData)
  {
    hide D32, DecodeRaw;
    if D32(s, 3) == TWO32 - 1 {
      LargestSize(s);
    }
  }

  /** A frame is awaited behind its header exactly when its size does not wrap around. */
  lemma AwaitedIff(head: Bytes)
    requires |head| == HEADER_SIZE
    ensures Parse(head) == Parsed([], head, Ok) <==> D32(head, 3) < MAX_PAYLOAD
  {
    hide DecodeRaw, D32;
    if D32(head, 3) >= MAX_PAYLOAD {
      WrappedSize(head);
    }
  }

  lemma LargeSize(last: Byte)
    ensures D32([3, 0, 1, 255, 255, 255, last], 3) == TWO32 - 256 + last
  {
  }

  /** For example. */
  lemma WrappedExamples()
    ensures Parse([3, 0, 1, 255, 255, 255, 255]) == Parsed([], [], BadData)
    ensures Parse([3, 0, 1, 255, 255, 255, 249]) == Parsed([], [], Undefined)
    ensures Parse([3, 0, 1, 255, 255, 255, 248]) == Parsed([], [], NoMemory)
  {
    LargeSize(255);
    LargeSize(249);
    LargeSize(248);
    hide Parse, D32;
    WrappedSize([3, 0, 1, 255, 255, 255, 255]);
    WrappedSize([3, 0, 1, 255, 255, 255, 249]);
    WrappedSize([3, 0, 1, 255, 255, 255, 248]);
  }

  // ---------- a written frame is read back ----------

  lemma HeadFields(tag: Byte, channel: nat, size: nat, rest: Bytes)
    requires channel < TWO16 && size < TWO32
    ensures var s := Head(tag, channel, size) + rest;
            s[0] == tag && D16(s, 1) == channel && D32(s, 3) == size
  {
    hide E16, E32, D16, D32;
    var s := Head(tag, channel, size) + rest;
    assert s == [tag] + (E16(channel) + (E32(size) + rest));
    ReadShift([tag], E16(channel) + (E32(size) + rest));
    D16OfE16(channel, E32(size) + rest);
    assert s == ([tag] + E16(channel)) + (E32(size) + rest);
    ReadShift([tag] + E16(channel), E32(size) + rest);
    D32OfE32(size, rest);
  }

  lemma FrameTarget(f: Frame, rest: Bytes)
    requires FrameTyped(f) && |Payload(f)| < MAX_PAYLOAD
    ensures var s := FrameBytes(f) + rest;
            Complete(s) && Target(s) == |FrameBytes(f)| && s[..Target(s)] == FrameBytes(f) && s[Target(s)..] == rest
  {
    hide Payload, Head, D16, D32;
    var s := FrameBytes(f) + rest;
    assert s[..|FrameBytes(f)|] == FrameBytes(f);
    assert s == Head(TypeOctet(f), f.channel, |Payload(f)|) + (Payload(f) + [FRAME_END] + rest);
    HeadFields(TypeOctet(f), f.channel, |Payload(f)|, Payload(f) + [FRAME_END] + rest);
  }

  /** The header of a written frame reads back, and its payload lies between header and footer. */
  lemma FrameParts(f: Frame)
    requires FrameTyped(f) && |Payload(f)| < MAX_PAYLOAD
    ensures var raw := FrameBytes(f);
            && raw[0] == TypeOctet(f) && D16(raw, 1) == f.channel && raw[|raw| - 1] == FRAME_END
            && raw[HEADER_SIZE..|raw| - FOOTER_SIZE] == Payload(f)
            && raw[HEADER_SIZE..] == Payload(f) + [FRAME_END]
  {
    hide Payload, Head, D16, D32;
    var raw := FrameBytes(f);
    assert raw == Head(TypeOctet(f), f.channel, |Payload(f)|) + (Payload(f) + [FRAME_END]);
    HeadFields(TypeOctet(f), f.channel, |Payload(f)|, Payload(f) + [FRAME_END]);
  }

  // ---------- the octets of a frame ----------

  lemma HeadLayout(f: Frame)
    requires FrameTyped(f) && |Payload(f)| < MAX_PAYLOAD
    ensures var s := FrameBytes(f);
            BigEndian(s[1..3]) == f.channel && BigEndian(s[3..7]) == |Payload(f)|
  {
    hide Payload, D16, D32, E16, E32, BigEndian;
    var s := FrameBytes(f);
    assert s[1..3] == E16(f.channel) && s[3..7] == E32(|Payload(f)|);
    BigEndianOfE16(f.channel);
    BigEndianOfE32(|Payload(f)|);
  }

  lemma MethodLayout(f: Frame)
    requires f.MethodFrame? && FrameTyped(f) && |Payload(f)| < MAX_PAYLOAD
    ensures |FrameBytes(f)| >= 12 && BigEndian(FrameBytes(f)[7..11]) == f.id
  {
    hide Head, E32, BigEndian, EncFields;
    assert FrameBytes(f)[7..11] == E32(f.id);
    BigEndianOfE32(f.id);
  }

  lemma HeaderSlices(f: Frame)
    requires f.HeaderFrame? && FrameTyped(f)
    ensures var s := FrameBytes(f);
            |s| >= 20 && s[7..9] == E16(f.classId) && s[9..11] == E16(0) && s[11..19] == E64(f.bodySize)
  {
    hide Head, E16, E64, EncProps, PropsTyped;
    var h, p := Head(TypeOctet(f), f.channel, |Payload(f)|), Payload(f);
    var s := h + p + [FRAME_END];
    assert s[7..19] == p[..12];
    assert p[..2] == E16(f.classId) && p[2..4] == E16(0) && p[4..12] == E64(f.bodySize);
    assert s[7..19][..2] == s[7..9] && s[7..19][2..4] == s[9..11] && s[7..19][4..12] == s[11..19];
  }

  lemma HeaderLayout(f: Frame)
    requires f.HeaderFrame? && FrameTyped(f) && |Payload(f)| < MAX_PAYLOAD
    ensures var s := FrameBytes(f);
            && |s| >= 20 && BigEndian(s[7..9]) == f.classId && s[9..11] == [0, 0]
            && BigEndian(s[11..19]) == f.bodySize
  {
    assert E16(0) == [0, 0] && f.classId % TWO16 == f.classId && f.bodySize % TWO64 == f.bodySize;
    hide *;
    HeaderSlices(f);
    BigEndianOfE16(f.classId);
    BigEndianOfE64(f.bodySize);
  }

  lemma BodyLayout(f: Frame)
    requires FrameTyped(f) && (f.BodyFrame? || f.HeartbeatFrame?)
    ensures f.BodyFrame? ==> Payload(f) == f.payload
    ensures f.HeartbeatFrame? ==> Payload(f) == []
  {
  }

  /** A frame octet by octet, numbers with the most significant octet first: type, channel, size of the
      payload, the payload, and 0xCE.  The payload of a method starts with its number; that of a content
      header with the class, two zero octets and the size of the body; that of a body is the body. */
  lemma FrameLayout(f: Frame)
    requires FrameTyped(f) && |Payload(f)| < MAX_PAYLOAD
    ensures var s := FrameBytes(f);
            && s[0] == (if f.MethodFrame? then 1 else if f.HeaderFrame? then 2 else if f.BodyFrame? then 3 else 8)
            && BigEndian(s[1..3]) == f.channel
            && BigEndian(s[3..7]) == |s| - 8
            && s[|s| - 1] == 0xCE
            && (f.MethodFrame? ==> |s| >= 12 && BigEndian(s[7..11]) == f.id)
            && (f.HeaderFrame? ==> |s| >= 20 && BigEndian(s[7..9]) == f.classId && s[9..11] == [0, 0]
                                   && BigEndian(s[11..19]) == f.bodySize)
            && (f.BodyFrame? ==> s[7..|s| - 1] == f.payload)
            && (f.HeartbeatFrame? ==> |s| == 8)
  {
    hide Payload, Head, D16, D32, D64, E16, E32, E64, FrameBytes, BigEndian, EncFields, EncProps, PropsTyped;
    var s := FrameBytes(f);
    HeadLayout(f);
    FrameParts(f);
    if f.MethodFrame? {
      MethodLayout(f);
    } else if f.HeaderFrame? {
      HeaderLayout(f);
    } else {
      BodyLayout(f);
    }
  }

  /** What the decoder reports of the octets of a whole frame: what the first octet says the frame is, with the
      numbers at the same places. */
  lemma ReadLayout(raw: Bytes)
    requires |raw| >= HEADER_SIZE && DecodeRaw(raw).Success?
    ensures raw[|raw| - 1] == 0xCE
    ensures match DecodeRaw(raw).value
            case None => raw[0] !in {1, 2, 3, 8}
            case Some(MethodFrame(channel, id, _)) =>
              raw[0] == 1 && |raw| >= 12 && channel == BigEndian(raw[1..3]) && id == BigEndian(raw[7..11])
            case Some(HeaderFrame(channel, classId, bodySize, _)) =>
              && raw[0] == 2 && |raw| >= 20 && channel == BigEndian(raw[1..3])
              && classId == BigEndian(raw[7..9]) && bodySize == BigEndian(raw[11..19])
            case Some(BodyFrame(channel, payload)) =>
              raw[0] == 3 && |raw| >= 8 && channel == BigEndian(raw[1..3]) && payload == raw[7..|raw| - 1]
            case Some(HeartbeatFrame(channel)) => raw[0] == 8 && channel == BigEndian(raw[1..3])
            case Some(ProtocolHeader(_, _, _, _)) => false
  {
    hide D16, D32, D64, BigEndian, DecMethod, DecProps;
    D16IsBigEndian(raw, 1);
    if raw[0] == FRAME_METHOD {
      D32IsBigEndian(raw, 7);
    } else if raw[0] == FRAME_HEADER {
      D16IsBigEndian(raw, 7);
      D64IsBigEndian(raw, 11);
    }
  }

  /** What is refused, and what is ignored. */
  lemma RefusedLayout(raw: Bytes)
    requires |raw| >= HEADER_SIZE
    ensures raw[|raw| - 1] != 0xCE ==> DecodeRaw(raw) == Failure(BadData)
    ensures raw[|raw| - 1] == 0xCE && raw[0] !in {1, 2, 3, 8} ==> DecodeRaw(raw) == Success(None)
    ensures (raw[|raw| - 1] == 0xCE && raw[0] == 1 && |raw| >= 12 && Schema(BigEndian(raw[7..11])).None?)
              ==> DecodeRaw(raw) == Failure(UnknownMethod)
  {
    hide D16, D32, D64, BigEndian, Schema, DecFields, DecProps;
    if |raw| >= 12 {
      D32IsBigEndian(raw, 7);
    }
  }

  /** The size of the frame that starts `s` on the wire, in 32 bits. */
  lemma TargetLayout(s: Bytes)
    requires |s| >= 7
    ensures Target(s) == (BigEndian(s[3..7]) + 8) % 0x1_0000_0000
  {
    D32IsBigEndian(s, 3);
  }

  lemma MethodFrameTrip(f: Frame)
    requires f.MethodFrame? && FrameTyped(f) && FrameFits(f) && |Payload(f)| < MAX_PAYLOAD
    ensures DecodeMethodRaw(FrameBytes(f)) == Success(Some(CanonFrame(f)))
  {
    hide Schema, Head, D16, D32, E32, FrameBytes;
    var raw, args := FrameBytes(f), Arguments(f);
    FrameParts(f);
    assert raw[HEADER_SIZE..] == E32(f.id) + (args + [FRAME_END]);
    D32OfE32(f.id, args + [FRAME_END]);
    assert raw == raw[..HEADER_SIZE] + raw[HEADER_SIZE..];
    ReadShift(raw[..HEADER_SIZE], raw[HEADER_SIZE..]);
    assert raw[HEADER_SIZE + 4..|raw| - FOOTER_SIZE] == Payload(f)[4..] == args + [];
    MethodTripIffFits(f.id, f.fields, []);
  }

  lemma HeaderFields(f: Frame)
    requires f.HeaderFrame? && FrameTyped(f) && |Payload(f)| < MAX_PAYLOAD
    ensures var raw := FrameBytes(f);
            && D16(raw, HEADER_SIZE) == f.classId && D64(raw, HEADER_SIZE + 4) == f.bodySize
            && raw[HEADER_SIZE + 12..|raw| - FOOTER_SIZE] == EncProps(f.classId, f.props)
  {
    hide Head, D16, D32, D64, E16, E64, FrameBytes, EncProps, PropsTyped;
    var raw, args := FrameBytes(f), EncProps(f.classId, f.props);
    FrameParts(f);
    var t := E64(f.bodySize) + (args + [FRAME_END]);
    var front := raw[..HEADER_SIZE] + (E16(f.classId) + E16(0));
    assert raw[HEADER_SIZE..] == E16(f.classId) + (E16(0) + t);
    assert raw == raw[..HEADER_SIZE] + raw[HEADER_SIZE..];
    assert raw == front + t;
    assert raw[HEADER_SIZE + 12..|raw| - FOOTER_SIZE] == args;
    D16OfE16(f.classId, E16(0) + t);
    ReadShift(raw[..HEADER_SIZE], E16(f.classId) + (E16(0) + t));
    D64OfE64(f.bodySize, args + [FRAME_END]);
    ReadShift(front, t);
  }

  lemma HeaderFrameTrip(f: Frame)
    requires f.HeaderFrame? && FrameTyped(f) && FrameFits(f) && |Payload(f)| < MAX_PAYLOAD
    ensures DecodeHeaderRaw(FrameBytes(f)) == Success(Some(CanonFrame(f)))
  {
    hide Head, D16, D32, D64, E16, E64, FrameBytes, EncProps, PropsTyped, PropsFit, CanonProps;
    FrameParts(f);
    HeaderFields(f);
    var args := EncProps(f.classId, f.props);
    assert args + [] == args;
    PropsTripIffFit(f.classId, f.props, []);
  }

  lemma DecodeWritten(f: Frame)
    requires FrameTyped(f) && FrameFits(f) && |Payload(f)| < MAX_PAYLOAD
    ensures DecodeRaw(FrameBytes(f)) == Success(Some(CanonFrame(f)))
  {
    hide FrameBytes, DecodeMethodRaw, DecodeHeaderRaw, D16, FrameFits;
    FrameParts(f);
    if f.MethodFrame? {
      MethodFrameTrip(f);
    } else if f.HeaderFrame? {
      HeaderFrameTrip(f);
    } else if f.BodyFrame? {
      assert Payload(f) == f.payload;
    }
  }

  lemma FrameTrip(f: Frame, rest: Bytes)
    requires FrameTyped(f) && FrameFits(f) && |Payload(f)| < MAX_PAYLOAD
    ensures Parse(FrameBytes(f) + rest) == Prepend([CanonFrame(f)], Parse(rest))
  {
    hide FrameBytes, DecodeRaw, Target, FrameTyped, FrameFits, Payload, CanonFrame;
    FrameTarget(f, rest);
    DecodeWritten(f);
  }

  /** A frame is read back exactly when its size does not wrap around. */
  lemma FrameTripIff(f: Frame, rest: Bytes)
    requires FrameTyped(f) && FrameFits(f) && |Payload(f)| < TWO32
    ensures Parse(FrameBytes(f) + rest) == Prepend([CanonFrame(f)], Parse(rest)) <==> |Payload(f)| < MAX_PAYLOAD
  {
    hide FrameFits, Payload, CanonFrame, Head, D16, D32, DecodeRaw, Parse;
    if |Payload(f)| < MAX_PAYLOAD {
      FrameTrip(f, rest);
    } else {
      var s := FrameBytes(f) + rest;
      assert s == Head(TypeOctet(f), f.channel, |Payload(f)|) + (Payload(f) + [FRAME_END] + rest);
      HeadFields(TypeOctet(f), f.channel, |Payload(f)|, Payload(f) + [FRAME_END] + rest);
      WrappedSize(s);
    }
  }

  function HeaderFrameOf(t: Bytes): Frame
    requires |t| >= 8
  {
    ProtocolHeader(t[4], t[5], t[6], t[7])
  }

  function Stream(fs: seq<Frame>): Bytes
    requires forall f | f in fs :: FrameTyped(f)
  {
    if fs == [] then [] else FrameBytes(fs[0]) + Stream(fs[1..])
  }

  function CanonFrames(fs: seq<Frame>): (r: seq<Frame>)
    ensures |r| == |fs|
    ensures forall i | 0 <= i < |fs| :: r[i] == CanonFrame(fs[i])
  {
    if fs == [] then [] else [CanonFrame(fs[0])] + CanonFrames(fs[1..])
  }

  /** Every sequence of well-formed frames is read back from the octets it is sent as. */
  lemma {:induction false} StreamTrip(fs: seq<Frame>)
    requires forall f | f in fs :: FrameTyped(f) && FrameFits(f) && |Payload(f)| < MAX_PAYLOAD
    ensures Parse(Stream(fs)) == Parsed(CanonFrames(fs), [], Ok)
  {
    hide FrameBytes, FrameTyped, FrameFits, Payload;
    if fs != [] {
      FrameTrip(fs[0], Stream(fs[1..]));
      StreamTrip(fs[1..]);
    }
  }

  // ---------- the stream may be cut anywhere ----------

  lemma TargetOfPrefix(a: Bytes, b: Bytes)
    requires Complete(a)
    ensures var n := Target(a);
            Complete(a + b) && Target(a + b) == n && (a + b)[..n] == a[..n] && (a + b)[n..] == a[n..] + b
  {
  }

  lemma PrependTwice(x: seq<Frame>, y: seq<Frame>, p: Parsed)
    ensures Prepend(x, Prepend(y, p)) == Prepend(x + y, p)
  {
    assert x + (y + p.frames) == x + y + p.frames;
  }

  /** Reading `a + b` is reading `a` and then what was left of it followed by `b`. */
  lemma {:induction false} ParseConcat(a: Bytes, b: Bytes)
    ensures Parse(a + b) ==
            if Parse(a).status != Ok then Parse(a)
            else Prepend(Parse(a).frames, Parse(Parse(a).residue + b))
    decreases |a|
  {
    hide DecodeRaw, Target;
    if Complete(a) {
      var n := Target(a);
      TargetOfPrefix(a, b);
      var d := DecodeFirst(a);
      assert DecodeFirst(a + b) == d;
      if d.Success? {
        ParseConcat(a[n..], b);
        assert Parse(a + b) == Prepend(AsSeq(d.value), Parse(a[n..] + b));
        assert Parse(a) == Prepend(AsSeq(d.value), Parse(a[n..]));
        PrependTwice(AsSeq(d.value), Parse(a[n..]).frames, Parse(Parse(a[n..]).residue + b));
      }
    } else {
      assert [] + Parse(a + b).frames == Parse(a + b).frames;
    }
  }

  lemma PrependNothing(p: Parsed)
    ensures Prepend([], p) == p
  {
    assert [] + p.frames == p.frames;
  }

  function Concat<T>(chunks: seq<seq<T>>): seq<T> {
    if chunks == [] then [] else chunks[0] + Concat(chunks[1..])
  }

  /** Reading chunk by chunk, keeping only the incomplete frame in between. */
  function ParseChunks(held: Bytes, chunks: seq<Bytes>): Parsed
    decreases |chunks|
  {
    if chunks == [] then Parsed([], held, Ok)
    else
      var p := Parse(held + chunks[0]);
      if p.status != Ok then p else Prepend(p.frames, ParseChunks(p.residue, chunks[1..]))
  }

  lemma ParseIncomplete(s: Bytes)
    requires !Complete(s)
    ensures Parse(s) == Parsed([], s, Ok)
  {
  }

  lemma {:induction false} ResidueIncomplete(s: Bytes)
    ensures !Complete(Parse(s).residue)
    decreases |s|
  {
    if Complete(s) && DecodeFirst(s).Success? {
      ResidueIncomplete(s[Target(s)..]);
    }
  }

  /** No way of cutting the stream changes what is read from it. */
  lemma {:induction false} ChunksDoNotMatter(held: Bytes, chunks: seq<Bytes>)
    requires !Complete(held)
    ensures ParseChunks(held, chunks) == Parse(held + Concat(chunks))
    decreases |chunks|
  {
    hide Complete, Parse;
    if chunks == [] {
      assert held + [] == held;
      ParseIncomplete(held);
    } else {
      assert held + Concat(chunks) == held + chunks[0] + Concat(chunks[1..]);
      ParseConcat(held + chunks[0], Concat(chunks[1..]));
      ResidueIncomplete(held + chunks[0]);
      ChunksDoNotMatter(Parse(held + chunks[0]).residue, chunks[1..]);
    }
  }

  lemma {:induction false} FailedResidue(s: Bytes)
    ensures Parse(s).status != Ok ==> Parse(s).residue == []
    decreases |s|
  {
    if Complete(s) && DecodeFirst(s).Success? {
      FailedResidue(s[Target(s)..]);
    }
  }

  // ---------- the octets of each frame ----------

  /** A frame and the octets it was read from. */
  datatype Piece = Piece(frame: Frame, octets: Bytes)

  /** The first frame of `s`, with its octets, if it is not ignored. */
  function FirstPiece(s: Bytes): seq<Piece>
    requires Complete(s) && DecodeFirst(s).Success?
  {
    if DecodeFirst(s).value.Some? then [Piece(DecodeFirst(s).value.value, s[..Target(s)])] else []
  }

  /** The frames `Parse` reads, each with its octets. */
  function Pieces(s: Bytes): seq<Piece>
    decreases |s|
  {
    if !Complete(s) then []
    else
      match DecodeFirst(s)
      case Failure(_) => []
      case Success(_) => FirstPiece(s) + Pieces(s[Target(s)..])
  }

  function FramesIn(ps: seq<Piece>): (r: seq<Frame>)
    ensures |r| == |ps|
  {
    seq(|ps|, i requires 0 <= i < |ps| => ps[i].frame)
  }

  lemma FramesConcat(a: seq<Piece>, b: seq<Piece>)
    ensures FramesIn(a + b) == FramesIn(a) + FramesIn(b)
  {
  }

  lemma {:induction false} PiecesFrames(s: Bytes)
    ensures FramesIn(Pieces(s)) == Parse(s).frames
    decreases |s|
  {
    hide Target, DecodeFirst;
    if Complete(s) && DecodeFirst(s).Success? {
      PiecesFrames(s[Target(s)..]);
      FramesConcat(FirstPiece(s), Pieces(s[Target(s)..]));
    }
  }

  lemma SameFirst(a: Bytes, b: Bytes)
    requires Complete(a)
    ensures Complete(a + b) && Target(a + b) == Target(a) && DecodeFirst(a + b) == DecodeFirst(a)
    ensures (a + b)[..Target(a)] == a[..Target(a)] && (a + b)[Target(a)..] == a[Target(a)..] + b
  {
    hide DecodeRaw, Target;
    TargetOfPrefix(a, b);
  }

  lemma ReadFirst(s: Bytes)
    requires Complete(s)
    ensures DecodeFirst(s).Failure? ==> Pieces(s) == [] && Parse(s).status != Ok
    ensures DecodeFirst(s).Success? ==>
              && Pieces(s) == FirstPiece(s) + Pieces(s[Target(s)..])
              && Parse(s).status == Parse(s[Target(s)..]).status && Parse(s).residue == Parse(s[Target(s)..]).residue
  {
    hide DecodeFirst, Target;
  }

  lemma PiecesIncomplete(a: Bytes, b: Bytes)
    requires !Complete(a)
    ensures Pieces(a) == [] && Parse(a) == Parsed([], a, Ok) && [] + Pieces(a + b) == Pieces(a + b)
  {
  }

  lemma PiecesNext(x: seq<Piece>, y: seq<Piece>, z: seq<Piece>)
    ensures x + (y + z) == (x + y) + z
  {
  }

  lemma {:induction false} PiecesConcat(a: Bytes, b: Bytes)
    ensures Pieces(a + b) == Pieces(a) + if Parse(a).status != Ok then [] else Pieces(Parse(a).residue + b)
    decreases |a|
  {
    if !Complete(a) {
      PiecesIncomplete(a, b);
      hide *;
    } else {
      SameFirst(a, b);
      ReadFirst(a);
      ReadFirst(a + b);
      if DecodeFirst(a).Success? {
        var rest := a[Target(a)..];
        assert |rest| < |a|;
        hide *;
        PiecesConcat(rest, b);
        PiecesNext(FirstPiece(a), Pieces(rest), if Parse(a).status != Ok then [] else Pieces(Parse(a).residue + b));
      }
    }
  }

  /** What a well-formed frame is read from is exactly what it was sent as. */
  lemma {:induction false} PiecesTrip(fs: seq<Frame>)
    requires forall f | f in fs :: FrameTyped(f) && FrameFits(f) && |Payload(f)| < MAX_PAYLOAD
    ensures |Pieces(Stream(fs))| == |fs|
    ensures forall i | 0 <= i < |fs| :: Pieces(Stream(fs))[i] == Piece(CanonFrame(fs[i]), FrameBytes(fs[i]))
  {
    hide FrameBytes, FrameTyped, FrameFits, Payload, DecodeRaw, CanonFrame, Target;
    if fs != [] {
      var rest := Stream(fs[1..]);
      FrameTarget(fs[0], rest);
      DecodeWritten(fs[0]);
      PiecesTrip(fs[1..]);
      assert Pieces(Stream(fs)) == [Piece(CanonFrame(fs[0]), FrameBytes(fs[0]))] + Pieces(rest);
    }
  }
}
