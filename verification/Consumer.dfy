/**
  The consumer loop of examples/amqp_consumer.c, and the way of a message from the publisher's octets,
  through any cutting of the stream, to that loop.
 */
module Consumer {
  import opened Wire
  import opened Framing
  import opened Properties
  import opened Frames
  import opened Decoder
  import opened Publisher

  /** How a run over the frames at hand ends: more frames are needed, or the program stops. */
  datatype Outcome = Waiting | ExpectedHeader | ExpectedBody | TooLong

  /** The bodies received completely, and how the run ends. */
  datatype Consumed = Consumed(bodies: seq<Bytes>, outcome: Outcome)

  predicate Delivers(f: Frame) {
    f.MethodFrame? && f.id == BASIC_DELIVER
  }

  // ---------- what the loop computes ----------

  datatype BodyResult = Complete(body: Bytes, rest: seq<Frame>) | Stopped(outcome: Outcome)

  /** Takes body frames until `target` octets are there. */
  function TakeBody(fs: seq<Frame>, got: Bytes, target: nat): (r: BodyResult)
    ensures r.Complete? ==> |r.rest| <= |fs|
    decreases |fs|
  {
    if |got| >= target then Complete(got, fs)
    else if fs == [] then Stopped(Waiting)
    else if !fs[0].BodyFrame? then Stopped(ExpectedBody)
    else if |got + fs[0].payload| > target then Stopped(TooLong)
    else TakeBody(fs[1..], got + fs[0].payload, target)
  }

  /** What follows the method frame of a message. */
  function TakeContent(fs: seq<Frame>): (r: BodyResult)
    ensures r.Complete? ==> |r.rest| <= |fs|
  {
    if fs == [] then Stopped(Waiting)
    else if !fs[0].HeaderFrame? then Stopped(ExpectedHeader)
    else TakeBody(fs[1..], [], fs[0].bodySize)
  }

  function Consume(fs: seq<Frame>): Consumed
    decreases |fs|
  {
    if fs == [] then Consumed([], Waiting)
    else if !Delivers(fs[0]) then Consume(fs[1..])
    else
      match TakeContent(fs[1..])
      case Stopped(o) => Consumed([], o)
      case Complete(body, rest) =>
        var c := Consume(rest);
        Consumed([body] + c.bodies, c.outcome)
  }

  /** `run`, with the frames amqp_simple_wait_frame returns one after the other. */
  method Run(fs: seq<Frame>) returns (received: nat, bodies: seq<Bytes>, outcome: Outcome)
    ensures Consumed(bodies, outcome) == Consume(fs) && received == |bodies|
  {
    received, bodies, outcome := 0, [], Waiting;
    var next := 0;
    ghost var whole := Consume(fs);
    assert fs[0..] == fs && [] + whole.bodies == whole.bodies;
    while next < |fs|
      invariant next <= |fs| && received == |bodies| && outcome == Waiting
      invariant whole == Consumed(bodies + Consume(fs[next..]).bodies, Consume(fs[next..]).outcome)
      decreases |fs| - next
    {
      var frame := fs[next];
      assert fs[next..][1..] == fs[next + 1..];
      next := next + 1;
      if !Delivers(frame) {
        continue;
      }
      if next == |fs| { assert bodies + [] == bodies; return; }
      frame := fs[next];
      assert fs[next..][1..] == fs[next + 1..];
      next := next + 1;
      if !frame.HeaderFrame? {
        assert bodies + [] == bodies;
        return received, bodies, ExpectedHeader;
      }
      var target, body := frame.bodySize, [];
      ghost var content := TakeBody(fs[next..], [], target);
      while |body| < target
        invariant next <= |fs|
        invariant content == TakeBody(fs[next..], body, target)
        decreases |fs| - next
      {
        if next == |fs| { assert bodies + [] == bodies; return; }
        assert fs[next..][1..] == fs[next + 1..];
        frame := fs[next];
        next := next + 1;
        if !frame.BodyFrame? {
          assert bodies + [] == bodies;
          return received, bodies, ExpectedBody;
        }
        body := body + frame.payload;
        if |body| > target {
          assert bodies + [] == bodies;
          return received, bodies, TooLong;
        }
      }
      assert bodies + ([body] + Consume(fs[next..]).bodies) == bodies + [body] + Consume(fs[next..]).bodies;
      received := received + 1;
      bodies := bodies + [body];
    }
    assert bodies + [] == bodies;
  }

  // ---------- what the frames say about the outcome ----------

  /** Frames other than those of basic.deliver, method 60 of class 60, are passed over in front of a message. */
  lemma {:induction false} OthersSkipped(others: seq<Frame>, rest: seq<Frame>)
    requires forall f | f in others :: !(f.MethodFrame? && f.id == 60 * 0x1_0000 + 60)
    ensures Consume(others + rest) == Consume(rest)
  {
    if others == [] {
      assert [] + rest == rest;
    } else {
      assert (others + rest)[1..] == others[1..] + rest;
      OthersSkipped(others[1..], rest);
    }
  }

  /** A delivery is followed by its content header, or the program stops. */
  lemma DeliveryHeader(f: Frame, rest: seq<Frame>)
    requires f.MethodFrame? && f.id == 60 * 0x1_0000 + 60
    ensures rest == [] ==> Consume([f] + rest) == Consumed([], Waiting)
    ensures rest != [] && !rest[0].HeaderFrame? ==> Consume([f] + rest) == Consumed([], ExpectedHeader)
  {
    assert ([f] + rest)[1..] == rest;
  }

  function Payloads(fs: seq<Frame>): Bytes
    requires forall f | f in fs :: f.BodyFrame?
  {
    if fs == [] then [] else fs[0].payload + Payloads(fs[1..])
  }

  /** What becomes of a body of which `got` is there already: the first `k` frames behind it belong to it, and
      with them it is complete, or the next frame is none of its frames or is too long, or there is none. */
  lemma {:induction false} BodyOutcome(fs: seq<Frame>, got: Bytes, target: nat) returns (k: nat)
    requires |got| <= target
    ensures k <= |fs| && forall f | f in fs[..k] :: f.BodyFrame?
    ensures var all := got + Payloads(fs[..k]);
            match TakeBody(fs, got, target)
            case Complete(body, rest) => body == all && |all| == target && rest == fs[k..]
            case Stopped(o) =>
              && |all| < target
              && match o
                 case Waiting => k == |fs|
                 case ExpectedHeader => false
                 case ExpectedBody => k < |fs| && !fs[k].BodyFrame?
                 case TooLong => k < |fs| && fs[k].BodyFrame? && |all| + |fs[k].payload| > target
  {
    k := 0;
    if |got| < target && fs != [] && fs[0].BodyFrame? && |got + fs[0].payload| <= target {
      var n := BodyOutcome(fs[1..], got + fs[0].payload, target);
      k := n + 1;
      assert fs[..k] == [fs[0]] + fs[1..][..n];
      assert fs[..k][1..] == fs[1..][..n];
      assert got + fs[0].payload + Payloads(fs[1..][..n]) == got + Payloads(fs[..k]);
    } else {
      assert got + [] == got;
    }
  }

  // ---------- the pieces of a body join up again ----------

  /** A body in these pieces, each in a frame of its own. */
  function PieceFrames(channel: nat, pieces: seq<Bytes>): (fs: seq<Frame>)
    ensures |fs| == |pieces| && forall f | f in fs :: f.BodyFrame? && f.channel == channel
  {
    if pieces == [] then [] else [BodyFrame(channel, pieces[0])] + PieceFrames(channel, pieces[1..])
  }

  /** However a body is cut, it is complete with its last piece. */
  predicate Cut(pieces: seq<Bytes>) {
    pieces != [] ==> pieces[|pieces| - 1] != []
  }

  lemma {:induction false} CutIsMore(pieces: seq<Bytes>)
    requires Cut(pieces) && pieces != []
    ensures Concat(pieces) != [] && Cut(pieces[1..])
  {
    if |pieces| > 1 {
      CutIsMore(pieces[1..]);
    }
  }

  lemma NoPieces(fs: seq<Frame>, channel: nat, got: Bytes)
    ensures PieceFrames(channel, []) == [] && TakeBody(fs, got, |got|) == Complete(got, fs)
  {
  }

  lemma FirstPieceFrame(channel: nat, pieces: seq<Bytes>)
    requires pieces != []
    ensures var w := PieceFrames(channel, pieces);
            w != [] && w[0] == BodyFrame(channel, pieces[0]) && w[1..] == PieceFrames(channel, pieces[1..]) && w == [w[0]] + w[1..]
  {
  }

  lemma TakeBodyFirst(fs: seq<Frame>, got: Bytes, target: nat)
    requires |got| < target && fs != []
    ensures !fs[0].BodyFrame? ==> TakeBody(fs, got, target) == Stopped(ExpectedBody)
    ensures fs[0].BodyFrame? && |got + fs[0].payload| <= target ==>
              TakeBody(fs, got, target) == TakeBody(fs[1..], got + fs[0].payload, target)
  {
  }

  lemma {:induction false} PiecesJoin(channel: nat, got: Bytes, pieces: seq<Bytes>, rest: seq<Frame>)
    requires Cut(pieces)
    ensures TakeBody(PieceFrames(channel, pieces) + rest, got, |got + Concat(pieces)|) == Complete(got + Concat(pieces), rest)
    decreases |pieces|
  {
    hide TakeBody, PieceFrames, Cut;
    if pieces == [] {
      NoPieces(rest, channel, got);
      assert got + [] == got && [] + rest == rest;
    } else {
      var fs := PieceFrames(channel, pieces) + rest;
      CutIsMore(pieces);
      FirstPieceFrame(channel, pieces);
      assert fs[0] == BodyFrame(channel, pieces[0]) && fs[1..] == PieceFrames(channel, pieces[1..]) + rest;
      assert got + pieces[0] + Concat(pieces[1..]) == got + Concat(pieces);
      TakeBodyFirst(fs, got, |got + Concat(pieces)|);
      PiecesJoin(channel, got + pieces[0], pieces[1..], rest);
    }
  }

  /** The publisher cuts a body into such pieces. */
  lemma {:induction false} PublisherCuts(channel: nat, body: Bytes, usable: nat) returns (pieces: seq<Bytes>)
    requires usable > 0
    ensures BodyFrames(channel, body, usable) == PieceFrames(channel, pieces) && Concat(pieces) == body && Cut(pieces)
    decreases |body|
  {
    pieces := [];
    if body != [] {
      var n := if |body| >= usable then usable else |body|;
      var more := PublisherCuts(channel, body[n..], usable);
      pieces := [body[..n]] + more;
      assert pieces[1..] == more && body == body[..n] + body[n..];
    }
  }

  /** A content header, and a body in these pieces. */
  function PiecesContent(channel: nat, props: Properties, pieces: seq<Bytes>): seq<Frame> {
    [HeaderFrame(channel, BASIC_CLASS, |Concat(pieces)|, props)] + PieceFrames(channel, pieces)
  }

  lemma CanonBodies(fs: seq<Frame>)
    requires forall f | f in fs :: f.BodyFrame?
    ensures CanonFrames(fs) == fs
  {
    assert forall i | 0 <= i < |fs| :: fs[i] in fs;
  }

  lemma CanonConcat(a: seq<Frame>, b: seq<Frame>)
    ensures CanonFrames(a + b) == CanonFrames(a) + CanonFrames(b)
  {
  }

  lemma ContentShape(channel: nat, props: Properties, pieces: seq<Bytes>, rest: seq<Frame>)
    ensures var fs := CanonFrames(PiecesContent(channel, props, pieces)) + rest;
            && fs != [] && fs[0].HeaderFrame? && fs[0].bodySize == |Concat(pieces)|
            && fs[1..] == PieceFrames(channel, pieces) + rest
  {
    hide PieceFrames, CanonFrames, Concat;
    var head, bodies := HeaderFrame(channel, BASIC_CLASS, |Concat(pieces)|, props), PieceFrames(channel, pieces);
    CanonBodies(bodies);
    CanonConcat([head], bodies);
    assert CanonFrames([head]) == [CanonFrame(head)];
  }

  lemma ContentJoins(channel: nat, props: Properties, pieces: seq<Bytes>, rest: seq<Frame>)
    requires Cut(pieces)
    ensures TakeContent(CanonFrames(PiecesContent(channel, props, pieces)) + rest) == Complete(Concat(pieces), rest)
  {
    hide CanonFrames, PiecesContent, CanonFrame, PieceFrames, TakeBody;
    ContentShape(channel, props, pieces, rest);
    assert [] + Concat(pieces) == Concat(pieces);
    PiecesJoin(channel, [], pieces, rest);
  }

  /** What a publication contains joins up to its body. */
  lemma PublicationJoins(channel: nat, props: Properties, body: Bytes, frameMax: nat, rest: seq<Frame>)
    requires frameMax > HEADER_SIZE + FOOTER_SIZE
    ensures TakeContent(CanonFrames(ContentFrames(channel, props, body, frameMax)) + rest) == Complete(body, rest)
  {
    hide CanonFrames, PieceFrames, TakeContent, BodyFrames;
    var pieces := PublisherCuts(channel, body, frameMax - HEADER_SIZE - FOOTER_SIZE);
    ContentJoins(channel, props, pieces, rest);
  }

  // ---------- messages ----------

  /** A message as the broker delivers it, its body in any pieces. */
  datatype Message = Message(channel: nat, delivery: seq<Field>, props: Properties, pieces: seq<Bytes>)

  /** Everything fits its format, and every frame the size field of its header. */
  predicate MessageOk(m: Message) {
    && m.channel < TWO16 && |Concat(m.pieces)| < TWO64
    && AllTyped(Schema(BASIC_DELIVER).value, m.delivery) && FitFields(Schema(BASIC_DELIVER).value, m.delivery)
    && PropsTyped(BASIC_CLASS, m.props) && PropsFit(BASIC_CLASS, m.props)
    && |EncProps(BASIC_CLASS, m.props)| < MAX_PAYLOAD - 12 && forall piece | piece in m.pieces :: |piece| < MAX_PAYLOAD
  }

  /** The header announces a body that is complete with the last piece. */
  predicate AllCut(ms: seq<Message>) {
    forall m | m in ms :: Cut(m.pieces)
  }

  function MessageFrames(m: Message): seq<Frame> {
    [MethodFrame(m.channel, BASIC_DELIVER, m.delivery)] + PiecesContent(m.channel, m.props, m.pieces)
  }

  function AllFrames(ms: seq<Message>): seq<Frame> {
    if ms == [] then [] else MessageFrames(ms[0]) + AllFrames(ms[1..])
  }

  function Bodies(ms: seq<Message>): seq<Bytes> {
    if ms == [] then [] else [Concat(ms[0].pieces)] + Bodies(ms[1..])
  }

  lemma MessageConsumed(m: Message, tail: seq<Frame>)
    requires Cut(m.pieces)
    ensures Consume(CanonFrames(MessageFrames(m)) + tail)
            == Consumed([Concat(m.pieces)] + Consume(tail).bodies, Consume(tail).outcome)
  {
    hide PiecesContent, TakeContent, Concat, Cut;
    var method_ := MethodFrame(m.channel, BASIC_DELIVER, m.delivery);
    var content := PiecesContent(m.channel, m.props, m.pieces);
    var fs := CanonFrames(MessageFrames(m)) + tail;
    CanonConcat([method_], content);
    assert fs[0] == CanonFrame(method_) && fs[1..] == CanonFrames(content) + tail;
    ContentJoins(m.channel, m.props, m.pieces, tail);
  }

  lemma NothingConsumed()
    ensures Consume(CanonFrames([])) == Consumed([], Waiting)
  {
  }

  /** The loop receives exactly the bodies of the messages and waits for more. */
  lemma {:induction false} MessagesConsumed(ms: seq<Message>)
    requires AllCut(ms)
    ensures Consume(CanonFrames(AllFrames(ms))) == Consumed(Bodies(ms), Waiting)
  {
    hide MessageFrames, CanonFrames, Consume, Concat, Cut;
    if ms == [] {
      NothingConsumed();
    } else {
      var rest := AllFrames(ms[1..]);
      CanonConcat(MessageFrames(ms[0]), rest);
      MessageConsumed(ms[0], CanonFrames(rest));
      MessagesConsumed(ms[1..]);
    }
  }

  // ---------- heartbeats ----------

  /** The frames the waiting function returns: it swallows heartbeats. */
  function WithoutHeartbeats(fs: seq<Frame>): seq<Frame> {
    if fs == [] then []
    else (if fs[0].HeartbeatFrame? then [] else [fs[0]]) + WithoutHeartbeats(fs[1..])
  }

  lemma {:induction false} CanonWithoutHeartbeats(fs: seq<Frame>)
    ensures WithoutHeartbeats(CanonFrames(fs)) == CanonFrames(WithoutHeartbeats(fs))
  {
    if fs != [] {
      CanonWithoutHeartbeats(fs[1..]);
      assert CanonFrames(fs)[1..] == CanonFrames(fs[1..]);
      CanonConcat(if fs[0].HeartbeatFrame? then [] else [fs[0]], WithoutHeartbeats(fs[1..]));
    }
  }

  lemma {:induction false} WithoutConcat(a: seq<Frame>, b: seq<Frame>)
    ensures WithoutHeartbeats(a + b) == WithoutHeartbeats(a) + WithoutHeartbeats(b)
  {
    if a == [] {
      assert a + b == b;
    } else {
      assert (a + b)[1..] == a[1..] + b;
      WithoutConcat(a[1..], b);
    }
  }

  predicate Quiet(fs: seq<Frame>) {
    forall f | f in fs :: !f.HeartbeatFrame?
  }

  lemma {:induction false} QuietStays(fs: seq<Frame>)
    requires Quiet(fs)
    ensures WithoutHeartbeats(fs) == fs
  {
    if fs != [] {
      QuietStays(fs[1..]);
    }
  }

  /** The frames are those of the messages, in order, and heartbeats stand only between messages. */
  predicate OnlyBetween(fs: seq<Frame>, ms: seq<Message>)
    decreases |fs|
  {
    if fs == [] then ms == []
    else if fs[0].HeartbeatFrame? then OnlyBetween(fs[1..], ms)
    else
      && ms != []
      && var m := CanonFrames(MessageFrames(ms[0]));
         m <= fs && OnlyBetween(fs[|m|..], ms[1..])
  }

  lemma WithoutFirst(fs: seq<Frame>)
    ensures WithoutHeartbeats(fs) != [] ==> fs != []
    ensures fs != [] && !fs[0].HeartbeatFrame? ==>
              WithoutHeartbeats(fs) == [fs[0]] + WithoutHeartbeats(fs[1..])
              && WithoutHeartbeats(fs)[1..] == WithoutHeartbeats(fs[1..])
  {
  }

  lemma FirstSplit(fs: seq<Frame>, rest: seq<Frame>, m: seq<Frame>, w: seq<Frame>, tail: seq<Frame>)
    requires fs != [] && m != [] && m == [m[0]] + w && [fs[0]] + rest == m + tail
    ensures fs[0] == m[0] && rest == w + tail && (m <= fs <==> w <= fs[1..])
    ensures m <= fs ==> fs[1..][|w|..] == fs[|m|..]
  {
    assert ([fs[0]] + rest)[0] == fs[0] && (m + tail)[0] == m[0];
    assert ([fs[0]] + rest)[1..] == rest && (m + tail)[1..] == w + tail;
    assert fs == [fs[0]] + fs[1..];
  }

  /** A heartbeat among the pieces of a body stops the loop; otherwise the body is received. */
  lemma {:induction false} BodyUndisturbedIff(fs: seq<Frame>, channel: nat, got: Bytes, pieces: seq<Bytes>, tail: seq<Frame>)
    requires Cut(pieces) && WithoutHeartbeats(fs) == PieceFrames(channel, pieces) + tail
    ensures var w, body := PieceFrames(channel, pieces), got + Concat(pieces);
            var r := TakeBody(fs, got, |body|);
            if w <= fs then r == Complete(body, fs[|w|..]) && WithoutHeartbeats(fs[|w|..]) == tail
            else r == Stopped(ExpectedBody)
    decreases |pieces|
  {
    hide PieceFrames, WithoutHeartbeats, TakeBody;
    if pieces == [] {
      NoPieces(fs, channel, got);
      assert got + [] == got && [] + tail == tail;
    } else {
      var w := PieceFrames(channel, pieces);
      FirstPieceFrame(channel, pieces);
      CutIsMore(pieces);
      WithoutFirst(fs);
      TakeBodyFirst(fs, got, |got + Concat(pieces)|);
      if !fs[0].HeartbeatFrame? {
        FirstSplit(fs, WithoutHeartbeats(fs[1..]), w, w[1..], tail);
        assert got + pieces[0] + Concat(pieces[1..]) == got + Concat(pieces);
        BodyUndisturbedIff(fs[1..], channel, got + pieces[0], pieces[1..], tail);
      }
    }
  }

  lemma {:induction false} ContentUndisturbedIff(fs: seq<Frame>, m: Message, tail: seq<Frame>)
    requires Cut(m.pieces) && WithoutHeartbeats(fs) == CanonFrames(PiecesContent(m.channel, m.props, m.pieces)) + tail
    ensures var w, r := CanonFrames(PiecesContent(m.channel, m.props, m.pieces)), TakeContent(fs);
            if w <= fs then r == Complete(Concat(m.pieces), fs[|w|..]) && WithoutHeartbeats(fs[|w|..]) == tail
            else r.Stopped? && r.outcome != Waiting
  {
    hide PieceFrames, CanonFrames, PiecesContent, TakeBody, Cut;
    var w := CanonFrames(PiecesContent(m.channel, m.props, m.pieces));
    ContentShape(m.channel, m.props, m.pieces, tail);
    ContentShape(m.channel, m.props, m.pieces, []);
    assert w + [] == w;
    var bodies := PieceFrames(m.channel, m.pieces);
    assert bodies + [] == bodies && w[1..] == bodies;
    assert fs != [];
    if !fs[0].HeartbeatFrame? {
      assert WithoutHeartbeats(fs)[1..] == WithoutHeartbeats(fs[1..]) && (w + tail)[1..] == bodies + tail;
      assert fs[0] == w[0];
      assert [] + Concat(m.pieces) == Concat(m.pieces);
      BodyUndisturbedIff(fs[1..], m.channel, [], m.pieces, tail);
      assert w <= fs <==> bodies <= fs[1..];
    }
  }

  lemma NoBodies()
    ensures Bodies([]) == []
  {
  }

  lemma AllFirst(ms: seq<Message>)
    requires ms != []
    ensures AllFrames(ms) == MessageFrames(ms[0]) + AllFrames(ms[1..])
    ensures Bodies(ms) == [Concat(ms[0].pieces)] + Bodies(ms[1..])
  {
  }

  lemma ConsumeFirst(fs: seq<Frame>)
    requires fs != []
    ensures Delivers(fs[0]) ==>
              Consume(fs) ==
              match TakeContent(fs[1..])
              case Stopped(o) => Consumed([], o)
              case Complete(body, rest) => Consumed([body] + Consume(rest).bodies, Consume(rest).outcome)
  {
  }

  lemma MessageShape(m: Message)
    ensures var w, fs := CanonFrames(PiecesContent(m.channel, m.props, m.pieces)), CanonFrames(MessageFrames(m));
            fs != [] && Delivers(fs[0]) && fs[1..] == w && fs == [fs[0]] + w
  {
    hide PiecesContent;
    var method_ := MethodFrame(m.channel, BASIC_DELIVER, m.delivery);
    CanonConcat([method_], PiecesContent(m.channel, m.props, m.pieces));
    assert CanonFrames([method_]) == [CanonFrame(method_)];
  }

  /** What the frames hold behind the method frame of the first message. */
  lemma {:induction false} MessageFirst(fs: seq<Frame>, ms: seq<Message>)
    requires fs != [] && !fs[0].HeartbeatFrame? && ms != []
    requires WithoutHeartbeats(fs) == CanonFrames(AllFrames(ms))
    ensures var w, m := CanonFrames(PiecesContent(ms[0].channel, ms[0].props, ms[0].pieces)),
                        CanonFrames(MessageFrames(ms[0]));
            && Delivers(fs[0]) && (m <= fs <==> w <= fs[1..]) && (w <= fs[1..] ==> fs[1..][|w|..] == fs[|m|..])
            && WithoutHeartbeats(fs[1..]) == w + CanonFrames(AllFrames(ms[1..]))
  {
    AllFirst(ms);
    hide *;
    var m, tail := CanonFrames(MessageFrames(ms[0])), CanonFrames(AllFrames(ms[1..]));
    MessageShape(ms[0]);
    CanonConcat(MessageFrames(ms[0]), AllFrames(ms[1..]));
    WithoutFirst(fs);
    FirstSplit(fs, WithoutHeartbeats(fs[1..]), m, m[1..], tail);
  }

  lemma SameTail(x: Bytes, a: seq<Bytes>, b: seq<Bytes>)
    ensures [x] + a == [x] + b <==> a == b
  {
    assert ([x] + a)[1..] == a && ([x] + b)[1..] == b;
  }

  /** The first message, and what follows it. */
  lemma {:induction false} MessageConsumedIff(fs: seq<Frame>, ms: seq<Message>)
    requires fs != [] && !fs[0].HeartbeatFrame? && ms != [] && AllCut(ms)
    requires WithoutHeartbeats(fs) == CanonFrames(AllFrames(ms))
    ensures var m := CanonFrames(MessageFrames(ms[0]));
            if m <= fs then
              && WithoutHeartbeats(fs[|m|..]) == CanonFrames(AllFrames(ms[1..]))
              && (Consume(fs) == Consumed(Bodies(ms), Waiting) <==> Consume(fs[|m|..]) == Consumed(Bodies(ms[1..]), Waiting))
            else Consume(fs) != Consumed(Bodies(ms), Waiting)
  {
    MessageFirst(fs, ms);
    AllFirst(ms);
    ConsumeFirst(fs);
    assert ms[0] in ms && Cut(ms[0].pieces);
    hide *;
    ContentUndisturbedIff(fs[1..], ms[0], CanonFrames(AllFrames(ms[1..])));
    var m := CanonFrames(MessageFrames(ms[0]));
    if m <= fs {
      SameTail(Concat(ms[0].pieces), Consume(fs[|m|..]).bodies, Bodies(ms[1..]));
    }
  }

  lemma NoFrames(ms: seq<Message>)
    ensures CanonFrames(AllFrames(ms)) == [] <==> ms == []
  {
  }

  /** The loop receives exactly the bodies of the messages if and only if no heartbeat stands between the
      frames of a message. */
  lemma {:induction false} ConsumedIff(fs: seq<Frame>, ms: seq<Message>)
    requires AllCut(ms) && WithoutHeartbeats(fs) == CanonFrames(AllFrames(ms))
    ensures Consume(fs) == Consumed(Bodies(ms), Waiting) <==> OnlyBetween(fs, ms)
    decreases |fs|
  {
    hide CanonFrames, MessageFrames, TakeContent, Bodies, Cut;
    if fs == [] {
      NoFrames(ms);
      NoBodies();
    } else if fs[0].HeartbeatFrame? {
      assert [] + WithoutHeartbeats(fs[1..]) == WithoutHeartbeats(fs[1..]);
      ConsumedIff(fs[1..], ms);
    } else {
      WithoutFirst(fs);
      NoFrames(ms);
      MessageConsumedIff(fs, ms);
      var m := CanonFrames(MessageFrames(ms[0]));
      MessageShape(ms[0]);
      if m <= fs {
        ConsumedIff(fs[|m|..], ms[1..]);
      }
    }
  }

  /** A heartbeat between the header and the body of a message stops the program. */
  lemma HeartbeatInside(deliver: Frame, header: Frame, heartbeat: Frame, rest: seq<Frame>)
    requires Delivers(deliver) && header.HeaderFrame? && header.bodySize > 0 && heartbeat.HeartbeatFrame?
    ensures Consume([deliver, header, heartbeat] + rest) == Consumed([], ExpectedBody)
  {
    var fs := [deliver, header, heartbeat] + rest;
    assert fs[1..] == [header, heartbeat] + rest && fs[1..][1..] == [heartbeat] + rest;
  }

  // ---------- from end to end ----------

  /** The frame fits its wire format, and its size fits the header. */
  predicate Sendable(f: Frame)
    requires FrameTyped(f)
  {
    FrameFits(f) && |Payload(f)| < MAX_PAYLOAD
  }

  lemma FirstField(ks: seq<FieldKind>, fs: seq<Field>)
    requires ks != [] && AllTyped(ks, fs) && FitFields(ks, fs)
    requires ks[0] == ShortStr || ks[0] == Num(8) || ks[0] == Bits(1)
    ensures AllTyped(ks[1..], fs[1..]) && FitFields(ks[1..], fs[1..])
    ensures |EncFields(ks, fs)| <= |EncFields(ks[1..], fs[1..])| + if ks[0].ShortStr? then 256 else if ks[0].Num? then 8 else 1
    ensures EncFields([], []) == []
  {
    assert Typed(ks[0], fs[0]) && FitsField(ks[0], fs[0]);
  }

  /** Three short strings, a delivery tag and a bit are not many octets. */
  lemma DeliverySize(fs: seq<Field>)
    requires AllTyped(Schema(BASIC_DELIVER).value, fs) && FitFields(Schema(BASIC_DELIVER).value, fs)
    ensures |EncFields(Schema(BASIC_DELIVER).value, fs)| <= 3 * 256 + 9
  {
    var ks := [ShortStr, Num(8), Bits(1), ShortStr, ShortStr];
    assert Schema(BASIC_DELIVER) == Some(ks);
    hide Schema;
    FirstField(ks, fs);
    FirstField(ks[1..], fs[1..]);
    FirstField(ks[2..], fs[2..]);
    FirstField(ks[3..], fs[3..]);
    FirstField(ks[4..], fs[4..]);
  }

  lemma {:induction false} PieceFrom(channel: nat, pieces: seq<Bytes>)
    ensures forall f | f in PieceFrames(channel, pieces) :: f.BodyFrame? && f.payload in pieces
  {
    if pieces != [] {
      PieceFrom(channel, pieces[1..]);
    }
  }

  /** Every frame of a message whose parts fit is well-formed. */
  lemma MessageSendable(m: Message)
    requires MessageOk(m)
    ensures forall f | f in MessageFrames(m) :: FrameTyped(f) && Sendable(f)
  {
    DeliverySize(m.delivery);
    hide PropsTyped, PropsFit, EncFields, FitFields, EncProps, Concat;
    PieceFrom(m.channel, m.pieces);
    forall f | f in MessageFrames(m)
      ensures FrameTyped(f) && Sendable(f)
    {
    }
  }

  lemma HeartbeatSendable(f: Frame)
    requires f.HeartbeatFrame? && FrameTyped(f)
    ensures Sendable(f)
  {
  }

  lemma {:induction false} MessageOf(f: Frame, ms: seq<Message>) returns (m: Message)
    requires f in AllFrames(ms)
    ensures m in ms && f in MessageFrames(m)
  {
    hide MessageFrames;
    m := ms[0];
    if f !in MessageFrames(m) {
      m := MessageOf(f, ms[1..]);
    }
  }

  /** Every frame of a stream of messages and heartbeats is well-formed. */
  lemma {:induction false} AllSendable(fs: seq<Frame>, ms: seq<Message>)
    requires (forall m | m in ms :: MessageOk(m)) && (forall f | f in fs :: FrameTyped(f))
    requires forall f | f in WithoutHeartbeats(fs) :: f in AllFrames(ms)
    ensures forall f | f in fs :: Sendable(f)
  {
    hide FrameTyped, FrameFits, Payload, MessageOk;
    if fs != [] {
      assert forall f | f in fs[1..] :: f in fs;
      assert forall f | f in WithoutHeartbeats(fs[1..]) :: f in WithoutHeartbeats(fs);
      AllSendable(fs[1..], ms);
      if fs[0].HeartbeatFrame? {
        HeartbeatSendable(fs[0]);
      } else {
        assert fs[0] in WithoutHeartbeats(fs);
        var m := MessageOf(fs[0], ms);
        MessageSendable(m);
      }
      assert forall f | f in fs :: f == fs[0] || f in fs[1..];
    }
  }

  /** A stream of messages, their bodies in any pieces, with heartbeats anywhere, cut into chunks anywhere:
      it is decoded without an error and without a rest, and behind a waiting function that swallows the
      heartbeats the consumer receives exactly the bodies, in order. */
  lemma EndToEnd(ms: seq<Message>, fs: seq<Frame>, chunks: seq<Bytes>)
    requires AllCut(ms) && forall m | m in ms :: MessageOk(m)
    requires forall f | f in fs :: FrameTyped(f)
    requires WithoutHeartbeats(fs) == AllFrames(ms)
    requires Concat(chunks) == Stream(fs)
    ensures var p := ParseChunksAt(Position(false, []), chunks);
            && p.status == Ok && p.residue == []
            && Consume(WithoutHeartbeats(p.frames)) == Consumed(Bodies(ms), Waiting)
  {
    hide FrameTyped, FrameFits, Frames.Payload, CanonFrames, Stream, Parse, MessageOk, Cut;
    AllSendable(fs, ms);
    ChunksDoNotMatterAt(Position(false, []), chunks);
    assert [] + Concat(chunks) == Stream(fs);
    StreamTrip(fs);
    CanonWithoutHeartbeats(fs);
    MessagesConsumed(ms);
  }

  /** What a successful publication wrote, cut into chunks anywhere, is read back as a publish method
      followed by content whose pieces join up to exactly the body. */
  lemma PublicationArrives(method_: Frame, channel: nat, props: Properties, body: Bytes, frameMax: nat, chunks: seq<Bytes>)
    requires frameMax > HEADER_SIZE + FOOTER_SIZE
    requires forall f | f in [method_] + ContentFrames(channel, props, body, frameMax) :: FrameTyped(f) && Sendable(f)
    requires Concat(chunks) == Stream([method_] + ContentFrames(channel, props, body, frameMax))
    ensures var p := ParseChunksAt(Position(false, []), chunks);
            && p.status == Ok && p.residue == []
            && p.frames != [] && p.frames[0] == CanonFrame(method_)
            && TakeContent(p.frames[1..]) == Complete(body, [])
  {
    hide FrameTyped, FrameFits, Frames.Payload, Stream, Parse, CanonFrame, ContentFrames;
    var content := ContentFrames(channel, props, body, frameMax);
    var fs := [method_] + content;
    ChunksDoNotMatterAt(Position(false, []), chunks);
    assert [] + Concat(chunks) == Stream(fs);
    StreamTrip(fs);
    CanonConcat([method_], content);
    assert CanonFrames(fs)[1..] == CanonFrames(content) + [];
    PublicationJoins(channel, props, body, frameMax, []);
  }

  lemma PublishFits(channel: nat, exchange: Bytes, routingKey: Bytes, mandatory: int, immediate: int)
    requires channel < TWO16 && |exchange| <= 255 && |routingKey| <= 255
    ensures var m := PublishMethod(channel, exchange, routingKey, mandatory, immediate); FrameTyped(m) && FrameFits(m)
  {
    PublishMethodTyped(channel, exchange, routingKey, mandatory, immediate);
    var ks := [Num(2), ShortStr, ShortStr, Bits(2)];
    var fs := [NumF(0), StrF(exchange), StrF(routingKey), BitsF([mandatory, immediate])];
    assert Schema(BASIC_PUBLISH) == Some(ks);
    hide Schema;
    assert FitFields(ks[4..], fs[4..]) && FitFields(ks[3..], fs[3..]);
    assert ks[1..][1..] == ks[2..] && fs[1..][1..] == fs[2..] && ks[2..][1..] == ks[3..] && fs[2..][1..] == fs[3..];
    assert FitFields(ks[2..], fs[2..]);
    assert FitFields(ks[1..], fs[1..]);
  }

  /** The frames of a publication that fit their frames and whose strings fit their formats are well-formed. */
  lemma PublicationSendable(channel: nat, exchange: Bytes, routingKey: Bytes, mandatory: int, immediate: int,
                            props: Properties, body: Bytes, frameMax: nat)
    requires channel < TWO16 && |body| < TWO64 && PropsTyped(BASIC_CLASS, props)
    requires HEADER_SIZE + FOOTER_SIZE < frameMax < TWO32
    requires |exchange| <= 255 && |routingKey| <= 255 && PropsFit(BASIC_CLASS, props)
    requires var m := PublishMethod(channel, exchange, routingKey, mandatory, immediate);
             var content := ContentFrames(channel, props, body, frameMax);
             (forall f | f in [m] + content :: FrameTyped(f) && |FrameBytes(f)| <= frameMax)
    ensures var m := PublishMethod(channel, exchange, routingKey, mandatory, immediate);
            forall f | f in [m] + ContentFrames(channel, props, body, frameMax) :: FrameTyped(f) && Sendable(f)
  {
    hide PropsTyped, PropsFit, FrameBytes, Payload, FrameTyped;
    var m := PublishMethod(channel, exchange, routingKey, mandatory, immediate);
    var content := ContentFrames(channel, props, body, frameMax);
    PublishFits(channel, exchange, routingKey, mandatory, immediate);
    forall f | f in [m] + content
      ensures FrameTyped(f) && Sendable(f)
    {
      assert FrameTyped(f);
      if f != m && f != content[0] {
        assert f in BodyFrames(channel, body, frameMax - HEADER_SIZE - FOOTER_SIZE);
      }
    }
  }

  /** From end to end for one publication: what `Publisher.Publish` writes when it succeeds, cut into
      chunks anywhere, is read back as the publish method and content that joins up to the body. */
  lemma PublishedArrives(channel: nat, exchange: Bytes, routingKey: Bytes, mandatory: int, immediate: int,
                         props: Properties, body: Bytes, frameMax: nat, chunks: seq<Bytes>)
    requires channel < TWO16 && |body| < TWO64 && PropsTyped(BASIC_CLASS, props)
    requires HEADER_SIZE + FOOTER_SIZE < frameMax < TWO32
    requires |exchange| <= 255 && |routingKey| <= 255 && PropsFit(BASIC_CLASS, props)
    requires var fs := [PublishMethod(channel, exchange, routingKey, mandatory, immediate)] + ContentFrames(channel, props, body, frameMax);
             (forall f | f in fs :: FrameTyped(f) && |FrameBytes(f)| <= frameMax) && Concat(chunks) == Stream(fs)
    ensures var p := ParseChunksAt(Position(false, []), chunks);
            && p.status == Ok && p.residue == [] && p.frames != []
            && p.frames[0] == CanonFrame(PublishMethod(channel, exchange, routingKey, mandatory, immediate))
            && TakeContent(p.frames[1..]) == Complete(body, [])
  {
    hide FrameTyped, FrameBytes, PublishMethod, ContentFrames, Stream, Sendable, PropsTyped, PropsFit;
    PublicationSendable(channel, exchange, routingKey, mandatory, immediate, props, body, frameMax);
    PublicationArrives(PublishMethod(channel, exchange, routingKey, mandatory, immediate), channel, props, body, frameMax, chunks);
  }
}
