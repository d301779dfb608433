/**
  The resumable decoder without its memory: where it stands in the stream, what one call of
  amqp_handle_input does with the octets it is given, and why calls add up to `Parse`.
 */
module Decoder {
  import opened Wire
  import opened Framing
  import opened Properties
  import opened Frames

  /** `held` are the octets received since the last frame boundary.  Before the first frame a protocol
      header may arrive instead. */
  datatype Position = Position(initial: bool, held: Bytes)

  /** The frame's size wrapped around to less than was received already. */
  predicate Dead(held: Bytes) {
    |held| >= HEADER_SIZE && Target(held) < |held|
  }

  predicate PositionOk(p: Position) {
    if p.initial then |p.held| < 8
    else Complete(p.held) ==> Dead(p.held) || (|p.held| == Target(p.held) && DecodeRaw(p.held).Failure?)
  }

  /** No call has failed yet: what was received is not a complete frame. */
  predicate Running(p: Position) {
    PositionOk(p) && (Complete(p.held) ==> p.initial)
  }

  const AMQP: Bytes := ['A' as int, 'M' as int, 'Q' as int, 'P' as int]

  /** The first frame loses its eighth octet: it was read with the header but is not copied along. */
  function Patched(t: Bytes): (r: Bytes)
    requires |t| >= 8
    ensures |r| == |t|
  {
    t[..7] + [0] + t[8..]
  }

  /** The size of the first frame wrapped around to less than the eight octets received with its header. */
  predicate FirstWraps(t: Bytes)
    requires |t| >= 8
  {
    0 < Target(t) < 8
  }

  /** What the octets `data` mean at position `p`. */
  function ParseAt(p: Position, data: Bytes): Parsed {
    var t := p.held + data;
    if !p.initial then (if Dead(p.held) then Parsed([], [], Undefined) else Parse(t))
    else if |t| < 8 then Parsed([], t, Ok)
    else if t[..4] == AMQP then Prepend([HeaderFrameOf(t)], Parse(t[8..]))
    else if FirstWraps(Patched(t)) then Parsed([], [], Undefined)
    else Parse(Patched(t))
  }

  function After(p: Position, data: Bytes): Position {
    Position(p.initial && |p.held + data| < 8, ParseAt(p, data).residue)
  }

  // ---------- one call ----------

  /** `octets` are those of the frame reported. */
  datatype StepResult = StepResult(position: Position, consumed: int, frame: Option<Frame>, octets: Bytes, status: Status)

  /** Continues within a frame whose octets so far, with the new ones, are `t`; `start` octets were there
      when its size became known. */
  function StepFramed(t: Bytes, held: nat, start: nat): StepResult
    requires Complete(t) ==> start <= |t|
  {
    if !Complete(t) then StepResult(Position(false, t), |t| - held, None, [], Ok)
    else
      var n := Target(t);
      match DecodeFirst(t)
      case Success(f) => StepResult(Position(false, []), n - held, f, if f.Some? then t[..n] else [], Ok)
      case Failure(e) => StepResult(Position(false, if n < start then t[..start] else t[..n]), 0, None, [], e)
  }

  function FirstStep(t: Bytes, held: nat): StepResult
    requires |t| >= 8
  {
    if FirstWraps(t) then StepResult(Position(false, t[..8]), 0, None, [], Undefined)
    else StepFramed(t, held, 8)
  }

  function Step(p: Position, data: Bytes): StepResult {
    var t := p.held + data;
    if data == [] then StepResult(p, 0, None, [], Ok)
    else if !p.initial then
      (if Dead(p.held) then StepResult(p, 0, None, [], Undefined) else StepFramed(t, |p.held|, HEADER_SIZE))
    else if |t| < 8 then StepResult(Position(true, t), |data|, None, [], Ok)
    else if t[..4] == AMQP then StepResult(Position(false, []), 8 - |p.held|, Some(HeaderFrameOf(t)), t[..8], Ok)
    else FirstStep(Patched(t), |p.held|)
  }

  lemma StepFramedParses(t: Bytes, held: nat, start: nat)
    requires held <= |t| && (Complete(t) ==> start <= |t|)
    requires Complete(t) && DecodeFirst(t).Success? ==> held <= Target(t)
    ensures var r := StepFramed(t, held, start);
            if r.status != Ok then Parse(t) == Parsed([], [], r.status)
            else Parse(t) == Prepend(AsSeq(r.frame), Parse(r.position.held + t[held + r.consumed..]))
                 && !Complete(r.position.held)
  {
    hide DecodeFirst, Target;
    var r := StepFramed(t, held, start);
    if !Complete(t) {
      assert t[held + r.consumed..] == [] && t + [] == t;
      assert [] + Parse(t).frames == Parse(t).frames;
    } else if r.status == Ok {
      assert [] + t[Target(t)..] == t[Target(t)..];
    }
  }

  lemma CompleteSize(s: Bytes)
    requires Complete(s)
    ensures |s| >= HEADER_SIZE
  {
  }

  lemma SameTarget(s: Bytes, t: Bytes)
    requires |s| >= HEADER_SIZE && |t| >= HEADER_SIZE && forall i | 0 <= i < HEADER_SIZE :: s[i] == t[i]
    ensures Target(s) == Target(t)
  {
  }

  /** The result of a call within a frame is again a position, and progress was made. */
  lemma StepFramedOk(t: Bytes, held: nat, prefix: Bytes, start: nat)
    requires prefix <= t && held <= |prefix| && held < |t| && HEADER_SIZE <= start && (Complete(t) ==> start <= |t|)
    requires Complete(t) && Target(t) < start ==> Target(t) < HEADER_SIZE
    requires Complete(t) && Target(t) >= start && Complete(prefix) ==>
               |prefix| == Target(prefix) && (held < |prefix| || DecodeRaw(prefix).Failure?)
    ensures var r := StepFramed(t, held, start);
            && PositionOk(r.position) && !r.position.initial
            && (r.status == Ok ==> 1 <= r.consumed <= |t| - held)
            && (Complete(t) && DecodeFirst(t).Success? ==> held <= Target(t))
  {
    hide DecodeRaw, Target;
    if Complete(t) {
      var n := Target(t);
      var m := if n < start then start else n;
      SameTarget(t, t[..m]);
      assert t[..n][..n] == t[..n];
      if n >= start && |prefix| >= HEADER_SIZE {
        SameTarget(prefix, t);
        if |prefix| == n {
          assert t[..n] == prefix;
        }
      }
    }
  }

  lemma StepWithin(held: Bytes, data: Bytes)
    requires data != [] && (Complete(held) ==> |held| == Target(held) && DecodeRaw(held).Failure?)
    ensures var r := StepFramed(held + data, |held|, HEADER_SIZE);
            && PositionOk(r.position) && !r.position.initial
            && (r.status != Ok ==> Parse(held + data) == Parsed([], [], r.status))
            && (r.status == Ok ==>
                  && 1 <= r.consumed <= |data|
                  && Running(r.position)
                  && Parse(held + data) == Prepend(AsSeq(r.frame), Parse(r.position.held + data[r.consumed..])))
    ensures Complete(held + data) && DecodeFirst(held + data).Success? ==> |held| <= Target(held + data)
  {
    hide DecodeFirst, DecodeRaw, Parse, Target, StepFramed, PositionOk, Complete;
    var t := held + data;
    if Complete(t) {
      CompleteSize(t);
    }
    StepFramedOk(t, |held|, held, HEADER_SIZE);
    StepFramedParses(t, |held|, HEADER_SIZE);
    var r := StepFramed(t, |held|, HEADER_SIZE);
    if r.status == Ok {
      assert data[r.consumed..] == t[|held| + r.consumed..];
    }
  }

  lemma FirstStepParses(held: Bytes, data: Bytes)
    requires |held| < 8 <= |held + data|
    ensures var t := Patched(held + data);
            var r := FirstStep(t, |held|);
            && PositionOk(r.position) && !r.position.initial
            && (FirstWraps(t) ==> r.status == Undefined)
            && (!FirstWraps(t) && r.status != Ok ==> Parse(t) == Parsed([], [], r.status))
            && (r.status == Ok ==>
                  && 1 <= r.consumed <= |data|
                  && Running(r.position)
                  && Parse(t) == Prepend(AsSeq(r.frame), Parse(r.position.held + data[r.consumed..])))
    ensures var t := Patched(held + data); !FirstWraps(t) && Complete(t) && DecodeFirst(t).Success? ==> |held| <= Target(t)
  {
    hide DecodeFirst, DecodeRaw, Parse, Target;
    var t := Patched(held + data);
    SameTarget(t, t[..8]);
    if !FirstWraps(t) {
      StepFramedOk(t, |held|, t[..8], 8);
      StepFramedParses(t, |held|, 8);
      var r := StepFramed(t, |held|, 8);
      if r.status == Ok {
        assert data[r.consumed..] == t[|held| + r.consumed..];
      }
    }
  }

  lemma BoundaryRuns()
    ensures Running(Position(false, []))
  {
  }

  /** A call on a non-empty chunk reads at least one octet and no more than given, it reports what
      stands first in the stream, and the rest of the chunk is read from where it stopped. */
  lemma StepParses(p: Position, data: Bytes)
    requires PositionOk(p) && data != []
    ensures var r := Step(p, data);
            && PositionOk(r.position)
            && (r.status != Ok ==> ParseAt(p, data) == Parsed([], [], r.status))
            && (r.status == Ok ==>
                  && 1 <= r.consumed <= |data|
                  && Running(r.position)
                  && ParseAt(p, data) == Prepend(AsSeq(r.frame), ParseAt(r.position, data[r.consumed..])))
  {
    hide DecodeRaw, Parse, Target, StepFramed, DecodeFirst;
    var t, r := p.held + data, Step(p, data);
    if !p.initial {
      if !Dead(p.held) {
        StepWithin(p.held, data);
      }
    } else if |t| < 8 {
      assert t + [] == t;
    } else if t[..4] == AMQP {
      assert [] + t[8..] == t[8..];
      assert data[r.consumed..] == t[8..];
      BoundaryRuns();
    } else {
      FirstStepParses(p.held, data);
    }
  }

  /** Without a complete header nothing happens but that octets are kept. */
  lemma NotComplete(t: Bytes, held: nat)
    requires |t| < HEADER_SIZE
    ensures StepFramed(t, held, HEADER_SIZE) == StepResult(Position(false, t), |t| - held, None, [], Ok)
  {
  }

  /** Only the number of octets consumed depends on where the call started. */
  lemma FromStart(t: Bytes, held: nat, start: nat)
    requires |t| >= start >= HEADER_SIZE
    ensures var a, b := StepFramed(t, held, start), StepFramed(t, start, start);
            a == b.(consumed := a.consumed) && (b.status == Ok ==> a.consumed == b.consumed + start - held)
    ensures start == 8 ==>
              var a, b := FirstStep(t, held), FirstStep(t, start);
              a == b.(consumed := a.consumed) && (b.status == Ok ==> a.consumed == b.consumed + start - held)
  {
    hide Target, DecodeFirst;
  }

  /** The size of the frame is less than what was received already. */
  lemma StepDead(t: Bytes, start: nat)
    requires (start == HEADER_SIZE || start == 8) && |t| >= start && Target(t) < start
    ensures (if start == 8 then FirstStep(t, 8) else StepFramed(t, HEADER_SIZE, HEADER_SIZE))
            == StepResult(Position(false, t[..start]), 0, None, [], if Target(t) == 0 then NoMemory else Undefined)
  {
    hide Target;
  }

  lemma StepUnwrapped(t: Bytes)
    requires |t| >= 8 && Target(t) >= 8
    ensures FirstStep(t, 8) == StepFramed(t, 8, 8)
  {
    hide Target, StepFramed;
  }

  /** A call that reports a frame stops right behind it. */
  lemma StepAtBoundary(p: Position, data: Bytes)
    requires Step(p, data).frame.Some?
    ensures Step(p, data).position == Position(false, [])
  {
  }

  /** A protocol header can only come first. */
  lemma StepNotInitial(p: Position, data: Bytes)
    ensures !p.initial ==> !Step(p, data).position.initial
  {
  }

  // ---------- the stream may be cut anywhere ----------

  lemma ParseAtConcat(p: Position, a: Bytes, b: Bytes)
    requires PositionOk(p)
    ensures ParseAt(p, a + b) ==
            if ParseAt(p, a).status != Ok then ParseAt(p, a)
            else Prepend(ParseAt(p, a).frames, ParseAt(After(p, a), b))
  {
    hide Parse, Target;
    var t := p.held + a;
    assert p.held + (a + b) == t + b;
    if !p.initial {
      ParseConcat(t, b);
      ResidueIncomplete(t);
    } else if |t| < 8 {
      assert [] + ParseAt(After(p, a), b).frames == ParseAt(After(p, a), b).frames;
    } else if t[..4] == AMQP {
      assert (t + b)[..4] == t[..4] && (t + b)[8..] == t[8..] + b;
      ParseConcat(t[8..], b);
      ResidueIncomplete(t[8..]);
      PrependTwice([HeaderFrameOf(t)], Parse(t[8..]).frames, Parse(Parse(t[8..]).residue + b));
    } else {
      assert (t + b)[..4] == t[..4] && Patched(t + b) == Patched(t) + b;
      SameTarget(Patched(t), Patched(t) + b);
      ParseConcat(Patched(t), b);
      ResidueIncomplete(Patched(t));
    }
  }

  /** Reading chunk by chunk from position `p`. */
  function ParseChunksAt(p: Position, chunks: seq<Bytes>): Parsed
    decreases |chunks|
  {
    if chunks == [] then Parsed([], p.held, Ok)
    else
      var r := ParseAt(p, chunks[0]);
      if r.status != Ok then r else Prepend(r.frames, ParseChunksAt(After(p, chunks[0]), chunks[1..]))
  }

  lemma AfterRuns(p: Position, data: Bytes)
    requires PositionOk(p) && ParseAt(p, data).status == Ok
    ensures Running(After(p, data))
  {
    hide Parse, Complete, DecodeRaw;
    var t := p.held + data;
    if !p.initial {
      ResidueIncomplete(t);
    } else if |t| >= 8 {
      ResidueIncomplete(t[8..]);
      ResidueIncomplete(Patched(t));
    }
  }

  lemma ParseNothing(p: Position)
    requires Running(p)
    ensures ParseAt(p, []) == Parsed([], p.held, Ok)
  {
    assert p.held + [] == p.held;
  }

  /** From every position, before the first frame or between or inside later ones, no way of
      cutting the octets into chunks changes what is read from them. */
  lemma {:induction false} ChunksDoNotMatterAt(p: Position, chunks: seq<Bytes>)
    requires Running(p)
    ensures ParseChunksAt(p, chunks) == ParseAt(p, Concat(chunks))
    decreases |chunks|
  {
    hide Parse, Complete, DecodeRaw, ParseAt, PositionOk;
    if chunks == [] {
      ParseNothing(p);
    } else {
      ParseAtConcat(p, chunks[0], Concat(chunks[1..]));
      if ParseAt(p, chunks[0]).status == Ok {
        AfterRuns(p, chunks[0]);
        ChunksDoNotMatterAt(After(p, chunks[0]), chunks[1..]);
      }
    }
  }

  // ---------- frames with their octets ----------

  /** The frames read from position `p`, each with its octets. */
  function PiecesAt(p: Position, data: Bytes): seq<Piece> {
    var t := p.held + data;
    if !p.initial then (if Dead(p.held) then [] else Pieces(t))
    else if |t| < 8 then []
    else if t[..4] == AMQP then [Piece(HeaderFrameOf(t), t[..8])] + Pieces(t[8..])
    else if FirstWraps(Patched(t)) then []
    else Pieces(Patched(t))
  }

  /** What reading makes of octets: the frames with their octets, and where the stream stands then or the
      first failure. */
  datatype Reading = Reading(pieces: seq<Piece>, position: Position, status: Status)

  const BOUNDARY := Position(false, [])

  function Failed(status: Status): Reading {
    Reading([], BOUNDARY, status)
  }

  function ReadAt(p: Position, data: Bytes): Reading {
    var status := ParseAt(p, data).status;
    Reading(PiecesAt(p, data), if status == Ok then After(p, data) else BOUNDARY, status)
  }

  /** Reading that goes on behind `ps`. */
  function Behind(ps: seq<Piece>, r: Reading): Reading {
    r.(pieces := ps + r.pieces)
  }

  lemma BehindNothing(r: Reading)
    ensures Behind([], r) == r
  {
    assert [] + r.pieces == r.pieces;
  }

  lemma BehindTwice(x: seq<Piece>, y: seq<Piece>, r: Reading)
    ensures Behind(x, Behind(y, r)) == Behind(x + y, r)
  {
    assert x + (y + r.pieces) == x + y + r.pieces;
  }

  function Reported(r: StepResult): seq<Piece> {
    if r.frame.Some? then [Piece(r.frame.value, r.octets)] else []
  }

  /** Without their octets these are the frames that were parsed. */
  lemma PiecesAtFrames(p: Position, data: Bytes)
    ensures FramesIn(PiecesAt(p, data)) == ParseAt(p, data).frames
  {
    hide Parse, Pieces, Target;
    var t := p.held + data;
    PiecesFrames(t);
    if |t| >= 8 {
      PiecesFrames(t[8..]);
      PiecesFrames(Patched(t));
      FramesConcat([Piece(HeaderFrameOf(t), t[..8])], Pieces(t[8..]));
    }
  }

  /** Within a frame, the pieces are the one reported and those still to come. */
  predicate FramedOk(t: Bytes, held: nat, r: StepResult)
    requires held <= |t|
  {
    && (r.status == Ok ==> 0 <= r.consumed <= |t| - held)
    && Pieces(t) == if r.status != Ok then [] else Reported(r) + Pieces(r.position.held + t[held + r.consumed..])
  }

  /** What `StepFramed` does with a complete frame that is decoded. */
  lemma {:induction false} FramedResult(t: Bytes, held: nat, start: nat)
    requires Complete(t) && start <= |t| && DecodeFirst(t).Success? && held <= Target(t)
    ensures var r := StepFramed(t, held, start);
            && r.status == Ok && r.position == BOUNDARY && r.consumed == Target(t) - held && Reported(r) == FirstPiece(t)
  {
    hide DecodeRaw, Target;
  }

  lemma {:induction false} FramedDone(t: Bytes, held: nat, start: nat)
    requires Complete(t) && start <= |t| && DecodeFirst(t).Success? && held <= Target(t)
    ensures FramedOk(t, held, StepFramed(t, held, start))
  {
    hide DecodeFirst, Target, Pieces, Parse, StepFramed, FirstPiece, Reported;
    ReadFirst(t);
    FramedResult(t, held, start);
    var n := Target(t);
    assert BOUNDARY.held + t[n..] == t[n..];
    assert held + (n - held) == n;
  }

  lemma {:induction false} FramedFails(t: Bytes, held: nat, start: nat)
    requires held <= |t| && Complete(t) && start <= |t| && DecodeFirst(t).Failure?
    ensures FramedOk(t, held, StepFramed(t, held, start))
  {
    ReadFirst(t);
    hide DecodeRaw, Target, Pieces, Parse;
  }

  lemma {:induction false} FramedWaits(t: Bytes, held: nat, start: nat)
    requires held <= |t| && !Complete(t)
    ensures FramedOk(t, held, StepFramed(t, held, start))
  {
    PiecesIncomplete(t, []);
    hide Pieces, Parse, Complete;
    assert t + t[held + (|t| - held)..] == t;
    assert Reported(StepFramed(t, held, start)) == [];
  }

  lemma {:induction false} FramedPieces(t: Bytes, held: nat, start: nat)
    requires held <= |t| && (Complete(t) ==> start <= |t|)
    requires Complete(t) && DecodeFirst(t).Success? ==> held <= Target(t)
    ensures FramedOk(t, held, StepFramed(t, held, start))
  {
    hide FramedOk, StepFramed, DecodeFirst, Target;
    if !Complete(t) {
      FramedWaits(t, held, start);
    } else if DecodeFirst(t).Success? {
      FramedDone(t, held, start);
    } else {
      FramedFails(t, held, start);
    }
  }

  lemma {:induction false} WithinPieces(held: Bytes, data: Bytes)
    requires data != [] && (Complete(held) ==> |held| == Target(held) && DecodeRaw(held).Failure?)
    ensures var t, r := held + data, StepFramed(held + data, |held|, HEADER_SIZE);
            && (r.status == Ok ==> 1 <= r.consumed <= |data|)
            && Pieces(t) == if r.status != Ok then [] else Reported(r) + Pieces(r.position.held + data[r.consumed..])
  {
    hide DecodeFirst, DecodeRaw, Parse, Pieces, Target, StepFramed, PositionOk;
    var t, r := held + data, StepFramed(held + data, |held|, HEADER_SIZE);
    StepWithin(held, data);
    FramedPieces(t, |held|, HEADER_SIZE);
    if r.status == Ok {
      assert data[r.consumed..] == t[|held| + r.consumed..];
    }
  }

  lemma {:induction false} FirstPieces(held: Bytes, data: Bytes)
    requires |held| < 8 <= |held + data|
    ensures var t, r := Patched(held + data), FirstStep(Patched(held + data), |held|);
            && (r.status == Ok ==>
                  1 <= r.consumed <= |data| && Pieces(t) == Reported(r) + Pieces(r.position.held + data[r.consumed..]))
            && (r.status != Ok && !FirstWraps(t) ==> Pieces(t) == [])
  {
    hide DecodeFirst, DecodeRaw, Parse, Pieces, Target, PositionOk;
    var t := Patched(held + data);
    FirstStepParses(held, data);
    if !FirstWraps(t) {
      FramedPieces(t, |held|, 8);
      var r := StepFramed(t, |held|, 8);
      if r.status == Ok {
        assert data[r.consumed..] == t[|held| + r.consumed..];
      }
    }
  }

  /** What one call contributes to the pieces. */
  predicate PiecesStep(p: Position, data: Bytes, r: StepResult) {
    && (r.status != Ok ==> PiecesAt(p, data) == [])
    && (r.status == Ok ==>
          1 <= r.consumed <= |data| && PiecesAt(p, data) == Reported(r) + PiecesAt(r.position, data[r.consumed..]))
  }

  lemma {:induction false} StepWithinPieces(held: Bytes, data: Bytes)
    requires PositionOk(Position(false, held)) && data != []
    ensures PiecesStep(Position(false, held), data, Step(Position(false, held), data))
  {
    hide Pieces, Parse, StepFramed, DecodeRaw, Target;
    if !Dead(held) {
      WithinPieces(held, data);
      StepWithin(held, data);
    }
  }

  lemma {:induction false} StepFewPieces(held: Bytes, data: Bytes)
    requires |held + data| < 8 && data != []
    ensures PiecesStep(Position(true, held), data, Step(Position(true, held), data))
  {
    assert held + data + data[|data|..] == held + data;
  }

  /** A protocol header. */
  lemma {:induction false} StepHeaderPieces(held: Bytes, data: Bytes)
    requires |held| < 8 <= |held + data| && (held + data)[..4] == AMQP
    ensures PiecesStep(Position(true, held), data, Step(Position(true, held), data))
  {
    hide Pieces;
    var t := held + data;
    assert [] + t[8..] == t[8..] && data[8 - |held|..] == t[8..];
  }

  /** The call that reads the first frame leaves the initial position, within a frame that goes on. */
  lemma {:induction false} FirstNotDead(held: Bytes, data: Bytes)
    requires |held| < 8 <= |held + data|
    ensures var r := FirstStep(Patched(held + data), |held|);
            r.status == Ok ==> !r.position.initial && !Dead(r.position.held)
  {
    FirstStepParses(held, data);
    hide FirstStep, Parse, Target, DecodeRaw;
  }

  lemma {:induction false} StepFirstPieces(held: Bytes, data: Bytes)
    requires |held| < 8 <= |held + data| && (held + data)[..4] != AMQP
    ensures PiecesStep(Position(true, held), data, Step(Position(true, held), data))
  {
    hide Pieces, Parse, FirstStep, DecodeRaw, Target, Complete, FirstWraps, PositionOk, Running;
    FirstPieces(held, data);
    FirstStepParses(held, data);
    FirstNotDead(held, data);
  }

  lemma {:induction false} StepPieces(p: Position, data: Bytes)
    requires PositionOk(p) && data != []
    ensures PiecesStep(p, data, Step(p, data))
  {
    hide PiecesStep, Step;
    var t := p.held + data;
    if !p.initial {
      StepWithinPieces(p.held, data);
    } else if |t| < 8 {
      StepFewPieces(p.held, data);
    } else if t[..4] == AMQP {
      StepHeaderPieces(p.held, data);
    } else {
      StepFirstPieces(p.held, data);
    }
  }

  lemma StepLeavesInitial(p: Position, data: Bytes)
    requires |p.held + data| >= 8 && data != []
    ensures !Step(p, data).position.initial
  {
  }

  lemma {:induction false} StepAfter(p: Position, data: Bytes)
    requires PositionOk(p) && data != [] && Step(p, data).status == Ok
    ensures var r := Step(p, data); 1 <= r.consumed <= |data| && After(p, data) == After(r.position, data[r.consumed..])
  {
    StepParses(p, data);
    hide Parse, Target, StepFramed, DecodeRaw, DecodeFirst;
    var t := p.held + data;
    if !p.initial {
      StepNotInitial(p, data);
    } else if |t| >= 8 {
      StepLeavesInitial(p, data);
    }
  }

  /** What one call contributes to the reading. */
  lemma StepReads(p: Position, data: Bytes)
    requires PositionOk(p) && data != []
    ensures var r := Step(p, data);
            && (r.status == Ok ==> 1 <= r.consumed <= |data|)
            && ReadAt(p, data) == if r.status != Ok then Failed(r.status)
                                  else Behind(Reported(r), ReadAt(r.position, data[r.consumed..]))
  {
    StepParses(p, data);
    StepPieces(p, data);
    hide Step, PiecesAt, After, ParseAt;
    if Step(p, data).status == Ok {
      StepAfter(p, data);
    }
  }

  /** Before eight octets nothing is read. */
  lemma FewHeld(p: Position, a: Bytes)
    ensures p.initial && |p.held + a| < 8 ==> ParseAt(p, a).residue == p.held + a
  {
  }

  lemma {:induction false} AfterConcat(p: Position, a: Bytes, b: Bytes)
    requires PositionOk(p) && ParseAt(p, a).status == Ok
    ensures After(p, a + b) == After(After(p, a), b)
  {
    ParseAtConcat(p, a, b);
    FewHeld(p, a);
    hide ParseAt, PositionOk;
    assert |p.held + (a + b)| == |p.held + a + b|;
  }

  lemma {:induction false} PiecesAtConcat(p: Position, a: Bytes, b: Bytes)
    requires PositionOk(p)
    ensures PiecesAt(p, a + b) ==
            PiecesAt(p, a) + if ParseAt(p, a).status != Ok then [] else PiecesAt(After(p, a), b)
  {
    hide Parse, Pieces, Target;
    var t := p.held + a;
    assert p.held + (a + b) == t + b;
    if !p.initial {
      PiecesConcat(t, b);
      ResidueIncomplete(t);
    } else if |t| < 8 {
      assert [] + PiecesAt(After(p, a), b) == PiecesAt(After(p, a), b);
    } else if t[..4] == AMQP {
      assert (t + b)[..4] == t[..4] && (t + b)[8..] == t[8..] + b && (t + b)[..8] == t[..8];
      PiecesConcat(t[8..], b);
      ResidueIncomplete(t[8..]);
      PiecesNext([Piece(HeaderFrameOf(t), t[..8])], Pieces(t[8..]),
                 if Parse(t[8..]).status != Ok then [] else Pieces(Parse(t[8..]).residue + b));
    } else {
      assert (t + b)[..4] == t[..4] && Patched(t + b) == Patched(t) + b;
      SameTarget(Patched(t), Patched(t) + b);
      PiecesConcat(Patched(t), b);
      ResidueIncomplete(Patched(t));
    }
  }

  /** Reading `a + b` is reading `a`, and then `b` from the position reached. */
  lemma ReadAtConcat(p: Position, a: Bytes, b: Bytes)
    requires PositionOk(p)
    ensures ReadAt(p, a + b) ==
            if ReadAt(p, a).status != Ok then ReadAt(p, a)
            else Behind(ReadAt(p, a).pieces, ReadAt(ReadAt(p, a).position, b))
  {
    ParseAtConcat(p, a, b);
    PiecesAtConcat(p, a, b);
    hide PiecesAt, ParseAt;
    if ParseAt(p, a).status == Ok {
      AfterRuns(p, a);
      AfterConcat(p, a, b);
    }
  }

  lemma ReadNothing(p: Position)
    requires Running(p)
    ensures ReadAt(p, []) == Reading([], p, Ok)
  {
    assert p.held + [] == p.held;
    ParseNothing(p);
    if !p.initial {
      PiecesIncomplete(p.held, []);
    }
  }

  // ---------- the first frame ----------

  /** On a fresh connection the first frame is read as it is from the idle state if its eighth
      octet, the first of its payload, is zero, as it is in every method frame with a class number
      below 256. */
  lemma FirstFrame(t: Bytes)
    requires |t| >= 8 && t[..4] != AMQP && Target(t) != HEADER_SIZE && t[7] == 0
    ensures ParseAt(Position(true, []), t) == Parse(t)
  {
    hide Target, DecodeRaw;
    assert [] + t == t && Patched(t) == t;
  }

  lemma SmallNumbers(id: nat)
    requires Schema(id).Some?
    ensures id < 0x0100_0000
  {
  }

  lemma SmallClasses(classId: nat, flags: nat)
    requires FieldKinds(classId, flags).Some?
    ensures classId < 0x100
  {
    hide Selected;
  }

  lemma FirstOctets(f: Frame)
    requires FrameTyped(f)
    ensures var s := FrameBytes(f);
            && s[0] in {FRAME_METHOD, FRAME_HEADER, FRAME_BODY, FRAME_HEARTBEAT}
            && s[7] == (if Payload(f) == [] then FRAME_END else Payload(f)[0])
            && (f.MethodFrame? || f.HeaderFrame? ==> s[7] == 0 && Payload(f) != [])
            && (f.HeartbeatFrame? ==> Payload(f) == [])
            && (f.BodyFrame? ==> Payload(f) == f.payload)
            && !f.ProtocolHeader?
  {
    hide Schema, FieldKinds, EncFields, EncProps;
    if f.MethodFrame? {
      SmallNumbers(f.id);
    } else if f.HeaderFrame? {
      SmallClasses(f.classId, f.props.flags);
    }
  }

  lemma EndMarkLost(f: Frame, rest: Bytes)
    requires FrameTyped(f) && Payload(f) == []
    ensures Parse(Patched(FrameBytes(f) + rest)) == Parsed([], [], BadData)
  {
    hide FrameTyped, FrameBytes, Payload, D16, D32;
    var t := FrameBytes(f) + rest;
    FrameTarget(f, rest);
    var u := Patched(t);
    assert u[..HEADER_SIZE] == t[..HEADER_SIZE];
    assert forall i | 0 <= i < HEADER_SIZE :: u[i] == u[..HEADER_SIZE][i] == t[..HEADER_SIZE][i] == t[i];
    SameTarget(t, u);
    var raw := u[..8];
    assert raw[7] == 0;
  }

  lemma BodyFrameBytes(f: Frame)
    requires f.BodyFrame? && FrameTyped(f)
    ensures Payload(f) == f.payload
    ensures FrameBytes(f) == Head(FRAME_BODY, f.channel, |f.payload|) + f.payload + [FRAME_END]
  {
    hide E16, E32;
    assert [] + f.payload == f.payload;
  }

  lemma FirstBodyOctet(f: Frame, rest: Bytes)
    requires FrameTyped(f) && f.BodyFrame? && 0 < |f.payload| < MAX_PAYLOAD && f.payload[0] != 0
    ensures Parse(Patched(FrameBytes(f) + rest)) != Parse(FrameBytes(f) + rest)
  {
    hide FrameBytes, Parse, Payload;
    var s := FrameBytes(f);
    var g := f.(payload := [0] + f.payload[1..]);
    BodyFrameBytes(f);
    BodyFrameBytes(g);
    assert Patched(s + rest) == FrameBytes(g) + rest;
    FrameTrip(f, rest);
    FrameTrip(g, rest);
    assert Parse(s + rest).frames[0] == f && Parse(Patched(s + rest)).frames[0] == g;
  }

  /** The condition is exact for every frame: the eighth octet of a body frame is silently replaced by
      zero, and a frame without payload loses its end mark. */
  lemma FirstFrameIff(f: Frame, rest: Bytes)
    requires FrameTyped(f) && FrameFits(f) && |Payload(f)| < MAX_PAYLOAD
    ensures ParseAt(Position(true, []), FrameBytes(f) + rest) == Parse(FrameBytes(f) + rest) <==> FrameBytes(f)[7] == 0
  {
    hide FrameTyped, FrameFits, FrameBytes, Parse, Payload, Prelude, CanonFrame;
    var s, t := FrameBytes(f), FrameBytes(f) + rest;
    assert [] + t == t && t[7] == s[7];
    FirstOctets(f);
    assert t[..4][0] == s[0];
    FrameTrip(f, rest);
    FrameTarget(f, rest);
    hide Target;
    if s[7] == 0 {
      FirstFrame(t);
    } else if Payload(f) == [] {
      EndMarkLost(f, rest);
    } else {
      FirstBodyOctet(f, rest);
    }
  }

  // ---------- waiting for a frame ----------

  /** Waiting on these octets, the caller meets a call that reports no frame: it was incomplete, or of a
      kind that is ignored. */
  predicate Trips(p: Position, data: Bytes)
    requires PositionOk(p)
    decreases |data|
  {
    if data == [] then false
    else
      StepParses(p, data);
      var r := Step(p, data);
      if r.status != Ok then false
      else if r.frame.None? then true
      else r.frame.value.HeartbeatFrame? && Trips(r.position, data[r.consumed..])
  }

  /** What one call contributes. */
  lemma TripsNext(p: Position, data: Bytes)
    requires PositionOk(p) && data != []
    ensures PositionOk(p) && PositionOk(Step(p, data).position)
    ensures var r := Step(p, data);
            && (r.status != Ok ==> !Trips(p, data))
            && (r.status == Ok ==>
                  && 1 <= r.consumed <= |data|
                  && (Trips(p, data) <==>
                        r.frame.None? || (r.frame.value.HeartbeatFrame? && Trips(r.position, data[r.consumed..]))))
  {
    StepParses(p, data);
  }

  /** A whole heartbeat frame, whatever its payload, stands at the front. */
  predicate Heartbeats(s: Bytes) {
    Complete(s) && Target(s) >= HEADER_SIZE && s[Target(s) - 1] == FRAME_END && s[0] == FRAME_HEARTBEAT
  }

  /** A whole frame of a type that is ignored stands at the front. */
  predicate Ignored(s: Bytes) {
    && Complete(s) && Target(s) >= HEADER_SIZE && s[Target(s) - 1] == FRAME_END
    && s[0] !in {FRAME_METHOD, FRAME_HEADER, FRAME_BODY, FRAME_HEARTBEAT}
  }

  function BehindHeartbeats(s: Bytes): Bytes
    decreases |s|
  {
    if Heartbeats(s) then BehindHeartbeats(s[Target(s)..]) else s
  }

  /** Behind the leading heartbeats stands the beginning of a frame, or a frame that is ignored. */
  predicate Stuck(s: Bytes) {
    var rest := BehindHeartbeats(s);
    rest != [] && (!Complete(rest) || Ignored(rest))
  }

  /** The same at any position; before the first frame a protocol header would be reported. */
  predicate Stalls(p: Position, data: Bytes) {
    var t := p.held + data;
    if !p.initial then Stuck(t)
    else |t| < 8 || (t[..4] != AMQP && !FirstWraps(Patched(t)) && Stuck(Patched(t)))
  }

  lemma DecodedKinds(s: Bytes)
    requires Complete(s)
    ensures DecodeFirst(s) == Success(None) <==> Ignored(s)
    ensures DecodeFirst(s).Success? && DecodeFirst(s).value.Some? && DecodeFirst(s).value.value.HeartbeatFrame? <==>
            Heartbeats(s)
  {
    hide Target, D16, D32, D64, DecMethod, DecProps;
    if Target(s) >= HEADER_SIZE {
      var raw := s[..Target(s)];
      assert raw[0] == s[0] && raw[|raw| - 1] == s[Target(s) - 1];
    }
  }

  lemma StuckStep(s: Bytes)
    ensures s == [] ==> !Stuck(s)
    ensures s != [] && !Complete(s) ==> Stuck(s)
    ensures Complete(s) ==> (Stuck(s) <==> Ignored(s) || (Heartbeats(s) && Stuck(s[Target(s)..])))
  {
    hide Target;
  }

  /** One call between frames or inside one. */
  lemma StepAt(held: Bytes, data: Bytes)
    requires Running(Position(false, held)) && data != []
    ensures var s, r := held + data, Step(Position(false, held), data);
            if !Complete(s) then r.status == Ok && r.frame == None
            else if DecodeFirst(s).Failure? then r.status != Ok
            else r.status == Ok && r.frame == DecodeFirst(s).value && r.position == Position(false, [])
                 && 1 <= r.consumed <= |data| && data[r.consumed..] == s[Target(s)..]
  {
    hide Target, DecodeFirst, DecodeRaw;
    StepWithin(held, data);
    var s, r := held + data, StepFramed(held + data, |held|, HEADER_SIZE);
    if Complete(s) && DecodeFirst(s).Success? {
      assert data[r.consumed..] == s[|held| + r.consumed..];
    }
  }

  /** For all octets, between frames or inside one. */
  lemma {:induction false} TripsWithin(held: Bytes, data: Bytes)
    requires Running(Position(false, held)) && data != []
    ensures Trips(Position(false, held), data) <==> Stuck(held + data)
    decreases |data|, 0
  {
    hide Target, DecodeFirst, DecodeRaw, Stuck, Ignored, Heartbeats, PositionOk, Trips, Step;
    var p, s := Position(false, held), held + data;
    TripsNext(p, data);
    StepAt(held, data);
    StuckStep(s);
    if Complete(s) {
      DecodedKinds(s);
      if Heartbeats(s) {
        TripsFrom(s[Target(s)..]);
      }
    }
  }

  lemma {:induction false} TripsFrom(s: Bytes)
    ensures PositionOk(Position(false, [])) && (Trips(Position(false, []), s) <==> Stuck(s))
    decreases |s|, 1
  {
    hide Stuck;
    BoundaryRuns();
    if s == [] {
      StuckStep(s);
    } else {
      assert [] + s == s;
      TripsWithin([], s);
    }
  }

  lemma {:induction false} FirstTrips(held: Bytes, data: Bytes)
    requires |held| < 8 && data != []
    ensures Trips(Position(true, held), data) <==> Stalls(Position(true, held), data)
  {
    hide Target, DecodeFirst, DecodeRaw, Stuck, Ignored, Heartbeats, Trips, Complete;
    var p, t := Position(true, held), held + data;
    TripsNext(p, data);
    if |t| >= 8 && t[..4] != AMQP && !FirstWraps(Patched(t)) {
      var s := Patched(t);
      FirstStepParses(held, data);
      StuckStep(s);
      if Complete(s) {
        DecodedKinds(s);
        if Heartbeats(s) {
          var r := FirstStep(s, |held|);
          assert data[r.consumed..] == s[|held| + r.consumed..];
          TripsFrom(s[Target(s)..]);
        }
      }
    }
  }

  /** Waiting meets an incomplete or ignored frame exactly when, behind the leading heartbeats, the octets
      begin a frame and do not end it, or form a whole frame of an unknown type. */
  lemma TripsIff(p: Position, data: Bytes)
    requires Running(p) && data != []
    ensures Trips(p, data) <==> Stalls(p, data)
  {
    hide Target, DecodeFirst, DecodeRaw, Stuck, Trips, StepFramed, Complete;
    if !p.initial {
      TripsWithin(p.held, data);
    } else {
      FirstTrips(p.held, data);
    }
  }

  /** A whole frame of an unknown type is met although it ends on a boundary. */
  lemma UnknownTypeTrips()
    ensures PositionOk(Position(false, [])) && Trips(Position(false, []), [7, 0, 1, 0, 0, 0, 0, 206])
  {
    BoundaryRuns();
    var s: Bytes := [7, 0, 1, 0, 0, 0, 0, 206];
    assert [] + s == s && Target(s) == 8;
    TripsIff(Position(false, []), s);
  }
}
