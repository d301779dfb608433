/**
  Whole runs of a connection: octets arrive in any pieces, the application polls, waits for frames, tunes
  the connection and releases memory whenever it likes.
 */
module Session {
  import opened Wire
  import opened Properties
  import opened Frames
  import opened Decoder
  import opened Arena
  import opened Connection
  import opened Publisher
  import opened Consumer

  /** `Poll` is amqp_try_recv, `Wait` amqp_simple_wait_frame; the releases are for one channel, and for all
      if no frame has been started. */
  datatype Event =
    | Arrive(octets: Bytes) | Poll | Wait | ReleaseChannel(channel: nat) | MaybeRelease | Tune(frameMax: nat)

  function Arrived(events: seq<Event>): Bytes {
    if events == [] then []
    else (if events[0].Arrive? then events[0].octets else []) + Arrived(events[1..])
  }

  // ---------- what a run did ----------

  /** What one event did: the heartbeats it swallowed, with their octets, and the frame the application
      got. */
  datatype Turn = Turn(event: Event, swallowed: seq<Piece>, out: Option<Delivered>)

  predicate TurnOk(t: Turn) {
    && (forall q | q in t.swallowed :: q.frame.HeartbeatFrame?)
    && (t.swallowed != [] || t.out.Some? ==> t.event.Wait?)
  }

  /** All frames that were swallowed or handed out, one after the other. */
  function Seen(past: seq<Turn>): seq<Piece> {
    if past == [] then []
    else
      var n := |past| - 1;
      Seen(past[..n]) + (past[n].swallowed + PieceIn(past[n].out))
  }

  /** The frames the application took. */
  function Taken(past: seq<Turn>): seq<Delivered> {
    if past == [] then []
    else
      var n := |past| - 1;
      Taken(past[..n]) + AsSeq(past[n].out)
  }

  function FramesOf(taken: seq<Delivered>): (r: seq<Frame>)
    ensures |r| == |taken|
  {
    seq(|taken|, i requires 0 <= i < |taken| => taken[i].frame)
  }

  lemma OneTurn(past: seq<Turn>, t: Turn)
    ensures Seen(past + [t]) == Seen(past) + (t.swallowed + PieceIn(t.out))
    ensures Taken(past + [t]) == Taken(past) + AsSeq(t.out)
  {
    assert (past + [t])[..|past|] == past;
  }

  /** Nothing was swallowed and nothing handed out. */
  lemma IdleTurn(past: seq<Turn>, e: Event)
    ensures Seen(past + [Turn(e, [], None)]) == Seen(past)
  {
    OneTurn(past, Turn(e, [], None));
    hide Seen;
    assert Seen(past) + ([] + []) == Seen(past);
  }

  // ---------- which frames are there ----------

  /** The frames `seen` and those still to come are, in this order, all the frames of the stream, each with
      its octets. */
  predicate Explains(all: Reading, seen: seq<Piece>, ahead: Reading) {
    all == Behind(seen, ahead)
  }

  /** More octets arrive behind those not read yet. */
  lemma ExplainsArrival(start: Position, before: Bytes, seen: seq<Piece>, pos: Position, inbox: Bytes, b: Bytes)
    requires PositionOk(start) && PositionOk(pos)
    requires Explains(ReadAt(start, before), seen, ReadAt(pos, inbox))
    ensures Explains(ReadAt(start, before + b), seen, ReadAt(pos, inbox + b))
  {
    hide ReadAt, PositionOk;
    ReadAtConcat(start, before, b);
    ReadAtConcat(pos, inbox, b);
    var ahead := ReadAt(pos, inbox);
    if ahead.status == Ok {
      BehindTwice(seen, ahead.pieces, ReadAt(ahead.position, b));
    }
  }

  /** Frames move from the stream to those seen. */
  lemma ExplainsMove(all: Reading, seen: seq<Piece>, ahead: Reading, moved: seq<Piece>, left: Reading)
    requires Explains(all, seen, ahead) && ahead == Behind(moved, left)
    ensures Explains(all, seen + moved, left)
  {
    BehindTwice(seen, moved, left);
  }

  /** Where the stream stands after an event, or that it ended there. */
  function Ahead(status: Status, pos: Position, inbox: Bytes): Reading {
    if status == Ok then ReadAt(pos, inbox) else Failed(status)
  }

  // ---------- which memory is kept ----------

  /** A release, or a heartbeat for channel 0, may give up the memory of the channel. */
  predicate GivesUp(t: Turn, channel: nat) {
    t.event.MaybeRelease? || t.event == ReleaseChannel(channel) || (channel == 0 && t.swallowed != [])
  }

  predicate Untouched(since: seq<Turn>, d: Delivered) {
    forall t | t in since :: !GivesUp(t, ChannelOf(d.frame))
  }

  ghost predicate OnLoan(d: Delivered, loaned: seq<Queued>) {
    exists q :: q in loaned && q.item == d
  }

  /** The frame handed out in turn `i`, if its channel was not given up since. */
  predicate Lent(past: seq<Turn>, i: nat) {
    i < |past| && past[i].out.Some? && Untouched(past[i + 1..], past[i].out.value)
  }

  /** What the application took and was not given up since is on loan. */
  ghost predicate AllOnLoan(past: seq<Turn>, loaned: seq<Queued>) {
    forall i: nat | Lent(past, i) :: OnLoan(past[i].out.value, loaned)
  }

  lemma LoanKept(d: Delivered, loaned: seq<Queued>, gone: set<nat>, more: seq<Queued>)
    requires OnLoan(d, loaned) && ChannelOf(d.frame) !in gone
    ensures OnLoan(d, Keep(loaned, gone) + more)
  {
    var q :| q in loaned && q.item == d;
    assert q in Keep(loaned, gone) + more;
  }

  lemma NewLoan(q: Queued, loaned: seq<Queued>)
    ensures OnLoan(q.item, loaned + [q])
  {
    assert q in loaned + [q];
  }

  /** What is lent after one more turn was lent before, or is the frame of this turn. */
  lemma LentBefore(past: seq<Turn>, t: Turn, i: nat)
    requires Lent(past + [t], i)
    ensures if i < |past| then Lent(past, i) && (past + [t])[i] == past[i] && !GivesUp(t, ChannelOf(past[i].out.value.frame))
            else i == |past| && t.out.Some?
  {
    hide GivesUp;
    if i < |past| {
      assert (past + [t])[i + 1..] == past[i + 1..] + [t];
    }
  }

  /** A turn that gives up the channels in `gone`, and lends `more`. */
  lemma LoansAfter(past: seq<Turn>, t: Turn, loaned: seq<Queued>, gone: set<nat>, more: seq<Queued>)
    requires AllOnLoan(past, loaned)
    requires forall c | c in gone :: GivesUp(t, c)
    requires t.out.Some? ==> OnLoan(t.out.value, Keep(loaned, gone) + more)
    ensures AllOnLoan(past + [t], Keep(loaned, gone) + more)
  {
    hide Keep, Untouched, OnLoan, GivesUp;
    forall i: nat | Lent(past + [t], i) ensures i <= |past| && OnLoan((past + [t])[i].out.value, Keep(loaned, gone) + more) {
      LentBefore(past, t, i);
      if i < |past| {
        LoanKept(past[i].out.value, loaned, gone, more);
      }
    }
  }

  /** Nothing is given up, and nothing lent. */
  lemma SameLoans(past: seq<Turn>, e: Event, loaned: seq<Queued>)
    requires AllOnLoan(past, loaned)
    ensures AllOnLoan(past + [Turn(e, [], None)], loaned)
  {
    hide Keep, AllOnLoan;
    KeepAll(loaned);
    LoansAfter(past, Turn(e, [], None), loaned, {}, []);
    assert loaned + [] == loaned;
  }

  // ---------- one event ----------

  method AddToInbox(c: Connection, octets: Bytes)
    requires c.Valid()
    modifies c`inbox
    ensures c.Valid() && c.inbox == old(c.inbox) + octets
  {
    hide Connection.TableOk, Connection.MemoryOk, Connection.DecoderOk, Connection.QueueIntact;
    c.inbox := c.inbox + octets;
  }

  /** Everything is read, up to the first failure. */
  lemma PollMoves(pos: Position, inbox: Bytes)
    ensures var r := ReadAt(pos, inbox);
            r == Behind(r.pieces, if r.status == Ok then Reading([], r.position, Ok) else Failed(r.status))
  {
    hide ParseAt, PiecesAt, After;
    assert PiecesAt(pos, inbox) + [] == PiecesAt(pos, inbox);
  }

  method PollFrames(c: Connection, sizes: nat -> seq<nat>, ghost all: Reading, ghost seen: seq<Piece>) returns (status: Status)
    requires c.Valid() && Running(c.Pos()) && c.SizesOk(sizes)
    requires Explains(all, seen + Held(c.queue), ReadAt(c.Pos(), c.inbox))
    modifies c, c.table, c.headerBuffer, c.mem, c.pools.Values
    ensures c.Valid() && fresh(c.pools.Values - old(c.pools.Values)) && c.loaned == old(c.loaned)
    ensures status == Ok ==> Running(c.Pos())
    ensures Explains(all, seen + Held(c.queue), Ahead(status, c.Pos(), c.inbox))
  {
    hide Running, ReadAt, Held, Connection.Valid, Connection.Views;
    ghost var pos, inbox, queue, ahead := c.Pos(), c.inbox, c.queue, ReadAt(c.Pos(), c.inbox);
    status := c.TryRecv(sizes);
    PollMoves(pos, inbox);
    if status == Ok {
      ReadNothing(c.Pos());
      assert c.inbox == [];
    }
    ExplainsMove(all, seen + Held(queue), ahead, ahead.pieces, Ahead(status, c.Pos(), c.inbox));
    assert seen + Held(queue) + ahead.pieces == seen + (Held(queue) + ahead.pieces);
  }

  /** The loans after waiting. */
  lemma WaitLoans(past: seq<Turn>, loaned: seq<Queued>, queue: seq<Queued>, swallowed: seq<Piece>, out: Option<Delivered>)
    requires AllOnLoan(past, loaned)
    requires queue != [] ==> out == Some(queue[0].item) && swallowed == []
    ensures AllOnLoan(past + [Turn(Wait, swallowed, out)],
                      if queue != [] then loaned + [queue[0]]
                      else (if swallowed == [] then loaned else Keep(loaned, {0})) + if out.Some? then [Queued(out.value, [])] else [])
  {
    hide AllOnLoan, Keep, OnLoan;
    KeepAll(loaned);
    var t := Turn(Wait, swallowed, out);
    var gone: set<nat> := if swallowed == [] then {} else {0};
    if queue != [] {
      NewLoan(queue[0], Keep(loaned, gone));
      LoansAfter(past, t, loaned, gone, [queue[0]]);
    } else if out.Some? {
      NewLoan(Queued(out.value, []), Keep(loaned, gone));
      LoansAfter(past, t, loaned, gone, [Queued(out.value, [])]);
    } else {
      LoansAfter(past, t, loaned, gone, []);
    }
  }

  lemma HeldHead(queue: seq<Queued>)
    ensures if queue == [] then Held(queue) == [] else Held(queue) == [PieceOf(queue[0].item)] + Held(queue[1..])
  {
  }

  /** The head of the queue was handed out. */
  lemma QueueExplains(all: Reading, past: seq<Turn>, queue: seq<Queued>, ahead: Reading)
    requires queue != [] && Explains(all, Seen(past) + Held(queue), ahead)
    ensures Explains(all, Seen(past + [Turn(Wait, [], Some(queue[0].item))]) + Held(queue[1..]), ahead)
  {
    OneTurn(past, Turn(Wait, [], Some(queue[0].item)));
    HeldHead(queue);
    hide Explains, Held, Seen;
    var x := [PieceOf(queue[0].item)];
    assert Seen(past) + ([] + x) + Held(queue[1..]) == Seen(past) + (x + Held(queue[1..]));
  }

  /** Nothing was queued, and frames were read. */
  lemma ReadExplains(all: Reading, past: seq<Turn>, ahead: Reading, swallowed: seq<Piece>, out: Option<Delivered>, left: Reading)
    requires Explains(all, Seen(past) + Held([]), ahead) && ahead == Behind(swallowed + PieceIn(out), left)
    ensures Explains(all, Seen(past + [Turn(Wait, swallowed, out)]) + Held([]), left)
  {
    OneTurn(past, Turn(Wait, swallowed, out));
    HeldHead([]);
    hide Explains, Held, Seen, PieceIn, Behind;
    var seen, moved := Seen(past), swallowed + PieceIn(out);
    ExplainsMove(all, seen + [], ahead, moved, left);
    assert seen + moved + [] == seen + [] + moved;
  }

  /** The frames after waiting. */
  lemma WaitExplains(all: Reading, past: seq<Turn>, queue: seq<Queued>, ahead: Reading, swallowed: seq<Piece>, out: Option<Delivered>,
                     queue': seq<Queued>, left: Reading)
    requires Explains(all, Seen(past) + Held(queue), ahead)
    requires queue != [] ==> out == Some(queue[0].item) && swallowed == [] && queue' == queue[1..] && left == ahead
    requires queue == [] ==> queue' == [] && ahead == Behind(swallowed + PieceIn(out), left)
    ensures Explains(all, Seen(past + [Turn(Wait, swallowed, out)]) + Held(queue'), left)
  {
    hide Explains, Held, Seen;
    if queue != [] {
      QueueExplains(all, past, queue, ahead);
    } else {
      ReadExplains(all, past, ahead, swallowed, out, left);
    }
  }

  method WaitForFrame(c: Connection, sizes: nat -> seq<nat>, ghost all: Reading, ghost past: seq<Turn>)
    returns (status: Status, out: Option<Delivered>, ghost swallowed: seq<Piece>)
    requires c.Valid() && Running(c.Pos()) && c.SizesOk(sizes)
    requires Explains(all, Seen(past) + Held(c.queue), ReadAt(c.Pos(), c.inbox))
    requires AllOnLoan(past, c.loaned)
    modifies c, c.table, c.headerBuffer, c.mem, c.pools.Values
    ensures c.Valid() && fresh(c.pools.Values - old(c.pools.Values)) && TurnOk(Turn(Wait, swallowed, out))
    ensures status == Ok ==> Running(c.Pos())
    ensures Explains(all, Seen(past + [Turn(Wait, swallowed, out)]) + Held(c.queue), Ahead(status, c.Pos(), c.inbox))
    ensures AllOnLoan(past + [Turn(Wait, swallowed, out)], c.loaned)
    ensures old(c.queue) == [] ==> c.queue == [] && (out.Some? ==> !out.value.frame.HeartbeatFrame?)
  {
    hide Running, ReadAt, Held, Connection.Valid, Connection.Views, Intact, Trips, AllOnLoan, Keep, Explains, Seen;
    ghost var queue, loans, ahead := c.queue, c.loaned, ReadAt(c.Pos(), c.inbox);
    var tripped;
    status, out, tripped, swallowed := c.WaitFrame(sizes);
    WaitLoans(past, loans, queue, swallowed, out);
    WaitExplains(all, past, queue, ahead, swallowed, out, c.queue, Ahead(status, c.Pos(), c.inbox));
  }

  lemma RunningIsOk(p: Position)
    requires Running(p)
    ensures PositionOk(p)
  {
  }

  method Release(c: Connection, e: Event, ghost past: seq<Turn>)
    requires c.Valid() && (e.ReleaseChannel? || e.MaybeRelease?) && AllOnLoan(past, c.loaned)
    modifies c`loaned, c.mem, c.pools.Values
    ensures c.Valid() && AllOnLoan(past + [Turn(e, [], None)], c.loaned)
  {
    hide Connection.Valid, Connection.Views, Released, Keep, AllOnLoan, WaitingChannels;
    ghost var loans, waiting, gone := c.loaned, WaitingChannels(c.queue), {};
    KeepAll(loans);
    if e.ReleaseChannel? {
      gone := (if c.state == IDLE then {e.channel} else {}) - waiting;
      c.MaybeReleaseBuffersOnChannel(e.channel);
    } else if c.state == IDLE {
      gone := c.pools.Keys - waiting;
      c.ReleaseBuffers();
    }
    LoansAfter(past, Turn(e, [], None), loans, gone, []);
    assert c.loaned + [] == c.loaned;
  }

  lemma ArrivedOne(e: Event, before: Bytes)
    ensures before + Arrived([e]) == if e.Arrive? then before + e.octets else before
  {
    assert [e][1..] == [] && Arrived([]) == [];
  }

  /** One event keeps the connection valid, loses, repeats and reorders no frame and no octet of it, and
      gives up no frame on loan but by a release or, on channel 0, after a heartbeat. */
  method Handle(c: Connection, e: Event, sizes: nat -> seq<nat>, ghost start: Position, ghost before: Bytes, ghost past: seq<Turn>)
    returns (status: Status, out: Option<Delivered>, ghost swallowed: seq<Piece>)
    requires c.Valid() && Running(c.Pos()) && c.SizesOk(sizes) && PositionOk(start)
    requires Explains(ReadAt(start, before), Seen(past) + Held(c.queue), ReadAt(c.Pos(), c.inbox))
    requires AllOnLoan(past, c.loaned)
    modifies c, c.table, c.headerBuffer, c.mem, c.pools.Values
    ensures c.Valid() && fresh(c.pools.Values - old(c.pools.Values)) && TurnOk(Turn(e, swallowed, out))
    ensures status == Ok ==> Running(c.Pos())
    ensures Explains(ReadAt(start, before + Arrived([e])), Seen(past + [Turn(e, swallowed, out)]) + Held(c.queue),
                     Ahead(status, c.Pos(), c.inbox))
    ensures AllOnLoan(past + [Turn(e, swallowed, out)], c.loaned)
    ensures !e.Poll? && old(c.queue) == [] ==> c.queue == [] && (out.Some? ==> !out.value.frame.HeartbeatFrame?)
  {
    hide Running, ReadAt, Explains, Held, Connection.Valid, Connection.Views, AllOnLoan, Keep, Seen;
    status, out, swallowed := Ok, None, [];
    ArrivedOne(e, before);
    SameLoans(past, e, c.loaned);
    IdleTurn(past, e);
    match e {
      case Arrive(octets) =>
        RunningIsOk(c.Pos());
        ExplainsArrival(start, before, Seen(past) + Held(c.queue), c.Pos(), c.inbox, octets);
        AddToInbox(c, octets);
      case Poll =>
        status := PollFrames(c, sizes, ReadAt(start, before), Seen(past));
      case Wait =>
        status, out, swallowed := WaitForFrame(c, sizes, ReadAt(start, before), past);
      case ReleaseChannel(_) | MaybeRelease =>
        Release(c, e, past);
      case Tune(frameMax) =>
        if c.state == IDLE {
          c.TuneConnection(frameMax);
        }
    }
  }

  // ---------- whole runs ----------

  lemma RunStarts(all: Reading, loaned: seq<Queued>)
    ensures Explains(all, Seen([]) + [], all) && AllOnLoan([], loaned) && Taken([]) == [] && Quiet(FramesOf([]))
  {
    BehindNothing(all);
  }

  lemma QuietNext(taken: seq<Delivered>, out: Option<Delivered>)
    ensures Quiet(FramesOf(taken)) && (out.Some? ==> !out.value.frame.HeartbeatFrame?) ==>
              Quiet(FramesOf(taken + if out.Some? then [out.value] else []))
  {
    assert FramesOf(taken + if out.Some? then [out.value] else [])
        == FramesOf(taken) + if out.Some? then [out.value.frame] else [];
  }

  /** In a valid connection whatever is on loan or in the queue is intact. */
  lemma LoansIntact(c: Connection, past: seq<Turn>)
    requires c.Valid() && AllOnLoan(past, c.loaned)
    ensures forall q | q in c.queue :: Intact(c.Views(), c.mem.blocks, q.item)
    ensures forall i: nat | Lent(past, i) :: Intact(c.Views(), c.mem.blocks, past[i].out.value)
  {
    hide Intact, HandedTo, Lent, Connection.TableOk, Connection.MemoryOk, Connection.DecoderOk, Connection.Views;
    forall q | q in c.queue || q in c.loaned ensures Intact(c.Views(), c.mem.blocks, q.item) {
      assert q in c.Kept();
    }
  }

  lemma ArrivedNothing(events: seq<Event>)
    ensures Arrived(events[..0]) == []
  {
  }

  lemma {:induction false} ArrivedConcat(a: seq<Event>, b: seq<Event>)
    ensures Arrived(a + b) == Arrived(a) + Arrived(b)
  {
    if a == [] {
      assert a + b == b;
    } else {
      assert (a + b)[1..] == a[1..] + b;
      ArrivedConcat(a[1..], b);
    }
  }

  lemma ArrivedNext(events: seq<Event>, i: nat, before: Bytes)
    requires i < |events|
    ensures before + Arrived(events[..i]) + Arrived([events[i]]) == before + Arrived(events[..i + 1])
  {
    hide Arrived;
    assert events[..i + 1] == events[..i] + [events[i]];
    ArrivedConcat(events[..i], [events[i]]);
  }

  /** More octets do not mend a broken stream. */
  lemma FailureStays(start: Position, before: Bytes, events: seq<Event>, i: nat, seen: seq<Piece>, status: Status)
    requires PositionOk(start) && i <= |events| && status != Ok
    requires Explains(ReadAt(start, before + Arrived(events[..i])), seen, Failed(status))
    ensures ReadAt(start, before + Arrived(events)) == ReadAt(start, before + Arrived(events[..i]))
  {
    hide Arrived, ReadAt, PositionOk;
    assert events == events[..i] + events[i..];
    ArrivedConcat(events[..i], events[i..]);
    ReadAtConcat(start, before + Arrived(events[..i]), Arrived(events[i..]));
    assert before + Arrived(events) == before + Arrived(events[..i]) + Arrived(events[i..]);
  }

  /** Any run, from the start of the connection or from any later point, up to the first failure.  However
      the octets arrive and whatever is released in between: what was swallowed, what the application got,
      the queue and what is still to be read are together exactly the frames of the stream, each once, in
      order, with its octets; only heartbeats are swallowed.  Every frame in the queue has its octets in
      memory.  So has every frame the application took, from the turn in which it got it until its channel
      is released or, on channel 0, a heartbeat is swallowed. */
  method Drive(c: Connection, events: seq<Event>, sizes: nat -> seq<nat>)
    returns (status: Status, taken: seq<Delivered>, ghost past: seq<Turn>)
    requires c.Valid() && Running(c.Pos()) && c.SizesOk(sizes) && c.queue == []
    modifies c, c.table, c.headerBuffer, c.mem, c.pools.Values
    ensures c.Valid() && fresh(c.pools.Values - old(c.pools.Values))
    ensures |past| <= |events| && forall i | 0 <= i < |past| :: past[i].event == events[i] && TurnOk(past[i])
    ensures taken == Taken(past) && (status == Ok ==> |past| == |events|)
    ensures Explains(ReadAt(old(c.Pos()), old(c.inbox) + Arrived(events[..|past|])), Seen(past) + Held(c.queue),
                     Ahead(status, c.Pos(), c.inbox))
    ensures status != Ok ==> ReadAt(old(c.Pos()), old(c.inbox) + Arrived(events))
                             == ReadAt(old(c.Pos()), old(c.inbox) + Arrived(events[..|past|]))
    ensures forall q | q in c.queue :: Intact(c.Views(), c.mem.blocks, q.item)
    ensures forall i: nat | Lent(past, i) :: Intact(c.Views(), c.mem.blocks, past[i].out.value)
    ensures (forall e | e in events :: !e.Poll?) ==> c.queue == [] && Quiet(FramesOf(taken))
  {
    hide Running, ReadAt, Explains, Held, Connection.Valid, Connection.Views, Quiet, AllOnLoan, Intact, Lent, Seen, Taken;
    hide TurnOk, FramesOf, Arrived, PositionOk, Connection.SizesOk;
    ghost var start, before := c.Pos(), c.inbox;
    RunningIsOk(start);
    status, taken, past := Ok, [], [];
    HeldHead(c.queue);
    RunStarts(ReadAt(start, before), c.loaned);
    assert before + Arrived(events[..0]) == before by { ArrivedNothing(events); }
    for i := 0 to |events|
      invariant |past| == i && status == Ok && taken == Taken(past)
      invariant forall j | 0 <= j < i :: past[j].event == events[j] && TurnOk(past[j])
      invariant c.Valid() && fresh(c.pools.Values - old(c.pools.Values)) && Running(c.Pos())
      invariant Explains(ReadAt(start, before + Arrived(events[..i])), Seen(past) + Held(c.queue), ReadAt(c.Pos(), c.inbox))
      invariant AllOnLoan(past, c.loaned)
      invariant (forall e | e in events :: !e.Poll?) ==> c.queue == [] && Quiet(FramesOf(taken))
    {
      var out;
      ghost var swallowed;
      status, out, swallowed := Handle(c, events[i], sizes, start, before + Arrived(events[..i]), past);
      OneTurn(past, Turn(events[i], swallowed, out));
      QuietNext(taken, out);
      assert taken + [] == taken;
      past := past + [Turn(events[i], swallowed, out)];
      if out.Some? {
        taken := taken + [out.value];
      }
      ArrivedNext(events, i, before);
      if status != Ok {
        FailureStays(start, before, events, i + 1, Seen(past) + Held(c.queue), status);
        break;
      }
    }
    assert events[..|events|] == events;
    LoansIntact(c, past);
  }

  /** A program that releases everything before each message, as the consumer does, has all frames of the
      message in memory at its end. */
  lemma LentSinceRelease(past: seq<Turn>, from: nat, i: nat)
    requires from <= i < |past| && past[i].out.Some? && ChannelOf(past[i].out.value.frame) != 0
    requires forall j | from < j < |past| :: !past[j].event.MaybeRelease? && !past[j].event.ReleaseChannel?
    ensures Lent(past, i)
  {
    forall t | t in past[i + 1..] ensures !GivesUp(t, ChannelOf(past[i].out.value.frame)) {
      var k :| 0 <= k < |past[i + 1..]| && past[i + 1..][k] == t;
      assert t == past[i + 1 + k];
    }
  }

  // ---------- what the application makes of it ----------

  lemma {:induction false} OnlyHeartbeats(ps: seq<Piece>)
    requires forall q | q in ps :: q.frame.HeartbeatFrame?
    ensures WithoutHeartbeats(FramesIn(ps)) == []
  {
    if ps != [] {
      OnlyHeartbeats(ps[1..]);
      assert FramesIn(ps)[1..] == FramesIn(ps[1..]);
    }
  }

  /** Heartbeats aside, the application took what was seen. */
  lemma {:induction false} SeenTaken(past: seq<Turn>)
    requires forall t | t in past :: TurnOk(t)
    ensures WithoutHeartbeats(FramesIn(Seen(past))) == WithoutHeartbeats(FramesOf(Taken(past)))
  {
    hide WithoutHeartbeats;
    if past == [] {
      assert FramesIn(Seen(past)) == [] == FramesOf(Taken(past));
    } else {
      var n := |past| - 1;
      var before, t := past[..n], past[n];
      assert t in past;
      SeenTaken(before);
      OnlyHeartbeats(t.swallowed);
      FramesConcat(Seen(before), t.swallowed + PieceIn(t.out));
      FramesConcat(t.swallowed, PieceIn(t.out));
      WithoutConcat(FramesIn(Seen(before)), FramesIn(t.swallowed + PieceIn(t.out)));
      WithoutConcat(FramesIn(t.swallowed), FramesIn(PieceIn(t.out)));
      WithoutConcat(FramesOf(Taken(before)), FramesOf(AsSeq(t.out)));
      assert FramesOf(Taken(past)) == FramesOf(Taken(before)) + FramesOf(AsSeq(t.out));
      assert FramesIn(PieceIn(t.out)) == FramesOf(AsSeq(t.out));
      assert [] + WithoutHeartbeats(FramesOf(AsSeq(t.out))) == WithoutHeartbeats(FramesOf(AsSeq(t.out)));
    }
  }

  /** The run has gone through the whole stream of these frames. */
  ghost predicate RanThrough(past: seq<Turn>, fs: seq<Frame>, ahead: Reading)
    requires forall f | f in fs :: FrameTyped(f)
  {
    && (forall t | t in past :: TurnOk(t))
    && Explains(ReadAt(BOUNDARY, Stream(fs)), Seen(past), ahead) && ahead.pieces == []
  }

  lemma StreamTaken(fs: seq<Frame>, past: seq<Turn>, ahead: Reading)
    requires forall f | f in fs :: FrameTyped(f) && Sendable(f)
    requires RanThrough(past, fs, ahead)
    ensures ahead == Reading([], BOUNDARY, Ok) && Seen(past) == Pieces(Stream(fs))
    ensures WithoutHeartbeats(FramesOf(Taken(past))) == CanonFrames(WithoutHeartbeats(fs))
  {
    hide FrameTyped, FrameFits, Frames.Payload, Stream, Parse, Pieces, WithoutHeartbeats, Seen, Taken, TurnOk;
    var s := Stream(fs);
    assert [] + s == s;
    StreamTrip(fs);
    PiecesFrames(s);
    SeenTaken(past);
    CanonWithoutHeartbeats(fs);
    assert Seen(past) + [] == Seen(past);
  }

  /** Once a run has gone through a stream of messages, with heartbeats anywhere, the consumer loop over what
      the application took receives exactly the bodies of the messages if and only if no heartbeat it took
      stands between the frames of a message. */
  lemma RunDeliversIff(ms: seq<Message>, fs: seq<Frame>, past: seq<Turn>, ahead: Reading)
    requires AllCut(ms) && forall m | m in ms :: MessageOk(m)
    requires (forall f | f in fs :: FrameTyped(f)) && WithoutHeartbeats(fs) == AllFrames(ms)
    requires RanThrough(past, fs, ahead)
    ensures ahead == Reading([], BOUNDARY, Ok)
    ensures var taken := FramesOf(Taken(past)); Consume(taken) == Consumed(Bodies(ms), Waiting) <==> OnlyBetween(taken, ms)
  {
    hide *;
    AllSendable(fs, ms);
    StreamTaken(fs, past, ahead);
    ConsumedIff(FramesOf(Taken(past)), ms);
  }

  /** Without polling no heartbeat is ever handed out, and then the bodies always arrive. */
  lemma RunDelivers(ms: seq<Message>, fs: seq<Frame>, past: seq<Turn>, ahead: Reading)
    requires AllCut(ms) && forall m | m in ms :: MessageOk(m)
    requires (forall f | f in fs :: FrameTyped(f)) && WithoutHeartbeats(fs) == AllFrames(ms)
    requires RanThrough(past, fs, ahead) && Quiet(FramesOf(Taken(past)))
    ensures Consume(FramesOf(Taken(past))) == Consumed(Bodies(ms), Waiting)
  {
    hide *;
    AllSendable(fs, ms);
    StreamTaken(fs, past, ahead);
    QuietStays(FramesOf(Taken(past)));
    MessagesConsumed(ms);
  }

  lemma FirstIn(ps: seq<Piece>)
    ensures ps != [] ==> ps[0].frame in FramesIn(ps) && ps[0] in ps
  {
    assert ps != [] ==> FramesIn(ps)[0] == ps[0].frame;
  }

  lemma {:induction false} NothingSwallowed(past: seq<Turn>)
    requires (forall t | t in past :: TurnOk(t)) && Quiet(FramesIn(Seen(past)))
    ensures |Seen(past)| == |Taken(past)| && forall i | 0 <= i < |Taken(past)| :: Seen(past)[i] == PieceOf(Taken(past)[i])
  {
    if past != [] {
      var n := |past| - 1;
      var before, t := past[..n], past[n];
      assert t in past;
      FramesConcat(Seen(before), t.swallowed + PieceIn(t.out));
      FramesConcat(t.swallowed, PieceIn(t.out));
      NothingSwallowed(before);
      FirstIn(t.swallowed);
    }
  }

  lemma CanonSkips(m: Frame, content: seq<Frame>)
    ensures CanonFrames([m] + content)[1..] == CanonFrames(content) + []
  {
    CanonConcat([m], content);
  }

  /** Without heartbeats, the application has exactly the frames that were sent. */
  lemma SentTaken(fs: seq<Frame>, past: seq<Turn>)
    requires (forall f | f in fs :: FrameTyped(f) && Sendable(f)) && Quiet(fs)
    requires (forall t | t in past :: TurnOk(t)) && Seen(past) == Pieces(Stream(fs))
    ensures |Taken(past)| == |fs| && FramesOf(Taken(past)) == CanonFrames(fs)
    ensures forall i | 0 <= i < |fs| :: PieceOf(Taken(past)[i]) == Piece(CanonFrame(fs[i]), FrameBytes(fs[i]))
  {
    hide FrameTyped, FrameFits, Frames.Payload, FrameBytes, Stream, Pieces, Seen, Taken, TurnOk;
    PiecesTrip(fs);
    forall f | f in FramesIn(Seen(past)) ensures !f.HeartbeatFrame? {
      var i :| 0 <= i < |Seen(past)| && FramesIn(Seen(past))[i] == f;
      assert f == CanonFrame(fs[i]) && fs[i] in fs;
    }
    NothingSwallowed(past);
  }

  lemma PublicationQuiet(channel: nat, exchange: Bytes, routingKey: Bytes, mandatory: int, immediate: int,
                         props: Properties, body: Bytes, frameMax: nat)
    requires HEADER_SIZE + FOOTER_SIZE < frameMax
    ensures Quiet([PublishMethod(channel, exchange, routingKey, mandatory, immediate)] + ContentFrames(channel, props, body, frameMax))
  {
  }

  /** From one end to the other: once a run has gone through everything a successful `Publisher.Publish`
      wrote, the application has exactly its frames, with exactly the octets they were sent as: the publish
      method, and content that joins up to the body. */
  lemma PublishedTaken(channel: nat, exchange: Bytes, routingKey: Bytes, mandatory: int, immediate: int,
                       props: Properties, body: Bytes, frameMax: nat, past: seq<Turn>, ahead: Reading)
    requires channel < TWO16 && |body| < TWO64 && PropsTyped(BASIC_CLASS, props)
    requires HEADER_SIZE + FOOTER_SIZE < frameMax < TWO32
    requires |exchange| <= 255 && |routingKey| <= 255 && PropsFit(BASIC_CLASS, props)
    requires var fs := [PublishMethod(channel, exchange, routingKey, mandatory, immediate)] + ContentFrames(channel, props, body, frameMax);
             (forall f | f in fs :: FrameTyped(f) && |FrameBytes(f)| <= frameMax) && RanThrough(past, fs, ahead)
    ensures var fs := [PublishMethod(channel, exchange, routingKey, mandatory, immediate)] + ContentFrames(channel, props, body, frameMax);
            && ahead == Reading([], BOUNDARY, Ok) && |Taken(past)| == |fs|
            && (forall i | 0 <= i < |fs| :: PieceOf(Taken(past)[i]) == Piece(CanonFrame(fs[i]), FrameBytes(fs[i])))
            && TakeContent(FramesOf(Taken(past))[1..]) == Complete(body, [])
  {
    var m, content := PublishMethod(channel, exchange, routingKey, mandatory, immediate), ContentFrames(channel, props, body, frameMax);
    var fs := [m] + content;
    hide *;
    PublicationSendable(channel, exchange, routingKey, mandatory, immediate, props, body, frameMax);
    StreamTaken(fs, past, ahead);
    PublicationQuiet(channel, exchange, routingKey, mandatory, immediate, props, body, frameMax);
    SentTaken(fs, past);
    CanonConcat([m], content);
    CanonSkips(m, content);
    PublicationJoins(channel, props, body, frameMax, []);
  }
}
