/**
  The receiving half of a connection (amqp_connection.c, amqp_socket.c): a frame decoder that can stop
  after any octet, a pool of memory for each channel, and a queue of decoded frames that point into
  that memory.
 */
module Connection {
  import opened Wire
  import opened Frames
  import opened Decoder
  import opened FrameCodec
  import opened PoolAllocator
  import opened Arena

  const POOL_TABLE_SIZE := 16

  /** The sizes of amqp_frame_t and amqp_link_t on a 64-bit machine; any positive sizes would do. */
  const FRAME_RECORD := 48
  const LINK_RECORD := 16

  datatype Phase = IDLE | INITIAL | HEADER | BODY

  /** Where received octets go: the header buffer of the connection, pool memory, or nowhere after the
      pool gave none. */
  datatype Inbound = HeaderBuffer | InPool(range: Range) | NoBuffer

  datatype PoolEntry = PoolEntry(channel: nat, pool: Pool)

  function Bucket(channel: nat): (i: nat)
    ensures i < POOL_TABLE_SIZE
  {
    channel % POOL_TABLE_SIZE
  }

  /** The hash chains hold the pool of every channel, each in the bucket of its channel. */
  ghost predicate ChainsHold(chains: seq<seq<PoolEntry>>, pools: map<nat, Pool>) {
    && |chains| == POOL_TABLE_SIZE
    && (forall c, d | c in pools && d in pools && c != d :: pools[c] != pools[d])
    && (forall c | c in pools :: PoolEntry(c, pools[c]) in chains[Bucket(c)])
    && (forall i, e | 0 <= i < POOL_TABLE_SIZE && e in chains[i] ::
          Bucket(e.channel) == i && e.channel in pools && pools[e.channel] == e.pool)
  }

  lemma ChainsGrow(chains: seq<seq<PoolEntry>>, pools: map<nat, Pool>, c: nat, pool: Pool)
    requires ChainsHold(chains, pools) && c !in pools && pool !in pools.Values
    ensures ChainsHold(chains[Bucket(c) := [PoolEntry(c, pool)] + chains[Bucket(c)]], pools[c := pool])
  {
    hide Bucket;
  }

  /** The channels on which a frame waits in the queue. */
  ghost function WaitingChannels(queue: seq<Queued>): set<nat> {
    set q | q in queue :: ChannelOf(q.item.frame)
  }

  function PieceOf(d: Delivered): Piece {
    Piece(d.frame, d.octets)
  }

  /** The frames in the queue, with their octets. */
  ghost function Held(queue: seq<Queued>): seq<Piece> {
    seq(|queue|, i requires 0 <= i < |queue| => PieceOf(queue[i].item))
  }

  lemma HeldAppend(q: seq<Queued>, q': seq<Queued>)
    requires |q'| == |q| + 1 && q'[..|q|] == q
    ensures Held(q') == Held(q) + [PieceOf(q'[|q|].item)] && q <= q'
  {
    assert forall i | 0 <= i < |q| :: q'[i] == q'[..|q|][i];
  }

  function PieceIn(out: Option<Delivered>): seq<Piece> {
    if out.Some? then [PieceOf(out.value)] else []
  }

  /** The frame delivered, with its octets, is the one the call reports. */
  predicate Reports(r: StepResult, out: Option<Delivered>) {
    match out
    case None => r.frame == None
    case Some(d) => r.frame == Some(d.frame) && d.octets == r.octets
  }

  lemma ReportsPiece(r: StepResult, out: Option<Delivered>)
    requires Reports(r, out)
    ensures Reported(r) == PieceIn(out)
  {
  }

  /** What releasing the memory of the channels in `done` leaves: channels with waiting frames and all
      other channels are untouched. */
  ghost predicate Released(before: Pools, after: Pools, waiting: set<nat>, done: set<nat>) {
    && after.Keys == before.Keys
    && forall c | c in after ::
         if c in waiting || c !in done then after[c] == before[c] else after[c].live == []
  }

  /** Those whose channel is not in `gone`. */
  ghost function Keep(loans: seq<Queued>, gone: set<nat>): (r: seq<Queued>)
    ensures forall q | q in r :: q in loans && ChannelOf(q.item.frame) !in gone
    ensures forall q | q in loans && ChannelOf(q.item.frame) !in gone :: q in r
  {
    if loans == [] then []
    else (if ChannelOf(loans[0].item.frame) in gone then [] else [loans[0]]) + Keep(loans[1..], gone)
  }

  lemma KeepStep(q: Queued, rest: seq<Queued>, gone: set<nat>)
    ensures Keep([q] + rest, gone) == (if ChannelOf(q.item.frame) in gone then [] else [q]) + Keep(rest, gone)
  {
    assert ([q] + rest)[1..] == rest;
  }

  lemma {:induction false} KeepTwice(loans: seq<Queued>, a: set<nat>, b: set<nat>)
    ensures Keep(Keep(loans, a), b) == Keep(loans, a + b)
  {
    if loans != [] {
      var q, rest := loans[0], loans[1..];
      assert loans == [q] + rest;
      KeepTwice(rest, a, b);
      hide Keep;
      KeepStep(q, rest, a);
      KeepStep(q, rest, a + b);
      KeepStep(q, Keep(rest, a), b);
      assert [] + Keep(rest, a) == Keep(rest, a);
    }
  }

  lemma {:induction false} KeepAll(loans: seq<Queued>)
    ensures Keep(loans, {}) == loans
  {
    if loans != [] {
      KeepAll(loans[1..]);
    }
  }

  /** The channels of the first entries of a bucket. */
  function Channels(chain: seq<PoolEntry>): set<nat> {
    set e | e in chain :: e.channel
  }

  lemma OneReleased(before: Pools, waiting: set<nat>, channel: nat)
    requires channel !in waiting
    ensures if channel in before then Released(before, before[channel := AfterRecycle(before[channel])], waiting, {channel})
            else Released(before, before, waiting, {channel})
  {
  }

  class Connection {
    const mem: Memory
    var frameMax: nat
    const table: array<seq<PoolEntry>>
    const headerBuffer: array<Byte>

    var state: Phase
    var inbound: Inbound
    var inboundOffset: nat
    var targetSize: nat
    /** The octets read from the socket and not consumed yet. */
    var inbox: Bytes
    var queue: seq<Queued>

    /** The octets received since the last frame boundary. */
    ghost var received: Bytes
    /** The pool of each channel that has one. */
    ghost var pools: map<nat, Pool>
    /** The frames the application took and whose memory was not released since. */
    ghost var loaned: seq<Queued>

    /** Everything whose memory must stay as it is. */
    ghost function Kept(): seq<Queued>
      reads this`loaned, this`queue
    {
      loaned + queue
    }

    ghost function Views(): Pools
      reads this`pools, pools.Values
    {
      map c | c in pools :: pools[c].View()
    }

    ghost function Pos(): Position
      reads this`state, this`received
    {
      Position(state == INITIAL && |received| < 8, received)
    }

    // ---------- invariants ----------

    ghost predicate TableOk()
      reads this`pools, table
    {
      ChainsHold(table[..], pools)
    }

    ghost predicate MemoryOk()
      reads this`pools, mem, pools.Values
    {
      mem.Valid() && PoolsOk(Views(), mem.blocks)
    }

    /** The inbound buffer holds the octets received so far and has room for the rest; pool memory is
        memory of channel `channel` and disjoint from every queued frame. */
    ghost predicate BufferOk(channel: nat)
      reads this`inboundOffset, this`received, this`targetSize, this`inbound, this`queue, this`loaned, this`pools
      reads mem, headerBuffer, pools.Values
    {
      && inboundOffset == |received|
      && match inbound
         case HeaderBuffer =>
           |received| <= targetSize <= headerBuffer.Length == HEADER_SIZE + 1 && headerBuffer[..|received|] == received
         case InPool(r) =>
           targetSize <= r.len && HandedTo(Views(), channel, r) && Holds(mem.blocks, r, received) && QueueApart(Kept(), r)
         case NoBuffer => targetSize == 0
    }

    /** The size of the frame wrapped around to 0, and so the pool gave no memory for it. */
    ghost predicate NothingGiven()
      reads this`state, this`inboundOffset, this`received, this`targetSize, this`inbound
    {
      && inbound == NoBuffer && inboundOffset == |received| == (if state == INITIAL then 8 else HEADER_SIZE)
      && targetSize == 0 == Target(received)
    }

    /** The decoder's fields say where it stands. */
    ghost predicate DecoderOk()
      reads this`state, this`received, this`inboundOffset, this`targetSize, this`inbound, this`queue, this`loaned, this`pools
      reads mem, headerBuffer, pools.Values
    {
      && headerBuffer.Length == HEADER_SIZE + 1
      && PositionOk(Pos())
      && match state
         case IDLE => received == [] && targetSize == HEADER_SIZE && inbound == HeaderBuffer && BufferOk(0)
         case INITIAL =>
           NothingGiven() || (|received| < 8 == targetSize && inbound == HeaderBuffer && BufferOk(0) && pools == map[])
         case HEADER =>
           NothingGiven() || (0 < |received| < HEADER_SIZE == targetSize && inbound == HeaderBuffer && BufferOk(0))
         case BODY =>
           && HEADER_SIZE <= |received| && targetSize == Target(received)
           && inbound.InPool? && BufferOk(D16(received, 1))
    }

    /** Every frame in the queue, and every frame on loan, still has all its octets. */
    ghost predicate QueueIntact()
      reads this`pools, this`queue, this`loaned, mem, pools.Values
    {
      QueueOk(Views(), mem.blocks, Kept())
    }

    ghost predicate Valid()
      reads this`state, this`received, this`inboundOffset, this`targetSize, this`inbound, this`queue, this`loaned, this`pools
      reads mem, table, headerBuffer, pools.Values
    {
      TableOk() && MemoryOk() && DecoderOk() && QueueIntact()
    }

    constructor (frameMax: nat)
      ensures Valid() && fresh(mem) && fresh(table) && fresh(headerBuffer) && pools == map[]
      ensures Pos() == Position(true, []) && queue == [] && inbox == [] && loaned == []
    {
      mem := new Memory();
      this.frameMax := frameMax;
      table := new seq<PoolEntry>[POOL_TABLE_SIZE](_ => []);
      headerBuffer := new Byte[HEADER_SIZE + 1](_ => 0);
      state, inbound, inboundOffset, targetSize := INITIAL, HeaderBuffer, 0, 8;
      inbox, queue := [], [];
      received, pools, loaned := [], map[], [];
    }

    /** amqp_tune_connection: pools made from now on have pages of the new size. */
    method TuneConnection(frameMax: nat)
      requires Valid() && state == IDLE
      modifies this`frameMax
      ensures Valid() && this.frameMax == frameMax
    {
      hide TableOk, MemoryOk, DecoderOk, QueueIntact;
      this.frameMax := frameMax;
    }

    // ---------- the pool table ----------

    method GetChannelPool(channel: nat) returns (pool: Pool?)
      requires TableOk()
      ensures if channel in pools then pool == pools[channel] else pool == null
    {
      hide Bucket;
      var chain := table[Bucket(channel)];
      assert chain == table[..][Bucket(channel)];
      for i := 0 to |chain|
        invariant forall j | 0 <= j < i :: chain[j].channel != channel
      {
        if chain[i].channel == channel {
          return chain[i].pool;
        }
      }
      pool := null;
    }

    lemma TableSize()
      requires TableOk()
      ensures table.Length == POOL_TABLE_SIZE
    {
    }

    method AddPool(channel: nat, pool: Pool)
      requires TableOk() && MemoryOk() && QueueIntact()
      requires channel !in pools && pool !in pools.Values && pool.View() == PoolAllocator.Initial(frameMax)
      modifies this`pools, table
      ensures TableOk() && MemoryOk() && QueueIntact()
      ensures pools == old(pools)[channel := pool]
      ensures Views() == old(Views())[channel := PoolAllocator.Initial(frameMax)]
    {
      hide PoolsOk, QueueOk, ChainsHold, PoolAllocator.Initial;
      assert table.Length == POOL_TABLE_SIZE by { TableSize(); }
      ghost var views := Views();
      NewPoolOk(views, mem.blocks, channel, frameMax, Kept());
      ChainsGrow(table[..], pools, channel, pool);
      ghost var chains := table[..];
      var bucket := Bucket(channel);
      table[bucket] := [PoolEntry(channel, pool)] + table[bucket];
      assert table[..] == chains[bucket := [PoolEntry(channel, pool)] + chains[bucket]];
      pools := pools[channel := pool];
      assert Views() == views[channel := PoolAllocator.Initial(frameMax)];
    }

    method GetOrCreateChannelPool(channel: nat) returns (pool: Pool)
      requires TableOk() && MemoryOk() && QueueIntact()
      modifies this`pools, table
      ensures TableOk() && MemoryOk() && QueueIntact()
      ensures channel in pools && pool == pools[channel]
      ensures if channel in old(pools) then pools == old(pools) && table[..] == old(table[..])
              else fresh(pool) && pools == old(pools)[channel := pool] && pool.View() == PoolAllocator.Initial(frameMax)
      ensures Views() == if channel in old(pools) then old(Views())
                         else old(Views())[channel := PoolAllocator.Initial(frameMax)]
    {
      hide TableOk, MemoryOk, QueueIntact, Views, PoolAllocator.Initial;
      var found := GetChannelPool(channel);
      if found != null {
        return found;
      }
      pool := new Pool(frameMax);
      AddPool(channel, pool);
    }

    /** amqp_pool_alloc on the pool of a channel; every frame in the queue stays intact, and the new
        range is disjoint from all of them. */
    method PoolAlloc(pool: Pool, ghost channel: nat, amount: nat) returns (r: Range)
      requires TableOk() && MemoryOk() && QueueIntact()
      requires channel in pools && pools[channel] == pool && 0 < amount <= SIZE_MAX
      modifies pool, mem
      ensures TableOk() && MemoryOk() && QueueIntact()
      ensures Allocated(old(Views()), old(mem.blocks), channel, old(mem.next), amount, Views(), mem.blocks)
      ensures r.len == Rounded(amount) && Views()[channel].live == old(Views()[channel].live) + [r]
      ensures HandedTo(Views(), channel, r) && QueueApart(Kept(), r)
    {
      hide PoolsOk, QueueOk, QueueApart, Inv, Backed, AfterAlloc, HeapAfter;
      ghost var views, heap, next := Views(), mem.blocks, mem.next;
      PoolOk(views, heap, channel);
      assert next !in heap;
      var got := pool.Alloc(mem, amount);
      r := got.value;
      assert Views() == views[channel := AfterAlloc(views[channel], next, amount)];
      AllocPoolsOk(views, heap, channel, next, amount, Views(), mem.blocks);
      AllocQueueOk(views, heap, channel, next, amount, Views(), mem.blocks, Kept());
      AllocQueueApart(views, heap, channel, next, amount, Views(), mem.blocks, Kept());
      OneMore(views, heap, channel, next, amount);
    }

    // ---------- receiving ----------

    method ReturnToIdle()
      modifies this`inbound, this`inboundOffset, this`targetSize, this`state, this`received
      ensures state == IDLE && inbound == HeaderBuffer && inboundOffset == 0 && targetSize == HEADER_SIZE && received == []
    {
      inbound, inboundOffset, targetSize, state := HeaderBuffer, 0, HEADER_SIZE, IDLE;
      received := [];
    }

    method CopyIntoHeader(data: Bytes)
      requires headerBuffer.Length == HEADER_SIZE + 1 && inboundOffset + |data| <= HEADER_SIZE + 1
      modifies headerBuffer
      ensures headerBuffer[..inboundOffset + |data|] == old(headerBuffer[..inboundOffset]) + data
    {
      forall i | 0 <= i < |data| {
        headerBuffer[inboundOffset + i] := data[i];
      }
    }

    method CopyIntoPool(r: Range, ghost held: Bytes, at: nat, data: Bytes)
      requires MemoryOk() && QueueIntact() && QueueApart(Kept(), r)
      requires at == |held| && Holds(mem.blocks, r, held) && |held| + |data| <= r.len
      modifies mem`blocks
      ensures MemoryOk() && QueueIntact() && Holds(mem.blocks, r, held + data)
      ensures r.block in old(mem.blocks) && r.off + at + |data| <= |old(mem.blocks)[r.block]|
      ensures mem.blocks == Written(old(mem.blocks), r, at, data)
    {
      hide PoolsOk, QueueOk, QueueApart, Written, Holds;
      WriteNextKeeps(Views(), mem.blocks, r, held, data, Kept());
      mem.blocks := Written(mem.blocks, r, at, data);
    }

    /** Copies what is available and still fits behind the octets received so far. */
    method ConsumeData(data: Bytes, ghost channel: nat) returns (n: nat)
      requires MemoryOk() && QueueIntact() && BufferOk(channel) && inboundOffset <= targetSize && !inbound.NoBuffer?
      modifies this`inboundOffset, this`received, headerBuffer, mem`blocks
      ensures MemoryOk() && QueueIntact() && BufferOk(channel)
      ensures n == if |data| < targetSize - old(|received|) then |data| else targetSize - old(|received|)
      ensures received == old(received) + data[..n] && |received| <= targetSize
    {
      hide PoolsOk, QueueOk, QueueApart, HandedTo, Holds, Views, MemoryOk, QueueIntact;
      n := targetSize - inboundOffset;
      if |data| < n {
        n := |data|;
      }
      match inbound {
        case HeaderBuffer => CopyIntoHeader(data[..n]);
        case InPool(r) => CopyIntoPool(r, received, inboundOffset, data[..n]);
      }
      inboundOffset := inboundOffset + n;
      received := received + data[..n];
    }

    ghost predicate ZeroRange(r: Range)
      reads mem
    {
      r.off == 0 && r.block in mem.blocks && forall i | 0 <= i < |mem.blocks[r.block]| :: mem.blocks[r.block][i] == 0
    }

    lemma RangeIsThere(channel: nat, r: Range)
      requires MemoryOk() && HandedTo(Views(), channel, r)
      ensures Holds(mem.blocks, r, [])
    {
      hide PoolsOk, HandedTo, Holds;
      HoldsNothing(Views(), mem.blocks, channel, r);
    }

    lemma FirstRange(views: Pools, heap: Heap, channel: nat, next: nat, size: nat, r: Range)
      requires Allocated(views, heap, channel, next, size, Views(), mem.blocks)
      requires channel in views && views[channel] == PoolAllocator.Initial(frameMax)
      requires channel in Views() && Views()[channel].live == views[channel].live + [r]
      ensures ZeroRange(r)
    {
      hide Allocated, PoolAllocator.Initial, Views;
      FirstIsZero(views, heap, channel, next, size, Views(), mem.blocks, frameMax, r);
    }

    lemma ViewsKeys()
      ensures Views().Keys == pools.Keys
    {
    }

    /** Memory for a frame of `size` octets on `channel`.  The first memory a connection takes is
        zeroed. */
    method FrameMemory(channel: nat, size: nat) returns (r: Range)
      requires TableOk() && MemoryOk() && QueueIntact() && 0 < size < TWO32
      modifies this`pools, table, mem, pools.Values
      ensures TableOk() && MemoryOk() && QueueIntact() && fresh(pools.Values - old(pools.Values))
      ensures channel in pools && size <= r.len && 8 <= r.len && HandedTo(Views(), channel, r) && QueueApart(Kept(), r)
      ensures Holds(mem.blocks, r, [])
      ensures old(pools) == map[] ==> ZeroRange(r)
    {
      hide TableOk, QueueIntact, MemoryOk, QueueApart, HandedTo, Holds, Rounded, PoolAllocator.Initial, Allocated, Kept, Views, ZeroRange;
      var pool := GetOrCreateChannelPool(channel);
      ghost var views, heap, next := Views(), mem.blocks, mem.next;
      r := PoolAlloc(pool, channel, size);
      RoundedCoversIff(size);
      RangeIsThere(channel, r);
      if old(pools) == map[] {
        ViewsKeys();
        FirstRange(views, heap, channel, next, size, r);
      }
    }

    lemma HeadOf(head: Bytes, s: Bytes)
      requires |head| == HEADER_SIZE <= |s| && s[..HEADER_SIZE] == head
      ensures D16(s, 1) == D16(head, 1) && Target(s) == Target(head)
    {
      assert forall i | 0 <= i < HEADER_SIZE :: s[i] == s[..HEADER_SIZE][i];
    }

    /** Later octets do not change the channel or the size a frame header announces. */
    lemma SameHead(s: Bytes, t: Bytes)
      requires HEADER_SIZE <= |s| && s <= t
      ensures D16(t, 1) == D16(s, 1) && Target(t) == Target(s)
    {
      assert t[..HEADER_SIZE] == s[..HEADER_SIZE];
      HeadOf(s[..HEADER_SIZE], s);
      HeadOf(s[..HEADER_SIZE], t);
    }

    /** Copies the header to the start of the frame's memory.  If `first`, the memory is zeroed, and
        the eighth octet of the frame counts as received too. */
    method CopyHead(r: Range, head: Bytes, ghost first: bool) returns (ghost octets: Bytes)
      requires MemoryOk() && QueueIntact() && QueueApart(Kept(), r)
      requires Holds(mem.blocks, r, []) && |head| < r.len
      requires first ==> ZeroRange(r)
      modifies mem`blocks
      ensures MemoryOk() && QueueIntact()
      ensures octets == (if first then head + [0] else head) && Holds(mem.blocks, r, octets)
    {
      hide PoolsOk, QueueOk, QueueApart, MemoryOk, QueueIntact, Holds, Written;
      ghost var heap := mem.blocks;
      ReadBack(heap, r, []);
      CopyIntoPool(r, [], 0, head);
      assert [] + head == head;
      octets := head;
      if first {
        WriteOverZero(heap, r, head);
        octets := head + [0];
      }
    }

    method GiveNothing(ghost head: Bytes)
      requires |received| == inboundOffset == (if state == INITIAL then 8 else HEADER_SIZE)
      requires head == received[..HEADER_SIZE] && Target(head) == 0
      modifies this`received, this`inbound, this`targetSize
      ensures received == if state == INITIAL then Patched(old(received)) else old(received)
      ensures NothingGiven()
    {
      hide D16, Target;
      received := if state == INITIAL then Patched(received) else received;
      inbound, targetSize := NoBuffer, 0;
      HeadOf(head, received);
    }

    method EnterBody(r: Range, size: nat, ghost octets: Bytes)
      requires HEADER_SIZE <= |octets| == inboundOffset && size <= r.len && Target(octets) == size && D16(octets, 1) in pools
      requires HandedTo(Views(), D16(octets, 1), r) && Holds(mem.blocks, r, octets) && QueueApart(Kept(), r)
      modifies this`received, this`inbound, this`targetSize, this`state
      ensures received == octets && state == BODY && inbound == InPool(r) && targetSize == size && BufferOk(D16(octets, 1))
    {
      hide QueueApart, HandedTo, Views, Holds, D16, D32, Target;
      received, inbound, targetSize, state := octets, InPool(r), size, BODY;
    }

    /** The header is complete: takes memory for the whole frame and copies the header there.  On
        a connection that just started eight octets were received, and the eighth is not copied.  If the
        size wraps around to 0 the pool gives no memory. */
    method StartBody() returns (status: Status)
      requires TableOk() && MemoryOk() && QueueIntact() && BufferOk(0) && inbound == HeaderBuffer
      requires if state == INITIAL then |received| == 8 && pools == map[] else state == HEADER && |received| == HEADER_SIZE
      modifies this`pools, this`received, this`inbound, this`targetSize, this`state, table, mem, pools.Values
      ensures TableOk() && MemoryOk() && QueueIntact() && fresh(pools.Values - old(pools.Values))
      ensures received == if old(state) == INITIAL then Patched(old(received)) else old(received)
      ensures status == if Target(received) == 0 then NoMemory else Ok
      ensures status == Ok ==> state == BODY && inbound.InPool? && BufferOk(D16(received, 1)) && D16(received, 1) in pools
      ensures status != Ok ==> state == old(state) && NothingGiven()
      ensures targetSize == Target(received)
    {
      hide PoolsOk, QueueOk, QueueApart, HandedTo, TableOk, MemoryOk, QueueIntact, Views, Holds, D16, D32, Target, ZeroRange, Kept;
      var head := headerBuffer[..HEADER_SIZE];
      var channel, size := D16(head, 1), Target(head);
      if size == 0 {
        var pool := GetOrCreateChannelPool(channel);
        GiveNothing(head);
        return NoMemory;
      }
      var r := FrameMemory(channel, size);
      ghost var octets := CopyHead(r, head, state == INITIAL);
      HeadOf(head, octets);
      EnterBody(r, size, octets);
      status := Ok;
    }

    /** Memory for the decoded records; their sizes are those of the C structures. */
    method AllocRecords(channel: nat, sizes: seq<nat>, ghost raw: Range, ghost octets: Bytes)
      requires TableOk() && MemoryOk() && QueueIntact() && channel in pools
      requires forall n | n in sizes :: 0 < n <= SIZE_MAX
      requires HandedTo(Views(), channel, raw) && Holds(mem.blocks, raw, octets)
      modifies mem, pools.Values
      ensures TableOk() && MemoryOk() && QueueIntact()
      ensures HandedTo(Views(), channel, raw) && Holds(mem.blocks, raw, octets)
    {
      hide ChainsHold, PoolsOk, QueueOk, QueueApart, Holds, HandedTo, Allocated;
      var pool := GetChannelPool(channel);
      for i := 0 to |sizes|
        invariant TableOk() && MemoryOk() && QueueIntact()
        invariant HandedTo(Views(), channel, raw) && Holds(mem.blocks, raw, octets)
      {
        ghost var views, heap, next := Views(), mem.blocks, mem.next;
        assert sizes[i] in sizes;
        var r := PoolAlloc(pool, channel, sizes[i]);
        HandedStays(views, heap, channel, next, sizes[i], Views(), mem.blocks, channel, raw);
        HoldsStays(views, heap, channel, next, sizes[i], Views(), mem.blocks, raw, octets);
      }
    }

    lemma DeliveredIntact(r: Range, raw: Bytes, f: Frame)
      requires |raw| >= HEADER_SIZE && DecodeRaw(raw) == Success(Some(f))
      requires HandedTo(Views(), D16(raw, 1), r) && Holds(mem.blocks, r, raw)
      ensures Intact(Views(), mem.blocks, Delivered(f, Some(r), raw))
    {
      hide HandedTo, Holds, Views, DecodeRaw, D16;
      ChannelRead(raw);
    }

    /** The frame is complete: decodes it and, if that succeeds, is ready for the next one. */
    method FinishBody(sizes: seq<nat>) returns (status: Status, out: Option<Delivered>)
      requires TableOk() && MemoryOk() && QueueIntact()
      requires state == BODY && inbound.InPool? && Complete(received) && |received| == targetSize == Target(received)
      requires headerBuffer.Length == HEADER_SIZE + 1
      requires BufferOk(D16(received, 1)) && D16(received, 1) in pools
      requires forall n | n in sizes :: 0 < n <= SIZE_MAX
      modifies this`inbound, this`inboundOffset, this`targetSize, this`state, this`received, mem, pools.Values
      ensures Valid()
      ensures if DecodeRaw(old(received)).Success?
              then status == Ok && Pos() == Position(false, [])
                   && DecodeRaw(old(received)).value == (if out.Some? then Some(out.value.frame) else None)
              else status == DecodeRaw(old(received)).status && Pos() == Position(false, old(received)) && out == None
      ensures out.Some? ==> out.value.octets == old(received) && out.value.raw == Some(old(inbound).range)
                            && Intact(Views(), mem.blocks, out.value)
    {
      hide ChainsHold, PoolsOk, QueueOk, QueueApart, Holds, HandedTo, Views, DecodeRaw, D16, Target, Intact, Kept;
      out := None;
      var r := inbound.range;
      ReadBack(mem.blocks, r, received);
      var raw := mem.blocks[r.block][r.off..r.off + targetSize];
      AllocRecords(D16(raw, 1), sizes, r, raw);
      var frame;
      status, frame := DecodeFrame(raw);
      if status != Ok { return; }
      ReturnToIdle();
      if frame.Some? {
        out := Some(Delivered(frame.value, Some(r), raw));
        DeliveredIntact(r, raw, frame.value);
      }
    }

    /** The frame's memory is known: takes more of its octets and finishes it if these were the last. */
    method ContinueBody(data: Bytes, sizes: seq<nat>, ghost start: nat) returns (status: Status, consumed: nat, out: Option<Delivered>)
      requires TableOk() && MemoryOk() && QueueIntact() && headerBuffer.Length == HEADER_SIZE + 1
      requires state == BODY && inbound.InPool? && HEADER_SIZE <= |received| <= targetSize == Target(received)
      requires BufferOk(D16(received, 1)) && D16(received, 1) in pools && start <= |received|
      requires forall n | n in sizes :: 0 < n <= SIZE_MAX
      modifies this`inbound, this`inboundOffset, this`targetSize, this`state, this`received
      modifies headerBuffer, mem, pools.Values
      ensures Valid()
      ensures var r := StepFramed(old(received) + data, |old(received)|, start);
              && status == r.status && Pos() == r.position && Reports(r, out)
              && (status == Ok ==> consumed == r.consumed)
      ensures out.Some? ==> status == Ok && Intact(Views(), mem.blocks, out.value)
      ensures old(state) != INITIAL ==> state != INITIAL
    {
      hide ChainsHold, PoolsOk, QueueOk, QueueApart, Holds, HandedTo, Views, DecodeRaw, D16, Target;
      out := None;
      ghost var held, t := received, received + data;
      consumed := ConsumeData(data, D16(received, 1));
      SameHead(held, received);
      SameHead(held, t);
      assert received == t[..|received|];
      if inboundOffset < targetSize {
        assert t[..|t|] == t;
        return Ok, consumed, None;
      }
      status, out := FinishBody(sizes);
    }

    /** Exactly in these states the number of octets still wanted underflows. */
    lemma Underflows()
      requires DecoderOk()
      ensures inboundOffset > targetSize <==> !Pos().initial && Dead(received)
      ensures state == BODY ==> D16(received, 1) in pools
      ensures inboundOffset <= targetSize ==> !NothingGiven()
    {
      hide Target, D16;
    }

    lemma BufferLength()
      requires BufferOk(0) && inbound == HeaderBuffer
      ensures headerBuffer.Length == HEADER_SIZE + 1 && inboundOffset == |received|
      ensures |received| <= headerBuffer.Length && headerBuffer[..|received|] == received
    {
    }

    /** The frame header is there: takes memory for the frame and goes on with its body. */
    method StartAndContinue(data: Bytes, sizes: seq<nat>) returns (status: Status, consumed: nat, out: Option<Delivered>)
      requires TableOk() && MemoryOk() && QueueIntact() && BufferOk(0) && inbound == HeaderBuffer
      requires if state == INITIAL then |received| == 8 && pools == map[] else state == HEADER && |received| == HEADER_SIZE
      requires forall n | n in sizes :: 0 < n <= SIZE_MAX
      modifies this`pools, this`inbound, this`inboundOffset, this`targetSize, this`state, this`received
      modifies table, headerBuffer, mem, pools.Values
      ensures Valid() && fresh(pools.Values - old(pools.Values))
      ensures var r := if old(state) == INITIAL then FirstStep(Patched(old(received) + data), 8)
                       else StepFramed(old(received) + data, HEADER_SIZE, HEADER_SIZE);
              && status == r.status && Pos() == r.position && Reports(r, out)
              && (status == Ok ==> consumed == r.consumed)
      ensures out.Some? ==> status == Ok && Intact(Views(), mem.blocks, out.value)
      ensures old(state) != INITIAL ==> state != INITIAL
    {
      hide TableOk, MemoryOk, QueueIntact, QueueApart, Holds, HandedTo, Views, StepFramed, D16, Target, BufferOk;
      ghost var first, t := state == INITIAL, if state == INITIAL then Patched(received + data) else received + data;
      ghost var start := |received|;
      BufferLength();
      status := StartBody();
      assert received + data == t;
      SameTarget(received, t);
      consumed, out := 0, None;
      if status != Ok {
        StepDead(t, start);
        return;
      }
      if inboundOffset > targetSize {
        StepDead(t, start);
        return Undefined, 0, None;
      }
      if first {
        StepUnwrapped(t);
      }
      status, consumed, out := ContinueBody(data, sizes, start);
    }

    /** A protocol header may arrive instead of the first frame. */
    method CheckProtocolHeader() returns (out: Option<Delivered>)
      requires TableOk() && MemoryOk() && QueueIntact() && headerBuffer.Length == HEADER_SIZE + 1
      requires state == INITIAL && |received| == 8 && headerBuffer[..8] == received
      modifies this`inbound, this`inboundOffset, this`targetSize, this`state, this`received
      ensures if old(received)[..4] == AMQP
              then Valid() && Pos() == Position(false, [])
                   && out == Some(Delivered(HeaderFrameOf(old(received)), None, old(received)))
              else out == None && state == INITIAL && received == old(received) && inbound == old(inbound)
                   && inboundOffset == old(inboundOffset) && targetSize == old(targetSize)
    {
      hide TableOk, MemoryOk, QueueIntact;
      var raw := headerBuffer[..8];
      out := None;
      if raw[..4] == AMQP {
        ReturnToIdle();
        out := Some(Delivered(HeaderFrameOf(raw), None, raw));
      }
    }

    /** Takes the rest of a frame header, or of a protocol header, and goes on from there. */
    method ReceiveHeader(data: Bytes, sizes: seq<nat>) returns (status: Status, consumed: nat, out: Option<Delivered>)
      requires TableOk() && MemoryOk() && QueueIntact() && BufferOk(0) && inbound == HeaderBuffer && data != []
      requires if state == INITIAL then |received| < 8 == targetSize && pools == map[]
               else state == HEADER && |received| < HEADER_SIZE == targetSize
      requires forall n | n in sizes :: 0 < n <= SIZE_MAX
      modifies this`pools, this`inbound, this`inboundOffset, this`targetSize, this`state, this`received
      modifies table, headerBuffer, mem, pools.Values
      ensures Valid() && fresh(pools.Values - old(pools.Values))
      ensures var r := Step(old(Pos()), data);
              && status == r.status && Pos() == r.position && Reports(r, out)
              && (status == Ok ==> consumed == r.consumed)
      ensures out.Some? ==> status == Ok && Intact(Views(), mem.blocks, out.value)
      ensures old(state) != INITIAL ==> state != INITIAL
    {
      hide TableOk, MemoryOk, QueueIntact, QueueApart, Holds, HandedTo, Views, StepFramed, FirstStep, DecodeRaw, D16, Target, Patched, Kept;
      out := None;
      ghost var held, t := |received|, received + data;
      consumed := ConsumeData(data, 0);
      if inboundOffset < targetSize {
        assert received == t;
        if state != INITIAL {
          NotComplete(t, held);
        }
        return Ok, consumed, None;
      }
      assert received + data[consumed..] == t;
      if state == INITIAL {
        assert t[..4] == received[..4];
        out := CheckProtocolHeader();
        if out.Some? {
          return Ok, consumed, out;
        }
      }
      FromStart(if state == INITIAL then Patched(t) else t, held, |received|);
      var more;
      status, more, out := StartAndContinue(data[consumed..], sizes);
      consumed := consumed + more;
    }

    /** amqp_handle_input: consumes octets of at most one frame and reports that frame when its last
        octet arrived.  The memory of every queued frame is left alone, and so is the memory of the frame
        reported. */
    method HandleInput(data: Bytes, sizes: seq<nat>) returns (status: Status, consumed: nat, out: Option<Delivered>)
      requires Valid()
      requires forall n | n in sizes :: 0 < n <= SIZE_MAX
      modifies this`pools, this`inbound, this`inboundOffset, this`targetSize, this`state, this`received
      modifies table, headerBuffer, mem, pools.Values
      ensures Valid() && fresh(pools.Values - old(pools.Values))
      ensures var r := Step(old(Pos()), data);
              && status == r.status && Pos() == r.position && Reports(r, out)
              && (status == Ok ==> consumed == r.consumed)
      ensures out.Some? ==> status == Ok && Intact(Views(), mem.blocks, out.value)
      ensures old(state) != INITIAL ==> state != INITIAL
    {
      hide TableOk, MemoryOk, QueueIntact, QueueApart, Holds, HandedTo, Views, StepFramed, FirstStep, DecodeRaw, D16, Target, Patched;
      StepNotInitial(Pos(), data);
      Underflows();
      if data == [] {
        return Ok, 0, None;
      }
      if inboundOffset > targetSize {
        // target_size - inbound_offset underflows in consume_data
        return Undefined, 0, None;
      }
      if state == BODY {
        status, consumed, out := ContinueBody(data, sizes, HEADER_SIZE);
        return;
      }
      if state == IDLE {
        state := HEADER;
      }
      status, consumed, out := ReceiveHeader(data, sizes);
    }

    // ---------- the queue ----------

    /** Memory for a record, keeping a delivered frame intact and `kept` handed out. */
    method RecordAlloc(pool: Pool, ghost c: nat, amount: nat, ghost d: Delivered, ghost kept: Option<Range>) returns (r: Range)
      requires TableOk() && MemoryOk() && QueueIntact()
      requires c in pools && pools[c] == pool && 0 < amount <= SIZE_MAX
      requires Intact(Views(), mem.blocks, d) && (kept.Some? ==> HandedTo(Views(), c, kept.value))
      modifies pool, mem
      ensures TableOk() && MemoryOk() && QueueIntact() && HandedTo(Views(), c, r)
      ensures Intact(Views(), mem.blocks, d) && (kept.Some? ==> HandedTo(Views(), c, kept.value))
    {
      hide ChainsHold, PoolsOk, QueueOk, QueueApart, Holds, HandedTo, Intact, Allocated, Rounded;
      ghost var views, heap, next := Views(), mem.blocks, mem.next;
      r := PoolAlloc(pool, c, amount);
      IntactStays(views, heap, c, next, amount, Views(), mem.blocks, d);
      if kept.Some? {
        HandedStays(views, heap, c, next, amount, Views(), mem.blocks, c, kept.value);
      }
    }

    method QueueMemory(c: nat, ghost d: Delivered) returns (copy: Range, link: Range)
      requires TableOk() && MemoryOk() && QueueIntact()
      requires Intact(Views(), mem.blocks, d) && c == ChannelOf(d.frame)
      modifies this`pools, table, mem, pools.Values
      ensures TableOk() && MemoryOk() && QueueIntact() && fresh(pools.Values - old(pools.Values))
      ensures Intact(Views(), mem.blocks, d) && HandedTo(Views(), c, copy) && HandedTo(Views(), c, link)
    {
      hide TableOk, MemoryOk, QueueIntact, HandedTo, Intact, PoolAllocator.Initial;
      if c !in pools {
        NewPoolIntact(Views(), mem.blocks, c, PoolAllocator.Initial(frameMax), d);
      }
      var pool := GetOrCreateChannelPool(c);
      copy := RecordAlloc(pool, c, FRAME_RECORD, d, None);
      link := RecordAlloc(pool, c, LINK_RECORD, d, Some(copy));
    }

    /** Appends a decoded frame to the queue; the copy of its record and the list link also come from
        the pool of its channel. */
    method Enqueue(d: Delivered)
      requires Valid() && state == IDLE && Intact(Views(), mem.blocks, d)
      modifies this`pools, this`queue, table, mem, pools.Values
      ensures Valid() && fresh(pools.Values - old(pools.Values))
      ensures |queue| == |old(queue)| + 1 && queue[..|old(queue)|] == old(queue)
      ensures queue[|old(queue)|].item == d && |queue[|old(queue)|].record| == 2
    {
      hide TableOk, MemoryOk, QueueOk, QueueApart, HandedTo, Intact, Views;
      var copy, link := QueueMemory(ChannelOf(d.frame), d);
      QueuePush(Views(), mem.blocks, Kept(), Queued(d, [copy, link]));
      assert loaned + (queue + [Queued(d, [copy, link])]) == Kept() + [Queued(d, [copy, link])];
      queue := queue + [Queued(d, [copy, link])];
    }

    // ---------- releasing memory ----------

    method QueuedOn(channel: nat) returns (found: bool)
      ensures found <==> channel in WaitingChannels(queue)
    {
      for i := 0 to |queue|
        invariant forall j | 0 <= j < i :: ChannelOf(queue[j].item.frame) != channel
      {
        if ChannelOf(queue[i].item.frame) == channel {
          assert queue[i] in queue;
          return true;
        }
      }
      found := false;
    }

    method RecyclePool(pool: Pool, ghost channel: nat)
      requires TableOk() && MemoryOk() && QueueIntact()
      requires channel in pools && pool == pools[channel] && channel !in WaitingChannels(Kept())
      modifies mem, pool
      ensures MemoryOk() && QueueIntact()
      ensures Views() == old(Views())[channel := AfterRecycle(old(Views())[channel])]
    {
      hide PoolsOk, QueueOk, AfterRecycle;
      ghost var views, heap := Views(), mem.blocks;
      pool.Recycle(mem);
      assert Views() == views[channel := AfterRecycle(views[channel])];
      RecyclePoolsOk(views, heap, channel, Views(), mem.blocks);
      assert forall q | q in Kept() :: ChannelOf(q.item.frame) in WaitingChannels(Kept());
      RecycleQueueOk(views, heap, channel, Views(), mem.blocks, Kept());
    }

    /** Frames on loan on this channel are given up. */
    ghost method GiveUp(gone: set<nat>)
      requires QueueIntact()
      modifies this`loaned
      ensures QueueIntact() && loaned == Keep(old(loaned), gone)
    {
      hide Intact, HandedTo;
      loaned := Keep(loaned, gone);
    }

    lemma WaitingKept(channel: nat)
      requires channel !in WaitingChannels(queue) && forall q | q in loaned :: ChannelOf(q.item.frame) != channel
      ensures channel !in WaitingChannels(Kept())
    {
    }

    method ReleaseChannel(channel: nat)
      requires Valid() && state == IDLE && channel !in WaitingChannels(queue)
      modifies this`loaned, mem, pools.Values
      ensures Valid()
      ensures Released(old(Views()), Views(), WaitingChannels(queue), {channel}) && loaned == Keep(old(loaned), {channel})
    {
      ViewsKeys();
      hide TableOk, MemoryOk, QueueIntact, WaitingChannels, Keep, PositionOk, HandedTo, Holds, QueueApart, Views, Kept, Released, AfterRecycle;
      ghost var views := Views();
      OneReleased(views, WaitingChannels(queue), channel);
      GiveUp({channel});
      WaitingKept(channel);
      var pool := GetChannelPool(channel);
      if pool != null {
        RecyclePool(pool, channel);
      }
    }

    /** Recycles the pool of a channel, but only between frames and only if no frame waits on it.  All
        frames on loan on other channels stay intact. */
    method MaybeReleaseBuffersOnChannel(channel: nat)
      requires Valid()
      modifies this`loaned, mem, pools.Values
      ensures Valid()
      ensures var done := if state == IDLE then {channel} else {};
              Released(old(Views()), Views(), WaitingChannels(queue), done) && loaned == Keep(old(loaned), done - WaitingChannels(queue))
    {
      hide TableOk, MemoryOk, QueueIntact, WaitingChannels, Keep;
      KeepAll(loaned);
      if state != IDLE {
        ghost var none: set<nat> := {};
        assert none - WaitingChannels(queue) == none;
        return;
      }
      var queued := QueuedOn(channel);
      if queued {
        assert {channel} - WaitingChannels(queue) == {};
        return;
      }
      assert {channel} - WaitingChannels(queue) == {channel};
      ReleaseChannel(channel);
    }

    lemma NoChannels(chain: seq<PoolEntry>, waiting: set<nat>)
      ensures Channels(chain[..0]) == {} && Channels(chain[..0]) - waiting == {}
    {
    }

    lemma NextChannel(chain: seq<PoolEntry>, j: nat, waiting: set<nat>)
      requires j < |chain|
      ensures Channels(chain[..j + 1]) == Channels(chain[..j]) + {chain[j].channel}
      ensures Channels(chain[..j + 1]) - waiting == (Channels(chain[..j]) - waiting) + ({chain[j].channel} - waiting)
    {
      assert chain[..j + 1] == chain[..j] + [chain[j]];
    }

    lemma ChainCovers(i: nat, chain: seq<PoolEntry>)
      requires TableOk() && i < POOL_TABLE_SIZE && chain == table[i]
      ensures Channels(chain) == set c | c in pools && Bucket(c) == i
    {
      hide Bucket;
      assert chain == table[..][i];
      forall c | c in pools && Bucket(c) == i ensures c in Channels(chain) {
        assert PoolEntry(c, pools[c]) in table[..][i];
      }
      forall e | e in chain ensures e.channel in pools && Bucket(e.channel) == i {
        assert e in table[..][i];
      }
    }

    method ReleaseChain(i: nat)
      requires Valid() && state == IDLE && i < POOL_TABLE_SIZE
      modifies this`loaned, mem, pools.Values
      ensures Valid()
      ensures var done := set c | c in pools && Bucket(c) == i;
              Released(old(Views()), Views(), WaitingChannels(queue), done) && loaned == Keep(old(loaned), done - WaitingChannels(queue))
    {
      hide TableOk, MemoryOk, DecoderOk, QueueIntact, WaitingChannels, Views, Keep, Channels;
      TableSize();
      var chain := table[i];
      ChainCovers(i, chain);
      ghost var views, before, waiting := Views(), loaned, WaitingChannels(queue);
      KeepAll(loaned);
      NoChannels(chain, waiting);
      for j := 0 to |chain|
        invariant Valid() && Released(views, Views(), waiting, Channels(chain[..j]))
        invariant loaned == Keep(before, Channels(chain[..j]) - waiting)
      {
        MaybeReleaseBuffersOnChannel(chain[j].channel);
        KeepTwice(before, Channels(chain[..j]) - waiting, {chain[j].channel} - waiting);
        NextChannel(chain, j, waiting);
      }
      assert chain[..|chain|] == chain;
    }

    /** amqp_release_buffers: afterwards exactly the channels with queued frames still hold memory. */
    method ReleaseBuffers()
      requires Valid() && state == IDLE
      modifies this`loaned, mem, pools.Values
      ensures Valid()
      ensures Released(old(Views()), Views(), WaitingChannels(queue), pools.Keys)
      ensures loaned == Keep(old(loaned), pools.Keys - WaitingChannels(queue))
    {
      hide TableOk, MemoryOk, DecoderOk, QueueIntact, WaitingChannels, Views, Keep;
      ghost var views, before := Views(), loaned;
      KeepAll(loaned);
      assert (set c | c in pools && Bucket(c) < 0) - WaitingChannels(queue) == {};
      for i := 0 to POOL_TABLE_SIZE
        invariant Valid() && Released(views, Views(), WaitingChannels(queue), set c | c in pools && Bucket(c) < i)
        invariant loaned == Keep(before, (set c | c in pools && Bucket(c) < i) - WaitingChannels(queue))
      {
        ghost var done, chain := set c | c in pools && Bucket(c) < i, set c | c in pools && Bucket(c) == i;
        ReleaseChain(i);
        KeepTwice(before, done - WaitingChannels(queue), chain - WaitingChannels(queue));
        assert (set c | c in pools && Bucket(c) < i + 1) - WaitingChannels(queue)
            == (done - WaitingChannels(queue)) + (chain - WaitingChannels(queue));
      }
      assert forall c | c in pools :: Bucket(c) < POOL_TABLE_SIZE;
      assert (set c | c in pools && Bucket(c) < POOL_TABLE_SIZE) == pools.Keys;
    }

    // ---------- reading frames ----------

    /** The sizes of the records each call of the decoder allocates. */
    ghost predicate SizesOk(sizes: nat -> seq<nat>) {
      forall k, n | n in sizes(k) :: 0 < n <= SIZE_MAX
    }

    lemma RunningIsOk(p: Position)
      requires Running(p)
      ensures PositionOk(p)
    {
    }

    lemma IdleAtBoundary()
      requires Valid() && Pos() == Position(false, [])
      ensures state == IDLE
    {
    }

    /** consume_one_frame: one call on the octets at hand. */
    method ConsumeOneFrame(sizes: seq<nat>) returns (status: Status, out: Option<Delivered>)
      requires Valid() && Running(Pos()) && inbox != [] && forall n | n in sizes :: 0 < n <= SIZE_MAX
      modifies this`pools, this`inbound, this`inboundOffset, this`targetSize, this`state, this`received, this`inbox
      modifies table, headerBuffer, mem, pools.Values
      ensures Valid() && fresh(pools.Values - old(pools.Values))
      ensures var all := ReadAt(old(Pos()), old(inbox));
              if status != Ok then all == Failed(status) && out == None
              else Running(Pos()) && |inbox| < |old(inbox)| && all == Behind(PieceIn(out), ReadAt(Pos(), inbox))
      ensures PositionOk(old(Pos())) && PositionOk(Pos())
      ensures Trips(old(Pos()), old(inbox)) <==>
              status == Ok && (out.None? || (out.value.frame.HeartbeatFrame? && Trips(Pos(), inbox)))
      ensures out.Some? ==> state == IDLE && Intact(Views(), mem.blocks, out.value)
      ensures old(state) != INITIAL ==> state != INITIAL
    {
      hide Valid, Views, Intact, Step, ParseAt, ReadAt, Trips;
      out := None;
      var consumed;
      ghost var pos, data := Pos(), inbox;
      RunningIsOk(pos);
      StepParses(pos, data);
      StepReads(pos, data);
      TripsNext(pos, data);
      status, consumed, out := HandleInput(inbox, sizes);
      ReportsPiece(Step(pos, data), out);
      if status == Ok {
        inbox := inbox[consumed..];
        if out.Some? {
          StepAtBoundary(pos, data);
          IdleAtBoundary();
        }
      }
    }

    /** amqp_try_recv: decodes everything in the inbox and queues every frame, up to the first failure.
        Whatever arrives, the frames queued before stay in the queue, intact. */
    method TryRecv(sizes: nat -> seq<nat>) returns (status: Status)
      requires Valid() && Running(Pos()) && SizesOk(sizes)
      modifies this, table, headerBuffer, mem, pools.Values
      ensures Valid() && fresh(pools.Values - old(pools.Values))
      ensures status == ReadAt(old(Pos()), old(inbox)).status && loaned == old(loaned)
      ensures old(queue) <= queue && (old(state) != INITIAL ==> state != INITIAL)
      ensures Held(queue) == Held(old(queue)) + ReadAt(old(Pos()), old(inbox)).pieces
      ensures status == Ok ==> Running(Pos()) && inbox == [] && Pos() == ReadAt(old(Pos()), old(inbox)).position
    {
      hide Valid, DecoderOk, Views, Intact, ReadAt, Held, Running, PositionOk, Trips;
      ghost var p := ReadAt(Pos(), inbox);
      ghost var done: seq<Piece> := [];
      BehindNothing(p);
      var calls := 0;
      while inbox != []
        invariant Valid() && Running(Pos()) && fresh(pools.Values - old(pools.Values))
        invariant p == Behind(done, ReadAt(Pos(), inbox))
        invariant old(state) != INITIAL ==> state != INITIAL
        invariant old(queue) <= queue && Held(queue) == Held(old(queue)) + done && loaned == old(loaned)
        decreases |inbox|
      {
        var out;
        status, out := ConsumeOneFrame(sizes(calls));
        calls := calls + 1;
        if status != Ok {
          assert done + [] == done;
          return;
        }
        BehindTwice(done, PieceIn(out), ReadAt(Pos(), inbox));
        if out.Some? {
          ghost var waiting := queue;
          Enqueue(out.value);
          HeldAppend(waiting, queue);
        }
        done := done + PieceIn(out);
      }
      ReadNothing(Pos());
      status := Ok;
    }

    /** What is on loan after a frame was read: after a heartbeat channel 0 is given up. */
    ghost function LoanedAfter(loans: seq<Queued>, skipped: seq<Piece>, out: Option<Delivered>): seq<Queued> {
      (if skipped == [] then loans else Keep(loans, {0})) + (if out.Some? then [Queued(out.value, [])] else [])
    }

    method Dequeue() returns (d: Delivered)
      requires Valid() && queue != []
      modifies this`queue, this`loaned
      ensures Valid() && d == old(queue)[0].item && queue == old(queue)[1..] && Intact(Views(), mem.blocks, d)
      ensures loaned == old(loaned) + [old(queue)[0]]
    {
      hide TableOk, MemoryOk, Holds, HandedTo, Views, Intact;
      assert queue[0] in queue;
      d := queue[0].item;
      assert (loaned + [queue[0]]) + queue[1..] == Kept();
      loaned := loaned + [queue[0]];
      queue := queue[1..];
    }

    method Lend(ghost d: Delivered)
      requires Valid() && queue == [] && state == IDLE && Intact(Views(), mem.blocks, d)
      modifies this`loaned
      ensures Valid() && loaned == old(loaned) + [Queued(d, [])]
    {
      hide TableOk, MemoryOk, QueueOk, Intact, Views;
      QueuePush(Views(), mem.blocks, Kept(), Queued(d, []));
      assert (loaned + [Queued(d, [])]) + queue == Kept() + [Queued(d, [])];
      loaned := loaned + [Queued(d, [])];
    }

    lemma NoneWaits()
      requires queue == []
      ensures {0} - WaitingChannels(queue) == {0} && {0} + {0} == {0}
    {
    }

    lemma NothingTrips(p: Position)
      requires PositionOk(p)
      ensures !Trips(p, [])
    {
    }

    /** wait_frame_inner on the octets at hand.  `tripped` tells whether a call reported no frame, for
        which the source has an assertion that then fails; without assertions it reads on, as here. */
    method ReadFrame(sizes: nat -> seq<nat>) returns (status: Status, out: Option<Delivered>, tripped: bool, ghost skipped: seq<Piece>)
      requires Valid() && Running(Pos()) && SizesOk(sizes) && queue == []
      modifies this`pools, this`inbound, this`inboundOffset, this`targetSize, this`state, this`received, this`inbox, this`loaned
      modifies table, headerBuffer, mem, pools.Values
      ensures Valid() && fresh(pools.Values - old(pools.Values))
      ensures forall f | f in skipped :: f.frame.HeartbeatFrame?
      ensures loaned == LoanedAfter(old(loaned), skipped, out)
      ensures old(state) != INITIAL ==> state != INITIAL
      ensures PositionOk(old(Pos())) && (tripped <==> Trips(old(Pos()), old(inbox)))
      ensures status == Ok ==>
                && Running(Pos())
                && ReadAt(old(Pos()), old(inbox)) == Behind(skipped + PieceIn(out), ReadAt(Pos(), inbox))
                && (out.None? ==> inbox == []) && (out.Some? ==> !out.value.frame.HeartbeatFrame?)
      ensures status != Ok ==> ReadAt(old(Pos()), old(inbox)) == Behind(skipped, Failed(status))
      ensures out.Some? ==> status == Ok && Intact(Views(), mem.blocks, out.value)
    {
      hide Valid, Views, Intact, ReadAt, Running, Released, Trips, PositionOk, Keep, WaitingChannels;
      RunningIsOk(Pos());
      tripped := false;
      ghost var p := ReadAt(Pos(), inbox);
      skipped := [];
      BehindNothing(p);
      var calls := 0;
      while inbox != []
        invariant Valid() && Running(Pos()) && fresh(pools.Values - old(pools.Values))
        invariant p == Behind(skipped, ReadAt(Pos(), inbox))
        invariant old(state) != INITIAL ==> state != INITIAL
        invariant loaned == if skipped == [] then old(loaned) else Keep(old(loaned), {0})
        invariant forall f | f in skipped :: f.frame.HeartbeatFrame?
        invariant PositionOk(Pos()) && (Trips(old(Pos()), old(inbox)) <==> tripped || Trips(Pos(), inbox))
        decreases |inbox|
      {
        status, out := ConsumeOneFrame(sizes(calls));
        calls := calls + 1;
        if status != Ok {
          assert skipped + [] == skipped;
          return;
        }
        BehindTwice(skipped, PieceIn(out), ReadAt(Pos(), inbox));
        if out.Some? && !out.value.frame.HeartbeatFrame? {
          Lend(out.value);
          return;
        }
        if out.Some? {
          MaybeReleaseBuffersOnChannel(0);
          NoneWaits();
          KeepTwice(old(loaned), {0}, {0});
        } else {
          tripped := true;
        }
        skipped := skipped + PieceIn(out);
      }
      assert skipped + [] == skipped;
      NothingTrips(Pos());
      return Ok, None, tripped, skipped;
    }

    /** The frame the application gets next: the head of the queue, or the first frame in the inbox that
        is not a heartbeat.  After a heartbeat the memory of channel 0 may be released.  No frame and no
        error means that more octets are needed. */
    method WaitFrame(sizes: nat -> seq<nat>) returns (status: Status, out: Option<Delivered>, tripped: bool, ghost skipped: seq<Piece>)
      requires Valid() && Running(Pos()) && SizesOk(sizes)
      modifies this, table, headerBuffer, mem, pools.Values
      ensures Valid() && fresh(pools.Values - old(pools.Values))
      ensures old(state) != INITIAL ==> state != INITIAL
      ensures old(queue) != [] ==>
                && status == Ok && out == Some(old(queue)[0].item) && queue == old(queue)[1..] && skipped == []
                && loaned == old(loaned) + [old(queue)[0]]
                && Pos() == old(Pos()) && inbox == old(inbox) && unchanged(mem)
      ensures old(queue) == [] ==> queue == [] && forall f | f in skipped :: f.frame.HeartbeatFrame?
      ensures PositionOk(old(Pos())) && (tripped <==> old(queue) == [] && Trips(old(Pos()), old(inbox)))
      ensures old(queue) == [] ==> loaned == LoanedAfter(old(loaned), skipped, out)
      ensures old(queue) == [] && status == Ok ==>
                && Running(Pos())
                && ReadAt(old(Pos()), old(inbox)) == Behind(skipped + PieceIn(out), ReadAt(Pos(), inbox))
                && (out.None? ==> inbox == []) && (out.Some? ==> !out.value.frame.HeartbeatFrame?)
      ensures old(queue) == [] && status != Ok ==> ReadAt(old(Pos()), old(inbox)) == Behind(skipped, Failed(status))
      ensures out.Some? ==> status == Ok && Intact(Views(), mem.blocks, out.value)
    {
      hide Valid, Views, Intact, ReadAt, Running, Trips, PositionOk;
      RunningIsOk(Pos());
      if queue != [] {
        var d := Dequeue();
        return Ok, Some(d), false, [];
      }
      status, out, tripped, skipped := ReadFrame(sizes);
    }
  }
}
