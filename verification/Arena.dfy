/**
  Which octets of the heap belong to which frame.  Each channel has its own pool; a frame that waits
  in the queue lives in ranges its channel's pool handed out, and nothing may overwrite them.
 */
module Arena {
  import opened Wire
  import opened Frames
  import opened PoolAllocator

  type Heap = map<nat, Bytes>
  type Pools = map<nat, State>

  ghost predicate PoolsOk(pools: Pools, heap: Heap) {
    && (forall c | c in pools :: Inv(pools[c]) && Backed(pools[c], heap))
    && (forall c, d, b: nat | c in pools && d in pools && c != d && Owns(pools[c], b) :: !Owns(pools[d], b))
  }

  /** The range holds exactly `octets`, from its start. */
  ghost predicate Holds(heap: Heap, r: Range, octets: Bytes) {
    && r.block in heap && |octets| <= r.len
    && r.off + r.len <= |heap[r.block]|
    && heap[r.block][r.off..r.off + |octets|] == octets
  }

  ghost predicate HandedTo(pools: Pools, channel: nat, r: Range) {
    channel in pools && r in pools[channel].live
  }

  /** A frame, its octets, and the memory that holds them; a protocol header has no memory. */
  datatype Delivered = Delivered(frame: Frame, raw: Option<Range>, octets: Bytes)

  /** A queued frame also occupies a copy of its record and a list link. */
  datatype Queued = Queued(item: Delivered, record: seq<Range>)

  function ChannelOf(f: Frame): nat {
    if f.ProtocolHeader? then 0 else f.channel
  }

  /** The octets are those of the frame. */
  predicate Decodes(octets: Bytes, f: Frame) {
    |octets| >= HEADER_SIZE
    && if f.ProtocolHeader? then |octets| == 8 && f == HeaderFrameOf(octets) else DecodeRaw(octets) == Success(Some(f))
  }

  /** Memory of the frame's channel holds all octets of the frame. */
  ghost predicate Intact(pools: Pools, heap: Heap, d: Delivered) {
    && Decodes(d.octets, d.frame)
    && (d.raw.None? <==> d.frame.ProtocolHeader?)
    && (d.raw.Some? ==> HandedTo(pools, ChannelOf(d.frame), d.raw.value) && Holds(heap, d.raw.value, d.octets))
  }

  ghost predicate QueueOk(pools: Pools, heap: Heap, queue: seq<Queued>) {
    forall q | q in queue ::
      Intact(pools, heap, q.item) && forall r | r in q.record :: HandedTo(pools, ChannelOf(q.item.frame), r)
  }

  lemma QueuePush(pools: Pools, heap: Heap, queue: seq<Queued>, q: Queued)
    requires QueueOk(pools, heap, queue) && Intact(pools, heap, q.item)
    requires forall r | r in q.record :: HandedTo(pools, ChannelOf(q.item.frame), r)
    ensures QueueOk(pools, heap, queue + [q])
  {
    hide HandedTo, Intact;
  }

  /** A new, empty pool for a channel that had none disturbs nothing. */
  lemma NewPoolOk(pools: Pools, heap: Heap, c: nat, pagesize: nat, queue: seq<Queued>)
    requires PoolsOk(pools, heap) && QueueOk(pools, heap, queue) && c !in pools
    ensures PoolsOk(pools[c := Initial(pagesize)], heap) && QueueOk(pools[c := Initial(pagesize)], heap, queue)
  {
    hide Inv;
    InitialOk(pagesize);
  }

  lemma NewPoolIntact(pools: Pools, heap: Heap, c: nat, s: State, d: Delivered)
    requires c !in pools && Intact(pools, heap, d)
    ensures Intact(pools[c := s], heap, d)
  {
  }

  // ---------- allocation ----------

  /** What one allocation from the pool of `c` does to the pools and to the heap. */
  ghost predicate Allocated(pools: Pools, heap: Heap, c: nat, b: nat, amount: nat, pools': Pools, heap': Heap) {
    && c in pools && Inv(pools[c]) && b !in heap
    && pools' == pools[c := AfterAlloc(pools[c], b, amount)]
    && heap' == HeapAfter(pools[c], b, amount, heap)
  }

  lemma OwnedAfterAlloc(s: State, b: nat, amount: nat, o: nat)
    requires Inv(s) && Owns(AfterAlloc(s, b, amount), o)
    ensures Owns(s, o) || o == b
  {
    hide Inv;
    InvIndex(s);
  }

  lemma HeapGrows(s: State, b: nat, amount: nat, heap: Heap)
    requires b !in heap
    ensures forall o | o in heap :: o in HeapAfter(s, b, amount, heap) && HeapAfter(s, b, amount, heap)[o] == heap[o]
  {
  }

  lemma BackedGrows(s: State, heap: Heap, heap': Heap)
    requires Backed(s, heap) && Inv(s)
    requires forall o | o in heap :: o in heap' && heap'[o] == heap[o]
    ensures Backed(s, heap')
  {
    hide Handed, NextFit, Sum;
  }

  lemma AllocPoolsOk(pools: Pools, heap: Heap, c: nat, b: nat, amount: nat, pools': Pools, heap': Heap)
    requires PoolsOk(pools, heap) && Allocated(pools, heap, c, b, amount, pools', heap')
    ensures PoolsOk(pools', heap')
  {
    hide Inv, AfterAlloc, HeapAfter, Owns, Backed;
    HeapGrows(pools[c], b, amount, heap);
    FreshBlock(pools[c], b, heap);
    AllocKeeps(pools[c], b, amount);
    AllocBacked(pools[c], b, amount, heap);
    forall d | d in pools'
      ensures Inv(pools'[d]) && Backed(pools'[d], heap')
    {
      if d != c {
        BackedGrows(pools[d], heap, heap');
      }
    }
    forall d, e, o: nat | d in pools' && e in pools' && d != e && Owns(pools'[d], o)
      ensures !Owns(pools'[e], o)
    {
      if d == c {
        OwnedAfterAlloc(pools[c], b, amount, o);
        FreshBlock(pools[e], b, heap);
      } else if e == c && Owns(pools'[c], o) {
        OwnedAfterAlloc(pools[c], b, amount, o);
        FreshBlock(pools[d], b, heap);
      }
    }
  }

  lemma HandedStays(pools: Pools, heap: Heap, c: nat, b: nat, amount: nat, pools': Pools, heap': Heap, d: nat, r: Range)
    requires Allocated(pools, heap, c, b, amount, pools', heap') && HandedTo(pools, d, r)
    requires PoolsOk(pools, heap)
    ensures HandedTo(pools', d, r)
  {
    hide Inv, AfterAlloc, Backed, HeapAfter, Owns;
    if d == c {
      FreshBlock(pools[c], b, heap);
      AllocKeeps(pools[c], b, amount);
      var i :| 0 <= i < |pools[c].live| && pools[c].live[i] == r;
      assert pools'[c].live[..|pools[c].live|][i] == r;
    }
  }

  lemma AllocQueueOk(pools: Pools, heap: Heap, c: nat, b: nat, amount: nat, pools': Pools, heap': Heap, queue: seq<Queued>)
    requires PoolsOk(pools, heap) && Allocated(pools, heap, c, b, amount, pools', heap')
    requires QueueOk(pools, heap, queue)
    ensures QueueOk(pools', heap', queue)
  {
    hide PoolsOk, Inv, AfterAlloc, HeapAfter, HandedTo;
    HeapGrows(pools[c], b, amount, heap);
    forall d, r | HandedTo(pools, d, r)
      ensures HandedTo(pools', d, r)
    {
      HandedStays(pools, heap, c, b, amount, pools', heap', d, r);
    }
  }

  lemma LiveApart(s: State, i: nat, j: nat)
    requires Inv(s) && i < j < |s.live|
    ensures Apart(s.live[i], s.live[j]) && Apart(s.live[j], s.live[i])
  {
    hide Shape, Filled;
  }

  lemma LiveOwned(s: State, r: Range)
    requires Inv(s) && r in s.live
    ensures Owns(s, r.block)
  {
    hide Shape, NextFit, Sum;
  }

  /** The new range is disjoint from every range any pool has handed out, and lies in the heap. */
  lemma AllocApart(pools: Pools, heap: Heap, c: nat, b: nat, amount: nat, pools': Pools, heap': Heap, d: nat, r: Range)
    requires PoolsOk(pools, heap) && Allocated(pools, heap, c, b, amount, pools', heap')
    requires HandedTo(pools, d, r)
    ensures |pools'[c].live| == |pools[c].live| + 1
    ensures Apart(pools'[c].live[|pools[c].live|], r)
  {
    hide Inv, AfterAlloc, HeapAfter, Backed, Owns;
    AllocPoolsOk(pools, heap, c, b, amount, pools', heap');
    FreshBlock(pools[c], b, heap);
    AllocKeeps(pools[c], b, amount);
    HandedStays(pools, heap, c, b, amount, pools', heap', d, r);
    var n := |pools[c].live|;
    var new_ := pools'[c].live[n];
    if d == c {
      var i :| 0 <= i < n && pools[c].live[i] == r;
      assert pools'[c].live[..n][i] == r;
      LiveApart(pools'[c], i, n);
    } else {
      LiveOwned(pools'[c], new_);
      LiveOwned(pools'[d], r);
    }
  }

  lemma LiveBacked(s: State, heap: Heap, r: Range)
    requires Inv(s) && Backed(s, heap) && r in s.live
    ensures r.block in heap && r.off + r.len <= |heap[r.block]|
  {
    LiveOwned(s, r);
    hide Shape, Filled;
  }

  // ---------- writing into a range ----------

  function Written(heap: Heap, r: Range, at: nat, data: Bytes): Heap
    requires r.block in heap && r.off + at + |data| <= |heap[r.block]|
  {
    var o := r.off + at;
    heap[r.block := heap[r.block][..o] + data + heap[r.block][o + |data|..]]
  }

  lemma WritePoolsOk(pools: Pools, heap: Heap, r: Range, at: nat, data: Bytes)
    requires PoolsOk(pools, heap) && r.block in heap && r.off + at + |data| <= |heap[r.block]|
    ensures PoolsOk(pools, Written(heap, r, at, data))
  {
    hide Inv, Owns;
  }

  lemma WriteHolds(heap: Heap, r: Range, at: nat, data: Bytes, q: Range, octets: Bytes)
    requires r.block in heap && r.off + at + |data| <= |heap[r.block]| && at + |data| <= r.len
    requires Holds(heap, q, octets) && Apart(q, r)
    ensures Holds(Written(heap, r, at, data), q, octets)
  {
  }

  lemma WriteGrows(heap: Heap, r: Range, octets: Bytes, data: Bytes)
    requires Holds(heap, r, octets) && |octets| + |data| <= r.len
    ensures Holds(Written(heap, r, |octets|, data), r, octets + data)
  {
  }

  lemma ReadBack(heap: Heap, r: Range, octets: Bytes)
    requires Holds(heap, r, octets)
    ensures r.block in heap && r.off + |octets| <= |heap[r.block]| && heap[r.block][r.off..r.off + |octets|] == octets
  {
  }

  lemma HoldsNothing(pools: Pools, heap: Heap, c: nat, r: Range)
    requires PoolsOk(pools, heap) && HandedTo(pools, c, r)
    ensures Holds(heap, r, [])
  {
    hide Inv, Backed;
    LiveBacked(pools[c], heap, r);
  }

  /** The first allocation of an empty pool is a new block, which is zeroed. */
  lemma FirstAllocation(pagesize: nat, b: nat, amount: nat, heap: Heap)
    requires Inv(Initial(pagesize)) && b !in heap
    ensures var r := AfterAlloc(Initial(pagesize), b, amount).live[0];
            var heap' := HeapAfter(Initial(pagesize), b, amount, heap);
            r.block == b && r.off == 0 && b in heap' && forall i | 0 <= i < |heap'[b]| :: heap'[b][i] == 0
  {
  }

  lemma FirstIsZero(pools: Pools, heap: Heap, c: nat, b: nat, amount: nat, pools': Pools, heap': Heap, pagesize: nat, r: Range)
    requires Allocated(pools, heap, c, b, amount, pools', heap')
    requires pools[c] == Initial(pagesize) && pools'[c].live == pools[c].live + [r]
    ensures r.off == 0 && r.block in heap' && forall i | 0 <= i < |heap'[r.block]| :: heap'[r.block][i] == 0
  {
    FirstAllocation(pagesize, b, amount, heap);
    hide AfterAlloc, HeapAfter, Inv;
    assert pools'[c].live[0] == r;
  }

  lemma WriteOverZero(heap: Heap, r: Range, data: Bytes)
    requires r.off == 0 && |data| < r.len && Holds(heap, r, [])
    requires forall i | 0 <= i < |heap[r.block]| :: heap[r.block][i] == 0
    ensures Holds(Written(heap, r, 0, data), r, data + [0])
  {
  }

  /** Every frame in the queue, with its record, is disjoint from `r`. */
  ghost predicate QueueApart(queue: seq<Queued>, r: Range) {
    forall q | q in queue ::
      (q.item.raw.Some? ==> Apart(q.item.raw.value, r)) && forall x | x in q.record :: Apart(x, r)
  }

  lemma WriteQueueOk(pools: Pools, heap: Heap, r: Range, at: nat, data: Bytes, queue: seq<Queued>)
    requires r.block in heap && r.off + at + |data| <= |heap[r.block]| && at + |data| <= r.len
    requires QueueOk(pools, heap, queue) && QueueApart(queue, r)
    ensures QueueOk(pools, Written(heap, r, at, data), queue)
  {
    hide HandedTo, Written, Holds;
    forall q | q in queue
      ensures Intact(pools, Written(heap, r, at, data), q.item)
    {
      if q.item.raw.Some? {
        WriteHolds(heap, r, at, data, q.item.raw.value, q.item.octets);
      }
    }
  }

  /** Continuing a frame that holds `octets` keeps the pools and every queued frame as they are. */
  lemma WriteNextKeeps(pools: Pools, heap: Heap, r: Range, octets: Bytes, data: Bytes, queue: seq<Queued>)
    requires PoolsOk(pools, heap) && QueueOk(pools, heap, queue) && QueueApart(queue, r)
    requires Holds(heap, r, octets) && |octets| + |data| <= r.len
    ensures r.block in heap && r.off + |octets| + |data| <= |heap[r.block]|
    ensures var heap' := Written(heap, r, |octets|, data);
            && PoolsOk(pools, heap') && QueueOk(pools, heap', queue) && Holds(heap', r, octets + data)
            && heap'.Keys == heap.Keys
  {
    WritePoolsOk(pools, heap, r, |octets|, data);
    WriteQueueOk(pools, heap, r, |octets|, data, queue);
    WriteGrows(heap, r, octets, data);
    hide PoolsOk, QueueOk, QueueApart;
  }

  lemma OneMore(pools: Pools, heap: Heap, c: nat, b: nat, amount: nat)
    requires PoolsOk(pools, heap) && c in pools && b !in heap
    ensures Inv(pools[c])
    ensures var live := AfterAlloc(pools[c], b, amount).live;
            live == pools[c].live + [live[|pools[c].live|]] && live[|pools[c].live|].len == Rounded(amount)
  {
    hide Inv, AfterAlloc, Backed;
    FreshBlock(pools[c], b, heap);
    AllocKeeps(pools[c], b, amount);
  }

  lemma AllocQueueApart(pools: Pools, heap: Heap, c: nat, b: nat, amount: nat, pools': Pools, heap': Heap, queue: seq<Queued>)
    requires PoolsOk(pools, heap) && Allocated(pools, heap, c, b, amount, pools', heap')
    requires QueueOk(pools, heap, queue)
    ensures |pools'[c].live| == |pools[c].live| + 1
    ensures QueueApart(queue, pools'[c].live[|pools[c].live|])
  {
    hide PoolsOk, AfterAlloc, HeapAfter, Inv, Holds;
    OneMore(pools, heap, c, b, amount);
    var new_ := pools'[c].live[|pools[c].live|];
    forall q, r | q in queue && (q.item.raw == Some(r) || r in q.record)
      ensures Apart(r, new_)
    {
      AllocApart(pools, heap, c, b, amount, pools', heap', ChannelOf(q.item.frame), r);
    }
  }

  lemma PoolOk(pools: Pools, heap: Heap, c: nat)
    requires PoolsOk(pools, heap) && c in pools
    ensures Inv(pools[c]) && Backed(pools[c], heap)
  {
    hide Inv, Backed;
  }

  lemma HoldsStays(pools: Pools, heap: Heap, c: nat, b: nat, amount: nat, pools': Pools, heap': Heap, r: Range, octets: Bytes)
    requires Allocated(pools, heap, c, b, amount, pools', heap') && Holds(heap, r, octets)
    ensures Holds(heap', r, octets)
  {
    hide Inv, AfterAlloc, HeapAfter;
    HeapGrows(pools[c], b, amount, heap);
  }

  lemma IntactStays(pools: Pools, heap: Heap, c: nat, b: nat, amount: nat, pools': Pools, heap': Heap, d: Delivered)
    requires PoolsOk(pools, heap) && Allocated(pools, heap, c, b, amount, pools', heap') && Intact(pools, heap, d)
    ensures Intact(pools', heap', d)
  {
    hide PoolsOk, Allocated, HandedTo, Holds;
    if d.raw.Some? {
      HandedStays(pools, heap, c, b, amount, pools', heap', ChannelOf(d.frame), d.raw.value);
      HoldsStays(pools, heap, c, b, amount, pools', heap', d.raw.value, d.octets);
    }
  }

  // ---------- recycling ----------

  /** What recycling the pool of `c` does. */
  ghost predicate Recycled(pools: Pools, heap: Heap, c: nat, pools': Pools, heap': Heap) {
    && c in pools
    && pools' == pools[c := AfterRecycle(pools[c])]
    && heap' == heap - (set b | b in pools[c].largeBlocks)
  }

  lemma OthersBacked(s: State, t: State, heap: Heap)
    requires Inv(t) && Backed(t, heap)
    requires forall b: nat | Owns(s, b) :: !Owns(t, b)
    ensures Backed(t, heap - (set b | b in s.largeBlocks))
  {
    hide Handed, Shape, NextFit, Sum;
    assert forall b | b in s.largeBlocks :: Owns(s, b);
  }

  lemma RecyclePoolsOk(pools: Pools, heap: Heap, c: nat, pools': Pools, heap': Heap)
    requires PoolsOk(pools, heap) && Recycled(pools, heap, c, pools', heap')
    ensures PoolsOk(pools', heap')
  {
    hide Inv, Backed;
    RecycleKeeps(pools[c], heap);
    forall d | d in pools'
      ensures Inv(pools'[d]) && Backed(pools'[d], heap')
    {
      if d != c {
        OthersBacked(pools[c], pools[d], heap);
      }
    }
  }

  /** Recycling a channel without queued frames leaves every queued frame intact. */
  lemma RecycleQueueOk(pools: Pools, heap: Heap, c: nat, pools': Pools, heap': Heap, queue: seq<Queued>)
    requires PoolsOk(pools, heap) && Recycled(pools, heap, c, pools', heap')
    requires QueueOk(pools, heap, queue)
    requires forall q | q in queue :: ChannelOf(q.item.frame) != c
    ensures QueueOk(pools', heap', queue)
  {
    hide Inv, Backed;
    forall q | q in queue
      ensures Intact(pools', heap', q.item)
    {
      if q.item.raw.Some? {
        var r := q.item.raw.value;
        LiveOwned(pools[ChannelOf(q.item.frame)], r);
        assert !Owns(pools[c], r.block);
      }
    }
  }
}
