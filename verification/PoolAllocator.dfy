/**
  The page allocator of amqp_mem.c.  The C heap is an explicit memory of numbered blocks, so that a
  pointer into a block, a freed block and a page handed out again can all be told apart.
 */
module PoolAllocator {
  import opened Wire

  const SIZE_MAX := TWO64 - 1

  function Zeros(n: nat): (z: Bytes) {
    seq(n, _ => 0 as Byte)
  }

  /** The heap; an allocation always succeeds and block numbers are not used twice. */
  class Memory {
    var blocks: map<nat, Bytes>
    var next: nat

    ghost predicate Valid()
      reads this
    {
      forall b | b in blocks :: b < next
    }

    constructor ()
      ensures Valid() && blocks == map[]
    {
      blocks, next := map[], 0;
    }

    method Calloc(n: nat) returns (b: nat)
      requires Valid()
      modifies this
      ensures Valid() && b == old(next) && next == b + 1
      ensures blocks == old(blocks)[b := Zeros(n)]
    {
      b := next;
      blocks := blocks[b := Zeros(n)];
      next := next + 1;
    }

    method Free(bs: seq<nat>)
      requires Valid()
      modifies this`blocks
      ensures Valid() && blocks == old(blocks) - (set b | b in bs)
    {
      blocks := blocks - (set b | b in bs);
    }
  }

  /** `len` octets of block `block` from `off` on. */
  datatype Range = Range(block: nat, off: nat, len: nat)

  predicate Apart(r: Range, s: Range) {
    r.block != s.block || r.off + r.len <= s.off || s.off + s.len <= r.off
  }

  /** (amount + 7) & ~7 in 64-bit arithmetic. */
  function Rounded(amount: nat): (n: nat)
    ensures n % 8 == 0
  {
    (amount + 7) % TWO64 / 8 * 8
  }

  /** Rounding gives at least what was asked for exactly when it does not wrap around. */
  lemma RoundedCoversIff(amount: nat)
    requires amount <= SIZE_MAX
    ensures Rounded(amount) >= amount <==> amount <= SIZE_MAX - 7
    ensures amount <= SIZE_MAX - 7 ==> Rounded(amount) < amount + 8
  {
    if amount <= SIZE_MAX - 7 {
      assert (amount + 7) % TWO64 == amount + 7;
    } else {
      assert (amount + 7) % TWO64 == amount + 7 - TWO64;
    }
  }

  function Sum(s: seq<nat>): nat {
    if s == [] then 0 else s[0] + Sum(s[1..])
  }

  lemma {:induction false} SumPush(s: seq<nat>, x: nat)
    ensures Sum(s + [x]) == Sum(s) + x
  {
    if s != [] {
      assert (s + [x])[1..] == s[1..] + [x];
      SumPush(s[1..], x);
    }
  }

  lemma {:induction false} SumRaise(s: seq<nat>, i: nat, x: nat)
    requires i < |s|
    ensures Sum(s[i := x]) == Sum(s) - s[i] + x
  {
    if i > 0 {
      assert s[i := x][1..] == s[1..][i - 1 := x];
      SumRaise(s[1..], i - 1, x);
    } else {
      assert s[0 := x][1..] == s[1..];
    }
  }

  /** Any two neighbouring pages hold more than one page between them. */
  ghost predicate NextFit(used: seq<nat>, pagesize: nat) {
    forall i, j | 0 <= i < j < |used| && j == i + 1 :: used[i] + used[j] > pagesize
  }

  lemma {:induction false} NextFitTotal(used: seq<nat>, pagesize: nat)
    requires used != [] && NextFit(used, pagesize)
    ensures 2 * Sum(used) >= (|used| - 1) * (pagesize + 1) + used[0]
  {
    if |used| > 1 {
      assert used[0] + used[1] > pagesize;
      NextFitTotal(used[1..], pagesize);
      assert (|used| - 1) * (pagesize + 1) == (|used[1..]| - 1) * (pagesize + 1) + (pagesize + 1);
    }
  }

  /** With k pages in use, more than half of k - 1 pages was really asked for. */
  lemma NextFitBound(used: seq<nat>, pagesize: nat)
    requires |used| >= 2 && NextFit(used, pagesize)
    ensures (|used| - 1) * pagesize < 2 * Sum(used)
  {
    NextFitTotal(used, pagesize);
    assert (|used| - 1) * (pagesize + 1) == (|used| - 1) * pagesize + (|used| - 1);
  }

  /** The fields of the C structure, and what is known about the ranges it handed out. */
  datatype State = State(
    pagesize: nat,
    pages: seq<nat>,
    largeBlocks: seq<nat>,
    nextPage: nat,
    allocBlock: Option<nat>,
    allocUsed: nat,
    live: seq<Range>,     // the ranges handed out since the last recycling
    fill: map<nat, nat>,  // for each block in use, the octets used from its start
    used: seq<nat>,       // the octets used of each page since the last recycling
    small: nat,           // the rounded sizes of the small allocations since then, summed up
    peak: nat             // the most pages in use at any time since the pool was emptied
  )

  predicate Owns(s: State, b: nat) {
    b in s.pages || b in s.largeBlocks
  }

  ghost predicate Shape(s: State) {
    && (forall i, j | 0 <= i < j < |s.pages| :: s.pages[i] != s.pages[j])
    && (forall b | b in s.pages :: b !in s.largeBlocks)
    && s.nextPage <= |s.pages| == s.peak
    && s.allocUsed <= s.pagesize && s.allocUsed % 8 == 0
    && s.allocBlock == (if s.nextPage == 0 then None else Some(s.pages[s.nextPage - 1]))
    && (s.nextPage == 0 ==> s.allocUsed == 0)
  }

  /** How full each block is. */
  ghost predicate Filled(s: State) {
    && |s.used| == s.nextPage <= |s.pages|
    && (s.nextPage > 0 ==> s.used[s.nextPage - 1] == s.allocUsed)
    && (forall i | 0 <= i < s.nextPage :: s.pages[i] in s.fill && s.fill[s.pages[i]] == s.used[i] <= s.pagesize)
    && (forall i | s.nextPage <= i < |s.pages| :: s.pages[i] !in s.fill)
    && (forall b | b in s.fill :: Owns(s, b))
    && NextFit(s.used, s.pagesize)
    && s.small == Sum(s.used)
  }

  predicate Inside(r: Range, fill: map<nat, nat>) {
    r.off % 8 == 0 && r.block in fill && r.off + r.len <= fill[r.block]
  }

  /** Every range handed out is aligned and lies in the used part of its block, and no two overlap. */
  ghost predicate Handed(live: seq<Range>, fill: map<nat, nat>) {
    && (forall i | 0 <= i < |live| :: Inside(live[i], fill))
    && (forall i, j | 0 <= i < j < |live| :: Apart(live[i], live[j]))
  }

  ghost predicate Inv(s: State) {
    Shape(s) && Filled(s) && Handed(s.live, s.fill)
  }

  /** The pool's blocks exist, a page has the size of a page, and a block is as large as what was
      handed out of it. */
  ghost predicate Backed(s: State, blocks: map<nat, Bytes>) {
    && (forall b | Owns(s, b) :: b in blocks)
    && (forall b | b in s.fill && b in blocks :: s.fill[b] <= |blocks[b]|)
    && (forall b | b in s.pages && b in blocks :: |blocks[b]| == s.pagesize)
  }

  // ---------- the transitions ----------

  function Max(a: nat, b: nat): nat {
    if a < b then b else a
  }

  function Initial(pagesize: nat): State {
    State(if pagesize == 0 then 4096 else pagesize, [], [], 0, None, 0, [], map[], [], 0, 0)
  }

  function HandOut(s: State, r: Range): State {
    s.(live := s.live + [r], fill := s.fill[r.block := r.off + r.len])
  }

  function AfterLarge(s: State, b: nat, size: nat): State {
    HandOut(s.(largeBlocks := s.largeBlocks + [b]), Range(b, 0, size))
  }

  function AfterBump(s: State, size: nat): State
    requires 0 < s.nextPage == |s.used| && s.allocBlock.Some?
  {
    HandOut(s.(allocUsed := s.allocUsed + size, used := s.used[s.nextPage - 1 := s.allocUsed + size], small := s.small + size),
            Range(s.allocBlock.value, s.allocUsed, size))
  }

  /** Turns to the next page, which is `b` when all pages are in use. */
  function AfterTurn(s: State, b: nat, size: nat): State {
    var pages := if s.nextPage >= |s.pages| then s.pages + [b] else s.pages;
    var next := if s.nextPage >= |s.pages| then |pages| else s.nextPage + 1;
    HandOut(s.(pages := pages, nextPage := next, allocBlock := Some(pages[next - 1]), allocUsed := size,
               used := s.used + [size], small := s.small + size, peak := Max(s.peak, next)),
            Range(pages[next - 1], 0, size))
  }

  /** amqp_pool_alloc of a non-zero amount; `b` is the block calloc would return. */
  function AfterAlloc(s: State, b: nat, amount: nat): State
    requires Inv(s)
  {
    var size := Rounded(amount);
    if size > s.pagesize then AfterLarge(s, b, size)
    else if s.allocBlock.Some? && s.allocUsed + size <= s.pagesize then AfterBump(s, size)
    else AfterTurn(s, b, size)
  }

  function AfterRecycle(s: State): State {
    s.(largeBlocks := [], nextPage := 0, allocBlock := None, allocUsed := 0, live := [], fill := map[], used := [], small := 0)
  }

  function AfterEmpty(s: State): State {
    AfterRecycle(s).(pages := [], peak := 0)
  }

  /** Where an allocation is put: a block of its own if it is larger than a page, else right behind the last one in the
      current page if it fits there, else at the start of the next page, which is a new one if none is left. */
  lemma AllocPlace(s: State, b: nat, amount: nat)
    requires Inv(s) && 0 < amount <= SIZE_MAX - 7
    ensures var t := AfterAlloc(s, b, amount);
            && |t.live| == |s.live| + 1 && t.live[..|s.live|] == s.live
            && var r := t.live[|s.live|];
               && r.len % 8 == 0 && amount <= r.len < amount + 8
               && if r.len > s.pagesize then
                    && r.block == b && r.off == 0
                    && t.largeBlocks == s.largeBlocks + [b] && t.pages == s.pages && t.used == s.used
                  else if s.used != [] && s.used[|s.used| - 1] + r.len <= s.pagesize then
                    && r.block == s.pages[|s.used| - 1] && r.off == s.used[|s.used| - 1]
                    && t.pages == s.pages && t.largeBlocks == s.largeBlocks
                    && t.used == s.used[|s.used| - 1 := r.off + r.len]
                  else
                    && t.pages == (if |s.used| < |s.pages| then s.pages else s.pages + [b])
                    && r.block == t.pages[|s.used|] && r.off == 0
                    && t.largeBlocks == s.largeBlocks && t.used == s.used + [r.len]
  {
    RoundedCoversIff(amount);
    hide Rounded, Handed, NextFit, Sum;
  }

  // ---------- what they keep ----------

  /** Handing out what lies right behind the used part of a block overlaps nothing. */
  lemma HandOutKeeps(live: seq<Range>, fill: map<nat, nat>, r: Range)
    requires Handed(live, fill) && r.off % 8 == 0
    requires r.off == if r.block in fill then fill[r.block] else 0
    ensures Handed(live + [r], fill[r.block := r.off + r.len])
  {
    var fill' := fill[r.block := r.off + r.len];
    forall i | 0 <= i < |live|
      ensures Inside(live[i], fill') && Apart(live[i], r)
    {
      assert Inside(live[i], fill);
    }
  }

  lemma NextFitPush(used: seq<nat>, pagesize: nat, x: nat)
    requires NextFit(used, pagesize) && (used != [] ==> used[|used| - 1] + x > pagesize)
    ensures NextFit(used + [x], pagesize)
  {
  }

  lemma NextFitRaise(used: seq<nat>, pagesize: nat, x: nat)
    requires used != [] && NextFit(used, pagesize) && x >= used[|used| - 1]
    ensures NextFit(used[|used| - 1 := x], pagesize)
  {
  }

  lemma LargeFilled(s: State, b: nat, size: nat)
    requires Shape(s) && Filled(s) && !Owns(s, b) && b !in s.fill
    ensures Shape(AfterLarge(s, b, size)) && Filled(AfterLarge(s, b, size))
  {
    hide NextFit, Sum;
  }

  lemma LargeKeeps(s: State, b: nat, size: nat)
    requires Inv(s) && !Owns(s, b) && b !in s.fill
    ensures Inv(AfterLarge(s, b, size))
  {
    hide Handed, Shape, Filled;
    LargeFilled(s, b, size);
    HandOutKeeps(s.live, s.fill, Range(b, 0, size));
  }

  lemma BumpFilled(s: State, size: nat)
    requires Shape(s) && Filled(s) && s.allocBlock.Some? && s.allocUsed + size <= s.pagesize
    ensures Filled(AfterBump(s, size))
  {
    hide NextFit, Sum;
    var t, last := AfterBump(s, size), s.nextPage - 1;
    SumRaise(s.used, last, s.allocUsed + size);
    NextFitRaise(s.used, s.pagesize, s.allocUsed + size);
    assert forall b | b in t.fill :: b in s.fill;
    assert forall i | 0 <= i < |t.pages| && i != last :: t.pages[i] != t.pages[last];
  }

  lemma FillOfCurrent(s: State)
    requires Shape(s) && Filled(s) && s.allocBlock.Some?
    ensures s.allocBlock.value in s.fill && s.fill[s.allocBlock.value] == s.allocUsed
  {
    hide NextFit;
    assert s.pages[s.nextPage - 1] in s.fill;
  }

  lemma BumpKeeps(s: State, size: nat)
    requires Inv(s) && size % 8 == 0 && s.allocBlock.Some? && s.allocUsed + size <= s.pagesize
    ensures Inv(AfterBump(s, size))
  {
    hide Handed, Filled;
    assert s.allocBlock.value in s.fill && s.fill[s.allocBlock.value] == s.allocUsed by {
      assert Filled(s);
      FillOfCurrent(s);
    }
    HandOutKeeps(s.live, s.fill, Range(s.allocBlock.value, s.allocUsed, size));
    BumpFilled(s, size);
  }

  lemma TurnShape(s: State, b: nat, size: nat)
    requires Shape(s) && size % 8 == 0 && size <= s.pagesize && !Owns(s, b)
    ensures Shape(AfterTurn(s, b, size))
  {
  }

  lemma TurnUsed(s: State, b: nat, size: nat)
    requires Filled(s) && s.nextPage <= |s.pages|
    requires s.allocBlock.Some? ==> s.allocUsed + size > s.pagesize
    requires s.nextPage > 0 ==> s.allocBlock.Some?
    ensures var t := AfterTurn(s, b, size);
            t.used == s.used + [size] && NextFit(t.used, t.pagesize) && t.small == Sum(t.used)
  {
    hide NextFit, Sum;
    SumPush(s.used, size);
    NextFitPush(s.used, s.pagesize, size);
  }

  /** The block an allocation turns to. */
  function TurnBlock(s: State, b: nat): nat {
    if s.nextPage >= |s.pages| then b else s.pages[s.nextPage]
  }

  /** The block turned to was not in use; the fill of all others stays. */
  lemma TurnFill(s: State, b: nat, size: nat)
    requires Shape(s) && Filled(s) && !Owns(s, b) && b !in s.fill
    ensures var t, last := AfterTurn(s, b, size), s.nextPage;
            && |t.pages| > last && t.pages[last] == TurnBlock(s, b) && TurnBlock(s, b) !in s.fill
            && t.fill == s.fill[t.pages[last] := size] && t.nextPage == last + 1
            && (forall i | 0 <= i < |t.pages| && i != last :: t.pages[i] == s.pages[i] && t.pages[i] != t.pages[last])
            && (forall c | Owns(s, c) :: Owns(t, c))
  {
    hide NextFit, Sum;
  }

  lemma TurnFilled(s: State, b: nat, size: nat)
    requires Shape(s) && Filled(s) && size <= s.pagesize && !Owns(s, b) && b !in s.fill
    requires s.allocBlock.Some? ==> s.allocUsed + size > s.pagesize
    ensures Filled(AfterTurn(s, b, size))
    ensures TurnBlock(s, b) !in s.fill
  {
    TurnUsed(s, b, size);
    TurnFill(s, b, size);
    hide NextFit, Sum, Shape;
    var t, last := AfterTurn(s, b, size), s.nextPage;
    assert forall i | last < i < |t.pages| :: t.pages[i] == s.pages[i];
  }

  lemma TurnKeeps(s: State, b: nat, size: nat)
    requires Inv(s) && size % 8 == 0 && size <= s.pagesize
    requires s.allocBlock.Some? ==> s.allocUsed + size > s.pagesize
    requires !Owns(s, b) && b !in s.fill
    ensures Inv(AfterTurn(s, b, size))
  {
    hide Handed, Filled;
    TurnShape(s, b, size);
    TurnFilled(s, b, size);
    HandOutKeeps(s.live, s.fill, Range(TurnBlock(s, b), 0, size));
  }

  lemma InvIndex(s: State)
    requires Inv(s)
    ensures |s.used| == s.nextPage <= |s.pages|
    ensures s.allocBlock == (if s.nextPage == 0 then None else Some(s.pages[s.nextPage - 1]))
  {
  }

  /** Every allocation keeps the ranges handed out aligned, inside their blocks and disjoint. */
  lemma AllocKeeps(s: State, b: nat, amount: nat)
    requires Inv(s) && !Owns(s, b) && b !in s.fill
    ensures Inv(AfterAlloc(s, b, amount))
    ensures var t := AfterAlloc(s, b, amount);
            |t.live| == |s.live| + 1 && t.live[..|s.live|] == s.live && t.live[|s.live|].len == Rounded(amount)
  {
    hide Shape, Filled, Handed, Rounded;
    var size := Rounded(amount);
    if size > s.pagesize {
      LargeKeeps(s, b, size);
    } else if s.allocBlock.Some? && s.allocUsed + size <= s.pagesize {
      BumpKeeps(s, size);
    } else {
      TurnKeeps(s, b, size);
    }
  }

  // ---------- the heap beside the pool ----------

  /** The heap after an allocation; calloc was asked for one block at most. */
  function HeapAfter(s: State, b: nat, amount: nat, blocks: map<nat, Bytes>): map<nat, Bytes> {
    var size := Rounded(amount);
    if size > s.pagesize then blocks[b := Zeros(size)]
    else if s.allocBlock.Some? && s.allocUsed + size <= s.pagesize then blocks
    else if s.nextPage >= |s.pages| then blocks[b := Zeros(s.pagesize)]
    else blocks
  }

  lemma LargeBacked(s: State, b: nat, size: nat, blocks: map<nat, Bytes>)
    requires Shape(s) && Backed(s, blocks) && b !in blocks
    ensures Backed(AfterLarge(s, b, size), blocks[b := Zeros(size)])
  {
    assert forall c | Owns(AfterLarge(s, b, size), c) :: Owns(s, c) || c == b;
  }

  lemma BumpBacked(s: State, size: nat, blocks: map<nat, Bytes>)
    requires Inv(s) && Backed(s, blocks) && s.allocBlock.Some? && s.allocUsed + size <= s.pagesize
    ensures Backed(AfterBump(s, size), blocks)
  {
    hide Handed, NextFit, Sum;
    assert s.pages[s.nextPage - 1] in s.pages;
    assert forall c | Owns(AfterBump(s, size), c) :: Owns(s, c);
  }

  lemma TurnBacked(s: State, b: nat, size: nat, blocks: map<nat, Bytes>)
    requires Inv(s) && Backed(s, blocks) && b !in blocks && size <= s.pagesize
    ensures Backed(AfterTurn(s, b, size), if s.nextPage >= |s.pages| then blocks[b := Zeros(s.pagesize)] else blocks)
  {
    hide Handed, Filled;
    assert forall c | Owns(AfterTurn(s, b, size), c) :: Owns(s, c) || (c == b && s.nextPage >= |s.pages|);
    if s.nextPage < |s.pages| {
      assert s.pages[s.nextPage] in s.pages;
    }
  }

  lemma FreshBlock(s: State, b: nat, blocks: map<nat, Bytes>)
    requires Inv(s) && Backed(s, blocks) && b !in blocks
    ensures !Owns(s, b) && b !in s.fill
  {
    hide Handed, NextFit, Sum;
  }

  lemma AllocBacked(s: State, b: nat, amount: nat, blocks: map<nat, Bytes>)
    requires Inv(s) && Backed(s, blocks) && b !in blocks
    ensures Backed(AfterAlloc(s, b, amount), HeapAfter(s, b, amount, blocks))
  {
    hide Handed, Filled, Backed, Rounded;
    var size := Rounded(amount);
    if size > s.pagesize {
      LargeBacked(s, b, size, blocks);
    } else if s.allocBlock.Some? && s.allocUsed + size <= s.pagesize {
      BumpBacked(s, size, blocks);
    } else {
      TurnBacked(s, b, size, blocks);
    }
  }

  lemma RecycleKeeps(s: State, blocks: map<nat, Bytes>)
    requires Inv(s) && Backed(s, blocks)
    ensures Inv(AfterRecycle(s)) && Backed(AfterRecycle(s), blocks - (set b | b in s.largeBlocks))
    ensures Inv(AfterEmpty(s))
  {
    hide Rounded;
  }

  // ---------- whole runs ----------

  datatype Op = Request(amount: nat) | Recycling | Emptying

  ghost predicate Below(s: State, next: nat) {
    (forall b: nat | Owns(s, b) :: b < next) && (forall b | b in s.fill :: b < next)
  }

  lemma InitialOk(pagesize: nat)
    ensures Inv(Initial(pagesize)) && Below(Initial(pagesize), 0)
  {
    assert Initial(pagesize).live == [];
  }

  lemma AllocBelow(s: State, next: nat, amount: nat)
    requires Inv(s) && Below(s, next)
    ensures Below(AfterAlloc(s, next, amount), next + 1)
  {
    hide Handed, NextFit, Sum, Rounded;
    var t := AfterAlloc(s, next, amount);
    assert forall b | Owns(t, b) :: Owns(s, b) || b == next;
    assert forall b | b in t.fill :: b in s.fill || Owns(t, b);
  }

  lemma RecycleBelow(s: State, next: nat)
    requires Inv(s) && Below(s, next)
    ensures Inv(AfterRecycle(s)) && Below(AfterRecycle(s), next)
    ensures Inv(AfterEmpty(s)) && Below(AfterEmpty(s), next)
  {
    assert forall b | Owns(AfterRecycle(s), b) :: Owns(s, b);
  }

  /** The pool after any sequence of operations; the heap gives out block `next` next. */
  ghost function Run(s: State, next: nat, ops: seq<Op>): (r: State)
    requires Inv(s) && Below(s, next)
    ensures Inv(r)
    decreases |ops|
  {
    if ops == [] then s
    else
      match ops[0]
      case Request(amount) =>
        if amount == 0 then Run(s, next, ops[1..])
        else
          AllocKeeps(s, next, amount);
          AllocBelow(s, next, amount);
          Run(AfterAlloc(s, next, amount), next + 1, ops[1..])
      case Recycling =>
        RecycleBelow(s, next);
        Run(AfterRecycle(s), next, ops[1..])
      case Emptying =>
        RecycleBelow(s, next);
        Run(AfterEmpty(s), next, ops[1..])
  }

  /** After any run: what was handed out since the last recycling is aligned, lies in its blocks and
      is pairwise disjoint; the pool owns exactly as many pages as it ever used at once; and it uses
      few of them. */
  lemma AnyRun(pagesize: nat, ops: seq<Op>)
    ensures Inv(Initial(pagesize)) && Below(Initial(pagesize), 0)
    ensures var s := Run(Initial(pagesize), 0, ops);
            && Handed(s.live, s.fill)
            && |s.pages| == s.peak
            && (s.nextPage >= 2 ==> (s.nextPage - 1) * s.pagesize < 2 * s.small)
  {
    hide Handed;
    InitialOk(pagesize);
    var s := Run(Initial(pagesize), 0, ops);
    if s.nextPage >= 2 {
      NextFitBound(s.used, s.pagesize);
    }
  }

  class Pool {
    const pagesize: nat
    var pages: seq<nat>
    var largeBlocks: seq<nat>
    var nextPage: nat
    var allocBlock: Option<nat>
    var allocUsed: nat
    ghost var live: seq<Range>
    ghost var fill: map<nat, nat>
    ghost var used: seq<nat>
    ghost var small: nat
    ghost var peak: nat

    ghost function View(): State
      reads this
    {
      State(pagesize, pages, largeBlocks, nextPage, allocBlock, allocUsed, live, fill, used, small, peak)
    }

    constructor (pagesize: nat)
      ensures View() == Initial(pagesize)
    {
      this.pagesize := if pagesize == 0 then 4096 else pagesize;
      pages, largeBlocks := [], [];
      nextPage, allocBlock, allocUsed := 0, None, 0;
      live, fill, used, small, peak := [], map[], [], 0, 0;
    }

    /** recycle_amqp_pool: the pages stay owned, the large blocks are freed. */
    method Recycle(mem: Memory)
      requires mem.Valid()
      modifies this, mem`blocks
      ensures mem.Valid() && View() == AfterRecycle(old(View()))
      ensures mem.blocks == old(mem.blocks) - (set b | b in old(largeBlocks))
    {
      mem.Free(largeBlocks);
      largeBlocks := [];
      nextPage, allocBlock, allocUsed := 0, None, 0;
      live, fill, used, small := [], map[], [], 0;
    }

    method Empty(mem: Memory)
      requires mem.Valid()
      modifies this, mem`blocks
      ensures mem.Valid() && View() == AfterEmpty(old(View()))
      ensures mem.blocks == old(mem.blocks) - (set b | b in old(largeBlocks)) - (set b | b in old(pages))
    {
      Recycle(mem);
      mem.Free(pages);
      pages, peak := [], 0;
    }

    method TakeLarge(mem: Memory, size: nat) returns (r: Range)
      requires mem.Valid()
      modifies this, mem
      ensures mem.Valid() && mem.next == old(mem.next) + 1 && mem.blocks == old(mem.blocks)[old(mem.next) := Zeros(size)]
      ensures View() == AfterLarge(old(View()), old(mem.next), size) && live == old(live) + [r]
    {
      var b := mem.Calloc(size);
      largeBlocks := largeBlocks + [b];
      r := Range(b, 0, size);
      live, fill := live + [r], fill[b := size];
    }

    method TakeHere(size: nat) returns (r: Range)
      requires 0 < nextPage == |used| && allocBlock.Some?
      modifies this
      ensures View() == AfterBump(old(View()), size) && live == old(live) + [r]
    {
      r := Range(allocBlock.value, allocUsed, size);
      allocUsed := allocUsed + size;
      used := used[nextPage - 1 := allocUsed];
      small := small + size;
      live, fill := live + [r], fill[r.block := allocUsed];
    }

    /** The next page, a new one if all are in use. */
    method NextPage(mem: Memory)
      requires mem.Valid()
      modifies this`pages, this`allocBlock, this`nextPage, mem
      ensures mem.Valid() && old(mem.next) <= mem.next
      ensures mem.blocks == if old(nextPage) >= old(|pages|) then old(mem.blocks)[old(mem.next) := Zeros(pagesize)] else old(mem.blocks)
      ensures pages == if old(nextPage) >= old(|pages|) then old(pages) + [old(mem.next)] else old(pages)
      ensures nextPage == (if old(nextPage) >= old(|pages|) then |pages| else old(nextPage) + 1)
      ensures 0 < nextPage <= |pages| && allocBlock == Some(pages[nextPage - 1])
    {
      hide Zeros;
      if nextPage >= |pages| {
        var b := mem.Calloc(pagesize);
        pages := pages + [b];
        allocBlock := Some(b);
        nextPage := |pages|;
      } else {
        allocBlock := Some(pages[nextPage]);
        nextPage := nextPage + 1;
      }
    }

    method TakeNext(mem: Memory, size: nat) returns (r: Range)
      requires mem.Valid()
      modifies this, mem
      ensures mem.Valid() && old(mem.next) <= mem.next
      ensures mem.blocks == if old(nextPage) >= old(|pages|) then old(mem.blocks)[old(mem.next) := Zeros(pagesize)] else old(mem.blocks)
      ensures View() == AfterTurn(old(View()), old(mem.next), size) && live == old(live) + [r]
    {
      hide Zeros, Owns;
      NextPage(mem);
      allocUsed := size;
      used := used + [size];
      small := small + size;
      peak := Max(peak, nextPage);
      r := Range(allocBlock.value, 0, size);
      live, fill := live + [r], fill[r.block := size];
    }

    /** amqp_pool_alloc; None is the null pointer. */
    method Alloc(mem: Memory, amount: nat) returns (r: Option<Range>)
      requires Inv(View()) && mem.Valid() && Backed(View(), mem.blocks)
      requires amount <= SIZE_MAX
      modifies this, mem
      ensures Inv(View()) && mem.Valid() && Backed(View(), mem.blocks)
      ensures amount == 0 ==> r.None? && unchanged(this) && unchanged(mem)
      ensures amount > 0 ==>
                && View() == AfterAlloc(old(View()), old(mem.next), amount)
                && r == Some(View().live[|old(live)|])
                && mem.blocks == HeapAfter(old(View()), old(mem.next), amount, old(mem.blocks))
                && old(mem.next) <= mem.next
    {
      hide Inv, Backed, Rounded, Zeros, AfterLarge, AfterBump, AfterTurn;
      ghost var s := View();
      InvIndex(s);
      FreshBlock(s, mem.next, mem.blocks);
      AllocBacked(s, mem.next, amount, mem.blocks);
      AllocKeeps(s, mem.next, amount);
      if amount == 0 {
        return None;
      }
      var size := Rounded(amount);
      var got;
      if size > pagesize {
        got := TakeLarge(mem, size);
      } else if allocBlock.Some? && allocUsed + size <= pagesize {
        got := TakeHere(size);
      } else {
        got := TakeNext(mem, size);
      }
      r := Some(got);
    }
  }
}
