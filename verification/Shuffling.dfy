/**
  Google Test's random numbers and its Fisher-Yates shuffle.
 */
module Shuffling {

  const UINT32 := 0x1_0000_0000
  const MAX_RANGE: nat := 0x8000_0000
  const INT_MAX: nat := 0x7FFF_FFFF

  /** The linear congruential generator, in 32-bit arithmetic. */
  function NextState(state: nat): nat {
    (1103515245 * state % UINT32 + 12345) % UINT32 % MAX_RANGE
  }

  lemma Shifted(x: nat, k: nat)
    ensures (x + MAX_RANGE * k) % MAX_RANGE == x % MAX_RANGE
  {
  }

  lemma WrapShift(x: nat)
    ensures x % UINT32 % MAX_RANGE == x % MAX_RANGE
  {
    Shifted(x % UINT32, 2 * (x / UINT32));
  }

  lemma WrapOnce(a: nat, c: nat)
    ensures (a % UINT32 + c) % UINT32 % MAX_RANGE == (a + c) % MAX_RANGE
  {
    WrapShift(a % UINT32 + c);
    Shifted(a % UINT32 + c, 2 * (a / UINT32));
  }

  /** In closed form: the 32-bit wrap-around in between does not show. */
  lemma NextStateIs(state: nat)
    ensures NextState(state) == (1103515245 * state + 12345) % 2147483648
  {
    WrapOnce(1103515245 * state, 12345);
  }

  class Random {
    var state: nat

    constructor (seed: nat)
      ensures state == seed
    {
      state := seed;
    }

    method Reseed(seed: nat)
      modifies this
      ensures state == seed
    {
      state := seed;
    }

    method Generate(range: nat) returns (r: nat)
      requires 0 < range <= MAX_RANGE
      modifies this
      ensures state == NextState(old(state)) && r == state % range
      ensures r < range && state < MAX_RANGE
    {
      state := (1103515245 * state % UINT32 + 12345) % UINT32 % MAX_RANGE;
      r := state % range;
    }
  }

  // ---------- the shuffle ----------

  function Swap<T>(v: seq<T>, i: nat, j: nat): seq<T>
    requires i < |v| && j < |v|
  {
    v[i := v[j]][j := v[i]]
  }

  /** A draw for every width from `width` down to 2. */
  predicate DrawsOk(width: nat, draws: seq<nat>) {
    |draws| == (if width < 2 then 0 else width - 1) && forall i | 0 <= i < |draws| :: draws[i] < width - i
  }

  /** The range of `width` elements from `begin` on, shuffled with these draws. */
  function Shuffled<T>(v: seq<T>, begin: nat, width: nat, draws: seq<nat>): seq<T>
    requires begin + width <= |v| && DrawsOk(width, draws)
    decreases width
  {
    if width < 2 then v
    else Shuffled(Swap(v, begin + draws[0], begin + width - 1), begin, width - 1, draws[1..])
  }

  /** The draws a generator makes. */
  function Draws(state: nat, width: nat): seq<nat>
    decreases width
  {
    if width < 2 then [] else [NextState(state) % width] + Draws(NextState(state), width - 1)
  }

  function StateAfter(state: nat, width: nat): nat
    decreases width
  {
    if width < 2 then state else StateAfter(NextState(state), width - 1)
  }

  lemma {:induction false} DrawsAreOk(state: nat, width: nat)
    ensures DrawsOk(width, Draws(state, width))
    decreases width
  {
    hide NextState;
    if width >= 2 {
      DrawsAreOk(NextState(state), width - 1);
    }
  }

  lemma ShuffleNothing<T>(v: seq<T>, begin: nat, width: nat, state: nat)
    requires begin + width <= |v| && width < 2
    ensures DrawsOk(width, Draws(state, width)) && Shuffled(v, begin, width, Draws(state, width)) == v
    ensures StateAfter(state, width) == state
  {
  }

  /** One turn of the loop. */
  lemma ShuffleTurn<T>(v: seq<T>, begin: nat, width: nat, state: nat)
    requires begin + width <= |v| && width >= 2
    ensures DrawsOk(width, Draws(state, width)) && DrawsOk(width - 1, Draws(NextState(state), width - 1))
    ensures NextState(state) % width < width && StateAfter(state, width) == StateAfter(NextState(state), width - 1)
    ensures Shuffled(v, begin, width, Draws(state, width)) ==
            Shuffled(Swap(v, begin + NextState(state) % width, begin + width - 1), begin, width - 1,
                     Draws(NextState(state), width - 1))
  {
    DrawsAreOk(state, width);
    DrawsAreOk(NextState(state), width - 1);
    hide NextState, Swap, DrawsOk;
    assert Draws(state, width)[1..] == Draws(NextState(state), width - 1);
  }

  /** `ShuffleRange(random, begin, end, &v)`; the vector is passed in and out. */
  method ShuffleRange<T>(random: Random, begin: nat, end: nat, v: seq<T>) returns (w: seq<T>)
    requires begin <= end <= |v| <= INT_MAX
    modifies random
    ensures DrawsOk(end - begin, Draws(old(random.state), end - begin))
    ensures w == Shuffled(v, begin, end - begin, Draws(old(random.state), end - begin))
    ensures random.state == StateAfter(old(random.state), end - begin)
  {
    hide NextState, Shuffled, Draws, StateAfter, DrawsOk;
    DrawsAreOk(random.state, end - begin);
    w := v;
    var rangeWidth: nat := end - begin;
    while rangeWidth >= 2
      invariant rangeWidth <= end - begin && |w| == |v|
      invariant StateAfter(old(random.state), end - begin) == StateAfter(random.state, rangeWidth)
      invariant DrawsOk(rangeWidth, Draws(random.state, rangeWidth))
      invariant Shuffled(v, begin, end - begin, Draws(old(random.state), end - begin))
             == Shuffled(w, begin, rangeWidth, Draws(random.state, rangeWidth))
    {
      ShuffleTurn(w, begin, rangeWidth, random.state);
      var lastInRange := begin + rangeWidth - 1;
      var selected := random.Generate(rangeWidth);
      selected := begin + selected;
      w := w[selected := w[lastInRange]][lastInRange := w[selected]];
      rangeWidth := rangeWidth - 1;
    }
    ShuffleNothing(w, begin, rangeWidth, random.state);
  }

  // ---------- what a shuffle can do ----------

  ghost predicate SameBag<T>(v: seq<T>, t: seq<T>) {
    multiset(t) == multiset(v)
  }

  /** The sequences agree outside the range. */
  ghost predicate SameOutside<T>(v: seq<T>, begin: nat, width: nat, t: seq<T>) {
    |t| == |v| && forall i | 0 <= i < |v| && !(begin <= i < begin + width) :: t[i] == v[i]
  }

  /** `t` is `v` with the elements of the range in another order. */
  ghost predicate Rearranges<T>(v: seq<T>, begin: nat, width: nat, t: seq<T>)
    requires begin + width <= |v|
  {
    SameOutside(v, begin, width, t) && SameBag(v, t)
  }

  lemma SwapRearranges<T>(v: seq<T>, i: nat, j: nat)
    requires i < |v| && j < |v|
    ensures |Swap(v, i, j)| == |v| && multiset(Swap(v, i, j)) == multiset(v)
    ensures forall k | 0 <= k < |v| && k != i && k != j :: Swap(v, i, j)[k] == v[k]
    ensures Swap(v, i, j)[i] == v[j] && Swap(v, i, j)[j] == v[i]
  {
  }

  /** Whatever is drawn, a shuffle rearranges the range and nothing else. */
  lemma {:induction false} ShuffledRearranges<T>(v: seq<T>, begin: nat, width: nat, draws: seq<nat>)
    requires begin + width <= |v| && DrawsOk(width, draws)
    ensures Rearranges(v, begin, width, Shuffled(v, begin, width, draws))
    decreases width
  {
    hide Swap;
    if width >= 2 {
      SwapRearranges(v, begin + draws[0], begin + width - 1);
      ShuffledRearranges(Swap(v, begin + draws[0], begin + width - 1), begin, width - 1, draws[1..]);
    }
  }

  /** The range, shuffled with the draws of a generator in this state. */
  function ShuffledBy<T>(v: seq<T>, begin: nat, width: nat, state: nat): (w: seq<T>)
    requires begin + width <= |v|
    ensures |w| == |v|
  {
    DrawsAreOk(state, width);
    ShuffledRearranges(v, begin, width, Draws(state, width));
    Shuffled(v, begin, width, Draws(state, width))
  }

  predicate Distinct<T(==)>(v: seq<T>) {
    forall i, j | 0 <= i < j < |v| :: v[i] != v[j]
  }

  lemma DistinctCounts<T>(v: seq<T>, x: T)
    requires Distinct(v)
    ensures multiset(v)[x] <= 1
  {
    if v != [] {
      var n := |v| - 1;
      assert v == v[..n] + [v[n]];
      DistinctCounts(v[..n], x);
      if x == v[n] {
        assert x !in v[..n];
      }
    }
  }

  lemma {:induction false} CountsDistinct<T>(v: seq<T>)
    requires forall x | x in v :: multiset(v)[x] <= 1
    ensures Distinct(v)
  {
    forall i, j | 0 <= i < j < |v| ensures v[i] != v[j] {
      assert v == v[..j] + v[j..];
      assert v[i] in v[..j] && v[j] in v[j..];
      assert v[i] == v[j] ==> multiset(v)[v[i]] >= 2;
    }
  }

  lemma RearrangedDistinct<T>(v: seq<T>, t: seq<T>)
    requires Distinct(v) && multiset(t) == multiset(v)
    ensures Distinct(t)
  {
    forall x | x in t ensures multiset(t)[x] <= 1 {
      DistinctCounts(v, x);
    }
    CountsDistinct(t);
  }

  lemma PickExists<T>(v: seq<T>, begin: nat, width: nat, t: seq<T>)
    requires begin + width <= |v| && width > 0 && Distinct(v) && Rearranges(v, begin, width, t)
    ensures exists i :: begin <= i < begin + width && v[i] == t[begin + width - 1]
  {
    var last := begin + width - 1;
    RearrangedDistinct(v, t);
    assert t[last] in multiset(v);
    var i :| 0 <= i < |v| && v[i] == t[last];
    if !(begin <= i < begin + width) {
      assert false;
    }
  }

  /** Where the range of `v` has what `t` has in its last place. */
  ghost function Pick<T>(v: seq<T>, begin: nat, width: nat, t: seq<T>): (k: nat)
    requires begin + width <= |v| && width > 0 && Distinct(v) && Rearranges(v, begin, width, t)
    ensures k < width && v[begin + k] == t[begin + width - 1]
  {
    PickExists(v, begin, width, t);
    var i :| begin <= i < begin + width && v[i] == t[begin + width - 1];
    i - begin
  }

  lemma SwapDistinct<T>(v: seq<T>, i: nat, j: nat)
    requires i < |v| && j < |v| && Distinct(v)
    ensures Distinct(Swap(v, i, j))
  {
    SwapRearranges(v, i, j);
    hide Distinct, Swap;
    RearrangedDistinct(v, Swap(v, i, j));
  }

  lemma SwapBag<T>(v: seq<T>, i: nat, j: nat, t: seq<T>)
    requires i < |v| && j < |v| && SameBag(v, t)
    ensures SameBag(Swap(v, i, j), t)
  {
  }

  lemma SwapOutside<T>(v: seq<T>, begin: nat, width: nat, k: nat, t: seq<T>)
    requires begin + width <= |v| && k < width && SameOutside(v, begin, width, t) && v[begin + k] == t[begin + width - 1]
    ensures SameOutside(Swap(v, begin + k, begin + width - 1), begin, width - 1, t)
  {
  }

  lemma SwapTowardsAt<T>(v: seq<T>, begin: nat, width: nat, k: nat, t: seq<T>)
    requires begin + width <= |v| && k < width && Rearranges(v, begin, width, t) && v[begin + k] == t[begin + width - 1]
    ensures var w := Swap(v, begin + k, begin + width - 1); |w| == |v| && Rearranges(w, begin, width - 1, t)
  {
    SwapBag(v, begin + k, begin + width - 1, t);
    hide SameBag;
    SwapOutside(v, begin, width, k, t);
  }

  lemma SwapTowards<T>(v: seq<T>, begin: nat, width: nat, t: seq<T>)
    requires begin + width <= |v| && width > 0 && Distinct(v) && Rearranges(v, begin, width, t)
    ensures var w := Swap(v, begin + Pick(v, begin, width, t), begin + width - 1);
            |w| == |v| && Distinct(w) && Rearranges(w, begin, width - 1, t)
  {
    hide Distinct, Pick, Swap, Rearranges;
    var k := Pick(v, begin, width, t);
    SwapDistinct(v, begin + k, begin + width - 1);
    SwapTowardsAt(v, begin, width, k, t);
  }

  /** One swap puts the last element of the range in place. */
  ghost function Towards<T>(v: seq<T>, begin: nat, width: nat, t: seq<T>): (w: seq<T>)
    requires begin + width <= |v| && width > 0 && Distinct(v) && Rearranges(v, begin, width, t)
    ensures |w| == |v| && Distinct(w) && Rearranges(w, begin, width - 1, t)
  {
    SwapTowards(v, begin, width, t);
    Swap(v, begin + Pick(v, begin, width, t), begin + width - 1)
  }

  /** The draws that turn `v` into `t`. */
  ghost function DrawsFor<T>(v: seq<T>, begin: nat, width: nat, t: seq<T>): (draws: seq<nat>)
    requires begin + width <= |v| && Distinct(v) && Rearranges(v, begin, width, t)
    decreases width
  {
    if width < 2 then []
    else
      [Pick(v, begin, width, t)] + DrawsFor(Towards(v, begin, width, t), begin, width - 1, t)
  }

  /** The first draw decides what ends in the last place. */
  lemma FirstDraw<T>(v: seq<T>, begin: nat, width: nat, draws: seq<nat>)
    requires begin + width <= |v| && width >= 2 && DrawsOk(width, draws)
    ensures |Shuffled(v, begin, width, draws)| == |v|
    ensures Shuffled(v, begin, width, draws)[begin + width - 1] == v[begin + draws[0]]
  {
    hide Swap, SameBag;
    var last := begin + width - 1;
    var u := Swap(v, begin + draws[0], last);
    SwapRearranges(v, begin + draws[0], last);
    ShuffledRearranges(u, begin, width - 1, draws[1..]);
  }

  lemma OneDraw<T>(v: seq<T>, begin: nat, width: nat, t: seq<T>, draws: seq<nat>)
    requires begin + width <= |v| && width >= 2 && Distinct(v) && Rearranges(v, begin, width, t) && DrawsOk(width, draws)
    ensures DrawsOk(width - 1, draws[1..])
    ensures var k := Pick(v, begin, width, t);
            var w := Swap(v, begin + k, begin + width - 1);
            Shuffled(v, begin, width, draws) == t <==>
            draws[0] == k && Shuffled(w, begin, width - 1, draws[1..]) == t
  {
    hide Pick, Swap, Rearranges;
    var k := Pick(v, begin, width, t);
    FirstDraw(v, begin, width, draws);
    assert v[begin + draws[0]] == v[begin + k] ==> draws[0] == k;
  }

  lemma AgreesButOne<T>(v: seq<T>, begin: nat, t: seq<T>)
    requires begin < |v| && SameOutside(v, begin, 1, t)
    ensures t == v[begin := t[begin]]
  {
  }

  lemma UpdatedCount<T>(v: seq<T>, i: nat, x: T)
    requires i < |v|
    ensures multiset(v[i := x])[x] == multiset(v)[x] + if v[i] == x then 0 else 1
  {
  }

  /** Replacing one element by another changes how often it occurs. */
  lemma SameLast<T>(v: seq<T>, i: nat, x: T)
    requires i < |v| && SameBag(v, v[i := x])
    ensures v[i] == x
  {
    UpdatedCount(v, i, x);
  }

  lemma Rigid<T>(v: seq<T>, begin: nat, width: nat, t: seq<T>)
    requires begin + width <= |v| && width < 2 && Rearranges(v, begin, width, t)
    ensures t == v
  {
    if width == 1 {
      AgreesButOne(v, begin, t);
      SameLast(v, begin, t[begin]);
    } else {
      hide SameBag;
    }
  }

  /** The range of different elements can end in any order, each for exactly one list of draws: with
      even draws every order is equally likely. */
  lemma {:induction false} EveryOrderOnce<T>(v: seq<T>, begin: nat, width: nat, t: seq<T>)
    requires begin + width <= |v| && Distinct(v) && Rearranges(v, begin, width, t)
    ensures DrawsOk(width, DrawsFor(v, begin, width, t))
    ensures forall draws | DrawsOk(width, draws) ::
              Shuffled(v, begin, width, draws) == t <==> draws == DrawsFor(v, begin, width, t)
    decreases width
  {
    hide Distinct, Pick, Swap, Rearranges;
    if width < 2 {
      Rigid(v, begin, width, t);
      assert forall draws | DrawsOk(width, draws) :: draws == [];
    } else {
      var k := Pick(v, begin, width, t);
      var w := Swap(v, begin + k, begin + width - 1);
      SwapTowards(v, begin, width, t);
      EveryOrderOnce(w, begin, width - 1, t);
      var ds := DrawsFor(v, begin, width, t);
      assert ds[0] == k && ds[1..] == DrawsFor(w, begin, width - 1, t);
      forall draws | DrawsOk(width, draws) ensures Shuffled(v, begin, width, draws) == t <==> draws == ds {
        OneDraw(v, begin, width, t, draws);
        assert draws == [draws[0]] + draws[1..];
      }
    }
  }
}
