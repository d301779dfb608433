/**
  All registered test cases: death test cases come first in every order in which the cases are run, and
  every test that should run is run once.
 */
module Registry {
  import opened Wire
  import opened TestFilter
  import opened Shuffling
  import opened Sharding
  import opened Permutations
  import opened UnitTest

  // ---------- orders ----------

  /** An order of `n` cases of which the first `d`, the death test cases, come first. */
  ghost predicate OrderOk(indices: seq<int>, n: nat, d: nat) {
    && d <= n == |indices|
    && multiset(indices[..d]) == multiset(Identity(n)[..d])
    && multiset(indices[d..]) == multiset(Identity(n)[d..])
  }

  lemma OrderPermutes(indices: seq<int>, n: nat, d: nat)
    requires OrderOk(indices, n, d)
    ensures Permutes(indices, n)
  {
    assert indices == indices[..d] + indices[d..] && Identity(n) == Identity(n)[..d] + Identity(n)[d..];
  }

  lemma OrderDeathsFirst(indices: seq<int>, n: nat, d: nat, k: nat)
    requires OrderOk(indices, n, d) && k < n
    ensures 0 <= indices[k] < n && (k < d <==> indices[k] < d)
  {
    if k < d {
      assert indices[..d][k] in multiset(Identity(n)[..d]);
    } else {
      assert indices[d..][k - d] in multiset(Identity(n)[d..]);
    }
  }

  lemma SplitBag(s: seq<int>, d: nat)
    requires d <= |s|
    ensures multiset(s[..d]) == multiset(s) - multiset(s[d..])
    ensures multiset(s[d..]) == multiset(s) - multiset(s[..d])
  {
    assert s == s[..d] + s[d..];
  }

  /** Shuffling the death test cases, then the others. */
  lemma ShuffledOrderOk(indices: seq<int>, n: nat, d: nat, t: seq<int>, u: seq<int>)
    requires OrderOk(indices, n, d) && Rearranges(indices, 0, d, t) && Rearranges(t, d, n - d, u)
    ensures OrderOk(u, n, d)
  {
    assert t[d..] == indices[d..] && u[..d] == t[..d];
    SplitBag(t, d);
    SplitBag(u, d);
    SplitBag(indices, d);
  }

  // ---------- registration ----------

  /** The names of the cases, death test cases first, and how many of those there are. */
  datatype Titles = Titles(names: seq<string>, deaths: nat)

  predicate TitlesOk(t: Titles) {
    && t.deaths <= |t.names| && Distinct(t.names)
    && forall i | 0 <= i < |t.names| :: IsDeathTestCase(t.names[i]) <==> i < t.deaths
  }

  function AddTitle(t: Titles, name: string): Titles
    requires t.deaths <= |t.names|
  {
    if name in t.names then t
    else if IsDeathTestCase(name) then
      Titles(t.names[..t.deaths] + [name] + t.names[t.deaths..], t.deaths + 1)
    else Titles(t.names + [name], t.deaths)
  }

  lemma AddTitleOk(t: Titles, name: string)
    requires TitlesOk(t)
    ensures TitlesOk(AddTitle(t, name))
  {
    hide IsDeathTestCase;
  }

  /** The cases after these calls of GetTestCase. */
  function Register(calls: seq<string>): (t: Titles)
    ensures TitlesOk(t)
  {
    if calls == [] then Titles([], 0)
    else
      var t := Register(calls[..|calls| - 1]);
      AddTitleOk(t, calls[|calls| - 1]);
      AddTitle(t, calls[|calls| - 1])
  }

  /** The different names, in the order in which they first occur. */
  function FirstCalls(calls: seq<string>): seq<string> {
    if calls == [] then []
    else
      var before, name := FirstCalls(calls[..|calls| - 1]), calls[|calls| - 1];
      if name in before then before else before + [name]
  }

  function Select(names: seq<string>, death: bool): seq<string> {
    if names == [] then []
    else
      var before, name := Select(names[..|names| - 1], death), names[|names| - 1];
      if IsDeathTestCase(name) == death then before + [name] else before
  }

  lemma SelectAppend(names: seq<string>, name: string, death: bool)
    ensures Select(names + [name], death)
            == if IsDeathTestCase(name) == death then Select(names, death) + [name] else Select(names, death)
  {
    hide IsDeathTestCase;
    assert (names + [name])[..|names|] == names;
  }

  lemma {:induction false} SelectedNames(names: seq<string>, name: string)
    ensures name in names <==> name in Select(names, true) + Select(names, false)
  {
    hide IsDeathTestCase;
    if names != [] {
      var n := |names| - 1;
      SelectedNames(names[..n], name);
      assert names == names[..n] + [names[n]];
    }
  }

  lemma SelectNothing()
    ensures Select([], true) == [] && Select([], false) == []
  {
  }

  /** Whatever is registered, in whatever order and however often: first the death test cases, then the
      others, each group in the order of first registration. */
  lemma {:induction false} RegisteredOrder(calls: seq<string>)
    ensures var first := FirstCalls(calls);
            Register(calls) == Titles(Select(first, true) + Select(first, false), |Select(first, true)|)
  {
    hide IsDeathTestCase, Select;
    if calls == [] {
      SelectNothing();
    } else {
      var before, name := calls[..|calls| - 1], calls[|calls| - 1];
      RegisteredOrder(before);
      var first := FirstCalls(before);
      var d, o := Select(first, true), Select(first, false);
      SelectedNames(first, name);
      SelectAppend(first, name, true);
      SelectAppend(first, name, false);
      assert (d + o)[..|d|] == d && (d + o)[|d|..] == o && d + o + [name] == d + (o + [name]);
    }
  }

  // ---------- the registry ----------

  datatype CaseRun = CaseRun(caseName: string, tests: seq<string>)

  const MAX_RANDOM_SEED := 99999

  function GetNextRandomSeed(seed: nat): nat
    requires 1 <= seed <= MAX_RANDOM_SEED
  {
    if seed + 1 > MAX_RANDOM_SEED then 1 else seed + 1
  }

  function NamesOf(cases: seq<TestCase>): (r: seq<string>)
    ensures |r| == |cases|
  {
    seq(|cases|, i requires 0 <= i < |cases| => cases[i].name)
  }

  lemma NamesAt(cases: seq<TestCase>)
    ensures forall i | 0 <= i < |cases| :: NamesOf(cases)[i] == cases[i].name
  {
  }

  /** vector::insert */
  function Inserted<T>(v: seq<T>, at: nat, x: T): (r: seq<T>)
    requires at <= |v|
    ensures |r| == |v| + 1
  {
    v[..at] + [x] + v[at..]
  }

  lemma InsertedNames(cases: seq<TestCase>, d: nat, c: TestCase)
    requires d <= |cases|
    ensures NamesOf(Inserted(cases, d, c)) == Inserted(NamesOf(cases), d, c.name)
    ensures NamesOf(cases + [c]) == NamesOf(cases) + [c.name]
    ensures forall x :: x in Inserted(cases, d, c) <==> x in cases || x == c
  {
    assert cases == cases[..d] + cases[d..];
  }

  lemma AddTitleNew(t: Titles, name: string)
    requires t.deaths <= |t.names| && name !in t.names
    ensures AddTitle(t, name) ==
            if IsDeathTestCase(name) then Titles(Inserted(t.names, t.deaths, name), t.deaths + 1)
            else Titles(t.names + [name], t.deaths)
  {
    hide IsDeathTestCase;
  }

  ghost function ViewsOf(cases: seq<TestCase>): (r: seq<CaseView>)
    reads cases
    ensures |r| == |cases|
  {
    seq(|cases|, i requires 0 <= i < |cases| reads cases => cases[i].View())
  }

  lemma ViewsAt(cases: seq<TestCase>)
    ensures forall i | 0 <= i < |cases| :: ViewsOf(cases)[i] == cases[i].View()
  {
  }

  ghost predicate RanAs(r: CaseRun, c: CaseView) {
    r.caseName == c.name && multiset(r.tests) == multiset(RunNames(c.tests))
  }

  /** Every case is visited once, the first `deaths` cases before the others, and in each every test that
      should run is run once. */
  ghost predicate IterationOk(order: seq<CaseRun>, cases: seq<CaseView>, deaths: nat) {
    exists indices :: OrderOk(indices, |cases|, deaths) && InRange(indices, |cases|) && |order| == |cases|
                      && forall k | 0 <= k < |order| :: RanAs(order[k], cases[indices[k]])
  }

  // ---------- the order of an iteration ----------

  /** The generator's state behind shuffles of these widths. */
  function StateThrough(state: nat, widths: seq<nat>): nat {
    if widths == [] then state
    else
      var n := |widths| - 1;
      StateAfter(StateThrough(state, widths[..n]), widths[n])
  }

  lemma StateFirst(state: nat, widths: seq<nat>)
    ensures StateThrough(state, widths[..0]) == state
  {
  }

  lemma StateNext(state: nat, widths: seq<nat>, i: nat)
    requires i < |widths|
    ensures StateThrough(state, widths[..i + 1]) == StateAfter(StateThrough(state, widths[..i]), widths[i])
  {
    assert widths[..i + 1][..i] == widths[..i];
  }

  function Widths(cases: seq<CaseView>): (r: seq<nat>)
    ensures |r| == |cases|
  {
    seq(|cases|, i requires 0 <= i < |cases| => |cases[i].tests|)
  }

  /** The order of `n` cases, `d` of them death test cases, shuffled from this seed or not at all. */
  function CaseOrder(n: nat, d: nat, seed: Option<nat>): seq<int>
    requires d <= n
  {
    if seed.None? then Identity(n)
    else ShuffledBy(ShuffledBy(Identity(n), 0, d, seed.value), d, n - d, StateAfter(seed.value, d))
  }

  /** The generator's state when the cases themselves are shuffled. */
  function StateBehindCases(n: nat, d: nat, state: nat): nat
    requires d <= n
  {
    StateAfter(StateAfter(state, d), n - d)
  }

  /** The order of the tests inside case `i`. */
  function TestOrder(cases: seq<CaseView>, d: nat, i: nat, seed: Option<nat>): seq<int>
    requires d <= |cases| && i < |cases|
  {
    var m := |cases[i].tests|;
    if seed.None? then Identity(m)
    else ShuffledBy(Identity(m), 0, m, StateThrough(StateBehindCases(|cases|, d, seed.value), Widths(cases)[..i]))
  }

  /** The visit of case `i` runs its selected tests in this order. */
  ghost predicate VisitIs(r: CaseRun, cases: seq<CaseView>, d: nat, i: nat, seed: Option<nat>)
    requires d <= |cases| && i < |cases|
  {
    var order := TestOrder(cases, d, i, seed);
    InRange(order, |cases[i].tests|) && r == CaseRun(cases[i].name, RunNames(Apply(cases[i].tests, order)))
  }

  /** The iteration, test by test, is the one that the seed determines. */
  ghost predicate IterationIs(order: seq<CaseRun>, cases: seq<CaseView>, d: nat, seed: Option<nat>)
    requires d <= |cases|
  {
    var indices := CaseOrder(|cases|, d, seed);
    && InRange(indices, |cases|) && |order| == |indices| == |cases|
    && forall k | 0 <= k < |order| :: VisitIs(order[k], cases, d, indices[k], seed)
  }

  /** The seed of an iteration. */
  function SeedAt(seed: nat, i: nat): (r: nat)
    requires 1 <= seed <= MAX_RANDOM_SEED
    ensures 1 <= r <= MAX_RANDOM_SEED
  {
    if i == 0 then seed else GetNextRandomSeed(SeedAt(seed, i - 1))
  }

  function SeedOf(shuffle: bool, seed: nat, i: nat): Option<nat>
    requires 1 <= seed <= MAX_RANDOM_SEED
  {
    if shuffle then Some(SeedAt(seed, i)) else None
  }

  lemma SeedNext(n: nat)
    ensures (n + 1) % MAX_RANDOM_SEED == if n % MAX_RANDOM_SEED + 1 == MAX_RANDOM_SEED then 0 else n % MAX_RANDOM_SEED + 1
  {
    var q, r := n / MAX_RANDOM_SEED, n % MAX_RANDOM_SEED;
    assert n == q * MAX_RANDOM_SEED + r;
  }

  lemma {:induction false} SeedAfter(seed: nat, i: nat)
    requires 1 <= seed <= MAX_RANDOM_SEED
    ensures SeedAt(seed, i) == (seed - 1 + i) % 99999 + 1
    decreases i
  {
    if i > 0 {
      SeedAfter(seed, i - 1);
      SeedNext(seed - 1 + (i - 1));
    }
  }

  /** A later iteration can be repeated without those before it: the iteration that seed determines is the
      first one of a run from its own seed. */
  lemma IterationRepeats(a: seq<CaseRun>, b: seq<CaseRun>, cases: seq<CaseView>, d: nat, shuffle: bool, seed: nat, i: nat)
    requires d <= |cases| && 1 <= seed <= MAX_RANDOM_SEED
    requires IterationIs(a, cases, d, SeedOf(shuffle, seed, i))
    requires IterationIs(b, cases, d, SeedOf(shuffle, SeedAt(seed, i), 0))
    ensures a == b
  {
    hide CaseOrder, TestOrder;
    var s := SeedOf(shuffle, seed, i);
    assert SeedOf(shuffle, SeedAt(seed, i), 0) == s;
    forall k | 0 <= k < |a| ensures a[k] == b[k] {
      assert VisitIs(a[k], cases, d, CaseOrder(|cases|, d, s)[k], s) && VisitIs(b[k], cases, d, CaseOrder(|cases|, d, s)[k], s);
    }
  }

  // ---------- what an iteration runs ----------

  /** Only tests that may run are run, and without sharding all of them. */
  ghost predicate RunsWhatMay(o: Options, s: Shard, cases: seq<CaseView>, order: seq<CaseRun>) {
    && (forall k, n | 0 <= k < |order| && n in order[k].tests :: MayRun(o, order[k].caseName, n))
    && (s.Everything? ==>
          forall i, j | 0 <= i < |cases| && 0 <= j < |cases[i].tests| && MayRun(o, cases[i].name, cases[i].tests[j].name) ::
            exists r :: r in order && r.caseName == cases[i].name && cases[i].tests[j].name in r.tests)
  }

  lemma {:induction false} RunNamesIff(tests: seq<TestInfo>, n: string)
    ensures n in RunNames(tests) <==> exists t :: t in tests && t.shouldRun && t.name == n
  {
    if tests != [] {
      RunNamesIff(tests[1..], n);
      assert forall t :: t in tests <==> t == tests[0] || t in tests[1..];
    }
  }

  lemma {:induction false} CountsOne(tests: seq<TestInfo>, j: nat)
    requires j < |tests| && tests[j].shouldRun
    ensures SelectedCount(tests) > 0
  {
    if j > 0 {
      CountsOne(tests[1..], j - 1);
    }
  }

  lemma {:induction false} TotalsOne(cases: seq<CaseView>, i: nat, j: nat)
    requires i < |cases| && j < |cases[i].tests| && cases[i].tests[j].shouldRun
    ensures Total(cases) > 0
  {
    hide SelectedCount;
    if i == 0 {
      CountsOne(cases[0].tests, j);
    } else {
      TotalsOne(cases[1..], i - 1, j);
    }
  }

  lemma VisitMayRun(o: Options, s: Shard, before: CaseView, after: CaseView, r: CaseRun)
    requires RanAs(r, after) && after.name == before.name && SelectedOnly(o, s, before.name, before.tests, after.tests)
    ensures forall n | n in r.tests :: MayRun(o, r.caseName, n)
    ensures forall j | s.Everything? && 0 <= j < |before.tests| && MayRun(o, before.name, before.tests[j].name) ::
              before.tests[j].name in r.tests
  {
    hide MayRun, RunNames;
    forall n ensures n in r.tests <==> n in RunNames(after.tests) {
      assert n in multiset(r.tests) <==> n in multiset(RunNames(after.tests));
    }
    forall n | n in r.tests ensures MayRun(o, r.caseName, n) {
      RunNamesIff(after.tests, n);
    }
    forall j | s.Everything? && 0 <= j < |before.tests| && MayRun(o, before.name, before.tests[j].name)
      ensures before.tests[j].name in r.tests
    {
      assert after.tests[j] in after.tests && after.tests[j].shouldRun;
      RunNamesIff(after.tests, before.tests[j].name);
    }
  }

  lemma NameOfVisit(r: CaseRun, c: CaseView)
    requires RanAs(r, c)
    ensures r.caseName == c.name
  {
  }

  lemma VisitOf(indices: seq<int>, n: nat, d: nat, i: nat) returns (k: nat)
    requires OrderOk(indices, n, d) && i < n
    ensures k < |indices| && indices[k] == i
  {
    OrderPermutes(indices, n, d);
    assert Identity(n)[i] == i;
    assert i in multiset(Identity(n));
    assert i in multiset(indices);
    k :| 0 <= k < |indices| && indices[k] == i;
  }

  lemma IterationMayRun(o: Options, s: Shard, cases: seq<CaseView>, deaths: nat, order: seq<CaseRun>)
    requires ShardOk(s) && IterationOk(order, Filtered(o, s, cases, 0), deaths)
    ensures RunsWhatMay(o, s, cases, order)
  {
    hide MayRun, Filtered, SelectedOnly, RanAs, Permutes;
    var after := Filtered(o, s, cases, 0);
    CasesSelected(o, s, cases, 0);
    var indices :| OrderOk(indices, |after|, deaths) && InRange(indices, |after|) && |order| == |after|
                   && forall k | 0 <= k < |order| :: RanAs(order[k], after[indices[k]]);
    forall k | 0 <= k < |order|
      ensures forall n | n in order[k].tests :: MayRun(o, order[k].caseName, n)
    {
      VisitMayRun(o, s, cases[indices[k]], after[indices[k]], order[k]);
    }
    forall i, j | s.Everything? && 0 <= i < |cases| && 0 <= j < |cases[i].tests| && MayRun(o, cases[i].name, cases[i].tests[j].name)
      ensures exists r :: r in order && r.caseName == cases[i].name && cases[i].tests[j].name in r.tests
    {
      var k := VisitOf(indices, |after|, deaths, i);
      VisitMayRun(o, s, cases[i], after[i], order[k]);
      NameOfVisit(order[k], after[i]);
      assert order[k] in order;
    }
  }

  /** If nothing is selected, nothing is run; without sharding there is nothing then that may run. */
  lemma NothingMayRun(o: Options, s: Shard, cases: seq<CaseView>)
    requires ShardOk(s) && Total(Filtered(o, s, cases, 0)) == 0
    ensures RunsWhatMay(o, s, cases, [])
  {
    hide MayRun, Filtered, Total;
    var after := Filtered(o, s, cases, 0);
    CasesSelected(o, s, cases, 0);
    forall i, j | s.Everything? && 0 <= i < |cases| && 0 <= j < |cases[i].tests|
      ensures !MayRun(o, cases[i].name, cases[i].tests[j].name)
    {
      if after[i].tests[j].shouldRun {
        TotalsOne(after, i, j);
      }
    }
  }

  lemma IterationsMayRun(o: Options, s: Shard, cases: seq<CaseView>, deaths: nat, iterations: seq<seq<CaseRun>>)
    requires ShardOk(s)
    requires forall i | 0 <= i < |iterations| ::
               if Total(Filtered(o, s, cases, 0)) > 0 then IterationOk(iterations[i], Filtered(o, s, cases, 0), deaths)
               else iterations[i] == []
    ensures forall i | 0 <= i < |iterations| :: RunsWhatMay(o, s, cases, iterations[i])
  {
    hide IterationOk, Filtered, Total, RunsWhatMay;
    forall i | 0 <= i < |iterations| ensures RunsWhatMay(o, s, cases, iterations[i]) {
      if Total(Filtered(o, s, cases, 0)) > 0 {
        IterationMayRun(o, s, cases, deaths, iterations[i]);
      } else {
        NothingMayRun(o, s, cases);
      }
    }
  }

  // ---------- filtering case by case ----------

  /** Filtering has come as far as `done`. */
  predicate CasesProgress(o: Options, s: Shard, cases: seq<CaseView>, done: seq<CaseView>, runnable: nat, selected: nat)
    requires ShardOk(s)
  {
    && |done| <= |cases|
    && Filtered(o, s, cases, 0) == done + Filtered(o, s, cases[|done|..], runnable)
    && selected == Total(done)
  }

  lemma CasesStart(o: Options, s: Shard, cases: seq<CaseView>)
    requires ShardOk(s)
    ensures CasesProgress(o, s, cases, [], 0, 0)
  {
    assert cases[0..] == cases;
    hide Filtered;
  }

  lemma FilteredNext(o: Options, s: Shard, cases: seq<CaseView>, i: nat, id: nat)
    requires ShardOk(s) && i < |cases|
    ensures Filtered(o, s, cases[i..], id)
            == [FilteredCase(o, s, cases[i], id)]
               + Filtered(o, s, cases[i + 1..], id + RunnableCount(o, cases[i].name, cases[i].tests))
  {
    hide FilteredCase, RunnableCount;
    assert cases[i..][0] == cases[i] && cases[i..][1..] == cases[i + 1..];
  }

  lemma {:induction false} TotalAppend(cases: seq<CaseView>, c: CaseView)
    ensures Total(cases + [c]) == Total(cases) + SelectedCount(c.tests)
  {
    hide SelectedCount;
    if cases == [] {
      assert (cases + [c])[1..] == [];
    } else {
      assert (cases + [c])[1..] == cases[1..] + [c];
      TotalAppend(cases[1..], c);
    }
  }

  lemma CasesStep(o: Options, s: Shard, cases: seq<CaseView>, done: seq<CaseView>, runnable: nat, selected: nat)
    requires ShardOk(s) && |done| < |cases| && CasesProgress(o, s, cases, done, runnable, selected)
    ensures var c := cases[|done|];
            var after := FilteredCase(o, s, c, runnable);
            CasesProgress(o, s, cases, done + [after], runnable + RunnableCount(o, c.name, c.tests),
                          selected + SelectedCount(after.tests))
  {
    hide Filtered, FilteredCase, RunnableCount, SelectedCount, Total;
    FilteredNext(o, s, cases, |done|, runnable);
    TotalAppend(done, FilteredCase(o, s, cases[|done|], runnable));
  }

  lemma CasesEnd(o: Options, s: Shard, cases: seq<CaseView>, done: seq<CaseView>, runnable: nat, selected: nat)
    requires ShardOk(s) && |done| == |cases| && CasesProgress(o, s, cases, done, runnable, selected)
    ensures done == Filtered(o, s, cases, 0) && selected == Total(done)
  {
    assert cases[|done|..] == [] && Filtered(o, s, [], runnable) == [];
    hide Filtered;
  }

  /** What a visit of the case runs: its selected tests, each once, in the order of the case. */
  ghost predicate Ran(r: CaseRun, c: TestCase)
    reads c`tests, c`indices
  {
    && r.caseName == c.name && multiset(r.tests) == multiset(RunNames(c.tests))
    && InRange(c.indices, |c.tests|) && r.tests == RunNames(Apply(c.tests, c.indices))
  }

  lemma IsIdentity(indices: seq<int>)
    requires forall k | 0 <= k < |indices| :: indices[k] == k
    ensures indices == Identity(|indices|)
  {
  }

  function CaseNamesOf(order: seq<CaseRun>): seq<string> {
    seq(|order|, i requires 0 <= i < |order| => order[i].caseName)
  }

  lemma DeathTitle(t: Titles, i: nat)
    requires TitlesOk(t) && i < |t.names|
    ensures IsDeathTestCase(t.names[i]) <==> i < t.deaths
  {
  }

  lemma OrderedRuns(t: Titles, indices: seq<int>, order: seq<CaseRun>)
    requires TitlesOk(t) && OrderOk(indices, |t.names|, t.deaths) && InRange(indices, |t.names|) && |order| == |indices|
    requires forall k | 0 <= k < |order| :: order[k].caseName == t.names[indices[k]]
    ensures CaseNamesOf(order) == Apply(t.names, indices)
    ensures forall k | 0 <= k < |order| :: IsDeathTestCase(order[k].caseName) <==> k < t.deaths
  {
    hide IsDeathTestCase;
    forall k | 0 <= k < |order| ensures IsDeathTestCase(order[k].caseName) <==> k < t.deaths {
      OrderDeathsFirst(indices, |t.names|, t.deaths, k);
      DeathTitle(t, indices[k]);
    }
  }

  lemma WidthsAt(cases: seq<CaseView>)
    ensures forall i | 0 <= i < |cases| :: Widths(cases)[i] == |cases[i].tests|
  {
  }

  lemma RearrangesLength<T>(v: seq<T>, begin: nat, width: nat, t: seq<T>)
    requires begin + width <= |v| && Rearranges(v, begin, width, t)
    ensures |t| == |v|
  {
  }

  lemma DeathFilter(name: string)
    ensures IsDeathTestCase(name) == InFilter(name, DEATH_TEST_CASE_FILTER)
  {
  }

  lemma IdentityOrder(n: nat, d: nat)
    requires d <= n
    ensures OrderOk(Identity(n), n, d)
    ensures n > 0 ==> Identity(n) == Identity(n - 1) + [n - 1]
  {
  }

  // ---------- the registry as it runs ----------

  class UnitTestImpl {
    const random: Random
    var testCases: seq<TestCase>
    var testCaseIndices: seq<int>
    var lastDeathTestCase: int

    function Names(): (r: seq<string>)
      reads this`testCases
      ensures |r| == |testCases|
    {
      NamesOf(testCases)
    }

    ghost function Registered(): Titles
      requires -1 <= lastDeathTestCase
      reads this`testCases, this`lastDeathTestCase
    {
      Titles(Names(), lastDeathTestCase + 1)
    }

    ghost predicate Valid()
      reads this, testCases
    {
      && -1 <= lastDeathTestCase < |testCases| <= INT_MAX
      && TitlesOk(Registered())
      && OrderOk(testCaseIndices, |testCases|, lastDeathTestCase + 1)
      && forall c | c in testCases :: c.Valid()
    }

    ghost predicate Unshuffled()
      reads this`testCases, this`testCaseIndices
    {
      testCaseIndices == Identity(|testCases|)
    }

    /** The cases, and the tests inside each, stand in the order of their registration. */
    ghost predicate AllUnshuffled()
      reads this`testCases, this`testCaseIndices, testCases
    {
      Unshuffled() && forall c | c in testCases :: c.indices == Identity(|c.tests|)
    }

    ghost function Views(): seq<CaseView>
      reads this`testCases, testCases
    {
      ViewsOf(testCases)
    }

    /** The cases, and the tests inside each, stand in the order that the seed determines. */
    ghost predicate InOrder(seed: Option<nat>)
      requires -1 <= lastDeathTestCase < |testCases|
      reads this`testCases, this`testCaseIndices, this`lastDeathTestCase, testCases
    {
      && testCaseIndices == CaseOrder(|testCases|, lastDeathTestCase + 1, seed)
      && forall i | 0 <= i < |testCases| :: testCases[i].indices == TestOrder(Views(), lastDeathTestCase + 1, i, seed)
    }

    constructor (random: Random)
      ensures Valid() && AllUnshuffled() && testCases == [] && this.random == random && lastDeathTestCase == -1
    {
      this.random := random;
      testCases, testCaseIndices, lastDeathTestCase := [], [], -1;
      new;
      assert Identity(0) == [];
    }

    /** No two cases share a name, so no two are one object. */
    lemma TitlesDistinct()
      requires Valid()
      ensures forall a, b | a in testCases && b in testCases && a.name == b.name :: a == b
    {
      hide IsDeathTestCase, OrderOk, TestCase.Valid;
      forall a, b | a in testCases && b in testCases && a.name == b.name ensures a == b {
        var i :| 0 <= i < |testCases| && testCases[i] == a;
        var j :| 0 <= j < |testCases| && testCases[j] == b;
        assert Names()[i] == Names()[j];
        assert Distinct(Names());
      }
    }

    /** The position of the case of that name, or the number of cases. */
    method FindCase(name: string) returns (i: nat)
      ensures i <= |testCases| && (i < |testCases| ==> testCases[i].name == name)
      ensures i == |testCases| <==> name !in Names()
    {
      i := 0;
      while i < |testCases|
        invariant i <= |testCases| && name !in Names()[..i]
      {
        assert Names()[..i + 1] == Names()[..i] + [testCases[i].name];
        if testCases[i].name == name {
          assert Names()[i] == name;
          return;
        }
        i := i + 1;
      }
      assert Names()[..|testCases|] == Names();
    }

    method Insert(c: TestCase)
      requires Valid() && Unshuffled() && |testCases| < INT_MAX && c.Valid() && c.name !in Names()
      modifies this`testCases, this`testCaseIndices, this`lastDeathTestCase
      ensures Valid() && Unshuffled()
      ensures Registered() == AddTitle(old(Registered()), c.name)
      ensures forall x :: x in testCases <==> x in old(testCases) || x == c
    {
      hide IsDeathTestCase, OrderOk, TestCase.Valid, TitlesOk, AddTitle, NamesOf, Inserted, Identity, InFilter;
      AddTitleOk(Registered(), c.name);
      DeathFilter(c.name);
      var isDeath := MatchesFilter(c.name, DEATH_TEST_CASE_FILTER);
      IdentityOrder(|testCases| + 1, lastDeathTestCase + 1 + Bit(isDeath));
      InsertedNames(testCases, lastDeathTestCase + 1, c);
      AddTitleNew(Registered(), c.name);
      if isDeath {
        lastDeathTestCase := lastDeathTestCase + 1;
        testCases := Inserted(testCases, lastDeathTestCase, c);
      } else {
        testCases := testCases + [c];
      }
      testCaseIndices := testCaseIndices + [|testCaseIndices|];
    }

    /** The case of that name, created if there is none; only while nothing is shuffled. */
    method GetTestCase(name: string) returns (c: TestCase)
      requires Valid() && Unshuffled() && |testCases| < INT_MAX
      modifies this`testCases, this`testCaseIndices, this`lastDeathTestCase
      ensures Valid() && Unshuffled() && c in testCases && c.name == name
      ensures Registered() == AddTitle(old(Registered()), name)
      ensures name in old(Names()) ==> testCases == old(testCases)
      ensures name !in old(Names()) ==> fresh(c) && c.tests == []
      ensures forall x :: x in testCases <==> x in old(testCases) || x == c
    {
      hide IsDeathTestCase, OrderOk, TestCase.Valid, TitlesOk;
      var i := FindCase(name);
      if i < |testCases| {
        assert name in Names();
        return testCases[i];
      }
      c := new TestCase(name);
      Insert(c);
    }

    method AddTestInfo(caseName: string, testName: string)
      requires Valid() && Unshuffled() && |testCases| < INT_MAX && forall c | c in testCases :: |c.tests| < INT_MAX
      modifies this`testCases, this`testCaseIndices, this`lastDeathTestCase, testCases
      ensures Valid() && Unshuffled() && Registered() == AddTitle(old(Registered()), caseName)
      ensures forall c | c in old(testCases) :: c in testCases
      ensures forall c | c in testCases ::
                c.tests == (if c in old(testCases) then old(c.tests) else [])
                           + (if c.name == caseName then [TestInfo(testName, false, false, false)] else [])
      ensures exists c :: c in testCases && c.name == caseName
    {
      hide AddTitle, OrderOk, TitlesOk, Registered, TestCase.Valid;
      TitlesDistinct();
      var c := GetTestCase(caseName);
      TitlesDistinct();
      c.AddTestInfo(testName);
    }

    /** The tests of case `i` were shuffled from this order, behind those of the cases before it. */
    ghost predicate ShuffledAt(i: nat, before: seq<int>, state: nat)
      requires i < |testCases|
      reads this`testCases, testCases
    {
      && |before| == |testCases[i].tests|
      && testCases[i].indices == ShuffledBy(before, 0, |before|, StateThrough(state, Widths(Views())[..i]))
    }

    method ShuffleCaseIndices()
      requires Valid()
      modifies this`testCaseIndices, random
      ensures OrderOk(testCaseIndices, |testCases|, lastDeathTestCase + 1)
      ensures var n, d, state := |testCases|, lastDeathTestCase + 1, old(random.state);
              && |old(testCaseIndices)| == n && random.state == StateBehindCases(n, d, state)
              && Rearranges(old(testCaseIndices), 0, d, ShuffledBy(old(testCaseIndices), 0, d, state))
              && testCaseIndices == ShuffledBy(ShuffledBy(old(testCaseIndices), 0, d, state), d, n - d, StateAfter(state, d))
    {
      var n, d := |testCases|, lastDeathTestCase + 1;
      assert |testCaseIndices| == n;
      hide TitlesOk, TestCase.Valid, OrderOk, Shuffled, Draws, StateAfter, DrawsOk, Rearranges;
      DrawsAreOk(random.state, d);
      ShuffledRearranges(testCaseIndices, 0, d, Draws(random.state, d));
      ghost var start := testCaseIndices;
      testCaseIndices := ShuffleRange(random, 0, d, testCaseIndices);
      ghost var mid := testCaseIndices;
      RearrangesLength(start, 0, d, mid);
      DrawsAreOk(random.state, n - d);
      ShuffledRearranges(mid, d, n - d, Draws(random.state, n - d));
      testCaseIndices := ShuffleRange(random, d, n, testCaseIndices);
      ShuffledOrderOk(start, n, d, mid, testCaseIndices);
    }

    /** The tests inside each case. */
    method ShuffleInside()
      requires Distinct(testCases) && forall c | c in testCases :: c.Valid()
      modifies random, testCases
      ensures forall c | c in testCases :: c.Valid() && c.tests == old(c.tests) && c.shouldRun == old(c.shouldRun)
      ensures Views() == old(Views())
      ensures forall i | 0 <= i < |testCases| :: ShuffledAt(i, old(testCases[i].indices), old(random.state))
    {
      hide TestCase.Valid, StateAfter, ShuffledBy, Widths, StateThrough;
      ghost var state, widths := random.state, Widths(Views());
      WidthsAt(Views());
      StateFirst(state, widths);
      for i := 0 to |testCases|
        invariant random.state == StateThrough(state, widths[..i])
        invariant forall c | c in testCases :: c.Valid() && c.tests == old(c.tests) && c.shouldRun == old(c.shouldRun)
        invariant forall k | i <= k < |testCases| :: testCases[k].indices == old(testCases[k].indices)
        invariant forall k | 0 <= k < i :: |old(testCases[k].indices)| == |testCases[k].tests|
                    && testCases[k].indices
                       == ShuffledBy(old(testCases[k].indices), 0, |testCases[k].tests|, StateThrough(state, widths[..k]))
      {
        testCases[i].ShuffleTests(random);
        StateNext(state, widths, i);
      }
      assert Views() == old(Views());
    }

    lemma CasesDistinct()
      requires Valid()
      ensures Distinct(testCases)
    {
      hide IsDeathTestCase, OrderOk, TestCase.Valid;
      assert Distinct(Names());
      forall i, j | 0 <= i < j < |testCases| ensures testCases[i] != testCases[j] {
        assert Names()[i] != Names()[j];
      }
    }

    /** Shuffles the death test cases, the other cases, and the tests inside each case, one after the other
        with the draws of one generator. */
    method ShuffleTests()
      requires Valid()
      modifies this`testCaseIndices, random, testCases
      ensures Valid()
      ensures forall c | c in testCases :: c.tests == old(c.tests) && c.shouldRun == old(c.shouldRun)
      ensures Views() == old(Views())
      ensures var n, d, state := |testCases|, lastDeathTestCase + 1, old(random.state);
              && |old(testCaseIndices)| == n
              && Rearranges(old(testCaseIndices), 0, d, ShuffledBy(old(testCaseIndices), 0, d, state))
              && testCaseIndices == ShuffledBy(ShuffledBy(old(testCaseIndices), 0, d, state), d, n - d, StateAfter(state, d))
              && forall i | 0 <= i < n :: ShuffledAt(i, old(testCases[i].indices), StateBehindCases(n, d, state))
    {
      hide TitlesOk, TestCase.Valid, StateAfter, OrderOk, Rearranges, ShuffledBy, Widths, StateThrough, StateBehindCases, ShuffledAt, ViewsOf;
      CasesDistinct();
      ShuffleCaseIndices();
      ShuffleInside();
    }

    method ResetIndices()
      requires |testCaseIndices| == |testCases| && forall c | c in testCases :: c.Valid()
      modifies this`testCaseIndices, testCases
      ensures testCaseIndices == Identity(|testCases|)
      ensures forall c | c in testCases ::
                c.Valid() && c.tests == old(c.tests) && c.shouldRun == old(c.shouldRun) && c.indices == Identity(|c.tests|)
    {
      hide TestCase.Valid, Identity;
      for i := 0 to |testCases|
        invariant |testCaseIndices| == |testCases| && forall k | 0 <= k < i :: testCaseIndices[k] == k
        invariant forall c | c in testCases :: c.Valid() && c.tests == old(c.tests) && c.shouldRun == old(c.shouldRun)
        invariant forall k | 0 <= k < i :: testCases[k].indices == Identity(|testCases[k].tests|)
      {
        testCases[i].UnshuffleTests();
        testCaseIndices := testCaseIndices[i := i];
      }
      IsIdentity(testCaseIndices);
    }

    /** Back to the order of the first registration. */
    method UnshuffleTests()
      requires Valid()
      modifies this`testCaseIndices, testCases
      ensures Valid() && AllUnshuffled()
      ensures forall c | c in testCases :: c.tests == old(c.tests) && c.shouldRun == old(c.shouldRun)
    {
      assert |testCaseIndices| == |testCases|;
      hide TitlesOk, TestCase.Valid, OrderOk, Identity, NamesOf;
      IdentityOrder(|testCases|, lastDeathTestCase + 1);
      ghost var titles := Registered();
      ResetIndices();
      assert Registered() == titles;
    }

    function GetMutableTestCase(i: int): TestCase?
      requires InRange(testCaseIndices, |testCases|)
      reads this`testCases, this`testCaseIndices
    {
      var index := GetElementOr(testCaseIndices, i, -1);
      if index < 0 then null else testCases[index]
    }

    method VisitCases() returns (order: seq<CaseRun>)
      requires InRange(testCaseIndices, |testCases|) && |testCaseIndices| == |testCases|
      requires forall c | c in testCases :: c.Valid()
      ensures |order| == |testCases|
      ensures forall k | 0 <= k < |order| :: Ran(order[k], testCases[testCaseIndices[k]])
    {
      hide TestCase.Valid, RunNames;
      order := [];
      for i := 0 to |testCases|
        invariant |order| == i
        invariant forall k | 0 <= k < i :: Ran(order[k], testCases[testCaseIndices[k]])
      {
        var c := GetMutableTestCase(i);
        var ran := c.Run();
        order := order + [CaseRun(c.name, ran)];
      }
    }

    /** Runs the cases in their current order: every case is visited once, death test cases before all
        others, and in each the tests that should run are run once. */
    method RunTestCases() returns (order: seq<CaseRun>)
      requires Valid()
      ensures |order| == |testCases| && InRange(testCaseIndices, |testCases|)
      ensures multiset(CaseNamesOf(order)) == multiset(Names())
      ensures forall k | 0 <= k < |order| :: Ran(order[k], testCases[testCaseIndices[k]])
      ensures forall k | 0 <= k < |order| :: IsDeathTestCase(order[k].caseName) <==> k <= lastDeathTestCase
    {
      ghost var titles := Registered();
      assert TitlesOk(titles);
      NamesAt(testCases);
      hide TestCase.Valid, OrderOk, RunNames, TitlesOk, IsDeathTestCase, Apply, NamesOf, CaseNamesOf;
      OrderPermutes(testCaseIndices, |testCases|, lastDeathTestCase + 1);
      ApplyPermutes(Names(), testCaseIndices);
      order := VisitCases();
      forall k | 0 <= k < |order| ensures order[k].caseName == titles.names[testCaseIndices[k]] {
        assert Ran(order[k], testCases[testCaseIndices[k]]);
      }
      OrderedRuns(titles, testCaseIndices, order);
    }

    method FilterCases(o: Options, s: Shard) returns (selected: nat)
      requires Distinct(testCases) && (forall c | c in testCases :: c.Valid()) && ShardOk(s)
      modifies testCases
      ensures Views() == Filtered(o, s, old(Views()), 0) && selected == Total(Views())
      ensures forall c | c in testCases :: c.Valid() && c.indices == old(c.indices) && |c.tests| == |old(c.tests)|
    {
      hide TestCase.Valid, CasesProgress, FilteredCase, RunnableCount, SelectedCount, ViewsOf, Filtered, Total;
      ghost var before, done := Views(), [];
      ViewsAt(testCases);
      CasesStart(o, s, before);
      var runnable := 0;
      selected := 0;
      for i := 0 to |testCases|
        invariant |done| == i
        invariant forall k | 0 <= k < i :: testCases[k].View() == done[k]
        invariant forall k | i <= k < |testCases| :: testCases[k].View() == before[k]
        invariant forall c | c in testCases :: c.Valid() && c.indices == old(c.indices) && |c.tests| == |old(c.tests)|
        invariant CasesProgress(o, s, before, done, runnable, selected)
      {
        CasesStep(o, s, before, done, runnable, selected);
        var r, n := testCases[i].FilterTests(o, s, runnable);
        done := done + [testCases[i].View()];
        runnable, selected := runnable + r, selected + n;
      }
      CasesEnd(o, s, before, done, runnable, selected);
      ViewsAt(testCases);
      assert Views() == done;
    }

    /** Decides for every test whether it should run, and returns how many should. */
    method FilterTests(o: Options, s: Shard) returns (selected: nat)
      requires Valid() && ShardOk(s)
      modifies testCases
      ensures Valid() && Views() == Filtered(o, s, old(Views()), 0) && selected == Total(Views())
      ensures forall c | c in testCases :: c.indices == old(c.indices) && |c.tests| == |old(c.tests)|
      ensures SelectedCases(o, s, old(Views()), Views())
    {
      CasesDistinct();
      hide TitlesOk, OrderOk, TestCase.Valid, Filtered, Total, NamesOf, ViewsOf, SelectedCases;
      selected := FilterCases(o, s);
      CasesSelected(o, s, old(Views()), 0);
    }

    method ShuffleFrom(seed: nat)
      requires Valid()
      modifies this`testCaseIndices, random, testCases
      ensures Valid() && Views() == old(Views())
      ensures old(AllUnshuffled()) ==> InOrder(Some(seed))
    {
      hide TitlesOk, OrderOk, TestCase.Valid, NamesOf, ShuffledBy, Widths, StateThrough, StateBehindCases, Rearranges;
      random.Reseed(seed);
      ShuffleTests();
      forall i | old(AllUnshuffled()) && 0 <= i < |testCases|
        ensures testCases[i].indices == TestOrder(Views(), lastDeathTestCase + 1, i, Some(seed))
      {
        assert ShuffledAt(i, old(testCases[i].indices), StateBehindCases(|testCases|, lastDeathTestCase + 1, seed));
      }
    }

    lemma IterationRan(order: seq<CaseRun>, seed: Option<nat>)
      requires Valid() && InRange(testCaseIndices, |testCases|) && |order| == |testCases|
      requires forall k | 0 <= k < |order| :: Ran(order[k], testCases[testCaseIndices[k]])
      ensures IterationOk(order, Views(), lastDeathTestCase + 1)
      ensures InOrder(seed) ==> IterationIs(order, Views(), lastDeathTestCase + 1, seed)
    {
      hide TitlesOk, TestCase.Valid, NamesOf, RunNames, CaseOrder, TestOrder;
      forall k | 0 <= k < |order| ensures RanAs(order[k], Views()[testCaseIndices[k]]) {
        assert Ran(order[k], testCases[testCaseIndices[k]]);
      }
      if InOrder(seed) {
        forall k | 0 <= k < |order| ensures VisitIs(order[k], Views(), lastDeathTestCase + 1, testCaseIndices[k], seed) {
          assert Ran(order[k], testCases[testCaseIndices[k]]);
        }
      }
    }

    method Arrange(shuffle: bool, seed: nat)
      requires Valid()
      modifies this`testCaseIndices, random, testCases
      ensures Valid() && Views() == old(Views())
      ensures old(AllUnshuffled()) ==> InOrder(if shuffle then Some(seed) else None)
    {
      if shuffle {
        hide Valid, AllUnshuffled, InOrder, ViewsOf;
        ShuffleFrom(seed);
      } else {
        hide TitlesOk, OrderOk, TestCase.Valid, NamesOf;
      }
    }

    method RunIteration(hasTestsToRun: bool, shuffle: bool, seed: nat) returns (order: seq<CaseRun>)
      requires Valid()
      modifies this`testCaseIndices, random, testCases
      ensures Valid() && AllUnshuffled() && Views() == old(Views())
      ensures if hasTestsToRun then
                && IterationOk(order, Views(), lastDeathTestCase + 1)
                && (old(AllUnshuffled()) ==> IterationIs(order, Views(), lastDeathTestCase + 1, if shuffle then Some(seed) else None))
              else order == []
    {
      hide TitlesOk, OrderOk, TestCase.Valid, NamesOf, IterationOk, IterationIs, Ran, AllUnshuffled, InOrder;
      order := [];
      if hasTestsToRun {
        Arrange(shuffle, seed);
        order := RunTestCases();
        IterationRan(order, if shuffle then Some(seed) else None);
      }
      ghost var views := Views();
      UnshuffleTests();
      assert Views() == views;
    }

    /** The loop over iterations; `seed` is what the random seed flag gives.  Every iteration is determined
        by its own seed alone, and everything is unshuffled behind it. */
    method RunAllTests(o: Options, s: Shard, repeat: nat, shuffle: bool, seed: nat) returns (iterations: seq<seq<CaseRun>>)
      requires Valid() && ShardOk(s) && 1 <= seed <= MAX_RANDOM_SEED
      modifies this`testCaseIndices, random, testCases
      ensures Valid() && (repeat > 0 ==> AllUnshuffled())
      ensures Views() == Filtered(o, s, old(Views()), 0) && |iterations| == repeat
      ensures forall i | 0 <= i < repeat ::
                if Total(Views()) > 0 then
                  && IterationOk(iterations[i], Views(), lastDeathTestCase + 1)
                  && (i > 0 || old(AllUnshuffled()) ==>
                        IterationIs(iterations[i], Views(), lastDeathTestCase + 1, SeedOf(shuffle, seed, i)))
                else iterations[i] == []
      ensures forall i | 0 <= i < repeat :: RunsWhatMay(o, s, old(Views()), iterations[i])
    {
      hide TitlesOk, OrderOk, TestCase.Valid, Filtered, Total, ViewsOf, NamesOf, IterationOk, IterationIs, Ran, RunsWhatMay, SelectedCases;
      var selected := FilterTests(o, s);
      var randomSeed := seed;
      iterations := [];
      ghost var views, tidy := Views(), AllUnshuffled();
      for i := 0 to repeat
        invariant Valid() && Views() == views && (i > 0 || tidy ==> AllUnshuffled())
        invariant |iterations| == i && randomSeed == if shuffle then SeedAt(seed, i) else seed
        invariant forall j | 0 <= j < i ::
                    if selected > 0 then
                      && IterationOk(iterations[j], views, lastDeathTestCase + 1)
                      && (j > 0 || tidy ==> IterationIs(iterations[j], views, lastDeathTestCase + 1, SeedOf(shuffle, seed, j)))
                    else iterations[j] == []
      {
        var order := RunIteration(selected > 0, shuffle, randomSeed);
        iterations := iterations + [order];
        if shuffle {
          randomSeed := GetNextRandomSeed(randomSeed);
        }
      }
      IterationsMayRun(o, s, old(Views()), lastDeathTestCase + 1, iterations);
    }
  }
}
