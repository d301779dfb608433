/**
  Which tests run: Google Test's filters and its sharding protocol, as functions of the registered
  tests, and proof that the shards partition the runnable tests evenly.
 */
module Sharding {
  import opened TestFilter

  datatype TestInfo = TestInfo(name: string, isDisabled: bool, matchesFilter: bool, shouldRun: bool)

  datatype CaseView = CaseView(name: string, tests: seq<TestInfo>, shouldRun: bool)

  datatype Options = Options(alsoRunDisabled: bool, filter: string)

  /** Whether the sharding protocol is honoured, and as which shard. */
  datatype Shard = Everything | Shard(total: nat, index: nat)

  predicate ShardOk(s: Shard) {
    s.Shard? ==> s.index < s.total
  }

  predicate Disabled(caseName: string, testName: string) {
    IsDisabledName(caseName) || IsDisabledName(testName)
  }

  predicate Runnable(o: Options, caseName: string, testName: string) {
    (o.alsoRunDisabled || !Disabled(caseName, testName)) && Wanted(o.filter, caseName, testName)
  }

  predicate ShouldRunTestOnShard(totalShards: nat, shardIndex: nat, testId: nat)
    requires totalShards > 0
  {
    testId % totalShards == shardIndex
  }

  predicate OnShard(s: Shard, id: nat)
    requires ShardOk(s)
  {
    s.Everything? || ShouldRunTestOnShard(s.total, s.index, id)
  }

  // ---------- what may run ----------

  /** A test may run if it is not disabled, by its own name or that of its case, or disabled tests run as well, and
      the filter wants its full name. */
  ghost predicate MayRun(o: Options, caseName: string, testName: string) {
    && (o.alsoRunDisabled
        || !(HasAt(caseName, 0, "DISABLED_") || Contains(caseName, "/DISABLED_")
             || HasAt(testName, 0, "DISABLED_") || Contains(testName, "/DISABLED_")))
    && FilterWants(o.filter, if |caseName| + |testName| + 1 < 4096 then caseName + "." + testName
                             else "<formatting error or buffer exceeded>")
  }

  lemma RunnableIff(o: Options, caseName: string, testName: string)
    ensures Runnable(o, caseName, testName) <==> MayRun(o, caseName, testName)
  {
    hide HasAt, Contains, FilterWants, Wanted, IsDisabledName;
    DisabledIff(caseName);
    DisabledIff(testName);
    if |caseName| + |testName| + 1 < 4096 {
      WantedIff(o.filter, caseName, testName);
    } else {
      WantedLong(o.filter, caseName, testName);
    }
  }

  // ---------- filtering ----------

  function Bit(b: bool): nat {
    if b then 1 else 0
  }

  function RunnableCount(o: Options, caseName: string, tests: seq<TestInfo>): nat {
    if tests == [] then 0
    else Bit(Runnable(o, caseName, tests[0].name)) + RunnableCount(o, caseName, tests[1..])
  }

  /** The tests of a case once filtered; `id` runnable tests come before it. */
  function FilteredTests(o: Options, s: Shard, caseName: string, tests: seq<TestInfo>, id: nat): seq<TestInfo>
    requires ShardOk(s)
  {
    if tests == [] then []
    else
      var t := tests[0].name;
      var r := Runnable(o, caseName, t);
      [TestInfo(t, Disabled(caseName, t), Wanted(o.filter, caseName, t), r && OnShard(s, id))]
      + FilteredTests(o, s, caseName, tests[1..], id + Bit(r))
  }

  function SelectedCount(tests: seq<TestInfo>): nat {
    if tests == [] then 0 else Bit(tests[0].shouldRun) + SelectedCount(tests[1..])
  }

  predicate AnyRuns(tests: seq<TestInfo>) {
    exists t :: t in tests && t.shouldRun
  }

  function FilteredCase(o: Options, s: Shard, c: CaseView, id: nat): CaseView
    requires ShardOk(s)
  {
    var tests := FilteredTests(o, s, c.name, c.tests, id);
    CaseView(c.name, tests, AnyRuns(tests))
  }

  function Filtered(o: Options, s: Shard, cases: seq<CaseView>, id: nat): seq<CaseView>
    requires ShardOk(s)
  {
    if cases == [] then []
    else
      [FilteredCase(o, s, cases[0], id)]
      + Filtered(o, s, cases[1..], id + RunnableCount(o, cases[0].name, cases[0].tests))
  }

  function Total(cases: seq<CaseView>): nat {
    if cases == [] then 0 else SelectedCount(cases[0].tests) + Total(cases[1..])
  }

  // ---------- all tests in a row ----------

  datatype Name = Name(caseName: string, testName: string)

  function CaseNames(caseName: string, tests: seq<TestInfo>): seq<Name> {
    if tests == [] then [] else [Name(caseName, tests[0].name)] + CaseNames(caseName, tests[1..])
  }

  function Names(cases: seq<CaseView>): seq<Name> {
    if cases == [] then [] else CaseNames(cases[0].name, cases[0].tests) + Names(cases[1..])
  }

  function CaseFlags(tests: seq<TestInfo>): seq<bool> {
    if tests == [] then [] else [tests[0].shouldRun] + CaseFlags(tests[1..])
  }

  function Flags(cases: seq<CaseView>): seq<bool> {
    if cases == [] then [] else CaseFlags(cases[0].tests) + Flags(cases[1..])
  }

  predicate CanRun(o: Options, n: Name) {
    Runnable(o, n.caseName, n.testName)
  }

  function Runnables(o: Options, names: seq<Name>): nat {
    if names == [] then 0 else Bit(CanRun(o, names[0])) + Runnables(o, names[1..])
  }

  function Marks(o: Options, s: Shard, names: seq<Name>, id: nat): seq<bool>
    requires ShardOk(s)
  {
    if names == [] then []
    else [CanRun(o, names[0]) && OnShard(s, id)] + Marks(o, s, names[1..], id + Bit(CanRun(o, names[0])))
  }

  function Count(marks: seq<bool>): nat {
    if marks == [] then 0 else Bit(marks[0]) + Count(marks[1..])
  }

  lemma MarksStep(o: Options, s: Shard, n: Name, names: seq<Name>, id: nat)
    requires ShardOk(s)
    ensures Marks(o, s, [n] + names, id) == [CanRun(o, n) && OnShard(s, id)] + Marks(o, s, names, id + Bit(CanRun(o, n)))
  {
    hide CanRun, OnShard;
    assert ([n] + names)[1..] == names;
  }

  lemma FilteredStep(o: Options, s: Shard, caseName: string, tests: seq<TestInfo>, id: nat)
    requires ShardOk(s) && tests != []
    ensures var r := CanRun(o, Name(caseName, tests[0].name));
            CaseFlags(FilteredTests(o, s, caseName, tests, id))
            == [r && OnShard(s, id)] + CaseFlags(FilteredTests(o, s, caseName, tests[1..], id + Bit(r)))
  {
    hide Runnable, Disabled, Wanted, OnShard;
    var after := FilteredTests(o, s, caseName, tests, id);
    assert after[1..] == FilteredTests(o, s, caseName, tests[1..], id + Bit(Runnable(o, caseName, tests[0].name)));
  }

  lemma NamesStep(o: Options, caseName: string, tests: seq<TestInfo>, rest: seq<Name>)
    requires tests != []
    ensures CaseNames(caseName, tests) + rest
            == [Name(caseName, tests[0].name)] + (CaseNames(caseName, tests[1..]) + rest)
    ensures RunnableCount(o, caseName, tests)
            == Bit(CanRun(o, Name(caseName, tests[0].name))) + RunnableCount(o, caseName, tests[1..])
  {
    hide Runnable;
  }

  lemma CaseFlagsStep(o: Options, s: Shard, caseName: string, tests: seq<TestInfo>, id: nat, rest: seq<Name>)
    requires ShardOk(s) && tests != []
    requires var next := id + Bit(CanRun(o, Name(caseName, tests[0].name)));
             Marks(o, s, CaseNames(caseName, tests[1..]) + rest, next)
             == CaseFlags(FilteredTests(o, s, caseName, tests[1..], next))
                + Marks(o, s, rest, next + RunnableCount(o, caseName, tests[1..]))
    ensures Marks(o, s, CaseNames(caseName, tests) + rest, id)
            == CaseFlags(FilteredTests(o, s, caseName, tests, id))
               + Marks(o, s, rest, id + RunnableCount(o, caseName, tests))
  {
    hide *;
    NamesStep(o, caseName, tests, rest);
    MarksStep(o, s, Name(caseName, tests[0].name), CaseNames(caseName, tests[1..]) + rest, id);
    FilteredStep(o, s, caseName, tests, id);
  }

  lemma {:induction false} CaseFlagsAreMarks(o: Options, s: Shard, caseName: string, tests: seq<TestInfo>, id: nat, rest: seq<Name>)
    requires ShardOk(s)
    ensures Marks(o, s, CaseNames(caseName, tests) + rest, id)
            == CaseFlags(FilteredTests(o, s, caseName, tests, id))
               + Marks(o, s, rest, id + RunnableCount(o, caseName, tests))
  {
    hide Marks, Runnable, CanRun, OnShard, ShardOk;
    if tests == [] {
      assert CaseNames(caseName, tests) + rest == rest;
    } else {
      var n := Name(caseName, tests[0].name);
      CaseFlagsAreMarks(o, s, caseName, tests[1..], id + Bit(CanRun(o, n)), rest);
      CaseFlagsStep(o, s, caseName, tests, id, rest);
    }
  }

  lemma {:induction false} CaseCounts(o: Options, s: Shard, caseName: string, tests: seq<TestInfo>, id: nat)
    requires ShardOk(s)
    ensures var after := FilteredTests(o, s, caseName, tests, id);
            CaseNames(caseName, after) == CaseNames(caseName, tests) && Count(CaseFlags(after)) == SelectedCount(after)
  {
    hide Runnable, OnShard, Wanted, Disabled;
    if tests != [] {
      var r, after := Runnable(o, caseName, tests[0].name), FilteredTests(o, s, caseName, tests, id);
      CaseCounts(o, s, caseName, tests[1..], id + Bit(r));
      assert after[1..] == FilteredTests(o, s, caseName, tests[1..], id + Bit(r));
      assert CaseFlags(after)[1..] == CaseFlags(after[1..]);
    }
  }

  lemma {:induction false} CountConcat(a: seq<bool>, b: seq<bool>)
    ensures Count(a + b) == Count(a) + Count(b)
  {
    if a == [] {
      assert a + b == b;
    } else {
      assert (a + b)[1..] == a[1..] + b;
      CountConcat(a[1..], b);
    }
  }

  lemma Nothing(o: Options, s: Shard, id: nat)
    requires ShardOk(s)
    ensures Marks(o, s, [], id) == [] && Count([]) == 0
  {
  }

  /** Filtering case by case is filtering all the tests in a row. */
  lemma {:induction false} FlagsAreMarks(o: Options, s: Shard, cases: seq<CaseView>, id: nat)
    requires ShardOk(s)
    ensures var after := Filtered(o, s, cases, id);
            && Flags(after) == Marks(o, s, Names(cases), id)
            && Names(after) == Names(cases)
            && Total(after) == Count(Flags(after))
  {
    hide CanRun, OnShard, CaseNames, CaseFlags, FilteredTests, RunnableCount, Marks, Count, SelectedCount;
    if cases == [] {
      Nothing(o, s, id);
    } else {
      var c, after := cases[0], Filtered(o, s, cases, id);
      var next := id + RunnableCount(o, c.name, c.tests);
      CaseFlagsAreMarks(o, s, c.name, c.tests, id, Names(cases[1..]));
      CaseCounts(o, s, c.name, c.tests, id);
      FlagsAreMarks(o, s, cases[1..], next);
      assert after[0] == FilteredCase(o, s, c, id) && after[1..] == Filtered(o, s, cases[1..], next);
      CountConcat(CaseFlags(after[0].tests), Flags(after[1..]));
    }
  }

  // ---------- the shards ----------

  lemma {:induction false} MarksLength(o: Options, s: Shard, names: seq<Name>, id: nat)
    requires ShardOk(s)
    ensures |Marks(o, s, names, id)| == |names|
  {
    hide CanRun, OnShard;
    if names != [] {
      MarksLength(o, s, names[1..], id + Bit(CanRun(o, names[0])));
    }
  }

  lemma {:induction false} MarkIff(o: Options, s: Shard, names: seq<Name>, id: nat, p: nat)
    requires ShardOk(s) && p < |names|
    ensures |Marks(o, s, names, id)| == |names|
    ensures Marks(o, s, names, id)[p] <==> CanRun(o, names[p]) && OnShard(s, id + Runnables(o, names[..p]))
  {
    hide CanRun, OnShard;
    MarksLength(o, s, names, id);
    if p > 0 {
      MarkIff(o, s, names[1..], id + Bit(CanRun(o, names[0])), p - 1);
      assert names[..p][1..] == names[1..][..p - 1];
    }
  }

  /** The shard on which the test at position `p` runs. */
  function ShardOf(o: Options, names: seq<Name>, n: nat, p: nat): (k: nat)
    requires n > 0 && p < |names|
    ensures k < n
  {
    Runnables(o, names[..p]) % n
  }

  /** Every runnable test is selected on exactly one of the shards, and no other test on any. */
  lemma OneShardEach(o: Options, names: seq<Name>, n: nat, p: nat, k: nat)
    requires p < |names| && k < n
    ensures |Marks(o, Shard(n, k), names, 0)| == |names|
    ensures Marks(o, Shard(n, k), names, 0)[p] <==> CanRun(o, names[p]) && k == ShardOf(o, names, n, p)
  {
    hide CanRun, Marks, Runnables;
    MarkIff(o, Shard(n, k), names, 0, p);
  }

  /** How many of the ids from `id` up to `end` are on shard `k` of `n`. */
  function Ids(id: nat, end: nat, n: nat, k: nat): nat
    requires k < n
    decreases end - id
  {
    if id >= end then 0 else Bit(id % n == k) + Ids(id + 1, end, n, k)
  }

  lemma {:induction false} ShardCount(o: Options, names: seq<Name>, n: nat, k: nat, id: nat)
    requires k < n
    ensures Count(Marks(o, Shard(n, k), names, id)) == Ids(id, id + Runnables(o, names), n, k)
    decreases |names|
  {
    hide CanRun;
    if names != [] {
      var r, m := CanRun(o, names[0]), Marks(o, Shard(n, k), names, id);
      ShardCount(o, names[1..], n, k, id + Bit(r));
      assert m[1..] == Marks(o, Shard(n, k), names[1..], id + Bit(r));
    }
  }

  lemma DivUnique(a: nat, n: nat, q: nat, r: nat)
    requires a == n * q + r && r < n
    ensures a / n == q && a % n == r
  {
    var d := a / n - q;
    assert n * (a / n) + a % n == n * q + r;
    assert n * d == r - a % n;
    assert d >= 1 ==> n * d >= n;
    assert d <= -1 ==> n * d + n <= 0;
  }

  lemma DivStep(a: nat, n: nat)
    requires n > 0
    ensures (a + 1) / n == (if a % n == n - 1 then a / n + 1 else a / n)
    ensures (a + 1) % n == (if a % n == n - 1 then 0 else a % n + 1)
  {
    var q, r := a / n, a % n;
    assert a == n * q + r;
    if r == n - 1 {
      assert a + 1 == n * (q + 1) + 0;
      DivUnique(a + 1, n, q + 1, 0);
    } else {
      DivUnique(a + 1, n, q, r + 1);
    }
  }

  lemma {:induction false} IdsLast(id: nat, end: nat, n: nat, k: nat)
    requires k < n && id < end
    ensures Ids(id, end, n, k) == Ids(id, end - 1, n, k) + Bit((end - 1) % n == k)
    decreases end - id
  {
    if id < end - 1 {
      IdsLast(id + 1, end, n, k);
    }
  }

  /** The first k shards get one test more than the others, where k is what does not divide evenly. */
  lemma {:induction false} IdsCount(end: nat, n: nat, k: nat)
    requires k < n
    ensures Ids(0, end, n, k) == end / n + Bit(k < end % n)
  {
    if end > 0 {
      IdsCount(end - 1, n, k);
      IdsLast(0, end, n, k);
      DivStep(end - 1, n);
    } else {
      assert end / n == 0 && end % n == 0;
    }
  }

  /** What the shards below `k` of `n` run together. */
  function UpTo(o: Options, names: seq<Name>, n: nat, k: nat): nat
    requires k <= n
  {
    if k == 0 then 0 else UpTo(o, names, n, k - 1) + Count(Marks(o, Shard(n, k - 1), names, 0))
  }

  /** The exact number of tests on a shard. */
  lemma ShardSize(o: Options, names: seq<Name>, n: nat, k: nat)
    requires k < n
    ensures Count(Marks(o, Shard(n, k), names, 0)) == Runnables(o, names) / n + Bit(k < Runnables(o, names) % n)
  {
    hide Marks, Count, Runnables, Ids;
    ShardCount(o, names, n, k, 0);
    IdsCount(Runnables(o, names), n, k);
  }

  lemma OneMoreTimes(k: nat, q: nat)
    requires k > 0
    ensures k * q == (k - 1) * q + q
  {
  }

  lemma {:induction false} UpToSize(o: Options, names: seq<Name>, n: nat, k: nat)
    requires k <= n && n > 0
    ensures var r := Runnables(o, names); UpTo(o, names, n, k) == k * (r / n) + if k < r % n then k else r % n
    decreases k
  {
    hide Runnables, Marks;
    if k > 0 {
      UpToSize(o, names, n, k - 1);
      ShardSize(o, names, n, k - 1);
      OneMoreTimes(k, Runnables(o, names) / n);
    }
  }

  /** Together the shards run every runnable test, and no two differ by more than one. */
  lemma ShardsBalanced(o: Options, names: seq<Name>, n: nat, j: nat, k: nat)
    requires j < n && k < n
    ensures UpTo(o, names, n, n) == Runnables(o, names)
    ensures -1 <= Count(Marks(o, Shard(n, j), names, 0)) - Count(Marks(o, Shard(n, k), names, 0)) <= 1
  {
    hide Marks, Count, Runnables, UpTo;
    UpToSize(o, names, n, n);
    ShardSize(o, names, n, j);
    ShardSize(o, names, n, k);
  }

  /** Running FilterTests as each of `n` shards: every runnable test is selected by exactly one shard, and
      the numbers the shards return are balanced and add up. */
  lemma FilterTestsPartition(o: Options, cases: seq<CaseView>, n: nat, j: nat, k: nat)
    requires j < n && k < n
    ensures var names, flags := Names(cases), Flags(Filtered(o, Shard(n, k), cases, 0));
            |flags| == |names| &&
            forall p | 0 <= p < |names| :: flags[p] <==> CanRun(o, names[p]) && k == ShardOf(o, names, n, p)
    ensures UpTo(o, Names(cases), n, n) == Runnables(o, Names(cases))
    ensures Total(Filtered(o, Shard(n, k), cases, 0)) == Count(Marks(o, Shard(n, k), Names(cases), 0))
    ensures -1 <= Total(Filtered(o, Shard(n, j), cases, 0)) - Total(Filtered(o, Shard(n, k), cases, 0)) <= 1
  {
    hide CanRun, Marks, Filtered, Flags, Names, Count, Total, ShardOf, Runnables, UpTo;
    FlagsAreMarks(o, Shard(n, j), cases, 0);
    FlagsAreMarks(o, Shard(n, k), cases, 0);
    ShardsBalanced(o, Names(cases), n, j, k);
    MarksLength(o, Shard(n, k), Names(cases), 0);
    forall p | 0 <= p < |Names(cases)|
      ensures Flags(Filtered(o, Shard(n, k), cases, 0))[p] <==> CanRun(o, Names(cases)[p]) && k == ShardOf(o, Names(cases), n, p)
    {
      OneShardEach(o, Names(cases), n, p, k);
    }
  }

  // ---------- which tests are selected ----------

  /** Of the tests of a case only those that may run are selected, and all of them without sharding. */
  ghost predicate SelectedOnly(o: Options, s: Shard, caseName: string, before: seq<TestInfo>, after: seq<TestInfo>) {
    && |after| == |before|
    && forall i | 0 <= i < |after| ::
         && after[i].name == before[i].name
         && (after[i].shouldRun ==> MayRun(o, caseName, after[i].name))
         && (s.Everything? && MayRun(o, caseName, after[i].name) ==> after[i].shouldRun)
  }

  lemma {:induction false} SelectedTests(o: Options, s: Shard, caseName: string, tests: seq<TestInfo>, id: nat)
    requires ShardOk(s)
    ensures SelectedOnly(o, s, caseName, tests, FilteredTests(o, s, caseName, tests, id))
  {
    hide Runnable, Disabled, Wanted, MayRun;
    if tests != [] {
      var t := tests[0].name;
      var r := Runnable(o, caseName, t);
      RunnableIff(o, caseName, t);
      SelectedTests(o, s, caseName, tests[1..], id + Bit(r));
    }
  }

  /** The same in every case. */
  ghost predicate SelectedCases(o: Options, s: Shard, before: seq<CaseView>, after: seq<CaseView>) {
    && |after| == |before|
    && forall i | 0 <= i < |before| ::
         after[i].name == before[i].name && SelectedOnly(o, s, before[i].name, before[i].tests, after[i].tests)
  }

  lemma {:induction false} CasesSelected(o: Options, s: Shard, cases: seq<CaseView>, id: nat)
    requires ShardOk(s)
    ensures SelectedCases(o, s, cases, Filtered(o, s, cases, id))
  {
    hide SelectedOnly, FilteredTests, RunnableCount, AnyRuns;
    if cases != [] {
      var c := cases[0];
      SelectedTests(o, s, c.name, c.tests, id);
      CasesSelected(o, s, cases[1..], id + RunnableCount(o, c.name, c.tests));
    }
  }

  /** The tests before position `p` that may run. */
  ghost function MayRunBefore(o: Options, names: seq<Name>, p: nat): set<nat>
    requires p <= |names|
  {
    set q: nat | q < p && MayRun(o, names[q].caseName, names[q].testName)
  }

  lemma NoneBefore(o: Options, names: seq<Name>)
    ensures MayRunBefore(o, names, 0) == {}
  {
  }

  lemma OneMoreMayRun(o: Options, names: seq<Name>, p: nat)
    requires 0 < p <= |names|
    ensures |MayRunBefore(o, names, p)| == |MayRunBefore(o, names, p - 1)| + Bit(MayRun(o, names[p - 1].caseName, names[p - 1].testName))
  {
    hide MayRun;
    assert MayRunBefore(o, names, p) == MayRunBefore(o, names, p - 1)
           + if MayRun(o, names[p - 1].caseName, names[p - 1].testName) then {p - 1} else {};
  }

  lemma {:induction false} RunnablesLast(o: Options, names: seq<Name>, n: Name)
    ensures Runnables(o, names + [n]) == Runnables(o, names) + Bit(CanRun(o, n))
  {
    hide CanRun;
    if names == [] {
      assert (names + [n])[1..] == [];
    } else {
      assert (names + [n])[1..] == names[1..] + [n];
      RunnablesLast(o, names[1..], n);
    }
  }

  lemma CanRunIff(o: Options, n: Name)
    ensures CanRun(o, n) <==> MayRun(o, n.caseName, n.testName)
  {
    hide Runnable, MayRun;
    RunnableIff(o, n.caseName, n.testName);
  }

  lemma {:induction false} RunnablesCount(o: Options, names: seq<Name>, p: nat)
    requires p <= |names|
    ensures Runnables(o, names[..p]) == |MayRunBefore(o, names, p)|
  {
    hide MayRun, CanRun, MayRunBefore;
    if p == 0 {
      NoneBefore(o, names);
    } else {
      RunnablesCount(o, names, p - 1);
      RunnablesLast(o, names[..p - 1], names[p - 1]);
      CanRunIff(o, names[p - 1]);
      assert names[..p] == names[..p - 1] + [names[p - 1]];
      OneMoreMayRun(o, names, p);
    }
  }

  /** Over all cases, shard k of n takes every n-th of the tests that may run, in the order of the cases. */
  lemma ShardTakes(o: Options, s: Shard, cases: seq<CaseView>, p: nat)
    requires ShardOk(s) && p < |Names(cases)|
    ensures var names, flags := Names(cases), Flags(Filtered(o, s, cases, 0));
            && |flags| == |names|
            && (flags[p] <==>
                  && MayRun(o, names[p].caseName, names[p].testName)
                  && (s.Shard? ==> |MayRunBefore(o, names, p)| % s.total == s.index))
  {
    hide MayRun, CanRun, Marks, Filtered, Flags, Names, Runnables, MayRunBefore;
    FlagsAreMarks(o, s, cases, 0);
    MarkIff(o, s, Names(cases), 0, p);
    CanRunIff(o, Names(cases)[p]);
    RunnablesCount(o, Names(cases), p);
  }
}
