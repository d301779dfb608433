/**
  One test case of Google Test: its tests and the order in which they run, shuffling and unshuffling, and
  filtering them.
 */
module UnitTest {
  import opened Wire
  import opened TestFilter
  import opened Shuffling
  import opened Sharding
  import opened Permutations

  function GetElementOr<E>(v: seq<E>, i: int, defaultValue: E): E {
    if i < 0 || i >= |v| then defaultValue else v[i]
  }

  // ---------- one test case ----------

  /** The tests that should run, in order. */
  function RunNames(tests: seq<TestInfo>): seq<string> {
    if tests == [] then [] else (if tests[0].shouldRun then [tests[0].name] else []) + RunNames(tests[1..])
  }

  lemma {:induction false} RunNamesConcat(a: seq<TestInfo>, b: seq<TestInfo>)
    ensures RunNames(a + b) == RunNames(a) + RunNames(b)
  {
    if a == [] {
      assert a + b == b;
    } else {
      assert (a + b)[1..] == a[1..] + b;
      RunNamesConcat(a[1..], b);
    }
  }

  lemma MiddleBag(x: seq<string>, y: seq<string>, z: seq<string>)
    ensures multiset(x + (y + z)) == multiset(y) + multiset(x + z)
  {
  }

  lemma RunNamesWithout(a: seq<TestInfo>, p: nat)
    requires p < |a|
    ensures multiset(RunNames(a)) == multiset(RunNames([a[p]])) + multiset(RunNames(Without(a, p)))
  {
    hide RunNames, Without;
    var x, y, z := a[..p], [a[p]], a[p + 1..];
    WithoutParts(a, p);
    RunNamesConcat(x, y + z);
    RunNamesConcat(y, z);
    RunNamesConcat(x, z);
    MiddleBag(RunNames(x), RunNames(y), RunNames(z));
  }

  lemma {:induction false} RunNamesSameBag(a: seq<TestInfo>, b: seq<TestInfo>)
    requires multiset(a) == multiset(b)
    ensures multiset(RunNames(a)) == multiset(RunNames(b))
    decreases |b|
  {
    hide RunNames, Without;
    assert |multiset(a)| == |a| && |multiset(b)| == |b|;
    if b == [] {
      assert a == [];
    } else {
      assert b[0] in multiset(a);
      var p :| 0 <= p < |a| && a[p] == b[0];
      WithoutBag(a, p);
      WithoutBag(b, 0);
      RunNamesWithout(a, p);
      RunNamesWithout(b, 0);
      RunNamesSameBag(Without(a, p), Without(b, 0));
    }
  }

  lemma {:induction false} NoneRun(tests: seq<TestInfo>)
    requires !AnyRuns(tests)
    ensures RunNames(tests) == []
  {
    if tests != [] {
      assert tests[0] in tests;
      assert forall t | t in tests[1..] :: t in tests;
      NoneRun(tests[1..]);
    }
  }

  // ---------- filtering, test by test ----------

  /** Filtering has come as far as `done`. */
  predicate Progress(o: Options, s: Shard, caseName: string, tests: seq<TestInfo>, id: nat,
                     done: seq<TestInfo>, runnable: nat, selected: nat, any: bool)
    requires ShardOk(s)
  {
    && |done| <= |tests|
    && FilteredTests(o, s, caseName, tests, id)
       == done + FilteredTests(o, s, caseName, tests[|done|..], id + runnable)
    && RunnableCount(o, caseName, tests) == runnable + RunnableCount(o, caseName, tests[|done|..])
    && selected == SelectedCount(done) && (any <==> AnyRuns(done))
  }

  lemma ProgressStart(o: Options, s: Shard, caseName: string, tests: seq<TestInfo>, id: nat)
    requires ShardOk(s)
    ensures Progress(o, s, caseName, tests, id, [], 0, 0, false)
  {
    assert tests[0..] == tests;
    hide FilteredTests, RunnableCount;
  }

  lemma FilterStep(o: Options, s: Shard, caseName: string, tests: seq<TestInfo>, j: nat, id: nat)
    requires ShardOk(s) && j < |tests|
    ensures var t := tests[j].name;
            var r := Runnable(o, caseName, t);
            && FilteredTests(o, s, caseName, tests[j..], id)
               == [TestInfo(t, Disabled(caseName, t), Wanted(o.filter, caseName, t), r && OnShard(s, id))]
                  + FilteredTests(o, s, caseName, tests[j + 1..], id + Bit(r))
            && RunnableCount(o, caseName, tests[j..]) == Bit(r) + RunnableCount(o, caseName, tests[j + 1..])
  {
    hide Runnable, Disabled, Wanted, OnShard;
    assert tests[j..][0] == tests[j] && tests[j..][1..] == tests[j + 1..];
  }

  lemma {:induction false} SelectedAppend(tests: seq<TestInfo>, t: TestInfo)
    ensures SelectedCount(tests + [t]) == SelectedCount(tests) + Bit(t.shouldRun)
    ensures AnyRuns(tests + [t]) <==> AnyRuns(tests) || t.shouldRun
  {
    assert t in tests + [t] && forall u | u in tests :: u in tests + [t];
    if tests == [] {
      assert (tests + [t])[1..] == [];
    } else {
      assert (tests + [t])[1..] == tests[1..] + [t];
      SelectedAppend(tests[1..], t);
    }
  }

  lemma ProgressStep(o: Options, s: Shard, caseName: string, tests: seq<TestInfo>, id: nat,
                     done: seq<TestInfo>, runnable: nat, selected: nat, any: bool)
    requires ShardOk(s) && |done| < |tests| && Progress(o, s, caseName, tests, id, done, runnable, selected, any)
    ensures var t := tests[|done|].name;
            var r := Runnable(o, caseName, t);
            var runs := r && OnShard(s, id + runnable);
            Progress(o, s, caseName, tests, id,
                     done + [TestInfo(t, Disabled(caseName, t), Wanted(o.filter, caseName, t), runs)],
                     runnable + Bit(r), selected + Bit(runs), any || runs)
  {
    hide Runnable, Disabled, Wanted, OnShard, FilteredTests, RunnableCount, SelectedCount, AnyRuns;
    var t := tests[|done|].name;
    var r := Runnable(o, caseName, t);
    FilterStep(o, s, caseName, tests, |done|, id + runnable);
    SelectedAppend(done, TestInfo(t, Disabled(caseName, t), Wanted(o.filter, caseName, t), r && OnShard(s, id + runnable)));
  }

  lemma ProgressEnd(o: Options, s: Shard, caseName: string, tests: seq<TestInfo>, id: nat,
                    done: seq<TestInfo>, runnable: nat, selected: nat, any: bool)
    requires ShardOk(s) && |done| == |tests| && Progress(o, s, caseName, tests, id, done, runnable, selected, any)
    ensures done == FilteredTests(o, s, caseName, tests, id) && runnable == RunnableCount(o, caseName, tests)
    ensures selected == SelectedCount(done) && (any <==> AnyRuns(done))
  {
    assert tests[|done|..] == [];
    hide Runnable, Disabled, Wanted, OnShard, SelectedCount, AnyRuns;
  }

  lemma RunOne(t: TestInfo)
    ensures RunNames([t]) == if t.shouldRun then [t.name] else []
  {
  }

  // ---------- the test case ----------

  class TestCase {
    const name: string
    var tests: seq<TestInfo>
    var indices: seq<int>
    var shouldRun: bool

    ghost predicate Valid()
      reads this
    {
      Permutes(indices, |tests|) && |tests| <= INT_MAX && (shouldRun <==> AnyRuns(tests))
    }

    ghost function View(): CaseView
      reads this`tests, this`shouldRun
    {
      CaseView(name, tests, shouldRun)
    }

    constructor (name: string)
      ensures Valid() && this.name == name && tests == [] && indices == [] && !shouldRun
    {
      this.name := name;
      tests, indices, shouldRun := [], [], false;
    }

    method AddTestInfo(testName: string)
      requires Valid() && |tests| < INT_MAX
      modifies this`tests, this`indices
      ensures Valid() && tests == old(tests) + [TestInfo(testName, false, false, false)]
      ensures indices == old(indices) + [|old(tests)|]
    {
      PermutesRange(indices, |tests|);
      PermutesAppend(indices, |tests|);
      tests := tests + [TestInfo(testName, false, false, false)];
      indices := indices + [|indices|];
    }

    function GetMutableTestInfo(i: int): Option<TestInfo>
      requires InRange(indices, |tests|)
      reads this
    {
      var index := GetElementOr(indices, i, -1);
      if index < 0 then None else Some(tests[index])
    }

    /** Runs the selected tests of the case, each once. */
    method Run() returns (ran: seq<string>)
      requires Valid()
      ensures InRange(indices, |tests|) && ran == RunNames(Apply(tests, indices))
      ensures multiset(ran) == multiset(RunNames(tests))
    {
      hide RunNames, Permutes;
      PermutesRange(indices, |tests|);
      ApplyPermutes(tests, indices);
      ghost var order := Apply(tests, indices);
      RunNamesSameBag(order, tests);
      if !shouldRun {
        NoneRun(tests);
        assert forall t | t in order :: t in tests;
        NoneRun(order);
        return [];
      }
      ran := [];
      assert RunNames(order[..0]) == [] by { NoneRun(order[..0]); }
      for i := 0 to |tests|
        invariant ran == RunNames(order[..i])
      {
        var t := GetMutableTestInfo(i).value;
        RunNamesConcat(order[..i], [order[i]]);
        RunOne(order[i]);
        assert order[..i + 1] == order[..i] + [order[i]];
        if t.shouldRun {
          ran := ran + [t.name];
        }
      }
      assert order[..|tests|] == order;
    }

    method ShuffleTests(random: Random)
      requires Valid()
      modifies this`indices, random
      ensures Valid()
      ensures |old(indices)| == |tests| && indices == ShuffledBy(old(indices), 0, |tests|, old(random.state))
      ensures random.state == StateAfter(old(random.state), |tests|)
    {
      PermutesRange(indices, |tests|);
      DrawsAreOk(random.state, |tests|);
      ShuffledRearranges(indices, 0, |tests|, Draws(random.state, |tests|));
      indices := ShuffleRange(random, 0, |indices|, indices);
    }

    method UnshuffleTests()
      requires Valid()
      modifies this`indices
      ensures Valid() && indices == Identity(|tests|)
    {
      PermutesRange(indices, |tests|);
      for i := 0 to |indices|
        invariant |indices| == |tests| && indices[..i] == Identity(i)
      {
        indices := indices[i := i];
        assert indices[..i + 1] == indices[..i] + [i] && Identity(i + 1) == Identity(i) + [i];
      }
      assert indices[..|tests|] == indices;
    }

    method IsDisabled(testName: string) returns (b: bool)
      ensures b <==> Disabled(name, testName)
    {
      b := MatchesFilter(name, DISABLE_TEST_FILTER);
      if !b {
        b := MatchesFilter(testName, DISABLE_TEST_FILTER);
      }
    }

    /** Marks the tests of the case that should run; `id` runnable tests come before them. */
    method FilterTests(o: Options, s: Shard, id: nat) returns (runnable: nat, selected: nat)
      requires Valid() && ShardOk(s)
      modifies this`tests, this`shouldRun
      ensures Valid() && View() == FilteredCase(o, s, old(View()), id)
      ensures runnable == RunnableCount(o, name, old(tests)) && selected == SelectedCount(tests) && |tests| == |old(tests)|
      ensures SelectedOnly(o, s, name, old(tests), tests)
    {
      hide Permutes, InFilter, OnShard, Wanted, Disabled, Progress, AnyRuns, SelectedOnly;
      ghost var before := tests;
      ProgressStart(o, s, name, before, id);
      runnable, selected := 0, 0;
      shouldRun := false;
      for j := 0 to |tests|
        invariant |tests| == |before| && tests[j..] == before[j..]
        invariant Progress(o, s, name, before, id, tests[..j], runnable, selected, shouldRun)
      {
        var t := tests[j].name;
        var isDisabled := IsDisabled(t);
        var matchesFilter := FilterMatchesTest(o.filter, name, t);
        var isRunnable := (o.alsoRunDisabled || !isDisabled) && matchesFilter;
        var isSelected := isRunnable && OnShard(s, id + runnable);
        assert tests[j] == tests[j..][0] && before[j] == before[j..][0];
        ProgressStep(o, s, name, before, id, tests[..j], runnable, selected, shouldRun);
        assert tests[j + 1..] == tests[j..][1..] && before[j + 1..] == before[j..][1..];
        ghost var done := tests[..j];
        tests := tests[j := TestInfo(t, isDisabled, matchesFilter, isSelected)];
        assert tests[..j + 1] == done + [tests[j]];
        shouldRun := shouldRun || isSelected;
        runnable, selected := runnable + Bit(isRunnable), selected + Bit(isSelected);
      }
      assert tests[..|tests|] == tests;
      ProgressEnd(o, s, name, before, id, tests, runnable, selected, shouldRun);
      SelectedTests(o, s, name, before, id);
    }
  }
}
