/**
  Google Test's name filters: colon-separated wildcard patterns.
 */
module TestFilter {

  /** The part of `filter` before its first colon. */
  function FirstPattern(filter: string): string {
    if filter == "" || filter[0] == ':' then "" else [filter[0]] + FirstPattern(filter[1..])
  }

  /** The patterns between the colons. */
  function Patterns(filter: string): seq<string> {
    if filter == "" then [""]
    else if filter[0] == ':' then [""] + Patterns(filter[1..])
    else
      var rest := Patterns(filter[1..]);
      if rest == [] then [] else [[filter[0]] + rest[0]] + rest[1..]
  }

  /** `?` stands for any character, `*` for any string. */
  predicate Glob(p: string, s: string)
    decreases |p|
  {
    if p == "" then s == ""
    else if p[0] == '*' then exists k :: 0 <= k <= |s| && Glob(p[1..], s[k..])
    else s != "" && (p[0] == '?' || p[0] == s[0]) && Glob(p[1..], s[1..])
  }

  /** Some pattern of the filter matches the name. */
  predicate InFilter(name: string, filter: string) {
    exists p :: p in Patterns(filter) && Glob(p, name)
  }

  // ---------- the matcher ----------

  predicate PatternMatchesString(pattern: string, str: string)
    decreases |pattern| + |str|
  {
    if pattern == "" || pattern[0] == ':' then str == ""
    else if pattern[0] == '?' then str != "" && PatternMatchesString(pattern[1..], str[1..])
    else if pattern[0] == '*' then
      (str != "" && PatternMatchesString(pattern, str[1..])) || PatternMatchesString(pattern[1..], str)
    else str != "" && pattern[0] == str[0] && PatternMatchesString(pattern[1..], str[1..])
  }

  lemma {:induction false} PatternIff(pattern: string, str: string)
    ensures PatternMatchesString(pattern, str) <==> Glob(FirstPattern(pattern), str)
    decreases |pattern| + |str|
  {
    if pattern != "" && pattern[0] != ':' {
      var p := FirstPattern(pattern);
      assert p[1..] == FirstPattern(pattern[1..]);
      if pattern[0] == '*' {
        PatternIff(pattern[1..], str);
        assert str[0..] == str;
        if str != "" {
          PatternIff(pattern, str[1..]);
          assert forall k | 0 <= k <= |str[1..]| :: str[1..][k..] == str[k + 1..];
          assert forall k | 0 < k <= |str| :: str[k..] == str[1..][k - 1..];
        }
      } else if str != "" {
        PatternIff(pattern[1..], str[1..]);
      }
    }
  }

  lemma {:induction false} PatternsFrom(filter: string, n: nat)
    requires n <= |filter| && (n < |filter| ==> filter[n] == ':') && ':' !in filter[..n]
    ensures Patterns(filter) == [filter[..n]] + if n < |filter| then Patterns(filter[n + 1..]) else []
    ensures FirstPattern(filter) == filter[..n]
  {
    if n > 0 {
      assert filter[..n][0] == filter[0] && filter[1..][..n - 1] == filter[..n][1..];
      assert n < |filter| ==> filter[1..][n..] == filter[n + 1..];
      PatternsFrom(filter[1..], n - 1);
      assert filter[..n] == [filter[0]] + filter[1..][..n - 1];
    } else if filter != "" {
      assert filter[..0] == "";
    }
  }

  /** strchr from `from` on: the position of the first colon, or the length. */
  method FindColon(filter: string, from: nat) returns (n: nat)
    requires from <= |filter|
    ensures from <= n <= |filter| && ':' !in filter[from..n] && (n < |filter| ==> filter[n] == ':')
  {
    n := from;
    while n < |filter| && filter[n] != ':'
      invariant from <= n <= |filter| && ':' !in filter[from..n]
    {
      assert filter[from..n + 1] == filter[from..n] + [filter[n]];
      n := n + 1;
    }
  }

  method MatchesFilter(name: string, filter: string) returns (found: bool)
    ensures found <==> InFilter(name, filter)
  {
    hide Glob, Patterns, FirstPattern, PatternMatchesString;
    var cur := 0;
    assert filter[0..] == filter;
    while true
      invariant cur <= |filter|
      invariant InFilter(name, filter) <==> InFilter(name, filter[cur..])
      decreases |filter| - cur
    {
      var colon := FindColon(filter, cur);
      ghost var rest := filter[cur..];
      assert rest[..colon - cur] == filter[cur..colon];
      PatternsFrom(rest, colon - cur);
      PatternIff(rest, name);
      if PatternMatchesString(filter[cur..], name) {
        assert rest[..colon - cur] in Patterns(rest);
        return true;
      }
      if colon == |filter| {
        return false;
      }
      assert rest[colon - cur + 1..] == filter[colon + 1..];
      cur := colon + 1;
    }
  }

  // ---------- the built-in filters ----------

  const DEATH_TEST_CASE_FILTER := "*DeathTest:*DeathTest/*"
  const DISABLE_TEST_FILTER := "DISABLED_*:*/DISABLED_*"
  const UNIVERSAL_FILTER := "*"

  predicate Plain(s: string) {
    '*' !in s && '?' !in s
  }

  predicate HasAt(s: string, k: nat, part: string) {
    k + |part| <= |s| && s[k..k + |part|] == part
  }

  ghost predicate Contains(s: string, part: string) {
    exists k: nat :: HasAt(s, k, part)
  }

  lemma {:induction false} GlobPlain(p: string, q: string, s: string)
    requires Plain(p)
    ensures Glob(p + q, s) <==> HasAt(s, 0, p) && Glob(q, s[|p|..])
    decreases |p|
  {
    if p == "" {
      assert p + q == q && s[0..] == s;
    } else {
      var w := p + q;
      assert p[0] in p && w[1..] == p[1..] + q;
      if s != "" {
        GlobPlain(p[1..], q, s[1..]);
        assert |p| <= |s| ==> s[1..][|p| - 1..] == s[|p|..] && s[1..][0..|p| - 1] == s[1..|p|];
        assert |p| <= |s| ==> s[0..|p|] == [s[0]] + s[1..|p|];
        assert p == [p[0]] + p[1..];
      }
    }
  }

  lemma GlobAny(s: string)
    ensures Glob("*", s)
  {
    assert Glob("*"[1..], s[|s|..]);
  }

  /** `*p*` */
  lemma GlobContains(p: string, s: string)
    requires Plain(p)
    ensures Glob("*" + p + "*", s) <==> Contains(s, p)
  {
    var w := "*" + p + "*";
    assert w[1..] == p + "*";
    forall k | 0 <= k <= |s| ensures Glob(w[1..], s[k..]) <==> HasAt(s, k, p) {
      GlobPlain(p, "*", s[k..]);
      if |p| <= |s[k..]| {
        GlobAny(s[k..][|p|..]);
        assert s[k..][0..|p|] == s[k..k + |p|];
      }
    }
    assert forall k: nat | HasAt(s, k, p) :: k <= |s|;
  }

  lemma GlobStar(p: string, s: string)
    ensures Glob("*" + p, s) <==> exists k :: 0 <= k <= |s| && Glob(p, s[k..])
    ensures Glob("", s) <==> s == ""
  {
    assert ("*" + p)[1..] == p;
  }

  lemma GlobRest(p: string, s: string, k: nat)
    requires Plain(p) && k <= |s|
    ensures Glob(p, s[k..]) <==> k + |p| == |s| && HasAt(s, k, p)
  {
    hide Glob;
    assert p + "" == p;
    GlobPlain(p, "", s[k..]);
    if |p| <= |s[k..]| {
      GlobStar("", s[k..][|p|..]);
      assert s[k..][0..|p|] == s[k..k + |p|];
    }
  }

  /** `*p` */
  lemma GlobEnd(p: string, s: string)
    requires Plain(p)
    ensures Glob("*" + p, s) <==> |p| <= |s| && HasAt(s, |s| - |p|, p)
  {
    hide Glob, HasAt, Plain;
    GlobStar(p, s);
    forall k: nat | k <= |s| ensures Glob(p, s[k..]) <==> k + |p| == |s| && HasAt(s, k, p) {
      GlobRest(p, s, k);
    }
  }

  /** `p*` */
  lemma GlobStart(p: string, s: string)
    requires Plain(p)
    ensures Glob(p + "*", s) <==> HasAt(s, 0, p)
  {
    GlobPlain(p, "*", s);
    if |p| <= |s| {
      GlobAny(s[|p|..]);
    }
  }

  lemma TwoPatterns(a: string, b: string, name: string)
    requires ':' !in a && ':' !in b
    ensures InFilter(name, a + ":" + b) <==> Glob(a, name) || Glob(b, name)
  {
    var filter := a + ":" + b;
    assert filter[..|a|] == a && filter[|a| + 1..] == b && b[..|b|] == b;
    PatternsFrom(filter, |a|);
    PatternsFrom(b, |b|);
    assert Patterns(filter) == [a, b];
    assert a in Patterns(filter) && b in Patterns(filter);
  }

  predicate IsDeathTestCase(name: string) {
    InFilter(name, DEATH_TEST_CASE_FILTER)
  }

  /** Death test cases are named `...DeathTest` or, if they are typed or parameterized, have `DeathTest/`
      in their name. */
  lemma DeathTestCaseIff(name: string)
    ensures IsDeathTestCase(name) <==>
            (9 <= |name| && HasAt(name, |name| - 9, "DeathTest")) || Contains(name, "DeathTest/")
  {
    hide Glob, HasAt, InFilter, Contains;
    var d := "DeathTest";
    assert DEATH_TEST_CASE_FILTER == "*DeathTest" + ":" + "*DeathTest/*";
    TwoPatterns("*DeathTest", "*DeathTest/*", name);
    GlobEnd(d, name);
    GlobContains("DeathTest/", name);
    assert "*" + d == "*DeathTest" && "*" + "DeathTest/" + "*" == "*DeathTest/*";
  }

  predicate IsDisabledName(name: string) {
    InFilter(name, DISABLE_TEST_FILTER)
  }

  lemma DisabledIff(name: string)
    ensures IsDisabledName(name) <==> HasAt(name, 0, "DISABLED_") || Contains(name, "/DISABLED_")
  {
    hide Glob, HasAt, InFilter, Contains;
    assert DISABLE_TEST_FILTER == "DISABLED_*" + ":" + "*/DISABLED_*";
    TwoPatterns("DISABLED_*", "*/DISABLED_*", name);
    GlobStart("DISABLED_", name);
    GlobContains("/DISABLED_", name);
    assert "DISABLED_" + "*" == "DISABLED_*" && "*" + "/DISABLED_" + "*" == "*/DISABLED_*";
  }

  // ---------- the user's filter ----------

  /** What stands before the first dash, and what stands behind it if there is one. */
  function SplitAtDash(filter: string): (r: (string, string)) {
    if filter == "" then ("", "")
    else if filter[0] == '-' then ("", filter[1..])
    else
      var r := SplitAtDash(filter[1..]);
      ([filter[0]] + r.0, r.1)
  }

  function Positive(filter: string): string {
    if '-' in filter && SplitAtDash(filter).0 == "" then UNIVERSAL_FILTER else SplitAtDash(filter).0
  }

  /** The size of the buffer of String::Format, with the NUL at its end. */
  const FORMAT_LIMIT := 4096
  const FORMAT_ERROR := "<formatting error or buffer exceeded>"

  /** The name of a test that filters see. */
  function FullName(caseName: string, testName: string): string {
    var full := caseName + "." + testName;
    if |full| >= FORMAT_LIMIT then FORMAT_ERROR else full
  }

  /** It is the test's own name exactly if that is short enough. */
  lemma FullNameIff(caseName: string, testName: string)
    ensures FullName(caseName, testName) == caseName + "." + testName <==> |caseName| + |testName| + 1 < FORMAT_LIMIT
  {
    assert |FORMAT_ERROR| < FORMAT_LIMIT;
  }

  predicate Wanted(filter: string, caseName: string, testName: string) {
    var full := FullName(caseName, testName);
    InFilter(full, Positive(filter)) && !InFilter(full, SplitAtDash(filter).1)
  }

  lemma {:induction false} SplitFrom(filter: string, n: nat)
    requires n <= |filter| && '-' !in filter[..n] && (n < |filter| ==> filter[n] == '-')
    ensures SplitAtDash(filter) == (filter[..n], if n < |filter| then filter[n + 1..] else "")
    ensures '-' in filter <==> n < |filter|
  {
    if n > 0 {
      assert filter[..n][0] == filter[0] && filter[1..][..n - 1] == filter[..n][1..];
      assert n < |filter| ==> filter[1..][n..] == filter[n + 1..];
      SplitFrom(filter[1..], n - 1);
      assert filter[..n] == [filter[0]] + filter[1..][..n - 1];
      assert filter == [filter[0]] + filter[1..];
    } else if filter != "" {
      assert filter[0] in filter;
    }
  }

  /** String::Format("%s.%s") */
  method FormatFullName(caseName: string, testName: string) returns (full: string)
    ensures full == FullName(caseName, testName)
  {
    full := caseName + "." + testName;
    if |full| >= FORMAT_LIMIT {
      full := FORMAT_ERROR;
    }
  }

  method FilterMatchesTest(filter: string, caseName: string, testName: string) returns (wanted: bool)
    ensures wanted <==> Wanted(filter, caseName, testName)
  {
    hide InFilter;
    var dash := 0;
    while dash < |filter| && filter[dash] != '-'
      invariant dash <= |filter| && '-' !in filter[..dash]
    {
      assert filter[..dash + 1] == filter[..dash] + [filter[dash]];
      dash := dash + 1;
    }
    SplitFrom(filter, dash);
    var positive, negative := filter, "";
    if dash < |filter| {
      positive, negative := filter[..dash], filter[dash + 1..];
      if positive == "" {
        positive := UNIVERSAL_FILTER;
      }
    } else {
      assert filter[..dash] == filter;
    }
    var full := FormatFullName(caseName, testName);
    wanted := MatchesFilter(full, positive);
    if wanted {
      var unwanted := MatchesFilter(full, negative);
      wanted := !unwanted;
    }
  }

  // ---------- what filters mean ----------

  /** A filter wants a name if one of its patterns up to the first dash matches it, where no pattern at all stands
      for every name, and none behind the dash does. */
  ghost predicate FilterWants(filter: string, name: string) {
    if '-' !in filter then InFilter(name, filter)
    else
      exists k :: 0 <= k < |filter| && filter[k] == '-' && '-' !in filter[..k]
                  && (k == 0 || InFilter(name, filter[..k])) && !InFilter(name, filter[k + 1..])
  }

  lemma WantsAt(filter: string, name: string, k: nat)
    requires k < |filter| && filter[k] == '-' && '-' !in filter[..k]
    ensures FilterWants(filter, name) <==> (k == 0 || InFilter(name, filter[..k])) && !InFilter(name, filter[k + 1..])
  {
    hide InFilter;
    assert forall i | 0 <= i < k :: filter[i] == filter[..k][i];
    forall j | 0 <= j < |filter| && filter[j] == '-' && '-' !in filter[..j] ensures j == k {
      assert forall i | 0 <= i < j :: filter[i] == filter[..j][i];
    }
  }

  lemma FirstDash(filter: string) returns (k: nat)
    requires '-' in filter
    ensures k < |filter| && filter[k] == '-' && '-' !in filter[..k]
  {
    k := 0;
    while filter[k] != '-'
      invariant k < |filter| && '-' !in filter[..k]
      decreases |filter| - k
    {
      assert filter[..k + 1] == filter[..k] + [filter[k]];
      k := k + 1;
      if k == |filter| {
        assert filter[..k] == filter;
      }
    }
  }

  lemma {:induction false} OnlyEmptyName(name: string)
    ensures InFilter(name, "") <==> name == ""
    ensures InFilter(name, "*")
  {
    assert Patterns("") == [""];
    assert "*"[..1] == "*" && ':' !in "*";
    PatternsFrom("*", 1);
    GlobAny(name);
    assert "*" in Patterns("*") && "" in Patterns("");
  }

  lemma WantedFull(filter: string, caseName: string, testName: string, full: string)
    requires full == FullName(caseName, testName) && full != ""
    ensures Wanted(filter, caseName, testName) <==> FilterWants(filter, full)
  {
    hide InFilter;
    OnlyEmptyName(full);
    if '-' in filter {
      var k := FirstDash(filter);
      SplitFrom(filter, k);
      WantsAt(filter, full, k);
    } else {
      assert filter[..|filter|] == filter;
      SplitFrom(filter, |filter|);
    }
  }

  lemma WantedIff(filter: string, caseName: string, testName: string)
    requires |caseName| + |testName| + 1 < 4096
    ensures Wanted(filter, caseName, testName) <==> FilterWants(filter, caseName + "." + testName)
  {
    hide InFilter;
    WantedFull(filter, caseName, testName, caseName + "." + testName);
  }

  /** Longer names all look alike to filters. */
  lemma WantedLong(filter: string, caseName: string, testName: string)
    requires |caseName| + |testName| + 1 >= 4096
    ensures Wanted(filter, caseName, testName) <==> FilterWants(filter, "<formatting error or buffer exceeded>")
  {
    hide InFilter;
    WantedFull(filter, caseName, testName, "<formatting error or buffer exceeded>");
  }

  /** Patterns stand between colons; a star matches any string, a question mark any one character, and every other
      character itself. */
  lemma FilterReads(a: string, b: string, name: string)
    requires ':' !in a
    ensures InFilter(name, a + ":" + b) <==> InFilter(name, a) || InFilter(name, b)
    ensures InFilter(name, a) <==> Glob(a, name)
  {
    hide Glob;
    var filter := a + ":" + b;
    assert filter[..|a|] == a && filter[|a| + 1..] == b && a[..|a|] == a;
    PatternsFrom(filter, |a|);
    PatternsFrom(a, |a|);
    assert a in Patterns(filter) && a in Patterns(a);
    assert forall p | p in Patterns(b) :: p in Patterns(filter);
  }

  lemma GlobReads(c: char, q: string, s: string)
    ensures Glob("", s) <==> s == ""
    ensures Glob("*" + q, s) <==> exists k :: 0 <= k <= |s| && Glob(q, s[k..])
    ensures Glob("?" + q, s) <==> s != "" && Glob(q, s[1..])
    ensures c != '*' && c != '?' ==> (Glob([c] + q, s) <==> s != "" && s[0] == c && Glob(q, s[1..]))
  {
    assert ("*" + q)[1..] == q && ("?" + q)[1..] == q && ([c] + q)[1..] == q;
  }
}
