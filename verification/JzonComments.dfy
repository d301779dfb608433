/**
  Comments in the text Jzon reads: which of them are stripped without a trace, and where.
 */
module JzonComments {
  import opened JzonText
  import opened JzonParser

  // ---------- where a scan arrives ----------

  /** Two characters that open or close a comment. */
  predicate Pair(x: char, y: char) {
    (x == '/' && y == '*') || (x == '*' && y == '/') || (x == '/' && y == '/')
  }

  /** Whether the scan is in a string behind the character. */
  function Turned(prev: char, c: char, st: Scan): bool {
    if prev != '\\' && c == '"' then !st.inString else st.inString
  }

  function BehindPair(st: Scan, c1: char, c2: char): Scan {
    if c2 == '*' then Scan(st.comment, st.depth + 1, false)
    else if c1 == '*' then Scan(st.comment, st.depth - 1, false)
    else Scan(true, st.depth, false)
  }

  function BehindOne(st: Scan, c: char, inString: bool): Scan {
    Scan(!(!inString && c == '\n') && st.comment, st.depth, inString)
  }

  predicate Hides(st: Scan, c: char) {
    st.comment || st.depth > 0 || (!st.inString && IsSpace(c))
  }

  predicate PairFirst(prev: char, s: string, st: Scan) {
    |s| > 1 && !Turned(prev, s[0], st) && Pair(s[0], s[1])
  }

  /** The state behind a text, whether its last character could still be the first of a pair, and whether nothing of
      it was kept. */
  datatype Reached = Reached(scan: Scan, alone: bool, hidden: bool)

  function Reach(prev: char, s: string, st: Scan, alone: bool): Reached
    decreases |s|
  {
    if s == "" then Reached(st, alone, true)
    else if PairFirst(prev, s, st) then Reach(s[1], s[2..], BehindPair(st, s[0], s[1]), false)
    else
      var inString := Turned(prev, s[0], st);
      var next := BehindOne(st, s[0], inString);
      var r := Reach(s[0], s[1..], next, !inString);
      r.(hidden := r.hidden && Hides(next, s[0]))
  }

  function Last(prev: char, s: string): char {
    if s == "" then prev else s[|s| - 1]
  }

  lemma StripStep(prev: char, s: string, st: Scan)
    requires s != ""
    ensures var next := BehindOne(st, s[0], Turned(prev, s[0], st));
            Strip(prev, s, st)
            == if PairFirst(prev, s, st) then Strip(s[1], s[2..], BehindPair(st, s[0], s[1]))
               else (if Hides(next, s[0]) then "" else [s[0]]) + Strip(s[0], s[1..], next)
  {
  }

  lemma NothingStripped(prev: char, st: Scan)
    ensures Strip(prev, "", st) == ""
  {
  }

  lemma {:induction false} HiddenIff(prev: char, s: string, st: Scan, alone: bool)
    ensures Reach(prev, s, st, alone).hidden <==> Strip(prev, s, st) == ""
    decreases |s|
  {
    hide Strip, Turned, BehindPair, BehindOne, Hides, Pair;
    if s == "" {
      NothingStripped(prev, st);
    } else {
      StripStep(prev, s, st);
      if PairFirst(prev, s, st) {
        HiddenIff(s[1], s[2..], BehindPair(st, s[0], s[1]), false);
      } else {
        var inString := Turned(prev, s[0], st);
        HiddenIff(s[0], s[1..], BehindOne(st, s[0], inString), !inString);
      }
    }
  }

  /** `b` can follow `a` without forming a pair with its last character. */
  predicate Separate(r: Reached, a: string, b: string) {
    r.alone && a != "" && b != "" ==> !Pair(a[|a| - 1], b[0])
  }

  lemma SamePair(prev: char, a: string, b: string, st: Scan, alone: bool)
    requires a != "" && Separate(Reach(prev, a, st, alone), a, b)
    ensures PairFirst(prev, a + b, st) <==> PairFirst(prev, a, st)
    ensures (a + b)[0] == a[0] && (a + b)[1..] == a[1..] + b
    ensures |a| > 1 ==> (a + b)[1] == a[1] && (a + b)[2..] == a[2..] + b
  {
    if |a| == 1 {
      assert Reach(prev, a, st, alone).alone == !Turned(prev, a[0], st);
    }
  }

  lemma LastStep(prev: char, a: string)
    requires a != ""
    ensures Last(prev, a) == Last(a[0], a[1..])
    ensures |a| > 1 ==> Last(prev, a) == Last(a[1], a[2..])
  {
  }

  lemma SeparateStep(prev: char, a: string, b: string, st: Scan, alone: bool)
    requires a != "" && Separate(Reach(prev, a, st, alone), a, b)
    ensures if PairFirst(prev, a, st) then Separate(Reach(a[1], a[2..], BehindPair(st, a[0], a[1]), false), a[2..], b)
            else var inString := Turned(prev, a[0], st);
                 Separate(Reach(a[0], a[1..], BehindOne(st, a[0], inString), !inString), a[1..], b)
  {
    hide Turned, BehindPair, BehindOne, Hides, Pair;
  }

  lemma Behind(x: string, y: string, z: string)
    ensures x + (y + z) == (x + y) + z
  {
  }

  lemma LastOfNothing(prev: char, b: string)
    ensures "" + b == b && Last(prev, "") == prev
  {
  }

  lemma ReachStep(prev: char, s: string, st: Scan, alone: bool)
    requires s != ""
    ensures PairFirst(prev, s, st) ==> |s| > 1
    ensures var inString := Turned(prev, s[0], st);
            var next := BehindOne(st, s[0], inString);
            Reach(prev, s, st, alone)
            == if PairFirst(prev, s, st) then Reach(s[1], s[2..], BehindPair(st, s[0], s[1]), false)
               else var r := Reach(s[0], s[1..], next, !inString);
                    r.(hidden := r.hidden && Hides(next, s[0]))
  {
  }

  lemma {:induction false} StripConcat(prev: char, a: string, b: string, st: Scan, alone: bool)
    requires Separate(Reach(prev, a, st, alone), a, b)
    ensures Strip(prev, a + b, st) == Strip(prev, a, st) + Strip(Last(prev, a), b, Reach(prev, a, st, alone).scan)
    decreases |a|
  {
    hide Strip, Turned, BehindPair, BehindOne, Hides, Pair, PairFirst, Separate, Last;
    if a == "" {
      assert a + b == b && Last(prev, "") == prev by { LastOfNothing(prev, b); }
      NothingStripped(prev, st);
    } else {
      SamePair(prev, a, b, st, alone);
      StripStep(prev, a, st);
      StripStep(prev, a + b, st);
      SeparateStep(prev, a, b, st, alone);
      LastStep(prev, a);
      ReachStep(prev, a, st, alone);
      if PairFirst(prev, a, st) {
        StripConcat(a[1], a[2..], b, BehindPair(st, a[0], a[1]), false);
      } else {
        var inString := Turned(prev, a[0], st);
        var next := BehindOne(st, a[0], inString);
        StripConcat(a[0], a[1..], b, next, !inString);
        Behind(if Hides(next, a[0]) then "" else [a[0]], Strip(a[0], a[1..], next),
               Strip(Last(prev, a), b, Reach(prev, a, st, alone).scan));
      }
    }
  }

  lemma NothingReached(prev: char, b: string, st: Scan, alone: bool)
    requires b != ""
    ensures Reach(prev, "", st, alone) == Reached(st, alone, true)
    ensures Reach(prev, b, st, alone) == Reach(prev, b, st, false)
  {
  }

  lemma {:induction false} ReachConcat(prev: char, a: string, b: string, st: Scan, alone: bool)
    requires Separate(Reach(prev, a, st, alone), a, b) && b != ""
    ensures var r := Reach(prev, a, st, alone);
            var t := Reach(Last(prev, a), b, r.scan, false);
            Reach(prev, a + b, st, alone) == t.(hidden := r.hidden && t.hidden)
    decreases |a|
  {
    hide Turned, BehindPair, BehindOne, Hides, Pair, PairFirst, Separate, Last, Reach;
    if a == "" {
      LastOfNothing(prev, b);
      NothingReached(prev, b, st, alone);
    } else {
      SamePair(prev, a, b, st, alone);
      ReachStep(prev, a, st, alone);
      ReachStep(prev, a + b, st, alone);
      SeparateStep(prev, a, b, st, alone);
      LastStep(prev, a);
      if PairFirst(prev, a, st) {
        ReachConcat(a[1], a[2..], b, BehindPair(st, a[0], a[1]), false);
      } else {
        var inString := Turned(prev, a[0], st);
        ReachConcat(a[0], a[1..], b, BehindOne(st, a[0], inString), !inString);
      }
    }
  }

  lemma AnyPrev(p: char, q: char, s: string, st: Scan)
    requires p != '\\' && q != '\\'
    ensures Strip(p, s, st) == Strip(q, s, st)
  {
  }

  // ---------- comments that vanish ----------

  /** Whatever follows it is stripped as if it were not there. */
  ghost predicate Vanishes(comment: string) {
    forall rest :: Clean(comment + rest) == Clean(rest)
  }

  /** What the scan arrives at in a line comment does not swallow what is behind its line. */
  predicate LineOk(c: string) {
    var r := Reach('/', c, Scan(true, 0, false), false).scan;
    r.depth == 0 && !r.inString
  }

  lemma {:induction false} LineStays(prev: char, s: string, st: Scan, alone: bool)
    requires st.comment && '\n' !in s
    ensures Strip(prev, s, st) == "" && Reach(prev, s, st, alone).scan.comment
    decreases |s|
  {
    if s != "" {
      if PairFirst(prev, s, st) {
        LineStays(s[1], s[2..], BehindPair(st, s[0], s[1]), false);
      } else {
        var inString := Turned(prev, s[0], st);
        LineStays(s[0], s[1..], BehindOne(st, s[0], inString), !inString);
      }
    }
  }

  /** What is left behind a line comment. */
  lemma BehindLine(c: string, rest: string)
    requires '\n' !in c
    ensures var r := Reach('/', c, Scan(true, 0, false), false).scan;
            Clean("//" + c + "\n" + rest) == Strip('\n', rest, Scan(r.inString, r.depth, r.inString))
  {
    var s := "//" + c + "\n" + rest;
    var r := Reach('/', c, Scan(true, 0, false), false);
    assert s[2..] == c + ("\n" + rest);
    LineStays('/', c, Scan(true, 0, false), false);
    StripConcat('/', c, "\n" + rest, Scan(true, 0, false), false);
    assert ("\n" + rest)[1..] == rest;
  }

  lemma OneLeft(st: Scan, p: char)
    requires p != '\\'
    ensures Strip(p, "1", st) == if st.comment || st.depth > 0 then "" else "1"
    ensures !st.inString ==> Strip(p, "/*1", st) == if st.comment || st.depth >= 0 then "" else "1"
  {
    assert "/*1"[2..] == "1" && "1"[1..] == "";
  }

  /** A line comment vanishes exactly if scanning it as Jzon does ends outside strings and block comments. */
  lemma LineIff(c: string)
    requires '\n' !in c
    ensures Vanishes("//" + c + "\n") <==> LineOk(c)
  {
    var comment := "//" + c + "\n";
    var r := Reach('/', c, Scan(true, 0, false), false).scan;
    if LineOk(c) {
      forall rest ensures Clean(comment + rest) == Clean(rest) {
        BehindLine(c, rest);
        AnyPrev('\n', '\0', rest, OUTSIDE);
      }
    } else {
      BehindLine(c, "1");
      BehindLine(c, "/*1");
      OneLeft(OUTSIDE, '\0');
      OneLeft(Scan(r.inString, r.depth, r.inString), '\n');
      assert Clean(comment + "1") != Clean("1") || Clean(comment + "/*1") != Clean("/*1");
    }
  }

  /** The scan of a block comment's text hides all of it, opens as many comments as it closes, and leaves no slash for
      the end mark. */
  predicate BlockOk(c: string) {
    var r := Reach('*', c, Scan(false, 1, false), false);
    r.hidden && r.scan == Scan(false, 1, false) && !(r.alone && c != "" && c[|c| - 1] == '/')
  }

  lemma BlockText(c: string, rest: string)
    ensures Clean("/*" + c + "*/" + rest) == Strip('*', c + ("*/" + rest), Scan(false, 1, false))
  {
    assert ("/*" + c + "*/" + rest)[2..] == c + ("*/" + rest);
  }

  lemma EndMark(p: char, st: Scan, rest: string)
    ensures Strip(p, "*/" + rest, st)
            == if !st.inString then Strip('/', rest, Scan(st.comment, st.depth - 1, false))
               else (if st.comment || st.depth > 0 then "" else "*/") + Strip('/', rest, st)
  {
    var s := "*/" + rest;
    assert s[1..] == "/" + rest && s[2..] == rest && s[1..][1..] == rest;
  }

  /** If the text ends in a slash that the star of the end mark completes, another comment is opened. */
  lemma SlashOpens(c: string)
    requires var r := Reach('*', c, Scan(false, 1, false), false); r.alone && c != "" && c[|c| - 1] == '/'
    ensures Clean("/*" + c + "*/" + "") != Clean("") || Clean("/*" + c + "*/" + "1") != Clean("1")
  {
    var st, a := Scan(false, 1, false), c[..|c| - 1];
    var ra := Reach('*', a, st, false);
    assert c == a + "/";
    AloneMeans('*', a, '/', st, false);
    ReachConcat('*', a, "/", st, false);
    OneReached(Last('*', a), ra.scan);
    SlashBehind(c, a, "");
    SlashBehind(c, a, "1");
    hide Strip, Reach, Clean;
    OneLeft(OUTSIDE, '\0');
    NothingStripped('\0', OUTSIDE);
    AfterSlash(Scan(ra.scan.comment, ra.scan.depth + 1, false));
    assert Clean("") == "" && Clean("1") == "1" by { CleanOne(); }
  }

  lemma CleanOne()
    ensures Clean("") == "" && Clean("1") == "1"
  {
  }

  lemma OneReached(p: char, st: Scan)
    ensures Reach(p, "/", st, false).alone == !st.inString
  {
  }

  lemma AfterSlash(st: Scan)
    requires !st.inString
    ensures Strip('*', "/" + "", st) == if st.comment || st.depth > 0 then "" else "/"
    ensures Strip('*', "/" + "1", st) == if st.comment || st.depth > 0 then "" else "/1"
  {
    assert ("/" + "1")[1..] == "1" && "1"[1..] == "" && ("/" + "")[1..] == "";
  }

  lemma SlashBehind(c: string, a: string, rest: string)
    requires c == a + "/"
    requires var ra := Reach('*', a, Scan(false, 1, false), false);
             !ra.scan.inString && (ra.alone && a != "" ==> !Pair(a[|a| - 1], '/'))
    ensures var ra := Reach('*', a, Scan(false, 1, false), false).scan;
            Clean("/*" + c + "*/" + rest)
            == Strip('*', a, Scan(false, 1, false)) + Strip('*', "/" + rest, Scan(ra.comment, ra.depth + 1, false))
  {
    hide Strip, Reach;
    var ra, t := Reach('*', a, Scan(false, 1, false), false), "/*" + ("/" + rest);
    BlockText(c, rest);
    assert c + ("*/" + rest) == a + t;
    StripConcat('*', a, t, Scan(false, 1, false), false);
    StripStep(Last('*', a), t, ra.scan);
    assert t[2..] == "/" + rest;
  }

  /** A last character that stands alone did not complete a pair. */
  lemma {:induction false} AloneMeans(prev: char, a: string, x: char, st: Scan, alone: bool)
    requires Reach(prev, a + [x], st, alone).alone
    ensures Separate(Reach(prev, a, st, alone), a, [x])
    decreases |a|
  {
    if a != "" {
      assert (a + [x])[1..] == a[1..] + [x];
      if |a| > 1 && PairFirst(prev, a, st) {
        assert (a + [x])[2..] == a[2..] + [x];
        AloneMeans(a[1], a[2..], x, BehindPair(st, a[0], a[1]), false);
      } else if |a| > 1 {
        var inString := Turned(prev, a[0], st);
        AloneMeans(a[0], a[1..], x, BehindOne(st, a[0], inString), !inString);
      } else {
        assert a[1..] == "" && (a + [x])[2..] == "" && (a + [x])[1] == x;
        ReachStep(prev, a, st, alone);
        ReachStep(prev, a + [x], st, alone);
      }
    }
  }

  /** A block comment vanishes exactly under that condition. */
  lemma BlockIff(c: string)
    ensures Vanishes("/*" + c + "*/") <==> BlockOk(c)
  {
    var comment, st := "/*" + c + "*/", Scan(false, 1, false);
    var r := Reach('*', c, st, false);
    HiddenIff('*', c, st, false);
    if r.alone && c != "" && c[|c| - 1] == '/' {
      SlashOpens(c);
    } else if BlockOk(c) {
      forall rest ensures Clean(comment + rest) == Clean(rest) {
        BehindBlock(c, rest);
        AnyPrev('/', '\0', rest, OUTSIDE);
      }
    } else {
      hide Strip, Reach;
      BehindBlock(c, "");
      BehindBlock(c, "1");
      BehindBlock(c, "/*1");
      CleanOne();
      OneLeft(OUTSIDE, '\0');
      var next := if r.scan.inString then r.scan else Scan(r.scan.comment, r.scan.depth - 1, false);
      NothingStripped('/', next);
      OneLeft(next, '/');
      assert Clean("/*1") == "";
      assert Clean(comment + "") != Clean("") || Clean(comment + "1") != Clean("1") || Clean(comment + "/*1") != Clean("/*1");
    }
  }

  /** What is left behind a block comment. */
  lemma BehindBlock(c: string, rest: string)
    requires var r := Reach('*', c, Scan(false, 1, false), false); !(r.alone && c != "" && c[|c| - 1] == '/')
    ensures var r := Reach('*', c, Scan(false, 1, false), false).scan;
            Clean("/*" + c + "*/" + rest)
            == Strip('*', c, Scan(false, 1, false))
               + if !r.inString then Strip('/', rest, Scan(r.comment, r.depth - 1, false))
                 else (if r.comment || r.depth > 0 then "" else "*/") + Strip('/', rest, r)
  {
    hide Strip, Reach;
    BlockText(c, rest);
    StripConcat('*', c, "*/" + rest, Scan(false, 1, false), false);
    EndMark(Last('*', c), Reach('*', c, Scan(false, 1, false), false).scan, rest);
  }

  // ---------- texts that are fine ----------

  /** For example, a line without quotes, slashes and stars. */
  lemma {:induction false} PlainLine(c: string)
    requires forall i | 0 <= i < |c| :: c[i] !in "\n\"/*"
    ensures Vanishes("//" + c + "\n")
  {
    PlainReach('/', c, Scan(true, 0, false), false);
    LineIff(c);
  }

  lemma {:induction false} PlainReach(prev: char, c: string, st: Scan, alone: bool)
    requires !st.inString && forall i | 0 <= i < |c| :: c[i] !in "\"/*"
    requires st.comment ==> '\n' !in c
    ensures Reach(prev, c, st, alone).scan == st
    ensures st.comment || st.depth > 0 ==> Reach(prev, c, st, alone).hidden
    ensures c != "" ==> Reach(prev, c, st, alone).alone
    decreases |c|
  {
    if c != "" {
      assert c[0] !in "\"/*";
      PlainReach(c[0], c[1..], st, true);
    }
  }

  /** Comments inside comments: outside quotes, every mark that opens one is closed again, and no two slashes stand
      together.  `depth` marks are open. */
  predicate Nests(c: string, depth: nat)
    decreases |c|
  {
    if c == "" then depth == 0
    else if |c| > 1 && c[..2] == "/*" then Nests(c[2..], depth + 1)
    else if |c| > 1 && c[..2] == "*/" then depth > 0 && Nests(c[2..], depth - 1)
    else c[0] != '"' && c[0] != '/' && Nests(c[1..], depth)
  }

  lemma {:induction false} NestedReach(prev: char, c: string, depth: nat, alone: bool)
    requires Nests(c, depth)
    ensures var r := Reach(prev, c, Scan(false, depth + 1, false), alone);
            r.hidden && r.scan == Scan(false, 1, false) && (r.alone && c != "" ==> c[|c| - 1] != '/')
    decreases |c|
  {
    var st := Scan(false, depth + 1, false);
    if c != "" {
      if |c| > 1 && c[..2] == "/*" {
        assert c[0] == c[..2][0] && c[1] == c[..2][1];
        NestedReach(c[1], c[2..], depth + 1, false);
      } else if |c| > 1 && c[..2] == "*/" {
        assert c[0] == c[..2][0] && c[1] == c[..2][1];
        NestedReach(c[1], c[2..], depth - 1, false);
      } else {
        assert |c| > 1 ==> c[..2] == [c[0], c[1]];
        NestedReach(c[0], c[1..], depth, true);
      }
    }
  }

  lemma NestedBlock(c: string)
    requires Nests(c, 0)
    ensures Vanishes("/*" + c + "*/")
  {
    NestedReach('*', c, 0, false);
    BlockIff(c);
  }

  // ---------- anywhere in a text ----------

  /** Text that leaves the scan outside strings and comments, with nothing pending. */
  predicate LeavesOutside(a: string) {
    var r := Reach('\0', a, OUTSIDE, false);
    r.scan == OUTSIDE && (a != "" ==> a[|a| - 1] != '\\' && !(r.alone && a[|a| - 1] in "/*"))
  }

  lemma CleanBehind(a: string, b: string)
    requires LeavesOutside(a)
    ensures Clean(a + b) == Clean(a) + Clean(b)
  {
    hide Reach;
    StripConcat('\0', a, b, OUTSIDE, false);
    AnyPrev(Last('\0', a), '\0', b, OUTSIDE);
  }

  /** Such texts can be put together. */
  lemma OutsideConcat(a: string, b: string)
    requires LeavesOutside(a) && LeavesOutside(b)
    ensures LeavesOutside(a + b)
  {
    if b == "" {
      assert a + b == a;
    } else {
      ReachConcat('\0', a, b, OUTSIDE, false);
      ReachPrev(Last('\0', a), '\0', b, OUTSIDE);
    }
  }

  lemma ReachPrev(p: char, q: char, s: string, st: Scan)
    requires p != '\\' && q != '\\'
    ensures Reach(p, s, st, false) == Reach(q, s, st, false)
  {
  }

  lemma OutsidePlain(a: string)
    requires forall i | 0 <= i < |a| :: a[i] !in "\"/*\\"
    ensures LeavesOutside(a)
  {
    PlainReach('\0', a, OUTSIDE, false);
  }

  lemma {:induction false} StringReach(prev: char, body: string, st: Scan)
    requires Closed(prev, body) && st.inString && !st.comment && st.depth == 0
    ensures var r := Reach(prev, body + "\"", st, false); r.scan == OUTSIDE
    decreases |body|
  {
    if body == "" {
      assert body + "\"" == "\"";
    } else {
      assert (body + "\"")[1..] == body[1..] + "\"";
      StringReach(body[0], body[1..], st);
      ReachAlone(body[0], body[1..] + "\"", st);
    }
  }

  lemma ReachAlone(prev: char, s: string, st: Scan)
    requires s != ""
    ensures Reach(prev, s, st, true) == Reach(prev, s, st, false)
  {
  }

  lemma OutsideString(body: string)
    requires Closed('"', body)
    ensures LeavesOutside("\"" + body + "\"")
  {
    var s := "\"" + body + "\"";
    assert s[1..] == body + "\"";
    StringReach('"', body, INSIDE);
  }

  /** A piece of a text: a comment, or something else. */
  datatype Piece = Comment(text: string) | Other(text: string)

  ghost predicate PiecesOk(ps: seq<Piece>) {
    forall i | 0 <= i < |ps| :: if ps[i].Comment? then Vanishes(ps[i].text) else LeavesOutside(ps[i].text)
  }

  function Commented(ps: seq<Piece>): string {
    if ps == [] then "" else ps[0].text + Commented(ps[1..])
  }

  function Uncommented(ps: seq<Piece>): string {
    if ps == [] then "" else (if ps[0].Comment? then "" else ps[0].text) + Uncommented(ps[1..])
  }

  /** Wherever such comments stand, between strings and whatever else leaves the scan outside, nothing of them is left
      and nothing else is lost. */
  lemma {:induction false} CommentsVanish(ps: seq<Piece>, rest: string)
    requires PiecesOk(ps)
    ensures Clean(Commented(ps) + rest) == Clean(Uncommented(ps) + rest)
  {
    hide Clean, LeavesOutside, Vanishes;
    if ps != [] {
      var p, more := ps[0], ps[1..];
      assert PiecesOk(more);
      CommentsVanish(more, rest);
      PieceFirst(p, Commented(more), Uncommented(more), rest);
    }
  }

  lemma PieceFirst(p: Piece, x: string, y: string, rest: string)
    requires if p.Comment? then Vanishes(p.text) else LeavesOutside(p.text)
    requires Clean(x + rest) == Clean(y + rest)
    ensures Clean(p.text + x + rest) == Clean((if p.Comment? then "" else p.text) + y + rest)
  {
    hide Clean, LeavesOutside, Vanishes;
    assert p.text + x + rest == p.text + (x + rest);
    if p.Comment? {
      VanishesThere(p.text, x + rest);
      assert "" + y == y;
    } else {
      assert p.text + y + rest == p.text + (y + rest);
      CleanBehind(p.text, x + rest);
      CleanBehind(p.text, y + rest);
    }
  }

  lemma VanishesThere(comment: string, rest: string)
    requires Vanishes(comment)
    ensures Clean(comment + rest) == Clean(rest)
  {
  }

  /** So the parser reads the text as if they were not there. */
  lemma CommentsUnread(root: Node, ps: seq<Piece>)
    requires PiecesOk(ps)
    ensures Parse(root, Commented(ps)) == Parse(root, Uncommented(ps))
  {
    CommentsVanish(ps, "");
    assert Commented(ps) + "" == Commented(ps) && Uncommented(ps) + "" == Uncommented(ps);
    hide Clean, TokensOf, Assemble;
  }

  /** Of single characters exactly the five blanks vanish. */
  lemma BlankIff(c: char)
    ensures Vanishes([c]) <==> c in {'\n', ' ', '\t', '\r', '\U{000C}'}
  {
    if c in {'\n', ' ', '\t', '\r', '\U{000C}'} {
      forall rest ensures Clean([c] + rest) == Clean(rest) {
        assert ([c] + rest)[1..] == rest;
        AnyPrev(c, '\0', rest, OUTSIDE);
      }
    } else {
      assert ([c] + "")[1..] == "";
      assert Clean([c] + "") != Clean("");
    }
  }

  // ---------- comments that do not vanish ----------

  /** A quote in a line comment swallows what is behind the line, and so do two slashes in a block comment. */
  lemma SwallowedExamples()
    ensures Clean("//\"\n1") == "" && Clean("1") == "1"
    ensures Clean("/*//*/1") == ""
  {
    CleanOne();
    assert "//\"\n1"[2..] == "\"\n1" && "\"\n1"[1..] == "\n1" && "\n1"[1..] == "1" && "1"[1..] == "";
    assert "/*//*/1"[2..] == "//*/1" && "//*/1"[2..] == "*/1" && "*/1"[2..] == "1";
  }
}
