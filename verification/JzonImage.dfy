/**
  What the parser can produce: exactly the trees the printer can write so that they are read back.
  Text whose stripped form ends in a backslash is set apart: an unclosed string at its end can give a value
  that no printed text gives, and JzonReadable says which.
 */
module JzonImage {
  import opened JzonText
  import opened JzonWriter
  import opened JzonParser
  import opened JzonRoundTrip

  // ---------- what the tokenizer puts into the data queue ----------

  predicate GoodDatum(d: Datum) {
    if d.kind == VString then Closed('\0', d.text) else ValueOk(d.kind, d.text)
  }

  /** A queue with an unknown token is never emptied, so its data do not matter. */
  predicate GoodQueues(l: Lexed) {
    Unknown !in l.tokens ==> forall d | d in l.data :: GoodDatum(d)
  }

  /** Whatever a string token holds is a string body. */
  lemma {:induction false} ReadIsClosed(prev: char, s: string)
    requires !EndsInBackslash(s) && (s == "" ==> prev != '\\')
    ensures Closed(prev, ReadString(prev, s).0) && !EndsInBackslash(ReadString(prev, s).1)
    decreases |s|
  {
    if s != "" && (prev == '\\' || s[0] != '"') {
      ReadIsClosed(s[0], s[1..]);
      var r := ReadString(s[0], s[1..]);
      assert ([s[0]] + r.0)[1..] == r.0;
    }
  }

  lemma FlushGood(buffer: string)
    ensures GoodQueues(Flush(buffer))
  {
    if buffer != "" && Interpret(buffer).kind == VString {
      assert Flush(buffer).tokens[0] == Unknown;
    }
  }

  lemma JoinGood(a: Lexed, b: Lexed)
    requires GoodQueues(a) && GoodQueues(b)
    ensures GoodQueues(Join(a, b))
  {
    hide GoodDatum;
  }

  lemma StepsGood(buffer: string, str: string, c: char)
    ensures Closed('\0', str) ==> GoodQueues(StringStep(buffer, str))
    ensures IsBracket(c) ==> GoodQueues(BracketStep(buffer, c))
  {
    FlushGood(buffer);
    hide Flush;
    assert forall t | t in Flush(buffer).tokens :: t in StringStep(buffer, str).tokens && t in BracketStep(buffer, c).tokens;
  }

  lemma {:induction false} TokensGood(s: string, buffer: string)
    requires !EndsInBackslash(s)
    ensures GoodQueues(Tokens(s, buffer))
    decreases |s|
  {
    hide GoodQueues, Flush, StringStep, BracketStep, Join;
    if s == "" {
      FlushGood("");
      NoFlush();
    } else if s[0] == '"' {
      var r := ReadString('\0', s[1..]);
      ReadIsClosed('\0', s[1..]);
      StepsGood(buffer, r.0, s[0]);
      TokensGood(r.1, "");
      JoinGood(StringStep(buffer, r.0), Tokens(r.1, ""));
    } else if IsBracket(s[0]) {
      StepsGood(buffer, "", s[0]);
      TokensGood(s[1..], "");
      JoinGood(BracketStep(buffer, s[0]), Tokens(s[1..], ""));
    } else if |s| == 1 {
      FlushGood(buffer + [s[0]]);
    } else {
      TokensGood(s[1..], buffer + [s[0]]);
    }
  }

  // ---------- what the stack machine makes of it ----------

  lemma {:induction false} ClosedEnd(prev: char, s: string)
    requires Closed(prev, s)
    ensures !EndsInBackslash(s)
    decreases |s|
  {
    if |s| > 1 {
      ClosedEnd(s[0], s[1..]);
    }
  }

  lemma NeverEmptied(s: string)
    ensures Unescape(s) == "" <==> s == ""
  {
  }

  lemma {:induction false} UnescapeEnd(s: string)
    requires !EndsInBackslash(s)
    ensures !EndsInBackslash(Unescape(s))
    decreases |s|
  {
    if s != "" {
      var c2 := if |s| > 1 then s[1] else '\0';
      var a := Unescaped(s[0], c2);
      var rest := if a != '\0' then s[2..] else s[1..];
      UnescapeEnd(rest);
      assert Unescape(s) == [if a != '\0' then a else s[0]] + Unescape(rest);
      if Unescape(rest) == "" {
        NeverEmptied(rest);
      }
    }
  }

  lemma ValueGood(d: Datum)
    requires GoodDatum(d)
    ensures WellFormed(ValueOf(d))
  {
    if d.kind == VString {
      ClosedEnd('\0', d.text);
      UnescapeEnd(d.text);
    }
  }

  predicate GoodBuild(b: Build) {
    && Closed('\0', b.name) && WellFormed(b.root)
    && forall o | o in b.stack :: Closed('\0', o.name) && WellFormed(o.node)
  }

  lemma {:induction false} MembersOkAppend(ms: seq<Member>, m: Member)
    requires MembersOk(ms) && Closed('\0', m.name) && WellFormed(m.node)
    ensures MembersOk(ms + [m])
  {
    hide WellFormed, Closed;
    if ms == [] {
      assert (ms + [m])[1..] == [];
    } else {
      assert (ms + [m])[1..] == ms[1..] + [m];
      MembersOkAppend(ms[1..], m);
    }
  }

  lemma {:induction false} ItemsOkAppend(ns: seq<Node>, n: Node)
    requires ItemsOk(ns) && WellFormed(n)
    ensures ItemsOk(ns + [n])
  {
    hide WellFormed;
    if ns == [] {
      assert (ns + [n])[1..] == [];
    } else {
      assert (ns + [n])[1..] == ns[1..] + [n];
      ItemsOkAppend(ns[1..], n);
    }
  }

  lemma AddGood(stack: seq<Open>, name: string, child: Node)
    requires stack != [] && Closed('\0', name) && WellFormed(child)
    requires forall o | o in stack :: Closed('\0', o.name) && WellFormed(o.node)
    ensures forall o | o in AddTop(stack, name, child) :: Closed('\0', o.name) && WellFormed(o.node)
  {
    var top := stack[|stack| - 1];
    assert top in stack;
    match top.node
    case Object(ms) => MembersOkAppend(ms, Member(name, child));
    case Array(ns) => ItemsOkAppend(ns, child);
    case Value(_, _) =>
  }

  lemma CloseGood(l: Lexed, b: Build, token: Token)
    requires GoodBuild(b)
    ensures var r := CloseNode(l, b, token); r.Go? ==> GoodBuild(r.build) && r.next == l
  {
    hide WellFormed, Closed, AddTop;
    if b.stack != [] {
      var n := |b.stack| - 1;
      assert b.stack[n] in b.stack;
      if n > 0 {
        AddGood(b.stack[..n], b.stack[n].name, b.stack[n].node);
      }
    }
  }

  lemma TakeGood(l: Lexed, b: Build)
    requires l.data != [] && GoodBuild(b) && GoodDatum(l.data[0])
    ensures var r := TakeValue(l, b); r.Go? ==> GoodBuild(r.build)
  {
    ValueGood(l.data[0]);
    hide WellFormed, AddTop, ValueOf;
    if b.stack != [] {
      AddGood(b.stack, b.name, ValueOf(l.data[0]));
    }
  }

  lemma OpenGood(l: Lexed, b: Build, fresh_: Node, message: string)
    requires GoodBuild(b) && WellFormed(fresh_)
    ensures var r := OpenNode(l, b, fresh_, message); r.Go? ==> GoodBuild(r.build) && r.next == l
  {
    hide WellFormed;
  }

  /** Every step but the one at an unknown token keeps the rest of the queues. */
  lemma StepKeeps(token: Token, l: Lexed, b: Build)
    requires token == ValueToken || token == Unknown ==> l.data != []
    ensures var r := OneStep(token, l, b);
            r.Go? ==> token != Unknown
                      && (Unknown in r.next.tokens <==> Unknown in l.tokens)
                      && forall d | d in r.next.data :: d in l.data
  {
    hide AddTop, ValueOf, Begin, End;
    if token == ValueToken && l.tokens != [] && l.tokens[0] == SeparatorName {
      assert l.tokens == [SeparatorName] + l.tokens[1..];
    }
  }

  lemma StepGood(token: Token, l: Lexed, b: Build)
    requires token == ValueToken || token == Unknown ==> l.data != []
    requires token == ValueToken ==> GoodDatum(l.data[0])
    requires GoodBuild(b)
    ensures var r := OneStep(token, l, b); r.Go? ==> GoodBuild(r.build)
  {
    OpenGood(l, b, Object([]), "The given root node is not an object");
    OpenGood(l, b, Array([]), "The given root node is not an array");
    CloseGood(l, b, token);
    if token == ValueToken {
      TakeGood(l, b);
    }
    hide GoodBuild, GoodDatum, TakeValue, CloseNode, OpenNode;
  }

  /** Text with an unknown token is refused. */
  lemma {:induction false} AssembleKnown(l: Lexed, b: Build)
    requires Synced(l) && Assemble(l, b).Done?
    ensures Unknown !in l.tokens
    decreases |l.tokens|
  {
    hide Synced, OneStep;
    if l.tokens != [] {
      StepSynced(l, b);
      var rest := l.(tokens := l.tokens[1..]);
      assert l.tokens == [l.tokens[0]] + rest.tokens;
      StepKeeps(l.tokens[0], rest, b);
      var r := OneStep(l.tokens[0], rest, b);
      AssembleKnown(r.next, r.build);
    }
  }

  lemma {:induction false} AssembleGood(l: Lexed, b: Build)
    requires Synced(l) && Unknown !in l.tokens && (forall d | d in l.data :: GoodDatum(d)) && GoodBuild(b)
    ensures Assemble(l, b).Done? ==> WellFormed(Assemble(l, b).root)
    decreases |l.tokens|
  {
    hide GoodDatum, Synced, WellFormed, Closed, OneStep;
    if l.tokens == [] {
      assert b.stack != [] ==> b.stack[0] in b.stack;
    } else {
      StepSynced(l, b);
      var rest := l.(tokens := l.tokens[1..]);
      assert l.tokens == [l.tokens[0]] + rest.tokens;
      StepKeeps(l.tokens[0], rest, b);
      StepGood(l.tokens[0], rest, b);
      var r := OneStep(l.tokens[0], rest, b);
      if r.Go? {
        AssembleGood(r.next, r.build);
      }
    }
  }

  // ---------- the trees that can be read ----------

  /** Whatever is read, into a well-formed root, from text that does not end in a backslash is well
      formed. */
  lemma ReadIsWellFormed(root: Node, json: string)
    requires WellFormed(root) && !EndsInBackslash(Clean(json)) && Parse(root, json).Done?
    ensures WellFormed(Parse(root, json).root)
  {
    var l, b := TokensOf(Clean(json)), Build([], "", root);
    TokensGood(Clean(json), "");
    hide WellFormed, Synced, Assemble, Tokens, Clean;
    AssembleKnown(l, b);
    AssembleGood(l, b);
  }

  lemma {:induction false} CompactEnd(n: Node)
    requires WellFormed(n)
    ensures !EndsInBackslash(Compact(n))
  {
    match n
    case Object(_) =>
    case Array(_) =>
    case Value(VString, _) =>
    case Value(VNumber, t) => assert t[|t| - 1] in t;
    case Value(_, _) =>
  }

  lemma PrintedEnd(n: Node, f: Format)
    requires WellFormed(n)
    ensures !EndsInBackslash(Clean(Print(n, f, 0)))
  {
    hide WellFormed, Compact, Clean, Print;
    FormatIndependent(n, f);
    CompactIsNoFormat(n, 0);
    CompactEnd(n);
  }

  /** The well-formed trees are exactly those that some text is read as. */
  lemma ReadableIff(n: Node)
    ensures WellFormed(n) <==>
            exists json :: !EndsInBackslash(Clean(json)) && Parse(EmptyOf(n), json) == Done(n)
  {
    hide Clean, Parse, Print;
    if WellFormed(n) {
      RoundTripEmpty(n, NO_FORMAT);
      PrintedEnd(n, NO_FORMAT);
    }
    forall json | !EndsInBackslash(Clean(json)) && Parse(EmptyOf(n), json) == Done(n) ensures WellFormed(n) {
      ReadIsWellFormed(EmptyOf(n), json);
    }
  }

  /** Whatever was read can be written and read again. */
  lemma ReadWriteRead(root: Node, json: string, f: Format)
    requires WellFormed(root) && !EndsInBackslash(Clean(json)) && Parse(root, json).Done?
    ensures var n := Parse(root, json).root; Parse(EmptyOf(n), Print(n, f, 0)) == Done(n)
  {
    hide Clean, Parse, Print;
    ReadIsWellFormed(root, json);
    RoundTripEmpty(Parse(root, json).root, f);
  }
}
