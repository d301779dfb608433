/**
  Exactly the well-formed trees survive printing and parsing.  What is left to exclude are texts that end
  inside a string, behind a backslash: a tree read from such a text never prints as one.
 */
module JzonExact {
  import opened JzonText
  import opened JzonWriter
  import opened JzonParser
  import opened JzonRoundTrip
  import opened JzonImage

  // ---------- the tokens of a text that ends in a backslash ----------

  /** A string that ends before the text does is closed, and the text behind it has the same end. */
  lemma {:induction false} ReadStops(prev: char, s: string)
    requires ReadString(prev, s).1 != ""
    ensures Closed(prev, ReadString(prev, s).0)
    ensures EndsInBackslash(s) <==> EndsInBackslash(ReadString(prev, s).1)
    decreases |s|
  {
    if prev == '\\' || s[0] != '"' {
      ReadStops(s[0], s[1..]);
      assert ([s[0]] + ReadString(s[0], s[1..]).0)[1..] == ReadString(s[0], s[1..]).0;
    }
  }

  lemma BackslashUnknown(buffer: string)
    requires '\\' in buffer
    ensures Unknown in Flush(buffer).tokens
  {
    var i :| 0 <= i < |buffer| && buffer[i] == '\\';
    assert Upper(buffer)[i] == '\\';
    assert !AllNumber(buffer);
    assert Flush(buffer).tokens[0] == Unknown;
  }

  lemma TokensNothing()
    ensures Tokens("", "") == Lexed([], [])
  {
  }

  lemma NothingGood()
    ensures GoodQueues(Lexed([], [])) && Synced(Lexed([], []))
  {
  }

  lemma Joined(step: Lexed, g': Lexed, last: Lexed, rest: Lexed) returns (g: Lexed)
    requires GoodQueues(step) && Synced(step)
    requires Unknown !in rest.tokens ==> rest == Join(g', last) && GoodQueues(g') && Synced(g')
    ensures Unknown !in Join(step, rest).tokens ==>
              Join(step, rest) == Join(g, last) && GoodQueues(g) && Synced(g)
  {
    g := Join(step, g');
    if Unknown !in rest.tokens {
      JoinGood(step, g');
      JoinSynced(step, g');
      JoinLaws(step, g', last);
    }
  }

  /** Its last token is a string; all data before that string are good. */
  lemma {:induction false} TokensTail(s: string, buffer: string) returns (g: Lexed, buf: string, body: string)
    requires EndsInBackslash(s)
    ensures Unknown !in Tokens(s, buffer).tokens ==>
              Tokens(s, buffer) == Join(g, StringStep(buf, body)) && GoodQueues(g) && Synced(g)
    decreases |s|
  {
    hide GoodQueues, Synced, Flush, StringStep, BracketStep, Join, Closed;
    g, buf, body := Lexed([], []), buffer, "";
    NothingGood();
    if s[0] == '"' {
      var r := ReadString('\0', s[1..]);
      body := r.0;
      if r.1 == "" {
        JoinLaws(StringStep(buffer, body), g, StringStep(buffer, body));
        TokensNothing();
      } else {
        ReadStops('\0', s[1..]);
        var g';
        g', buf, body := TokensTail(r.1, "");
        StepsGood(buffer, r.0, s[0]);
        StepsSynced(buffer, r.0, s[0]);
        g := Joined(StringStep(buffer, r.0), g', StringStep(buf, body), Tokens(r.1, ""));
      }
    } else if IsBracket(s[0]) {
      var g';
      g', buf, body := TokensTail(s[1..], "");
      StepsGood(buffer, "", s[0]);
      StepsSynced(buffer, "", s[0]);
      g := Joined(BracketStep(buffer, s[0]), g', StringStep(buf, body), Tokens(s[1..], ""));
    } else if |s| == 1 {
      BackslashUnknown(buffer + [s[0]]);
    } else {
      g, buf, body := TokensTail(s[1..], buffer + [s[0]]);
    }
  }

  // ---------- assembling them ----------

  /** Queues in front of others are worked off as if they stood alone. */
  lemma StepJoin(token: Token, l: Lexed, t: Lexed, b: Build)
    requires token == ValueToken || token == Unknown ==> l.data != []
    requires NoName(t)
    ensures OneStep(token, Join(l, t), b) ==
            match OneStep(token, l, b)
            case Go(l', b') => Go(Join(l', t), b')
            case Halt(m, b') => Halt(m, b')
  {
    hide AddTop, ValueOf, Begin, End;
    if token == ValueToken {
      assert (l.data + t.data)[1..] == l.data[1..] + t.data;
      if l.tokens != [] {
        assert (l.tokens + t.tokens)[1..] == l.tokens[1..] + t.tokens;
      } else {
        assert l.tokens + t.tokens == t.tokens;
      }
    }
  }

  lemma EmptyQueues(l: Lexed)
    requires Synced(l) && l.tokens == []
    ensures l == Lexed([], [])
  {
  }

  lemma {:induction false} AssemblePrefix(g: Lexed, t: Lexed, b: Build) returns (b': Build)
    requires Synced(g) && Synced(t) && NoName(t) && GoodBuild(b)
    requires Unknown !in g.tokens && forall d | d in g.data :: GoodDatum(d)
    ensures Synced(Join(g, t))
    ensures Assemble(Join(g, t), b).Done? ==> GoodBuild(b') && Assemble(Join(g, t), b) == Assemble(t, b')
    decreases |g.tokens|
  {
    hide GoodDatum, Synced, GoodBuild, OneStep;
    JoinSynced(g, t);
    b' := b;
    if g.tokens == [] {
      EmptyQueues(g);
      JoinLaws(g, g, t);
    } else {
      var token, rest, whole := g.tokens[0], g.(tokens := g.tokens[1..]), Join(g, t);
      StepSynced(g, b);
      StepSynced(whole, b);
      assert g.tokens == [token] + rest.tokens;
      assert whole.tokens[0] == token && whole.(tokens := whole.tokens[1..]) == Join(rest, t);
      StepKeeps(token, rest, b);
      StepGood(token, rest, b);
      StepJoin(token, rest, t, b);
      var r := OneStep(token, rest, b);
      if r.Go? {
        b' := AssemblePrefix(r.next, t, r.build);
      }
    }
  }

  /** What such a text can be read as: a good tree, or one with a string ending in a backslash as the
      last or last but one child of the root. */
  datatype Shape =
    | Good(n: Node)
    | Alone(s: string)
    | Last(node: Node, name: string, s: string)
    | Before(node: Node, name: string, s: string, kind: ValueKind, text: string)

  function Shaped(sh: Shape): Node {
    match sh
    case Good(n) => n
    case Alone(s) => Value(VString, s)
    case Last(node, name, s) => AddChild(node, name, Value(VString, s))
    case Before(node, name, s, k, t) => AddChild(AddChild(node, name, Value(VString, s)), "", Value(k, t))
  }

  predicate ShapeOk(sh: Shape) {
    match sh
    case Good(n) => WellFormed(n)
    case Alone(s) => true
    case Last(node, name, s) => WellFormed(node) && !node.Value? && Closed('\0', name)
    case Before(node, name, s, k, t) =>
      WellFormed(node) && !node.Value? && Closed('\0', name) && k != VString && ValueOk(k, t)
  }

  /** Adding at the top changes the root only if the root is on top. */
  lemma AddToRoot(b: Build, name: string, child: Node)
    requires b.stack != []
    ensures var b' := b.(stack := AddTop(b.stack, name, child));
            && |b'.stack| == |b.stack|
            && RootOf(b') == (if |b.stack| == 1 then AddChild(b.stack[0].node, name, child) else b.stack[0].node)
            && (|b.stack| == 1 ==> b'.stack[0].node == AddChild(b.stack[0].node, name, child))
            && (|b.stack| > 1 ==> b'.stack[0] == b.stack[0])
  {
  }

  /** A value token with nothing open: the root takes the value. */
  lemma AssembleRootOnly(d: Datum, l: Lexed, b: Build)
    requires b.stack == [] && Synced(l) && NoName(l)
    ensures var whole := Join(Lexed([ValueToken], [d]), l);
            && Synced(whole)
            && (Assemble(whole, b).Done? ==>
                  Assemble(whole, b) == Assemble(l, Build([Open(b.name, ValueOf(d))], "", b.root)))
  {
    BracketsSynced();
    JoinSynced(Lexed([ValueToken], [d]), l);
    var whole := Join(Lexed([ValueToken], [d]), l);
    assert whole.tokens[0] == ValueToken && whole.data[0] == d && whole.tokens[1..] == l.tokens && whole.data[1..] == l.data;
    hide AddTop, ValueOf, Synced;
    StepSynced(whole, b);
  }

  /** A value at the end of the queues, inside an open node. */
  lemma LastValue(d: Datum, b: Build)
    requires b.stack != []
    ensures Synced(Lexed([ValueToken], [d]))
    ensures Assemble(Lexed([ValueToken], [d]), b)
            == Done(RootOf(Build(AddTop(b.stack, b.name, ValueOf(d)), "", b.root)))
  {
    hide AddTop, ValueOf, RootOf, Assemble, Synced;
    var none := Lexed([], []);
    NothingGood();
    JoinLaws(Lexed([ValueToken], [d]), none, none);
    AssembleValue(d, none, b);
    AssembleEnd(Build(AddTop(b.stack, b.name, ValueOf(d)), "", b.root));
  }

  lemma TailOne(body: string, b: Build) returns (sh: Shape)
    requires GoodBuild(b) && Synced(Lexed([ValueToken], [Datum(VString, body)]))
    requires Assemble(Lexed([ValueToken], [Datum(VString, body)]), b).Done?
    ensures ShapeOk(sh) && Assemble(Lexed([ValueToken], [Datum(VString, body)]), b).root == Shaped(sh)
  {
    var d, none := Datum(VString, body), Lexed([], []);
    if b.stack == [] {
      NothingGood();
      JoinLaws(Lexed([ValueToken], [d]), none, none);
      AssembleRootOnly(d, none, b);
      AssembleEnd(Build([Open(b.name, ValueOf(d))], "", b.root));
      sh := Alone(Unescape(body));
    } else {
      hide WellFormed, Closed, Unescape;
      assert b.stack[0] in b.stack;
      LastValue(d, b);
      AddToRoot(b, b.name, ValueOf(d));
      sh := if |b.stack| > 1 || b.stack[0].node.Value? then Good(b.stack[0].node)
            else Last(b.stack[0].node, b.name, Unescape(body));
    }
  }

  /** Two values at the end of the queues, with nothing open: the second is lost. */
  lemma TwoValuesAlone(d: Datum, e: Datum, b: Build)
    requires b.stack == []
    ensures var l := Join(Lexed([ValueToken], [d]), Lexed([ValueToken], [e]));
            Synced(l) && (Assemble(l, b).Done? ==> Assemble(l, b) == Done(ValueOf(d)))
  {
    var b1 := Build([Open(b.name, ValueOf(d))], "", b.root);
    LastValue(e, b1);
    hide Assemble, Synced;
    AssembleRootOnly(d, Lexed([ValueToken], [e]), b);
    AddToRoot(b1, "", ValueOf(e));
  }

  /** Inside an open node both are added to it. */
  lemma TwoValuesInside(d: Datum, e: Datum, b: Build)
    requires b.stack != []
    ensures var l, node := Join(Lexed([ValueToken], [d]), Lexed([ValueToken], [e])), b.stack[0].node;
            && Synced(l)
            && Assemble(l, b) == Done(if |b.stack| > 1 then node
                                      else AddChild(AddChild(node, b.name, ValueOf(d)), "", ValueOf(e)))
  {
    hide Assemble, Synced, AddTop, ValueOf;
    var b1 := Build(AddTop(b.stack, b.name, ValueOf(d)), "", b.root);
    AddToRoot(b, b.name, ValueOf(d));
    LastValue(e, b1);
    AssembleValue(d, Lexed([ValueToken], [e]), b);
    AddToRoot(b1, "", ValueOf(e));
  }

  lemma TailKnown(buf: string, body: string)
    requires buf != "" && Unknown !in StringStep(buf, body).tokens
    ensures var e := Interpret(buf);
            && e.kind != VString && ValueOk(e.kind, e.text)
            && StringStep(buf, body) == Join(Lexed([ValueToken], [Datum(VString, body)]), Lexed([ValueToken], [e]))
  {
    var f := Flush(buf);
    assert f.tokens[0] in StringStep(buf, body).tokens;
  }

  lemma TailTwo(buf: string, body: string, b: Build) returns (sh: Shape)
    requires GoodBuild(b) && buf != "" && Synced(StringStep(buf, body)) && Assemble(StringStep(buf, body), b).Done?
    ensures ShapeOk(sh) && Assemble(StringStep(buf, body), b).root == Shaped(sh)
  {
    var d, e := Datum(VString, body), Interpret(buf);
    AssembleKnown(StringStep(buf, body), b);
    TailKnown(buf, body);
    hide WellFormed, Closed, Unescape, Interpret, Synced, StringStep, Assemble, Join;
    if b.stack == [] {
      TwoValuesAlone(d, e, b);
      sh := Alone(Unescape(body));
    } else {
      assert b.stack[0] in b.stack;
      TwoValuesInside(d, e, b);
      sh := if |b.stack| > 1 || b.stack[0].node.Value? then Good(b.stack[0].node)
            else Before(b.stack[0].node, b.name, Unescape(body), e.kind, e.text);
    }
  }

  /** The stack machine on a string with buffered text in front: its datum comes first. */
  lemma AssembleTail(buf: string, body: string, b: Build) returns (sh: Shape)
    requires GoodBuild(b) && Synced(StringStep(buf, body)) && Assemble(StringStep(buf, body), b).Done?
    ensures ShapeOk(sh) && Assemble(StringStep(buf, body), b).root == Shaped(sh)
  {
    var l, v := StringStep(buf, body), Value(VString, Unescape(body));
    StepSynced(l, b);
    FlushGood(buf);
    hide WellFormed, Closed, Synced, Unescape;
    assert b.stack != [] ==> b.stack[0] in b.stack;
    if buf == "" {
      NoFlush();
      sh := TailOne(body, b);
    } else {
      sh := TailTwo(buf, body, b);
    }
  }

  // ---------- the ends of printed texts ----------

  lemma InsideStep(prev: char, c: char, rest: string)
    requires prev == '\\' || c != '"'
    ensures Strip(prev, [c] + rest, INSIDE) == [c] + Strip(c, rest, INSIDE)
  {
    assert ([c] + rest)[1..] == rest;
  }

  lemma CharSurvives(prev: char, c: char, rest: string)
    ensures var next := if Escaped(c) != '\0' then Escaped(c) else c;
            Strip(prev, EscapeChar(c) + rest, INSIDE) == EscapeChar(c) + Strip(next, rest, INSIDE)
  {
    hide Strip;
    if Escaped(c) != '\0' {
      assert EscapeChar(c) + rest == ['\\'] + ([Escaped(c)] + rest);
      InsideStep(prev, '\\', [Escaped(c)] + rest);
      InsideStep('\\', Escaped(c), rest);
    } else {
      InsideStep(prev, c, rest);
    }
  }

  /** Inside a string an escaped text survives as it is, whatever its last character. */
  lemma {:induction false} EscapedSurvives(prev: char, s: string, rest: string) returns (last: char)
    ensures Strip(prev, Escape(s) + rest, INSIDE) == Escape(s) + Strip(last, rest, INSIDE)
    decreases |s|
  {
    hide Strip, EscapeChar, Escaped;
    last := prev;
    if s == "" {
      assert Escape(s) + rest == rest;
    } else {
      var c := s[0];
      last := EscapedSurvives(if Escaped(c) != '\0' then Escaped(c) else c, s[1..], rest);
      CharSurvives(prev, c, Escape(s[1..]) + rest);
      assert Escape(s) + rest == EscapeChar(c) + (Escape(s[1..]) + rest);
    }
  }

  predicate NoComment(s: string) {
    '/' !in s && '*' !in s
  }

  predicate EndsIn(s: string, c: char) {
    s != "" && s[|s| - 1] == c
  }

  lemma {:induction false} EndSurvives(prev: char, s: string, c: char, inString: bool)
    requires NoComment(s) && NoComment([c]) && !IsSpace(c)
    ensures EndsIn(Strip(prev, s + [c], Scan(false, 0, inString)), c)
    decreases |s|
  {
    var text := s + [c];
    assert c in [c];
    if s == "" {
      assert text[0] == c && text[1..] == "";
    } else {
      assert s[0] in s && text[0] == s[0] && text[1..] == s[1..] + [c];
      var inside := if prev != '\\' && s[0] == '"' then !inString else inString;
      EndSurvives(s[0], s[1..], c, inside);
    }
  }

  /** A text that ends with a string value, something that starts no comment, and `c` still ends with `c`
      when it is stripped, even if the string is left open. */
  lemma StringThenEnd(s: string, r: string, c: char)
    requires NoComment(r) && NoComment([c]) && !IsSpace(c)
    ensures EndsIn(Clean("\"" + Escape(s) + (r + [c])), c)
  {
    var rest := r + [c];
    var text := "\"" + Escape(s) + rest;
    assert text[0] == '"' && text[1..] == Escape(s) + rest;
    assert Clean(text) == ['"'] + Strip('"', text[1..], INSIDE);
    var last := EscapedSurvives('"', s, rest);
    EndSurvives(last, r, c, true);
  }

  lemma EndsBehind(a: string, b: string, c: char)
    requires EndsIn(b, c)
    ensures EndsIn(a + b, c)
  {
  }

  lemma {:induction false} MembersAppend(ms: seq<Member>, m: Member, f: Format, level: nat, first: bool)
    ensures PrintMembers(ms + [m], f, level, first)
            == PrintMembers(ms, f, level, first) + PrintMember(m, f, level, first && ms == [])
    decreases |ms|
  {
    hide PrintMember;
    if ms == [] {
      assert (ms + [m])[1..] == [];
    } else {
      assert (ms + [m])[1..] == ms[1..] + [m];
      MembersAppend(ms[1..], m, f, level, false);
    }
  }

  lemma {:induction false} ItemsAppend(ns: seq<Node>, n: Node, f: Format, level: nat, first: bool)
    ensures PrintItems(ns + [n], f, level, first)
            == PrintItems(ns, f, level, first) + PrintItem(n, f, level, first && ns == [])
    decreases |ns|
  {
    hide PrintItem;
    if ns == [] {
      assert (ns + [n])[1..] == [];
    } else {
      assert (ns + [n])[1..] == ns[1..] + [n];
      ItemsAppend(ns[1..], n, f, level, false);
    }
  }

  lemma MemberShape(name: string, s: string, f: Format, first: bool, tail: string)
    ensures PrintMember(Member(name, Value(VString, s)), f, 0, first) + (tail + "}")
            == Separator(f, 0, first) + (Quoted(name) + ([':'] + (Spacing(f) + ("\"" + Escape(s) + ("\"" + tail + "}")))))
  {
    hide Separator, Spacing, Escape;
    assert Print(Value(VString, s), f, 1) == "\"" + Escape(s) + "\"";
  }

  lemma MembersEnd(ms: seq<Member>, name: string, s: string, tail: string, f: Format)
    requires MembersOk(ms) && Closed('\0', name) && NoComment(tail)
    ensures EndsIn(Clean("{" + (Newline(f) + (PrintMembers(ms, f, 0, true)
                                  + (PrintMember(Member(name, Value(VString, s)), f, 0, ms == []) + (tail + "}"))))), '}')
  {
    hide MembersOk, Closed, Clean, Newline, Separator, Spacing, PrintMembers, Quoted, Escape;
    BlankFormat(f, 0);
    var value := "\"" + Escape(s) + ("\"" + tail + "}");
    var member := PrintMember(Member(name, Value(VString, s)), f, 0, ms == []) + (tail + "}");
    MemberShape(name, s, f, ms == [], tail);
    StripPlain('{', Newline(f) + (PrintMembers(ms, f, 0, true) + member));
    StripBlank(Newline(f), PrintMembers(ms, f, 0, true) + member);
    StripMembers(ms, f, 0, true, member);
    StripSeparator(f, 0, ms == [], Quoted(name) + ([':'] + (Spacing(f) + value)));
    StripQuoted(name, [':'] + (Spacing(f) + value));
    StripPlain(':', Spacing(f) + value);
    StripBlank(Spacing(f), value);
    StringThenEnd(s, "\"" + tail, '}');
    EndsBehind([':'], Clean(value), '}');
    EndsBehind(Quoted(name), [':'] + Clean(value), '}');
    EndsBehind(Comma(ms == []), Quoted(name) + ([':'] + Clean(value)), '}');
    EndsBehind(CompactMembers(ms, true), Comma(ms == []) + (Quoted(name) + ([':'] + Clean(value))), '}');
    EndsBehind(['{'], CompactMembers(ms, true) + (Comma(ms == []) + (Quoted(name) + ([':'] + Clean(value)))), '}');
  }

  lemma ItemShape(s: string, f: Format, first: bool, tail: string)
    ensures PrintItem(Value(VString, s), f, 0, first) + (tail + "]")
            == Separator(f, 0, first) + ("\"" + Escape(s) + ("\"" + tail + "]"))
  {
    hide Separator, Escape;
    assert Print(Value(VString, s), f, 1) == "\"" + Escape(s) + "\"";
  }

  lemma ItemsEnd(ns: seq<Node>, s: string, tail: string, f: Format)
    requires ItemsOk(ns) && NoComment(tail)
    ensures EndsIn(Clean("[" + (Newline(f) + (PrintItems(ns, f, 0, true)
                                  + (PrintItem(Value(VString, s), f, 0, ns == []) + (tail + "]"))))), ']')
  {
    hide ItemsOk, Clean, Newline, Separator, PrintItems, Escape;
    BlankFormat(f, 0);
    var value := "\"" + Escape(s) + ("\"" + tail + "]");
    var item := PrintItem(Value(VString, s), f, 0, ns == []) + (tail + "]");
    assert item == Separator(f, 0, ns == []) + value by { ItemShape(s, f, ns == [], tail); }
    StripPlain('[', Newline(f) + (PrintItems(ns, f, 0, true) + item));
    StripBlank(Newline(f), PrintItems(ns, f, 0, true) + item);
    StripItems(ns, f, 0, true, item);
    StripSeparator(f, 0, ns == [], value);
    StringThenEnd(s, "\"" + tail, ']');
    EndsBehind(Comma(ns == []), Clean(value), ']');
    EndsBehind(CompactItems(ns, true), Comma(ns == []) + Clean(value), ']');
    EndsBehind(['['], CompactItems(ns, true) + (Comma(ns == []) + Clean(value)), ']');
  }

  /** The white space before a closing bracket, and a value that is no string, start no comment. */
  lemma TailsAreQuiet(f: Format, kind: ValueKind, text: string)
    requires kind != VString && ValueOk(kind, text)
    ensures NoComment(Newline(f) + Indentation(f, 0))
    ensures NoComment(PrintMember(Member("", Value(kind, text)), f, 0, false) + (Newline(f) + Indentation(f, 0)))
    ensures NoComment(PrintItem(Value(kind, text), f, 0, false) + (Newline(f) + Indentation(f, 0)))
  {
    BlankFormat(f, 0);
    BlankFormat(f, 1);
    hide Newline, Indentation, Spacing;
    assert NoComment(TextOf(kind, text));
    assert Print(Value(kind, text), f, 1) == TextOf(kind, text);
  }

  lemma NullOk()
    ensures ValueOk(VNull, "")
  {
  }

  lemma PrintedObject(ms: seq<Member>, f: Format)
    ensures Print(Object(ms), f, 0)
            == "{" + (Newline(f) + (PrintMembers(ms, f, 0, true) + (Newline(f) + Indentation(f, 0) + "}")))
  {
    hide Newline, Indentation, PrintMembers;
  }

  lemma PrintedArray(ns: seq<Node>, f: Format)
    ensures Print(Array(ns), f, 0)
            == "[" + (Newline(f) + (PrintItems(ns, f, 0, true) + (Newline(f) + Indentation(f, 0) + "]")))
  {
    hide Newline, Indentation, PrintItems;
  }

  lemma ObjectEnd(ms: seq<Member>, name: string, s: string, more: seq<Member>, f: Format)
    requires MembersOk(ms) && Closed('\0', name)
    requires more == [] || (more == [more[0]] && more[0].name == "" && more[0].node.Value?
                            && more[0].node.kind != VString && ValueOk(more[0].node.kind, more[0].node.text))
    ensures EndsIn(Clean(Print(Object(ms + [Member(name, Value(VString, s))] + more), f, 0)), '}')
  {
    hide MembersOk, Closed, Clean, Newline, Indentation, PrintMember, Print, ValueOk, NoComment, PrintMembers;
    var m, close := Member(name, Value(VString, s)), Newline(f) + Indentation(f, 0);
    var all := ms + [m] + more;
    var tail := (if more == [] then "" else PrintMember(more[0], f, 0, false)) + close;
    if more == [] {
      NullOk();
      TailsAreQuiet(f, VNull, "");
      assert all == ms + [m] && tail == close;
    } else {
      TailsAreQuiet(f, more[0].node.kind, more[0].node.text);
      assert more[0] == Member("", Value(more[0].node.kind, more[0].node.text));
      assert all == (ms + [m]) + [more[0]];
      MembersAppend(ms + [m], more[0], f, 0, true);
    }
    MembersAppend(ms, m, f, 0, true);
    PrintedObject(all, f);
    assert PrintMembers(all, f, 0, true) + (close + "}")
        == PrintMembers(ms, f, 0, true) + (PrintMember(m, f, 0, ms == []) + (tail + "}"));
    MembersEnd(ms, name, s, tail, f);
  }

  lemma ListEnd(ns: seq<Node>, s: string, more: seq<Node>, f: Format)
    requires ItemsOk(ns)
    requires more == [] || (more == [more[0]] && more[0].Value?
                            && more[0].kind != VString && ValueOk(more[0].kind, more[0].text))
    ensures EndsIn(Clean(Print(Array(ns + [Value(VString, s)] + more), f, 0)), ']')
  {
    hide ItemsOk, Clean, Newline, Indentation, PrintItem, Print, ValueOk, NoComment, PrintItems;
    var v, close := Value(VString, s), Newline(f) + Indentation(f, 0);
    var all := ns + [v] + more;
    var tail := (if more == [] then "" else PrintItem(more[0], f, 0, false)) + close;
    if more == [] {
      NullOk();
      TailsAreQuiet(f, VNull, "");
      assert all == ns + [v] && tail == close;
    } else {
      TailsAreQuiet(f, more[0].kind, more[0].text);
      assert more[0] == Value(more[0].kind, more[0].text);
      assert all == (ns + [v]) + [more[0]];
      ItemsAppend(ns + [v], more[0], f, 0, true);
    }
    ItemsAppend(ns, v, f, 0, true);
    PrintedArray(all, f);
    assert PrintItems(all, f, 0, true) + (close + "]")
        == PrintItems(ns, f, 0, true) + (PrintItem(v, f, 0, ns == []) + (tail + "]"));
    ItemsEnd(ns, s, tail, f);
  }

  lemma PrintedString(s: string, f: Format)
    ensures Print(Value(VString, s), f, 0) == "\"" + Escape(s) + ("" + ['"'])
  {
    hide Escape;
  }

  /** None of these trees prints as a text that ends in a backslash. */
  lemma ShapedEnd(sh: Shape, f: Format)
    requires ShapeOk(sh) && !sh.Good?
    ensures !EndsInBackslash(Clean(Print(Shaped(sh), f, 0)))
  {
    hide Clean, Print, Closed, ValueOk, MembersOk, ItemsOk;
    match sh
    case Alone(s) =>
      assert Print(Value(VString, s), f, 0) == "\"" + Escape(s) + ("" + ['"']) by { PrintedString(s, f); }
      StringThenEnd(s, "", '"');
    case Last(node, name, s) =>
      if node.Object? {
        ObjectEnd(node.members, name, s, [], f);
        assert node.members + [Member(name, Value(VString, s))] + [] == node.members + [Member(name, Value(VString, s))];
      } else {
        ListEnd(node.items, s, [], f);
        assert node.items + [Value(VString, s)] + [] == node.items + [Value(VString, s)];
      }
    case Before(node, name, s, k, t) =>
      if node.Object? {
        ObjectEnd(node.members, name, s, [Member("", Value(k, t))], f);
      } else {
        ListEnd(node.items, s, [Value(k, t)], f);
      }
  }

  // ---------- the exact condition ----------

  lemma EmptyIsGood(n: Node)
    ensures WellFormed(EmptyOf(n)) && GoodBuild(Build([], "", EmptyOf(n)))
  {
  }

  lemma GoodIsWellFormed(sh: Shape)
    requires ShapeOk(sh)
    ensures sh.Good? ==> WellFormed(Shaped(sh))
  {
  }

  lemma ReadOpen(n: Node, text: string) returns (sh: Shape)
    requires EndsInBackslash(text) && Assemble(TokensOf(text), Build([], "", EmptyOf(n))) == Done(n)
    ensures ShapeOk(sh) && n == Shaped(sh)
  {
    var start := Build([], "", EmptyOf(n));
    EmptyIsGood(n);
    AssembleKnown(TokensOf(text), start);
    var g, buf, body := TokensTail(text, "");
    StepsSynced(buf, body, ' ');
    var last := StringStep(buf, body);
    assert NoName(last);
    assert forall t | t in g.tokens :: t in Join(g, last).tokens;
    hide Tokens, Assemble, Synced, StringStep, Join, GoodBuild, GoodDatum, Shaped, ShapeOk, NoName;
    var b := AssemblePrefix(g, last, start);
    sh := AssembleTail(buf, body, b);
  }

  /** In every format, a tree survives printing and parsing exactly when it is well formed. */
  lemma RoundTripIff(n: Node, f: Format)
    ensures WellFormed(n) <==> Parse(EmptyOf(n), Print(n, f, 0)) == Done(n)
  {
    hide Clean, Print, WellFormed, Tokens, Assemble, Synced, Shaped, ShapeOk, StringStep, Join, Closed, GoodQueues;
    if WellFormed(n) {
      RoundTripEmpty(n, f);
    } else if Parse(EmptyOf(n), Print(n, f, 0)) == Done(n) {
      var text := Clean(Print(n, f, 0));
      if !EndsInBackslash(text) {
        EmptyIsGood(n);
        ReadIsWellFormed(EmptyOf(n), Print(n, f, 0));
      } else {
        var sh := ReadOpen(n, text);
        if !sh.Good? {
          ShapedEnd(sh, f);
        }
        GoodIsWellFormed(sh);
      }
    }
  }
}
