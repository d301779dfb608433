/**
  Printing and parsing undo each other: structural recursion on trees on one side, two synchronized
  queues and an explicit stack on the other.
 */
module JzonRoundTrip {
  import opened JzonText
  import opened JzonWriter
  import opened JzonParser

  // ---------- the tokens of a tree ----------

  function DatumOf(kind: ValueKind, text: string): Datum {
    Datum(kind, if kind == VString then Escape(text) else text)
  }

  function TreeTokens(n: Node): Lexed
    decreases n, 1
  {
    match n
    case Value(k, t) => Lexed([ValueToken], [DatumOf(k, t)])
    case Object(ms) => Join(Join(Lexed([ObjBegin], []), MemberTokens(ms, true)), Lexed([ObjEnd], []))
    case Array(ns) => Join(Join(Lexed([ArrayBegin], []), ItemTokens(ns, true)), Lexed([ArrayEnd], []))
  }

  function CommaToken(first: bool): Lexed {
    Lexed(if first then [] else [SeparatorNode], [])
  }

  function NameTokens(name: string): Lexed {
    Lexed([ValueToken, SeparatorName], [Datum(VString, name)])
  }

  function MemberTokens(ms: seq<Member>, first: bool): Lexed
    decreases ms, 0
  {
    if ms == [] then Lexed([], [])
    else Join(CommaToken(first), Join(NameTokens(ms[0].name), Join(TreeTokens(ms[0].node), MemberTokens(ms[1..], false))))
  }

  function ItemTokens(ns: seq<Node>, first: bool): Lexed
    decreases ns, 0
  {
    if ns == [] then Lexed([], [])
    else Join(CommaToken(first), Join(TreeTokens(ns[0]), ItemTokens(ns[1..], false)))
  }

  // ---------- tokenizing the compact text ----------

  function Lex(s: string): Lexed {
    Tokens(s, "")
  }

  /** The text is at its end or at a character that ends a number or a word. */
  predicate AtBreak(rest: string) {
    rest == "" || IsBracket(rest[0])
  }

  lemma LexBracket(c: char, rest: string)
    requires IsBracket(c)
    ensures Lex([c] + rest) == Join(Lexed([Bracket(c)], []), Lex(rest))
  {
    var s := [c] + rest;
    assert s[0] == c && s[1..] == rest;
    NoFlush();
  }

  lemma {:induction false} ReadClosed(prev: char, body: string, rest: string)
    requires Closed(prev, body)
    ensures ReadString(prev, body + "\"" + rest) == (body, rest)
    decreases |body|
  {
    var s := body + "\"" + rest;
    if body == "" {
      assert s[0] == '"' && s[1..] == rest;
    } else {
      assert s[0] == body[0] && s[1..] == body[1..] + "\"" + rest;
      ReadClosed(body[0], body[1..], rest);
      assert [body[0]] + body[1..] == body;
    }
  }

  lemma LexQuoted(body: string, rest: string)
    requires Closed('\0', body)
    ensures Lex(Quoted(body) + rest) == Join(Lexed([ValueToken], [Datum(VString, body)]), Lex(rest))
  {
    var s := Quoted(body) + rest;
    assert s[0] == '"' && s[1..] == body + "\"" + rest;
    ReadClosed('\0', body, rest);
    NoFlush();
  }

  /** At its end or at a bracket the text behind the buffer is read as if nothing were buffered. */
  lemma LexBreak(buffer: string, rest: string)
    requires AtBreak(rest)
    ensures rest != "" ==> Tokens(rest, buffer) == Join(Flush(buffer), Lex(rest))
    ensures rest == "" ==> Lex(rest) == Lexed([], [])
  {
    NoFlush();
    hide Flush;
    if rest != "" {
      var step := Lexed([Bracket(rest[0])], []);
      JoinLaws(Flush(buffer), step, Lex(rest[1..]));
      assert BracketStep(buffer, rest[0]) == Join(Flush(buffer), step);
      assert BracketStep("", rest[0]) == step;
    }
  }

  lemma {:induction false} LexWord(buffer: string, word: string, rest: string)
    requires word != "" && AtBreak(rest) && forall c | c in word :: c != '"' && !IsBracket(c)
    ensures Tokens(word + rest, buffer) == Join(Flush(buffer + word), Lex(rest))
    decreases |word|
  {
    hide Flush;
    var s := word + rest;
    assert s[0] == word[0] && s[1..] == word[1..] + rest;
    NoFlush();
    if |word| > 1 {
      assert buffer + [word[0]] + word[1..] == buffer + word;
      assert forall c | c in word[1..] :: c in word;
      LexWord(buffer + [word[0]], word[1..], rest);
    } else {
      assert word == [word[0]] && s[1..] == rest;
      JoinLaws(Flush(buffer + word), Lexed([], []), Lexed([], []));
      LexBreak(buffer + word, rest);
    }
  }

  lemma NumberText(text: string)
    requires text != "" && AllNumber(text)
    ensures Interpret(text) == Datum(VNumber, text)
  {
    var u := Upper(text);
    assert text[0] in text && u[0] == ToUpper(text[0]) == text[0];
    assert "NULL"[0] == 'N' && "TRUE"[0] == 'T' && "FALSE"[0] == 'F';
  }

  lemma FlushValue(kind: ValueKind, text: string)
    requires ValueOk(kind, text) && kind != VString
    ensures Flush(TextOf(kind, text)) == Lexed([ValueToken], [Datum(kind, text)])
    ensures TextOf(kind, text) != "" && forall c | c in TextOf(kind, text) :: c != '"' && !IsBracket(c)
  {
    match kind
    case VNull => assert Upper("null") == "NULL";
    case VBool =>
      assert Upper("true") == "TRUE";
      assert Upper("false") == "FALSE";
    case VNumber => NumberText(text);
  }

  lemma LexValue(kind: ValueKind, text: string, rest: string)
    requires ValueOk(kind, text) && AtBreak(rest)
    ensures Lex(PrintValue(kind, text) + rest) == Join(Lexed([ValueToken], [DatumOf(kind, text)]), Lex(rest))
  {
    hide Flush, Tokens;
    if kind == VString {
      EscapeClosed('\0', text);
      LexQuoted(Escape(text), rest);
    } else {
      FlushValue(kind, text);
      assert "" + TextOf(kind, text) == TextOf(kind, text);
      LexWord("", TextOf(kind, text), rest);
    }
  }

  lemma LexComma(first: bool, rest: string)
    ensures Lex(Comma(first) + rest) == Join(CommaToken(first), Lex(rest))
  {
    hide Tokens;
    if first {
      assert Comma(first) + rest == rest;
      JoinLaws(Lexed([], []), Lexed([], []), Lex(rest));
    } else {
      LexBracket(',', rest);
    }
  }

  lemma JoinFour(a: Lexed, b: Lexed, c: Lexed, d: Lexed)
    ensures Join(a, Join(b, Join(c, d))) == Join(Join(Join(a, b), c), d)
  {
    JoinLaws(Join(a, b), c, d);
    JoinLaws(a, b, Join(c, d));
  }

  lemma {:induction false} LexTree(n: Node, rest: string)
    requires WellFormed(n) && AtBreak(rest)
    ensures Lex(Compact(n) + rest) == Join(TreeTokens(n), Lex(rest))
    decreases n, 1
  {
    hide Lex, Join;
    match n
    case Value(k, t) => LexValue(k, t, rest);
    case Object(ms) =>
      assert Compact(n) + rest == ['{'] + (CompactMembers(ms, true) + (['}'] + rest));
      LexBracket('{', CompactMembers(ms, true) + (['}'] + rest));
      LexMembers(ms, true, ['}'] + rest);
      LexBracket('}', rest);
      JoinFour(Lexed([ObjBegin], []), MemberTokens(ms, true), Lexed([ObjEnd], []), Lex(rest));
    case Array(ns) =>
      assert Compact(n) + rest == ['['] + (CompactItems(ns, true) + ([']'] + rest));
      LexBracket('[', CompactItems(ns, true) + ([']'] + rest));
      LexItems(ns, true, [']'] + rest);
      LexBracket(']', rest);
      JoinFour(Lexed([ArrayBegin], []), ItemTokens(ns, true), Lexed([ArrayEnd], []), Lex(rest));
  }

  lemma JoinLast(a: Lexed, b: Lexed, c: Lexed, d: Lexed, e: Lexed)
    ensures Join(a, Join(b, Join(c, Join(d, e)))) == Join(Join(a, Join(b, Join(c, d))), e)
  {
    JoinLaws(c, d, e);
    JoinLaws(b, Join(c, d), e);
    JoinLaws(a, Join(b, Join(c, d)), e);
  }

  lemma LexName(name: string, rest: string)
    requires Closed('\0', name)
    ensures Lex(Quoted(name) + ([':'] + rest)) == Join(NameTokens(name), Lex(rest))
  {
    hide Tokens;
    LexQuoted(name, [':'] + rest);
    LexBracket(':', rest);
    JoinLaws(Lexed([ValueToken], [Datum(VString, name)]), Lexed([SeparatorName], []), Lex(rest));
  }

  lemma MembersAtBreak(ms: seq<Member>, rest: string)
    requires AtBreak(rest)
    ensures AtBreak(CompactMembers(ms, false) + rest)
  {
    hide Compact;
    if ms == [] {
      assert CompactMembers(ms, false) + rest == rest;
    }
  }

  lemma {:induction false} LexMembers(ms: seq<Member>, first: bool, rest: string)
    requires MembersOk(ms) && rest != "" && IsBracket(rest[0])
    ensures Lex(CompactMembers(ms, first) + rest) == Join(MemberTokens(ms, first), Lex(rest))
    decreases ms, 0
  {
    hide Lex, Join, TreeTokens, Compact, Quoted, Closed;
    if ms == [] {
      assert CompactMembers(ms, first) + rest == rest;
      JoinLaws(Lexed([], []), Lexed([], []), Lex(rest));
    } else {
      var m, tail := ms[0], CompactMembers(ms[1..], false) + rest;
      MembersAtBreak(ms[1..], rest);
      assert CompactMembers(ms, first) + rest == Comma(first) + (Quoted(m.name) + ([':'] + (Compact(m.node) + tail)));
      LexComma(first, Quoted(m.name) + ([':'] + (Compact(m.node) + tail)));
      LexName(m.name, Compact(m.node) + tail);
      LexTree(m.node, tail);
      LexMembers(ms[1..], false, rest);
      JoinLast(CommaToken(first), NameTokens(m.name), TreeTokens(m.node), MemberTokens(ms[1..], false), Lex(rest));
    }
  }

  lemma ItemsAtBreak(ns: seq<Node>, rest: string)
    requires AtBreak(rest)
    ensures AtBreak(CompactItems(ns, false) + rest)
  {
    hide Compact;
    if ns == [] {
      assert CompactItems(ns, false) + rest == rest;
    }
  }

  lemma {:induction false} LexItems(ns: seq<Node>, first: bool, rest: string)
    requires ItemsOk(ns) && rest != "" && IsBracket(rest[0])
    ensures Lex(CompactItems(ns, first) + rest) == Join(ItemTokens(ns, first), Lex(rest))
    decreases ns, 0
  {
    hide Lex, Join, TreeTokens, Compact;
    if ns == [] {
      assert CompactItems(ns, first) + rest == rest;
      JoinLaws(Lexed([], []), Lexed([], []), Lex(rest));
    } else {
      var tail := CompactItems(ns[1..], false) + rest;
      ItemsAtBreak(ns[1..], rest);
      assert CompactItems(ns, first) + rest == Comma(first) + (Compact(ns[0]) + tail);
      LexComma(first, Compact(ns[0]) + tail);
      LexTree(ns[0], tail);
      LexItems(ns[1..], false, rest);
      JoinLaws(TreeTokens(ns[0]), ItemTokens(ns[1..], false), Lex(rest));
      JoinLaws(CommaToken(first), Join(TreeTokens(ns[0]), ItemTokens(ns[1..], false)), Lex(rest));
    }
  }

  // ---------- assembling the tokens of a tree ----------

  lemma BracketsSynced()
    ensures Synced(Lexed([], []))
    ensures forall t | t != ValueToken && t != Unknown :: Synced(Lexed([t], []))
    ensures forall d :: Synced(Lexed([ValueToken], [d]))
    ensures forall name :: Synced(NameTokens(name))
  {
    assert forall t: Token :: [t][1..] == [];
    assert [ValueToken, SeparatorName][1..] == [SeparatorName];
  }

  lemma {:induction false} TreeSynced(n: Node)
    ensures Synced(TreeTokens(n))
    decreases n, 1
  {
    BracketsSynced();
    hide Synced, Join;
    match n
    case Value(_, _) =>
    case Object(ms) =>
      MembersSynced(ms, true);
      JoinSynced(Lexed([ObjBegin], []), MemberTokens(ms, true));
      JoinSynced(Join(Lexed([ObjBegin], []), MemberTokens(ms, true)), Lexed([ObjEnd], []));
    case Array(ns) =>
      ItemsSynced(ns, true);
      JoinSynced(Lexed([ArrayBegin], []), ItemTokens(ns, true));
      JoinSynced(Join(Lexed([ArrayBegin], []), ItemTokens(ns, true)), Lexed([ArrayEnd], []));
  }

  lemma {:induction false} MembersSynced(ms: seq<Member>, first: bool)
    ensures Synced(MemberTokens(ms, first))
    decreases ms, 0
  {
    BracketsSynced();
    hide Synced, Join, TreeTokens, NameTokens;
    if ms != [] {
      var node, rest := TreeTokens(ms[0].node), MemberTokens(ms[1..], false);
      TreeSynced(ms[0].node);
      MembersSynced(ms[1..], false);
      JoinSynced(node, rest);
      JoinSynced(NameTokens(ms[0].name), Join(node, rest));
      JoinSynced(CommaToken(first), Join(NameTokens(ms[0].name), Join(node, rest)));
    }
  }

  lemma {:induction false} ItemsSynced(ns: seq<Node>, first: bool)
    ensures Synced(ItemTokens(ns, first))
    decreases ns, 0
  {
    BracketsSynced();
    hide Synced, Join, TreeTokens;
    if ns != [] {
      TreeSynced(ns[0]);
      ItemsSynced(ns[1..], false);
      JoinSynced(TreeTokens(ns[0]), ItemTokens(ns[1..], false));
      JoinSynced(CommaToken(first), Join(TreeTokens(ns[0]), ItemTokens(ns[1..], false)));
    }
  }

  /** The value before these tokens is a value, not a name. */
  predicate NoName(l: Lexed) {
    l.tokens != [] ==> l.tokens[0] != SeparatorName
  }

  lemma AssembleToken(t: Token, l: Lexed, b: Build)
    requires Synced(l) && t != ValueToken && t != Unknown
    ensures Synced(Join(Lexed([t], []), l))
    ensures var r := OneStep(t, l, b);
            r.Go? ==> Synced(r.next) && Assemble(Join(Lexed([t], []), l), b) == Assemble(r.next, r.build)
  {
    BracketsSynced();
    JoinSynced(Lexed([t], []), l);
    var whole := Join(Lexed([t], []), l);
    assert whole.tokens[0] == t && whole.(tokens := whole.tokens[1..]) == l;
    hide OneStep, Synced;
    StepSynced(whole, b);
  }

  lemma AssembleValue(d: Datum, l: Lexed, b: Build)
    requires Synced(l) && NoName(l) && b.stack != []
    ensures Synced(Join(Lexed([ValueToken], [d]), l))
    ensures Assemble(Join(Lexed([ValueToken], [d]), l), b)
            == Assemble(l, Build(AddTop(b.stack, b.name, ValueOf(d)), "", b.root))
  {
    BracketsSynced();
    JoinSynced(Lexed([ValueToken], [d]), l);
    var whole := Join(Lexed([ValueToken], [d]), l);
    assert whole.tokens[0] == ValueToken && whole.data[0] == d && whole.tokens[1..] == l.tokens && whole.data[1..] == l.data;
    hide AddTop, ValueOf, Synced;
    StepSynced(whole, b);
  }

  lemma AssembleName(name: string, l: Lexed, b: Build)
    requires Synced(l)
    ensures Synced(Join(NameTokens(name), l))
    ensures Assemble(Join(NameTokens(name), l), b) == Assemble(l, b.(name := name))
  {
    BracketsSynced();
    JoinSynced(NameTokens(name), l);
    var whole := Join(NameTokens(name), l);
    assert whole.tokens == [ValueToken, SeparatorName] + l.tokens;
    assert whole.tokens[1..][0] == SeparatorName && whole.tokens[1..][1..] == l.tokens;
    assert whole.data[0] == Datum(VString, name) && whole.data[1..] == l.data;
    hide AddTop, ValueOf, Synced;
    StepSynced(whole, b);
  }

  lemma AssembleComma(first: bool, l: Lexed, b: Build)
    requires Synced(l)
    ensures Synced(Join(CommaToken(first), l)) && Assemble(Join(CommaToken(first), l), b) == Assemble(l, b)
  {
    hide Assemble, Synced;
    if first {
      JoinLaws(Lexed([], []), Lexed([], []), l);
    } else {
      AssembleToken(SeparatorNode, l, b);
    }
  }

  predicate InContainer(b: Build) {
    b.stack != [] && !b.stack[|b.stack| - 1].node.Value?
  }

  /** Inside an open object or array the tokens of a tree add that tree. */
  lemma {:induction false} AssembleTree(n: Node, l: Lexed, b: Build)
    requires Synced(l) && NoName(l) && InContainer(b)
    ensures Synced(Join(TreeTokens(n), l))
    ensures Assemble(Join(TreeTokens(n), l), b) == Assemble(l, Build(AddTop(b.stack, b.name, n), "", b.root))
    decreases n, 1
  {
    hide Assemble, Synced, Join, AddTop;
    match n
    case Value(k, t) =>
      UnescapeEscape(t);
      AssembleValue(DatumOf(k, t), l, b);
    case Object(ms) =>
      AssembleObject(ms, l, Build(b.stack + [Open(b.name, Object([]))], "", b.root));
      assert [] + ms == ms && (b.stack + [Open(b.name, Object([]))])[..|b.stack|] == b.stack;
      JoinFour(Lexed([ObjBegin], []), MemberTokens(ms, true), Lexed([ObjEnd], []), l);
      AssembleToken(ObjBegin, Join(MemberTokens(ms, true), Join(Lexed([ObjEnd], []), l)), b);
    case Array(ns) =>
      AssembleArray(ns, l, Build(b.stack + [Open(b.name, Array([]))], "", b.root));
      assert [] + ns == ns && (b.stack + [Open(b.name, Array([]))])[..|b.stack|] == b.stack;
      JoinFour(Lexed([ArrayBegin], []), ItemTokens(ns, true), Lexed([ArrayEnd], []), l);
      AssembleToken(ArrayBegin, Join(ItemTokens(ns, true), Join(Lexed([ArrayEnd], []), l)), b);
  }

  /** The topmost node of `b` with more members or items. */
  function WithMembers(b: Build, ms: seq<Member>): Build
    requires b.stack != [] && b.stack[|b.stack| - 1].node.Object?
  {
    var i := |b.stack| - 1;
    var top := b.stack[i];
    b.(stack := b.stack[..i] + [top.(node := Object(top.node.members + ms))], name := "")
  }

  function WithItems(b: Build, ns: seq<Node>): Build
    requires b.stack != [] && b.stack[|b.stack| - 1].node.Array?
  {
    var i := |b.stack| - 1;
    var top := b.stack[i];
    b.(stack := b.stack[..i] + [top.(node := Array(top.node.items + ns))], name := "")
  }

  /** An object's remaining tokens, to its closing bracket. */
  lemma {:induction false} AssembleObject(ms: seq<Member>, l: Lexed, b: Build)
    requires Synced(l) && b.stack != [] && b.stack[|b.stack| - 1].node.Object? && b.name == ""
    requires |b.stack| > 1 ==> !b.stack[|b.stack| - 2].node.Value?
    ensures var whole := Join(MemberTokens(ms, true), Join(Lexed([ObjEnd], []), l));
            Synced(whole) && Assemble(whole, b) == Assemble(l, End(WithMembers(b, ms)))
    decreases ms, 1
  {
    hide Assemble, Synced, End;
    AssembleToken(ObjEnd, l, WithMembers(b, ms));
    assert Join(Lexed([ObjEnd], []), l).tokens[0] == ObjEnd;
    AssembleMembers(ms, true, Join(Lexed([ObjEnd], []), l), b);
  }

  lemma {:induction false} AssembleArray(ns: seq<Node>, l: Lexed, b: Build)
    requires Synced(l) && b.stack != [] && b.stack[|b.stack| - 1].node.Array? && b.name == ""
    requires |b.stack| > 1 ==> !b.stack[|b.stack| - 2].node.Value?
    ensures var whole := Join(ItemTokens(ns, true), Join(Lexed([ArrayEnd], []), l));
            Synced(whole) && Assemble(whole, b) == Assemble(l, End(WithItems(b, ns)))
    decreases ns, 1
  {
    hide Assemble, Synced, End;
    AssembleToken(ArrayEnd, l, WithItems(b, ns));
    assert Join(Lexed([ArrayEnd], []), l).tokens[0] == ArrayEnd;
    AssembleItems(ns, true, Join(Lexed([ArrayEnd], []), l), b);
  }

  lemma {:induction false} AssembleMembers(ms: seq<Member>, first: bool, l: Lexed, b: Build)
    requires Synced(l) && NoName(l) && b.stack != [] && b.stack[|b.stack| - 1].node.Object? && b.name == ""
    ensures Synced(Join(MemberTokens(ms, first), l))
    ensures Assemble(Join(MemberTokens(ms, first), l), b) == Assemble(l, WithMembers(b, ms))
    decreases ms, 0
  {
    hide Assemble, Synced, TreeTokens;
    if ms == [] {
      JoinLaws(Lexed([], []), Lexed([], []), l);
      assert b.stack[|b.stack| - 1].node.members + [] == b.stack[|b.stack| - 1].node.members;
      assert WithMembers(b, []) == b;
    } else {
      var m, rest := ms[0], Join(MemberTokens(ms[1..], false), l);
      var next := WithMembers(b, [m]);
      assert b.stack[|b.stack| - 1].node.members + [m] + ms[1..] == b.stack[|b.stack| - 1].node.members + ms;
      assert WithMembers(next, ms[1..]) == WithMembers(b, ms);
      AssembleMembers(ms[1..], false, l, next);
      AssembleTree(m.node, rest, b.(name := m.name));
      AssembleName(m.name, Join(TreeTokens(m.node), rest), b);
      AssembleComma(first, Join(NameTokens(m.name), Join(TreeTokens(m.node), rest)), b);
      JoinLast(CommaToken(first), NameTokens(m.name), TreeTokens(m.node), MemberTokens(ms[1..], false), l);
    }
  }

  lemma {:induction false} AssembleItems(ns: seq<Node>, first: bool, l: Lexed, b: Build)
    requires Synced(l) && NoName(l) && b.stack != [] && b.stack[|b.stack| - 1].node.Array? && b.name == ""
    ensures Synced(Join(ItemTokens(ns, first), l))
    ensures Assemble(Join(ItemTokens(ns, first), l), b) == Assemble(l, WithItems(b, ns))
    decreases ns, 0
  {
    hide Assemble, Synced, TreeTokens;
    if ns == [] {
      JoinLaws(Lexed([], []), Lexed([], []), l);
      assert b.stack[|b.stack| - 1].node.items + [] == b.stack[|b.stack| - 1].node.items;
      assert WithItems(b, []) == b;
    } else {
      var rest, next := Join(ItemTokens(ns[1..], false), l), WithItems(b, [ns[0]]);
      assert b.stack[|b.stack| - 1].node.items + [ns[0]] + ns[1..] == b.stack[|b.stack| - 1].node.items + ns;
      assert WithItems(next, ns[1..]) == WithItems(b, ns);
      AssembleItems(ns[1..], false, l, next);
      AssembleTree(ns[0], rest, b);
      AssembleComma(first, Join(TreeTokens(ns[0]), rest), b);
      JoinLaws(TreeTokens(ns[0]), ItemTokens(ns[1..], false), l);
      JoinLaws(CommaToken(first), Join(TreeTokens(ns[0]), ItemTokens(ns[1..], false)), l);
    }
  }

  // ---------- the round trip ----------

  /** What reading `n` into `root` should leave there: containers keep what they had. */
  function Merged(root: Node, n: Node): Node
    requires SameKind(root, n)
  {
    match n
    case Object(ms) => Object(root.members + ms)
    case Array(ns) => Array(root.items + ns)
    case Value(_, _) => n
  }

  lemma AssembleRootValue(root: Node, d: Datum)
    requires root.Value?
    ensures Synced(Lexed([ValueToken], [d]))
    ensures Assemble(Lexed([ValueToken], [d]), Build([], "", root)) == Done(ValueOf(d))
  {
    BracketsSynced();
    var l, b := Lexed([ValueToken], [d]), Build([Open("", ValueOf(d))], "", root);
    assert l.tokens[1..] == [] && l.data[1..] == [];
    assert OneStep(ValueToken, Lexed([], [d]), Build([], "", root)) == Go(Lexed([], []), b);
    hide Synced, ValueOf;
    StepSynced(l, Build([], "", root));
    assert Assemble(Lexed([], []), b) == Done(RootOf(b));
  }

  lemma AssembleEnd(b: Build)
    ensures Synced(Lexed([], [])) && Assemble(Lexed([], []), b) == Done(RootOf(b))
  {
  }

  lemma AssembleRootObject(root: Node, ms: seq<Member>)
    requires root.Object?
    ensures Synced(TreeTokens(Object(ms)))
    ensures Assemble(TreeTokens(Object(ms)), Build([], "", root)) == Done(Object(root.members + ms))
  {
    TreeSynced(Object(ms));
    BracketsSynced();
    hide Synced, Join, Assemble;
    var none, b := Lexed([], []), Build([Open("", root)], "", root);
    JoinLaws(TreeTokens(Object(ms)), none, none);
    JoinFour(Lexed([ObjBegin], []), MemberTokens(ms, true), Lexed([ObjEnd], []), none);
    AssembleObject(ms, none, b);
    assert Begin(Build([], "", root), Object([])) == b;
    AssembleToken(ObjBegin, Join(MemberTokens(ms, true), Join(Lexed([ObjEnd], []), none)), Build([], "", root));
    AssembleEnd(End(WithMembers(b, ms)));
  }

  lemma AssembleRootArray(root: Node, ns: seq<Node>)
    requires root.Array?
    ensures Synced(TreeTokens(Array(ns)))
    ensures Assemble(TreeTokens(Array(ns)), Build([], "", root)) == Done(Array(root.items + ns))
  {
    TreeSynced(Array(ns));
    BracketsSynced();
    hide Synced, Join, Assemble;
    var none, b := Lexed([], []), Build([Open("", root)], "", root);
    JoinLaws(TreeTokens(Array(ns)), none, none);
    JoinFour(Lexed([ArrayBegin], []), ItemTokens(ns, true), Lexed([ArrayEnd], []), none);
    AssembleArray(ns, none, b);
    assert Begin(Build([], "", root), Array([])) == b;
    AssembleToken(ArrayBegin, Join(ItemTokens(ns, true), Join(Lexed([ArrayEnd], []), none)), Build([], "", root));
    AssembleEnd(End(WithItems(b, ns)));
  }

  lemma AssembleRoot(root: Node, n: Node)
    requires SameKind(root, n)
    ensures Synced(TreeTokens(n)) && Assemble(TreeTokens(n), Build([], "", root)) == Done(Merged(root, n))
  {
    hide Synced, Join, Assemble;
    match n
    case Value(k, t) =>
      UnescapeEscape(t);
      AssembleRootValue(root, DatumOf(k, t));
    case Object(ms) => AssembleRootObject(root, ms);
    case Array(ns) => AssembleRootArray(root, ns);
  }

  lemma LexEnd()
    ensures Lex("") == Lexed([], [])
  {
  }

  /** Parsing what was written, in any format, into a root of the same kind adds the tree to it. */
  lemma RoundTrip(root: Node, n: Node, f: Format)
    requires WellFormed(n) && SameKind(root, n)
    ensures Parse(root, Print(n, f, 0)) == Done(Merged(root, n))
  {
    hide Print, Compact, Tokens, TreeTokens, Assemble, Merged;
    FormatIndependent(n, f);
    CompactIsNoFormat(n, 0);
    LexTree(n, "");
    assert Compact(n) + "" == Compact(n);
    TokensSynced("", "");
    LexEnd();
    JoinLaws(TreeTokens(n), Lexed([], []), Lexed([], []));
    AssembleRoot(root, n);
  }

  function EmptyOf(n: Node): Node {
    match n
    case Object(_) => Object([])
    case Array(_) => Array([])
    case Value(_, _) => Value(VNull, "")
  }

  lemma RoundTripEmpty(n: Node, f: Format)
    requires WellFormed(n)
    ensures Parse(EmptyOf(n), Print(n, f, 0)) == Done(n)
  {
    hide Parse, Print;
    RoundTrip(EmptyOf(n), n, f);
    match n
    case Object(ms) => assert [] + ms == ms;
    case Array(ns) => assert [] + ns == ns;
    case Value(_, _) =>
  }
}
