/**
  Which trees can be read at all: besides the well-formed ones, those that a text with an open string at
  its end leaves behind.
 */
module JzonReadable {
  import opened JzonText
  import opened JzonWriter
  import opened JzonParser
  import opened JzonRoundTrip
  import opened JzonImage
  import opened JzonExact

  // ---------- a string that is left open ----------

  function OpenString(s: string): string {
    "\"" + Escape(s)
  }

  lemma OpenSurvives(s: string)
    ensures Clean(OpenString(s)) == OpenString(s)
  {
    var text := OpenString(s);
    assert text[0] == '"' && text[1..] == Escape(s);
    var last := EscapedSurvives('"', s, "");
    assert Escape(s) + "" == Escape(s) && Strip(last, "", INSIDE) == "";
  }

  lemma ReadChar(prev: char, c: char, rest: string)
    requires prev == '\\' || c != '"'
    ensures ReadString(prev, [c] + rest) == ([c] + ReadString(c, rest).0, ReadString(c, rest).1)
  {
    assert ([c] + rest)[1..] == rest;
  }

  lemma ReadNothing(prev: char)
    ensures ReadString(prev, "") == ("", "")
  {
  }

  lemma PlainChar(c: char)
    requires Escaped(c) == '\0'
    ensures c != '"'
  {
  }

  /** No quote in an escaped text ends the string. */
  lemma {:induction false} ReadEscaped(prev: char, s: string)
    ensures ReadString(prev, Escape(s)) == (Escape(s), "")
    decreases |s|
  {
    hide ReadString, Escaped;
    if s == "" {
      ReadNothing(prev);
    } else {
      var c, rest := s[0], Escape(s[1..]);
      if Escaped(c) != '\0' {
        ReadEscaped(Escaped(c), s[1..]);
        ReadChar('\\', Escaped(c), rest);
        ReadChar(prev, '\\', [Escaped(c)] + rest);
        assert Escape(s) == ['\\'] + ([Escaped(c)] + rest);
      } else {
        PlainChar(c);
        ReadEscaped(c, s[1..]);
        ReadChar(prev, c, rest);
      }
    }
  }

  lemma LexOpen(buffer: string, s: string)
    ensures Tokens(OpenString(s), buffer) == StringStep(buffer, Escape(s))
  {
    var text := OpenString(s);
    assert text[0] == '"' && text[1..] == Escape(s);
    ReadEscaped('\0', s);
    TokensNothing();
    hide StringStep, Escape;
    JoinLaws(StringStep(buffer, Escape(s)), Lexed([], []), Lexed([], []));
  }

  /** Text that is neither a bracket nor a quote is buffered. */
  lemma {:induction false} LexInto(word: string, rest: string, buffer: string)
    requires rest != "" && forall c | c in word :: c != '"' && !IsBracket(c)
    ensures Tokens(word + rest, buffer) == Tokens(rest, buffer + word)
    decreases |word|
  {
    if word == "" {
      assert word + rest == rest && buffer + word == buffer;
    } else {
      var s := word + rest;
      assert s[0] == word[0] && s[1..] == word[1..] + rest && word[0] in word;
      assert forall c | c in word[1..] :: c in word;
      assert buffer + [word[0]] + word[1..] == buffer + word;
      LexInto(word[1..], rest, buffer + [word[0]]);
    }
  }

  // ---------- the ends of such texts ----------

  /** The text in front of the open string: none, or a value that is no string. */
  datatype Front = Nothing | Buffered(kind: ValueKind, text: string)

  predicate FrontOk(f: Front) {
    f.Buffered? ==> f.kind != VString && ValueOk(f.kind, f.text)
  }

  function TailText(f: Front, s: string): string {
    (if f.Nothing? then "" else TextOf(f.kind, f.text)) + OpenString(s)
  }

  /** The string comes first, although it was read last. */
  function TailTokens(f: Front, s: string): Lexed {
    var str := Lexed([ValueToken], [Datum(VString, Escape(s))]);
    if f.Nothing? then str else Join(str, Lexed([ValueToken], [Datum(f.kind, f.text)]))
  }

  lemma TailSurvives(f: Front, s: string)
    requires FrontOk(f)
    ensures Clean(TailText(f, s)) == TailText(f, s)
  {
    OpenSurvives(s);
    hide OpenString, TextOf, Clean;
    assert "" + OpenString(s) == OpenString(s);
    if f.Buffered? {
      StripValue(f.kind, f.text, OpenString(s));
    }
  }

  lemma LexTail(f: Front, s: string)
    requires FrontOk(f)
    ensures Lex(TailText(f, s)) == TailTokens(f, s)
  {
    hide TextOf, Escape, Tokens, Flush;
    assert "" + OpenString(s) == OpenString(s);
    if f.Nothing? {
      LexOpen("", s);
      NoFlush();
    } else {
      FlushValue(f.kind, f.text);
      var word := TextOf(f.kind, f.text);
      assert "" + word == word;
      LexInto(word, OpenString(s), "");
      LexOpen(word, s);
    }
  }

  /** What an open object or array becomes. */
  function Ended(node: Node, name: string, f: Front, s: string): Node {
    var n := AddChild(node, name, Value(VString, s));
    if f.Nothing? then n else AddChild(n, "", Value(f.kind, f.text))
  }

  lemma AssembleTailInside(f: Front, s: string, node: Node, name: string, root: Node)
    requires FrontOk(f)
    ensures Synced(TailTokens(f, s))
    ensures Assemble(TailTokens(f, s), Build([Open("", node)], name, root)) == Done(Ended(node, name, f, s))
  {
    UnescapeEscape(s);
    var d, b := Datum(VString, Escape(s)), Build([Open("", node)], name, root);
    hide Synced, Assemble, AddTop, Escape, Unescape;
    if f.Nothing? {
      LastValue(d, b);
      AddToRoot(b, name, ValueOf(d));
    } else {
      TwoValuesInside(d, Datum(f.kind, f.text), b);
    }
  }

  // ---------- their beginnings ----------

  function ObjectText(ms: seq<Member>, name: string, tail: string): string {
    ['{'] + (CompactMembers(ms, true) + ([','] + (Quoted(name) + ([':'] + tail))))
  }

  lemma ObjectSurvives(ms: seq<Member>, name: string, tail: string)
    requires MembersOk(ms) && Closed('\0', name) && Clean(tail) == tail
    ensures Clean(ObjectText(ms, name, tail)) == ObjectText(ms, name, tail)
  {
    hide MembersOk, Closed, Clean, CompactMembers, PrintMembers, Quoted;
    CompactMembersAreNoFormat(ms, 0, true);
    var named := [','] + (Quoted(name) + ([':'] + tail));
    StripPlain('{', CompactMembers(ms, true) + named);
    StripMembers(ms, NO_FORMAT, 0, true, named);
    StripPlain(',', Quoted(name) + ([':'] + tail));
    StripQuoted(name, [':'] + tail);
    StripPlain(':', tail);
  }

  lemma LexObject(ms: seq<Member>, name: string, tail: string)
    requires MembersOk(ms) && Closed('\0', name)
    ensures Lex(ObjectText(ms, name, tail)) ==
            Join(Lexed([ObjBegin], []),
                 Join(MemberTokens(ms, true), Join(Lexed([SeparatorNode], []), Join(NameTokens(name), Lex(tail)))))
  {
    hide MembersOk, Closed, Lex, CompactMembers, MemberTokens, Quoted, NameTokens, Join;
    var named := [','] + (Quoted(name) + ([':'] + tail));
    LexBracket('{', CompactMembers(ms, true) + named);
    LexMembers(ms, true, named);
    LexBracket(',', Quoted(name) + ([':'] + tail));
    LexName(name, tail);
  }

  lemma AssembleObjectText(ms: seq<Member>, name: string, l: Lexed)
    requires Synced(l)
    ensures var whole := Join(Lexed([ObjBegin], []),
                              Join(MemberTokens(ms, true), Join(Lexed([SeparatorNode], []), Join(NameTokens(name), l))));
            && Synced(whole)
            && Assemble(whole, Build([], "", Object([]))) == Assemble(l, Build([Open("", Object(ms))], name, Object([])))
  {
    hide Synced, Assemble, MemberTokens;
    var named := Join(NameTokens(name), l);
    var b := Build([Open("", Object([]))], "", Object([]));
    assert [] + ms == ms && WithMembers(b, ms) == Build([Open("", Object(ms))], "", Object([]));
    AssembleName(name, l, WithMembers(b, ms));
    AssembleToken(SeparatorNode, named, WithMembers(b, ms));
    AssembleMembers(ms, true, Join(Lexed([SeparatorNode], []), named), b);
    assert Begin(Build([], "", Object([])), Object([])) == b;
    AssembleToken(ObjBegin, Join(MemberTokens(ms, true), Join(Lexed([SeparatorNode], []), named)), Build([], "", Object([])));
  }

  function ArrayText(ns: seq<Node>, tail: string): string {
    ['['] + (CompactItems(ns, true) + ([','] + tail))
  }

  lemma ArraySurvives(ns: seq<Node>, tail: string)
    requires ItemsOk(ns) && Clean(tail) == tail
    ensures Clean(ArrayText(ns, tail)) == ArrayText(ns, tail)
  {
    hide ItemsOk, Clean, CompactItems, PrintItems;
    CompactItemsAreNoFormat(ns, 0, true);
    StripPlain('[', CompactItems(ns, true) + ([','] + tail));
    StripItems(ns, NO_FORMAT, 0, true, [','] + tail);
    StripPlain(',', tail);
  }

  lemma LexArray(ns: seq<Node>, tail: string)
    requires ItemsOk(ns)
    ensures Lex(ArrayText(ns, tail)) ==
            Join(Lexed([ArrayBegin], []), Join(ItemTokens(ns, true), Join(Lexed([SeparatorNode], []), Lex(tail))))
  {
    hide ItemsOk, Lex, CompactItems, ItemTokens, Join;
    LexBracket('[', CompactItems(ns, true) + ([','] + tail));
    LexItems(ns, true, [','] + tail);
    LexBracket(',', tail);
  }

  lemma AssembleArrayText(ns: seq<Node>, l: Lexed)
    requires Synced(l)
    ensures var whole := Join(Lexed([ArrayBegin], []), Join(ItemTokens(ns, true), Join(Lexed([SeparatorNode], []), l)));
            Synced(whole) && Assemble(whole, Build([], "", Array([]))) == Assemble(l, Build([Open("", Array(ns))], "", Array([])))
  {
    hide Synced, Assemble, ItemTokens;
    var b := Build([Open("", Array([]))], "", Array([]));
    assert [] + ns == ns && WithItems(b, ns) == Build([Open("", Array(ns))], "", Array([]));
    AssembleToken(SeparatorNode, l, WithItems(b, ns));
    AssembleItems(ns, true, Join(Lexed([SeparatorNode], []), l), b);
    assert Begin(Build([], "", Array([])), Array([])) == b;
    AssembleToken(ArrayBegin, Join(ItemTokens(ns, true), Join(Lexed([SeparatorNode], []), l)), Build([], "", Array([])));
  }

  // ---------- reading them ----------

  lemma OpenObjectReads(ms: seq<Member>, name: string, f: Front, s: string) returns (json: string)
    requires MembersOk(ms) && Closed('\0', name) && FrontOk(f)
    ensures Parse(Object([]), json) == Done(Ended(Object(ms), name, f, s))
  {
    var tail := TailText(f, s);
    json := ObjectText(ms, name, tail);
    TailSurvives(f, s);
    ObjectSurvives(ms, name, tail);
    LexObject(ms, name, tail);
    LexTail(f, s);
    AssembleTailInside(f, s, Object(ms), name, Object([]));
    AssembleObjectText(ms, name, TailTokens(f, s));
    hide MembersOk, Closed, Clean, Tokens, Assemble, Synced, MemberTokens, TailTokens, TailText, ObjectText, Join, NameTokens, Ended;
  }

  lemma OpenArrayReads(ns: seq<Node>, f: Front, s: string) returns (json: string)
    requires ItemsOk(ns) && FrontOk(f)
    ensures Parse(Array([]), json) == Done(Ended(Array(ns), "", f, s))
  {
    var tail := TailText(f, s);
    json := ArrayText(ns, tail);
    TailSurvives(f, s);
    ArraySurvives(ns, tail);
    LexArray(ns, tail);
    LexTail(f, s);
    AssembleTailInside(f, s, Array(ns), "", Array([]));
    AssembleArrayText(ns, TailTokens(f, s));
    hide ItemsOk, Clean, Tokens, Assemble, Synced, ItemTokens, TailTokens, TailText, ArrayText, Join, Ended;
  }

  lemma OpenStringReads(s: string)
    ensures Parse(Value(VNull, ""), OpenString(s)) == Done(Value(VString, s))
  {
    OpenSurvives(s);
    UnescapeEscape(s);
    LexOpen("", s);
    NoFlush();
    AssembleRootValue(Value(VNull, ""), Datum(VString, Escape(s)));
    hide Clean, Tokens, Assemble, Synced, OpenString, Escape, Unescape;
  }

  /** For example, an open string that is a single backslash: it is read, and does not survive. */
  lemma BackslashReads()
    ensures Parse(Value(VNull, ""), "\"\\") == Done(Value(VString, "\\"))
    ensures !WellFormed(Value(VString, "\\"))
  {
    var text := "\"\\";
    assert text[1..] == "\\" && text[1..][1..] == "";
    assert Clean(text) == text;
    TokensNothing();
    assert ReadString('\0', "\\") == ("\\", "");
    JoinLaws(StringStep("", "\\"), Lexed([], []), Lexed([], []));
    NoFlush();
    AssembleRootValue(Value(VNull, ""), Datum(VString, "\\"));
    assert "\\"[1..] == "" && Unescape("\\") == "\\";
    hide Assemble, Synced;
  }

  // ---------- the exact image ----------

  /** A well-formed tree, a string of any kind, or a container whose last child, or last but one before a
      value that is no string, is a string of any kind. */
  ghost predicate Readable(n: Node) {
    exists sh :: ShapeOk(sh) && n == Shaped(sh)
  }

  lemma ContainerReads(node: Node, name: string, f: Front, s: string) returns (json: string)
    requires WellFormed(node) && !node.Value? && Closed('\0', name) && FrontOk(f)
    ensures Parse(EmptyOf(Ended(node, name, f, s)), json) == Done(Ended(node, name, f, s))
  {
    hide Parse, FrontOk, Closed;
    if node.Object? {
      json := OpenObjectReads(node.members, name, f, s);
    } else {
      json := OpenArrayReads(node.items, f, s);
    }
  }

  lemma ShapeReads(sh: Shape) returns (json: string)
    requires ShapeOk(sh)
    ensures Parse(EmptyOf(Shaped(sh)), json) == Done(Shaped(sh))
  {
    hide Parse, Print, OpenString, Closed, ValueOk, WellFormed;
    match sh
    case Good(n) =>
      RoundTripEmpty(n, NO_FORMAT);
      json := Print(n, NO_FORMAT, 0);
    case Alone(s) =>
      OpenStringReads(s);
      json := OpenString(s);
    case Last(node, name, s) => json := ContainerReads(node, name, Nothing, s);
    case Before(node, name, s, k, t) => json := ContainerReads(node, name, Buffered(k, t), s);
  }

  lemma GoodShape(n: Node)
    requires WellFormed(n)
    ensures ShapeOk(Good(n)) && Shaped(Good(n)) == n
  {
  }

  lemma ReadsShaped(n: Node, json: string)
    requires Parse(EmptyOf(n), json) == Done(n)
    ensures Readable(n)
  {
    hide Clean, WellFormed, Shaped, ShapeOk, Tokens, Assemble;
    if EndsInBackslash(Clean(json)) {
      var sh := ReadOpen(n, Clean(json));
    } else {
      EmptyIsGood(n);
      ReadIsWellFormed(EmptyOf(n), json);
      GoodShape(n);
    }
  }

  /** These are exactly the trees that some text is read as, whatever its end. */
  lemma ReadableExactly(n: Node)
    ensures Readable(n) <==> exists json :: Parse(EmptyOf(n), json) == Done(n)
  {
    if Readable(n) {
      var sh :| ShapeOk(sh) && n == Shaped(sh);
      hide *;
      var json := ShapeReads(sh);
    }
    forall json | Parse(EmptyOf(n), json) == Done(n) ensures Readable(n) {
      ReadsShaped(n, json);
    }
  }
}
