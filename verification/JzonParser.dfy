/**
  Jzon's parser: a tokenizer that fills two queues, one of tokens and one of the data behind them, and
  a stack machine that empties both while it builds the tree.
 */
module JzonParser {
  import opened JzonText
  import opened JzonWriter

  datatype Token =
    | Unknown | ObjBegin | ObjEnd | ArrayBegin | ArrayEnd | SeparatorNode | SeparatorName | ValueToken

  datatype Datum = Datum(kind: ValueKind, text: string)

  /** The two queues. */
  datatype Lexed = Lexed(tokens: seq<Token>, data: seq<Datum>)

  function Join(a: Lexed, b: Lexed): Lexed {
    Lexed(a.tokens + b.tokens, a.data + b.data)
  }

  /** How many entries of the data queue the tokens stand for. */
  function DataCount(ts: seq<Token>): nat {
    if ts == [] then 0 else (if ts[0] == ValueToken || ts[0] == Unknown then 1 else 0) + DataCount(ts[1..])
  }

  lemma {:induction false} DataCountConcat(a: seq<Token>, b: seq<Token>)
    ensures DataCount(a + b) == DataCount(a) + DataCount(b)
  {
    if a == [] {
      assert a + b == b;
    } else {
      assert (a + b)[1..] == a[1..] + b;
      DataCountConcat(a[1..], b);
    }
  }

  predicate Synced(l: Lexed) {
    |l.data| == DataCount(l.tokens)
  }

  // ---------- tokens ----------

  function ToUpper(c: char): char {
    if 'a' <= c <= 'z' then c - 'a' + 'A' else c
  }

  function Upper(s: string): string {
    seq(|s|, i requires 0 <= i < |s| => ToUpper(s[i]))
  }

  predicate AllNumber(s: string) {
    forall c | c in s :: IsNumberChar(c)
  }

  /** interpretValue; text that is not understood counts as a string. */
  function Interpret(s: string): (d: Datum)
    ensures d.kind == VString ==> d.text == s
  {
    if Upper(s) == "NULL" then Datum(VNull, "")
    else if Upper(s) == "TRUE" then Datum(VBool, "true")
    else if Upper(s) == "FALSE" then Datum(VBool, "false")
    else if AllNumber(s) then Datum(VNumber, s)
    else Datum(VString, s)
  }

  /** What the buffered characters become; text that is not understood is kept for the error message. */
  function Flush(buffer: string): Lexed {
    if buffer == "" then Lexed([], [])
    else Lexed([if Interpret(buffer).kind == VString then Unknown else ValueToken], [Interpret(buffer)])
  }

  function Bracket(c: char): Token {
    if c == '{' then ObjBegin
    else if c == '}' then ObjEnd
    else if c == '[' then ArrayBegin
    else if c == ']' then ArrayEnd
    else if c == ',' then SeparatorNode
    else if c == ':' then SeparatorName
    else Unknown
  }

  predicate IsBracket(c: char) {
    c == '{' || c == '}' || c == '[' || c == ']' || c == ',' || c == ':'
  }

  /** The characters up to the closing quote, and what follows it. */
  function ReadString(prev: char, s: string): (r: (string, string))
    ensures |r.1| <= |s|
    decreases |s|
  {
    if s == "" then ("", "")
    else if prev != '\\' && s[0] == '"' then ("", s[1..])
    else
      var r := ReadString(s[0], s[1..]);
      ([s[0]] + r.0, r.1)
  }

  /** What one step of the tokenizer pushes at a quote or a bracket. */
  function StringStep(buffer: string, str: string): Lexed {
    Lexed(Flush(buffer).tokens + [ValueToken], [Datum(VString, str)] + Flush(buffer).data)
  }

  function BracketStep(buffer: string, c: char): Lexed {
    Lexed(Flush(buffer).tokens + [Bracket(c)], Flush(buffer).data)
  }

  /** The queues for `s`, with `buffer` read before it.  The datum of a string comes before the datum
      of text that was still buffered, although its token comes after. */
  function Tokens(s: string, buffer: string): Lexed
    decreases |s|
  {
    if s == "" then Lexed([], [])
    else if s[0] == '"' then
      var r := ReadString('\0', s[1..]);
      Join(StringStep(buffer, r.0), Tokens(r.1, ""))
    else if IsBracket(s[0]) then Join(BracketStep(buffer, s[0]), Tokens(s[1..], ""))
    else if |s| == 1 then Flush(buffer + [s[0]])
    else Tokens(s[1..], buffer + [s[0]])
  }

  lemma JoinSynced(a: Lexed, b: Lexed)
    requires Synced(a) && Synced(b)
    ensures Synced(Join(a, b))
  {
    DataCountConcat(a.tokens, b.tokens);
  }

  lemma StepsSynced(buffer: string, str: string, c: char)
    ensures Synced(Flush(buffer)) && Synced(StringStep(buffer, str))
    ensures IsBracket(c) ==> Synced(BracketStep(buffer, c))
  {
    hide Interpret;
    DataCountConcat(Flush(buffer).tokens, [ValueToken]);
    DataCountConcat(Flush(buffer).tokens, [Bracket(c)]);
  }

  lemma NothingSynced()
    ensures Synced(Lexed([], []))
  {
  }

  /** For every input, the data queue gets exactly one entry for each token that needs one. */
  lemma {:induction false} TokensSynced(s: string, buffer: string)
    ensures Synced(Tokens(s, buffer))
    decreases |s|
  {
    hide Synced, Flush, StringStep, BracketStep, Join;
    if s == "" {
      NothingSynced();
    } else {
      var r := ReadString('\0', s[1..]);
      StepsSynced(buffer, r.0, s[0]);
      StepsSynced(buffer + [s[0]], "", s[0]);
      if s[0] == '"' {
        TokensSynced(r.1, "");
        JoinSynced(StringStep(buffer, r.0), Tokens(r.1, ""));
      } else if IsBracket(s[0]) {
        TokensSynced(s[1..], "");
        JoinSynced(BracketStep(buffer, s[0]), Tokens(s[1..], ""));
      } else if |s| > 1 {
        TokensSynced(s[1..], buffer + [s[0]]);
      }
    }
  }

  // ---------- the stack machine ----------

  /** An open node, with the name under which it will be added to the node below it. */
  datatype Open = Open(name: string, node: Node)

  datatype Build = Build(stack: seq<Open>, name: string, root: Node)

  datatype Assembled = Done(root: Node) | Error(message: string, root: Node)

  datatype StepResult = Go(next: Lexed, build: Build) | Halt(message: string, at: Build)

  function AddChild(parent: Node, name: string, child: Node): Node {
    match parent
    case Object(ms) => Object(ms + [Member(name, child)])
    case Array(ns) => Array(ns + [child])
    case Value(_, _) => parent
  }

  /** Adds to the topmost open node; a value there takes nothing. */
  function AddTop(stack: seq<Open>, name: string, child: Node): seq<Open>
    requires stack != []
  {
    var top := stack[|stack| - 1];
    stack[..|stack| - 1] + [top.(node := AddChild(top.node, name, child))]
  }

  /** The caller's node: the bottom of the stack while there is one. */
  function RootOf(b: Build): Node {
    if b.stack == [] then b.root else b.stack[0].node
  }

  /** An object or array begins: the root if nothing is open, else a new node. */
  function Begin(b: Build, fresh_: Node): Build {
    Build(b.stack + [Open(b.name, if b.stack == [] then b.root else fresh_)], "", b.root)
  }

  predicate SameKind(a: Node, b: Node) {
    a.Object? == b.Object? && a.Array? == b.Array? && a.Value? == b.Value?
  }

  /** The topmost node is complete: it goes into the node below it, or it was the root. */
  function End(b: Build): Build
    requires b.stack != []
  {
    var n := |b.stack| - 1;
    var top, below := b.stack[n], b.stack[..n];
    if below == [] then Build([], b.name, top.node) else b.(stack := AddTop(below, top.name, top.node))
  }

  /** What the value token stands for. */
  function ValueOf(d: Datum): Node {
    if d.kind == VString then Value(VString, Unescape(d.text)) else Value(d.kind, d.text)
  }

  function OpenNode(l: Lexed, b: Build, fresh_: Node, message: string): StepResult {
    if b.stack == [] && !SameKind(b.root, fresh_) then Halt(message, b) else Go(l, Begin(b, fresh_))
  }

  function CloseNode(l: Lexed, b: Build, token: Token): StepResult {
    if b.stack == [] then Halt("Found end of object or array without beginning", b)
    else
      var top, below := b.stack[|b.stack| - 1].node, b.stack[..|b.stack| - 1];
      if token == ObjEnd && !top.Object? then Halt("Mismatched end and beginning of object", b)
      else if token == ArrayEnd && !top.Array? then Halt("Mismatched end and beginning of array", b)
      else if below != [] && below[|below| - 1].node.Value? then
        Halt("Can only add elements to objects and arrays", b.(stack := below))
      else Go(l, End(b))
  }

  function TakeValue(l: Lexed, b: Build): StepResult
    requires l.data != []
  {
    var rest := l.(data := l.data[1..]);
    if l.tokens != [] && l.tokens[0] == SeparatorName then
      if l.data[0].kind != VString then Halt("A name has to be a string", b)
      else Go(rest.(tokens := l.tokens[1..]), b.(name := l.data[0].text))
    else if b.stack != [] then Go(rest, Build(AddTop(b.stack, b.name, ValueOf(l.data[0])), "", b.root))
    else if !b.root.Value? then Halt("The given root node is not a value", b)
    else Go(rest, Build([Open(b.name, ValueOf(l.data[0]))], "", b.root))
  }

  /** One turn of the loop; `l` are the queues behind `token`. */
  function OneStep(token: Token, l: Lexed, b: Build): (r: StepResult)
    requires token == ValueToken || token == Unknown ==> l.data != []
    ensures r.Go? ==> |r.next.tokens| <= |l.tokens|
  {
    match token
    case Unknown => Halt("Unknown token: " + l.data[0].text, b)
    case ObjBegin => OpenNode(l, b, Object([]), "The given root node is not an object")
    case ArrayBegin => OpenNode(l, b, Array([]), "The given root node is not an array")
    case ObjEnd | ArrayEnd => CloseNode(l, b, token)
    case SeparatorNode | SeparatorName => Go(l, b)
    case ValueToken => TakeValue(l, b)
  }

  lemma StepSynced(l: Lexed, b: Build)
    requires Synced(l) && l.tokens != []
    ensures l.tokens[0] == ValueToken || l.tokens[0] == Unknown ==> l.data != []
    ensures var r := OneStep(l.tokens[0], l.(tokens := l.tokens[1..]), b); r.Go? ==> Synced(r.next)
  {
    hide AddTop, ValueOf, Begin, End;
    if |l.tokens| > 1 {
      assert DataCount(l.tokens[1..]) ==
             (if l.tokens[1] == ValueToken || l.tokens[1] == Unknown then 1 else 0) + DataCount(l.tokens[1..][1..]);
    }
  }

  function Assemble(l: Lexed, b: Build): Assembled
    requires Synced(l)
    decreases |l.tokens|
  {
    if l.tokens == [] then Done(RootOf(b))
    else
      StepSynced(l, b);
      match OneStep(l.tokens[0], l.(tokens := l.tokens[1..]), b)
      case Go(l', b') => Assemble(l', b')
      case Halt(m, b') => Error(m, RootOf(b'))
  }

  function TokensOf(s: string): (l: Lexed)
    ensures Synced(l)
  {
    TokensSynced(s, "");
    Tokens(s, "")
  }

  /** Parsing `json` into the node `root`. */
  function Parse(root: Node, json: string): Assembled {
    Assemble(TokensOf(Clean(json)), Build([], "", root))
  }

  // ---------- what is accepted ----------

  /** Each character is one of those given for its place. */
  predicate Spells(s: string, choices: seq<string>) {
    |s| == |choices| && forall i | 0 <= i < |s| :: s[i] in choices[i]
  }

  lemma SpellsUpper(s: string, word: string, choices: seq<string>)
    requires |word| == |choices| && forall i | 0 <= i < |word| :: 'A' <= word[i] <= 'Z' && choices[i] == [word[i] - 'A' + 'a', word[i]]
    ensures Upper(s) == word <==> Spells(s, choices)
  {
    if Spells(s, choices) {
      assert forall i | 0 <= i < |s| :: s[i] in choices[i] && Upper(s)[i] == word[i];
    }
    if Upper(s) == word {
      forall i | 0 <= i < |s| ensures s[i] in choices[i] {
        assert Upper(s)[i] == word[i];
      }
    }
  }

  /** What unquoted text means: the three words in any case, or digits, points and minus signs. */
  lemma InterpretIff(s: string)
    ensures Interpret(s)
            == if Spells(s, ["nN", "uU", "lL", "lL"]) then Datum(VNull, "")
               else if Spells(s, ["tT", "rR", "uU", "eE"]) then Datum(VBool, "true")
               else if Spells(s, ["fF", "aA", "lL", "sS", "eE"]) then Datum(VBool, "false")
               else if forall c | c in s :: c in "0123456789.-" then Datum(VNumber, s)
               else Datum(VString, s)
  {
    forall c ensures IsNumberChar(c) <==> c in "0123456789.-" {
      NumberChars(c);
    }
    hide IsNumberChar;
    SpellsUpper(s, "NULL", ["nN", "uU", "lL", "lL"]);
    SpellsUpper(s, "TRUE", ["tT", "rR", "uU", "eE"]);
    SpellsUpper(s, "FALSE", ["fF", "aA", "lL", "sS", "eE"]);
  }

  /** The brackets open so far, from the outermost one on; true stands for a brace. */
  predicate Matching(ts: seq<Token>, open: seq<bool>) {
    if ts == [] then true
    else if ts[0] == ObjBegin then Matching(ts[1..], open + [true])
    else if ts[0] == ArrayBegin then Matching(ts[1..], open + [false])
    else if ts[0] == ObjEnd || ts[0] == ArrayEnd then
      open != [] && open[|open| - 1] == (ts[0] == ObjEnd) && Matching(ts[1..], open[..|open| - 1])
    else Matching(ts[1..], open)
  }

  /** The containers on the stack. */
  function Opened(stack: seq<Open>): seq<bool> {
    if stack == [] then []
    else
      var n := |stack| - 1;
      Opened(stack[..n]) + if stack[n].node.Value? then [] else [stack[n].node.Object?]
  }

  lemma OpenedLast(stack: seq<Open>, top: Open)
    ensures Opened(stack + [top]) == Opened(stack) + if top.node.Value? then [] else [top.node.Object?]
  {
    assert (stack + [top])[..|stack|] == stack;
  }

  lemma AddTopOpened(stack: seq<Open>, name: string, child: Node)
    requires stack != []
    ensures Opened(AddTop(stack, name, child)) == Opened(stack)
  {
    var n := |stack| - 1;
    OpenedLast(stack[..n], stack[n].(node := AddChild(stack[n].node, name, child)));
  }

  lemma MatchingSkips(ts: seq<Token>, open: seq<bool>)
    requires ts != [] && ts[0] !in {ObjBegin, ObjEnd, ArrayBegin, ArrayEnd}
    ensures Matching(ts, open) == Matching(ts[1..], open)
  {
  }

  lemma OpenedValue(name: string, n: Node)
    requires n.Value?
    ensures Opened([Open(name, n)]) == [] && Opened([]) == []
  {
  }

  lemma ValueOpened(l: Lexed, b: Build)
    requires l.data != [] && TakeValue(l, b).Go?
    ensures var r := TakeValue(l, b);
            Opened(r.build.stack) == Opened(b.stack) && (forall open :: Matching(r.next.tokens, open) == Matching(l.tokens, open))
  {
    hide AddTop, Opened;
    if l.tokens != [] && l.tokens[0] == SeparatorName {
      forall open ensures Matching(l.tokens[1..], open) == Matching(l.tokens, open) {
        MatchingSkips(l.tokens, open);
      }
    } else if b.stack != [] {
      AddTopOpened(b.stack, b.name, ValueOf(l.data[0]));
    } else {
      OpenedValue(b.name, ValueOf(l.data[0]));
    }
  }

  lemma BeginOpened(b: Build, fresh_: Node)
    requires !fresh_.Value? && (b.stack == [] ==> SameKind(b.root, fresh_))
    ensures Opened(Begin(b, fresh_).stack) == Opened(b.stack) + [fresh_.Object?]
  {
    OpenedLast(b.stack, Open(b.name, if b.stack == [] then b.root else fresh_));
  }

  lemma EndOpened(b: Build)
    requires b.stack != [] && !b.stack[|b.stack| - 1].node.Value?
    ensures var open := Opened(b.stack);
            open != [] && open[|open| - 1] == b.stack[|b.stack| - 1].node.Object? && Opened(End(b).stack) == open[..|open| - 1]
  {
    var n := |b.stack| - 1;
    var top, below := b.stack[n], b.stack[..n];
    assert b.stack == below + [top];
    OpenedLast(below, top);
    if below != [] {
      AddTopOpened(below, top.name, top.node);
    }
  }

  /** Text is accepted only if every closing bracket in it closes the innermost open one, which is of its kind. */
  lemma {:induction false} AcceptedMatches(l: Lexed, b: Build)
    requires Synced(l) && Assemble(l, b).Done?
    ensures Matching(l.tokens, Opened(b.stack))
    decreases |l.tokens|
  {
    hide Opened, Begin, End, TakeValue, Synced;
    if l.tokens != [] {
      var token, rest := l.tokens[0], l.(tokens := l.tokens[1..]);
      StepSynced(l, b);
      var r := OneStep(token, rest, b);
      AcceptedMatches(r.next, r.build);
      match token
      case ObjBegin => BeginOpened(b, Object([]));
      case ArrayBegin => BeginOpened(b, Array([]));
      case ObjEnd | ArrayEnd => EndOpened(b);
      case ValueToken => ValueOpened(rest, b);
      case _ =>
    }
  }

  lemma ParseMatches(root: Node, json: string)
    requires Parse(root, json).Done?
    ensures Matching(TokensOf(Clean(json)).tokens, [])
  {
    AcceptedMatches(TokensOf(Clean(json)), Build([], "", root));
  }

  // ---------- one turn of the tokenizer ----------

  /** What one turn of the tokenizer pushes, and what is still to come. */
  function TurnStep(s: string, buffer: string): Lexed
    requires s != ""
  {
    if s[0] == '"' then StringStep(buffer, ReadString('\0', s[1..]).0)
    else if IsBracket(s[0]) then BracketStep(buffer, s[0])
    else if |s| == 1 then Flush(buffer + [s[0]])
    else Lexed([], [])
  }

  function TurnRest(s: string, buffer: string): Lexed
    requires s != ""
  {
    if s[0] == '"' then Tokens(ReadString('\0', s[1..]).1, "")
    else if IsBracket(s[0]) then Tokens(s[1..], "")
    else if |s| == 1 then Lexed([], [])
    else Tokens(s[1..], buffer + [s[0]])
  }

  lemma JoinLaws(a: Lexed, b: Lexed, c: Lexed)
    ensures Join(Join(a, b), c) == Join(a, Join(b, c))
    ensures Join(Lexed([], []), c) == c && Join(a, Lexed([], [])) == a
  {
  }

  lemma TokensStep(s: string, buffer: string)
    requires s != ""
    ensures Tokens(s, buffer) == Join(TurnStep(s, buffer), TurnRest(s, buffer))
  {
    hide Flush, StringStep, BracketStep, ReadString;
    JoinLaws(Flush(buffer + [s[0]]), Lexed([], []), Lexed([], []));
    JoinLaws(Lexed([], []), Lexed([], []), TurnRest(s, buffer));
  }

  lemma TokensEnd(buffer: string)
    ensures Tokens("", buffer) == Lexed([], [])
  {
  }

  lemma ReadStep(prev: char, s: string)
    ensures ReadString(prev, s) ==
            if s == "" then ("", "")
            else if prev != '\\' && s[0] == '"' then ("", s[1..])
            else ([s[0]] + ReadString(s[0], s[1..]).0, ReadString(s[0], s[1..]).1)
  {
  }

  lemma NoFlush()
    ensures Flush("") == Lexed([], [])
  {
  }

  // ---------- the parser as it runs ----------

  class Parser {
    var json: string
    var tokens: seq<Token>
    var data: seq<Datum>
    var cursor: nat
    var root: Node
    var error: string

    constructor (root: Node, json: string)
      ensures this.root == root && this.json == Clean(json) && tokens == [] && data == [] && error == ""
    {
      this.root := root;
      tokens, data, cursor, error := [], [], 0, "";
      new;
      this.json := RemoveWhitespace(json);
    }

    /** Both queues as they will be when the text from `at` on is read as well. */
    ghost function Ahead(at: nat, buffer: string): Lexed
      reads this
    {
      Join(Lexed(tokens, data), if at <= |json| then Tokens(json[at..], buffer) else Lexed([], []))
    }

    method InterpretValue(value: string) returns (known: bool)
      modifies this`data
      ensures known <==> Interpret(value).kind != VString
      ensures data == old(data) + if known then [Interpret(value)] else []
    {
      if Upper(value) == "NULL" {
        data := data + [Datum(VNull, "")];
      } else if Upper(value) == "TRUE" {
        data := data + [Datum(VBool, "true")];
      } else if Upper(value) == "FALSE" {
        data := data + [Datum(VBool, "false")];
      } else {
        var number := true;
        for i := 0 to |value|
          invariant number
          invariant forall j | 0 <= j < i :: IsNumberChar(value[j])
        {
          if !IsNumberChar(value[i]) {
            assert value[i] in value;
            return false;
          }
        }
        data := data + [Datum(VNumber, value)];
      }
      known := true;
    }

    /** Pushes what the buffered characters stand for; always called with some. */
    method SaveBuffer(buffer: string)
      requires buffer != ""
      modifies this`tokens, this`data
      ensures tokens == old(tokens) + Flush(buffer).tokens && data == old(data) + Flush(buffer).data
    {
      var known := InterpretValue(buffer);
      if known {
        tokens := tokens + [ValueToken];
      } else {
        data := data + [Datum(VString, buffer)];
        tokens := tokens + [Unknown];
      }
    }

    /** Reads the string whose opening quote is at the cursor, and stops at its closing quote. */
    method ReadStringAt()
      requires cursor < |json| && json[cursor] == '"'
      modifies this`cursor, this`data
      ensures var r := ReadString('\0', json[old(cursor) + 1..]);
              && data == old(data) + [Datum(VString, r.0)]
              && old(cursor) < cursor <= |json|
              && r.1 == if cursor < |json| then json[cursor + 1..] else ""
    {
      var str, c1 := "", '\0';
      cursor := cursor + 1;
      ghost var r := ReadString(c1, json[cursor..]);
      hide ReadString;
      assert str + r.0 == r.0;
      while cursor < |json|
        invariant old(cursor) < cursor <= |json| && data == old(data)
        invariant r == (str + ReadString(c1, json[cursor..]).0, ReadString(c1, json[cursor..]).1)
      {
        var c2 := json[cursor];
        assert json[cursor..][1..] == json[cursor + 1..];
        ReadStep(c1, json[cursor..]);
        if c1 != '\\' && c2 == '"' {
          break;
        }
        assert str + ([c2] + ReadString(c2, json[cursor + 1..]).0) == str + [c2] + ReadString(c2, json[cursor + 1..]).0;
        str := str + [c2];
        c1 := c2;
        cursor := cursor + 1;
      }
      ReadStep(c1, "");
      assert str + "" == str;
      data := data + [Datum(VString, str)];
    }

    /** One turn of the loop: the queues and what is still to come stay the same together. */
    method NextToken(buffer0: string) returns (buffer: string)
      requires cursor < |json|
      modifies this`tokens, this`data, this`cursor
      ensures cursor > old(cursor) && Ahead(cursor, buffer) == old(Ahead(cursor, buffer0))
    {
      hide Flush, Interpret, ReadString, Tokens;
      buffer := buffer0;
      var c, saveBuffer := json[cursor], true;
      ghost var s, before := json[cursor..], Lexed(tokens, data);
      assert s[0] == c && s[1..] == json[cursor + 1..];
      NoFlush();
      TokensStep(s, buffer0);
      if IsBracket(c) {
      } else if c == '"' {
        ReadStringAt();
      } else {
        buffer := buffer + [c];
        saveBuffer := false;
      }
      if (saveBuffer || cursor + 1 == |json|) && buffer != "" {
        SaveBuffer(buffer);
        buffer := "";
      }
      if saveBuffer {
        tokens := tokens + [if c == '"' then ValueToken else Bracket(c)];
      }
      cursor := cursor + 1;
      TokensEnd(buffer);
      assert Lexed(tokens, data) == Join(before, TurnStep(s, buffer0));
      JoinLaws(before, TurnStep(s, buffer0), TurnRest(s, buffer0));
    }

    method Tokenize()
      requires tokens == [] && data == [] && cursor == 0
      modifies this`tokens, this`data, this`cursor
      ensures Lexed(tokens, data) == TokensOf(json)
    {
      hide Tokens;
      var buffer := "";
      assert json[0..] == json;
      JoinLaws(Lexed([], []), Lexed([], []), Tokens(json, ""));
      while cursor < |json|
        invariant Ahead(cursor, buffer) == TokensOf(json)
        decreases |json| - cursor
      {
        buffer := NextToken(buffer);
      }
      TokensEnd(buffer);
      assert cursor == |json| ==> json[cursor..] == "";
      JoinLaws(Lexed(tokens, data), Lexed([], []), Lexed([], []));
    }

    method Close(token: Token, stack0: seq<Open>, ghost name: string) returns (success: bool, stack: seq<Open>)
      requires token == ObjEnd || token == ArrayEnd
      modifies this`root, this`error
      ensures match CloseNode(Lexed(tokens, data), Build(stack0, name, old(root)), token)
              case Go(l, b) => success && Lexed(tokens, data) == l && Build(stack, name, root) == b
              case Halt(m, b) => !success && error == m && Build(stack, name, root) == b
    {
      hide AddTop;
      stack, success := stack0, false;
      if stack == [] {
        error := "Found end of object or array without beginning";
        return;
      }
      var top := stack[|stack| - 1];
      if token == ObjEnd && !top.node.Object? {
        error := "Mismatched end and beginning of object";
        return;
      }
      if token == ArrayEnd && !top.node.Array? {
        error := "Mismatched end and beginning of array";
        return;
      }
      stack := stack[..|stack| - 1];
      if stack == [] {
        root := top.node;
      } else if stack[|stack| - 1].node.Value? {
        error := "Can only add elements to objects and arrays";
        return;
      } else {
        stack := AddTop(stack, top.name, top.node);
      }
      success := true;
    }

    method Take(stack0: seq<Open>, name0: string) returns (success: bool, stack: seq<Open>, name: string)
      requires data != []
      modifies this`tokens, this`data, this`error
      ensures match TakeValue(Lexed(old(tokens), old(data)), Build(stack0, name0, root))
              case Go(l, b) => success && Lexed(tokens, data) == l && Build(stack, name, root) == b
              case Halt(m, b) => !success && error == m && Build(stack, name, root) == b
    {
      hide AddTop;
      stack, name, success := stack0, name0, true;
      if tokens != [] && tokens[0] == SeparatorName {
        tokens := tokens[1..];
        if data[0].kind != VString {
          error := "A name has to be a string";
          success := false;
        } else {
          name := data[0].text;
          data := data[1..];
        }
      } else if stack == [] && !root.Value? {
        error := "The given root node is not a value";
        success := false;
      } else {
        var node := Value(data[0].kind, data[0].text);
        if data[0].kind == VString {
          var text := UnescapeString(data[0].text);
          node := Value(VString, text);
        }
        data := data[1..];
        stack := if stack != [] then AddTop(stack, name, node) else [Open(name, node)];
        name := "";
      }
    }

    method Step(token: Token, stack0: seq<Open>, name0: string) returns (success: bool, stack: seq<Open>, name: string)
      requires token == ValueToken || token == Unknown ==> data != []
      modifies this`tokens, this`data, this`root, this`error
      ensures match OneStep(token, Lexed(old(tokens), old(data)), Build(stack0, name0, old(root)))
              case Go(l, b) => success && Lexed(tokens, data) == l && Build(stack, name, root) == b
              case Halt(m, b) => !success && error == m && Build(stack, name, root) == b
    {
      hide AddTop;
      stack, name, success := stack0, name0, true;
      match token {
        case Unknown =>
          error := "Unknown token: " + data[0].text;
          data := data[1..];
          success := false;
        case ObjBegin =>
          if stack == [] && !root.Object? {
            error := "The given root node is not an object";
            success := false;
          } else {
            stack := stack + [Open(name, if stack == [] then root else Object([]))];
            name := "";
          }
        case ArrayBegin =>
          if stack == [] && !root.Array? {
            error := "The given root node is not an array";
            success := false;
          } else {
            stack := stack + [Open(name, if stack == [] then root else Array([]))];
            name := "";
          }
        case ObjEnd | ArrayEnd =>
          success, stack := Close(token, stack, name);
        case SeparatorNode | SeparatorName =>
        case ValueToken =>
          success, stack, name := Take(stack, name);
      }
    }

    /** Empties both queues; neither is ever read when it has no entry. */
    method AssembleNodes() returns (success: bool)
      requires Synced(Lexed(tokens, data))
      modifies this`tokens, this`data, this`root, this`error
      ensures match Assemble(Lexed(old(tokens), old(data)), Build([], "", old(root)))
              case Done(r) => success && root == r
              case Error(m, r) => !success && root == r && error == m
    {
      hide OneStep, RootOf;
      var stack: seq<Open>, name := [], "";
      ghost var result := Assemble(Lexed(tokens, data), Build([], "", root));
      while tokens != []
        invariant Synced(Lexed(tokens, data))
        invariant result == Assemble(Lexed(tokens, data), Build(stack, name, root))
        decreases |tokens|
      {
        StepSynced(Lexed(tokens, data), Build(stack, name, root));
        var token := tokens[0];
        tokens := tokens[1..];
        success, stack, name := Step(token, stack, name);
        if !success {
          root := RootOf(Build(stack, name, root));
          return;
        }
      }
      root := RootOf(Build(stack, name, root));
      success := true;
    }

    method Parse() returns (success: bool)
      requires tokens == [] && data == []
      modifies this
      ensures match Assemble(TokensOf(old(json)), Build([], "", old(root)))
              case Done(r) => success && root == r
              case Error(m, r) => !success && root == r && error == m
    {
      cursor := 0;
      Tokenize();
      success := AssembleNodes();
    }
  }
}
