/**
  The layout of printed text, read off the text itself: brackets are counted and strings are skipped, character by
  character.
 */
module JzonLayout {
  import opened JzonText
  import opened JzonWriter

  // ---------- a reader of printed text ----------

  datatype Mode = Outside | InString | Escaping

  datatype State = State(depth: int, mode: Mode)

  predicate Opens(c: char) {
    c == '{' || c == '['
  }

  predicate Closes(c: char) {
    c == '}' || c == ']'
  }

  predicate Leads(c: char) {
    Opens(c) || c == ','
  }

  function Step(st: State, c: char): State {
    match st.mode
    case InString => if c == '\\' then st.(mode := Escaping) else if c == '"' then st.(mode := Outside) else st
    case Escaping => st.(mode := InString)
    case Outside =>
      if c == '"' then st.(mode := InString)
      else if Opens(c) then st.(depth := st.depth + 1)
      else if Closes(c) then st.(depth := st.depth - 1)
      else st
  }

  /** The brackets open in front of position `i`, and whether it is in a string. */
  function At(w: string, i: nat): State
    requires i <= |w|
  {
    if i == 0 then State(0, Outside) else Step(At(w, i - 1), w[i - 1])
  }

  /** How many characters `c` stand from position `i` on. */
  function Run(w: string, i: nat, c: char): (k: nat)
    requires i <= |w|
    ensures i + k <= |w|
    decreases |w| - i
  {
    if i < |w| && w[i] == c then 1 + Run(w, i + 1, c) else 0
  }

  /** How many characters `c` stand directly in front of position `i`. */
  function RunBack(w: string, i: nat, c: char): (k: nat)
    requires i <= |w|
    ensures k <= i
  {
    if i > 0 && w[i - 1] == c then 1 + RunBack(w, i - 1, c) else 0
  }

  predicate Blank(c: char) {
    c == ' ' || c == '\t' || c == '\n'
  }

  function IndentChar(f: Format): char {
    if f.useTabs then '\t' else ' '
  }

  // ---------- where blanks stand ----------

  /** A line break is only there with `newline`.  Behind it stand exactly `indentSize` indentation characters for every
      bracket open, not counting one that is closed there; or it is the first of the two in an empty container. */
  predicate BreakOk(w: string, i: nat, f: Format, depth: int)
    requires i < |w|
  {
    && f.newline
    && ((0 < i < |w| - 1 && Opens(w[i - 1]) && w[i + 1] == '\n')
        || var k := Run(w, i + 1, IndentChar(f));
           && i + 1 + k < |w| && !Blank(w[i + 1 + k])
           && k == f.indentSize * (if Closes(w[i + 1 + k]) then depth - 1 else depth))
  }

  /** Behind an opening bracket or a comma the line ends, or a space follows. */
  predicate OpenOk(w: string, i: nat, f: Format)
    requires i < |w|
  {
    i + 1 < |w| && if f.newline then w[i + 1] == '\n' else if f.spacing then w[i + 1] == ' ' else !Blank(w[i + 1])
  }

  predicate ColonOk(w: string, i: nat, f: Format)
    requires i < |w|
  {
    if f.spacing then i + 2 < |w| && w[i + 1] == ' ' && !Blank(w[i + 2]) else i + 1 < |w| && !Blank(w[i + 1])
  }

  /** A closing bracket is the first of its line, or a space is in front of it. */
  predicate CloseOk(w: string, i: nat, f: Format, depth: int)
    requires i < |w|
  {
    if f.newline then
      var k := RunBack(w, i, IndentChar(f));
      k < i && w[i - 1 - k] == '\n' && k == f.indentSize * (depth - 1)
    else i > 0 && if f.spacing then w[i - 1] == ' ' else !Blank(w[i - 1])
  }

  /** Any other blank is part of an indentation, or the space that `spacing` puts behind a colon and, without
      `newline`, behind an opening bracket or a comma and in front of a closing bracket. */
  predicate BlankOk(w: string, i: nat, f: Format)
    requires i < |w|
  {
    || (f.newline && w[i] == IndentChar(f)
        && var k := RunBack(w, i, IndentChar(f)); k < i && w[i - 1 - k] == '\n')
    || (f.spacing && w[i] == ' ' && i > 0 && w[i - 1] == ':')
    || (f.spacing && !f.newline && w[i] == ' ' && 0 < i < |w| - 1
        && (Leads(w[i - 1]) || Closes(w[i + 1])))
  }

  predicate PlaceOk(w: string, i: nat, f: Format)
    requires i < |w|
  {
    At(w, i).mode.Outside? ==>
      && (w[i] == '\n' ==> BreakOk(w, i, f, At(w, i).depth))
      && (Leads(w[i]) ==> OpenOk(w, i, f))
      && (w[i] == ':' ==> ColonOk(w, i, f))
      && (Closes(w[i]) ==> CloseOk(w, i, f, At(w, i).depth))
      && ((w[i] == ' ' || w[i] == '\t') ==> BlankOk(w, i, f))
  }

  predicate LaidOut(w: string, f: Format) {
    forall i | 0 <= i < |w| :: PlaceOk(w, i, f)
  }

  predicate Between(w: string, i: nat, j: nat, f: Format)
    requires j <= |w|
  {
    forall k | i <= k < j :: PlaceOk(w, k, f)
  }

  // ---------- trees whose strings can be told from the rest ----------

  /** The body of a string: a backslash takes the next character with it, and other quotes do not occur. */
  predicate Body(s: string) {
    s == ""
    || (s[0] == '\\' && |s| > 1 && Body(s[2..]))
    || (s[0] != '\\' && s[0] != '"' && Body(s[1..]))
  }

  predicate PlainText(t: string) {
    forall c | c in t :: c !in "\"{}[],: \t\n"
  }

  predicate TextOk(kind: ValueKind, text: string) {
    kind == VString || kind == VNull || (text != "" && PlainText(text))
  }

  /** Names, which are written as they are, are bodies of strings, and numbers and booleans consist of other
      characters. */
  predicate Readable(n: Node)
    decreases n, 1
  {
    match n
    case Object(ms) => MembersReadable(ms)
    case Array(ns) => ItemsReadable(ns)
    case Value(k, t) => TextOk(k, t)
  }

  predicate MembersReadable(ms: seq<Member>)
    decreases ms, 0
  {
    ms != [] ==> Body(ms[0].name) && Readable(ms[0].node) && MembersReadable(ms[1..])
  }

  predicate ItemsReadable(ns: seq<Node>)
    decreases ns, 0
  {
    ns != [] ==> Readable(ns[0]) && ItemsReadable(ns[1..])
  }

  // ---------- pieces of a text ----------

  /** `p` stands in `w` at position `i`. */
  predicate Has(w: string, i: nat, p: string) {
    i + |p| <= |w| && w[i..i + |p|] == p
  }

  lemma HasSplit(w: string, i: nat, p: string, q: string)
    requires Has(w, i, p + q)
    ensures Has(w, i, p) && Has(w, i + |p|, q)
  {
    assert w[i..i + |p|] == (p + q)[..|p|] && w[i + |p|..i + |p| + |q|] == (p + q)[|p|..];
  }

  lemma HasFits(w: string, i: nat, p: string)
    requires Has(w, i, p)
    ensures i + |p| <= |w|
  {
  }

  lemma HasAt(w: string, i: nat, p: string, k: nat)
    requires Has(w, i, p) && k < |p|
    ensures w[i + k] == p[k]
  {
    assert w[i..i + |p|][k] == w[i + k];
  }

  /** A text is read from one state to another, and all its blanks stand where they should. */
  predicate Laid(w: string, i: nat, j: nat, f: Format, before: State, after: State) {
    i <= j <= |w| && At(w, i) == before && At(w, j) == after && Between(w, i, j, f)
  }

  lemma LaidJoin(w: string, i: nat, j: nat, k: nat, f: Format, x: State, y: State, z: State)
    requires Laid(w, i, j, f, x, y) && Laid(w, j, k, f, y, z)
    ensures Laid(w, i, k, f, x, z)
  {
    hide At, PlaceOk;
  }

  lemma LaidOne(w: string, i: nat, f: Format, st: State)
    requires i < |w| && At(w, i) == st && PlaceOk(w, i, f)
    ensures Laid(w, i, i + 1, f, st, Step(st, w[i]))
  {
  }

  lemma AnyPlace(w: string, i: nat, f: Format)
    requires i < |w| && (At(w, i).mode.Outside? ==> w[i] !in "{}[],: \t\n")
    ensures PlaceOk(w, i, f)
  {
  }

  /** A character inside a string, or one that may stand anywhere. */
  lemma CharLaid(w: string, i: nat, c: char, f: Format, st: State)
    requires Has(w, i, [c]) && At(w, i) == st && (st.mode.Outside? ==> c !in "{}[],: \t\n")
    ensures Laid(w, i, i + 1, f, st, Step(st, c))
  {
    hide At;
    assert w[i..i + 1][0] == c;
    AnyPlace(w, i, f);
    hide PlaceOk;
    LaidOne(w, i, f, st);
  }

  lemma LaidNone(w: string, i: nat, f: Format, st: State)
    requires i <= |w| && At(w, i) == st
    ensures Laid(w, i, i, f, st, st)
  {
  }

  // ---------- strings and other values ----------

  lemma {:induction false} EscapeBody(s: string)
    ensures Body(Escape(s))
  {
    if s != "" {
      EscapeBody(s[1..]);
      assert Escape(s)[|EscapeChar(s[0])|..] == Escape(s[1..]);
    }
  }

  lemma HasNothing(w: string, i: nat)
    requires Has(w, i, "")
    ensures i <= |w|
  {
  }

  lemma {:induction false} BodyLaid(w: string, i: nat, b: string, f: Format, depth: int)
    requires Has(w, i, b) && Body(b) && At(w, i) == State(depth, InString)
    ensures Laid(w, i, i + |b|, f, State(depth, InString), State(depth, InString))
    decreases |b|
  {
    hide Between, At, Has;
    var st, escaping := State(depth, InString), State(depth, Escaping);
    if b == "" {
      HasNothing(w, i);
      LaidNone(w, i, f, st);
    } else if b[0] == '\\' {
      assert b == [b[0]] + ([b[1]] + b[2..]);
      HasSplit(w, i, [b[0]], [b[1]] + b[2..]);
      HasSplit(w, i + 1, [b[1]], b[2..]);
      CharLaid(w, i, b[0], f, st);
      CharLaid(w, i + 1, b[1], f, escaping);
      LaidJoin(w, i, i + 1, i + 2, f, st, escaping, st);
      BodyLaid(w, i + 2, b[2..], f, depth);
      LaidJoin(w, i, i + 2, i + |b|, f, st, st, st);
    } else {
      assert b == [b[0]] + b[1..];
      HasSplit(w, i, [b[0]], b[1..]);
      CharLaid(w, i, b[0], f, st);
      BodyLaid(w, i + 1, b[1..], f, depth);
      LaidJoin(w, i, i + 1, i + |b|, f, st, st, st);
    }
  }

  lemma QuotedParts(b: string)
    ensures Quoted(b) == ['"'] + (b + ['"'])
  {
  }

  lemma OpenQuote(depth: int)
    ensures Step(State(depth, Outside), '"') == State(depth, InString)
    ensures Step(State(depth, InString), '"') == State(depth, Outside)
  {
  }

  lemma EndOf(w: string, i: nat, j: nat, f: Format, x: State, y: State)
    requires Laid(w, i, j, f, x, y)
    ensures i <= j <= |w| && At(w, j) == y
  {
  }

  lemma QuotedLaid(w: string, i: nat, b: string, f: Format, depth: int)
    requires Has(w, i, Quoted(b)) && Body(b) && At(w, i) == State(depth, Outside)
    ensures Laid(w, i, i + |b| + 2, f, State(depth, Outside), State(depth, Outside))
  {
    var out, inside := State(depth, Outside), State(depth, InString);
    hide *;
    QuotedParts(b);
    HasSplit(w, i, ['"'], b + ['"']);
    HasSplit(w, i + 1, b, ['"']);
    CharLaid(w, i, '"', f, out);
    OpenQuote(depth);
    EndOf(w, i, i + 1, f, out, inside);
    BodyLaid(w, i + 1, b, f, depth);
    EndOf(w, i + 1, i + |b| + 1, f, inside, inside);
    CharLaid(w, i + |b| + 1, '"', f, inside);
    LaidJoin(w, i, i + 1, i + |b| + 1, f, out, inside, inside);
    LaidJoin(w, i, i + |b| + 1, i + |b| + 2, f, out, inside, out);
  }

  lemma {:induction false} TextLaid(w: string, i: nat, t: string, f: Format, depth: int)
    requires Has(w, i, t) && At(w, i) == State(depth, Outside) && PlainText(t)
    ensures Laid(w, i, i + |t|, f, State(depth, Outside), State(depth, Outside))
    decreases |t|
  {
    hide Between, At, Has;
    var st := State(depth, Outside);
    if t == "" {
      HasNothing(w, i);
      LaidNone(w, i, f, st);
    } else {
      assert t[0] in t && t == [t[0]] + t[1..];
      HasSplit(w, i, [t[0]], t[1..]);
      CharLaid(w, i, t[0], f, st);
      TextLaid(w, i + 1, t[1..], f, depth);
      LaidJoin(w, i, i + 1, i + |t|, f, st, st, st);
    }
  }

  lemma TextPieces(kind: ValueKind, text: string)
    requires TextOk(kind, text)
    ensures kind == VString ==> PrintValue(kind, text) == Quoted(Escape(text)) && |Quoted(Escape(text))| == |Escape(text)| + 2
    ensures kind != VString ==> PrintValue(kind, text) == TextOf(kind, text) && PlainText(TextOf(kind, text))
  {
    hide Escape;
  }

  lemma ValueLaid(w: string, i: nat, kind: ValueKind, text: string, f: Format, depth: int)
    requires Has(w, i, PrintValue(kind, text)) && TextOk(kind, text) && At(w, i) == State(depth, Outside)
    ensures Laid(w, i, i + |PrintValue(kind, text)|, f, State(depth, Outside), State(depth, Outside))
  {
    hide *;
    TextPieces(kind, text);
    if kind == VString {
      EscapeBody(text);
      QuotedLaid(w, i, Escape(text), f, depth);
    } else {
      TextLaid(w, i, TextOf(kind, text), f, depth);
    }
  }

  // ---------- line breaks and indentations ----------

  lemma {:induction false} RunIs(w: string, i: nat, c: char, n: nat)
    requires i + n < |w| && w[i + n] != c && forall j | i <= j < i + n :: w[j] == c
    ensures Run(w, i, c) == n
    decreases n
  {
    if n > 0 {
      RunIs(w, i + 1, c, n - 1);
    }
  }

  lemma {:induction false} RunBackIs(w: string, i: nat, c: char, n: nat)
    requires n < i <= |w| && w[i - n - 1] != c && forall j | i - n <= j < i :: w[j] == c
    ensures RunBack(w, i, c) == n
    decreases n
  {
    if n > 0 {
      RunBackIs(w, i - 1, c, n - 1);
    }
  }

  lemma IndentPlace(w: string, i: nat, f: Format)
    requires f.newline && i < |w| && w[i] == IndentChar(f)
    requires var k := RunBack(w, i, IndentChar(f)); k < i && w[i - 1 - k] == '\n'
    ensures PlaceOk(w, i, f)
  {
  }

  /** An indentation behind a line break. */
  lemma {:induction false} IndentLaid(w: string, i: nat, n: nat, f: Format, st: State)
    requires f.newline && i + 1 + n <= |w| && w[i] == '\n' && forall j | i < j <= i + n :: w[j] == IndentChar(f)
    requires At(w, i + 1) == st && st.mode.Outside?
    ensures Laid(w, i + 1, i + 1 + n, f, st, st)
  {
    hide At, PlaceOk, Laid, Between;
    if n == 0 {
      LaidNone(w, i + 1, f, st);
    } else {
      IndentLaid(w, i, n - 1, f, st);
      EndOf(w, i + 1, i + n, f, st, st);
      RunBackIs(w, i + n, IndentChar(f), n - 1);
      IndentPlace(w, i + n, f);
      LaidOne(w, i + n, f, st);
      LaidJoin(w, i + 1, i + n, i + n + 1, f, st, st, st);
    }
  }

  lemma BreakPlace(w: string, i: nat, f: Format)
    requires i < |w| && w[i] == '\n' && (At(w, i).mode.Outside? ==> BreakOk(w, i, f, At(w, i).depth))
    ensures PlaceOk(w, i, f)
  {
  }

  lemma SpacePlace(w: string, i: nat, f: Format)
    requires i < |w| && w[i] == ' ' && (At(w, i).mode.Outside? ==> BlankOk(w, i, f))
    ensures PlaceOk(w, i, f)
  {
  }

  function Break(f: Format, level: nat): string {
    Newline(f) + Indentation(f, level)
  }

  lemma BreakText(f: Format, level: nat)
    ensures f.newline ==> Break(f, level) == ['\n'] + Repeat(f.indentSize * level, IndentChar(f))
    ensures !f.newline ==> Break(f, level) == if f.spacing then [' '] else []
    ensures forall n: nat | f.newline && n == f.indentSize * level :: |Repeat(n, IndentChar(f))| == n
  {
  }

  lemma HasChar(w: string, i: nat, c: char)
    ensures Has(w, i, [c]) <==> i < |w| && w[i] == c
  {
    if i < |w| {
      assert w[i..i + 1] == [w[i]];
    }
  }

  lemma HasRepeat(w: string, i: nat, n: nat, c: char)
    requires Has(w, i, Repeat(n, c))
    ensures i + n <= |w| && forall j | i <= j < i + n :: w[j] == c
  {
    forall j | i <= j < i + n ensures w[j] == c {
      HasAt(w, i, Repeat(n, c), j - i);
    }
  }

  /** What stands at the end of a break. */
  predicate AfterBreak(w: string, i: nat, e: nat, f: Format, level: nat)
    requires e <= |w|
  {
    if f.newline then
      && RunBack(w, e, IndentChar(f)) == f.indentSize * level && e == i + 1 + f.indentSize * level
      && i < |w| && w[i] == '\n'
    else if f.spacing then e == i + 1 && w[i] == ' '
    else e == i
  }

  lemma NewlineText(w: string, i: nat, f: Format, level: nat)
    requires f.newline && Has(w, i, Break(f, level))
    ensures var n := f.indentSize * level;
            && |Break(f, level)| == 1 + n && i + 1 + n <= |w| && w[i] == '\n'
            && forall j | i < j <= i + n :: w[j] == IndentChar(f)
  {
    var n: nat, c := f.indentSize * level, IndentChar(f);
    BreakText(f, level);
    hide *;
    HasSplit(w, i, ['\n'], Repeat(n, c));
    HasChar(w, i, '\n');
    HasRepeat(w, i + 1, n, c);
  }

  lemma IndentIsBlank(f: Format)
    ensures Blank(IndentChar(f)) && IndentChar(f) != '\n'
    ensures forall d :: Step(State(d, Outside), '\n') == State(d, Outside)
  {
  }

  /** The line break itself, in front of `n` indentation characters. */
  lemma LineFeedLaid(w: string, i: nat, n: nat, f: Format, depth: int)
    requires f.newline && i + 1 + n < |w| && w[i] == '\n' && forall j | i < j <= i + n :: w[j] == IndentChar(f)
    requires var x := w[i + 1 + n]; !Blank(x) && n == f.indentSize * (if Closes(x) then depth - 1 else depth)
    requires At(w, i) == State(depth, Outside)
    ensures Laid(w, i, i + 1, f, State(depth, Outside), State(depth, Outside))
  {
    IndentIsBlank(f);
    hide At, PlaceOk, Laid, Between, Run, Blank, IndentChar, Step;
    RunIs(w, i + 1, IndentChar(f), n);
    BreakPlace(w, i, f);
    LaidOne(w, i, f, State(depth, Outside));
  }

  lemma AfterIndent(w: string, i: nat, f: Format, level: nat)
    requires f.newline && i + 1 + f.indentSize * level < |w| && w[i] == '\n'
    requires forall j | i < j <= i + f.indentSize * level :: w[j] == IndentChar(f)
    ensures AfterBreak(w, i, i + 1 + f.indentSize * level, f, level)
  {
    var n: nat := f.indentSize * level;
    IndentIsBlank(f);
    hide IndentChar, Blank, RunBack;
    RunBackIs(w, i + 1 + n, IndentChar(f), n);
  }

  lemma NewlineLaid(w: string, i: nat, f: Format, level: nat, depth: int)
    requires f.newline && Has(w, i, Break(f, level)) && i + |Break(f, level)| < |w|
    requires var x := w[i + |Break(f, level)|]; !Blank(x) && level == if Closes(x) then depth - 1 else depth
    requires At(w, i) == State(depth, Outside)
    ensures var e := i + |Break(f, level)|;
            Laid(w, i, e, f, State(depth, Outside), State(depth, Outside)) && AfterBreak(w, i, e, f, level)
  {
    hide *;
    NewlineText(w, i, f, level);
    var n: nat, st := f.indentSize * level, State(depth, Outside);
    LineFeedLaid(w, i, n, f, depth);
    EndOf(w, i, i + 1, f, st, st);
    IndentLaid(w, i, n, f, st);
    LaidJoin(w, i, i + 1, i + 1 + n, f, st, st, st);
    AfterIndent(w, i, f, level);
  }

  lemma SpaceLaid(w: string, i: nat, f: Format, st: State)
    requires i < |w| && w[i] == ' ' && At(w, i) == st && st.mode.Outside? && BlankOk(w, i, f)
    ensures Laid(w, i, i + 1, f, st, st)
  {
    hide At, PlaceOk, Laid, Between, BlankOk;
    SpacePlace(w, i, f);
    LaidOne(w, i, f, st);
  }

  /** A line break with its indentation, or the space or nothing that stands for it. */
  lemma BreakLaid(w: string, i: nat, f: Format, level: nat, depth: int)
    requires Has(w, i, Break(f, level)) && 0 < i && i + |Break(f, level)| < |w|
    requires var x := w[i + |Break(f, level)|];
             && !Blank(x) && level == (if Closes(x) then depth - 1 else depth) && (Closes(x) || Leads(w[i - 1]))
    requires At(w, i) == State(depth, Outside)
    ensures var e := i + |Break(f, level)|;
            Laid(w, i, e, f, State(depth, Outside), State(depth, Outside)) && AfterBreak(w, i, e, f, level)
  {
    hide At, PlaceOk, Laid, Between, Run, RunBack, Break;
    BreakText(f, level);
    if f.newline {
      NewlineLaid(w, i, f, level, depth);
    } else if f.spacing {
      HasChar(w, i, ' ');
      SpaceLaid(w, i, f, State(depth, Outside));
    } else {
      LaidNone(w, i, f, State(depth, Outside));
    }
  }

  // ---------- brackets and separators ----------

  lemma OpenPlace(w: string, i: nat, f: Format)
    requires i < |w| && Leads(w[i]) && OpenOk(w, i, f)
    ensures PlaceOk(w, i, f)
  {
  }

  lemma OpenLaid(w: string, i: nat, c: char, f: Format, depth: int)
    requires Has(w, i, [c]) && Leads(c) && At(w, i) == State(depth, Outside) && OpenOk(w, i, f)
    ensures Laid(w, i, i + 1, f, State(depth, Outside), State(if c == ',' then depth else depth + 1, Outside))
  {
    HasChar(w, i, c);
    OpenPlace(w, i, f);
    hide At, PlaceOk, OpenOk;
    LaidOne(w, i, f, State(depth, Outside));
  }

  lemma ClosePlace(w: string, i: nat, f: Format)
    requires i < |w| && Closes(w[i]) && CloseOk(w, i, f, At(w, i).depth)
    ensures PlaceOk(w, i, f)
  {
  }

  lemma CloseLaid(w: string, i: nat, c: char, f: Format, depth: int)
    requires Has(w, i, [c]) && Closes(c) && At(w, i) == State(depth, Outside) && CloseOk(w, i, f, depth)
    ensures Laid(w, i, i + 1, f, State(depth, Outside), State(depth - 1, Outside))
  {
    HasChar(w, i, c);
    ClosePlace(w, i, f);
    hide At, PlaceOk, CloseOk;
    LaidOne(w, i, f, State(depth, Outside));
  }

  lemma ColonPlace(w: string, i: nat, f: Format)
    requires i < |w| && w[i] == ':' && ColonOk(w, i, f)
    ensures PlaceOk(w, i, f)
  {
  }

  lemma ColonLaid(w: string, i: nat, f: Format, st: State)
    requires Has(w, i, [':'] + Spacing(f)) && i + 1 + |Spacing(f)| < |w| && !Blank(w[i + 1 + |Spacing(f)|])
    requires At(w, i) == st && st.mode.Outside?
    ensures Laid(w, i, i + 1 + |Spacing(f)|, f, st, st)
  {
    hide At, Laid, Between, Has;
    HasSplit(w, i, [':'], Spacing(f));
    HasChar(w, i, ':');
    HasChar(w, i + 1, ' ');
    ColonPlace(w, i, f);
    hide PlaceOk;
    LaidOne(w, i, f, st);
    if f.spacing {
      EndOf(w, i, i + 1, f, st, st);
      SpaceLaid(w, i + 1, f, st);
      LaidJoin(w, i, i + 1, i + 2, f, st, st, st);
    }
  }

  /** The last break of a container and its closing bracket. */
  lemma EndLaid(w: string, i: nat, c: char, f: Format, level: nat)
    requires Has(w, i, Break(f, level) + [c]) && Closes(c) && At(w, i) == State(level + 1, Outside) && i > 0
    requires !f.newline && !f.spacing ==> !Blank(w[i - 1])
    ensures Laid(w, i, i + |Break(f, level)| + 1, f, State(level + 1, Outside), State(level, Outside))
  {
    hide At, PlaceOk, Laid, Between, Run, RunBack, Break, Has;
    var e := i + |Break(f, level)|;
    HasSplit(w, i, Break(f, level), [c]);
    HasChar(w, e, c);
    BreakLaid(w, i, f, level, level + 1);
    EndOf(w, i, e, f, State(level + 1, Outside), State(level + 1, Outside));
    CloseLaid(w, e, c, f, level + 1);
    LaidJoin(w, i, e, e + 1, f, State(level + 1, Outside), State(level + 1, Outside), State(level, Outside));
  }

  // ---------- whole trees ----------

  lemma ValueEnds(kind: ValueKind, text: string)
    requires TextOk(kind, text)
    ensures var p := PrintValue(kind, text); p != "" && !Blank(p[0]) && !Closes(p[0]) && !Blank(p[|p| - 1])
  {
    var p := PrintValue(kind, text);
    assert p[0] in p && p[|p| - 1] in p;
  }

  /** A printed node neither starts nor ends with a blank. */
  lemma PrintEnds(n: Node, f: Format, level: nat)
    requires Readable(n)
    ensures var p := Print(n, f, level); p != "" && !Blank(p[0]) && !Closes(p[0]) && !Blank(p[|p| - 1])
  {
    if n.Value? {
      ValueEnds(n.kind, n.text);
    }
  }

  /** What stands in front of an entry of a container. */
  function Lead(f: Format, level: nat, first: bool): string {
    (if first then [] else [',']) + Break(f, level + 1)
  }

  lemma OpenLeads(c: char)
    ensures Opens(c) || c == ',' ==> Leads(c)
  {
  }

  lemma LeadText(f: Format, level: nat, first: bool, core: string)
    ensures Lead(f, level, first) + core == if first then Break(f, level + 1) + core else [','] + (Break(f, level + 1) + core)
    ensures |Lead(f, level, first)| == |Break(f, level + 1)| + if first then 0 else 1
  {
    hide Break;
  }

  lemma CoreFirst(w: string, i: nat, core: string)
    requires Has(w, i, core) && core != ""
    ensures i < |w| && w[i] == core[0] && i + |core| <= |w| && w[i + |core| - 1] == core[|core| - 1]
  {
    HasAt(w, i, core, 0);
    HasAt(w, i, core, |core| - 1);
  }

  lemma BreakThenLaid(w: string, i: nat, core: string, f: Format, level: nat)
    requires Has(w, i, Break(f, level + 1) + core) && core != "" && !Blank(core[0]) && !Closes(core[0])
    requires At(w, i) == State(level + 1, Outside) && 0 < i <= |w| && Leads(w[i - 1])
    ensures var k := i + |Break(f, level + 1)|;
            Has(w, k, core) && Laid(w, i, k, f, State(level + 1, Outside), State(level + 1, Outside))
  {
    hide At, Laid, Break, Has;
    HasSplit(w, i, Break(f, level + 1), core);
    CoreFirst(w, i + |Break(f, level + 1)|, core);
    BreakLaid(w, i, f, level + 1, level + 1);
  }

  lemma BreakFollows(w: string, i: nat, f: Format, level: nat)
    requires Has(w, i + 1, Break(f, level)) && i + 1 + |Break(f, level)| < |w| && !Blank(w[i + 1 + |Break(f, level)|])
    ensures OpenOk(w, i, f)
  {
    BreakText(f, level);
    if f.newline {
      NewlineText(w, i + 1, f, level);
    } else {
      hide Break, Has;
      HasChar(w, i + 1, ' ');
    }
  }

  lemma CommaLaid(w: string, i: nat, core: string, f: Format, level: nat)
    requires Has(w, i, [',']) && Has(w, i + 1, Break(f, level + 1) + core) && core != "" && !Blank(core[0])
    requires At(w, i) == State(level + 1, Outside)
    ensures i < |w| && w[i] == ','
    ensures Laid(w, i, i + 1, f, State(level + 1, Outside), State(level + 1, Outside))
  {
    hide At, Laid, Break, Has;
    HasSplit(w, i + 1, Break(f, level + 1), core);
    CoreFirst(w, i + 1 + |Break(f, level + 1)|, core);
    HasChar(w, i, ',');
    BreakFollows(w, i, f, level + 1);
    OpenLaid(w, i, ',', f, level + 1);
  }

  lemma LeadLaid(w: string, i: nat, core: string, f: Format, level: nat, first: bool)
    requires Has(w, i, Lead(f, level, first) + core) && core != "" && !Blank(core[0]) && !Closes(core[0])
    requires At(w, i) == State(level + 1, Outside) && (first ==> i > 0 && Opens(w[i - 1]))
    ensures var k := i + |Lead(f, level, first)|;
            Has(w, k, core) && Laid(w, i, k, f, State(level + 1, Outside), State(level + 1, Outside))
  {
    hide *;
    LeadText(f, level, first, core);
    HasFits(w, i, Lead(f, level, first) + core);
    if first {
      OpenLeads(w[i - 1]);
      BreakThenLaid(w, i, core, f, level);
    } else {
      var st, br := State(level + 1, Outside), Break(f, level + 1);
      HasSplit(w, i, [','], br + core);
      CommaLaid(w, i, core, f, level);
      OpenLeads(',');
      EndOf(w, i, i + 1, f, st, st);
      BreakThenLaid(w, i + 1, core, f, level);
      LaidJoin(w, i, i + 1, i + 1 + |br|, f, st, st, st);
    }
  }

  function MemberCore(m: Member, f: Format, level: nat): string {
    Quoted(m.name) + ([':'] + Spacing(f) + Print(m.node, f, level + 1))
  }

  lemma MemberCoreHas(w: string, i: nat, m: Member, f: Format, level: nat)
    requires Has(w, i, MemberCore(m, f, level))
    ensures var node, j, k := Print(m.node, f, level + 1), i + |m.name| + 2, i + |m.name| + 2 + 1 + |Spacing(f)|;
            && Has(w, i, Quoted(m.name)) && Has(w, j, [':'] + Spacing(f)) && Has(w, k, node)
            && k + |node| == i + |MemberCore(m, f, level)|
  {
    var node, colon, quoted := Print(m.node, f, level + 1), [':'] + Spacing(f), Quoted(m.name);
    assert |quoted| == |m.name| + 2;
    hide Print, Quoted, Has, Spacing;
    HasSplit(w, i, quoted, colon + node);
    HasSplit(w, i + |quoted|, colon, node);
  }

  lemma MemberCoreLaid(w: string, i: nat, m: Member, f: Format, level: nat)
    requires Has(w, i, MemberCore(m, f, level)) && Body(m.name) && Readable(m.node) && At(w, i) == State(level + 1, Outside)
    requires var k := i + |m.name| + 2 + 1 + |Spacing(f)|;
             k <= |w| && Has(w, k, Print(m.node, f, level + 1)) && At(w, k) == State(level + 1, Outside)
             ==> Laid(w, k, k + |Print(m.node, f, level + 1)|, f, State(level + 1, Outside), State(level + 1, Outside))
    ensures Laid(w, i, i + |MemberCore(m, f, level)|, f, State(level + 1, Outside), State(level + 1, Outside))
  {
    hide *;
    PrintEnds(m.node, f, level + 1);
    MemberCoreHas(w, i, m, f, level);
    var st, node := State(level + 1, Outside), Print(m.node, f, level + 1);
    var j, k := i + |m.name| + 2, i + |m.name| + 2 + 1 + |Spacing(f)|;
    CoreFirst(w, k, node);
    QuotedLaid(w, i, m.name, f, level + 1);
    EndOf(w, i, j, f, st, st);
    ColonLaid(w, j, f, st);
    EndOf(w, j, k, f, st, st);
    LaidJoin(w, i, j, k, f, st, st, st);
    LaidJoin(w, i, k, k + |node|, f, st, st, st);
  }

  lemma MemberText(m: Member, f: Format, level: nat)
    ensures PrintMember(m, f, level, false) == Lead(f, level, false) + MemberCore(m, f, level)
    ensures Newline(f) + PrintMember(m, f, level, true) == Lead(f, level, true) + MemberCore(m, f, level)
  {
    hide Newline, Indentation, Quoted, Print, Spacing;
  }

  lemma ItemText(n: Node, f: Format, level: nat)
    ensures PrintItem(n, f, level, false) == Lead(f, level, false) + Print(n, f, level + 1)
    ensures Newline(f) + PrintItem(n, f, level, true) == Lead(f, level, true) + Print(n, f, level + 1)
  {
    hide Newline, Indentation, Print;
  }

  lemma CoreEnds(m: Member, f: Format, level: nat)
    requires Readable(m.node)
    ensures var p := MemberCore(m, f, level); p != "" && !Blank(p[0]) && !Closes(p[0]) && !Blank(p[|p| - 1])
  {
    PrintEnds(m.node, f, level + 1);
    hide Print, Readable;
  }

  lemma LeadIsBreak(f: Format, level: nat)
    ensures Lead(f, level, true) == Break(f, level + 1)
  {
  }

  /** The opening bracket of a container and what leads its first entry. */
  lemma HeadLaid(w: string, i: nat, o: char, core: string, f: Format, level: nat)
    requires Has(w, i, [o] + (Lead(f, level, true) + core)) && Opens(o) && At(w, i) == State(level, Outside)
    requires core != "" && !Blank(core[0]) && !Closes(core[0])
    ensures var k := i + 1 + |Lead(f, level, true)|;
            Has(w, k, core) && Laid(w, i, k, f, State(level, Outside), State(level + 1, Outside))
  {
    var st, inner, lead := State(level, Outside), State(level + 1, Outside), Lead(f, level, true);
    LeadIsBreak(f, level);
    hide At, Laid, Has, Break, Lead;
    HasSplit(w, i, [o], lead + core);
    HasSplit(w, i + 1, lead, core);
    HasChar(w, i, o);
    CoreFirst(w, i + 1 + |lead|, core);
    BreakFollows(w, i, f, level + 1);
    OpenLaid(w, i, o, f, level);
    EndOf(w, i, i + 1, f, st, inner);
    LeadLaid(w, i + 1, core, f, level, true);
    LaidJoin(w, i, i + 1, i + 1 + |lead|, f, st, inner, inner);
  }

  lemma NewlineSize(f: Format)
    ensures Newline(f) == if f.newline then ['\n'] else if f.spacing then [' '] else []
  {
  }

  lemma EmptyText(w: string, i: nat, o: char, c: char, f: Format, level: nat)
    requires Opens(o) && Closes(c) && Has(w, i, [o] + (Newline(f) + (Break(f, level) + [c])))
    ensures var n := |Newline(f)|;
            && Has(w, i, [o]) && i < |w| && w[i] == o && OpenOk(w, i, f)
            && Has(w, i + 1 + n, Break(f, level) + [c])
            && i + 1 + n < |w|
            && (f.newline ==> n == 1 && w[i + 1] == '\n' && w[i + 2] == '\n')
            && (!f.newline && f.spacing ==> n == 1 && w[i + 1] == ' ')
            && (!f.newline && !f.spacing ==> n == 0)
  {
    var n := |Newline(f)|;
    NewlineSize(f);
    hide Newline, Break, Has;
    HasSplit(w, i, [o], Newline(f) + (Break(f, level) + [c]));
    HasSplit(w, i + 1, Newline(f), Break(f, level) + [c]);
    HasSplit(w, i + 1 + n, Break(f, level), [c]);
    HasChar(w, i, o);
    HasChar(w, i + 1, '\n');
    HasChar(w, i + 1, ' ');
    HasChar(w, i + 1 + n + |Break(f, level)|, c);
    if f.newline {
      NewlineText(w, i + 1 + n, f, level);
    } else if !f.spacing {
      BreakText(f, level);
    }
  }

  /** The first of the two breaks of an empty container. */
  lemma FirstBreakLaid(w: string, i: nat, f: Format, st: State)
    requires 0 < i && i + |Newline(f)| < |w| && Opens(w[i - 1]) && At(w, i) == st && st.mode.Outside?
    requires f.newline ==> w[i] == '\n' && w[i + 1] == '\n'
    requires !f.newline && f.spacing ==> w[i] == ' '
    ensures Laid(w, i, i + |Newline(f)|, f, st, st)
  {
    hide At, PlaceOk, Laid;
    if f.newline {
      BreakPlace(w, i, f);
      LaidOne(w, i, f, st);
    } else if f.spacing {
      SpaceLaid(w, i, f, st);
    } else {
      LaidNone(w, i, f, st);
    }
  }

  /** An empty container. */
  lemma EmptyLaid(w: string, i: nat, o: char, c: char, f: Format, level: nat)
    requires Opens(o) && Closes(c) && Has(w, i, [o] + (Newline(f) + (Break(f, level) + [c]))) && At(w, i) == State(level, Outside)
    ensures Laid(w, i, i + |[o] + (Newline(f) + (Break(f, level) + [c]))|, f, State(level, Outside), State(level, Outside))
  {
    var st, inner, n := State(level, Outside), State(level + 1, Outside), |Newline(f)|;
    EmptyText(w, i, o, c, f, level);
    HasChar(w, i, o);
    hide *;
    OpenLaid(w, i, o, f, level);
    EndOf(w, i, i + 1, f, st, inner);
    FirstBreakLaid(w, i + 1, f, inner);
    EndOf(w, i + 1, i + 1 + n, f, inner, inner);
    EndLaid(w, i + 1 + n, c, f, level);
    LaidJoin(w, i, i + 1, i + 1 + n, f, st, inner, inner);
    LaidJoin(w, i, i + 1 + n, i + 1 + n + |Break(f, level)| + 1, f, st, inner, st);
  }

  /** A container whose first entry is `core`. */
  function Whole(o: char, c: char, core: string, rest: string, f: Format, level: nat): string {
    [o] + (Lead(f, level, true) + core) + rest + (Break(f, level) + [c])
  }

  /** Where the parts of a container stand. */
  lemma ContainerHas(w: string, i: nat, o: char, c: char, core: string, rest: string, f: Format, level: nat)
    requires Has(w, i, Whole(o, c, core, rest, f, level))
    ensures var k := i + 1 + |Lead(f, level, true)|;
            && Has(w, i, [o] + (Lead(f, level, true) + core))
            && Has(w, k + |core|, rest)
            && Has(w, k + |core| + |rest|, Break(f, level) + [c])
  {
    hide Has, Lead, Break;
    var head := [o] + (Lead(f, level, true) + core);
    HasSplit(w, i, head + rest, Break(f, level) + [c]);
    HasSplit(w, i, head, rest);
  }

  lemma StartLaid(w: string, i: nat, o: char, c: char, core: string, rest: string, f: Format, level: nat)
    requires Has(w, i, Whole(o, c, core, rest, f, level)) && Opens(o) && At(w, i) == State(level, Outside)
    requires core != "" && !Blank(core[0]) && !Closes(core[0]) && !Blank(core[|core| - 1])
    ensures var k := i + 1 + |Lead(f, level, true)|;
            && Has(w, k, core) && Laid(w, i, k, f, State(level, Outside), State(level + 1, Outside))
            && k + |core| <= |w| && At(w, k) == State(level + 1, Outside)
            && !Blank(w[k + |core| - 1])
            && Has(w, k + |core|, rest)
            && Has(w, k + |core| + |rest|, Break(f, level) + [c])
  {
    hide *;
    ContainerHas(w, i, o, c, core, rest, f, level);
    HeadLaid(w, i, o, core, f, level);
    var k := i + 1 + |Lead(f, level, true)|;
    EndOf(w, i, k, f, State(level, Outside), State(level + 1, Outside));
    CoreFirst(w, k, core);
  }

  lemma EmptyPrint(n: Node, f: Format, level: nat)
    ensures n == Object([]) ==> Print(n, f, level) == ['{'] + (Newline(f) + (Break(f, level) + ['}']))
    ensures n == Array([]) ==> Print(n, f, level) == ['['] + (Newline(f) + (Break(f, level) + [']']))
  {
    hide Newline, Indentation;
  }

  /** What is printed of a node is laid out, wherever it stands with as many brackets open as its level says. */
  lemma {:induction false} NodeLaid(w: string, i: nat, n: Node, f: Format, level: nat)
    requires Has(w, i, Print(n, f, level)) && Readable(n) && At(w, i) == State(level, Outside)
    ensures Laid(w, i, i + |Print(n, f, level)|, f, State(level, Outside), State(level, Outside))
    decreases n, 1
  {
    EmptyPrint(n, f, level);
    hide At, Laid, Has, Newline, Indentation, Break;
    match n
    case Value(k, t) => ValueLaid(w, i, k, t, f, level);
    case Object(ms) =>
      hide Print;
      if ms == [] {
        EmptyLaid(w, i, '{', '}', f, level);
      } else {
        ObjectLaid(w, i, ms, f, level);
      }
    case Array(ns) =>
      hide Print;
      if ns == [] {
        EmptyLaid(w, i, '[', ']', f, level);
      } else {
        ArrayLaid(w, i, ns, f, level);
      }
  }

  lemma Brackets()
    ensures Opens('{') && Opens('[') && Closes('}') && Closes(']')
  {
  }

  lemma MembersReadableNext(ms: seq<Member>)
    requires MembersReadable(ms) && ms != []
    ensures Body(ms[0].name) && Readable(ms[0].node) && MembersReadable(ms[1..])
  {
  }

  lemma Regroup(o: string, nl: string, m: string, rest: string, indent: string, c: string)
    ensures o + nl + (m + rest) + nl + indent + c == o + (nl + m) + rest + (nl + indent + c)
  {
  }

  lemma ObjectText(ms: seq<Member>, f: Format, level: nat)
    requires ms != []
    ensures Print(Object(ms), f, level)
            == Whole('{', '}', MemberCore(ms[0], f, level), PrintMembers(ms[1..], f, level, false), f, level)
  {
    MemberText(ms[0], f, level);
    var m, rest := PrintMember(ms[0], f, level, true), PrintMembers(ms[1..], f, level, false);
    assert PrintMembers(ms, f, level, true) == m + rest;
    Regroup(['{'], Newline(f), m, rest, Indentation(f, level), ['}']);
    hide Newline, Indentation, PrintMember, PrintMembers, Lead, MemberCore;
  }

  lemma WholeSize(o: char, c: char, core: string, rest: string, f: Format, level: nat)
    ensures |Whole(o, c, core, rest, f, level)| == 1 + |Lead(f, level, true)| + |core| + |rest| + |Break(f, level)| + 1
  {
  }

  lemma ContainerLaid(w: string, i: nat, o: char, c: char, core: string, rest: string, f: Format, level: nat)
    requires Closes(c)
    requires var k, st, inner := i + 1 + |Lead(f, level, true)|, State(level, Outside), State(level + 1, Outside);
             && Laid(w, i, k, f, st, inner)
             && Laid(w, k, k + |core|, f, inner, inner)
             && Laid(w, k + |core|, k + |core| + |rest|, f, inner, inner)
             && !Blank(w[k + |core| + |rest| - 1])
             && Has(w, k + |core| + |rest|, Break(f, level) + [c])
    ensures Laid(w, i, i + |Whole(o, c, core, rest, f, level)|, f, State(level, Outside), State(level, Outside))
  {
    var k, st, inner := i + 1 + |Lead(f, level, true)|, State(level, Outside), State(level + 1, Outside);
    var j, e := k + |core|, k + |core| + |rest|;
    EndOf(w, j, e, f, inner, inner);
    EndOf(w, i, k, f, st, inner);
    WholeSize(o, c, core, rest, f, level);
    hide *;
    EndLaid(w, e, c, f, level);
    LaidJoin(w, i, k, j, f, st, inner, inner);
    LaidJoin(w, i, j, e, f, st, inner, inner);
    LaidJoin(w, i, e, e + |Break(f, level)| + 1, f, st, inner, st);
  }

  lemma {:induction false} ObjectLaid(w: string, i: nat, ms: seq<Member>, f: Format, level: nat)
    requires ms != [] && Has(w, i, Print(Object(ms), f, level)) && MembersReadable(ms) && At(w, i) == State(level, Outside)
    ensures Laid(w, i, i + |Print(Object(ms), f, level)|, f, State(level, Outside), State(level, Outside))
    decreases ms, 1
  {
    hide *;
    Brackets();
    ObjectText(ms, f, level);
    MembersReadableNext(ms);
    CoreEnds(ms[0], f, level);
    var core, rest := MemberCore(ms[0], f, level), PrintMembers(ms[1..], f, level, false);
    var inner := State(level + 1, Outside);
    var k := i + 1 + |Lead(f, level, true)|;
    StartLaid(w, i, '{', '}', core, rest, f, level);
    MemberLaid(w, k, ms[0], f, level);
    EndOf(w, k, k + |core|, f, inner, inner);
    MembersLaid(w, k + |core|, ms[1..], f, level);
    ContainerLaid(w, i, '{', '}', core, rest, f, level);
  }

  lemma ItemsReadableNext(ns: seq<Node>)
    requires ItemsReadable(ns) && ns != []
    ensures Readable(ns[0]) && ItemsReadable(ns[1..])
  {
  }

  lemma ArrayText(ns: seq<Node>, f: Format, level: nat)
    requires ns != []
    ensures Print(Array(ns), f, level)
            == Whole('[', ']', Print(ns[0], f, level + 1), PrintItems(ns[1..], f, level, false), f, level)
  {
    ItemText(ns[0], f, level);
    var m, rest := PrintItem(ns[0], f, level, true), PrintItems(ns[1..], f, level, false);
    assert PrintItems(ns, f, level, true) == m + rest;
    Regroup(['['], Newline(f), m, rest, Indentation(f, level), [']']);
    hide Newline, Indentation, PrintItem, PrintItems, Lead;
  }

  lemma {:induction false} ArrayLaid(w: string, i: nat, ns: seq<Node>, f: Format, level: nat)
    requires ns != [] && Has(w, i, Print(Array(ns), f, level)) && ItemsReadable(ns) && At(w, i) == State(level, Outside)
    ensures Laid(w, i, i + |Print(Array(ns), f, level)|, f, State(level, Outside), State(level, Outside))
    decreases ns, 1
  {
    hide *;
    Brackets();
    ArrayText(ns, f, level);
    ItemsReadableNext(ns);
    PrintEnds(ns[0], f, level + 1);
    var core, rest := Print(ns[0], f, level + 1), PrintItems(ns[1..], f, level, false);
    var inner := State(level + 1, Outside);
    var k := i + 1 + |Lead(f, level, true)|;
    StartLaid(w, i, '[', ']', core, rest, f, level);
    NodeLaid(w, k, ns[0], f, level + 1);
    EndOf(w, k, k + |core|, f, inner, inner);
    ItemsLaid(w, k + |core|, ns[1..], f, level);
    ContainerLaid(w, i, '[', ']', core, rest, f, level);
  }

  lemma {:induction false} MemberLaid(w: string, i: nat, m: Member, f: Format, level: nat)
    requires Has(w, i, MemberCore(m, f, level)) && Body(m.name) && Readable(m.node) && At(w, i) == State(level + 1, Outside)
    ensures Laid(w, i, i + |MemberCore(m, f, level)|, f, State(level + 1, Outside), State(level + 1, Outside))
    decreases m, 2
  {
    hide At, Laid, Has, Print, Readable, Body, MemberCore;
    var k := i + |m.name| + 2 + 1 + |Spacing(f)|;
    if k <= |w| && Has(w, k, Print(m.node, f, level + 1)) && At(w, k) == State(level + 1, Outside) {
      NodeLaid(w, k, m.node, f, level + 1);
    }
    MemberCoreLaid(w, i, m, f, level);
  }

  lemma {:induction false} MembersLaid(w: string, i: nat, ms: seq<Member>, f: Format, level: nat)
    requires Has(w, i, PrintMembers(ms, f, level, false)) && MembersReadable(ms) && At(w, i) == State(level + 1, Outside)
    requires i > 0 && !Blank(w[i - 1])
    ensures var e := i + |PrintMembers(ms, f, level, false)|;
            Laid(w, i, e, f, State(level + 1, Outside), State(level + 1, Outside)) && !Blank(w[e - 1])
    decreases ms, 0
  {
    hide At, Laid, Has, Lead, MemberCore, PrintMember, Blank, Readable, Body;
    var st := State(level + 1, Outside);
    if ms == [] {
      HasNothing(w, i);
      LaidNone(w, i, f, st);
    } else {
      var lead, core, rest := Lead(f, level, false), MemberCore(ms[0], f, level), PrintMembers(ms[1..], f, level, false);
      MemberText(ms[0], f, level);
      CoreEnds(ms[0], f, level);
      assert PrintMembers(ms, f, level, false) == lead + core + rest;
      hide PrintMembers;
      var k := i + |lead|;
      HasSplit(w, i, lead + core, rest);
      LeadLaid(w, i, core, f, level, false);
      EndOf(w, i, k, f, st, st);
      MemberLaid(w, k, ms[0], f, level);
      EndOf(w, k, k + |core|, f, st, st);
      CoreFirst(w, k, core);
      MembersLaid(w, k + |core|, ms[1..], f, level);
      LaidJoin(w, i, k, k + |core|, f, st, st, st);
      LaidJoin(w, i, k + |core|, k + |core| + |rest|, f, st, st, st);
    }
  }

  lemma {:induction false} ItemsLaid(w: string, i: nat, ns: seq<Node>, f: Format, level: nat)
    requires Has(w, i, PrintItems(ns, f, level, false)) && ItemsReadable(ns) && At(w, i) == State(level + 1, Outside)
    requires i > 0 && !Blank(w[i - 1])
    ensures var e := i + |PrintItems(ns, f, level, false)|;
            Laid(w, i, e, f, State(level + 1, Outside), State(level + 1, Outside)) && !Blank(w[e - 1])
    decreases ns, 0
  {
    hide At, Laid, Has, Lead, Print, PrintItem, Blank, Readable;
    var st := State(level + 1, Outside);
    if ns == [] {
      HasNothing(w, i);
      LaidNone(w, i, f, st);
    } else {
      var lead, core, rest := Lead(f, level, false), Print(ns[0], f, level + 1), PrintItems(ns[1..], f, level, false);
      ItemText(ns[0], f, level);
      PrintEnds(ns[0], f, level + 1);
      assert PrintItems(ns, f, level, false) == lead + core + rest;
      hide PrintItems;
      var k := i + |lead|;
      HasSplit(w, i, lead + core, rest);
      LeadLaid(w, i, core, f, level, false);
      EndOf(w, i, k, f, st, st);
      NodeLaid(w, k, ns[0], f, level + 1);
      EndOf(w, k, k + |core|, f, st, st);
      CoreFirst(w, k, core);
      ItemsLaid(w, k + |core|, ns[1..], f, level);
      LaidJoin(w, i, k, k + |core|, f, st, st, st);
      LaidJoin(w, i, k + |core|, k + |core| + |rest|, f, st, st, st);
    }
  }

  /** Every printed tree is laid out, in every format, and its brackets balance. */
  lemma PrintedLayout(n: Node, f: Format)
    requires Readable(n)
    ensures var w := Print(n, f, 0); LaidOut(w, f) && At(w, |w|) == State(0, Outside)
  {
    var w := Print(n, f, 0);
    assert w[0..|w|] == w;
    NodeLaid(w, 0, n, f, 0);
  }
}
