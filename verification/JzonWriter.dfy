/**
  Jzon's printer, and proof that its formatting is only formatting: stripping the white space of any
  formatted text gives the text printed without a format.
 */
module JzonWriter {
  import opened JzonText

  datatype Format = Format(newline: bool, spacing: bool, useTabs: bool, indentSize: nat)

  const NO_FORMAT := Format(false, false, false, 0)

  function Spacing(f: Format): string {
    if f.spacing then " " else ""
  }

  function Newline(f: Format): string {
    if f.newline then "\n" else Spacing(f)
  }

  function Repeat(n: nat, c: char): string {
    seq(n, _ => c)
  }

  function Indentation(f: Format, level: nat): string {
    if !f.newline then "" else Repeat(f.indentSize * level, if f.useTabs then '\t' else ' ')
  }

  /** Value::ToString */
  function TextOf(kind: ValueKind, text: string): string {
    if kind == VNull then "null" else text
  }

  function Quoted(s: string): string {
    "\"" + s + "\""
  }

  function PrintValue(kind: ValueKind, text: string): string {
    if kind == VString then Quoted(Escape(text)) else TextOf(kind, text)
  }

  function Print(n: Node, f: Format, level: nat): string
    decreases n, 1
  {
    match n
    case Object(ms) =>
      "{" + Newline(f) + PrintMembers(ms, f, level, true) + Newline(f) + Indentation(f, level) + "}"
    case Array(ns) =>
      "[" + Newline(f) + PrintItems(ns, f, level, true) + Newline(f) + Indentation(f, level) + "]"
    case Value(k, t) => PrintValue(k, t)
  }

  function Separator(f: Format, level: nat, first: bool): string {
    (if first then "" else "," + Newline(f)) + Indentation(f, level + 1)
  }

  function PrintMembers(ms: seq<Member>, f: Format, level: nat, first: bool): string
    decreases ms, 0
  {
    if ms == [] then ""
    else PrintMember(ms[0], f, level, first) + PrintMembers(ms[1..], f, level, false)
  }

  function PrintMember(m: Member, f: Format, level: nat, first: bool): string
    decreases m, 2
  {
    Separator(f, level, first) + Quoted(m.name) + ":" + Spacing(f) + Print(m.node, f, level + 1)
  }

  function PrintItems(ns: seq<Node>, f: Format, level: nat, first: bool): string
    decreases ns, 0
  {
    if ns == [] then ""
    else PrintItem(ns[0], f, level, first) + PrintItems(ns[1..], f, level, false)
  }

  function PrintItem(n: Node, f: Format, level: nat, first: bool): string
    decreases n, 2
  {
    Separator(f, level, first) + Print(n, f, level + 1)
  }

  // ---------- the printer as it runs ----------

  class Writer {
    const format: Format
    var result: string

    constructor (format: Format)
      ensures this.format == format && result == ""
    {
      this.format := format;
      result := "";
    }

    method WriteValue(kind: ValueKind, text: string)
      modifies this
      ensures result == old(result) + PrintValue(kind, text)
    {
      if kind == VString {
        var escaped := EscapeString(text);
        result := result + ("\"" + escaped + "\"");
      } else {
        result := result + TextOf(kind, text);
      }
    }

    method WriteNode(n: Node, level: nat)
      modifies this
      ensures result == old(result) + Print(n, format, level)
      decreases n, 2
    {
      match n {
        case Object(ms) => WriteObject(ms, level);
        case Array(ns) => WriteArray(ns, level);
        case Value(k, t) => WriteValue(k, t);
      }
    }

    method Write(root: Node)
      modifies this
      ensures result == Print(root, format, 0)
    {
      result := "";
      WriteNode(root, 0);
    }

    lemma NothingPrinted(f: Format, level: nat, first: bool)
      ensures PrintMembers([], f, level, first) == "" && PrintItems([], f, level, first) == ""
    {
    }

    lemma MembersNext(done: string, ms: seq<Member>, i: nat, f: Format, level: nat)
      requires i < |ms|
      ensures done + PrintMembers(ms[i..], f, level, i == 0)
              == done + PrintMember(ms[i], f, level, i == 0) + PrintMembers(ms[i + 1..], f, level, false)
    {
      hide PrintMember;
      assert ms[i..][0] == ms[i] && ms[i..][1..] == ms[i + 1..];
    }

    lemma ObjectText(before: string, ms: seq<Member>, f: Format, level: nat)
      ensures before + ("{" + Newline(f)) + PrintMembers(ms, f, level, true) + (Newline(f) + Indentation(f, level) + "}")
              == before + Print(Object(ms), f, level)
    {
      hide Indentation, Newline, PrintMembers;
    }

    method WriteObject(ms: seq<Member>, level: nat)
      modifies this
      ensures result == old(result) + Print(Object(ms), format, level)
      decreases ms, 1
    {
      hide Indentation, Newline, PrintMember, PrintMembers, Print;
      ghost var before := result;
      result := result + ("{" + Newline(format));
      ghost var start, done := result, "";
      ghost var whole := PrintMembers(ms, format, level, true);
      assert ms[0..] == ms && done + whole == whole;
      for i := 0 to |ms|
        invariant result == start + done
        invariant whole == done + PrintMembers(ms[i..], format, level, i == 0)
      {
        ghost var piece := PrintMember(ms[i], format, level, i == 0);
        MembersNext(done, ms, i, format, level);
        if i != 0 {
          result := result + ("," + Newline(format));
        }
        WriteMember(ms[i], level, i == 0, start + done);
        done := done + piece;
      }
      NothingPrinted(format, level, |ms| == 0);
      assert ms[|ms|..] == [] && done + "" == done;
      ObjectText(before, ms, format, level);
      result := result + (Newline(format) + Indentation(format, level) + "}");
    }

    method WriteMember(m: Member, level: nat, ghost first: bool, ghost before: string)
      requires result == before + if first then "" else "," + Newline(format)
      modifies this
      ensures result == before + PrintMember(m, format, level, first)
      decreases m, 3
    {
      hide Print, Indentation, Newline, Spacing;
      result := result + (Indentation(format, level + 1) + "\"" + m.name + "\"" + ":" + Spacing(format));
      assert result == before + (Separator(format, level, first) + Quoted(m.name) + ":" + Spacing(format));
      WriteNode(m.node, level + 1);
    }

    lemma ItemsNext(done: string, ns: seq<Node>, i: nat, f: Format, level: nat)
      requires i < |ns|
      ensures done + PrintItems(ns[i..], f, level, i == 0)
              == done + PrintItem(ns[i], f, level, i == 0) + PrintItems(ns[i + 1..], f, level, false)
    {
      hide PrintItem;
      assert ns[i..][0] == ns[i] && ns[i..][1..] == ns[i + 1..];
    }

    lemma ArrayText(before: string, ns: seq<Node>, f: Format, level: nat)
      ensures before + ("[" + Newline(f)) + PrintItems(ns, f, level, true) + (Newline(f) + Indentation(f, level) + "]")
              == before + Print(Array(ns), f, level)
    {
      hide Indentation, Newline, PrintItems;
    }

    method WriteArray(ns: seq<Node>, level: nat)
      modifies this
      ensures result == old(result) + Print(Array(ns), format, level)
      decreases ns, 1
    {
      hide Indentation, Newline, PrintItem, PrintItems, Print;
      ghost var before := result;
      result := result + ("[" + Newline(format));
      ghost var start, done := result, "";
      ghost var whole := PrintItems(ns, format, level, true);
      assert ns[0..] == ns && done + whole == whole;
      for i := 0 to |ns|
        invariant result == start + done
        invariant whole == done + PrintItems(ns[i..], format, level, i == 0)
      {
        ghost var piece := PrintItem(ns[i], format, level, i == 0);
        ItemsNext(done, ns, i, format, level);
        if i != 0 {
          result := result + ("," + Newline(format));
        }
        WriteItem(ns[i], level, i == 0, start + done);
        done := done + piece;
      }
      NothingPrinted(format, level, |ns| == 0);
      assert ns[|ns|..] == [] && done + "" == done;
      ArrayText(before, ns, format, level);
      result := result + (Newline(format) + Indentation(format, level) + "]");
    }

    method WriteItem(n: Node, level: nat, ghost first: bool, ghost before: string)
      requires result == before + if first then "" else "," + Newline(format)
      modifies this
      ensures result == before + PrintItem(n, format, level, first)
      decreases n, 3
    {
      hide Print, Indentation, Newline;
      result := result + Indentation(format, level + 1);
      assert result == before + Separator(format, level, first);
      WriteNode(n, level + 1);
    }
  }

  // ---------- well-formed trees ----------

  predicate IsNumberChar(c: char) {
    ('0' <= c <= '9') || c == '.' || c == '-'
  }

  /** Numbers are written without signs other than the minus, and without exponents. */
  lemma NumberChars(c: char)
    ensures IsNumberChar(c) <==> c in "0123456789.-"
  {
  }

  /** What the printer needs to be understood: names are written as they are, so they must be string
      bodies; string values are escaped, but may not end in a backslash. */
  predicate ValueOk(kind: ValueKind, text: string) {
    match kind
    case VNull => text == ""
    case VBool => text == "true" || text == "false"
    case VNumber => text != "" && forall c | c in text :: IsNumberChar(c)
    case VString => !EndsInBackslash(text)
  }

  predicate WellFormed(n: Node)
    decreases n, 1
  {
    match n
    case Object(ms) => MembersOk(ms)
    case Array(ns) => ItemsOk(ns)
    case Value(k, t) => ValueOk(k, t)
  }

  predicate MembersOk(ms: seq<Member>)
    decreases ms, 0
  {
    ms != [] ==> Closed('\0', ms[0].name) && WellFormed(ms[0].node) && MembersOk(ms[1..])
  }

  predicate ItemsOk(ns: seq<Node>)
    decreases ns, 0
  {
    ns != [] ==> WellFormed(ns[0]) && ItemsOk(ns[1..])
  }

  // ---------- stripping, piece by piece ----------

  /** Outside a string only a backslash in front can change what follows. */
  lemma StripOutside(prev: char, s: string)
    requires prev != '\\'
    ensures Strip(prev, s, OUTSIDE) == Clean(s)
  {
  }

  predicate IsPlain(c: char) {
    c != '"' && c != '/' && c != '*' && c != '\\' && !IsSpace(c)
  }

  lemma StripPlain(c: char, rest: string)
    requires IsPlain(c)
    ensures Clean([c] + rest) == [c] + Clean(rest)
  {
    assert ([c] + rest)[1..] == rest;
    StripOutside(c, rest);
  }

  lemma {:induction false} StripPlainText(p: string, rest: string)
    requires forall c | c in p :: IsPlain(c)
    ensures Clean(p + rest) == p + Clean(rest)
  {
    if p == "" {
      assert p + rest == rest;
    } else {
      assert p + rest == [p[0]] + (p[1..] + rest);
      StripPlain(p[0], p[1..] + rest);
      StripPlainText(p[1..], rest);
    }
  }

  lemma {:induction false} StripBlank(p: string, rest: string)
    requires forall c | c in p :: IsSpace(c)
    ensures Clean(p + rest) == Clean(rest)
  {
    if p == "" {
      assert p + rest == rest;
    } else {
      assert p[0] in p && (p + rest)[1..] == p[1..] + rest;
      StripOutside(p[0], p[1..] + rest);
      StripBlank(p[1..], rest);
    }
  }

  lemma BlankFormat(f: Format, level: nat)
    ensures forall c | c in Newline(f) :: IsSpace(c)
    ensures forall c | c in Spacing(f) :: IsSpace(c)
    ensures forall c | c in Indentation(f, level) :: IsSpace(c)
  {
  }

  /** Inside a string everything survives, and the string ends at its closing quote. */
  lemma {:induction false} StripBody(prev: char, body: string, rest: string)
    requires Closed(prev, body)
    ensures Strip(prev, body + "\"" + rest, INSIDE) == body + "\"" + Clean(rest)
    decreases |body|
  {
    var s := body + "\"" + rest;
    if body == "" {
      assert s[0] == '"' && s[1..] == rest;
      StripOutside('"', rest);
    } else {
      assert s[0] == body[0] && s[1..] == body[1..] + "\"" + rest;
      StripBody(body[0], body[1..], rest);
    }
  }

  lemma StripQuoted(body: string, rest: string)
    requires Closed('\0', body)
    ensures Clean(Quoted(body) + rest) == Quoted(body) + Clean(rest)
  {
    var s := Quoted(body) + rest;
    assert s[0] == '"' && s[1..] == body + "\"" + rest;
    ClosedPrev('\0', '"', body);
    StripBody('"', body, rest);
  }

  lemma StripValue(kind: ValueKind, text: string, rest: string)
    requires ValueOk(kind, text)
    ensures Clean(PrintValue(kind, text) + rest) == PrintValue(kind, text) + Clean(rest)
  {
    if kind == VString {
      EscapeClosed('\0', text);
      StripQuoted(Escape(text), rest);
    } else {
      StripPlainText(TextOf(kind, text), rest);
    }
  }

  // ---------- formats do not matter ----------

  /** The text without any format. */
  function Compact(n: Node): string
    decreases n, 1
  {
    match n
    case Object(ms) => "{" + CompactMembers(ms, true) + "}"
    case Array(ns) => "[" + CompactItems(ns, true) + "]"
    case Value(k, t) => PrintValue(k, t)
  }

  function Comma(first: bool): string {
    if first then "" else ","
  }

  function CompactMembers(ms: seq<Member>, first: bool): string
    decreases ms, 0
  {
    if ms == [] then ""
    else CompactMember(ms[0], first) + CompactMembers(ms[1..], false)
  }

  function CompactMember(m: Member, first: bool): string
    decreases m, 2
  {
    Comma(first) + Quoted(m.name) + ":" + Compact(m.node)
  }

  function CompactItems(ns: seq<Node>, first: bool): string
    decreases ns, 0
  {
    if ns == [] then "" else Comma(first) + Compact(ns[0]) + CompactItems(ns[1..], false)
  }

  lemma StripSeparator(f: Format, level: nat, first: bool, rest: string)
    ensures Clean(Separator(f, level, first) + rest) == Comma(first) + Clean(rest)
  {
    BlankFormat(f, level + 1);
    hide Indentation, Newline;
    var indent := Indentation(f, level + 1);
    StripBlank(indent, rest);
    if first {
      assert Separator(f, level, first) + rest == indent + rest;
    } else {
      assert Separator(f, level, first) + rest == [','] + (Newline(f) + (indent + rest));
      StripPlain(',', Newline(f) + (indent + rest));
      StripBlank(Newline(f), indent + rest);
    }
  }

  /** A closing bracket on its own line. */
  lemma StripClose(f: Format, level: nat, bracket: char, rest: string)
    requires IsPlain(bracket)
    ensures Clean(Newline(f) + Indentation(f, level) + [bracket] + rest) == [bracket] + Clean(rest)
  {
    BlankFormat(f, level);
    hide Indentation, Newline;
    assert Newline(f) + Indentation(f, level) + [bracket] + rest == Newline(f) + (Indentation(f, level) + ([bracket] + rest));
    StripBlank(Newline(f), Indentation(f, level) + ([bracket] + rest));
    StripBlank(Indentation(f, level), [bracket] + rest);
    StripPlain(bracket, rest);
  }

  lemma StripBracketed(open: char, close: char, printed: string, compact: string, f: Format, level: nat, rest: string)
    requires IsPlain(open) && IsPlain(close)
    requires var tail := Newline(f) + Indentation(f, level) + [close] + rest;
             Clean(printed + tail) == compact + Clean(tail)
    ensures Clean([open] + Newline(f) + printed + Newline(f) + Indentation(f, level) + [close] + rest)
            == [open] + compact + [close] + Clean(rest)
  {
    BlankFormat(f, level);
    hide Clean, Indentation, Newline;
    var tail := Newline(f) + Indentation(f, level) + [close] + rest;
    assert [open] + Newline(f) + printed + Newline(f) + Indentation(f, level) + [close] + rest
        == [open] + (Newline(f) + (printed + tail));
    StripPlain(open, Newline(f) + (printed + tail));
    StripBlank(Newline(f), printed + tail);
    StripClose(f, level, close, rest);
  }

  lemma {:induction false} StripNode(n: Node, f: Format, level: nat, rest: string)
    requires WellFormed(n)
    ensures Clean(Print(n, f, level) + rest) == Compact(n) + Clean(rest)
    decreases n, 1
  {
    hide Clean;
    match n
    case Value(k, t) => StripValue(k, t, rest);
    case Object(ms) =>
      var close := Newline(f) + Indentation(f, level) + "}" + rest;
      StripMembers(ms, f, level, true, close);
      StripBracketed('{', '}', PrintMembers(ms, f, level, true), CompactMembers(ms, true), f, level, rest);
    case Array(ns) =>
      var close := Newline(f) + Indentation(f, level) + "]" + rest;
      StripItems(ns, f, level, true, close);
      StripBracketed('[', ']', PrintItems(ns, f, level, true), CompactItems(ns, true), f, level, rest);
  }

  lemma StripMember(m: Member, f: Format, level: nat, first: bool, tail: string)
    requires Closed('\0', m.name)
    requires Clean(Print(m.node, f, level + 1) + tail) == Compact(m.node) + Clean(tail)
    ensures Clean(PrintMember(m, f, level, first) + tail) == CompactMember(m, first) + Clean(tail)
  {
    hide Clean, Separator, Spacing, Quoted, Print, Compact, Closed;
    var name, node := Quoted(m.name), Print(m.node, f, level + 1);
    assert PrintMember(m, f, level, first) + tail
        == Separator(f, level, first) + (name + ([':'] + (Spacing(f) + (node + tail))));
    StripSeparator(f, level, first, name + ([':'] + (Spacing(f) + (node + tail))));
    StripQuoted(m.name, [':'] + (Spacing(f) + (node + tail)));
    StripPlain(':', Spacing(f) + (node + tail));
    BlankFormat(f, level);
    StripBlank(Spacing(f), node + tail);
  }

  lemma {:induction false} StripMembers(ms: seq<Member>, f: Format, level: nat, first: bool, rest: string)
    requires MembersOk(ms)
    ensures Clean(PrintMembers(ms, f, level, first) + rest) == CompactMembers(ms, first) + Clean(rest)
    decreases ms, 0
  {
    hide Clean, PrintMember, CompactMember;
    if ms == [] {
      assert "" + rest == rest;
    } else {
      var tail := PrintMembers(ms[1..], f, level, false) + rest;
      assert PrintMembers(ms, f, level, first) + rest == PrintMember(ms[0], f, level, first) + tail;
      StripNode(ms[0].node, f, level + 1, tail);
      StripMember(ms[0], f, level, first, tail);
      StripMembers(ms[1..], f, level, false, rest);
    }
  }

  lemma StripItem(n: Node, f: Format, level: nat, first: bool, tail: string)
    requires Clean(Print(n, f, level + 1) + tail) == Compact(n) + Clean(tail)
    ensures Clean(PrintItem(n, f, level, first) + tail) == Comma(first) + Compact(n) + Clean(tail)
  {
    hide Clean, Separator, Print, Compact;
    assert PrintItem(n, f, level, first) + tail == Separator(f, level, first) + (Print(n, f, level + 1) + tail);
    StripSeparator(f, level, first, Print(n, f, level + 1) + tail);
  }

  lemma {:induction false} StripItems(ns: seq<Node>, f: Format, level: nat, first: bool, rest: string)
    requires ItemsOk(ns)
    ensures Clean(PrintItems(ns, f, level, first) + rest) == CompactItems(ns, first) + Clean(rest)
    decreases ns, 0
  {
    hide Clean, PrintItem, Print, Compact;
    if ns == [] {
      assert "" + rest == rest;
    } else {
      var tail := PrintItems(ns[1..], f, level, false) + rest;
      assert PrintItems(ns, f, level, first) + rest == PrintItem(ns[0], f, level, first) + tail;
      StripNode(ns[0], f, level + 1, tail);
      StripItem(ns[0], f, level, first, tail);
      StripItems(ns[1..], f, level, false, rest);
    }
  }

  lemma NoFormatPieces(level: nat, first: bool)
    ensures Separator(NO_FORMAT, level, first) == Comma(first)
    ensures Spacing(NO_FORMAT) == Newline(NO_FORMAT) == Indentation(NO_FORMAT, level) == ""
  {
  }

  lemma {:induction false} CompactIsNoFormat(n: Node, level: nat)
    ensures Print(n, NO_FORMAT, level) == Compact(n)
    decreases n, 1
  {
    NoFormatPieces(level, true);
    hide Newline, Indentation;
    match n
    case Value(_, _) =>
    case Object(ms) => CompactMembersAreNoFormat(ms, level, true);
    case Array(ns) => CompactItemsAreNoFormat(ns, level, true);
  }

  lemma {:induction false} CompactMembersAreNoFormat(ms: seq<Member>, level: nat, first: bool)
    ensures PrintMembers(ms, NO_FORMAT, level, first) == CompactMembers(ms, first)
    decreases ms, 0
  {
    hide Separator, Spacing, Quoted, Print, Compact;
    if ms != [] {
      NoFormatPieces(level, first);
      CompactIsNoFormat(ms[0].node, level + 1);
      CompactMembersAreNoFormat(ms[1..], level, false);
      assert Comma(first) + Quoted(ms[0].name) + ":" + "" == Comma(first) + Quoted(ms[0].name) + ":";
    }
  }

  lemma {:induction false} CompactItemsAreNoFormat(ns: seq<Node>, level: nat, first: bool)
    ensures PrintItems(ns, NO_FORMAT, level, first) == CompactItems(ns, first)
    decreases ns, 0
  {
    hide Separator, Print, Compact;
    if ns != [] {
      NoFormatPieces(level, first);
      CompactIsNoFormat(ns[0], level + 1);
      CompactItemsAreNoFormat(ns[1..], level, false);
    }
  }

  /** Stripping the white space of a tree printed in any format gives the tree printed in none. */
  lemma FormatIndependent(n: Node, f: Format)
    requires WellFormed(n)
    ensures Clean(Print(n, f, 0)) == Print(n, NO_FORMAT, 0)
  {
    hide Print, Compact;
    StripNode(n, f, 0, "");
    assert Print(n, f, 0) + "" == Print(n, f, 0) && Compact(n) + Clean("") == Compact(n);
    CompactIsNoFormat(n, 0);
  }

  // ---------- the grammar ----------

  lemma TwoItems(a: Node, b: Node)
    ensures CompactItems([a, b], true) == Compact(a) + ("," + Compact(b))
  {
    hide Compact;
    assert [a, b][1..] == [b] && [b][1..] == [];
    assert CompactItems([b], false) == "," + Compact(b);
    assert "" + Compact(a) == Compact(a);
  }

  lemma TwoMembers(a: Member, b: Member)
    ensures CompactMembers([a, b], true)
            == ("\"" + a.name + "\"" + ":" + Compact(a.node)) + ("," + ("\"" + b.name + "\"" + ":" + Compact(b.node)))
  {
    hide Compact;
    assert [a, b][1..] == [b] && [b][1..] == [];
    assert CompactMember(a, true) == "\"" + a.name + "\"" + ":" + Compact(a.node);
    assert CompactMember(b, false) == "," + ("\"" + b.name + "\"" + ":" + Compact(b.node));
    hide CompactMember;
    assert CompactMembers([b], false) == CompactMember(b, false);
  }

  /** Items stand between square brackets, separated by commas, and members between braces, each behind its name. */
  lemma CompactTwo(x: string, a: Node, y: string, b: Node, t: string)
    ensures Compact(Array([a, b])) == "[" + (Compact(a) + ("," + Compact(b))) + "]"
    ensures Compact(Object([Member(x, a), Member(y, b)]))
            == "{" + (("\"" + x + "\"" + ":" + Compact(a)) + ("," + ("\"" + y + "\"" + ":" + Compact(b)))) + "}"
    ensures Compact(Value(VNull, t)) == "null" && Compact(Value(VString, t)) == "\"" + Escape(t) + "\""
  {
    TwoItems(a, b);
    TwoMembers(Member(x, a), Member(y, b));
    hide CompactItems, CompactMembers, Escape;
  }
}
