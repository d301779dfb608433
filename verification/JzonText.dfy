/**
  Jzon's text level: trees, the two escapings, and the stripping of white space and comments that the
  parser applies before it reads anything.
 */
module JzonText {

  datatype ValueKind = VNull | VString | VNumber | VBool

  datatype Node =
    | Object(members: seq<Member>)
    | Array(items: seq<Node>)
    | Value(kind: ValueKind, text: string)

  datatype Member = Member(name: string, node: Node)

  // ---------- escaping ----------

  const BACKSPACE := '\U{0008}'
  const FORM_FEED := '\U{000C}'

  /** The second character of the escape of `c`; NUL if `c` is not escaped. */
  function Escaped(c: char): char {
    if c == '\\' then '\\'
    else if c == '"' then '"'
    else if c == '\n' then 'n'
    else if c == '\t' then 't'
    else if c == BACKSPACE then 'b'
    else if c == FORM_FEED then 'f'
    else if c == '\r' then 'r'
    else '\0'
  }

  /** The character the pair stands for; NUL if it is not an escape. */
  function Unescaped(c1: char, c2: char): char {
    if c1 != '\\' then '\0'
    else if c2 == '\\' then '\\'
    else if c2 == '"' then '"'
    else if c2 == 'n' then '\n'
    else if c2 == 't' then '\t'
    else if c2 == 'b' then BACKSPACE
    else if c2 == 'f' then FORM_FEED
    else if c2 == 'r' then '\r'
    else '\0'
  }

  function EscapeChar(c: char): string {
    if Escaped(c) != '\0' then ['\\', Escaped(c)] else [c]
  }

  function Escape(s: string): string {
    if s == "" then "" else EscapeChar(s[0]) + Escape(s[1..])
  }

  function Unescape(s: string): string {
    if s == "" then ""
    else
      var c2 := if |s| > 1 then s[1] else '\0';
      if Unescaped(s[0], c2) != '\0' then [Unescaped(s[0], c2)] + Unescape(s[2..])
      else [s[0]] + Unescape(s[1..])
  }

  lemma {:induction false} UnescapeEscape(s: string)
    ensures Unescape(Escape(s)) == s
  {
    if s != "" {
      UnescapeEscape(s[1..]);
      var e := Escape(s);
      if Escaped(s[0]) != '\0' {
        assert e[0] == '\\' && e[1] == Escaped(s[0]) && e[2..] == Escape(s[1..]);
      } else {
        assert e[0] == s[0] && e[1..] == Escape(s[1..]);
      }
    }
  }

  /** The seven escapes, each a backslash and one more character; all other characters are written as they are. */
  lemma EscapesAre(c: char)
    ensures EscapeChar('\\') == "\\\\" && EscapeChar('"') == "\\\"" && EscapeChar('\n') == "\\n" && EscapeChar('\t') == "\\t"
    ensures EscapeChar('\U{0008}') == "\\b" && EscapeChar('\U{000C}') == "\\f" && EscapeChar('\r') == "\\r"
    ensures c !in "\\\"\n\t\U{0008}\U{000C}\r" ==> EscapeChar(c) == [c]
  {
  }

  lemma UnescapePair(c: char, rest: string)
    requires Unescaped('\\', c) != '\0'
    ensures Unescape(['\\', c] + rest) == [Unescaped('\\', c)] + Unescape(rest)
  {
    assert (['\\', c] + rest)[2..] == rest;
  }

  lemma UnescapesAre(rest: string)
    ensures Unescape("\\\\" + rest) == "\\" + Unescape(rest) && Unescape("\\\"" + rest) == "\"" + Unescape(rest)
    ensures Unescape("\\n" + rest) == "\n" + Unescape(rest) && Unescape("\\t" + rest) == "\t" + Unescape(rest)
    ensures Unescape("\\b" + rest) == "\U{0008}" + Unescape(rest) && Unescape("\\f" + rest) == "\U{000C}" + Unescape(rest)
    ensures Unescape("\\r" + rest) == "\r" + Unescape(rest)
  {
    hide Unescape;
    UnescapePair('\\', rest);
    UnescapePair('"', rest);
    UnescapePair('n', rest);
    UnescapePair('t', rest);
    UnescapePair('b', rest);
    UnescapePair('f', rest);
    UnescapePair('r', rest);
  }

  /** A backslash before any other character stays, as does any other character. */
  lemma UnescapeOthers(c: char, rest: string)
    ensures c !in "\\\"ntbfr" ==> Unescape(['\\', c] + rest) == ['\\'] + Unescape([c] + rest)
    ensures c != '\\' ==> Unescape([c] + rest) == [c] + Unescape(rest)
  {
    assert (['\\', c] + rest)[1..] == [c] + rest && ([c] + rest)[1..] == rest;
  }

  lemma EscapeNext(value: string, i: nat, escaped: string)
    requires i < |value|
    ensures escaped + Escape(value[i..]) == escaped + EscapeChar(value[i]) + Escape(value[i + 1..])
  {
    hide EscapeChar;
    assert value[i..][0] == value[i] && value[i..][1..] == value[i + 1..];
  }

  lemma EscapeNothing()
    ensures Escape("") == ""
  {
  }

  method EscapeString(value: string) returns (escaped: string)
    ensures escaped == Escape(value)
  {
    hide Escape;
    escaped := "";
    assert value[0..] == value && escaped + Escape(value) == Escape(value);
    for i := 0 to |value|
      invariant Escape(value) == escaped + Escape(value[i..])
    {
      EscapeNext(value, i, escaped);
      if Escaped(value[i]) != '\0' {
        escaped := escaped + ['\\', Escaped(value[i])];
      } else {
        escaped := escaped + [value[i]];
      }
    }
    assert value[|value|..] == "";
    EscapeNothing();
  }

  method UnescapeString(value: string) returns (unescaped: string)
    ensures unescaped == Unescape(value)
  {
    unescaped := "";
    var i := 0;
    assert value[0..] == value && unescaped + Unescape(value) == Unescape(value);
    while i < |value|
      invariant i <= |value|
      invariant Unescape(value) == unescaped + Unescape(value[i..])
      decreases |value| - i
    {
      var c, c2 := value[i], '\0';
      if i + 1 < |value| {
        c2 := value[i + 1];
      }
      var a := Unescaped(c, c2);
      ghost var s, done := value[i..], unescaped;
      if a != '\0' {
        unescaped := unescaped + [a];
        i := i + 2;
        assert s[2..] == value[i..];
        assert done + ([a] + Unescape(value[i..])) == unescaped + Unescape(value[i..]);
      } else {
        unescaped := unescaped + [c];
        i := i + 1;
        assert s[1..] == value[i..];
        assert done + ([c] + Unescape(value[i..])) == unescaped + Unescape(value[i..]);
      }
    }
    assert unescaped + "" == unescaped;
  }

  // ---------- string bodies ----------

  /** Between quotes, `s` after the character `prev` ends exactly where it ends: every quote in it
      follows a backslash, and its last character is not a backslash. */
  predicate Closed(prev: char, s: string)
    decreases |s|
  {
    if s == "" then prev != '\\'
    else (s[0] == '"' ==> prev == '\\') && Closed(s[0], s[1..])
  }

  lemma ClosedPrev(p: char, q: char, s: string)
    requires p != '\\' && q != '\\'
    ensures Closed(p, s) == Closed(q, s)
  {
  }

  predicate EndsInBackslash(s: string) {
    s != "" && s[|s| - 1] == '\\'
  }

  /** An escaped string is a string body exactly when the original does not end in a backslash. */
  lemma {:induction false} EscapeClosed(prev: char, s: string)
    requires s == "" ==> prev != '\\'
    ensures Closed(prev, Escape(s)) <==> !EndsInBackslash(s)
    decreases |s|
  {
    if s != "" {
      var e, rest, last := Escape(s), Escape(s[1..]), if Escaped(s[0]) != '\0' then Escaped(s[0]) else s[0];
      if Escaped(s[0]) != '\0' {
        assert e[0] == '\\' && e[1..] == [last] + rest && e[1..][1..] == rest;
        assert Closed(prev, e) == Closed('\\', e[1..]) == Closed(last, rest);
      } else {
        assert e[0] == s[0] && e[1..] == rest;
        assert Closed(prev, e) == Closed(last, rest);
      }
      if s[1..] != "" {
        EscapeClosed(last, s[1..]);
        assert EndsInBackslash(s) == EndsInBackslash(s[1..]);
      }
    }
  }

  // ---------- white space and comments ----------

  datatype Scan = Scan(comment: bool, depth: int, inString: bool)

  const OUTSIDE := Scan(false, 0, false)
  const INSIDE := Scan(false, 0, true)

  predicate IsSpace(c: char) {
    c == '\n' || c == ' ' || c == '\t' || c == '\r' || c == FORM_FEED
  }

  /** What is left of `s`, which follows the character `prev`. */
  function Strip(prev: char, s: string, st: Scan): string
    decreases |s|
  {
    if s == "" then ""
    else
      var c1, c2 := s[0], if |s| > 1 then s[1] else '\0';
      var inString := if prev != '\\' && c1 == '"' then !st.inString else st.inString;
      if !inString && c1 == '/' && c2 == '*' then Strip(c2, s[2..], Scan(st.comment, st.depth + 1, false))
      else if !inString && c1 == '*' && c2 == '/' then Strip(c2, s[2..], Scan(st.comment, st.depth - 1, false))
      else if !inString && c1 == '/' && c2 == '/' then Strip(c2, s[2..], Scan(true, st.depth, false))
      else
        var comment := if !inString && c1 == '\n' then false else st.comment;
        (if comment || st.depth > 0 || (!inString && IsSpace(c1)) then "" else [c1])
        + Strip(c1, s[1..], Scan(comment, st.depth, inString))
  }

  function Clean(s: string): string {
    Strip('\0', s, OUTSIDE)
  }

  method RemoveWhitespace(json: string) returns (fresh_: string)
    ensures fresh_ == Clean(json)
  {
    fresh_ := "";
    var comment, multicomment, inString := false, 0, false;
    var it := 0;
    assert json[0..] == json && fresh_ + Clean(json) == Clean(json);
    while it < |json|
      invariant it <= |json|
      invariant Clean(json) ==
                fresh_ + Strip(if it == 0 then '\0' else json[it - 1], json[it..], Scan(comment, multicomment, inString))
      decreases |json| - it
    {
      var c0, c1, c2 := '\0', json[it], '\0';
      if it != 0 {
        c0 := json[it - 1];
      }
      if it + 1 != |json| {
        c2 := json[it + 1];
      }
      ghost var s, done := json[it..], fresh_;
      assert s[1..] == json[it + 1..];
      assert |s| > 1 ==> s[2..] == json[it + 2..];
      if c0 != '\\' && c1 == '"' {
        inString := !inString;
      }
      if !inString {
        if c1 == '/' && c2 == '*' {
          multicomment := multicomment + 1;
          it := it + 2;
          continue;
        } else if c1 == '*' && c2 == '/' {
          multicomment := multicomment - 1;
          it := it + 2;
          continue;
        } else if c1 == '/' && c2 == '/' {
          comment := true;
          it := it + 2;
          continue;
        } else if c1 == '\n' {
          comment := false;
        }
      }
      it := it + 1;
      ghost var rest := Strip(c1, json[it..], Scan(comment, multicomment, inString));
      assert done + ([c1] + rest) == done + [c1] + rest && done + ("" + rest) == done + rest;
      if comment || multicomment > 0 {
        continue;
      }
      if inString {
        fresh_ := fresh_ + [c1];
      } else if c1 != '\n' && c1 != ' ' && c1 != '\t' && c1 != '\r' && c1 != FORM_FEED {
        fresh_ := fresh_ + [c1];
      }
    }
    assert fresh_ + "" == fresh_;
  }
}
