/**
  Google Test's simple regular expressions: the validator, the backtracking matcher and the anchored
  copy used for full matches, against the languages the expressions denote.
 */
module Regex {

  /** What a C string can hold before its terminator. */
  type Chars = s: string | '\0' !in s witness ""

  /** A `const char*`. */
  datatype CString = Null | Str(chars: Chars)

  const SIZE_MAX := 0xFFFF_FFFF_FFFF_FFFF

  // ---------- characters ----------

  predicate IsInSet(ch: char, s: string) {
    ch != '\0' && ch in s
  }

  predicate IsAsciiDigit(ch: char) { '0' <= ch <= '9' }
  predicate IsAsciiPunct(ch: char) { IsInSet(ch, "^-!\"#$%&'()*+,./:;<=>?@[\\]_`{|}~") }
  predicate IsRepeat(ch: char) { IsInSet(ch, "?*+") }
  predicate IsAsciiWhiteSpace(ch: char) { IsInSet(ch, " \U{000C}\n\r\t\U{000B}") }

  predicate IsAsciiWordChar(ch: char) {
    ('a' <= ch <= 'z') || ('A' <= ch <= 'Z') || ('0' <= ch <= '9') || ch == '_'
  }

  predicate IsValidEscape(c: char) {
    IsAsciiPunct(c) || IsInSet(c, "dDfnrsStvwW")
  }

  predicate AtomMatchesChar(escaped: bool, p: char, ch: char) {
    if escaped then
      match p
      case 'd' => IsAsciiDigit(ch)
      case 'D' => !IsAsciiDigit(ch)
      case 'f' => ch == '\U{000C}'
      case 'n' => ch == '\n'
      case 'r' => ch == '\r'
      case 's' => IsAsciiWhiteSpace(ch)
      case 'S' => !IsAsciiWhiteSpace(ch)
      case 't' => ch == '\t'
      case 'v' => ch == '\U{000B}'
      case 'w' => IsAsciiWordChar(ch)
      case 'W' => !IsAsciiWordChar(ch)
      case _ => IsAsciiPunct(p) && p == ch
    else (p == '.' && ch != '\n') || p == ch
  }

  // ---------- characters by their codes ----------

  predicate Digit(n: int) { 48 <= n <= 57 }
  predicate Letter(n: int) { 65 <= n <= 90 || 97 <= n <= 122 }

  /** The escapes that stand for classes, and those that stand for one control character. */
  lemma EscapesByCode(ch: char)
    ensures var n := ch as int;
            && (AtomMatchesChar(true, 'd', ch) <==> Digit(n))
            && (AtomMatchesChar(true, 'w', ch) <==> Digit(n) || Letter(n) || n == 95)
            && (AtomMatchesChar(true, 's', ch) <==> 9 <= n <= 13 || n == 32)
            && (AtomMatchesChar(true, 'D', ch) <==> !AtomMatchesChar(true, 'd', ch))
            && (AtomMatchesChar(true, 'W', ch) <==> !AtomMatchesChar(true, 'w', ch))
            && (AtomMatchesChar(true, 'S', ch) <==> !AtomMatchesChar(true, 's', ch))
            && (AtomMatchesChar(true, 't', ch) <==> n == 9)
            && (AtomMatchesChar(true, 'n', ch) <==> n == 10)
            && (AtomMatchesChar(true, 'v', ch) <==> n == 11)
            && (AtomMatchesChar(true, 'f', ch) <==> n == 12)
            && (AtomMatchesChar(true, 'r', ch) <==> n == 13)
  {
  }

  /** Punctuation is what is printable, other than the space, and neither a letter nor a digit. */
  lemma PunctByCode(ch: char)
    ensures var n := ch as int; IsAsciiPunct(ch) <==> 33 <= n <= 126 && !Digit(n) && !Letter(n)
  {
  }

  /** An escaped punctuation character stands for itself, as does any character but the dot that is not escaped; the
      dot stands for all but the line break. */
  lemma OthersByCode(c: char, ch: char)
    ensures IsAsciiPunct(c) ==> (AtomMatchesChar(true, c, ch) <==> ch == c)
    ensures c != '.' ==> (AtomMatchesChar(false, c, ch) <==> ch == c)
    ensures AtomMatchesChar(false, '.', ch) <==> ch as int != 10
  {
    PunctByCode(c);
    hide IsAsciiPunct, IsAsciiWhiteSpace, IsAsciiWordChar;
  }

  // ---------- languages ----------

  datatype Re = Eps | Atom(escaped: bool, c: char) | Cat(Re, Re) | Alt(Re, Re) | Star(Re)

  /** `s` is in the language of `r`. */
  predicate In(r: Re, s: string)
    decreases r, |s|
  {
    match r
    case Eps => s == ""
    case Atom(e, c) => |s| == 1 && AtomMatchesChar(e, c, s[0])
    case Cat(a, b) => exists k :: 0 <= k <= |s| && In(a, s[..k]) && In(b, s[k..])
    case Alt(a, b) => In(a, s) || In(b, s)
    case Star(a) => s == "" || exists k :: 0 < k <= |s| && In(a, s[..k]) && In(r, s[k..])
  }

  // ---------- syntax ----------

  /** An atom with the repetition behind it, NUL if there is none. */
  datatype Item = Item(escaped: bool, c: char, repeat: char)

  /** An expression without its `^`. */
  datatype Tail = Tail(items: seq<Item>, atEnd: bool)

  datatype Pattern = Pattern(atStart: bool, tail: Tail)

  predicate ItemOk(it: Item) {
    && (if it.escaped then IsValidEscape(it.c)
        else it.c != '\0' && it.c != '\\' && !IsInSet(it.c, "^$?*+") && !IsInSet(it.c, "()[]{}|"))
    && (it.repeat == '\0' || IsRepeat(it.repeat))
  }

  predicate TailOk(t: Tail) {
    forall it | it in t.items :: ItemOk(it)
  }

  function ShowItem(it: Item): string {
    (if it.escaped then "\\" else "") + [it.c] + (if it.repeat == '\0' then "" else [it.repeat])
  }

  function ShowItems(items: seq<Item>): string {
    if items == [] then "" else ShowItem(items[0]) + ShowItems(items[1..])
  }

  function ShowTail(t: Tail): string {
    ShowItems(t.items) + if t.atEnd then "$" else ""
  }

  function Show(p: Pattern): string {
    (if p.atStart then "^" else "") + ShowTail(p.tail)
  }

  // ---------- meaning ----------

  function ItemMeaning(it: Item): Re {
    var a := Atom(it.escaped, it.c);
    if it.repeat == '?' then Alt(Eps, a)
    else if it.repeat == '*' then Star(a)
    else if it.repeat == '+' then Cat(a, Star(a))
    else a
  }

  function Meaning(items: seq<Item>): Re {
    if items == [] then Eps else Cat(ItemMeaning(items[0]), Meaning(items[1..]))
  }

  /** A prefix of `s` is in the language; under `$` that prefix is all of `s`. */
  predicate HeadMatches(t: Tail, s: string) {
    exists k :: 0 <= k <= |s| && (t.atEnd ==> k == |s|) && In(Meaning(t.items), s[..k])
  }

  /** A substring is in the language, at the ends to which the anchors tie it. */
  predicate SomewhereMatches(p: Pattern, s: string) {
    exists i, j :: 0 <= i <= j <= |s| && (p.atStart ==> i == 0) && (p.tail.atEnd ==> j == |s|)
                   && In(Meaning(p.tail.items), s[i..j])
  }

  // ---------- validation ----------

  /** The rest of an expression is valid: `first` where a `^` may stand, `repeatable` where a
      repetition may. */
  predicate Accepts(s: string, first: bool, repeatable: bool)
    decreases |s|
  {
    if s == "" then true
    else if s[0] == '\\' then |s| > 1 && IsValidEscape(s[1]) && Accepts(s[2..], false, true)
    else
      && (s[0] == '^' ==> first) && (s[0] == '$' ==> |s| == 1) && !IsInSet(s[0], "()[]{}|")
      && (IsRepeat(s[0]) ==> repeatable)
      && Accepts(s[1..], false, !IsInSet(s[0], "^$?*+"))
  }

  predicate ValidTail(s: Chars) {
    Accepts(s, false, false)
  }

  predicate Valid(s: Chars) {
    Accepts(s, true, false)
  }

  method ValidateRegex(regex: CString) returns (isValid: bool)
    ensures isValid <==> regex.Str? && Valid(regex.chars)
  {
    if regex.Null? {
      return false;
    }
    var s := regex.chars;
    isValid := true;
    var prevRepeatable := false;
    var i := 0;
    assert s[0..] == s;
    while i < |s|
      invariant i <= |s|
      invariant isValid && Accepts(s[i..], i == 0, prevRepeatable) <==> Valid(s)
      decreases |s| - i
    {
      assert s[i..][1..] == s[i + 1..];
      assert i + 1 < |s| ==> s[i..][2..] == s[i + 2..];
      if s[i] == '\\' {
        i := i + 1;
        if i == |s| {
          return false;
        }
        if !IsValidEscape(s[i]) {
          isValid := false;
        }
        prevRepeatable := true;
      } else {
        var ch := s[i];
        if ch == '^' && i > 0 {
          isValid := false;
        } else if ch == '$' && i + 1 != |s| {
          isValid := false;
        } else if IsInSet(ch, "()[]{}|") {
          isValid := false;
        } else if IsRepeat(ch) && !prevRepeatable {
          isValid := false;
        }
        prevRepeatable := !IsInSet(ch, "^$?*+");
      }
      i := i + 1;
    }
  }

  // ---------- reading the syntax back ----------

  function At(s: string, i: nat): char {
    if i < |s| then s[i] else '\0'
  }

  function FirstItem(s: Chars): Item
    requires ValidTail(s) && s != "" && s[0] != '$'
  {
    var a := if s[0] == '\\' then 1 else 0;
    Item(a == 1, s[a], if IsRepeat(At(s, a + 1)) then s[a + 1] else '\0')
  }

  /** Only a repetition depends on what stands before it. */
  lemma AcceptsAny(s: string)
    requires s == "" || !IsRepeat(s[0])
    ensures Accepts(s, false, true) == Accepts(s, false, false)
  {
  }

  lemma FirstItemOk(s: Chars)
    requires ValidTail(s) && s != "" && s[0] != '$'
    ensures var it := FirstItem(s); var n := |ShowItem(it)|;
            ItemOk(it) && n <= |s| && s == ShowItem(it) + s[n..] && ValidTail(s[n..])
  {
    hide IsValidEscape;
    var it := FirstItem(s);
    var a := if s[0] == '\\' then 1 else 0;
    var rest := s[a + 1..];
    assert s == ShowItem(it.(repeat := '\0')) + rest;
    assert Accepts(rest, false, true);
    if rest != "" && IsRepeat(rest[0]) {
      assert s == ShowItem(it) + rest[1..];
    } else {
      AcceptsAny(rest);
    }
  }

  function TailOf(s: Chars): Tail
    requires ValidTail(s)
    decreases |s|
  {
    if s == "" then Tail([], false)
    else if s[0] == '$' then Tail([], true)
    else
      FirstItemOk(s);
      var it := FirstItem(s);
      var t := TailOf(s[|ShowItem(it)|..]);
      t.(items := [it] + t.items)
  }

  lemma NoCaret(s: string)
    requires s == "" || s[0] != '^'
    ensures Accepts(s, true, false) == Accepts(s, false, false)
  {
  }

  function PatternOf(s: Chars): Pattern
    requires Valid(s)
  {
    if s != "" && s[0] == '^' then Pattern(true, TailOf(s[1..])) else NoCaret(s); Pattern(false, TailOf(s))
  }

  lemma ItemShown(it: Item)
    ensures ShowItem(it) != ""
  {
  }

  lemma {:induction false} ShowTailOf(s: Chars)
    requires ValidTail(s)
    ensures TailOk(TailOf(s)) && ShowTail(TailOf(s)) == s
    decreases |s|
  {
    hide ShowItem, ItemOk, IsInSet, IsRepeat, IsValidEscape;
    if s != "" && s[0] != '$' {
      FirstItemOk(s);
      var it := FirstItem(s);
      var rest := s[|ShowItem(it)|..];
      ItemShown(it);
      ShowTailOf(rest);
      var t := TailOf(rest);
      assert ([it] + t.items)[1..] == t.items;
      assert ShowTail(TailOf(s)) == ShowItem(it) + ShowTail(t);
    }
  }

  lemma RepeatAccepted(repeat: char, rest: Chars)
    requires ValidTail(rest) && (repeat == '\0' || IsRepeat(repeat))
    ensures var tail := (if repeat == '\0' then "" else [repeat]) + rest;
            Accepts(tail, false, true) && (if repeat == '\0' then !IsRepeat(At(tail, 0)) else At(tail, 0) == repeat)
  {
    if repeat == '\0' {
      assert "" + rest == rest;
      assert rest != "" ==> !IsRepeat(rest[0]);
      AcceptsAny(rest);
    } else {
      assert ([repeat] + rest)[1..] == rest;
    }
  }

  lemma ItemAccepted(it: Item, rest: Chars)
    requires ItemOk(it) && ValidTail(rest)
    ensures var s := ShowItem(it) + rest;
            '\0' !in s && s[0] != '$' && s[0] != '^' && ValidTail(s) && FirstItem(s) == it
  {
    var s := ShowItem(it) + rest;
    var tail := (if it.repeat == '\0' then "" else [it.repeat]) + rest;
    assert s == (if it.escaped then "\\" else "") + [it.c] + tail;
    RepeatAccepted(it.repeat, rest);
    hide IsAsciiPunct;
    if it.escaped {
      assert s[0] == '\\' && s[1] == it.c && s[2..] == tail;
    } else {
      assert s[0] == it.c && s[1..] == tail;
    }
  }

  lemma EndAccepted()
    ensures ValidTail("") && ValidTail("$")
  {
  }

  lemma {:induction false} TailOfShow(t: Tail)
    requires TailOk(t)
    ensures var s := ShowTail(t);
            '\0' !in s && (s == "" || s[0] != '^') && ValidTail(s) && TailOf(s) == t
    decreases |t.items|
  {
    hide ShowItem, ItemOk, IsInSet, IsRepeat, IsValidEscape;
    var s := ShowTail(t);
    if t.items == [] {
      EndAccepted();
      assert s == if t.atEnd then "$" else "";
    } else {
      var it, rest := t.items[0], t.(items := t.items[1..]);
      TailOfShow(rest);
      assert s == ShowItem(it) + ShowTail(rest);
      ItemAccepted(it, ShowTail(rest));
      assert s[|ShowItem(it)|..] == ShowTail(rest);
      ItemShown(it);
      assert [it] + rest.items == t.items;
    }
  }

  predicate Shows(p: Pattern, s: string) {
    TailOk(p.tail) && Show(p) == s
  }

  lemma CaretAccepted(s: Chars)
    requires s != "" && s[0] == '^'
    ensures Valid(s) == ValidTail(s[1..])
  {
  }

  lemma ShowPatternOf(s: Chars)
    requires Valid(s)
    ensures Shows(PatternOf(s), s)
  {
    hide Accepts, TailOf;
    if s != "" && s[0] == '^' {
      CaretAccepted(s);
      ShowTailOf(s[1..]);
    } else {
      NoCaret(s);
      ShowTailOf(s);
    }
  }

  lemma PatternOfShow(p: Pattern)
    requires TailOk(p.tail)
    ensures '\0' !in Show(p) && Valid(Show(p)) && PatternOf(Show(p)) == p
  {
    TailOfShow(p.tail);
    var s := Show(p);
    hide Accepts, TailOf, TailOk, ShowTail;
    if p.atStart {
      assert s[0] == '^' && s[1..] == ShowTail(p.tail);
      CaretAccepted(s);
    } else {
      assert s == ShowTail(p.tail);
      NoCaret(s);
    }
  }

  /** The validator accepts exactly the expressions the grammar can write, and there is one reading of
      each. */
  lemma ValidIff(s: Chars)
    ensures Valid(s) <==> exists p :: Shows(p, s)
    ensures Valid(s) ==> forall p :: Shows(p, s) <==> p == PatternOf(s)
  {
    hide Accepts, TailOf, TailOk, ShowTail;
    if Valid(s) {
      ShowPatternOf(s);
    }
    forall p | Shows(p, s) ensures Valid(s) && PatternOf(s) == p {
      PatternOfShow(p);
    }
  }

  /** The valid expressions of one character, and of an escape. */
  lemma SingleValid(c: char)
    requires c != '\0'
    ensures Valid([c]) <==> c !in "\\?*+()[]{}|"
  {
    var s := [c];
    assert s[1..] == "" && Accepts(s[1..], false, true) && Accepts(s[1..], false, false);
    assert Accepts(s, true, false) <==> c != '\\' && !IsInSet(c, "()[]{}|") && !IsRepeat(c);
  }

  lemma EscapeValid(c: char)
    requires c != '\0'
    ensures Valid(['\\', c]) <==> (33 <= c as int <= 126 && !Digit(c as int) && !Letter(c as int)) || c in "dDfnrsStvwW"
  {
    PunctByCode(c);
    hide IsAsciiPunct;
    var s := ['\\', c];
    assert s[2..] == "" && Accepts(s[2..], false, true);
    assert Accepts(s, true, false) <==> IsValidEscape(c);
  }

  // ---------- matching ----------

  predicate AllMatch(escaped: bool, c: char, s: string) {
    forall i | 0 <= i < |s| :: AtomMatchesChar(escaped, c, s[i])
  }

  lemma {:induction false} StarIff(escaped: bool, c: char, s: string)
    ensures In(Star(Atom(escaped, c)), s) <==> AllMatch(escaped, c, s)
    decreases |s|
  {
    hide AtomMatchesChar;
    var a := Atom(escaped, c);
    if s != "" {
      StarIff(escaped, c, s[1..]);
      assert s[..1][0] == s[0];
      assert AllMatch(escaped, c, s) <==> AtomMatchesChar(escaped, c, s[0]) && AllMatch(escaped, c, s[1..]) by {
        assert forall i | 1 <= i < |s| :: s[i] == s[1..][i - 1];
      }
      assert forall k | 0 < k <= |s| && In(a, s[..k]) :: k == 1;
      assert In(Star(a), s) <==> In(a, s[..1]) && In(Star(a), s[1..]);
    }
  }

  /** How often an item's atom may match. */
  predicate CountOk(repeat: char, n: nat) {
    if repeat == '?' then n <= 1
    else if repeat == '*' then true
    else if repeat == '+' then n >= 1
    else n == 1
  }

  lemma PlusIff(it: Item, s: string)
    ensures In(Cat(Atom(it.escaped, it.c), Star(Atom(it.escaped, it.c))), s) <==> |s| >= 1 && AllMatch(it.escaped, it.c, s)
  {
    hide AtomMatchesChar;
    var a := Atom(it.escaped, it.c);
    assert forall k | 0 <= k <= |s| && In(a, s[..k]) :: k == 1;
    if |s| >= 1 {
      StarIff(it.escaped, it.c, s[1..]);
      assert s[..1][0] == s[0];
      assert forall i | 1 <= i < |s| :: s[i] == s[1..][i - 1];
      assert AllMatch(it.escaped, it.c, s) <==> In(a, s[..1]) && In(Star(a), s[1..]);
    }
  }

  lemma ItemIff(it: Item, s: string)
    ensures In(ItemMeaning(it), s) <==> CountOk(it.repeat, |s|) && AllMatch(it.escaped, it.c, s)
  {
    hide AtomMatchesChar;
    var a := Atom(it.escaped, it.c);
    StarIff(it.escaped, it.c, s);
    if it.repeat == '+' {
      PlusIff(it, s);
    }
  }

  /** How many characters a repetition takes, each of which its atom matches. */
  lemma RepeatIff(escaped: bool, c: char, s: string)
    ensures var all := forall i | 0 <= i < |s| :: AtomMatchesChar(escaped, c, s[i]);
            && (In(ItemMeaning(Item(escaped, c, '\0')), s) <==> |s| == 1 && all)
            && (In(ItemMeaning(Item(escaped, c, '?')), s) <==> |s| <= 1 && all)
            && (In(ItemMeaning(Item(escaped, c, '*')), s) <==> all)
            && (In(ItemMeaning(Item(escaped, c, '+')), s) <==> |s| >= 1 && all)
  {
    hide AtomMatchesChar, ItemMeaning;
    ItemIff(Item(escaped, c, '\0'), s);
    ItemIff(Item(escaped, c, '?'), s);
    ItemIff(Item(escaped, c, '*'), s);
    ItemIff(Item(escaped, c, '+'), s);
  }

  lemma HeadStep(it: Item, t: Tail, s: string)
    ensures HeadMatches(Tail([it] + t.items, t.atEnd), s) <==>
            exists k :: 0 <= k <= |s| && In(ItemMeaning(it), s[..k]) && HeadMatches(t, s[k..])
  {
    var whole, a, b := Meaning([it] + t.items), ItemMeaning(it), Meaning(t.items);
    assert ([it] + t.items)[1..] == t.items && whole == Cat(a, b);
    hide ItemMeaning, Meaning;
    if HeadMatches(Tail([it] + t.items, t.atEnd), s) {
      var m :| 0 <= m <= |s| && (t.atEnd ==> m == |s|) && In(whole, s[..m]);
      var k :| 0 <= k <= m && In(a, s[..m][..k]) && In(b, s[..m][k..]);
      assert s[..m][..k] == s[..k] && s[..m][k..] == s[k..][..m - k];
    }
    if k :| 0 <= k <= |s| && In(a, s[..k]) && HeadMatches(t, s[k..]) {
      var m :| 0 <= m <= |s[k..]| && (t.atEnd ==> m == |s[k..]|) && In(b, s[k..][..m]);
      var p := s[..k + m];
      assert p[..k] == s[..k] && p[k..] == s[k..][..m];
      assert In(whole, p);
    }
  }

  lemma HeadEmpty(s: string)
    ensures HeadMatches(Tail([], false), s) && (HeadMatches(Tail([], true), s) <==> s == "")
  {
    assert s[..0] == "" && s[..|s|] == s;
  }

  lemma HeadOnce(it: Item, t: Tail, s: string)
    requires it.repeat == '\0'
    ensures HeadMatches(Tail([it] + t.items, t.atEnd), s) <==>
            s != "" && AtomMatchesChar(it.escaped, it.c, s[0]) && HeadMatches(t, s[1..])
  {
    hide AtomMatchesChar, HeadMatches;
    HeadStep(it, t, s);
    if s != "" {
      assert s[..1][0] == s[0];
    }
  }

  method MatchRegexAtHead(regex: Chars, str: Chars) returns (found: bool)
    requires ValidTail(regex) && |str| < SIZE_MAX
    ensures found <==> HeadMatches(TailOf(regex), str)
    decreases |regex|, 0
  {
    hide Accepts, HeadMatches, AtomMatchesChar, CountOk;
    if regex == "" {
      HeadEmpty(str);
      return true;
    }
    if regex[0] == '$' {
      HeadEmpty(str);
      return str == "";
    }
    FirstItemOk(regex);
    ghost var it := FirstItem(regex);
    ghost var t := TailOf(regex[|ShowItem(it)|..]);
    var escaped := regex[0] == '\\';
    var p := if escaped then 1 else 0;
    if IsRepeat(At(regex, p + 1)) {
      found := MatchRepetitionAndRegexAtHead(escaped, regex[p], regex[p + 1], regex[p + 2..], str);
    } else {
      HeadOnce(it, t, str);
      if str != "" && AtomMatchesChar(escaped, regex[p], str[0]) {
        found := MatchRegexAtHead(regex[p + 1..], str[1..]);
      } else {
        found := false;
      }
    }
  }

  /** No number of matches of the item leaves a string the rest matches. */
  lemma NoMoreMatches(it: Item, t: Tail, s: string, i: nat)
    requires i <= |s| && IsRepeat(it.repeat)
    requires forall k | 0 <= k <= i && CountOk(it.repeat, k) :: !HeadMatches(t, s[k..])
    requires i == |s| || !AtomMatchesChar(it.escaped, it.c, s[i]) || (it.repeat == '?' && i == 1)
    ensures !HeadMatches(Tail([it] + t.items, t.atEnd), s)
  {
    hide HeadMatches, AtomMatchesChar, ItemMeaning;
    HeadStep(it, t, s);
    forall k | 0 <= k <= |s| && HeadMatches(t, s[k..]) ensures !In(ItemMeaning(it), s[..k]) {
      ItemIff(it, s[..k]);
      if k > i {
        assert s[..k][i] == s[i];
      }
    }
  }

  method MatchRepetitionAndRegexAtHead(escaped: bool, c: char, repeat: char, regex: Chars, str: Chars)
    returns (found: bool)
    requires ValidTail(regex) && IsRepeat(repeat) && |str| < SIZE_MAX
    ensures found <==> HeadMatches(Tail([Item(escaped, c, repeat)] + TailOf(regex).items, TailOf(regex).atEnd), str)
    decreases |regex|, 1
  {
    hide Accepts, HeadMatches, AtomMatchesChar, ItemMeaning, TailOf;
    ghost var it, t := Item(escaped, c, repeat), TailOf(regex);
    HeadStep(it, t, str);
    var minCount := if repeat == '+' then 1 else 0;
    var maxCount := if repeat == '?' then 1 else SIZE_MAX - 1;
    for i := 0 to maxCount + 1
      invariant i <= |str| && AllMatch(escaped, c, str[..i])
      invariant forall k | minCount <= k < i :: !HeadMatches(t, str[k..])
    {
      ItemIff(it, str[..i]);
      if i >= minCount {
        found := MatchRegexAtHead(regex, str[i..]);
        if found {
          return;
        }
      }
      if i == |str| || !AtomMatchesChar(escaped, c, str[i]) {
        NoMoreMatches(it, t, str, i);
        return false;
      }
      assert str[..i + 1] == str[..i] + [str[i]];
    }
    NoMoreMatches(it, t, str, 1);
    found := false;
  }

  lemma SomewhereIff(p: Pattern, s: string)
    ensures SomewhereMatches(p, s) <==>
            exists i :: 0 <= i <= |s| && (p.atStart ==> i == 0) && HeadMatches(p.tail, s[i..])
  {
    hide Meaning, In;
    if SomewhereMatches(p, s) {
      var i, j :| 0 <= i <= j <= |s| && (p.atStart ==> i == 0) && (p.tail.atEnd ==> j == |s|)
                  && In(Meaning(p.tail.items), s[i..j]);
      assert s[i..j] == s[i..][..j - i];
      assert HeadMatches(p.tail, s[i..]);
    }
    if i :| 0 <= i <= |s| && (p.atStart ==> i == 0) && HeadMatches(p.tail, s[i..]) {
      var k :| 0 <= k <= |s[i..]| && (p.tail.atEnd ==> k == |s[i..]|) && In(Meaning(p.tail.items), s[i..][..k]);
      assert s[i..][..k] == s[i..i + k];
    }
  }

  method MatchRegexAnywhere(regex: CString, str: CString) returns (found: bool)
    requires regex.Str? ==> Valid(regex.chars)
    requires str.Str? ==> |str.chars| < SIZE_MAX
    ensures found <==> regex.Str? && str.Str? && SomewhereMatches(PatternOf(regex.chars), str.chars)
  {
    hide Accepts, TailOf, HeadMatches, SomewhereMatches;
    if regex.Null? || str.Null? {
      return false;
    }
    var r, s := regex.chars, str.chars;
    if r != "" && r[0] == '^' {
      CaretAccepted(r);
      SomewhereIff(PatternOf(r), s);
      assert s[0..] == s;
      found := MatchRegexAtHead(r[1..], s);
      return;
    }
    NoCaret(r);
    SomewhereIff(PatternOf(r), s);
    for i := 0 to |s| + 1
      invariant forall k | 0 <= k < i :: !HeadMatches(TailOf(r), s[k..])
    {
      found := MatchRegexAtHead(r, s[i..]);
      if found {
        return;
      }
    }
    found := false;
  }

  // ---------- full matches ----------

  /** The copy RE::Init makes of a valid expression. */
  function FullPattern(s: Chars): string {
    (if s == "" || s[0] != '^' then "^" else "") + s + (if s == "" || s[|s| - 1] != '$' then "$" else "")
  }

  /** The last character is a dollar that stands for itself. */
  predicate EndsInEscapedDollar(s: Chars)
    requires Valid(s)
  {
    s != "" && s[|s| - 1] == '$' && !PatternOf(s).tail.atEnd
  }

  lemma SameItems(t: Tail, u: Tail)
    requires TailOk(t) && t.items == u.items
    ensures TailOk(u)
  {
  }

  /** The copy is the same expression between both anchors; but an escaped dollar at the end passes for
      an anchor. */
  lemma FullPatternReads(s: Chars)
    requires Valid(s)
    ensures '\0' !in FullPattern(s) && Valid(FullPattern(s))
    ensures PatternOf(FullPattern(s)) == Pattern(true, PatternOf(s).tail.(atEnd := !EndsInEscapedDollar(s)))
  {
    hide Accepts, TailOf, TailOk, ShowItems;
    ShowPatternOf(s);
    var p := PatternOf(s);
    var q := Pattern(true, p.tail.(atEnd := !EndsInEscapedDollar(s)));
    SameItems(p.tail, q.tail);
    PatternOfShow(q);
    assert Show(q) == FullPattern(s);
  }

  predicate FullMatches(s: Chars, str: string)
    requires Valid(s)
  {
    FullPatternReads(s);
    SomewhereMatches(PatternOf(FullPattern(s)), str)
  }

  class RE {
    var pattern: CString
    var fullPattern: CString
    var isValid: bool

    predicate Ready()
      reads this
    {
      && (isValid <==> pattern.Str? && Valid(pattern.chars))
      && (if isValid then
            '\0' !in FullPattern(pattern.chars) && Valid(FullPattern(pattern.chars))
            && fullPattern == Str(FullPattern(pattern.chars))
          else fullPattern == Null)
    }

    static method BuildFull(s: Chars) returns (buffer: string)
      ensures buffer == FullPattern(s)
    {
      buffer := "";
      if s == "" || s[0] != '^' {
        buffer := buffer + "^";
      }
      buffer := buffer + s;
      if s == "" || s[|s| - 1] != '$' {
        buffer := buffer + "$";
      }
    }

    constructor (regex: CString)
      ensures Ready() && pattern == regex
    {
      pattern, fullPattern := regex, Null;
      new;
      isValid := ValidateRegex(regex);
      if isValid {
        hide Valid, PatternOf, EndsInEscapedDollar, FullPattern;
        FullPatternReads(regex.chars);
        var buffer := BuildFull(regex.chars);
        fullPattern := Str(buffer);
      }
    }

    method FullMatch(str: CString) returns (found: bool)
      requires Ready() && (str.Str? ==> |str.chars| < SIZE_MAX)
      ensures found <==> isValid && str.Str? && FullMatches(pattern.chars, str.chars)
    {
      hide Valid, SomewhereMatches, PatternOf;
      found := isValid;
      if found {
        found := MatchRegexAnywhere(fullPattern, str);
      }
    }

    method PartialMatch(str: CString) returns (found: bool)
      requires Ready() && (str.Str? ==> |str.chars| < SIZE_MAX)
      ensures found <==> isValid && str.Str? && SomewhereMatches(PatternOf(pattern.chars), str.chars)
    {
      hide Valid, SomewhereMatches, PatternOf;
      found := isValid;
      if found {
        found := MatchRegexAnywhere(pattern, str);
      }
    }
  }

  // ---------- when a full match is one ----------

  /** A character the atom matches. */
  function SampleChar(escaped: bool, c: char): char {
    if !escaped then c
    else if c == 'd' then '0'
    else if c == 'f' then '\U{000C}'
    else if c == 'n' then '\n'
    else if c == 'r' then '\r'
    else if c == 's' || c == 'W' then ' '
    else if c == 't' then '\t'
    else if c == 'v' then '\U{000B}'
    else if IsAsciiPunct(c) then c
    else 'a'
  }

  lemma SampleMatches(it: Item)
    requires ItemOk(it)
    ensures AtomMatchesChar(it.escaped, it.c, SampleChar(it.escaped, it.c)) && SampleChar(it.escaped, it.c) != '\0'
  {
  }

  function Sample(items: seq<Item>): string {
    if items == [] then "" else [SampleChar(items[0].escaped, items[0].c)] + Sample(items[1..])
  }

  lemma {:induction false} SampleIn(items: seq<Item>)
    requires forall it | it in items :: ItemOk(it)
    ensures In(Meaning(items), Sample(items)) && '\0' !in Sample(items)
  {
    hide ItemOk, ItemMeaning, AtomMatchesChar;
    if items != [] {
      var it, w := items[0], Sample(items);
      SampleMatches(it);
      SampleIn(items[1..]);
      assert w[..1] == [SampleChar(it.escaped, it.c)] && w[1..] == Sample(items[1..]);
      ItemIff(it, w[..1]);
    }
  }

  lemma FirstPart(items: seq<Item>, w: string) returns (k: nat)
    requires items != [] && In(Meaning(items), w)
    ensures k <= |w| && In(ItemMeaning(items[0]), w[..k]) && In(Meaning(items[1..]), w[k..])
  {
    hide ItemMeaning;
    k :| 0 <= k <= |w| && In(ItemMeaning(items[0]), w[..k]) && In(Meaning(items[1..]), w[k..]);
  }

  lemma EmptyMeaning(w: string)
    ensures In(Meaning([]), w) <==> w == ""
  {
  }

  lemma AllMatchLast(it: Item, w: string)
    requires it.repeat == '\0' && CountOk(it.repeat, |w|) && AllMatch(it.escaped, it.c, w)
    ensures w != "" && AtomMatchesChar(it.escaped, it.c, w[|w| - 1])
  {
    hide AtomMatchesChar;
  }

  lemma {:induction false} WordEnd(items: seq<Item>, w: string)
    requires items != [] && items[|items| - 1].repeat == '\0' && In(Meaning(items), w)
    ensures w != "" && AtomMatchesChar(items[|items| - 1].escaped, items[|items| - 1].c, w[|w| - 1])
    decreases |items|
  {
    hide AtomMatchesChar, ItemMeaning, In, Meaning, AllMatch;
    var k := FirstPart(items, w);
    if |items| > 1 {
      WordEnd(items[1..], w[k..]);
    } else {
      assert items[1..] == [];
      EmptyMeaning(w[k..]);
      assert w[..k] == w;
      ItemIff(items[0], w);
      AllMatchLast(items[0], w);
    }
  }

  lemma {:induction false} LastShown(items: seq<Item>)
    requires items != []
    ensures var s, l := ShowItems(items), ShowItem(items[|items| - 1]);
            s != "" && s[|s| - 1] == l[|l| - 1]
    decreases |items|
  {
    hide ShowItem;
    ItemShown(items[0]);
    ItemShown(items[|items| - 1]);
    if |items| > 1 {
      LastShown(items[1..]);
    }
  }

  lemma NothingShown()
    ensures ShowItems([]) == ""
  {
  }

  lemma LastIsDollar(it: Item)
    requires ItemOk(it) && ShowItem(it)[|ShowItem(it)| - 1] == '$'
    ensures it == Item(true, '$', '\0')
  {
  }

  lemma EscapedDollarItem(s: Chars)
    requires Valid(s) && EndsInEscapedDollar(s)
    ensures var items := PatternOf(s).tail.items;
            items != [] && TailOk(PatternOf(s).tail) && items[|items| - 1] == Item(true, '$', '\0')
  {
    hide Accepts, TailOf, ShowItem, ShowItems, ItemOk;
    ShowPatternOf(s);
    var items := PatternOf(s).tail.items;
    assert s == (if PatternOf(s).atStart then "^" else "") + ShowItems(items);
    if items == [] {
      assert ShowItems(items) == "" by { NothingShown(); }
      assert false;
    }
    LastShown(items);
    LastIsDollar(items[|items| - 1]);
  }

  predicate InLanguage(s: Chars, str: string)
    requires Valid(s)
  {
    In(Meaning(PatternOf(s).tail.items), str)
  }

  lemma NotInLanguage(items: seq<Item>, str: string)
    requires items != [] && items[|items| - 1] == Item(true, '$', '\0') && str != "" && str[|str| - 1] == 'x'
    ensures !In(Meaning(items), str)
  {
    hide Meaning, In;
    if In(Meaning(items), str) {
      WordEnd(items, str);
      assert false;
    }
  }

  /** Otherwise there is a string of which only a prefix is in the language. */
  lemma FullMatchPrefix(s: Chars)
    requires Valid(s) && EndsInEscapedDollar(s)
    ensures exists str: Chars :: FullMatches(s, str) && !InLanguage(s, str)
  {
    EscapedDollarItem(s);
    FullPatternReads(s);
    hide Accepts, TailOf, Valid, PatternOf, Meaning, In, EndsInEscapedDollar, ItemOk, Sample, FullPattern;
    var items := PatternOf(s).tail.items;
    SampleIn(items);
    var w: Chars := Sample(items);
    var str: Chars := w + "x";
    assert str[0..|w|] == w;
    assert FullMatches(s, str);
    NotInLanguage(items, str);
  }

  /** FullMatch tells membership of the whole string, for all strings, exactly for the expressions that
      do not end in an escaped dollar. */
  lemma FullMatchIff(s: Chars)
    requires Valid(s)
    ensures (forall str: Chars :: FullMatches(s, str) <==> InLanguage(s, str)) <==> !EndsInEscapedDollar(s)
  {
    hide Accepts, TailOf, Valid, PatternOf, Meaning, In, EndsInEscapedDollar;
    FullPatternReads(s);
    if EndsInEscapedDollar(s) {
      FullMatchPrefix(s);
    } else {
      forall str: Chars ensures FullMatches(s, str) <==> InLanguage(s, str) {
        assert str[0..|str|] == str;
      }
    }
  }
}
