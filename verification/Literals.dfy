/**
  Google Test prints a character array as a C string literal; here such literals are read back with the
  escape rules of C and the concatenation of adjacent literals.
 */
module Literals {
  import opened Wire

  // ---------- digits ----------

  predicate IsXDigit(c: char) {
    ('0' <= c <= '9') || ('a' <= c <= 'f') || ('A' <= c <= 'F')
  }

  predicate IsOctal(c: char) {
    '0' <= c <= '7'
  }

  function DigitValue(c: char): nat
    requires IsXDigit(c)
  {
    if c <= '9' then (c - '0') as nat else if c <= 'F' then (c - 'A') as nat + 10 else (c - 'a') as nat + 10
  }

  function HexDigit(d: nat): (c: char)
    requires d < 16
    ensures IsXDigit(c) && DigitValue(c) == d
  {
    if d < 10 then '0' + d as char else 'A' + (d - 10) as char
  }

  /** `%X` */
  function Hex(b: Byte): string {
    if b < 16 then [HexDigit(b)] else [HexDigit(b / 16), HexDigit(b % 16)]
  }

  // ---------- the printer ----------

  datatype CharFormat = AsIs | HexEscape | SpecialEscape

  datatype Piece = Piece(text: string, format: CharFormat)

  /** A character inside a character literal. */
  function CharLiteral(b: Byte): Piece {
    if b == 0x27 then Piece("\\'", SpecialEscape)
    else if b == 0 then Piece("\\0", SpecialEscape)
    else if b == 0x5C then Piece("\\\\", SpecialEscape)
    else if b == 7 then Piece("\\a", SpecialEscape)
    else if b == 8 then Piece("\\b", SpecialEscape)
    else if b == 12 then Piece("\\f", SpecialEscape)
    else if b == 10 then Piece("\\n", SpecialEscape)
    else if b == 13 then Piece("\\r", SpecialEscape)
    else if b == 9 then Piece("\\t", SpecialEscape)
    else if b == 11 then Piece("\\v", SpecialEscape)
    else if 0x20 <= b <= 0x7E then Piece([b as char], AsIs)
    else Piece("\\x" + Hex(b), HexEscape)
  }

  /** A character inside a string literal. */
  function Literal(b: Byte): Piece {
    if b == 0x27 then Piece("'", AsIs) else if b == 0x22 then Piece("\\\"", SpecialEscape) else CharLiteral(b)
  }

  function Body(s: Bytes, previousHex: bool): string
    decreases |s|
  {
    if s == [] then ""
    else
      (if previousHex && IsXDigit(s[0] as char) then "\" \"" else "")
      + Literal(s[0]).text + Body(s[1..], Literal(s[0]).format == HexEscape)
  }

  function Printed(s: Bytes): string {
    "\"" + Body(s, false) + "\""
  }

  const DIGITS := "0123456789ABCDEF"

  lemma DigitIs(d: nat)
    requires d < 16
    ensures HexDigit(d) == DIGITS[d]
  {
  }

  lemma HexIs(b: Byte)
    ensures Hex(b) == (if b < 16 then [] else [DIGITS[b / 16]]) + [DIGITS[b % 16]]
  {
    DigitIs(b / 16);
    DigitIs(b % 16);
  }

  /** Printable characters other than the quote and the backslash stand for themselves; ten others have an escape of
      their own; the rest is written in hexadecimal digits. */
  lemma CharLiteralIs(b: Byte)
    ensures CharLiteral(b).format == AsIs <==> 32 <= b < 127 && b != '\'' as int && b != '\\' as int
    ensures CharLiteral(b).format == SpecialEscape <==> b in {0, 7, 8, 9, 10, 11, 12, 13, '\'' as int, '\\' as int}
    ensures CharLiteral(b).format == AsIs ==> CharLiteral(b).text == [b as char]
    ensures CharLiteral(b).format == HexEscape ==>
              CharLiteral(b).text == "\\x" + (if b < 16 then [] else [DIGITS[b / 16]]) + [DIGITS[b % 16]]
  {
    HexIs(b);
  }

  lemma SpecialEscapes()
    ensures CharLiteral(0).text == "\\0" && CharLiteral(7).text == "\\a" && CharLiteral(8).text == "\\b"
    ensures CharLiteral(9).text == "\\t" && CharLiteral(10).text == "\\n" && CharLiteral(11).text == "\\v"
    ensures CharLiteral(12).text == "\\f" && CharLiteral(13).text == "\\r"
    ensures CharLiteral('\'' as int).text == "\\'" && CharLiteral('\\' as int).text == "\\\\"
  {
  }

  /** In a string literal it is the double quote that is escaped. */
  lemma LiteralIs(b: Byte)
    ensures Literal(b) == if b == '"' as int then Piece("\\\"", SpecialEscape)
                          else if b == '\'' as int then Piece("'", AsIs)
                          else CharLiteral(b)
  {
  }

  method PrintAsCharLiteralTo(c: Byte, os: string) returns (out: string, format: CharFormat)
    ensures out == os + CharLiteral(c).text && format == CharLiteral(c).format
  {
    format := SpecialEscape;
    match c {
      case 0 => out := os + "\\0";
      case 0x27 => out := os + "\\'";
      case 0x5C => out := os + "\\\\";
      case 7 => out := os + "\\a";
      case 8 => out := os + "\\b";
      case 12 => out := os + "\\f";
      case 10 => out := os + "\\n";
      case 13 => out := os + "\\r";
      case 9 => out := os + "\\t";
      case 11 => out := os + "\\v";
      case _ =>
        if 0x20 <= c <= 0x7E {
          out, format := os + [c as char], AsIs;
        } else {
          out, format := os + ("\\x" + Hex(c)), HexEscape;
        }
    }
  }

  method PrintAsStringLiteralTo(c: Byte, os: string) returns (out: string, format: CharFormat)
    ensures out == os + Literal(c).text && format == Literal(c).format
  {
    match c {
      case 0x27 => out, format := os + "'", AsIs;
      case 0x22 => out, format := os + "\\\"", SpecialEscape;
      case _ => out, format := PrintAsCharLiteralTo(c, os);
    }
  }

  lemma BodyNext(s: Bytes, i: nat, previousHex: bool, os: string)
    requires i < |s|
    ensures os + Body(s[i..], previousHex) ==
            (if previousHex && IsXDigit(s[i] as char) then os + "\" \"" else os)
            + Literal(s[i]).text + Body(s[i + 1..], Literal(s[i]).format == HexEscape)
  {
    hide Literal, IsXDigit;
    assert s[i..][0] == s[i] && s[i..][1..] == s[i + 1..];
    assert os + "" == os;
  }

  method PrintCharsAsStringTo(begin: array<Byte>, len: nat) returns (os: string)
    requires len <= begin.Length
    ensures os == Printed(begin[..len])
  {
    hide Literal, IsXDigit;
    var isPreviousHex := false;
    ghost var s := begin[..len];
    os := "\"";
    assert s[0..] == s;
    for index := 0 to len
      invariant "\"" + Body(s, false) == os + Body(s[index..], isPreviousHex)
    {
      var cur := begin[index];
      BodyNext(s, index, isPreviousHex, os);
      if isPreviousHex && IsXDigit(cur as char) {
        os := os + "\" \"";
      }
      var format;
      os, format := PrintAsStringLiteralTo(cur, os);
      isPreviousHex := format == HexEscape;
    }
    assert os + "" == os;
    os := os + "\"";
  }

  // ---------- the reader ----------

  /** The leading octal digits, at most `max`. */
  function OctalRun(s: string, max: nat): (n: nat)
    ensures n <= max && n <= |s|
  {
    if max > 0 && s != "" && IsOctal(s[0]) then 1 + OctalRun(s[1..], max - 1) else 0
  }

  /** The leading hexadecimal digits, however many. */
  function HexRun(s: string): (n: nat)
    ensures n <= |s| && forall i | 0 <= i < n :: IsXDigit(s[i])
  {
    if s != "" && IsXDigit(s[0]) then 1 + HexRun(s[1..]) else 0
  }

  function Number(digits: string, base: nat): nat
    requires forall i | 0 <= i < |digits| :: IsXDigit(digits[i])
  {
    if digits == "" then 0
    else Number(digits[..|digits| - 1], base) * base + DigitValue(digits[|digits| - 1])
  }

  function SimpleEscape(c: char): Option<Byte> {
    if c == '\'' then Some(0x27) else if c == '"' then Some(0x22) else if c == '?' then Some(0x3F)
    else if c == '\\' then Some(0x5C) else if c == 'a' then Some(7) else if c == 'b' then Some(8)
    else if c == 'f' then Some(12) else if c == 'n' then Some(10) else if c == 'r' then Some(13)
    else if c == 't' then Some(9) else if c == 'v' then Some(11) else None
  }

  function Then(v: nat, r: Option<Bytes>): Option<Bytes> {
    if r.Some? && v < 256 then Some([v] + r.value) else None
  }

  lemma OctalIsHex(s: string, max: nat)
    ensures forall i | 0 <= i < OctalRun(s, max) :: IsOctal(s[i]) && IsXDigit(s[i])
  {
    if max > 0 && s != "" && IsOctal(s[0]) {
      OctalIsHex(s[1..], max - 1);
      assert forall i | 1 <= i < OctalRun(s, max) :: s[i] == s[1..][i - 1];
    }
  }

  /** Adjacent literals, with spaces between them. */
  function Outside(s: string): Option<Bytes>
    decreases |s|
  {
    if s == "" then Some([])
    else if s[0] == ' ' then Outside(s[1..])
    else if s[0] == '"' then Inside(s[1..])
    else None
  }

  /** The rest of a literal, and the literals behind it; an escape never runs into the next literal. */
  function Inside(s: string): Option<Bytes>
    decreases |s|
  {
    if s == "" || s[0] == '\n' then None
    else if s[0] == '"' then Outside(s[1..])
    else if s[0] != '\\' then Then(s[0] as nat, Inside(s[1..]))
    else if |s| < 2 then None
    else if SimpleEscape(s[1]).Some? then Then(SimpleEscape(s[1]).value, Inside(s[2..]))
    else if IsOctal(s[1]) then
      OctalIsHex(s[1..], 3);
      var n := OctalRun(s[1..], 3);
      Then(Number(s[1..][..n], 8), Inside(s[1 + n..]))
    else if s[1] == 'x' && HexRun(s[2..]) > 0 then
      var n := HexRun(s[2..]);
      Then(Number(s[2..][..n], 16), Inside(s[2 + n..]))
    else None
  }

  // ---------- what is read ----------

  predicate OctalByte(b: Byte) {
    0x30 <= b <= 0x37
  }

  /** How many octal digits follow, at most two. */
  function Follow(s: Bytes): (k: nat)
    ensures k <= 2 && k <= |s|
  {
    if |s| >= 1 && OctalByte(s[0]) then (if |s| >= 2 && OctalByte(s[1]) then 2 else 1) else 0
  }

  function OctalDigit(b: Byte): (v: nat)
    requires OctalByte(b)
    ensures v < 8
  {
    var n: int := b;
    n - 0x30
  }

  function OctalValue(s: Bytes): (v: nat)
    requires |s| <= 2 && forall i | 0 <= i < |s| :: OctalByte(s[i])
    ensures v < 64
  {
    if s == [] then 0 else if |s| == 1 then OctalDigit(s[0]) else OctalDigit(s[0]) * 8 + OctalDigit(s[1])
  }

  /** A NUL swallows the octal digits behind it, up to two. */
  function Collapse(s: Bytes): Bytes
    decreases |s|
  {
    if s == [] then []
    else if s[0] == 0 then
      var k := Follow(s[1..]);
      [OctalValue(s[1..][..k])] + Collapse(s[1 + k..])
    else [s[0]] + Collapse(s[1..])
  }

  /** Somewhere a NUL is directly followed by an octal digit. */
  predicate NulBeforeDigit(s: Bytes) {
    exists i :: 0 <= i < |s| - 1 && s[i] == 0 && OctalByte(s[i + 1])
  }

  // ---------- reading back what was printed ----------

  lemma BodyStep(b: Byte, s: Bytes)
    ensures Body([b] + s, false) == Literal(b).text + Body(s, Literal(b).format == HexEscape)
    ensures Body([b] + s, true) ==
            if IsXDigit(b as char) then "\" \"" + Body([b] + s, false) else Body([b] + s, false)
  {
    hide Literal, IsXDigit;
    assert ([b] + s)[1..] == s;
  }

  /** The quote after the text, or its first character. */
  function First(s: Bytes, previousHex: bool): char {
    (Body(s, previousHex) + "\"")[0]
  }

  lemma LiteralStart(b: Byte)
    ensures var p := Literal(b);
            && p.text != "" && (p.format == AsIs ==> p.text == [b as char]) && (p.format != AsIs ==> p.text[0] == '\\')
            && (OctalByte(b) ==> p.format == AsIs)
  {
  }

  lemma FirstChar(t: string, rest: string)
    requires t != ""
    ensures t + rest != "" && (t + rest + "\"")[0] == t[0]
  {
  }

  lemma FirstIs(s: Bytes)
    ensures !IsXDigit(First(s, true))
    ensures IsOctal(First(s, false)) <==> s != [] && OctalByte(s[0])
    ensures s != [] && OctalByte(s[0]) ==> Body(s, false) == [s[0] as char] + Body(s[1..], false)
  {
    if s == [] {
      assert Body(s, true) + "\"" == "\"" && Body(s, false) + "\"" == "\"";
    } else {
      hide Literal, Body;
      LiteralStart(s[0]);
      BodyStep(s[0], s[1..]);
      assert [s[0]] + s[1..] == s;
      FirstChar(Literal(s[0]).text, Body(s[1..], Literal(s[0]).format == HexEscape));
    }
  }

  lemma ReadPlain(c: char, rest: string)
    requires c != '"' && c != '\\' && c != '\n'
    ensures Inside([c] + rest) == Then(c as nat, Inside(rest))
  {
    assert ([c] + rest)[1..] == rest;
  }

  lemma ReadSimple(c: char, rest: string)
    requires SimpleEscape(c).Some?
    ensures Inside(['\\', c] + rest) == Then(SimpleEscape(c).value, Inside(rest))
  {
    assert (['\\', c] + rest)[2..] == rest;
  }

  lemma InsideHex(s: string)
    requires |s| >= 2 && s[0] == '\\' && s[1] == 'x' && HexRun(s[2..]) > 0
    ensures var n := HexRun(s[2..]); Inside(s) == Then(Number(s[2..][..n], 16), Inside(s[2 + n..]))
  {
    hide HexRun, Number;
  }

  lemma {:induction false} HexRunIs(h: string, rest: string)
    requires rest != "" && !IsXDigit(rest[0]) && forall i | 0 <= i < |h| :: IsXDigit(h[i])
    ensures HexRun(h + rest) == |h|
  {
    if h == "" {
      assert h + rest == rest;
    } else {
      assert (h + rest)[1..] == h[1..] + rest;
      HexRunIs(h[1..], rest);
    }
  }

  lemma OneDigit(d: char)
    requires IsXDigit(d)
    ensures Number([d], 16) == DigitValue(d)
  {
    assert [d][..0] == "";
  }

  lemma HexNumber(b: Byte)
    ensures Hex(b) != "" && forall i | 0 <= i < |Hex(b)| :: IsXDigit(Hex(b)[i])
    ensures Number(Hex(b), 16) == b
  {
    var h := Hex(b);
    if b >= 16 {
      OneDigit(HexDigit(b / 16));
      assert h[..1] == [HexDigit(b / 16)];
    } else {
      OneDigit(HexDigit(b));
    }
  }

  lemma ReadHex(b: Byte, rest: string)
    requires rest != "" && !IsXDigit(rest[0])
    ensures Inside("\\x" + Hex(b) + rest) == Then(b, Inside(rest))
  {
    hide HexRun, Number, Hex, Inside, IsXDigit;
    var s, h := "\\x" + Hex(b) + rest, Hex(b);
    HexNumber(b);
    HexRunIs(h, rest);
    assert s[2..] == h + rest && s[2..][..|h|] == h && s[2 + |h|..] == rest;
    InsideHex(s);
  }

  /** One digit of that run. */
  lemma DigitRun(s: Bytes, max: nat)
    ensures var rest := Body(s, false) + "\"";
            if max > 0 && s != [] && OctalByte(s[0]) then
              && rest[0] == s[0] as char && rest[1..] == Body(s[1..], false) + "\""
              && OctalRun(rest, max) == 1 + OctalRun(rest[1..], max - 1)
            else OctalRun(rest, max) == 0
  {
    hide Body;
    FirstIs(s);
  }

  /** After `\0` come the digits that belong to it, and then other text. */
  lemma NulRun(s: Bytes)
    ensures var k, rest := Follow(s), Body(s, false) + "\"";
            && k <= |rest| && OctalRun(rest, 2) == k && rest[k..] == Body(s[k..], false) + "\""
            && forall i | 0 <= i < k :: OctalByte(s[i]) && rest[i] == s[i] as char
  {
    hide Body, OctalRun;
    var rest := Body(s, false) + "\"";
    DigitRun(s, 2);
    if Follow(s) > 0 {
      DigitRun(s[1..], 1);
      assert rest[1..] == Body(s[1..], false) + "\"";
      if Follow(s) == 2 {
        DigitRun(s[2..], 0);
        assert rest[2..] == rest[1..][1..] && s[1..][1..] == s[2..] && s[1..][0] == s[1];
      }
    } else {
      assert rest[0..] == rest && s[0..] == s;
    }
  }

  lemma OctalNumber(s: Bytes, digits: string)
    requires |s| == |digits| <= 2 && forall i | 0 <= i < |s| :: OctalByte(s[i]) && digits[i] == s[i] as char
    ensures forall i | 0 <= i < 1 + |digits| :: IsXDigit(("0" + digits)[i])
    ensures Number("0" + digits, 8) == OctalValue(s)
  {
    var d := "0" + digits;
    assert d[..1] == "0" && "0"[..0] == "";
    assert Number("0", 8) == 0;
    if |s| == 2 {
      assert d[..2][..1] == "0";
      assert Number(d[..2], 8) == OctalDigit(s[0]);
    }
  }

  lemma InsideOctal(s: string)
    requires |s| >= 2 && s[0] == '\\' && IsOctal(s[1])
    ensures var n := OctalRun(s[1..], 3);
            && (forall i | 0 <= i < n :: IsXDigit(s[1..][..n][i]))
            && Inside(s) == Then(Number(s[1..][..n], 8), Inside(s[1 + n..]))
  {
    hide HexRun, Then, Number, OctalRun, DigitValue;
    OctalIsHex(s[1..], 3);
    assert SimpleEscape(s[1]) == None;
  }

  lemma ReadNul(s: Bytes)
    ensures Inside("\\0" + Body(s, false) + "\"")
            == Then(OctalValue(s[..Follow(s)]), Inside(Body(s[Follow(s)..], false) + "\""))
  {
    hide Body, Follow, OctalValue, Inside, Number;
    var k, rest := Follow(s), Body(s, false) + "\"";
    NulRun(s);
    OctalNumber(s[..k], rest[..k]);
    var text := "\\0" + Body(s, false) + "\"";
    assert text[0] == '\\' && text[1] == '0' && text[1..] == "0" + rest && text[1..][1..] == rest;
    assert text[1..][..1 + k] == "0" + rest[..k] && text[2 + k..] == rest[k..];
    assert OctalRun(text[1..], 3) == 1 + k;
    hide OctalRun;
    InsideOctal(text);
  }

  lemma NulLiteral()
    ensures Literal(0) == Piece("\\0", SpecialEscape)
  {
  }

  lemma CollapseStep(s: Bytes)
    requires s != []
    ensures s[0] != 0 ==> Collapse(s) == [s[0]] + Collapse(s[1..])
    ensures s[0] == 0 ==> var k := Follow(s[1..]); Collapse(s) == [OctalValue(s[1..][..k])] + Collapse(s[1 + k..])
  {
  }

  lemma NothingInside(previousHex: bool)
    ensures Inside(Body([], previousHex) + "\"") == Some(Collapse([]))
  {
    assert Body([], previousHex) + "\"" == "\"" && "\""[1..] == "";
    assert Outside("") == Some([]);
  }

  lemma ReadBreak(rest: string)
    ensures Inside("\" \"" + rest) == Inside(rest)
  {
    var s := "\" \"" + rest;
    assert s[1..][1..][1..] == rest;
    assert s[1..][0] == ' ' && s[1..][1..][0] == '"';
    assert Inside(s) == Outside(s[1..]) == Outside(s[1..][1..]);
  }

  lemma SimpleLiteral(b: Byte)
    requires b != 0 && Literal(b).format == SpecialEscape
    ensures var t := Literal(b).text; |t| == 2 && t == ['\\', t[1]] && SimpleEscape(t[1]) == Some(b)
  {
  }

  /** Every character but NUL is read as itself, whatever follows it. */
  lemma ReadOne(b: Byte, s: Bytes)
    requires b != 0
    ensures var hex := Literal(b).format == HexEscape;
            Inside(Literal(b).text + Body(s, hex) + "\"") == Then(b, Inside(Body(s, hex) + "\""))
  {
    hide Inside, Body, SimpleEscape;
    var piece := Literal(b);
    var rest := Body(s, piece.format == HexEscape) + "\"";
    assert piece.text + Body(s, piece.format == HexEscape) + "\"" == piece.text + rest;
    match piece.format
    case AsIs => ReadPlain(b as char, rest);
    case HexEscape =>
      FirstIs(s);
      ReadHex(b, rest);
    case SpecialEscape =>
      SimpleLiteral(b);
      ReadSimple(piece.text[1], rest);
  }

  lemma {:induction false} InsideReads(s: Bytes, previousHex: bool)
    ensures Inside(Body(s, previousHex) + "\"") == Some(Collapse(s))
    decreases |s|, previousHex
  {
    hide Body, Inside, Literal, Collapse;
    if s == [] {
      NothingInside(previousHex);
    } else if previousHex && IsXDigit(s[0] as char) {
      InsideReads(s, false);
      BodyStep(s[0], s[1..]);
      assert [s[0]] + s[1..] == s;
      ReadBreak(Body(s, false) + "\"");
      assert Body(s, true) + "\"" == "\" \"" + (Body(s, false) + "\"");
    } else {
      BodyStep(s[0], s[1..]);
      assert [s[0]] + s[1..] == s;
      if s[0] == 0 {
        var k := Follow(s[1..]);
        InsideReads(s[1 + k..], false);
        assert s[1..][k..] == s[1 + k..];
        NulLiteral();
        ReadNul(s[1..]);
        CollapseStep(s);
        hide Follow, OctalValue;
      } else {
        var hex := Literal(s[0]).format == HexEscape;
        InsideReads(s[1..], hex);
        ReadOne(s[0], s[1..]);
        CollapseStep(s);
      }
    }
  }

  /** What a C compiler reads, for every array. */
  lemma PrintedReads(s: Bytes)
    ensures Outside(Printed(s)) == Some(Collapse(s))
  {
    InsideReads(s, false);
    hide Body, Inside, Collapse;
    assert Printed(s)[1..] == Body(s, false) + "\"";
  }

  lemma {:induction false} CollapseLength(s: Bytes)
    ensures |Collapse(s)| <= |s|
    ensures NulBeforeDigit(s) ==> |Collapse(s)| < |s|
    ensures !NulBeforeDigit(s) ==> Collapse(s) == s
    decreases |s|
  {
    if s != [] {
      CollapseStep(s);
      var k := if s[0] == 0 then Follow(s[1..]) else 0;
      CollapseLength(s[1 + k..]);
      if k == 0 {
        assert forall i | 1 <= i < |s| :: s[i] == s[1..][i - 1];
        assert NulBeforeDigit(s[1..]) ==> NulBeforeDigit(s);
        assert s[0] == 0 && |s| > 1 ==> s[1] == s[1..][0];
        assert [s[0]] + s[1..] == s;
        assert s[0] == 0 ==> OctalValue(s[1..][..0]) == 0;
      } else {
        assert s[1] == s[1..][0] && OctalByte(s[1]) && s[0] == 0;
        assert NulBeforeDigit(s);
      }
    }
  }

  /** The printed literal stands for the array exactly when no NUL is directly followed by an octal
      digit. */
  lemma PrintedReadsIff(s: Bytes)
    ensures Outside(Printed(s)) == Some(s) <==> !NulBeforeDigit(s)
  {
    PrintedReads(s);
    CollapseLength(s);
    hide Collapse, Outside, NulBeforeDigit;
  }
}
