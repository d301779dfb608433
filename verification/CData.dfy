/**
  Google Test's XML report: text in CDATA sections, and the XML reader that must get the text back.
 */
module CData {
  import opened Wire

  const OPEN := "<![CDATA["
  const CLOSE := "]]>"
  const BREAK := "]]>]]&gt;<![CDATA["

  predicate StartsWith(s: string, p: string) {
    |p| <= |s| && s[..|p|] == p
  }

  lemma StartsClose(s: string)
    ensures StartsWith(s, CLOSE) <==> |s| >= 3 && s[0] == ']' && s[1] == ']' && s[2] == '>'
  {
    if |s| >= 3 {
      assert s[..3] == [s[0], s[1], s[2]];
    }
  }

  /** The first place from which `CLOSE` can be read, or the length. */
  function FirstClose(s: string): (i: nat)
    ensures i <= |s|
  {
    if s == "" || StartsWith(s, CLOSE) then 0 else 1 + FirstClose(s[1..])
  }

  lemma {:induction false} FirstCloseStarts(s: string)
    ensures var i := FirstClose(s); i < |s| ==> i + 3 <= |s| && StartsWith(s[i..], CLOSE)
  {
    if s == "" {
    } else if StartsWith(s, CLOSE) {
      assert s[0..] == s;
    } else {
      FirstCloseStarts(s[1..]);
      var i := FirstClose(s[1..]);
      assert s[1..][i..] == s[i + 1..];
    }
  }

  function Sections(data: string): string
    decreases |data|
  {
    var i := FirstClose(data);
    FirstCloseStarts(data);
    if i < |data| then data[..i] + BREAK + Sections(data[i + 3..]) else data
  }

  function Printed(data: string): string {
    OPEN + Sections(data) + CLOSE
  }

  // ---------- the printer ----------

  /** strstr(data + from, "]]>"): where it is found, or the length. */
  method FindClose(data: string, from: nat) returns (at: nat)
    requires from <= |data|
    ensures at == from + FirstClose(data[from..])
  {
    at := from;
    while at < |data| && !(at + 3 <= |data| && data[at..at + 3] == CLOSE)
      invariant from <= at <= |data|
      invariant from + FirstClose(data[from..]) == at + FirstClose(data[at..])
    {
      assert data[at..][1..] == data[at + 1..];
      assert at + 3 <= |data| ==> data[at..][..3] == data[at..at + 3];
      at := at + 1;
    }
    assert at + 3 <= |data| ==> data[at..][..3] == data[at..at + 3];
  }

  lemma SectionsUnfold(data: string)
    ensures var i := FirstClose(data);
            if i < |data| then i + 3 <= |data| && Sections(data) == data[..i] + BREAK + Sections(data[i + 3..])
            else Sections(data) == data
  {
    hide FirstClose, StartsWith, BREAK;
    FirstCloseStarts(data);
  }

  /** What one turn of the loop writes. */
  lemma NextSection(data: string, segment: nat, stream: string)
    requires segment <= |data|
    ensures var next := segment + FirstClose(data[segment..]);
            stream + Sections(data[segment..]) ==
            if next < |data| then
              FirstCloseStarts(data[segment..]);
              stream + data[segment..next] + BREAK + Sections(data[next + 3..])
            else stream + data[segment..]
  {
    hide FirstClose, StartsWith, Sections;
    var rest := data[segment..];
    SectionsUnfold(rest);
    var i := FirstClose(rest);
    if i < |rest| {
      assert rest[..i] == data[segment..segment + i] && rest[i + 3..] == data[segment + i + 3..];
    }
  }

  method OutputXmlCDataSection(data: string) returns (stream: string)
    ensures stream == Printed(data)
  {
    hide FirstClose, StartsWith, Sections;
    stream := OPEN;
    var segment := 0;
    assert data[0..] == data;
    while true
      invariant segment <= |data|
      invariant OPEN + Sections(data) == stream + Sections(data[segment..])
      decreases |data| - segment
    {
      var next := FindClose(data, segment);
      NextSection(data, segment, stream);
      FirstCloseStarts(data[segment..]);
      if next < |data| {
        stream := stream + data[segment..next];
        stream := stream + BREAK;
        segment := next + |CLOSE|;
      } else {
        stream := stream + data[segment..];
        break;
      }
    }
    stream := stream + CLOSE;
  }

  // ---------- the reader ----------

  function Prepend(s: string, r: Option<string>): Option<string> {
    match r
    case Some(t) => Some(s + t)
    case None => None
  }

  /** Character data as section 2.4 of XML 1.0 defines it, with CDATA sections (section 2.7) and one
      entity; other markup is not read. */
  function Content(s: string): Option<string>
    decreases |s|
  {
    if s == "" then Some("")
    else if StartsWith(s, OPEN) then InSection(s[|OPEN|..])
    else if StartsWith(s, "&gt;") then Prepend(">", Content(s[4..]))
    else if s[0] == '<' || s[0] == '&' || StartsWith(s, CLOSE) then None
    else Prepend([s[0]], Content(s[1..]))
  }

  /** A CDATA section ends at the first `]]>`. */
  function InSection(s: string): Option<string>
    decreases |s|
  {
    if s == "" then None
    else if StartsWith(s, CLOSE) then Content(s[|CLOSE|..])
    else Prepend([s[0]], InSection(s[1..]))
  }

  lemma PrependNothing(r: Option<string>)
    ensures Prepend("", r) == r
  {
    if r.Some? {
      assert "" + r.value == r.value;
    }
  }

  lemma Joined(c: char, t: string, r: Option<string>)
    ensures Prepend([c], Prepend(t, r)) == Prepend([c] + t, r)
  {
    if r.Some? {
      assert [c] + (t + r.value) == [c] + t + r.value;
    }
  }

  /** Text without `]]>` runs up to the closing mark put after it, also if it ends in brackets. */
  lemma {:induction false} SectionReads(text: string, rest: string)
    requires FirstClose(text) == |text|
    ensures InSection(text + CLOSE + rest) == Prepend(text, Content(rest))
    decreases |text|
  {
    var s := text + CLOSE + rest;
    if text == "" {
      assert s[3..] == rest && StartsWith(s, CLOSE);
      PrependNothing(Content(rest));
    } else {
      assert s[1..] == text[1..] + CLOSE + rest;
      SectionReads(text[1..], rest);
      StartsClose(text);
      StartsClose(s);
      Joined(text[0], text[1..], Content(rest));
      assert [text[0]] + text[1..] == text;
    }
  }

  lemma AmpReads(rest: string)
    ensures Content("&gt;" + OPEN + rest) == Prepend(">", InSection(rest))
  {
    var s := "&gt;" + OPEN + rest;
    assert s[0] == '&' && !StartsWith(s, OPEN) by { assert s[..9][0] == '&'; }
    assert s[..4] == "&gt;" && s[4..] == OPEN + rest;
    assert (OPEN + rest)[..|OPEN|] == OPEN && (OPEN + rest)[|OPEN|..] == rest;
  }

  lemma BreakReads(rest: string)
    ensures Content("]]&gt;" + OPEN + rest) == Prepend(CLOSE, InSection(rest))
  {
    var s := "]]&gt;" + OPEN + rest;
    assert s[1..][1..] == "&gt;" + OPEN + rest;
    assert !StartsWith(s, OPEN) && !StartsWith(s, "&gt;") && !StartsWith(s, CLOSE) by {
      assert s[0] == ']' && s[2] == '&';
      assert s[..9][0] == ']' && s[..4][0] == ']' && s[..3][2] == '&';
    }
    var t := s[1..];
    assert !StartsWith(t, OPEN) && !StartsWith(t, "&gt;") && !StartsWith(t, CLOSE) by {
      assert t[0] == ']' && t[1] == '&';
      assert t[..9][0] == ']' && t[..4][0] == ']' && t[..3][1] == '&';
    }
    AmpReads(rest);
    var r := InSection(rest);
    Joined(']', ">", r);
    Joined(']', "]>", r);
    assert [']'] + ">" == "]>" && [']'] + "]>" == CLOSE;
  }

  lemma BreakParts()
    ensures BREAK == CLOSE + "]]&gt;" + OPEN
  {
  }

  lemma Regroup(a: string, close: string, b: string, open: string, rest: string)
    ensures a + (close + b + open) + rest + close == a + close + (b + open + (rest + close))
  {
  }

  lemma BreakShape(a: string, rest: string)
    ensures a + BREAK + rest + CLOSE == a + CLOSE + ("]]&gt;" + OPEN + (rest + CLOSE))
  {
    BreakParts();
    hide OPEN, CLOSE, BREAK;
    Regroup(a, CLOSE, "]]&gt;", OPEN, rest);
  }

  lemma FirstCloseAt(data: string)
    requires FirstClose(data) < |data|
    ensures var i := FirstClose(data); i + 3 <= |data| && data[i..i + 3] == CLOSE
  {
    FirstCloseStarts(data);
    hide FirstClose;
  }

  lemma SplitAt(data: string, i: nat)
    requires i + 3 <= |data| && data[i..i + 3] == CLOSE
    ensures data == data[..i] + (CLOSE + data[i + 3..])
  {
    assert data == data[..i] + (data[i..i + 3] + data[i + 3..]);
  }

  lemma SectionsSplit(data: string)
    requires FirstClose(data) < |data|
    ensures var i := FirstClose(data);
            && i + 3 <= |data| && data == data[..i] + (CLOSE + data[i + 3..])
            && Sections(data) + CLOSE == data[..i] + CLOSE + ("]]&gt;" + OPEN + (Sections(data[i + 3..]) + CLOSE))
  {
    hide *;
    FirstCloseAt(data);
    SectionsUnfold(data);
    var i := FirstClose(data);
    SplitAt(data, i);
    BreakShape(data[..i], Sections(data[i + 3..]));
  }

  lemma WholeSection(data: string)
    requires FirstClose(data) == |data|
    ensures Sections(data) == data
  {
  }

  lemma NothingReads()
    ensures Content("") == Some("")
  {
  }

  lemma {:induction false} FirstCloseBefore(s: string)
    ensures FirstClose(s[..FirstClose(s)]) == FirstClose(s)
  {
    var i := FirstClose(s);
    var t := s[..i];
    if i > 0 {
      FirstCloseBefore(s[1..]);
      assert t[1..] == s[1..][..i - 1];
      assert |t| >= 3 ==> t[..3] == s[..3];
    }
  }

  lemma {:induction false} SectionsRead(data: string)
    ensures InSection(Sections(data) + CLOSE) == Some(data)
    decreases |data|
  {
    hide Content, InSection, FirstClose, Sections;
    var i := FirstClose(data);
    if i < |data| {
      SectionsSplit(data);
      var after := data[i + 3..];
      FirstCloseBefore(data);
      SectionReads(data[..i], "]]&gt;" + OPEN + (Sections(after) + CLOSE));
      BreakReads(Sections(after) + CLOSE);
      SectionsRead(after);
    } else {
      WholeSection(data);
      SectionReads(data, "");
      assert data + CLOSE + "" == data + CLOSE && data + "" == data;
      NothingReads();
    }
  }

  /** For every text, an XML reader gets back from the printed section exactly that text. */
  lemma PrintedReads(data: string)
    ensures Content(Printed(data)) == Some(data)
  {
    var s := Printed(data);
    assert s == OPEN + (Sections(data) + CLOSE);
    assert s[..|OPEN|] == OPEN && s[|OPEN|..] == Sections(data) + CLOSE;
    SectionsRead(data);
  }
}
