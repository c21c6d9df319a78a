/** One line of gemtext: its kind, its text and, for a link, its address. */
module Gemtext {
  import opened Common

  // ----- Blanks -----

  predicate IsBlank(c: char) { c == ' ' || c == '\t' }

  predicate AllBlank(s: string) { forall k :: 0 <= k < |s| ==> IsBlank(s[k]) }

  predicate NoBlank(s: string) { forall k :: 0 <= k < |s| ==> !IsBlank(s[k]) }

  function TrimLeft(s: string): (t: string)
    ensures |t| <= |s|
  {
    if s != "" && IsBlank(s[0]) then TrimLeft(s[1..]) else s
  }

  /** Length of the longest start without blanks. */
  function RunLength(s: string): (n: nat)
    ensures n <= |s|
  {
    if s == "" || IsBlank(s[0]) then 0 else 1 + RunLength(s[1..])
  }

  /** Trimming takes off all the blanks at the front and nothing else. */
  lemma {:induction false} TrimLeftIs(blanks: string, s: string)
    requires AllBlank(blanks) && (s != "" ==> !IsBlank(s[0]))
    ensures TrimLeft(blanks + s) == s
  {
    if blanks == "" {
      assert blanks + s == s;
    } else {
      assert (blanks + s)[1..] == blanks[1..] + s;
      TrimLeftIs(blanks[1..], s);
    }
  }

  lemma {:induction false} TrimLeftSplits(s: string)
    ensures var t := TrimLeft(s);
      && |t| <= |s| && s[|s| - |t|..] == t && AllBlank(s[..|s| - |t|]) && (t != "" ==> !IsBlank(t[0]))
  {
    if s != "" && IsBlank(s[0]) {
      TrimLeftSplits(s[1..]);
      var t := TrimLeft(s[1..]);
      assert s[|s| - |t|..] == s[1..][|s| - 1 - |t|..];
      forall k | 0 <= k < |s| - |t| ensures IsBlank(s[k]) {
        if k > 0 {
          assert s[k] == s[1..][..|s| - 1 - |t|][k - 1];
        }
      }
    } else {
      assert s[0..] == s;
    }
  }

  lemma {:induction false} RunLengthIs(run: string, s: string)
    requires NoBlank(run) && (s != "" ==> IsBlank(s[0]))
    ensures RunLength(run + s) == |run|
  {
    if run == "" {
      assert run + s == s;
    } else {
      assert (run + s)[1..] == run[1..] + s;
      RunLengthIs(run[1..], s);
    }
  }

  lemma {:induction false} RunAtLeast(run: string, s: string)
    requires NoBlank(run)
    ensures RunLength(run + s) >= |run|
  {
    if run != "" {
      assert (run + s)[1..] == run[1..] + s;
      RunAtLeast(run[1..], s);
    }
  }

  lemma {:induction false} RunLengthSplits(s: string)
    ensures var n := RunLength(s); NoBlank(s[..n]) && (n < |s| ==> IsBlank(s[n]))
  {
    if s != "" && !IsBlank(s[0]) {
      RunLengthSplits(s[1..]);
      var n := RunLength(s[1..]);
      forall k | 0 <= k < n + 1 ensures !IsBlank(s[k]) {
        if k > 0 {
          assert s[k] == s[1..][..n][k - 1];
        }
      }
    }
  }

  // ----- The parser -----

  datatype Kind = Text | Link | H1 | H2 | H3 | List | Quote | Preformat

  datatype Line = Line(kind: Kind, text: string, url: string)

  /** A text of 1024 characters or more is refused. */
  function Plain(kind: Kind, text: string): Option<Line> {
    if |text| >= 1024 then None else Some(Line(kind, text, ""))
  }

  function LinkLine(s: string): Option<Line> {
    var p := TrimLeft(s);
    var n := RunLength(p);
    var text := TrimLeft(p[n..]);
    if n >= 512 || |text| >= 1024 then None else Some(Line(Link, text, p[..n]))
  }

  predicate IsFence(line: string) { "```" <= line }

  function ParseOpen(line: string): Option<Line> {
    if "###" <= line then Plain(H3, TrimLeft(line[3..]))
    else if "##" <= line then Plain(H2, TrimLeft(line[2..]))
    else if "#" <= line then Plain(H1, TrimLeft(line[1..]))
    else if "=>" <= line then LinkLine(line[2..])
    else if "* " <= line then Plain(List, line[2..])
    else if ">" <= line then Plain(Quote, TrimLeft(line[1..]))
    else Plain(Text, line)
  }

  /** The line, or nothing if it is too long for the buffers. */
  function LineOf(line: string, inPre: bool): Option<Line> {
    if IsFence(line) then Some(Line(Preformat, "", ""))
    else if inPre then Plain(Preformat, line)
    else ParseOpen(line)
  }

  /** A fence opens or closes a preformatted block. */
  function PreAfter(line: string, inPre: bool): bool {
    if IsFence(line) then !inPre else inPre
  }

  method SkipBlanks(line: string, from: nat) returns (p: nat)
    requires from <= |line|
    ensures from <= p <= |line| && line[p..] == TrimLeft(line[from..])
  {
    p := from;
    while p < |line| && IsBlank(line[p])
      invariant from <= p <= |line| && TrimLeft(line[p..]) == TrimLeft(line[from..])
    {
      assert line[p..][1..] == line[p + 1..];
      p := p + 1;
    }
  }

  method SkipWord(line: string, from: nat) returns (sp: nat)
    requires from <= |line|
    ensures from <= sp <= |line| && sp - from == RunLength(line[from..])
  {
    sp := from;
    while sp < |line| && !IsBlank(line[sp])
      invariant from <= sp <= |line| && sp - from + RunLength(line[sp..]) == RunLength(line[from..])
    {
      assert line[sp..][1..] == line[sp + 1..];
      sp := sp + 1;
    }
  }

  method ParseLink(line: string) returns (parsed: Option<Line>)
    requires "=>" <= line
    ensures parsed == LinkLine(line[2..])
  {
    var p := SkipBlanks(line, 2);
    var sp := SkipWord(line, p);
    if sp - p >= 512 {
      return None;
    }
    var q := SkipBlanks(line, sp);
    assert line[p..][..sp - p] == line[p..sp] && line[p..][sp - p..] == line[sp..];
    if |line| - q >= 1024 {
      return None;
    }
    return Some(Line(Link, line[q..], line[p..sp]));
  }

  method ParseMarked(kind: Kind, line: string, mark: nat) returns (parsed: Option<Line>)
    requires mark <= |line|
    ensures parsed == Plain(kind, TrimLeft(line[mark..]))
  {
    var p := SkipBlanks(line, mark);
    if |line| - p >= 1024 {
      return None;
    }
    return Some(Line(kind, line[p..], ""));
  }

  method ParseLine(line: string, inPre: bool) returns (parsed: Option<Line>, nowPre: bool)
    ensures parsed == LineOf(line, inPre) && nowPre == PreAfter(line, inPre)
  {
    hide TrimLeft, LinkLine;
    nowPre := inPre;
    if "```" <= line {
      return Some(Line(Preformat, "", "")), !inPre;
    }
    if inPre {
      parsed := if |line| >= 1024 then None else Some(Line(Preformat, line, ""));
    } else if |line| >= 1 && line[0] == '#' {
      if |line| >= 3 && line[1] == '#' && line[2] == '#' {
        parsed := ParseMarked(H3, line, 3);
      } else if |line| >= 2 && line[1] == '#' {
        parsed := ParseMarked(H2, line, 2);
      } else {
        parsed := ParseMarked(H1, line, 1);
      }
    } else if |line| >= 2 && line[0] == '=' && line[1] == '>' {
      parsed := ParseLink(line);
    } else if |line| >= 2 && line[0] == '*' && line[1] == ' ' {
      parsed := if |line| - 2 >= 1024 then None else Some(Line(List, line[2..], ""));
    } else if |line| >= 1 && line[0] == '>' {
      parsed := ParseMarked(Quote, line, 1);
    } else {
      parsed := if |line| >= 1024 then None else Some(Line(Text, line, ""));
    }
  }

  // ----- What a link line is -----

  predicate LinkParts(before: string, url: string, between: string, text: string) {
    && AllBlank(before) && NoBlank(url) && AllBlank(between)
    && (url == "" ==> between == "" && text == "")
    && (text != "" ==> between != "" && !IsBlank(text[0]))
  }

  /** An arrow, blanks, an address without blanks, and perhaps blanks and a label that does not start with one. */
  predicate LinkShape(line: string, before: string, url: string, between: string, text: string) {
    line == "=>" + before + url + between + text && LinkParts(before, url, between, text)
  }

  lemma PartsStart(before: string, url: string, between: string, text: string)
    requires LinkParts(before, url, between, text)
    ensures AllBlank(before) && NoBlank(url) && AllBlank(between)
    ensures var rest := between + text; rest != "" ==> IsBlank(rest[0])
    ensures var rest := url + (between + text); rest != "" ==> !IsBlank(rest[0])
    ensures text != "" ==> !IsBlank(text[0])
  {
  }

  lemma JoinParts(a: string, b: string)
    ensures (a + b)[..|a|] == a && (a + b)[|a|..] == b
  {
  }

  /** The parser by its intermediate results. */
  lemma LinkLineOf(s: string, p: string, n: nat, text: string)
    requires p == TrimLeft(s) && n == RunLength(p) && n <= |p| && text == TrimLeft(p[n..])
    ensures LinkLine(s) == if n < 512 && |text| < 1024 then Some(Line(Link, text, p[..n])) else None
  {
    hide TrimLeft, RunLength;
  }

  lemma PartsRead(before: string, url: string, between: string, text: string)
    requires LinkParts(before, url, between, text)
    ensures LinkLine(before + (url + (between + text))) ==
      if |url| < 512 && |text| < 1024 then Some(Line(Link, text, url)) else None
  {
    hide *;
    PartsStart(before, url, between, text);
    var rest := between + text;
    var p := url + rest;
    TrimLeftIs(before, p);
    RunLengthIs(url, rest);
    TrimLeftIs(between, text);
    JoinParts(url, rest);
    LinkLineOf(before + p, p, |url|, text);
  }

  /** Any line of that shape, if it fits the buffers, is that link. */
  lemma LinkReads(line: string, before: string, url: string, between: string, text: string)
    requires LinkShape(line, before, url, between, text)
    ensures LineOf(line, false) == if |url| < 512 && |text| < 1024 then Some(Line(Link, text, url)) else None
  {
    hide TrimLeft, RunLength, AllBlank, NoBlank, LinkLine;
    assert line[2..] == before + (url + (between + text));
    assert "=>" <= line && line[0] == '=';
    assert ParseOpen(line) == LinkLine(line[2..]);
    PartsRead(before, url, between, text);
  }

  lemma LinkIsArrow(line: string, inPre: bool)
    requires var l := LineOf(line, inPre); l.Some? && l.value.kind == Link
    ensures "=>" <= line && LineOf(line, inPre) == LinkLine(line[2..])
  {
    hide TrimLeft, RunLength, LinkLine;
  }

  lemma TrimmedOff(s: string)
    ensures var t := TrimLeft(s);
      && |t| <= |s| && s == s[..|s| - |t|] + t && AllBlank(s[..|s| - |t|]) && (t != "" ==> !IsBlank(t[0]))
  {
    hide *;
    TrimLeftSplits(s);
    var t := TrimLeft(s);
    assert s == s[..|s| - |t|] + s[|s| - |t|..];
  }

  lemma CutAt(p: string, n: nat)
    requires n <= |p|
    ensures p == p[..n] + p[n..]
  {
  }

  lemma PartsFrom(p: string, n: nat, before: string, between: string, text: string)
    requires n <= |p| && (p != "" ==> !IsBlank(p[0])) && (n < |p| ==> IsBlank(p[n]))
    requires AllBlank(before) && NoBlank(p[..n]) && AllBlank(between)
    requires p[n..] == between + text && (text != "" ==> !IsBlank(text[0]))
    ensures LinkParts(before, p[..n], between, text)
  {
    if n < |p| {
      assert p[n] == p[n..][0];
    }
  }

  /** Everything behind an arrow has such parts. */
  lemma LinkLineParts(s: string) returns (before: string, url: string, between: string, text: string)
    ensures s == before + (url + (between + text)) && LinkParts(before, url, between, text)
    ensures LinkLine(s) == if |url| < 512 && |text| < 1024 then Some(Line(Link, text, url)) else None
  {
    hide *;
    var p := TrimLeft(s);
    TrimmedOff(s);
    before := s[..|s| - |p|];
    var n := RunLength(p);
    RunLengthSplits(p);
    CutAt(p, n);
    url := p[..n];
    var rest := p[n..];
    text := TrimLeft(rest);
    TrimmedOff(rest);
    between := rest[..|rest| - |text|];
    PartsFrom(p, n, before, between, text);
    LinkLineOf(s, p, n, text);
  }

  lemma ShapeFrom(line: string, before: string, url: string, between: string, text: string)
    requires "=>" <= line && line[2..] == before + (url + (between + text)) && LinkParts(before, url, between, text)
    ensures LinkShape(line, before, url, between, text)
  {
    hide AllBlank, NoBlank;
    assert line == "=>" + before + url + between + text;
  }

  /** Every parsed link line has that shape. */
  lemma LinkHasShape(line: string, inPre: bool)
    requires var l := LineOf(line, inPre); l.Some? && l.value.kind == Link
    ensures var l := LineOf(line, inPre).value;
      exists before, between :: LinkShape(line, before, l.url, between, l.text)
  {
    hide *;
    LinkIsArrow(line, inPre);
    var before, url, between, text := LinkLineParts(line[2..]);
    ShapeFrom(line, before, url, between, text);
  }

  // ----- What the other lines are -----

  /** Three back quotes switch preformatting on or off, and inside, a line stands for itself. */
  lemma PreformattedLine(line: string, inPre: bool)
    ensures |line| >= 3 && line[..3] == "```" ==>
      LineOf(line, inPre) == Some(Line(Preformat, "", "")) && PreAfter(line, inPre) == !inPre
    ensures !(|line| >= 3 && line[..3] == "```") ==> PreAfter(line, inPre) == inPre
    ensures !(|line| >= 3 && line[..3] == "```") && inPre ==>
      LineOf(line, inPre) == if |line| < 1024 then Some(Line(Preformat, line, "")) else None
  {
  }

  /** One, two or three number signs, blanks and a text are a heading of that level; further number signs belong to the
      text. */
  lemma HeadingLine(level: nat, blanks: string, text: string)
    requires 1 <= level <= 3 && AllBlank(blanks) && (text != "" ==> !IsBlank(text[0]))
    requires level < 3 && blanks == "" && text != "" ==> text[0] != '#'
    ensures LineOf(["#", "##", "###"][level - 1] + (blanks + text), false) ==
      if |text| < 1024 then Some(Line([H1, H2, H3][level - 1], text, "")) else None
  {
    hide TrimLeft;
    var line := ["#", "##", "###"][level - 1] + (blanks + text);
    assert line[level..] == blanks + text;
    assert blanks != "" ==> (blanks + text)[0] == blanks[0] && IsBlank(blanks[0]);
    assert blanks == "" ==> blanks + text == text;
    assert line != "" && line[0] == '#';
    assert !IsFence(line);
    if level < 3 {
      assert |line| > level ==> line[level] == (blanks + text)[0] && line[level] != '#';
    }
    TrimLeftIs(blanks, text);
  }

  /** An asterisk and a blank start an item, with its text as it stands. */
  lemma ItemLine(text: string)
    ensures LineOf("* " + text, false) == if |text| < 1024 then Some(Line(List, text, "")) else None
  {
    hide TrimLeft, LinkLine;
    var line := "* " + text;
    assert line[0] == '*' && line[1] == ' ' && line[2..] == text;
    assert !IsFence(line);
  }

  /** A greater-than sign starts a quotation, blanks dropped. */
  lemma QuoteLine(blanks: string, text: string)
    requires AllBlank(blanks) && (text != "" ==> !IsBlank(text[0]))
    ensures LineOf(">" + (blanks + text), false) == if |text| < 1024 then Some(Line(Quote, text, "")) else None
  {
    hide TrimLeft, LinkLine;
    var line := ">" + (blanks + text);
    assert line[0] == '>' && line[1..] == blanks + text;
    assert !IsFence(line);
    TrimLeftIs(blanks, text);
  }

  /** Any other line is text. */
  lemma TextLine(line: string)
    requires line == "" || (line[0] != '#' && line[0] != '>')
    requires |line| >= 2 ==> line[..2] != "=>" && line[..2] != "* "
    requires |line| >= 3 ==> line[..3] != "```"
    ensures LineOf(line, false) == if |line| < 1024 then Some(Line(Text, line, "")) else None
  {
    hide TrimLeft, LinkLine;
    assert !("#" <= line) && !("##" <= line) && !("###" <= line) && !(">" <= line);
  }
}
