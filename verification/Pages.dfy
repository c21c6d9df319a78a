/** Whole pages: what a body of lines renders to, and which links it has. */
module Pages {
  import opened Common
  import opened Gemtext
  import opened Wrap
  import opened Render

  // ----- A body as lines -----

  /** Without carriage returns. */
  function Cleaned(s: string): string {
    if s == "" then "" else (if s[0] == '\r' then "" else [s[0]]) + Cleaned(s[1..])
  }

  predicate OneLine(s: string) { '\n' !in s && '\r' !in s }

  predicate AllOneLine(lines: seq<string>) { forall k :: 0 <= k < |lines| ==> OneLine(lines[k]) }

  /** The complete lines and the unfinished one, which may be empty. */
  function Divide(s: string): (seq<string>, string) {
    if s == "" then ([], "")
    else
      var (lines, rest) := Divide(s[1..]);
      if s[0] == '\n' then ([""] + lines, rest)
      else if lines == [] then ([], [s[0]] + rest)
      else ([[s[0]] + lines[0]] + lines[1..], rest)
  }

  lemma Reassociate(c: char, line: string, lines: string, rest: string)
    ensures [c] + line + "\n" + lines + rest == [c] + (line + "\n" + lines + rest)
  {
  }

  lemma LongerIsOneLine(c: char, line: string)
    requires c != '\n' && c != '\r'
    ensures OneLine(line) ==> OneLine([c] + line)
  {
  }

  lemma LongerLine(c: char, lines: seq<string>, rest: string)
    requires lines != [] && AllOneLine(lines) && c != '\n' && c != '\r'
    ensures var longer := [[c] + lines[0]] + lines[1..];
      Unlines(longer) + rest == [c] + (Unlines(lines) + rest) && AllOneLine(longer)
  {
    hide OneLine;
    var longer := [[c] + lines[0]] + lines[1..];
    assert longer[1..] == lines[1..];
    Reassociate(c, lines[0], Unlines(lines[1..]), rest);
    LongerIsOneLine(c, lines[0]);
    forall k | 0 <= k < |longer| ensures OneLine(longer[k]) {
      if k > 0 {
        assert longer[k] == lines[k];
      }
    }
  }

  /** Every body is its lines, each ended by a newline, and an unfinished line. */
  lemma {:induction false} DivideIs(s: string)
    requires '\r' !in s
    ensures var (lines, rest) := Divide(s); Unlines(lines) + rest == s && AllOneLine(lines) && OneLine(rest)
  {
    if s != "" {
      DivideIs(s[1..]);
      var (lines, rest) := Divide(s[1..]);
      if s[0] == '\n' {
        assert ([""] + lines)[1..] == lines;
        assert "" + "\n" + Unlines(lines) + rest == "\n" + (Unlines(lines) + rest);
      } else if lines == [] {
        assert s == [s[0]] + rest;
      } else {
        LongerLine(s[0], lines, rest);
        assert s == [s[0]] + s[1..];
      }
    }
  }

  lemma {:induction false} CleanedHasNone(s: string)
    ensures '\r' !in Cleaned(s)
  {
    if s != "" {
      CleanedHasNone(s[1..]);
    }
  }

  lemma {:induction false} CleanedConcat(a: string, b: string)
    ensures Cleaned(a + b) == Cleaned(a) + Cleaned(b)
  {
    if a == "" {
      assert a + b == b;
    } else {
      assert (a + b)[1..] == a[1..] + b;
      CleanedConcat(a[1..], b);
    }
  }

  /** Only carriage returns are taken out. */
  lemma {:induction false} CleanedSame(s: string)
    ensures '\r' !in s <==> Cleaned(s) == s
    ensures forall c :: c !in s ==> c !in Cleaned(s)
    ensures |Cleaned(s)| <= |s|
  {
    if s != "" {
      CleanedSame(s[1..]);
    }
  }

  /** Carriage returns are ignored. */
  lemma {:induction false} FeedCleans(page: nat, st: Stream, data: string)
    ensures Fed(page, st, data) == Fed(page, st, Cleaned(data))
    decreases |data|
  {
    hide EndLine;
    if data != "" {
      var tail := Cleaned(data[1..]);
      if data[0] == '\r' {
        assert "" + tail == tail;
        FeedCleans(page, st, data[1..]);
      } else {
        assert ([data[0]] + tail)[1..] == tail;
        var next := Step(page, st, data[0]);
        if next.Some? {
          FeedCleans(page, next.value, data[1..]);
        }
      }
    }
  }

  // ----- What a page shows -----

  predicate LineFits(line: string, inPre: bool) { |line| <= 1023 && LineOf(CStr(line), inPre).Some? }

  /** No line is too long, and no address of a link. */
  predicate AllFit(lines: seq<string>, inPre: bool) {
    lines == [] || (LineFits(lines[0], inPre) && AllFit(lines[1..], PreAfter(CStr(lines[0]), inPre)))
  }

  function ShowAll(page: nat, s: Screen, lines: seq<string>, inPre: bool): Screen
    requires AllFit(lines, inPre)
    decreases |lines|
  {
    if lines == [] then s
    else
      var line := CStr(lines[0]);
      ShowAll(page, Show(page, s, LineOf(line, inPre).value), lines[1..], PreAfter(line, inPre))
  }

  function AllLines(lines: seq<string>, rest: string): seq<string> { if rest == "" then lines else lines + [rest] }

  /** A line of at most 1023 characters is refused just when it is a link outside preformatted blocks
      with an address of 512 characters or more. */
  lemma RefusedExactly(line: string, inPre: bool)
    requires |line| <= 1023
    ensures LineOf(line, inPre).None? <==> !inPre && "=>" <= line && RunLength(TrimLeft(line[2..])) >= 512
  {
    hide TrimLeft, RunLength;
    if "=>" <= line {
      assert line[0] == '=';
      assert !IsFence(line);
      assert ParseOpen(line) == LinkLine(line[2..]);
    }
  }

  lemma {:induction false} FeedLine(page: nat, st: Stream, s: string)
    requires OneLine(s) && |st.line| <= 1023
    ensures var (next, ok) := Fed(page, st, s);
      (ok <==> |st.line| + |s| <= 1023) && (ok ==> next == st.(line := st.line + s))
    decreases |s|
  {
    hide EndLine;
    if s != "" {
      assert s[0] != '\n' && s[0] != '\r';
      if |st.line| < 1023 {
        var next := st.(line := st.line + [s[0]]);
        FeedLine(page, next, s[1..]);
        assert next.line + s[1..] == st.line + s;
      }
    } else {
      assert st.line + s == st.line;
    }
  }

  lemma FeedBreak(page: nat, st: Stream, more: string)
    ensures Fed(page, st, "\n" + more) ==
      match EndLine(page, st)
      case None => (st, false)
      case Some(next) => Fed(page, next, more)
  {
    hide EndLine;
    assert ("\n" + more)[1..] == more;
  }

  lemma FirstLine(page: nat, st: Stream, line: string, more: string)
    requires OneLine(line) && st.line == ""
    ensures var (next, ok) := Fed(page, st, line + "\n" + more);
      if !LineFits(line, st.inPre) then !ok
      else Fed(page, st, line + "\n" + more) == Fed(page,
        Stream(PreAfter(CStr(line), st.inPre), "", Show(page, st.screen, LineOf(CStr(line), st.inPre).value)),
        more)
  {
    hide Fed, Show, PreAfter, LineOf, CStr;
    assert line + "\n" + more == line + ("\n" + more);
    FeedSplit(page, st, line, "\n" + more);
    FeedLine(page, st, line);
    assert "" + line == line;
    if |line| <= 1023 {
      FeedBreak(page, st.(line := line), more);
    }
  }

  lemma LastLine(page: nat, st: Stream, rest: string)
    requires OneLine(rest) && st.line == ""
    ensures var (end, ok) := Rendered(page, st, rest);
      && (ok <==> AllFit(AllLines([], rest), st.inPre))
      && (ok ==> end.screen == ShowAll(page, st.screen, AllLines([], rest), st.inPre))
  {
    hide Fed, Show, PreAfter, LineOf, CStr;
    FeedLine(page, st, rest);
    assert "" + rest == rest;
    if rest != "" {
      assert AllLines([], rest) == [rest];
      assert [rest][1..] == [];
    }
  }

  lemma LineOfFits(line: string, inPre: bool)
    requires LineFits(line, inPre)
    ensures LineOf(CStr(line), inPre).Some?
  {
  }

  lemma {:induction false} RenderLines(page: nat, st: Stream, lines: seq<string>, rest: string)
    requires AllOneLine(lines) && OneLine(rest) && st.line == ""
    ensures var (end, ok) := Rendered(page, st, Unlines(lines) + rest);
      && (ok <==> AllFit(AllLines(lines, rest), st.inPre))
      && (ok ==> end.screen == ShowAll(page, st.screen, AllLines(lines, rest), st.inPre))
    decreases |lines|
  {
    hide Fed, Show, PreAfter, LineOf, CStr, LineFits, Flushed;
    if lines == [] {
      assert Unlines(lines) + rest == rest;
      LastLine(page, st, rest);
    } else {
      var more := Unlines(lines[1..]) + rest;
      assert Unlines(lines) + rest == lines[0] + "\n" + more;
      assert OneLine(lines[0]);
      FirstLine(page, st, lines[0], more);
      var all := AllLines(lines, rest);
      assert all[0] == lines[0] && all[1..] == AllLines(lines[1..], rest);
      if LineFits(lines[0], st.inPre) {
        var line := CStr(lines[0]);
        LineOfFits(lines[0], st.inPre);
        var next := Stream(PreAfter(line, st.inPre), "", Show(page, st.screen, LineOf(line, st.inPre).value));
        RenderLines(page, next, lines[1..], rest);
      }
    }
  }

  /** A body is rendered just when all its lines fit, and then line by line. */
  lemma RenderIs(page: nat, body: string)
    ensures var (lines, rest) := Divide(Cleaned(body));
      var all := AllLines(lines, rest);
      var (end, ok) := Rendered(page, BLANK, body);
      && Unlines(lines) + rest == Cleaned(body) && AllOneLine(lines) && OneLine(rest)
      && (ok <==> AllFit(all, false))
      && (ok ==> end.screen == ShowAll(page, BLANK.screen, all, false))
  {
    hide Fed, Flushed, AllFit, ShowAll, Divide, Cleaned, AllLines;
    FeedCleans(page, BLANK, body);
    CleanedHasNone(body);
    DivideIs(Cleaned(body));
    var (lines, rest) := Divide(Cleaned(body));
    RenderLines(page, BLANK, lines, rest);
  }

  // ----- Links -----

  function LinkOf(line: string, inPre: bool): seq<Anchor> {
    var l := LineOf(CStr(line), inPre);
    if l.Some? && l.value.kind == Link then [AnchorOf(l.value)] else []
  }

  /** The link lines outside preformatted blocks. */
  function LinksIn(lines: seq<string>, inPre: bool): seq<Anchor> {
    if lines == [] then []
    else LinkOf(lines[0], inPre) + LinksIn(lines[1..], PreAfter(CStr(lines[0]), inPre))
  }

  function First256(links: seq<Anchor>): seq<Anchor> { links[..Min(|links|, 256)] }

  lemma ShowLinks(page: nat, s: Screen, line: string, inPre: bool)
    requires LineOf(CStr(line), inPre).Some? && |s.links| <= 256
    ensures Show(page, s, LineOf(CStr(line), inPre).value).links == First256(s.links + LinkOf(line, inPre))
  {
    hide LineOf, CStr, Wrapped, Mark, AnchorOf;
    assert s.links + [] == s.links;
  }

  lemma FirstOfFirst(a: seq<Anchor>, b: seq<Anchor>)
    ensures First256(First256(a) + b) == First256(a + b)
  {
  }

  lemma AllOfShort(links: seq<Anchor>)
    requires |links| <= 256
    ensures First256(links) == links
  {
  }

  lemma FirstShort(links: seq<Anchor>)
    ensures |First256(links)| <= 256
  {
  }

  lemma {:induction false} LinksCollected(page: nat, s: Screen, lines: seq<string>, inPre: bool)
    requires AllFit(lines, inPre) && |s.links| <= 256
    ensures ShowAll(page, s, lines, inPre).links == First256(s.links + LinksIn(lines, inPre))
    decreases |lines|
  {
    hide LineOf, CStr, Show, LinkOf, First256, PreAfter;
    if lines == [] {
      assert s.links + [] == s.links;
      AllOfShort(s.links);
    } else {
      var line := CStr(lines[0]);
      var next := Show(page, s, LineOf(line, inPre).value);
      var here, after := LinkOf(lines[0], inPre), LinksIn(lines[1..], PreAfter(line, inPre));
      ShowLinks(page, s, lines[0], inPre);
      FirstShort(s.links + here);
      LinksCollected(page, next, lines[1..], PreAfter(line, inPre));
      FirstOfFirst(s.links + here, after);
      assert s.links + here + after == s.links + (here + after);
    }
  }

  /** The links of a rendered page are its first 256 link lines outside preformatted blocks, in order. */
  lemma PageLinks(page: nat, body: string)
    requires Rendered(page, BLANK, body).1
    ensures var (lines, rest) := Divide(Cleaned(body));
      Rendered(page, BLANK, body).0.screen.links == First256(LinksIn(AllLines(lines, rest), false))
  {
    hide Rendered, AllFit, ShowAll, Divide, Cleaned, AllLines, LinksIn, First256, Unlines;
    RenderIs(page, body);
    var (lines, rest) := Divide(Cleaned(body));
    var all := AllLines(lines, rest);
    LinksCollected(page, BLANK.screen, all, false);
    assert [] + LinksIn(all, false) == LinksIn(all, false);
  }

  // ----- The pager -----

  /** Line ends printed for a line: one, and one more before a heading. */
  function Ends(line: string, inPre: bool): nat {
    var l := LineOf(CStr(line), inPre);
    if l.Some? && l.value.kind in {H1, H2, H3} then 2 else 1
  }

  function AllEnds(lines: seq<string>, inPre: bool): nat {
    if lines == [] then 0 else Ends(lines[0], inPre) + AllEnds(lines[1..], PreAfter(CStr(lines[0]), inPre))
  }

  function Paged(page: nat, s: Screen): nat { |s.pauses| * page + s.printed }

  lemma EmitPages(page: nat, s: Screen, text: string)
    requires s.printed < page
    ensures Paged(page, Emit(page, s, text)) == Paged(page, s) + 1 && Emit(page, s, text).printed < page
  {
    assert (|s.pauses| + 1) * page == |s.pauses| * page + page;
  }

  lemma SamePages(page: nat, s: Screen, a: Anchor)
    ensures Paged(page, AddAnchor(s, a)) == Paged(page, s)
  {
  }

  lemma ShowPages(page: nat, s: Screen, line: string, inPre: bool)
    requires LineOf(CStr(line), inPre).Some? && s.printed < page
    ensures var t := Show(page, s, LineOf(CStr(line), inPre).value);
      Paged(page, t) == Paged(page, s) + Ends(line, inPre) && t.printed < page
  {
    hide LineOf, CStr, Wrapped, Mark, AnchorOf, Emit, Paged;
    var l := LineOf(CStr(line), inPre).value;
    var added := AddAnchor(s, AnchorOf(l));
    assert Paged(page, added) == Paged(page, s) by { SamePages(page, s, AnchorOf(l)); }
    EmitPages(page, s, "\n");
    var broken := Emit(page, s, "\n");
    EmitPages(page, broken, Wrapped("# ", l.text));
    EmitPages(page, broken, Wrapped("## ", l.text));
    EmitPages(page, broken, Wrapped("### ", l.text));
    EmitPages(page, added, Wrapped(Mark(|added.links|), AnchorOf(l).text));
    EmitPages(page, s, Wrapped("* ", l.text));
    EmitPages(page, s, Wrapped("> ", l.text));
    EmitPages(page, s, Wrapped("", l.text));
    EmitPages(page, s, l.text + "\n");
  }

  /** The pager pauses once in every `page` logical lines. */
  lemma {:induction false} PauseEveryPage(page: nat, s: Screen, lines: seq<string>, inPre: bool)
    requires AllFit(lines, inPre) && s.printed < page
    ensures var end := ShowAll(page, s, lines, inPre);
      Paged(page, end) == Paged(page, s) + AllEnds(lines, inPre) && end.printed < page
    decreases |lines|
  {
    hide LineOf, CStr, Show, Ends, Paged, PreAfter;
    if lines != [] {
      var line := CStr(lines[0]);
      ShowPages(page, s, lines[0], inPre);
      PauseEveryPage(page, Show(page, s, LineOf(line, inPre).value), lines[1..], PreAfter(line, inPre));
    }
  }

  /** A whole body pauses as often as a page of lines fits into the lines printed for it. */
  lemma BodyPauses(page: nat, body: string)
    requires page > 0 && Rendered(page, BLANK, body).1
    ensures var (lines, rest) := Divide(Cleaned(body));
      var pauses := |Rendered(page, BLANK, body).0.screen.pauses|;
      pauses * page <= AllEnds(AllLines(lines, rest), false) < (pauses + 1) * page
  {
    hide Rendered, AllFit, ShowAll, Divide, Cleaned, AllLines, AllEnds, Unlines;
    RenderIs(page, body);
    var (lines, rest) := Divide(Cleaned(body));
    PauseEveryPage(page, BLANK.screen, AllLines(lines, rest), false);
  }
}
