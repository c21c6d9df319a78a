/** The bookmarks file: a page of link lines, written one at a time. */
module Bookmarks {
  import opened Common
  import opened Url
  import opened Gemtext
  import opened Wrap
  import opened Render
  import opened Pages

  function BookmarkLine(m: Anchor): string {
    if m.text != "" then "=> " + m.url + " " + m.text else "=> " + m.url
  }

  class BookmarkFile {
    var contents: string

    constructor ()
      ensures contents == ""
    {
      contents := "";
    }

    /** Only an empty address is refused. */
    method Add(url: string, text: string) returns (ok: bool)
      modifies this
      ensures ok <==> url != ""
      ensures contents == if ok then old(contents) + BookmarkLine(Anchor(url, text)) + "\n" else old(contents)
    {
      if url == "" {
        return false;
      }
      if text != "" {
        contents := contents + "=> " + url + " " + text + "\n";
      } else {
        contents := contents + "=> " + url + "\n";
      }
      return true;
    }
  }

  /** The file after adding the bookmarks one by one. */
  function FileOf(marks: seq<Anchor>): string {
    if marks == [] then ""
    else FileOf(marks[..|marks| - 1]) + BookmarkLine(marks[|marks| - 1]) + "\n"
  }

  // ----- Reading back -----

  predicate Tame(s: string) { '\n' !in s && '\0' !in s }

  /** A bookmark that stays on its line. */
  predicate OnItsLine(m: Anchor) { m.url != "" && Tame(m.url) && Tame(m.text) }

  predicate AllOnLines(marks: seq<Anchor>) { forall k :: 0 <= k < |marks| ==> OnItsLine(marks[k]) }

  /** What stands behind the address. */
  function Behind(m: Anchor): string { if m.text != "" then " " + m.text else "" }

  /** The line as the reader sees it: carriage returns are dropped. */
  function ReadLine(m: Anchor): string { Cleaned(BookmarkLine(m)) }

  function ReadLines(marks: seq<Anchor>): seq<string> {
    if marks == [] then [] else [ReadLine(marks[0])] + ReadLines(marks[1..])
  }

  /** What follows its arrow. */
  function AfterArrow(m: Anchor): string { " " + (Cleaned(m.url) + Cleaned(Behind(m))) }

  /** The reader takes the address to end at a blank. */
  function AddressRead(m: Anchor): string {
    var p := TrimLeft(AfterArrow(m));
    p[..RunLength(p)]
  }

  function LabelRead(m: Anchor): string {
    var p := TrimLeft(AfterArrow(m));
    TrimLeft(p[RunLength(p)..])
  }

  /** Address and line fit the buffers of the reader. */
  predicate Readable(m: Anchor) { |AddressRead(m)| <= 511 && |ReadLine(m)| <= 1023 }

  predicate AllReadable(marks: seq<Anchor>) { forall k :: 0 <= k < |marks| ==> Readable(marks[k]) }

  /** The link a page shows for what was read: without a label the address stands for it, and either is cut at 255
      characters. */
  function LinkTo(url: string, text: string): Anchor { Anchor(url, Cut(if text != "" then text else url, 255)) }

  /** The bookmark as it reads back. */
  function ReadBack(m: Anchor): Anchor { LinkTo(AddressRead(m), LabelRead(m)) }

  function AllReadBack(marks: seq<Anchor>): seq<Anchor> {
    if marks == [] then [] else [ReadBack(marks[0])] + AllReadBack(marks[1..])
  }

  /** The bookmark as it should: the label without carriage returns and blanks in front. */
  function Shown(m: Anchor): Anchor { LinkTo(m.url, TrimLeft(Cleaned(m.text))) }

  /** One word on its line. */
  predicate OneWord(s: string) { NoBlank(s) && '\r' !in s }

  lemma {:induction false} CStrTame(s: string)
    requires '\0' !in s
    ensures CStr(s) == s
  {
    if s != "" {
      CStrTame(s[1..]);
    }
  }

  lemma LineIsTame(m: Anchor)
    requires OnItsLine(m)
    ensures Tame(BookmarkLine(m))
  {
  }

  lemma MarkIsLine(m: Anchor)
    requires OnItsLine(m)
    ensures OneLine(ReadLine(m)) && '\0' !in ReadLine(m)
  {
    hide Cleaned, BookmarkLine;
    LineIsTame(m);
    CleanedSame(BookmarkLine(m));
    CleanedHasNone(BookmarkLine(m));
  }

  lemma LineIsArrow(m: Anchor)
    ensures var line := ReadLine(m); "=>" <= line && line[2..] == AfterArrow(m) && line[0] == '='
  {
    hide Cleaned;
    assert BookmarkLine(m) == "=> " + (m.url + Behind(m));
    CleanedConcat("=> ", m.url + Behind(m));
    CleanedConcat(m.url, Behind(m));
    CleanedSame("=> ");
    assert "=> " == "=>" + " ";
  }

  lemma ReadParts(m: Anchor)
    ensures LinkLine(AfterArrow(m)) ==
      if |AddressRead(m)| < 512 && |LabelRead(m)| < 1024 then Some(Line(Link, LabelRead(m), AddressRead(m))) else None
    ensures |AddressRead(m)| + |LabelRead(m)| <= |AfterArrow(m)| && NoBlank(AddressRead(m))
  {
    hide TrimLeft, RunLength, NoBlank, AfterArrow;
    RunLengthSplits(TrimLeft(AfterArrow(m)));
  }

  lemma ArrowLine(line: string)
    requires "=>" <= line && line[0] == '='
    ensures LineOf(line, false) == LinkLine(line[2..]) && !PreAfter(line, false)
  {
    hide LinkLine;
  }

  /** A bookmark's line fits just when it is readable, and then it is that link. */
  lemma MarkReads(m: Anchor)
    requires OnItsLine(m)
    ensures LineFits(ReadLine(m), false) <==> Readable(m)
    ensures Readable(m) ==> LinkOf(ReadLine(m), false) == [ReadBack(m)]
    ensures !PreAfter(CStr(ReadLine(m)), false)
  {
    hide CStr, LineOf, PreAfter, ReadLine, AddressRead, LabelRead, AfterArrow, LinkLine, OnItsLine, NoBlank;
    var line := ReadLine(m);
    MarkIsLine(m);
    CStrTame(line);
    LineIsArrow(m);
    ArrowLine(line);
    ReadParts(m);
    if Readable(m) {
      assert Cut(AddressRead(m), 511) == AddressRead(m);
    }
  }

  // ----- Addresses without blanks -----

  lemma TrimmedArrow(m: Anchor)
    requires Cleaned(m.url) != "" && !IsBlank(Cleaned(m.url)[0])
    ensures TrimLeft(AfterArrow(m)) == Cleaned(m.url) + Cleaned(Behind(m))
  {
    hide TrimLeft, Cleaned;
    TrimLeftIs(" ", Cleaned(m.url) + Cleaned(Behind(m)));
  }

  lemma TrimBlank(s: string)
    ensures TrimLeft(" " + s) == TrimLeft(s)
  {
    assert (" " + s)[1..] == s;
  }

  lemma StartsPlain(s: string)
    ensures s != "" && NoBlank(s) ==> !IsBlank(s[0])
    ensures TrimLeft(s) != "" ==> !IsBlank(TrimLeft(s)[0])
  {
    hide AllBlank, TrimLeft, IsBlank;
    TrimLeftSplits(s);
  }

  /** The label stands behind a blank. */
  lemma LabelPart(m: Anchor)
    ensures var rest := Cleaned(Behind(m));
      (rest != "" ==> IsBlank(rest[0])) && TrimLeft(rest) == TrimLeft(Cleaned(m.text))
  {
    hide TrimLeft, Cleaned;
    if m.text != "" {
      CleanedConcat(" ", m.text);
      CleanedSame(" ");
      TrimBlank(Cleaned(m.text));
    } else {
      CleanedSame("");
    }
  }

  lemma ReadHasNone(m: Anchor)
    ensures '\r' !in AddressRead(m) && '\r' !in LabelRead(m)
  {
    hide RunLength, TrimLeft, Cleaned;
    CleanedHasNone(m.url);
    CleanedHasNone(Behind(m));
    var p := TrimLeft(AfterArrow(m));
    TrimmedOff(AfterArrow(m));
    assert '\r' !in p;
    TrimmedOff(p[RunLength(p)..]);
  }

  /** The address reads back if and only if it is one word, and then so does the label. */
  lemma AddressReadsBack(m: Anchor)
    requires m.url != ""
    ensures AddressRead(m) == m.url <==> OneWord(m.url)
    ensures OneWord(m.url) ==> LabelRead(m) == TrimLeft(Cleaned(m.text))
  {
    hide TrimLeft, RunLength, NoBlank, IsBlank, AfterArrow, Cleaned, Behind;
    ReadParts(m);
    ReadHasNone(m);
    if OneWord(m.url) {
      var rest := Cleaned(Behind(m));
      CleanedSame(m.url);
      StartsPlain(m.url);
      TrimmedArrow(m);
      LabelPart(m);
      RunLengthIs(m.url, rest);
      JoinParts(m.url, rest);
    }
  }

  lemma ReadsMean(m: Anchor)
    ensures Readable(m) <==> |AddressRead(m)| <= 511 && |ReadLine(m)| <= 1023
    ensures ReadBack(m) == LinkTo(AddressRead(m), LabelRead(m))
    ensures Shown(m) == LinkTo(m.url, TrimLeft(Cleaned(m.text)))
    ensures ReadBack(m).url == AddressRead(m) && Shown(m).url == m.url
    ensures |ReadLine(m)| <= 1023 && LinkOf(ReadLine(m), false) != [] ==> LineFits(ReadLine(m), false)
  {
    hide CStr, LineOf, ReadLine, AddressRead, LabelRead, TrimLeft, Cleaned;
  }

  /** A bookmark on a line that fits reads back, address and label, if and only if its address is one word that
      fits. */
  lemma MarkReadsExactly(m: Anchor)
    requires OnItsLine(m) && |ReadLine(m)| <= 1023
    ensures LinkOf(ReadLine(m), false) == [Shown(m)] <==> OneWord(m.url) && |m.url| <= 511
  {
    assert m.url != "";
    hide *;
    MarkReads(m);
    AddressReadsBack(m);
    ReadsMean(m);
  }

  // ----- Whole files -----

  lemma FirstReadable(marks: seq<Anchor>)
    requires marks != []
    ensures AllReadable(marks) <==> Readable(marks[0]) && AllReadable(marks[1..])
  {
    hide Readable;
    if Readable(marks[0]) && AllReadable(marks[1..]) {
      forall k | 0 <= k < |marks| ensures Readable(marks[k]) {
        if k > 0 {
          assert marks[k] == marks[1..][k - 1];
        }
      }
    }
  }

  lemma {:induction false} MarksRead(marks: seq<Anchor>)
    requires AllOnLines(marks)
    ensures AllOneLine(ReadLines(marks))
    ensures AllFit(ReadLines(marks), false) <==> AllReadable(marks)
    ensures AllReadable(marks) ==> LinksIn(ReadLines(marks), false) == AllReadBack(marks)
  {
    hide OnItsLine, Readable, LineFits, LinkOf, ReadBack, ReadLine, PreAfter, OneLine, CStr;
    if marks != [] {
      assert OnItsLine(marks[0]);
      MarkReads(marks[0]);
      MarkIsLine(marks[0]);
      MarksRead(marks[1..]);
      var lines := ReadLines(marks);
      assert lines[1..] == ReadLines(marks[1..]);
      forall k | 0 <= k < |lines| ensures OneLine(lines[k]) {
        if k > 0 {
          assert lines[k] == lines[1..][k - 1];
        }
      }
      FirstReadable(marks);
    }
  }

  lemma {:induction false} UnlinesSnoc(lines: seq<string>, last: string)
    ensures Unlines(lines + [last]) == Unlines(lines) + last + "\n"
  {
    if lines == [] {
      assert lines + [last] == [last] && [last][1..] == [];
      assert last + "\n" + Unlines([]) == Unlines([]) + last + "\n";
    } else {
      assert (lines + [last])[1..] == lines[1..] + [last];
      UnlinesSnoc(lines[1..], last);
    }
  }

  lemma {:induction false} LinesSnoc(marks: seq<Anchor>, last: Anchor)
    ensures ReadLines(marks + [last]) == ReadLines(marks) + [ReadLine(last)]
  {
    hide ReadLine;
    if marks == [] {
      assert marks + [last] == [last] && [last][1..] == [];
    } else {
      assert (marks + [last])[1..] == marks[1..] + [last];
      LinesSnoc(marks[1..], last);
    }
  }

  /** What the reader sees of the file. */
  lemma {:induction false} FileIsLines(marks: seq<Anchor>)
    ensures Cleaned(FileOf(marks)) == Unlines(ReadLines(marks))
    decreases |marks|
  {
    hide BookmarkLine, Cleaned;
    if marks != [] {
      var front, last := marks[..|marks| - 1], marks[|marks| - 1];
      FileIsLines(front);
      CleanedConcat(FileOf(front) + BookmarkLine(last), "\n");
      CleanedConcat(FileOf(front), BookmarkLine(last));
      CleanedSame("\n");
      assert marks == front + [last];
      LinesSnoc(front, last);
      UnlinesSnoc(ReadLines(front), ReadLine(last));
    } else {
      CleanedSame("");
    }
  }

  lemma RenderedCleans(page: nat, body: string)
    ensures Rendered(page, BLANK, body) == Rendered(page, BLANK, Cleaned(body))
  {
    hide Fed, Flushed;
    FeedCleans(page, BLANK, body);
  }

  /** The page of bookmarks added one by one renders if and only if every address, as the reader cuts it, has at most
      511 characters and every line at most 1023, and then its links are the first 256 of them in order. */
  lemma BookmarksReadBack(page: nat, marks: seq<Anchor>)
    requires AllOnLines(marks)
    ensures var (end, ok) := Rendered(page, BLANK, FileOf(marks));
      (ok <==> AllReadable(marks)) && (ok ==> end.screen.links == First256(AllReadBack(marks)))
  {
    hide AllOnLines, AllReadable, Rendered, AllFit, ShowAll, LinksIn, First256, AllReadBack, Unlines, ReadLines,
         FileOf, AllOneLine;
    var lines := ReadLines(marks);
    MarksRead(marks);
    FileIsLines(marks);
    RenderedCleans(page, FileOf(marks));
    assert Unlines(lines) + "" == Unlines(lines);
    RenderLines(page, BLANK, lines, "");
    if AllFit(lines, false) {
      LinksCollected(page, BLANK.screen, lines, false);
      assert [] + LinksIn(lines, false) == LinksIn(lines, false);
    }
  }

  lemma {:induction false} ReadBackAt(marks: seq<Anchor>, k: nat)
    requires k < |marks|
    ensures |AllReadBack(marks)| == |marks| && AllReadBack(marks)[k] == ReadBack(marks[k])
  {
    hide ReadBack;
    if k > 0 {
      ReadBackAt(marks[1..], k - 1);
    } else if |marks| > 1 {
      ReadBackAt(marks[1..], 0);
    }
  }

  lemma CutOf(s: string)
    ensures Cut(s, 255) == s <==> |s| <= 255
    ensures s != "" ==> Cut(s, 255) != "" && Cut(s, 255)[0] == s[0]
  {
  }

  lemma CutHasNone(s: string)
    ensures '\r' !in s ==> '\r' !in Cut(s, 255)
  {
  }

  lemma TrimHasNone(s: string)
    ensures '\r' !in s ==> '\r' !in TrimLeft(s)
  {
    hide TrimLeft;
    TrimmedOff(s);
  }

  lemma ShownIs(m: Anchor)
    requires m.url != "" && !IsBlank(m.url[0]) && '\r' !in m.url
    ensures Shown(m) == m <==> 0 < |m.text| <= 255 && !IsBlank(m.text[0]) && '\r' !in m.text
  {
    hide Cut, IsBlank, Cleaned;
    var t := TrimLeft(Cleaned(m.text));
    CleanedSame(m.text);
    CleanedHasNone(m.text);
    StartsPlain(Cleaned(m.text));
    CutOf(t);
    CutOf(m.url);
    CutHasNone(m.url);
    CutHasNone(t);
    TrimHasNone(Cleaned(m.text));
    if m.text != "" && !IsBlank(m.text[0]) && Cleaned(m.text) == m.text {
      assert t == m.text;
    }
    hide TrimLeft;
  }

  /** The address is one word and the label 1 to 255 characters without carriage returns, the first not blank. */
  predicate PlainMark(m: Anchor) {
    OneWord(m.url) && 0 < |m.text| <= 255 && !IsBlank(m.text[0]) && '\r' !in m.text
  }

  /** Exactly such bookmarks read back as themselves. */
  lemma ReadBackIsSame(m: Anchor)
    requires m.url != ""
    ensures ReadBack(m) == m <==> PlainMark(m)
  {
    hide NoBlank, IsBlank, AddressRead, LabelRead, TrimLeft, Shown, Cleaned;
    AddressReadsBack(m);
    ReadsMean(m);
    if OneWord(m.url) {
      StartsPlain(m.url);
      ShownIs(m);
    }
  }

  predicate AllPlain(marks: seq<Anchor>) { forall k :: 0 <= k < |marks| ==> PlainMark(marks[k]) }

  lemma {:induction false} AllSame(marks: seq<Anchor>)
    requires forall k :: 0 <= k < |marks| ==> marks[k].url != ""
    ensures AllReadBack(marks) == marks <==> AllPlain(marks)
  {
    hide ReadBack, PlainMark;
    if marks != [] {
      ReadBackIsSame(marks[0]);
      AllSame(marks[1..]);
      assert AllReadBack(marks)[1..] == AllReadBack(marks[1..]);
      if AllPlain(marks[1..]) && PlainMark(marks[0]) {
        forall k | 0 <= k < |marks| ensures PlainMark(marks[k]) {
          if k > 0 {
            assert marks[k] == marks[1..][k - 1];
          }
        }
      }
    }
  }

  lemma {:induction false} ReadBackPrefix(marks: seq<Anchor>, n: nat)
    requires n <= |marks|
    ensures |AllReadBack(marks)| == |marks| && AllReadBack(marks)[..n] == AllReadBack(marks[..n])
  {
    hide ReadBack;
    if marks != [] {
      ReadBackPrefix(marks[1..], if n > 0 then n - 1 else 0);
      assert n > 0 ==> marks[..n][1..] == marks[1..][..n - 1];
    }
  }

  /** The links of a page that renders are the first 256 bookmarks themselves if and only if these are plain. */
  lemma SameReadBack(page: nat, marks: seq<Anchor>)
    requires AllOnLines(marks)
    ensures var (end, ok) := Rendered(page, BLANK, FileOf(marks));
      ok ==> (end.screen.links == First256(marks) <==> AllPlain(First256(marks)))
  {
    hide Rendered, FileOf, AllReadBack, Readable, PlainMark, Tame, AllPlain;
    BookmarksReadBack(page, marks);
    ReadBackPrefix(marks, |First256(marks)|);
    AllSame(First256(marks));
  }

  // ----- Following a bookmark -----

  lemma OneWordChars(s: string)
    ensures OneWord(s) <==> ' ' !in s && '\t' !in s && '\r' !in s
  {
  }

  lemma DigitsOneWord(n: nat)
    ensures OneWord(Decimal(n))
  {
    hide Decimal;
    DecimalIsDigits(n);
  }

  lemma SchemeOneWord()
    ensures OneWord(SCHEME)
  {
  }

  lemma InParts(u: Url, outMax: nat, c: char)
    requires PrintUrl(u, outMax) != "" && c !in u.host && c !in u.path && c !in SCHEME && c !in Decimal(u.port)
    requires c != ':'
    ensures c !in PrintUrl(u, outMax)
  {
    hide Decimal;
    PrintedIs(u, outMax);
  }

  /** The address read for a printed URL is one word that starts with the scheme. */
  lemma PrintedAddress(m: Anchor, rest: string)
    requires m.url == SCHEME + rest
    ensures HasScheme(AddressRead(m)) && OneWord(AddressRead(m))
  {
    hide TrimLeft, RunLength, NoBlank, AfterArrow, HasScheme, Cleaned, Behind, IsBlank;
    SchemeOneWord();
    ReadHasNone(m);
    CleanedConcat(SCHEME, rest);
    CleanedSame(SCHEME);
    StartsPlain(SCHEME);
    assert Cleaned(m.url)[0] == SCHEME[0];
    TrimmedArrow(m);
    var more := Cleaned(rest) + Cleaned(Behind(m));
    var p := TrimLeft(AfterArrow(m));
    assert p == SCHEME + more;
    RunAtLeast(SCHEME, more);
    RunLengthSplits(p);
    assert p[..RunLength(p)] == SCHEME + p[|SCHEME|..RunLength(p)];
    SchemeItself(p[|SCHEME|..RunLength(p)]);
  }

  /** An address of one word leads to no page whose printed form is not. */
  lemma OneWordLeads(a: string, u: Url)
    requires OneWord(a) && ParseUrl(a) == Some(u) && PrintUrl(u, 600) != ""
    ensures OneWord(PrintUrl(u, 600))
  {
    hide ParseUrl, Decimal, PrintUrl, OneWord;
    OneWordChars(a);
    DigitsOneWord(u.port);
    OneWordChars(Decimal(u.port));
    SchemeOneWord();
    OneWordChars(SCHEME);
    forall c | c in {' ', '\t', '\r'} ensures c !in PrintUrl(u, 600) {
      ParseAddsNothing(a, c);
      InParts(u, 600, c);
    }
    OneWordChars(PrintUrl(u, 600));
  }

  lemma Within256(links: seq<Anchor>, k: nat)
    requires k < |links| && k < 256
    ensures k < |First256(links)| && First256(links)[k] == links[k]
  {
  }

  lemma MarkAt(marks: seq<Anchor>, k: nat)
    requires AllOnLines(marks) && k < |marks|
    ensures marks[k].url != ""
  {
  }

  lemma SchemeResolves(base: Url, link: string)
    requires HasScheme(link)
    ensures ResolveUrl(base, link) == ParseUrl(link)
  {
    hide HasScheme, ParseUrl;
  }

  /** A page that was bookmarked is reached again, from any page, by following its bookmark if and only if its port
      is the default one, its path is normal and its printed form is one word. */
  lemma BookmarkLeadsBack(page: nat, marks: seq<Anchor>, k: nat, u: Url, base: Url)
    requires AllOnLines(marks) && k < |marks| && k < 256
    requires Rendered(page, BLANK, FileOf(marks)).1
    requires UrlOk(u) && marks[k].url == PrintUrl(u, 600)
    ensures var links := Rendered(page, BLANK, FileOf(marks)).0.screen.links;
      && k < |links|
      && (ResolveUrl(base, links[k].url) == Some(u)
          <==> u.port == DEFAULT_PORT && NormalPath(u.path) == Some(u.path) && OneWord(PrintUrl(u, 600)))
  {
    hide *;
    var m := marks[k];
    BookmarksReadBack(page, marks);
    ReadBackAt(marks, k);
    Within256(AllReadBack(marks), k);
    MarkAt(marks, k);
    ReadsMean(m);
    AddressReadsBack(m);
    PrintedIs(u, 600);
    PrintedAddress(m, Bare(u));
    SchemeResolves(base, AddressRead(m));
    PrintedParsesBack(u, 600);
    if ParseUrl(AddressRead(m)) == Some(u) {
      OneWordLeads(AddressRead(m), u);
    }
  }

  lemma BlankAddressRead()
    ensures var m := Anchor("gemini://h/a b", "t");
      AddressRead(m) == "gemini://h/a" && LabelRead(m) == "b t"
  {
    hide TrimLeft, RunLength, AfterArrow, Cleaned;
    var m := Anchor("gemini://h/a b", "t");
    CleanedSame(m.url);
    CleanedSame(Behind(m));
    TrimmedArrow(m);
    assert "gemini://h/a b" + (" " + "t") == "gemini://h/a" + (" " + "b t");
    RunLengthIs("gemini://h/a", " " + "b t");
    JoinParts("gemini://h/a", " " + "b t");
    TrimLeftIs(" ", "b t");
  }

  lemma ShortPagePrints(path: string)
    requires path != "" && path[0] == '/' && |path| < 10 && NormalPath(path) == Some(path)
    ensures var u := Url("h", 1965, path);
      UrlOk(u) && PrintUrl(u, 600) == "gemini://h" + path && ParseUrl(PrintUrl(u, 600)) == Some(u)
  {
    hide NormalPath, ParseUrl, PrintUrl;
    var u := Url("h", 1965, path);
    PrintedIs(u, 600);
    assert Bare(u) == "h" + path;
    assert SCHEME + ("h" + path) == "gemini://h" + path;
    PrintedParsesBack(u, 600);
  }

  lemma BlankMarkIsTame()
    ensures OnItsLine(Anchor("gemini://h/a b", "t"))
  {
  }

  lemma LineLength(m: Anchor)
    ensures |ReadLine(m)| <= |m.url| + |m.text| + 4
  {
    hide Cleaned;
    CleanedSame(BookmarkLine(m));
  }

  lemma LinkToIs(url: string, text: string)
    requires 0 < |text| <= 255
    ensures LinkTo(url, text) == Anchor(url, text)
  {
  }

  lemma BlankMark()
    ensures var m := Anchor("gemini://h/a b", "t");
      OnItsLine(m) && Readable(m) && ReadBack(m) == Anchor("gemini://h/a", "b t")
  {
    hide *;
    var m := Anchor("gemini://h/a b", "t");
    BlankAddressRead();
    ReadsMean(m);
    LineLength(m);
    LinkToIs("gemini://h/a", "b t");
    BlankMarkIsTame();
  }

  lemma PathsWithA()
    ensures NormalPath("/a b") == Some("/a b") && NormalPath("/a") == Some("/a")
  {
    hide NormalPath;
    assert "/" + "a b" == "/a b" && "/" + "a" == "/a";
    OneSegmentIsNormal("a b");
    OneSegmentIsNormal("a");
  }

  lemma AddressOfA()
    ensures HasScheme("gemini://h/a")
  {
    hide HasScheme;
    assert SCHEME + "h/a" == "gemini://h/a";
    SchemeItself("h/a");
  }

  /** A page with a blank in its path, as a user can type it, is bookmarked as a link to another. */
  lemma BlankLosesPage(base: Url)
    ensures var u, m := Url("h", 1965, "/a b"), Anchor("gemini://h/a b", "t");
      && ParseUrl("gemini://h/a b") == Some(u) && UrlOk(u)
      && PrintUrl(u, 600) == m.url && NormalPath(u.path) == Some(u.path)
      && OnItsLine(m) && Readable(m) && ReadBack(m) == Anchor("gemini://h/a", "b t")
      && ResolveUrl(base, "gemini://h/a") == Some(Url("h", 1965, "/a"))
  {
    hide *;
    PathsWithA();
    ShortPagePrints("/a b");
    ShortPagePrints("/a");
    assert "gemini://h" + "/a b" == "gemini://h/a b" && "gemini://h" + "/a" == "gemini://h/a";
    BlankMark();
    AddressOfA();
    SchemeResolves(base, "gemini://h/a");
  }
}
