/** The streaming renderer: characters in, lines and links out. */
module Render {
  import opened Common
  import opened Url
  import opened Gemtext
  import opened Wrap

  // ----- The screen -----

  datatype Anchor = Anchor(url: string, text: string)

  /** `pauses`: how much had been printed at each page break. */
  datatype Screen = Screen(links: seq<Anchor>, printed: nat, out: string, pauses: seq<nat>)

  function Cut(s: string, n: nat): string { s[..Min(|s|, n)] }

  function Break(page: nat, s: Screen): Screen {
    if page > 0 && s.printed + 1 >= page then s.(printed := 0, pauses := s.pauses + [|s.out|])
    else s.(printed := s.printed + 1)
  }

  function Emit(page: nat, s: Screen, text: string): Screen { Break(page, s.(out := s.out + text)) }

  function AddAnchor(s: Screen, a: Anchor): Screen {
    if |s.links| >= 256 then s else s.(links := s.links + [a])
  }

  /** The link of a link line; without a text, its address stands for it. */
  function AnchorOf(l: Line): Anchor {
    Anchor(Cut(l.url, 511), Cut(if l.text != "" then l.text else l.url, 255))
  }

  function Mark(n: nat): string { "[" + Decimal(n) + "] " }

  function Show(page: nat, s: Screen, l: Line): Screen {
    match l.kind
    case H1 => Emit(page, Emit(page, s, "\n"), Wrapped("# ", l.text))
    case H2 => Emit(page, Emit(page, s, "\n"), Wrapped("## ", l.text))
    case H3 => Emit(page, Emit(page, s, "\n"), Wrapped("### ", l.text))
    case Link =>
      var added := AddAnchor(s, AnchorOf(l));
      Emit(page, added, Wrapped(Mark(|added.links|), AnchorOf(l).text))
    case List => Emit(page, s, Wrapped("* ", l.text))
    case Quote => Emit(page, s, Wrapped("> ", l.text))
    case Preformat => Emit(page, s, l.text + "\n")
    case Text => Emit(page, s, Wrapped("", l.text))
  }

  // ----- The stream -----

  /** `line`: the line being read. */
  datatype Stream = Stream(inPre: bool, line: string, screen: Screen)

  function EndLine(page: nat, st: Stream): Option<Stream> {
    var line := CStr(st.line);
    match LineOf(line, st.inPre)
    case None => None
    case Some(l) => Some(Stream(PreAfter(line, st.inPre), "", Show(page, st.screen, l)))
  }

  function Step(page: nat, st: Stream, c: char): Option<Stream> {
    if c == '\r' then Some(st)
    else if c == '\n' then EndLine(page, st)
    else if |st.line| + 1 >= 1024 then None
    else Some(st.(line := st.line + [c]))
  }

  /** The stream after the data, or where it failed. */
  function Fed(page: nat, st: Stream, data: string): (Stream, bool)
    decreases |data|
  {
    if data == "" then (st, true)
    else
      match Step(page, st, data[0])
      case None => (st, false)
      case Some(next) => Fed(page, next, data[1..])
  }

  function Flushed(page: nat, st: Stream): (Stream, bool) {
    if st.line == "" then (st, true)
    else
      match EndLine(page, st)
      case None => (st, false)
      case Some(next) => (next, true)
  }

  const BLANK := Stream(false, "", Screen([], 0, "", []))

  /** A whole body: fed, then flushed. */
  function Rendered(page: nat, st: Stream, body: string): (Stream, bool) {
    var (next, ok) := Fed(page, st, body);
    if ok then Flushed(page, next) else (next, false)
  }

  // ----- The renderer as a program -----

  class RenderContext {
    var links: seq<Anchor>
    var printed: nat
    var pageLines: nat
    var out: string
    var pauses: seq<nat>

    constructor (pageLines: nat)
      ensures this.pageLines == pageLines && Shown() == Screen([], 0, "", [])
    {
      links, printed, this.pageLines, out, pauses := [], 0, pageLines, "", [];
    }

    ghost function Shown(): Screen
      reads this
    {
      Screen(links, printed, out, pauses)
    }

    method LineBreak()
      modifies this
      ensures Shown() == Break(pageLines, old(Shown())) && pageLines == old(pageLines)
    {
      printed := printed + 1;
      if pageLines > 0 && printed >= pageLines {
        pauses := pauses + [|out|];
        printed := 0;
      }
    }

    method PrintLine(text: string)
      modifies this
      ensures Shown() == Emit(pageLines, old(Shown()), text) && pageLines == old(pageLines)
    {
      out := out + text;
      LineBreak();
    }

    method PrintText(prefix: string, text: string)
      modifies this
      ensures Shown() == Emit(pageLines, old(Shown()), Wrapped(prefix, text)) && pageLines == old(pageLines)
    {
      var lines := PrintWrapped(prefix, text);
      PrintLine(lines);
    }

    method AddLink(url: string, text: string)
      modifies this
      ensures Shown() == AddAnchor(old(Shown()), Anchor(Cut(url, 511), Cut(text, 255))) && pageLines == old(pageLines)
    {
      if |links| >= 256 {
        return;
      }
      links := links + [Anchor(Cut(url, 511), Cut(text, 255))];
    }

    method RenderParsed(l: Line)
      modifies this
      ensures Shown() == Show(pageLines, old(Shown()), l) && pageLines == old(pageLines)
    {
      hide Emit, Wrapped, Decimal;
      match l.kind {
        case H1 =>
          PrintLine("\n");
          PrintText("# ", l.text);
        case H2 =>
          PrintLine("\n");
          PrintText("## ", l.text);
        case H3 =>
          PrintLine("\n");
          PrintText("### ", l.text);
        case Link =>
          var text := Cut(if l.text != "" then l.text else l.url, 255);
          assert Cut(text, 255) == text;
          AddLink(l.url, text);
          PrintText(Mark(|links|), text);
        case List =>
          PrintText("* ", l.text);
        case Quote =>
          PrintText("> ", l.text);
        case Preformat =>
          PrintLine(l.text + "\n");
        case Text =>
          PrintText("", l.text);
      }
    }
  }

  class RenderStream {
    const ctx: RenderContext
    var inPre: bool
    const line: array<char>
    var lineLen: nat

    ghost predicate Valid()
      reads this
    {
      line.Length == 1024 && lineLen < 1024
    }

    ghost function View(): Stream
      requires Valid()
      reads this, ctx, line
    {
      Stream(inPre, line[..lineLen], ctx.Shown())
    }

    constructor (ctx: RenderContext)
      requires ctx.Shown() == Screen([], 0, "", [])
      ensures Valid() && fresh(line) && this.ctx == ctx && View() == BLANK
    {
      this.ctx := ctx;
      inPre := false;
      line := new char[1024](_ => '\0');
      lineLen := 0;
    }

    /** Handles a complete line. */
    method Finish() returns (ok: bool)
      requires Valid()
      modifies this, ctx
      ensures Valid() && ctx.pageLines == old(ctx.pageLines)
      ensures var next := EndLine(ctx.pageLines, old(View()));
        && (ok <==> next.Some?)
        && View() == (if next.Some? then next.value else old(View()))
    {
      hide Show, LineOf, PreAfter;
      var text := CStr(line[..lineLen]);
      var parsed, nowPre := ParseLine(text, inPre);
      if parsed.None? {
        return false;
      }
      inPre := nowPre;
      ctx.RenderParsed(parsed.value);
      lineLen := 0;
      return true;
    }

    method Feed(data: string) returns (ok: bool)
      requires Valid()
      modifies this, line, ctx
      ensures Valid() && ctx.pageLines == old(ctx.pageLines)
      ensures (View(), ok) == Fed(ctx.pageLines, old(View()), data)
    {
      hide EndLine;
      var i := 0;
      assert data[0..] == data;
      while i < |data|
        invariant 0 <= i <= |data| && Valid() && ctx.pageLines == old(ctx.pageLines)
        invariant Fed(ctx.pageLines, View(), data[i..]) == Fed(ctx.pageLines, old(View()), data)
      {
        var c := data[i];
        assert data[i..][0] == c && data[i..][1..] == data[i + 1..];
        i := i + 1;
        if c == '\r' {
          continue;
        }
        if c == '\n' {
          var done := Finish();
          if !done {
            return false;
          }
        } else {
          if lineLen + 1 >= 1024 {
            return false;
          }
          ghost var before := line[..lineLen];
          line[lineLen] := c;
          lineLen := lineLen + 1;
          assert line[..lineLen] == before + [c];
        }
      }
      return true;
    }

    method Flush() returns (ok: bool)
      requires Valid()
      modifies this, ctx
      ensures Valid() && ctx.pageLines == old(ctx.pageLines)
      ensures (View(), ok) == Flushed(ctx.pageLines, old(View()))
    {
      hide EndLine;
      if lineLen == 0 {
        return true;
      }
      ok := Finish();
    }
  }

  method RenderGemtext(body: string, ctx: RenderContext) returns (ok: bool)
    requires ctx.Shown() == Screen([], 0, "", [])
    modifies ctx
    ensures ctx.pageLines == old(ctx.pageLines)
    ensures var r := Rendered(ctx.pageLines, BLANK, body); ok == r.1 && ctx.Shown() == r.0.screen
  {
    hide Fed, Flushed;
    var st := new RenderStream(ctx);
    ok := st.Feed(body);
    if ok {
      ok := st.Flush();
    }
  }

  // ----- How the data is cut does not matter -----

  lemma {:induction false} FeedSplit(page: nat, st: Stream, a: string, b: string)
    ensures Fed(page, st, a + b) == var (next, ok) := Fed(page, st, a); if ok then Fed(page, next, b) else (next, false)
    decreases |a|
  {
    hide Step;
    if a == "" {
      assert a + b == b;
    } else {
      assert (a + b)[1..] == a[1..] + b;
      match Step(page, st, a[0])
      case None =>
      case Some(next) => FeedSplit(page, next, a[1..], b);
    }
  }

  /** Feeding piece after piece, stopping at the first failure. */
  function FedAll(page: nat, st: Stream, chunks: seq<string>): (Stream, bool)
    decreases |chunks|
  {
    if chunks == [] then (st, true)
    else
      var (next, ok) := Fed(page, st, chunks[0]);
      if ok then FedAll(page, next, chunks[1..]) else (next, false)
  }

  /** Output, links, state and failure are those of the pieces put together. */
  lemma {:induction false} FeedChunks(page: nat, st: Stream, chunks: seq<string>)
    ensures FedAll(page, st, chunks) == Fed(page, st, Concat(chunks))
    decreases |chunks|
  {
    hide Step;
    if chunks != [] {
      FeedSplit(page, st, chunks[0], Concat(chunks[1..]));
      FeedChunks(page, Fed(page, st, chunks[0]).0, chunks[1..]);
    }
  }

  // ----- What a line shows -----

  lemma CutIs(s: string, n: nat)
    ensures Cut(s, n) == if |s| <= n then s else s[..n]
  {
    assert s[..|s|] == s;
  }

  /** What a line adds to the screen, and the link it adds to the page: a link line shows the number its link has, the
      257th and later ones that of the last. */
  lemma LineShows(page: nat, s: Screen, l: Line) returns (digits: string)
    requires |s.links| <= 256
    ensures var t := Show(page, s, l);
      && AllDigits(digits) && Value(digits) == |t.links|
      && t.out == s.out +
         match l.kind {
           case H1 => "\n" + Unlines(Layout("# ", l.text))
           case H2 => "\n" + Unlines(Layout("## ", l.text))
           case H3 => "\n" + Unlines(Layout("### ", l.text))
           case Link =>
             var text := if l.text == "" then l.url else l.text;
             Unlines(Layout("[" + digits + "] ", if |text| <= 255 then text else text[..255]))
           case List => Unlines(Layout("* ", l.text))
           case Quote => Unlines(Layout("> ", l.text))
           case Preformat => l.text + "\n"
           case Text => Unlines(Layout("", l.text))
         }
  {
    hide Decimal, Value, Layout;
    var t := Show(page, s, l);
    digits := Decimal(|t.links|);
    ValueOfDecimal(|t.links|);
    CutIs(if l.text == "" then l.url else l.text, 255);
    assert s.out + "\n" + Unlines(Layout("# ", l.text)) == s.out + ("\n" + Unlines(Layout("# ", l.text)));
    assert s.out + "\n" + Unlines(Layout("## ", l.text)) == s.out + ("\n" + Unlines(Layout("## ", l.text)));
    assert s.out + "\n" + Unlines(Layout("### ", l.text)) == s.out + ("\n" + Unlines(Layout("### ", l.text)));
  }

  /** A line that is no link adds none, a link line its own while there are fewer than 256. */
  lemma LineLinks(page: nat, s: Screen, l: Line)
    ensures var text := if l.text == "" then l.url else l.text;
      Show(page, s, l).links ==
        if l.kind == Link && |s.links| < 256
        then s.links + [Anchor(if |l.url| <= 511 then l.url else l.url[..511],
                               if |text| <= 255 then text else text[..255])]
        else s.links
  {
    hide Wrapped, Mark;
    CutIs(l.url, 511);
    CutIs(if l.text == "" then l.url else l.text, 255);
  }

  /** Where the pager pauses: behind the line that fills the page, or between a heading and the empty line before it;
      and nowhere without a page length. */
  lemma LinePauses(page: nat, s: Screen, l: Line)
    requires page == 0 || s.printed < page
    ensures var (t, heading) := (Show(page, s, l), l.kind in {H1, H2, H3});
      var before := if !heading then s.printed else if s.printed + 1 == page then 0 else s.printed + 1;
      t.pauses == s.pauses
        + (if heading && s.printed + 1 == page then [|s.out| + 1] else [])
        + (if before + 1 == page then [|t.out|] else [])
  {
    hide Wrapped, Mark, AnchorOf;
  }
}
