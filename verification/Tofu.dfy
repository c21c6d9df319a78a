/** Trust on first use: a file of known hosts, searched and rewritten line by line. */
module Tofu {
  import opened Common
  import opened Url

  // ----- Lines -----

  predicate IsSpace(c: char) {
    c == ' ' || c == '\t' || c == '\n' || c == '\r' || c == '\U{000B}' || c == '\U{000C}'
  }

  /** Without the newline characters at the end. */
  function Strip(s: string): string
    decreases |s|
  {
    if s != "" && (s[|s| - 1] == '\n' || s[|s| - 1] == '\r') then Strip(s[..|s| - 1]) else s
  }

  function SkipSpace(s: string): string {
    if s != "" && IsSpace(s[0]) then SkipSpace(s[1..]) else s
  }

  /** Length of the longest start of at most `width` characters without white space. */
  function WordLength(s: string, width: nat): (n: nat)
    ensures n <= |s| && n <= width
  {
    if s == "" || width == 0 || IsSpace(s[0]) then 0 else 1 + WordLength(s[1..], width - 1)
  }

  /** A conversion "%<width>s": the word, and what follows it. */
  function Word(s: string, width: nat): (string, string) {
    var t := SkipSpace(s);
    (t[..WordLength(t, width)], t[WordLength(t, width)..])
  }

  datatype Entry = Entry(hostport: string, algo: string, fp: string)

  /** The three words of a line that is neither empty nor a comment. */
  function ParseLine(line: string): Option<Entry> {
    var s := Strip(line);
    if s == "" || s[0] == '#' then None
    else
      var (hostport, s1) := Word(s, 255);
      var (algo, s2) := Word(s1, 31);
      var (fp, s3) := Word(s2, 127);
      if hostport == "" || algo == "" || fp == "" then None else Some(Entry(hostport, algo, fp))
  }

  function LineFor(hostport: string, fp: string): string {
    hostport + " SHA256 " + fp
  }

  /** The lines a text makes in the file: a host can hold line feeds. */
  function Lines(s: string): seq<string> {
    var k := IndexOf(s, '\n');
    if k == |s| then [s] else [s[..k]] + Lines(s[k + 1..])
  }

  // ----- Looking up and updating -----

  datatype Lookup = Missing | BadAlgorithm | Stored(fp: string)

  predicate About(line: string, hostport: string) {
    var e := ParseLine(line);
    e.Some? && EqualIgnoringCase(e.value.hostport, hostport)
  }

  function Verdict(line: string): Lookup {
    var e := ParseLine(line);
    if e == None || !EqualIgnoringCase(e.value.algo, "SHA256") then BadAlgorithm else Stored(e.value.fp)
  }

  /** The first line about the host decides. */
  function Find(file: seq<string>, hostport: string): Lookup {
    if file == [] then Missing
    else if About(file[0], hostport) then Verdict(file[0])
    else Find(file[1..], hostport)
  }

  /** Every line about the host replaced. */
  function Replace(file: seq<string>, hostport: string, fp: string): seq<string> {
    if file == [] then []
    else [if About(file[0], hostport) then LineFor(hostport, fp) else file[0]] + Replace(file[1..], hostport, fp)
  }

  predicate Mentions(file: seq<string>, hostport: string) {
    exists k :: 0 <= k < |file| && About(file[k], hostport)
  }

  function Update(file: seq<string>, hostport: string, fp: string): seq<string> {
    if Mentions(file, hostport) then Replace(file, hostport, fp)
    else Replace(file, hostport, fp) + Lines(LineFor(hostport, fp))
  }

  lemma NoMention(hostport: string)
    ensures !Mentions([], hostport)
  {
  }

  lemma ReplaceNothing(file: seq<string>, hostport: string, fp: string)
    ensures Replace(file[|file|..], hostport, fp) == []
  {
  }

  lemma UpdateIs(file: seq<string>, hostport: string, fp: string)
    ensures Update(file, hostport, fp) ==
      if Mentions(file, hostport) then Replace(file, hostport, fp)
      else Replace(file, hostport, fp) + Lines(LineFor(hostport, fp))
  {
    hide Mentions, Replace, Lines, LineFor;
  }

  lemma ReplaceNext(file: seq<string>, i: nat, hostport: string, fp: string)
    requires i < |file|
    ensures Replace(file[i..], hostport, fp) ==
      [if About(file[i], hostport) then LineFor(hostport, fp) else file[i]] + Replace(file[i + 1..], hostport, fp)
    ensures Mentions(file[..i + 1], hostport) <==> Mentions(file[..i], hostport) || About(file[i], hostport)
  {
    hide About, LineFor;
    assert file[i..][1..] == file[i + 1..];
    if Mentions(file[..i], hostport) {
      var k :| 0 <= k < |file[..i]| && About(file[..i][k], hostport);
      assert About(file[..i + 1][k], hostport);
    }
    if About(file[i], hostport) {
      assert About(file[..i + 1][i], hostport);
    }
    if Mentions(file[..i + 1], hostport) && !About(file[i], hostport) {
      var k :| 0 <= k < |file[..i + 1]| && About(file[..i + 1][k], hostport);
      assert About(file[..i][k], hostport);
    }
  }

  // ----- A check -----

  /** `prompted`: the user was asked. */
  datatype Outcome = Outcome(accepted: bool, prompted: bool, file: seq<string>)

  function Check(file: seq<string>, hostport: string, fp: string, answer: bool): Outcome {
    match Find(file, hostport)
    case BadAlgorithm => Outcome(false, false, file)
    case Stored(stored) =>
      if EqualIgnoringCase(stored, fp) then Outcome(true, false, file)
      else Outcome(answer, true, if answer then Update(file, hostport, fp) else file)
    case Missing => Outcome(answer, true, if answer then file + Lines(LineFor(hostport, fp)) else file)
  }

  // ----- The store as a program -----

  function Hostport(host: string, port: nat): string { host + ":" + Decimal(port) }

  /** Host, colon and port with their terminator fit the buffer of 256 bytes. */
  predicate HostportFits(host: string, port: nat) { |host| + 1 + |Decimal(port)| <= 255 }

  datatype Checked = Overrun | Checked(accepted: bool, prompted: bool)

  class KnownHosts {
    var lines: seq<string>

    constructor (lines: seq<string>)
      ensures this.lines == lines
    {
      this.lines := lines;
    }

    method Search(hostport: string) returns (r: Lookup)
      ensures r == Find(lines, hostport)
    {
      hide About, Verdict;
      var i := 0;
      while i < |lines|
        invariant 0 <= i <= |lines| && Find(lines, hostport) == Find(lines[i..], hostport)
      {
        if About(lines[i], hostport) {
          return Verdict(lines[i]);
        }
        assert lines[i..][1..] == lines[i + 1..];
        i := i + 1;
      }
      return Missing;
    }

    method Rewrite(hostport: string, fp: string)
      modifies this
      ensures lines == Update(old(lines), hostport, fp)
    {
      hide *;
      var file, out, replaced, i := lines, [], false, 0;
      assert file[0..] == file && file[..0] == [];
      NoMention(hostport);
      while i < |file|
        invariant 0 <= i <= |file| && out + Replace(file[i..], hostport, fp) == Replace(file, hostport, fp)
        invariant replaced <==> Mentions(file[..i], hostport)
      {
        ReplaceNext(file, i, hostport, fp);
        if About(file[i], hostport) {
          out := out + [LineFor(hostport, fp)];
          replaced := true;
        } else {
          out := out + [file[i]];
        }
        i := i + 1;
      }
      assert file[..i] == file;
      ReplaceNothing(file, hostport, fp);
      UpdateIs(file, hostport, fp);
      if !replaced {
        out := out + Lines(LineFor(hostport, fp));
      }
      lines := out;
    }

    /** The answer is what the user would say if asked; the method tells whether they were. Nothing is promised
        when host and port overrun their buffer. */
    method CheckKnownHost(host: string, port: nat, fp: string, answer: bool) returns (r: Checked)
      modifies this
      ensures r.Overrun? <==> !HostportFits(host, port)
      ensures r.Checked? ==>
        Outcome(r.accepted, r.prompted, lines) == Check(old(lines), Hostport(host, port), fp, answer)
    {
      hide About, Verdict, LineFor, Update, Find, Lines;
      if |host| + 1 + |Decimal(port)| > 255 {
        return Overrun;
      }
      var hostport := host + ":" + Decimal(port);
      var found := Search(hostport);
      match found {
        case BadAlgorithm => return Checked(false, false);
        case Stored(stored) =>
          if EqualIgnoringCase(stored, fp) {
            return Checked(true, false);
          }
          if !answer {
            return Checked(false, true);
          }
          Rewrite(hostport, fp);
          return Checked(true, true);
        case Missing =>
          if !answer {
            return Checked(false, true);
          }
          lines := lines + Lines(LineFor(hostport, fp));
          return Checked(true, true);
      }
    }
  }

  // ----- What is written can be read -----

  predicate NoSpace(s: string) { forall k :: 0 <= k < |s| ==> !IsSpace(s[k]) }

  /** A host and port as the file can hold them. */
  predicate GoodHost(hostport: string) {
    0 < |hostport| <= 255 && NoSpace(hostport) && hostport[0] != '#'
  }

  predicate GoodFp(fp: string) { 0 < |fp| <= 127 && NoSpace(fp) }

  lemma {:induction false} WordLengthIs(word: string, rest: string, width: nat)
    requires NoSpace(word) && |word| <= width && (rest != "" ==> IsSpace(rest[0]))
    ensures WordLength(word + rest, width) == |word|
    decreases |word|
  {
    if word == "" {
      assert word + rest == rest;
    } else {
      assert (word + rest)[1..] == word[1..] + rest;
      WordLengthIs(word[1..], rest, width - 1);
    }
  }

  lemma WordIs(word: string, rest: string, width: nat)
    requires word != "" && NoSpace(word) && |word| <= width && (rest != "" ==> IsSpace(rest[0]))
    ensures Word(word + rest, width) == (word, rest) && Word(" " + word + rest, width) == (word, rest)
  {
    WordLengthIs(word, rest, width);
    var s := word + rest;
    assert s[0] == word[0];
    assert s[..|word|] == word && s[|word|..] == rest;
    assert (" " + word + rest)[1..] == s;
  }

  lemma ThreeWords(hostport: string, fp: string)
    requires 0 < |hostport| <= 255 && NoSpace(hostport) && GoodFp(fp)
    ensures Word(LineFor(hostport, fp), 255) == (hostport, " SHA256 " + fp)
    ensures Word(" SHA256 " + fp, 31) == ("SHA256", " " + fp)
    ensures Word(" " + fp, 127) == (fp, "")
  {
    hide Word;
    assert LineFor(hostport, fp) == hostport + (" SHA256 " + fp);
    WordIs(hostport, " SHA256 " + fp, 255);
    assert " SHA256 " + fp == " " + "SHA256" + (" " + fp);
    WordIs("SHA256", " " + fp, 31);
    assert " " + fp == " " + fp + "";
    WordIs(fp, "", 127);
  }

  lemma LineParses(hostport: string, fp: string)
    requires GoodHost(hostport) && GoodFp(fp)
    ensures ParseLine(LineFor(hostport, fp)) == Some(Entry(hostport, "SHA256", fp))
  {
    hide Word;
    ThreeWords(hostport, fp);
    var line := LineFor(hostport, fp);
    assert line[|line| - 1] == fp[|fp| - 1];
    assert line[0] == hostport[0];
  }

  // ----- Exactly what can be written -----

  lemma {:induction false} WordLengthStops(s: string, width: nat)
    ensures NoSpace(s[..WordLength(s, width)])
    decreases |s|
  {
    if s != "" && width > 0 && !IsSpace(s[0]) {
      WordLengthStops(s[1..], width - 1);
      var n := WordLength(s[1..], width - 1);
      forall k | 0 <= k < n + 1 ensures !IsSpace(s[k]) {
        if k > 0 {
          assert s[k] == s[1..][..n][k - 1];
        }
      }
    }
  }

  lemma WordIsShort(s: string, width: nat)
    ensures NoSpace(Word(s, width).0) && |Word(s, width).0| <= width
  {
    WordLengthStops(SkipSpace(s), width);
  }

  lemma {:induction false} StripKeepsFront(s: string)
    ensures Strip(s) <= s
    decreases |s|
  {
    if s != "" && (s[|s| - 1] == '\n' || s[|s| - 1] == '\r') {
      StripKeepsFront(s[..|s| - 1]);
    }
  }

  /** Every entry read holds words that could have been written, and its line does not start a comment. */
  lemma EntryIsGood(line: string)
    ensures var e := ParseLine(line);
      e.Some? ==>
        && line != "" && line[0] != '#'
        && NoSpace(e.value.hostport) && 0 < |e.value.hostport| <= 255 && GoodFp(e.value.fp)
  {
    hide Word, NoSpace;
    StripKeepsFront(line);
    var s := Strip(line);
    var (hostport, s1) := Word(s, 255);
    var (algo, s2) := Word(s1, 31);
    WordIsShort(s, 255);
    WordIsShort(s2, 127);
  }

  lemma SpaceHasNoCase(a: string, b: string)
    requires EqualIgnoringCase(a, b) && NoSpace(a)
    ensures NoSpace(b)
  {
    forall k | 0 <= k < |b| ensures !IsSpace(b[k]) {
      assert ToLower(a[k]) == ToLower(b[k]);
    }
  }

  /** A written line that is read as one about its host and with its fingerprint, spelling aside, was made of good
      words. */
  lemma OnlyGoodReadsBack(hostport: string, fp: string)
    requires var e := ParseLine(LineFor(hostport, fp));
      e.Some? && EqualIgnoringCase(e.value.hostport, hostport) && EqualIgnoringCase(e.value.fp, fp)
    ensures GoodHost(hostport) && GoodFp(fp)
  {
    hide ParseLine, NoSpace;
    var line := LineFor(hostport, fp);
    var e := ParseLine(line).value;
    EntryIsGood(line);
    SpaceHasNoCase(e.hostport, hostport);
    SpaceHasNoCase(e.fp, fp);
    assert line[0] == hostport[0];
  }

  lemma SameText(s: string)
    ensures EqualIgnoringCase(s, s)
  {
  }

  /** A line reads back as the words it was made of if and only if host and fingerprint are good. */
  lemma LineParsesExactly(hostport: string, fp: string)
    ensures ParseLine(LineFor(hostport, fp)) == Some(Entry(hostport, "SHA256", fp))
       <==> GoodHost(hostport) && GoodFp(fp)
  {
    hide ParseLine, LineFor;
    if GoodHost(hostport) && GoodFp(fp) {
      LineParses(hostport, fp);
    }
    if ParseLine(LineFor(hostport, fp)) == Some(Entry(hostport, "SHA256", fp)) {
      SameText(hostport);
      SameText(fp);
      OnlyGoodReadsBack(hostport, fp);
    }
  }

  // ----- What a written line is about -----

  /** A host as a URL can have it. */
  predicate RealHost(host: string) { host != "" && ':' !in host }

  lemma {:induction false} SkipSpaceSplits(s: string)
    ensures var t := SkipSpace(s);
      && |t| <= |s| && s[|s| - |t|..] == t && (t != "" ==> !IsSpace(t[0]))
      && (t == s <==> s == "" || !IsSpace(s[0]))
  {
    if s != "" && IsSpace(s[0]) {
      SkipSpaceSplits(s[1..]);
      var t := SkipSpace(s[1..]);
      assert s[|s| - |t|..] == s[1..][|s| - 1 - |t|..];
    } else {
      assert s[0..] == s;
    }
  }

  lemma {:induction false} SkipSpaceConcat(s: string, rest: string)
    requires rest != "" && !IsSpace(rest[0])
    ensures SkipSpace(s + rest) == SkipSpace(s) + rest
  {
    if s == "" {
      assert s + rest == rest && "" + rest == rest;
    } else {
      assert (s + rest)[1..] == s[1..] + rest;
      SkipSpaceConcat(s[1..], rest);
    }
  }

  lemma WordSkips(s: string, width: nat)
    ensures Word(s, width) == Word(SkipSpace(s), width)
  {
    SkipSpaceSplits(s);
    SkipSpaceSplits(SkipSpace(s));
  }

  lemma {:induction false} WordLengthBefore(s: string, k: nat, width: nat)
    requires k < |s| && IsSpace(s[k])
    ensures WordLength(s, width) <= k
    decreases |s|
  {
    if k > 0 && width > 0 && !IsSpace(s[0]) {
      WordLengthBefore(s[1..], k - 1, width - 1);
    }
  }

  lemma StripPlain(s: string)
    requires s != "" && !IsSpace(s[|s| - 1])
    ensures Strip(s) == s
  {
  }

  lemma PortNoSpace(port: nat)
    ensures NoSpace(":" + Decimal(port)) && ':' !in Decimal(port)
  {
    hide Decimal;
    DecimalIsDigits(port);
  }

  lemma BareHost(host: string)
    requires ':' !in host
    ensures ':' !in SkipSpace(host) && |SkipSpace(host)| <= |host|
  {
    SkipSpaceSplits(host);
  }

  lemma LineStart(host: string, port: nat, fp: string)
    ensures LineFor(Hostport(host, port), fp) == host + (":" + Decimal(port) + " SHA256 " + fp)
    ensures SkipSpace(LineFor(Hostport(host, port), fp)) == SkipSpace(host) + (":" + Decimal(port) + " SHA256 " + fp)
    ensures SkipSpace(LineFor(Hostport(host, port), fp)) == LineFor(Hostport(SkipSpace(host), port), fp)
  {
    hide Decimal, SkipSpace;
    var rest := ":" + Decimal(port) + " SHA256 " + fp;
    var bare := SkipSpace(host);
    assert LineFor(Hostport(host, port), fp) == host + rest;
    SkipSpaceConcat(host, rest);
    assert LineFor(Hostport(bare, port), fp) == bare + rest;
  }

  /** The line's first word when the host has white space inside: a piece of the host, so without a colon. */
  lemma InnerSpaceCuts(host: string, port: nat, fp: string)
    requires ':' !in host && !NoSpace(SkipSpace(host))
    ensures ':' !in Word(LineFor(Hostport(host, port), fp), 255).0
  {
    hide SkipSpace, WordLength, Decimal, IsSpace;
    var line, bare := LineFor(Hostport(host, port), fp), SkipSpace(host);
    LineStart(host, port, fp);
    BareHost(host);
    var t := SkipSpace(line);
    var k :| 0 <= k < |bare| && IsSpace(bare[k]);
    assert t[k] == bare[k];
    WordLengthBefore(t, k, 255);
    assert t[..WordLength(t, 255)] == bare[..WordLength(t, 255)];
  }

  lemma LineEnds(hostport: string, fp: string)
    requires GoodFp(fp)
    ensures Strip(LineFor(hostport, fp)) == LineFor(hostport, fp)
  {
    hide Strip;
    var line := LineFor(hostport, fp);
    assert line[|line| - 1] == fp[|fp| - 1];
    StripPlain(line);
  }

  lemma CommentLine(hostport: string, fp: string)
    requires GoodFp(fp) && "#" <= hostport
    ensures ParseLine(LineFor(hostport, fp)) == None
  {
    hide Word;
    LineEnds(hostport, fp);
    assert LineFor(hostport, fp)[0] == hostport[0];
  }

  lemma ColonStays(word: string, other: string)
    requires ':' in other
    ensures EqualIgnoringCase(word, other) ==> ':' in word
  {
    var k :| 0 <= k < |other| && other[k] == ':';
    if EqualIgnoringCase(word, other) {
      assert ToLower(word[k]) == ToLower(other[k]);
      assert word[k] == ':';
    }
  }

  lemma NoColonNoMatch(line: string, other: string)
    requires ':' !in Word(Strip(line), 255).0 && ':' in other
    ensures !About(line, other)
  {
    hide Word, Strip, EqualIgnoringCase;
    ColonStays(Word(Strip(line), 255).0, other);
  }

  lemma NoColonLine(line: string, other: string)
    requires ':' !in line && ':' in other
    ensures !About(line, other)
  {
    hide SkipSpace, Strip, WordLength, About;
    StripKeepsFront(line);
    SkipSpaceSplits(Strip(line));
    assert ':' !in Strip(line);
    NoColonNoMatch(line, other);
  }

  lemma WordJoined(bare: string, port: nat)
    requires NoSpace(bare)
    ensures NoSpace(Hostport(bare, port)) && |Hostport(bare, port)| == |bare| + 1 + |Decimal(port)|
  {
    hide Decimal, IsSpace;
    var tail := ":" + Decimal(port);
    PortNoSpace(port);
    assert NoSpace(tail);
    var word := Hostport(bare, port);
    assert word == bare + tail;
    forall k | 0 <= k < |word| ensures !IsSpace(word[k]) {
      if k >= |bare| {
        assert word[k] == tail[k - |bare|];
      }
    }
  }

  /** Leading white space aside the host is one word, and its line is not a comment. */
  predicate LandsPlain(host: string) { !("#" <= host) && NoSpace(SkipSpace(host)) }

  lemma LandingLine(host: string, port: nat, fp: string)
    requires ':' !in host && HostportFits(host, port) && GoodFp(fp) && LandsPlain(host)
    ensures ParseLine(LineFor(Hostport(host, port), fp))
         == Some(Entry(Hostport(SkipSpace(host), port), "SHA256", fp))
  {
    hide Word, Decimal, SkipSpace, NoSpace, Strip;
    var line, bare := LineFor(Hostport(host, port), fp), SkipSpace(host);
    BareHost(host);
    LineStart(host, port, fp);
    LineEnds(Hostport(host, port), fp);
    WordJoined(bare, port);
    WordSkips(line, 255);
    ThreeWords(Hostport(bare, port), fp);
    assert line[0] == (host + ":")[0];
  }

  /** A written line is about exactly the host:port that follows its leading white space, under any spelling; about
      none if the host has white space inside or the line is a comment. */
  lemma LineIsAbout(host: string, port: nat, fp: string, other: string)
    requires ':' !in host && HostportFits(host, port) && GoodFp(fp) && ':' in other
    ensures var line := LineFor(Hostport(host, port), fp);
      && (About(line, other) <==> LandsPlain(host) && EqualIgnoringCase(Hostport(SkipSpace(host), port), other))
      && (About(line, other) ==> Verdict(line) == Stored(fp))
  {
    hide Word, Decimal, SkipSpace, NoSpace, EqualIgnoringCase;
    var line := LineFor(Hostport(host, port), fp);
    if LandsPlain(host) {
      LandingLine(host, port, fp);
      SameText("SHA256");
    } else if "#" <= host {
      CommentLine(Hostport(host, port), fp);
    } else {
      LineEnds(Hostport(host, port), fp);
      InnerSpaceCuts(host, port, fp);
      NoColonNoMatch(line, other);
    }
  }

  // ----- What a line says -----

  lemma FindOne(line: string, other: string)
    ensures Find([line], other) == if About(line, other) then Verdict(line) else Missing
  {
    hide About, Verdict;
    assert [line][1..] == [];
  }

  predicate White(s: string) { forall k :: 0 <= k < |s| ==> s[k] == ' ' || '\t' <= s[k] <= '\r' }

  predicate Solid(s: string) { s != "" && forall k :: 0 <= k < |s| ==> s[k] != ' ' && !('\t' <= s[k] <= '\r') }

  lemma {:induction false} WhiteSkipped(gap: string)
    requires White(gap)
    ensures SkipSpace(gap) == ""
  {
    if gap != "" {
      WhiteSkipped(gap[1..]);
    }
  }

  lemma WordBehind(gap: string, word: string, rest: string, width: nat)
    requires White(gap) && Solid(word) && |word| <= width && White(rest[..Min(1, |rest|)])
    ensures Word(gap + word + rest, width) == (word, rest)
  {
    hide SkipSpace, WordLength;
    WhiteSkipped(gap);
    assert gap + word + rest == gap + (word + rest);
    SkipSpaceConcat(gap, word + rest);
    if rest != "" {
      assert rest[0] == rest[..1][0];
    }
    WordLengthIs(word, rest, width);
    var t := word + rest;
    assert "" + t == t && t[..|word|] == word && t[|word|..] == rest;
  }

  lemma {:induction false} StripKeeps(kept: string, rest: string)
    requires kept != "" && kept[|kept| - 1] != '\n' && kept[|kept| - 1] != '\r'
    ensures kept <= Strip(kept + rest) && Strip(kept + rest)[|kept|..] <= rest
    decreases |rest|
  {
    var all := kept + rest;
    if rest == "" {
      assert all == kept;
    } else {
      assert all[..|all| - 1] == kept + rest[..|rest| - 1];
      StripKeeps(kept, rest[..|rest| - 1]);
    }
  }

  /** A line of three words, whatever the white space before and between them and whatever follows: it is about its
      first word, and says the third if the second is the algorithm known. */
  lemma LineSays(lead: string, host: string, gap: string, algo: string, gap': string, fp: string, rest: string,
                 hostport: string)
    requires White(lead) && White(gap) && White(gap') && gap != "" && gap' != "" && White(rest[..Min(1, |rest|)])
    requires Solid(host) && Solid(algo) && Solid(fp) && |host| <= 255 && |algo| <= 31 && |fp| <= 127
    requires lead == "" ==> host[0] != '#'
    ensures Find([lead + host + gap + algo + gap' + fp + rest], hostport) ==
      if !EqualIgnoringCase(host, hostport) then Missing
      else if EqualIgnoringCase(algo, "SHA256") then Stored(fp)
      else BadAlgorithm
  {
    hide Word, Strip, EqualIgnoringCase;
    var kept := lead + host + gap + algo + gap' + fp;
    StripKeeps(kept, rest);
    var s := Strip(kept + rest);
    var end := s[|kept|..];
    assert s == kept + end;
    assert White(end[..Min(1, |end|)]);
    var behind := gap' + fp + end;
    assert s == lead + host + (gap + algo + behind);
    WordBehind(lead, host, gap + algo + behind, 255);
    assert White((gap + algo + behind)[..1]);
    WordBehind(gap, algo, behind, 31);
    assert White(behind[..1]);
    WordBehind(gap', fp, end, 127);
    assert s[0] == (lead + host)[0];
    FindOne(kept + rest, hostport);
  }

  lemma SilentLine(line: string, hostport: string)
    requires ParseLine(line) == None
    ensures Find([line], hostport) == Missing
  {
    FindOne(line, hostport);
  }

  /** A comment is about no host. */
  lemma CommentSaysNothing(comment: string, hostport: string)
    ensures Find(["#" + comment], hostport) == Missing
  {
    hide Find;
    StripKeeps("#", comment);
    assert Strip("#" + comment)[0] == '#';
    SilentLine("#" + comment, hostport);
  }

  lemma NoWordLeft(s: string, width: nat)
    requires White(s)
    ensures Word(s, width) == ("", "")
  {
    WhiteSkipped(s);
  }

  /** Nor is a line of two words. */
  lemma TwoWordsSayNothing(lead: string, host: string, gap: string, algo: string, rest: string, hostport: string)
    requires White(lead) && White(gap) && gap != "" && White(rest)
    requires Solid(host) && Solid(algo) && |host| <= 255 && |algo| <= 31
    ensures Find([lead + host + gap + algo + rest], hostport) == Missing
  {
    hide Word, Strip, Find;
    var kept := lead + host + gap + algo;
    StripKeeps(kept, rest);
    var s := Strip(kept + rest);
    var end := s[|kept|..];
    assert s == kept + end && s == lead + host + (gap + algo + end);
    WordBehind(lead, host, gap + algo + end, 255);
    WordBehind(gap, algo, end, 31);
    NoWordLeft(end, 127);
    SilentLine(kept + rest, hostport);
  }

  /** The same spelling aside: character by character the same, or the small and the capital of one letter. */
  lemma SpellingAside(a: string, b: string)
    ensures EqualIgnoringCase(a, b) <==>
      && |a| == |b|
      && forall k :: 0 <= k < |a| ==>
           a[k] == b[k] || ('A' <= a[k] <= 'Z' && b[k] as int == a[k] as int + 32)
           || ('A' <= b[k] <= 'Z' && a[k] as int == b[k] as int + 32)
  {
    if EqualIgnoringCase(a, b) {
      forall k | 0 <= k < |a|
        ensures a[k] == b[k] || ('A' <= a[k] <= 'Z' && b[k] as int == a[k] as int + 32)
             || ('A' <= b[k] <= 'Z' && a[k] as int == b[k] as int + 32)
      {
        assert ToLower(a[k]) == ToLower(b[k]);
      }
    }
  }

  // ----- Hosts with line feeds -----

  /** What follows the last line feed. */
  function Tail(host: string): string {
    var k := IndexOf(host, '\n');
    if k == |host| then host else Tail(host[k + 1..])
  }

  /** The lines in front of it. */
  function Front(host: string): seq<string> {
    var k := IndexOf(host, '\n');
    if k == |host| then [] else [host[..k]] + Front(host[k + 1..])
  }

  lemma EndOfEnd(s: string, k: nat, n: nat)
    requires k + n <= |s|
    ensures s[k..][|s| - k - n..] == s[|s| - n..]
  {
  }

  lemma {:induction false} TailSplits(host: string)
    ensures var t := Tail(host); |t| <= |host| && host[|host| - |t|..] == t
    ensures '\n' !in host ==> Tail(host) == host
  {
    hide IndexOf;
    var k := IndexOf(host, '\n');
    if k < |host| {
      TailSplits(host[k + 1..]);
      EndOfEnd(host, k + 1, |Tail(host[k + 1..])|);
      assert host[k] == '\n';
    } else {
      assert host[0..] == host;
    }
  }

  lemma {:induction false} FrontNoColon(host: string)
    requires ':' !in host
    ensures forall k :: 0 <= k < |Front(host)| ==> ':' !in Front(host)[k]
  {
    var k := IndexOf(host, '\n');
    if k < |host| {
      FrontNoColon(host[k + 1..]);
    }
  }

  /** The first line feed of a host is that of the whole line. */
  lemma FeedInHost(host: string, rest: string)
    requires '\n' !in rest
    ensures var k, s := IndexOf(host, '\n'), host + rest;
      if k == |host| then IndexOf(s, '\n') == |s|
      else IndexOf(s, '\n') == k && s[..k] == host[..k] && s[k + 1..] == host[k + 1..] + rest
  {
    hide IndexOf;
    var k, s := IndexOf(host, '\n'), host + rest;
    if k == |host| {
      assert s[..|s|] == s && host[..k] == host;
      IndexUnique(s, '\n', |s|);
    } else {
      assert s[..k] == host[..k];
      IndexUnique(s, '\n', k);
    }
  }

  lemma ConsLines(line: string, lines: seq<string>, last: string)
    ensures [line] + (lines + [last]) == [line] + lines + [last]
  {
  }

  lemma {:induction false} LinesOfHost(host: string, rest: string)
    requires '\n' !in rest
    ensures Lines(host + rest) == Front(host) + [Tail(host) + rest]
  {
    hide IndexOf;
    var k := IndexOf(host, '\n');
    FeedInHost(host, rest);
    if k == |host| {
      assert Front(host) == [] && [] + [host + rest] == [host + rest];
    } else {
      LinesOfHost(host[k + 1..], rest);
      ConsLines(host[..k], Front(host[k + 1..]), Tail(host[k + 1..]) + rest);
    }
  }

  lemma SpaceFree(s: string)
    requires NoSpace(s)
    ensures '\n' !in s
  {
  }

  lemma NoFeed(port: nat, fp: string)
    requires GoodFp(fp)
    ensures '\n' !in ":" + Decimal(port) + " SHA256 " + fp
  {
    hide Decimal;
    PortNoSpace(port);
    SpaceFree(":" + Decimal(port));
    SpaceFree(fp);
  }

  lemma WrittenLines(host: string, port: nat, fp: string)
    requires GoodFp(fp)
    ensures Lines(LineFor(Hostport(host, port), fp)) == Front(host) + [LineFor(Hostport(Tail(host), port), fp)]
  {
    hide Decimal, Lines, Front, Tail;
    var rest := ":" + Decimal(port) + " SHA256 " + fp;
    PortNoSpace(port);
    NoFeed(port, fp);
    assert LineFor(Hostport(host, port), fp) == host + rest;
    assert LineFor(Hostport(Tail(host), port), fp) == Tail(host) + rest;
    LinesOfHost(host, rest);
  }

  /** A host the file can hold makes one line. */
  lemma OneLineFor(hostport: string, fp: string)
    requires NoSpace(hostport) && NoSpace(fp)
    ensures Lines(LineFor(hostport, fp)) == [LineFor(hostport, fp)]
  {
    SpaceFree(hostport);
    SpaceFree(fp);
    var line := LineFor(hostport, fp);
    assert '\n' !in line[..|line|];
    hide NoSpace, LineFor;
    IndexUnique(line, '\n', |line|);
  }

  // ----- Where a confirmation lands -----

  /** The part of the host that the file has in front of the port. */
  function Landing(host: string): string { SkipSpace(Tail(host)) }

  predicate Lands(host: string) { LandsPlain(Tail(host)) }

  /** The host ends in another host: one word behind white space or a line feed. */
  predicate Spills(host: string) { Lands(host) && Landing(host) != "" && Landing(host) != host }

  /** Whether what is written for such a host is about `other`. */
  predicate SpillsOn(host: string, port: nat, other: string) {
    Spills(host) && EqualIgnoringCase(Hostport(Landing(host), port), other)
  }

  /** Equality of host names, spelling aside, is an equivalence. */
  lemma AboutSame(line: string, a: string, b: string)
    requires EqualIgnoringCase(a, b)
    ensures About(line, a) <==> About(line, b)
  {
  }

  // ----- One check -----

  lemma {:induction false} FindSame(file: seq<string>, a: string, b: string)
    requires EqualIgnoringCase(a, b)
    ensures Find(file, a) == Find(file, b)
  {
    hide About, Verdict;
    if file != [] {
      AboutSame(file[0], a, b);
      FindSame(file[1..], a, b);
    }
  }

  lemma VerdictFound(line: string)
    ensures Verdict(line) != Missing
  {
  }

  lemma AboutBoth(line: string, a: string, b: string)
    requires About(line, a) && About(line, b)
    ensures EqualIgnoringCase(a, b)
  {
  }

  /** Only a single word can be looked up with success. */
  lemma AboutWord(line: string, hostport: string)
    requires About(line, hostport)
    ensures NoSpace(hostport) && 0 < |hostport| <= 255
  {
    hide ParseLine, NoSpace;
    EntryIsGood(line);
    SpaceHasNoCase(ParseLine(line).value.hostport, hostport);
  }

  lemma WordLine(hostport: string, fp: string, other: string)
    requires NoSpace(hostport) && 0 < |hostport| <= 255 && GoodFp(fp)
    ensures About(LineFor(hostport, fp), other) <==> GoodHost(hostport) && EqualIgnoringCase(hostport, other)
    ensures GoodHost(hostport) ==> Verdict(LineFor(hostport, fp)) == Stored(fp)
  {
    hide ParseLine, LineFor, NoSpace, EqualIgnoringCase;
    if GoodHost(hostport) {
      LineParses(hostport, fp);
      SameText("SHA256");
    } else {
      CommentLine(hostport, fp);
    }
  }

  /** Replacing decides the lookup of its own host, if that had a line, and no other: the new line stands for it, unless
      it is a comment. */
  lemma {:induction false} FindReplaced(file: seq<string>, hostport: string, fp: string, other: string)
    requires GoodFp(fp)
    ensures Find(Replace(file, hostport, fp), other) ==
      if EqualIgnoringCase(hostport, other) && Find(file, other) != Missing then
        if GoodHost(hostport) then Stored(fp) else Missing
      else Find(file, other)
  {
    hide About, Verdict, LineFor, EqualIgnoringCase, GoodHost, NoSpace, GoodFp;
    if file != [] {
      FindReplaced(file[1..], hostport, fp, other);
      var r := Replace(file, hostport, fp);
      assert r[1..] == Replace(file[1..], hostport, fp);
      VerdictFound(file[0]);
      if About(file[0], hostport) {
        AboutWord(file[0], hostport);
        WordLine(hostport, fp, other);
        if About(file[0], other) {
          AboutBoth(file[0], hostport, other);
        }
      }
      if EqualIgnoringCase(hostport, other) {
        AboutSame(file[0], hostport, other);
      }
    }
  }

  lemma {:induction false} FindConcat(file: seq<string>, more: seq<string>, other: string)
    ensures Find(file + more, other) == if Find(file, other) == Missing then Find(more, other) else Find(file, other)
  {
    hide About, Verdict;
    if file == [] {
      assert file + more == more;
    } else {
      VerdictFound(file[0]);
      assert (file + more)[1..] == file[1..] + more;
      FindConcat(file[1..], more, other);
    }
  }

  lemma {:induction false} NoneFound(lines: seq<string>, other: string)
    requires ':' in other && forall k :: 0 <= k < |lines| ==> ':' !in lines[k]
    ensures Find(lines, other) == Missing
  {
    hide About, Verdict;
    if lines != [] {
      NoColonLine(lines[0], other);
      NoneFound(lines[1..], other);
    }
  }

  lemma TailHost(host: string, port: nat)
    requires ':' !in host && HostportFits(host, port)
    ensures ':' !in Tail(host) && HostportFits(Tail(host), port)
  {
    hide Tail, Decimal;
    TailSplits(host);
  }

  /** Appending decides exactly the lookup of what the host ends in, if that was missing. */
  lemma FindAppended(file: seq<string>, host: string, port: nat, fp: string, other: string)
    requires RealHost(host) && HostportFits(host, port) && GoodFp(fp) && ':' in other
    ensures Find(file + Lines(LineFor(Hostport(host, port), fp)), other) ==
      if Find(file, other) == Missing && Lands(host) && EqualIgnoringCase(Hostport(Landing(host), port), other)
      then Stored(fp) else Find(file, other)
  {
    hide About, Verdict, LineFor, LandsPlain, EqualIgnoringCase, Lines, Front, Tail, HostportFits, Find, SkipSpace;
    TailHost(host, port);
    var line := LineFor(Hostport(Tail(host), port), fp);
    WrittenLines(host, port, fp);
    FindConcat(file, Front(host) + [line], other);
    FindConcat(Front(host), [line], other);
    FrontNoColon(host);
    NoneFound(Front(host), other);
    FindOne(line, other);
    LineIsAbout(Tail(host), port, fp, other);
  }

  lemma {:induction false} FindMentions(file: seq<string>, hostport: string)
    ensures Find(file, hostport) == Missing <==> !Mentions(file, hostport)
  {
    hide About, Verdict;
    if file != [] {
      FindMentions(file[1..], hostport);
      VerdictFound(file[0]);
      if Mentions(file[1..], hostport) {
        var k :| 0 <= k < |file[1..]| && About(file[1..][k], hostport);
        assert About(file[k + 1], hostport);
      }
      if Mentions(file, hostport) && !About(file[0], hostport) {
        var k :| 0 <= k < |file| && About(file[k], hostport);
        assert About(file[1..][k - 1], hostport);
      }
    }
  }

  predicate Trusts(file: seq<string>, hostport: string, fp: string) {
    Find(file, hostport).Stored? && EqualIgnoringCase(Find(file, hostport).fp, fp)
  }

  lemma SpillsOnSpills(host: string, port: nat, other: string)
    requires SpillsOn(host, port, other)
    ensures Spills(host)
  {
  }

  lemma RealHostport(host: string, port: nat)
    requires RealHost(host)
    ensures Hostport(host, port) != "" && ':' in Hostport(host, port) && Hostport(host, port)[0] == host[0]
    ensures |Hostport(host, port)| == |host| + 1 + |Decimal(port)|
  {
    hide Decimal;
    assert Hostport(host, port)[|host|] == ':';
  }

  lemma HostInPort(host: string, port: nat)
    requires RealHost(host) && HostportFits(host, port)
    ensures GoodHost(Hostport(host, port)) <==> NoSpace(host) && host[0] != '#'
  {
    hide Decimal, IsSpace;
    RealHostport(host, port);
    if NoSpace(host) {
      WordJoined(host, port);
    }
    if NoSpace(Hostport(host, port)) {
      forall k | 0 <= k < |host| ensures !IsSpace(host[k]) {
        assert Hostport(host, port)[k] == host[k];
      }
    }
  }

  lemma NoHostNoMatch(port: nat, host': string, port': nat)
    requires RealHost(host')
    ensures !EqualIgnoringCase(Hostport("", port), Hostport(host', port'))
  {
    hide Decimal;
    RealHostport(host', port');
    assert Hostport("", port)[0] == ':';
    assert ToLower(':') != ToLower(host'[0]);
  }

  lemma ShorterDiffers(bare: string, host: string, port: nat, other: string)
    requires |bare| < |host|
    ensures EqualIgnoringCase(Hostport(bare, port), other) ==> !EqualIgnoringCase(Hostport(host, port), other)
  {
    hide Decimal;
  }

  lemma LandingSplits(host: string)
    ensures var t := Landing(host); |t| <= |host| && host[|host| - |t|..] == t && (t != "" ==> !IsSpace(t[0]))
    ensures NoSpace(host) ==> Tail(host) == host && Landing(host) == host
    ensures Landing(host) == host ==> Tail(host) == host
  {
    hide SkipSpace, Tail;
    TailSplits(host);
    var tail := Tail(host);
    SkipSpaceSplits(tail);
    var t := SkipSpace(tail);
    assert host[|host| - |t|..] == tail[|tail| - |t|..];
  }

  /** The file can hold a host exactly if its line lands on it. */
  lemma LandsOnItself(host: string, port: nat)
    requires RealHost(host) && HostportFits(host, port)
    ensures GoodHost(Hostport(host, port)) <==> Lands(host) && Landing(host) == host
  {
    hide GoodHost, Hostport, Tail, SkipSpace, IsSpace;
    HostInPort(host, port);
    LandingSplits(host);
  }

  /** Where the written line lands: on the host itself if the file can hold it, on what a host ends in that spills, and
      otherwise on no host at all. */
  lemma LandsWhere(host: string, port: nat, host': string, port': nat)
    requires RealHost(host) && HostportFits(host, port) && RealHost(host')
    ensures var other := Hostport(host', port');
      Lands(host) && EqualIgnoringCase(Hostport(Landing(host), port), other)
      <==> SpillsOn(host, port, other)
           || (GoodHost(Hostport(host, port)) && EqualIgnoringCase(Hostport(host, port), other))
    ensures var other := Hostport(host', port');
      SpillsOn(host, port, other) ==> !EqualIgnoringCase(Hostport(host, port), other)
  {
    hide Decimal, Landing, Lands, EqualIgnoringCase, Hostport, GoodHost;
    LandsOnItself(host, port);
    NoHostNoMatch(port, host', port');
    LandingSplits(host);
    if Landing(host) != host {
      assert |Landing(host)| < |host|;
      ShorterDiffers(Landing(host), host, port, Hostport(host', port'));
    }
  }

  /** A check by its cases. */
  lemma CheckIs(file: seq<string>, hostport: string, fp: string, answer: bool)
    ensures var r := Check(file, hostport, fp, answer);
      if r.prompted && r.accepted then
        r.file ==
          if Find(file, hostport) == Missing then file + Lines(LineFor(hostport, fp)) else Replace(file, hostport, fp)
      else r.file == file
  {
    hide Find, Replace, LineFor, Mentions, Lines;
    FindMentions(file, hostport);
  }

  lemma FoundIsWord(file: seq<string>, hostport: string)
    requires Find(file, hostport) != Missing
    ensures NoSpace(hostport)
  {
    hide About, NoSpace, Find;
    FindMentions(file, hostport);
    var k :| 0 <= k < |file| && About(file[k], hostport);
    AboutWord(file[k], hostport);
  }

  lemma SpillsIsNoWord(host: string, port: nat)
    requires Spills(host)
    ensures !NoSpace(Hostport(host, port))
  {
    hide Decimal, IsSpace, Landing, Lands;
    LandingSplits(host);
    var k :| 0 <= k < |host| && IsSpace(host[k]);
    assert Hostport(host, port)[k] == host[k];
  }

  /** What a check leaves in the file: the host it was about trusts the confirmed fingerprint if the user confirmed
      one and the file can hold host and port; a host that was missing gets it if it is what that host ends in behind
      white space; and every other host, spelling aside, is looked up as before. */
  lemma CheckEffect(file: seq<string>, host: string, port: nat, fp: string, answer: bool, host': string, port': nat)
    requires RealHost(host) && HostportFits(host, port) && GoodFp(fp) && RealHost(host')
    ensures var hostport, other := Hostport(host, port), Hostport(host', port');
      var r := Check(file, hostport, fp, answer);
      Find(r.file, other) ==
        if !(r.prompted && r.accepted) then Find(file, other)
        else if EqualIgnoringCase(hostport, other) then if GoodHost(hostport) then Stored(fp) else Missing
        else if SpillsOn(host, port, other) && Find(file, other) == Missing then Stored(fp)
        else Find(file, other)
  {
    hide *;
    var hostport, other := Hostport(host, port), Hostport(host', port');
    RealHostport(host', port');
    LandsWhere(host, port, host', port');
    CheckIs(file, hostport, fp, answer);
    FindReplaced(file, hostport, fp, other);
    FindAppended(file, host, port, fp, other);
    if EqualIgnoringCase(hostport, other) {
      FindSame(file, hostport, other);
    }
    if SpillsOn(host, port, other) && Find(file, hostport) != Missing {
      FoundIsWord(file, hostport);
      assert Spills(host) by { SpillsOnSpills(host, port, other); }
      SpillsIsNoWord(host, port);
    }
  }

  lemma SpillWitness(host: string, port: nat, fp: string)
    requires RealHost(host) && HostportFits(host, port) && GoodFp(fp) && Spills(host)
    ensures var bare := Landing(host);
      && RealHost(bare) && !EqualIgnoringCase(Hostport(host, port), Hostport(bare, port))
      && Find([], Hostport(bare, port)) == Missing
      && Find(Check([], Hostport(host, port), fp, true).file, Hostport(bare, port)) == Stored(fp)
  {
    hide Landing, Lands, Decimal, IsSpace, NoSpace, GoodFp, EqualIgnoringCase, About, LineFor, Lines, Replace, GoodHost;
    var bare := Landing(host);
    LandingSplits(host);
    assert RealHost(bare);
    SameText(Hostport(bare, port));
    ShorterDiffers(bare, host, port, Hostport(bare, port));
    CheckEffect([], host, port, fp, true, bare, port);
  }

  /** A check leaves the lookup of every other host and port as it was, whatever the file and the answer, if and only if
      its host does not end in one word behind white space or a line feed. */
  lemma SpillsExactly(host: string, port: nat, fp: string)
    requires RealHost(host) && HostportFits(host, port) && GoodFp(fp)
    ensures (forall file: seq<string>, answer: bool, host': string, port': nat ::
               RealHost(host') && !EqualIgnoringCase(Hostport(host, port), Hostport(host', port')) ==>
               Find(Check(file, Hostport(host, port), fp, answer).file, Hostport(host', port'))
                 == Find(file, Hostport(host', port')))
       <==> !Spills(host)
  {
    hide Find, Check, Hostport, EqualIgnoringCase, Landing, Lands, RealHost, GoodFp, HostportFits;
    forall file: seq<string>, answer: bool, host': string, port': nat | RealHost(host')
      && !EqualIgnoringCase(Hostport(host, port), Hostport(host', port')) && !Spills(host)
      ensures Find(Check(file, Hostport(host, port), fp, answer).file, Hostport(host', port'))
              == Find(file, Hostport(host', port'))
    {
      CheckEffect(file, host, port, fp, answer, host', port');
    }
    if Spills(host) {
      var bare := Landing(host);
      SpillWitness(host, port, fp);
      var other := Hostport(bare, port);
      assert Find(Check([], Hostport(host, port), fp, true).file, other) != Find([], other);
    }
  }

  function Tens(d: nat): nat { if d == 0 then 1 else 10 * Tens(d - 1) }

  lemma {:induction false} DecimalLength(n: nat, d: nat)
    requires 0 < d && n < Tens(d)
    ensures 1 <= |Decimal(n)| <= d
  {
    if n >= 10 {
      DecimalLength(n / 10, d - 1);
    }
  }

  /** Every well-formed URL with a host of at most 249 characters fits; with 254 or more none does; and with 251
      characters and the usual port the buffer is overrun. */
  lemma LongHosts(u: Url)
    requires UrlOk(u)
    ensures |u.host| <= 249 ==> HostportFits(u.host, u.port)
    ensures |u.host| >= 254 ==> !HostportFits(u.host, u.port)
    ensures var v := Url(seq(251, _ => 'a'), 1965, "/"); UrlOk(v) && !HostportFits(v.host, v.port)
  {
    assert Tens(5) == 10 * Tens(4) == 100 * Tens(3) == 1000 * Tens(2) == 100000;
    DecimalLength(u.port, 5);
    assert |Decimal(1965)| == 1 + |Decimal(196)| == 2 + |Decimal(19)| == 4;
  }

  /** Exactly the trusted fingerprints pass without a question, and a host with an unsupported algorithm never
      passes. */
  lemma AcceptedUnasked(file: seq<string>, hostport: string, fp: string, answer: bool)
    ensures var r := Check(file, hostport, fp, answer);
      && (r.accepted && !r.prompted <==> Trusts(file, hostport, fp))
      && (Find(file, hostport) == BadAlgorithm ==> !r.accepted && !r.prompted && r.file == file)
      && (Find(file, hostport) != BadAlgorithm && !Trusts(file, hostport, fp) ==> r.prompted && r.accepted == answer)
      && (!r.accepted ==> r.file == file)
  {
  }

  lemma UnaskedKeeps(file: seq<string>, hostport: string, fp: string, answer: bool)
    ensures var r := Check(file, hostport, fp, answer); !r.prompted ==> r.file == file
  {
  }

  lemma WordLands(word: string)
    requires word != "" && NoSpace(word) && word[0] != '#'
    ensures Lands(word) && Landing(word) == word
  {
    hide NoSpace, IsSpace, Tail, SkipSpace;
    LandingSplits(word);
  }

  lemma BlankLands(word: string)
    requires word != "" && NoSpace(word) && word[0] != '#'
    ensures Spills(" " + word) && Landing(" " + word) == word
  {
    var host := " " + word;
    SpaceFree(word);
    TailSplits(host);
    assert Tail(host) == host && host[1..] == word;
    SkipSpaceSplits(word);
    hide NoSpace, Tail;
    assert SkipSpace(host) == SkipSpace(word) == word;
  }

  lemma FeedLands(first: string, word: string)
    requires '\n' !in first && word != "" && NoSpace(word) && word[0] != '#'
    ensures Spills(first + "\n" + word) && Landing(first + "\n" + word) == word
  {
    hide NoSpace, SkipSpace;
    var host := first + "\n" + word;
    assert host[..|first|] == first && host[|first| + 1..] == word;
    IndexUnique(host, '\n', |first|);
    WordLands(word);
    assert Tail(host) == Tail(word);
    assert |host| > |word|;
  }

  /** A host with a blank or a line feed in front of another, confirmed, makes that other trusted: nobody was asked
      about it. */
  lemma BlankInFrontSpills(host: string)
    requires host in {" x", "y\nx"}
    ensures UrlOk(Url(host, 1965, "/")) && UrlOk(Url("x", 1965, "/"))
    ensures var next := Check([], Hostport(host, 1965), "FF", true).file;
      && Find([], Hostport("x", 1965)) == Missing
      && Check(next, Hostport("x", 1965), "FF", false) == Outcome(true, false, next)
  {
    hide Find, Decimal, Hostport, Replace, LineFor, Lines, Spills, Landing;
    var next := Check([], Hostport(host, 1965), "FF", true).file;
    assert " " + "x" == " x" && "y" + "\n" + "x" == "y\nx";
    BlankLands("x");
    FeedLands("y", "x");
    LongHosts(Url(host, 1965, "/"));
    SpillWitness(host, 1965, "FF");
    SameText("FF");
    AcceptedUnasked(next, Hostport("x", 1965), "FF", false);
    UnaskedKeeps(next, Hostport("x", 1965), "FF", false);
  }

  /** What is looked up stands on some line about the host. */
  lemma {:induction false} FoundOnLine(file: seq<string>, hostport: string)
    requires Find(file, hostport).Stored?
    ensures exists k :: 0 <= k < |file| && About(file[k], hostport) && Verdict(file[k]) == Find(file, hostport)
  {
    hide About, Verdict;
    if About(file[0], hostport) {
    } else {
      FoundOnLine(file[1..], hostport);
      var rest := file[1..];
      var k :| 0 <= k < |rest| && About(rest[k], hostport) && Verdict(rest[k]) == Find(rest, hostport);
      assert About(file[k + 1], hostport);
    }
  }

  lemma {:induction false} ReplacedLines(file: seq<string>, hostport: string, fp: string)
    ensures var r := Replace(file, hostport, fp);
      && |r| == |file|
      && forall k :: 0 <= k < |r| ==>
           r[k] == LineFor(hostport, fp) || (r[k] == file[k] && !About(file[k], hostport))
  {
    hide About, LineFor;
    if file != [] {
      ReplacedLines(file[1..], hostport, fp);
    }
  }

  /** After a confirmation only the written lines are about the host. */
  lemma OnlyWritten(file: seq<string>, hostport: string, fp: string, answer: bool, k: nat)
    requires var r := Check(file, hostport, fp, answer);
      r.prompted && r.accepted && k < |r.file| && About(r.file[k], hostport)
    ensures var line := Check(file, hostport, fp, answer).file[k];
      line == LineFor(hostport, fp) || line in Lines(LineFor(hostport, fp))
  {
    hide About, LineFor, Verdict, Find, Replace, Lines;
    ReplacedLines(file, hostport, fp);
    FindMentions(file, hostport);
  }

  lemma GoodIsRemembered(file: seq<string>, hostport: string, fp: string, answer: bool)
    requires var r := Check(file, hostport, fp, answer); r.prompted && r.accepted
    requires GoodHost(hostport) && GoodFp(fp)
    ensures Find(Check(file, hostport, fp, answer).file, hostport) == Stored(fp)
  {
    assert NoSpace(hostport) && 0 < |hostport| <= 255 && NoSpace(fp);
    hide *;
    CheckIs(file, hostport, fp, answer);
    SameText(hostport);
    FindReplaced(file, hostport, fp, hostport);
    WordLine(hostport, fp, hostport);
    OneLineFor(hostport, fp);
    FindConcat(file, [LineFor(hostport, fp)], hostport);
    FindOne(LineFor(hostport, fp), hostport);
  }

  lemma WordsAboutHost(line: string, hostport: string, fp: string)
    requires About(line, hostport) && Verdict(line).Stored? && EqualIgnoringCase(Verdict(line).fp, fp)
    ensures NoSpace(hostport) && NoSpace(fp)
  {
    hide ParseLine, NoSpace;
    AboutWord(line, hostport);
    EntryIsGood(line);
    SpaceHasNoCase(Verdict(line).fp, fp);
  }

  /** A confirmed fingerprint is remembered if and only if host and fingerprint can be written. */
  lemma RememberedExactly(file: seq<string>, hostport: string, fp: string, answer: bool)
    requires var r := Check(file, hostport, fp, answer); r.prompted && r.accepted
    ensures Trusts(Check(file, hostport, fp, answer).file, hostport, fp) <==> GoodHost(hostport) && GoodFp(fp)
  {
    hide Check, Find, LineFor, GoodHost, GoodFp, ParseLine, Lines, NoSpace;
    var next := Check(file, hostport, fp, answer).file;
    if GoodHost(hostport) && GoodFp(fp) {
      GoodIsRemembered(file, hostport, fp, answer);
      SameText(fp);
    }
    if Trusts(next, hostport, fp) {
      FoundOnLine(next, hostport);
      var k :| 0 <= k < |next| && About(next[k], hostport) && Verdict(next[k]) == Find(next, hostport);
      OnlyWritten(file, hostport, fp, answer, k);
      WordsAboutHost(next[k], hostport, fp);
      OneLineFor(hostport, fp);
      OnlyGoodReadsBack(hostport, fp);
    }
  }

  // ----- Whole runs -----

  datatype Event = Event(host: string, port: nat, fp: string, answer: bool) {
    function At(): string { Hostport(host, port) }
  }

  /** Hosts that a URL can have and that fit the buffer, with fingerprints of one word. */
  predicate RealEvents(events: seq<Event>) {
    forall k :: 0 <= k < |events| ==>
      RealHost(events[k].host) && HostportFits(events[k].host, events[k].port) && GoodFp(events[k].fp)
  }

  function FileAfter(file: seq<string>, events: seq<Event>): seq<string>
    decreases |events|
  {
    if events == [] then file
    else FileAfter(Check(file, events[0].At(), events[0].fp, events[0].answer).file, events[1..])
  }

  /** At event `k` the user was asked about this fingerprint, for the host itself or for one that spills on it,
      and said yes. */
  predicate ConfirmedAt(file: seq<string>, events: seq<Event>, k: nat, hostport: string, fp: string) {
    k < |events| && events[k].fp == fp
    && (EqualIgnoringCase(events[k].At(), hostport) || SpillsOn(events[k].host, events[k].port, hostport))
    && var r := Check(FileAfter(file, events[..k]), events[k].At(), fp, events[k].answer);
    r.prompted && r.accepted
  }

  lemma ConfirmedLater(file: seq<string>, events: seq<Event>, k: nat, hostport: string, fp: string)
    requires events != []
    requires var next := Check(file, events[0].At(), events[0].fp, events[0].answer).file;
      ConfirmedAt(next, events[1..], k, hostport, fp)
    ensures ConfirmedAt(file, events, k + 1, hostport, fp)
  {
    hide Check, Hostport, SpillsOn, EqualIgnoringCase;
    assert events[..k + 1][1..] == events[1..][..k];
  }

  lemma ConfirmedNow(file: seq<string>, events: seq<Event>, hostport: string)
    requires events != []
    requires EqualIgnoringCase(events[0].At(), hostport) || SpillsOn(events[0].host, events[0].port, hostport)
    requires var r := Check(file, events[0].At(), events[0].fp, events[0].answer); r.prompted && r.accepted
    ensures ConfirmedAt(file, events, 0, hostport, events[0].fp)
  {
    hide Check, Hostport, SpillsOn, EqualIgnoringCase;
    assert events[..0] == [];
  }

  lemma NotGoodMatch(host: string, port: nat, host': string, port': nat)
    requires RealHost(host) && HostportFits(host, port) && RealHost(host')
    requires EqualIgnoringCase(Hostport(host, port), Hostport(host', port')) && !GoodHost(Hostport(host, port))
    ensures !NoSpace(Hostport(host', port')) || host'[0] == '#'
  {
    hide Decimal;
    RealHostport(host, port);
    RealHostport(host', port');
    if NoSpace(Hostport(host', port')) {
      SameText(Hostport(host, port));
      SpaceHasNoCase(Hostport(host', port'), Hostport(host, port));
      assert ToLower(host[0]) == ToLower(host'[0]);
    }
  }

  /** One check decides a lookup only by a confirmation, but for hosts that begin a comment. */
  lemma CheckDecides(file: seq<string>, e: Event, host: string, port: nat)
    requires RealEvents([e]) && RealHost(host)
    ensures var r := Check(file, e.At(), e.fp, e.answer);
      var other, now := Hostport(host, port), Find(r.file, Hostport(host, port));
      || now == Find(file, other) || (now == Missing && host[0] == '#')
      || (now == Stored(e.fp) && r.prompted && r.accepted
          && (EqualIgnoringCase(e.At(), other) || SpillsOn(e.host, e.port, other)))
  {
    assert RealHost([e][0].host) && HostportFits(e.host, e.port) && GoodFp(e.fp);
    assert e.At() == Hostport(e.host, e.port);
    hide *;
    var other := Hostport(host, port);
    CheckEffect(file, e.host, e.port, e.fp, e.answer, host, port);
    if EqualIgnoringCase(e.At(), other) && !GoodHost(e.At()) {
      NotGoodMatch(e.host, e.port, host, port);
      if !NoSpace(other) && Find(file, other) != Missing {
        FoundIsWord(file, other);
      }
    }
  }

  /** Every fingerprint the file ever holds for a host was there at the start, or the user was asked about it and
      confirmed it, for that host or for one that spills on it. */
  lemma {:induction false} TrustHasAnOrigin(file: seq<string>, events: seq<Event>, host: string, port: nat)
    requires RealEvents(events) && RealHost(host)
    ensures var end := Find(FileAfter(file, events), Hostport(host, port));
      || end == Find(file, Hostport(host, port)) || (end == Missing && host[0] == '#')
      || (end.Stored? && exists k: nat :: ConfirmedAt(file, events, k, Hostport(host, port), end.fp))
    decreases |events|
  {
    hide Find, Check, ConfirmedAt, Hostport, GoodFp, HostportFits, SpillsOn, EqualIgnoringCase;
    if events != [] {
      var e, hostport := events[0], Hostport(host, port);
      var r := Check(file, e.At(), e.fp, e.answer);
      CheckDecides(file, e, host, port);
      TrustHasAnOrigin(r.file, events[1..], host, port);
      var end := Find(FileAfter(r.file, events[1..]), hostport);
      if end.Stored? && exists k: nat :: ConfirmedAt(r.file, events[1..], k, hostport, end.fp) {
        var k: nat :| ConfirmedAt(r.file, events[1..], k, hostport, end.fp);
        ConfirmedLater(file, events, k, hostport, end.fp);
      } else if end == Find(r.file, hostport) && end.Stored? && end != Find(file, hostport) {
        ConfirmedNow(file, events, hostport);
      }
    }
  }

  /** Where no host spills, the confirmation was for the host itself. */
  lemma ConfirmedForItself(file: seq<string>, events: seq<Event>, k: nat, hostport: string, fp: string)
    requires ConfirmedAt(file, events, k, hostport, fp)
    requires forall j :: 0 <= j < |events| ==> !Spills(events[j].host)
    ensures EqualIgnoringCase(events[k].At(), hostport)
  {
    hide Check, Spills, EqualIgnoringCase;
  }

  lemma PromptAnswered(file: seq<string>, e: Event)
    ensures var r := Check(file, e.At(), e.fp, e.answer); r.prompted && r.accepted ==> e.answer
  {
  }

  /** No event of the run confirms another fingerprint for the host. */
  predicate LeavesAlone(events: seq<Event>, hostport: string, fp: string) {
    forall k :: 0 <= k < |events| ==>
      !(EqualIgnoringCase(events[k].At(), hostport) && events[k].answer && !EqualIgnoringCase(events[k].fp, fp))
  }

  lemma SpellingSame(a: string, b: string, c: string)
    requires EqualIgnoringCase(a, b) && EqualIgnoringCase(c, b)
    ensures EqualIgnoringCase(a, c)
  {
  }

  /** A trusted fingerprint stays trusted through a check that does not confirm another. */
  lemma TrustKept(file: seq<string>, e: Event, host: string, port: nat, fp: string)
    requires RealEvents([e]) && RealHost(host) && LeavesAlone([e], Hostport(host, port), fp)
    requires Trusts(file, Hostport(host, port), fp)
    ensures Trusts(Check(file, e.At(), e.fp, e.answer).file, Hostport(host, port), fp)
  {
    hide Find, Check, Hostport, GoodFp, HostportFits, SpillsOn, EqualIgnoringCase, GoodHost, RealHost;
    var other, r := Hostport(host, port), Check(file, e.At(), e.fp, e.answer);
    assert [e][0] == e;
    CheckEffect(file, e.host, e.port, e.fp, e.answer, host, port);
    PromptAnswered(file, e);
    if EqualIgnoringCase(e.At(), other) && r.prompted && r.accepted {
      FindSame(file, e.At(), other);
      SpellingSame(Find(file, other).fp, fp, e.fp);
      AcceptedUnasked(file, e.At(), e.fp, e.answer);
    }
  }

  lemma {:induction false} TrustLasts(file: seq<string>, host: string, port: nat, fp: string, events: seq<Event>)
    requires RealEvents(events) && RealHost(host) && LeavesAlone(events, Hostport(host, port), fp)
    requires Trusts(file, Hostport(host, port), fp)
    ensures Trusts(FileAfter(file, events), Hostport(host, port), fp)
    decreases |events|
  {
    hide Find, Check, Hostport, Trusts, EqualIgnoringCase;
    if events != [] {
      var e := events[0];
      TrustKept(file, e, host, port, fp);
      TrustLasts(Check(file, e.At(), e.fp, e.answer).file, host, port, fp, events[1..]);
    }
  }

  /** Once accepted, a host's fingerprint is accepted again without a question, whatever happens in between
      short of confirming another one for that host; if the user was asked, host and port have to be words the file
      can hold. */
  lemma AcceptedAgain(file: seq<string>, host: string, port: nat, fp: string, answer: bool, events: seq<Event>,
                      again: bool)
    requires RealHost(host) && GoodFp(fp) && RealEvents(events) && LeavesAlone(events, Hostport(host, port), fp)
    requires var r := Check(file, Hostport(host, port), fp, answer);
      r.accepted && (r.prompted ==> GoodHost(Hostport(host, port)))
    ensures var hostport := Hostport(host, port);
      var now := FileAfter(Check(file, hostport, fp, answer).file, events);
      Check(now, hostport, fp, again) == Outcome(true, false, now)
  {
    hide Find, Check, Hostport, GoodHost, GoodFp, EqualIgnoringCase, RealHost;
    var hostport := Hostport(host, port);
    var next := Check(file, hostport, fp, answer).file;
    AcceptedUnasked(file, hostport, fp, answer);
    UnaskedKeeps(file, hostport, fp, answer);
    if Check(file, hostport, fp, answer).prompted {
      GoodIsRemembered(file, hostport, fp, answer);
      SameText(fp);
    }
    TrustLasts(next, host, port, fp, events);
    AcceptedUnasked(FileAfter(next, events), hostport, fp, again);
    UnaskedKeeps(FileAfter(next, events), hostport, fp, again);
  }
}
