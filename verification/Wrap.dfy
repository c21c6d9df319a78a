/** Word wrapping at 80 columns. */
module Wrap {
  import opened Common
  import opened Gemtext

  // ----- Pieces of a text -----

  /** The words of the text, each cut into pieces of at most 255 characters. */
  function Pieces(text: string): seq<string>
    decreases |text|
  {
    var p := TrimLeft(text);
    if p == "" then []
    else
      var n := Min(RunLength(p), 255);
      [p[..n]] + Pieces(p[n..])
  }

  function Concat(pieces: seq<string>): string {
    if pieces == [] then "" else pieces[0] + Concat(pieces[1..])
  }

  /** The characters that are not blank. */
  function Squeeze(s: string): string {
    if s == "" then "" else (if IsBlank(s[0]) then "" else [s[0]]) + Squeeze(s[1..])
  }

  // ----- Laying the pieces out -----

  function Gap(line: string): string { if line == "" then "" else " " }

  /** The physical lines, where `line` is the one being filled. */
  function Fill(prefix: string, pieces: seq<string>, line: string): seq<string> {
    if pieces == [] then [line]
    else if |line| + |Gap(line)| + |pieces[0]| > 80 then [line] + Fill(prefix, pieces[1..], prefix + pieces[0])
    else Fill(prefix, pieces[1..], line + Gap(line) + pieces[0])
  }

  function Layout(prefix: string, text: string): seq<string> { Fill(prefix, Pieces(text), prefix) }

  function Unlines(lines: seq<string>): string {
    if lines == [] then "" else lines[0] + "\n" + Unlines(lines[1..])
  }

  function Wrapped(prefix: string, text: string): string { Unlines(Layout(prefix, text)) }

  // ----- The loop -----

  /** The piece of the text that starts at `p`. */
  method TakeWord(text: string, p: nat) returns (word: string)
    requires p < |text| && !IsBlank(text[p])
    ensures var rest := text[p..];
      word != "" && |word| <= |rest| && word == rest[..Min(RunLength(rest), 255)]
  {
    var wlen := 0;
    word := "";
    while p + wlen < |text| && !IsBlank(text[p + wlen])
      invariant 0 <= wlen <= |text| - p && wlen + RunLength(text[p + wlen..]) == RunLength(text[p..])
      invariant word == text[p..p + Min(wlen, 255)]
    {
      if wlen + 1 < 256 {
        word := word + [text[p + wlen]];
      }
      assert text[p + wlen..][1..] == text[p + wlen + 1..];
      wlen := wlen + 1;
    }
    if wlen >= 256 {
      wlen := 255;
    }
    assert text[p..p + wlen] == text[p..][..wlen];
  }

  /** What is printed so far, completed with the layout of the rest, is the whole. */
  ghost predicate Reached(prefix: string, text: string, rest: string, done: string, line: string) {
    done + Unlines(Fill(prefix, Pieces(rest), line)) == Wrapped(prefix, text) && prefix <= line
  }

  lemma TrimmedPieces(text: string)
    ensures Pieces(TrimLeft(text)) == Pieces(text)
  {
    hide RunLength;
  }

  lemma NextPiece(rest: string, word: string)
    requires rest != "" && !IsBlank(rest[0]) && |word| <= |rest| && word == rest[..Min(RunLength(rest), 255)]
    ensures Pieces(rest) == [word] + Pieces(rest[|word|..])
  {
    assert TrimLeft(rest) == rest;
  }

  lemma FillNext(prefix: string, word: string, pieces: seq<string>, line: string)
    ensures Fill(prefix, [word] + pieces, line) ==
      if |line| + |Gap(line)| + |word| > 80 then [line] + Fill(prefix, pieces, prefix + word)
      else Fill(prefix, pieces, line + Gap(line) + word)
  {
    hide Gap;
    assert ([word] + pieces)[1..] == pieces;
  }

  lemma UnlinesNext(done: string, line: string, lines: seq<string>)
    ensures done + Unlines([line] + lines) == done + line + "\n" + Unlines(lines)
  {
    assert ([line] + lines)[1..] == lines;
  }

  lemma NextLine(prefix: string, text: string, rest: string, done: string, line: string, word: string)
    requires rest != "" && !IsBlank(rest[0]) && |word| <= |rest| && word == rest[..Min(RunLength(rest), 255)]
    requires Reached(prefix, text, rest, done, line)
    ensures
      if |line| + |Gap(line)| + |word| > 80
      then Reached(prefix, text, rest[|word|..], done + line + "\n", prefix + word)
      else Reached(prefix, text, rest[|word|..], done, line + Gap(line) + word)
  {
    hide Pieces, TrimLeft, RunLength, Wrapped, Gap, Fill, Unlines, Min;
    NextPiece(rest, word);
    var pieces := Pieces(rest[|word|..]);
    FillNext(prefix, word, pieces, line);
    UnlinesNext(done, line, Fill(prefix, pieces, prefix + word));
  }

  lemma AtEnd(prefix: string, text: string, done: string, line: string)
    requires Reached(prefix, text, "", done, line)
    ensures done + line + "\n" == Wrapped(prefix, text)
  {
    hide Wrapped;
    assert TrimLeft("") == "" && Pieces("") == [];
    assert [line][1..] == [];
    assert Unlines([line]) == line + "\n";
    assert done + (line + "\n") == done + line + "\n";
  }

  lemma AtStart(prefix: string, text: string)
    ensures Reached(prefix, text, text, "", prefix)
  {
    hide Fill, Pieces, Unlines;
    var all := Wrapped(prefix, text);
    assert "" + all == all;
  }

  lemma Trimmed(prefix: string, text: string, rest: string, done: string, line: string)
    requires Reached(prefix, text, rest, done, line)
    ensures Reached(prefix, text, TrimLeft(rest), done, line)
  {
    hide Pieces, Fill, Unlines, Wrapped;
    TrimmedPieces(rest);
  }

  lemma FirstOf(text: string, before: string, p: nat)
    requires p < |text| && text[p..] == TrimLeft(before)
    ensures text[p..] != "" && text[p] == text[p..][0] && !IsBlank(text[p])
  {
    TrimLeftSplits(before);
  }

  lemma LineStarted(prefix: string, text: string, rest: string, done: string, line: string)
    requires Reached(prefix, text, rest, done, line)
    ensures line == "" ==> prefix == ""
    ensures Gap(line) == if |line| == 0 then "" else " "
  {
  }

  method PrintWrapped(prefix: string, text: string) returns (out: string)
    ensures out == Wrapped(prefix, text)
  {
    hide *;
    out := prefix;
    var col, p := |prefix|, 0;
    ghost var done, line := "", prefix;
    AtStart(prefix, text);
    assert text[0..] == text;
    while p < |text|
      invariant 0 <= p <= |text|
      invariant Reached(prefix, text, text[p..], done, line)
      invariant out == done + line && col == |line|
      decreases |text| - p
    {
      ghost var before := text[p..];
      p := SkipBlanks(text, p);
      Trimmed(prefix, text, before, done, line);
      if p == |text| {
        break;
      }
      FirstOf(text, before, p);
      var word := TakeWord(text, p);
      ghost var rest := text[p..];
      NextLine(prefix, text, rest, done, line, word);
      assert rest[|word|..] == text[p + |word|..];
      LineStarted(prefix, text, rest, done, line);
      if col == 0 && prefix != "" {
        out := out + prefix;
        col := |prefix|;
      }
      if col + (if col == 0 then 0 else 1) + |word| > 80 {
        out := out + "\n";
        if prefix != "" {
          out := out + prefix;
          col := |prefix|;
        } else {
          col := 0;
        }
        done, line := done + line + "\n", prefix;
      } else if col > 0 {
        out := out + " ";
        col := col + 1;
        line := line + " ";
      }
      out := out + word;
      col := col + |word|;
      line := line + word;
      p := p + |word|;
    }
    assert text[p..] == "";
    AtEnd(prefix, text, done, line);
    out := out + "\n";
  }

  // ----- Where words are cut -----

  lemma SkipOne(blank: char, s: string)
    requires IsBlank(blank)
    ensures Pieces([blank] + s) == Pieces(s)
  {
    hide RunLength;
    assert ([blank] + s)[1..] == s;
  }

  lemma NoPieces()
    ensures Pieces("") == []
  {
  }

  lemma {:induction false} RunStops(a: string, blank: char, b: string)
    requires IsBlank(blank)
    ensures RunLength(a + [blank] + b) == RunLength(a)
  {
    var s := a + [blank] + b;
    if a != "" {
      assert s[1..] == a[1..] + [blank] + b;
      RunStops(a[1..], blank, b);
    }
  }

  lemma PositiveRun(a: string)
    requires a != "" && !IsBlank(a[0])
    ensures Min(RunLength(a), 255) > 0
  {
  }

  /** A blank always ends a piece. */
  lemma {:induction false} PiecesSplit(a: string, blank: char, b: string)
    requires IsBlank(blank)
    ensures Pieces(a + [blank] + b) == Pieces(a) + Pieces(b)
    decreases |a|
  {
    hide Pieces;
    var s := a + [blank] + b;
    if a == "" {
      SkipOne(blank, b);
      assert s == [blank] + b;
      NoPieces();
    } else if IsBlank(a[0]) {
      assert s == [a[0]] + (a[1..] + [blank] + b) && a == [a[0]] + a[1..];
      SkipOne(a[0], a[1..] + [blank] + b);
      SkipOne(a[0], a[1..]);
      PiecesSplit(a[1..], blank, b);
    } else {
      RunStops(a, blank, b);
      var n := Min(RunLength(a), 255);
      assert s[..n] == a[..n] && s[n..] == a[n..] + [blank] + b;
      PositiveRun(a);
      NextPiece(a, a[..n]);
      NextPiece(s, a[..n]);
      PiecesSplit(a[n..], blank, b);
    }
  }

  predicate CutAt(word: string, piece: string, k: int) {
    0 <= 255 * k < |word| && piece == word[255 * k..Min(255 * k + 255, |word|)]
  }

  lemma FirstCut(word: string)
    requires word != ""
    ensures CutAt(word, word[..Min(|word|, 255)], 0)
  {
  }

  lemma SliceOfDrop(s: string, d: nat, from: nat, to: nat)
    requires from <= to && d + to <= |s|
    ensures s[d..][from..to] == s[d + from..d + to]
  {
  }

  lemma LaterCut(word: string, piece: string, k: nat)
    requires k > 0 && word != "" && CutAt(word[Min(|word|, 255)..], piece, k - 1)
    ensures CutAt(word, piece, k)
  {
    if |word| > 255 {
      SliceOfDrop(word, 255, 255 * k - 255, Min(255 * k, |word| - 255));
    }
  }

  /** A word is cut every 255 characters. */
  lemma {:induction false} WordCut(word: string)
    requires NoBlank(word)
    ensures var pieces := Pieces(word);
      && |word| <= 255 * |pieces| < |word| + 255
      && forall k :: 0 <= k < |pieces| ==> CutAt(word, pieces[k], k)
    decreases |word|
  {
    hide Pieces, CutAt;
    if word == "" {
      NoPieces();
    } else {
      assert word + "" == word;
      RunLengthIs(word, "");
      var n := Min(|word|, 255);
      NextPiece(word, word[..n]);
      WordCut(word[n..]);
      var pieces := Pieces(word);
      FirstCut(word);
      forall k | 0 < k < |pieces| ensures CutAt(word, pieces[k], k) {
        LaterCut(word, pieces[k], k);
      }
    }
  }

  // ----- What the layout is -----

  /** A line that fits, or one piece alone after the prefix. */
  predicate Fits(prefix: string, pieces: seq<string>, line: string) {
    prefix <= line && (|line| <= 80 || line[|prefix|..] in pieces)
  }

  lemma BehindPrefix(prefix: string, piece: string)
    ensures prefix <= prefix + piece && (prefix + piece)[|prefix|..] == piece
  {
  }

  lemma NextFits(prefix: string, piece: string, line: string, all: seq<string>)
    requires prefix <= line && piece in all
    ensures Fits(prefix, all, prefix + piece)
    ensures |line| + |Gap(line)| + |piece| <= 80 ==> Fits(prefix, all, line + Gap(line) + piece)
  {
    BehindPrefix(prefix, piece);
  }

  lemma {:induction false} LinesFit(prefix: string, pieces: seq<string>, line: string, all: seq<string>)
    requires Fits(prefix, all, line) && forall k :: 0 <= k < |pieces| ==> pieces[k] in all
    ensures forall k :: 0 <= k < |Fill(prefix, pieces, line)| ==> Fits(prefix, all, Fill(prefix, pieces, line)[k])
  {
    if pieces != [] {
      var next := if |line| + |Gap(line)| + |pieces[0]| > 80 then prefix + pieces[0] else line + Gap(line) + pieces[0];
      NextFits(prefix, pieces[0], line, all);
      LinesFit(prefix, pieces[1..], next, all);
    }
  }

  /** Every physical line is at most 80 columns, or is the prefix and a single piece. */
  lemma LayoutFits(prefix: string, text: string)
    requires |prefix| <= 80
    ensures forall k :: 0 <= k < |Layout(prefix, text)| ==> Fits(prefix, Pieces(text), Layout(prefix, text)[k])
  {
    LinesFit(prefix, Pieces(text), prefix, Pieces(text));
  }

  /** Some piece starts `next` behind the prefix and would not have fitted on `line`. */
  ghost predicate Forced(prefix: string, pieces: seq<string>, line: string, next: string) {
    exists k :: 0 <= k < |pieces| && prefix + pieces[k] <= next && |line| + |Gap(line)| + |pieces[k]| > 80
  }

  lemma {:induction false} FirstLineGrows(prefix: string, pieces: seq<string>, line: string)
    ensures var lines := Fill(prefix, pieces, line); |lines| >= 1 && line <= lines[0]
  {
    if pieces != [] && |line| + |Gap(line)| + |pieces[0]| <= 80 {
      FirstLineGrows(prefix, pieces[1..], line + Gap(line) + pieces[0]);
    }
  }

  lemma ForcedLater(prefix: string, pieces: seq<string>, line: string, next: string)
    requires pieces != [] && Forced(prefix, pieces[1..], line, next)
    ensures Forced(prefix, pieces, line, next)
  {
    hide Gap;
    var k :| 0 <= k < |pieces[1..]| && prefix + pieces[1..][k] <= next && |line| + |Gap(line)| + |pieces[1..][k]| > 80;
    assert pieces[k + 1] == pieces[1..][k];
  }

  lemma ForcedFirst(prefix: string, pieces: seq<string>, line: string, next: string)
    requires pieces != [] && prefix + pieces[0] <= next && |line| + |Gap(line)| + |pieces[0]| > 80
    ensures Forced(prefix, pieces, line, next)
  {
    hide Gap;
  }

  lemma {:induction false} BreaksForced(prefix: string, pieces: seq<string>, line: string, j: nat)
    requires j + 1 < |Fill(prefix, pieces, line)|
    ensures var lines := Fill(prefix, pieces, line); Forced(prefix, pieces, lines[j], lines[j + 1])
  {
    hide Gap, Forced;
    if pieces != [] {
      var piece, rest := pieces[0], pieces[1..];
      if |line| + |Gap(line)| + |piece| <= 80 {
        BreaksForced(prefix, rest, line + Gap(line) + piece, j);
        var lines := Fill(prefix, rest, line + Gap(line) + piece);
        ForcedLater(prefix, pieces, lines[j], lines[j + 1]);
      } else {
        var after := Fill(prefix, rest, prefix + piece);
        FirstLineGrows(prefix, rest, prefix + piece);
        if j == 0 {
          ForcedFirst(prefix, pieces, line, after[0]);
        } else {
          BreaksForced(prefix, rest, prefix + piece, j - 1);
          ForcedLater(prefix, pieces, after[j - 1], after[j]);
        }
      }
    }
  }

  /** A line is broken only where the next piece would not fit. */
  lemma LayoutIsGreedy(prefix: string, text: string)
    ensures forall j: nat :: j + 1 < |Layout(prefix, text)| ==>
      Forced(prefix, Pieces(text), Layout(prefix, text)[j], Layout(prefix, text)[j + 1])
  {
    hide Forced, Fill, Pieces;
    forall j: nat | j + 1 < |Layout(prefix, text)|
      ensures Forced(prefix, Pieces(text), Layout(prefix, text)[j], Layout(prefix, text)[j + 1])
    {
      BreaksForced(prefix, Pieces(text), prefix, j);
    }
  }

  // ----- Nothing is lost -----

  /** What stands after the prefix on each line. */
  function Bodies(prefix: string, lines: seq<string>): string {
    if lines == [] then "" else lines[0][Min(|prefix|, |lines[0]|)..] + Bodies(prefix, lines[1..])
  }

  lemma {:induction false} SqueezeConcat(a: string, b: string)
    ensures Squeeze(a + b) == Squeeze(a) + Squeeze(b)
  {
    if a == "" {
      assert a + b == b;
    } else {
      assert (a + b)[1..] == a[1..] + b;
      SqueezeConcat(a[1..], b);
    }
  }

  lemma {:induction false} SqueezeRun(s: string)
    requires NoBlank(s)
    ensures Squeeze(s) == s
  {
    if s != "" {
      SqueezeRun(s[1..]);
    }
  }

  lemma {:induction false} SqueezeTrim(s: string)
    ensures Squeeze(TrimLeft(s)) == Squeeze(s)
  {
    if s != "" && IsBlank(s[0]) {
      SqueezeTrim(s[1..]);
    }
  }

  lemma ShorterRun(p: string, n: nat)
    requires n <= RunLength(p) && NoBlank(p[..RunLength(p)])
    ensures NoBlank(p[..n])
  {
    forall k | 0 <= k < n ensures !IsBlank(p[k]) {
      assert p[..RunLength(p)][k] == p[k];
    }
  }

  /** Each piece is free of blanks and short. */
  lemma {:induction false} PiecesAre(text: string)
    ensures forall k :: 0 <= k < |Pieces(text)| ==> NoBlank(Pieces(text)[k]) && 0 < |Pieces(text)[k]| <= 255
    decreases |text|
  {
    hide NoBlank;
    var p := TrimLeft(text);
    if p != "" {
      TrimLeftSplits(text);
      RunLengthSplits(p);
      var n := Min(RunLength(p), 255);
      PiecesAre(p[n..]);
      ShorterRun(p, n);
    }
  }

  lemma {:induction false} PiecesConcat(text: string)
    ensures Concat(Pieces(text)) == Squeeze(text)
    decreases |text|
  {
    hide Squeeze, NoBlank;
    SqueezeTrim(text);
    var p := TrimLeft(text);
    if p == "" {
      assert Squeeze("") == "" by { SqueezeRun(""); }
    } else {
      var n := Min(RunLength(p), 255);
      PiecesConcat(p[n..]);
      RunLengthSplits(p);
      ShorterRun(p, n);
      SqueezeRun(p[..n]);
      assert p == p[..n] + p[n..];
      SqueezeConcat(p[..n], p[n..]);
    }
  }

  lemma BodiesNext(prefix: string, line: string, lines: seq<string>)
    requires prefix <= line
    ensures Bodies(prefix, [line] + lines) == line[|prefix|..] + Bodies(prefix, lines)
  {
    assert ([line] + lines)[1..] == lines;
  }

  lemma NoBodies(prefix: string)
    ensures Squeeze(Bodies(prefix, [])) == ""
  {
  }

  lemma SqueezeGap(line: string)
    ensures Squeeze(Gap(line)) == ""
  {
    assert " "[1..] == "";
  }

  lemma {:induction false} FillKeeps(prefix: string, pieces: seq<string>, line: string)
    requires prefix <= line && forall k :: 0 <= k < |pieces| ==> NoBlank(pieces[k])
    ensures Squeeze(Bodies(prefix, Fill(prefix, pieces, line))) == Squeeze(line[|prefix|..]) + Concat(pieces)
  {
    hide Squeeze, NoBlank, Bodies, Gap;
    if pieces == [] {
      BodiesNext(prefix, line, []);
      assert [line] + [] == [line];
      SqueezeConcat(line[|prefix|..], Bodies(prefix, []));
      NoBodies(prefix);
    } else {
      var piece := pieces[0];
      SqueezeRun(piece);
      var body := line[|prefix|..];
      if |line| + |Gap(line)| + |piece| > 80 {
        FillKeeps(prefix, pieces[1..], prefix + piece);
        BehindPrefix(prefix, piece);
        var rest := Fill(prefix, pieces[1..], prefix + piece);
        BodiesNext(prefix, line, rest);
        SqueezeConcat(body, Bodies(prefix, rest));
      } else {
        FillKeeps(prefix, pieces[1..], line + Gap(line) + piece);
        assert (line + Gap(line) + piece)[|prefix|..] == body + Gap(line) + piece;
        SqueezeConcat(body + Gap(line), piece);
        SqueezeConcat(body, Gap(line));
        SqueezeGap(line);
        assert Squeeze(body) + "" + piece + Concat(pieces[1..]) == Squeeze(body) + (piece + Concat(pieces[1..]));
      }
    }
  }

  lemma NothingBefore(prefix: string)
    ensures Squeeze(prefix[|prefix|..]) == ""
  {
  }

  /** The lines after their prefixes hold the text, blanks aside. */
  lemma LayoutKeepsText(prefix: string, text: string)
    ensures Squeeze(Bodies(prefix, Layout(prefix, text))) == Squeeze(text)
  {
    hide Squeeze, Bodies, Fill, Pieces, Concat;
    PiecesAre(text);
    PiecesConcat(text);
    FillKeeps(prefix, Pieces(text), prefix);
    NothingBefore(prefix);
    var all := Concat(Pieces(text));
    assert "" + all == all;
  }
}
