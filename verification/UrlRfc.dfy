/** Path normalisation against the remove_dot_segments routine of section 5.2.4 of RFC 3986. */
module UrlRfc {
  import opened UrlPath

  function UntilSlash(s: string): (n: nat)
    ensures n <= |s| && '/' !in s[..n]
    ensures n < |s| ==> s[n] == '/'
  {
    if s == "" || s[0] == '/' then 0
    else
      var m := UntilSlash(s[1..]);
      assert s[..1 + m] == [s[0]] + s[1..][..m];
      1 + m
  }

  /** Length of the first segment of `s`, a leading slash included. */
  function FirstSegment(s: string): (n: nat)
    requires s != ""
    ensures 1 <= n <= |s|
    ensures '/' !in s[1..n]
    ensures n < |s| ==> s[n] == '/'
  {
    1 + UntilSlash(s[1..])
  }

  /** Step 2C: the last segment goes, and the slash in front of it if there is one. */
  function RemoveLast(output: string): (r: string)
    decreases |output|
  {
    if output == "" then ""
    else if output[|output| - 1] == '/' then output[..|output| - 1]
    else RemoveLast(output[..|output| - 1])
  }

  /** Steps 2A to 2E until the input buffer is empty. */
  function RemoveDotSegments(input: string, output: string): string
    decreases |input|
  {
    if input == "" then output
    else if "../" <= input then RemoveDotSegments(input[3..], output)
    else if "./" <= input then RemoveDotSegments(input[2..], output)
    else if "/./" <= input then RemoveDotSegments(input[2..], output)
    else if input == "/." then RemoveDotSegments("/", output)
    else if "/../" <= input then RemoveDotSegments(input[3..], RemoveLast(output))
    else if input == "/.." then RemoveDotSegments("/", RemoveLast(output))
    else if input == "." || input == ".." then RemoveDotSegments("", output)
    else
      var n := FirstSegment(input);
      RemoveDotSegments(input[n..], output + input[..n])
  }

  /** A trailing slash goes, unless it is the whole path. */
  function DropTrailingSlash(s: string): string {
    if |s| > 1 && s[|s| - 1] == '/' then s[..|s| - 1] else s
  }

  ghost predicate NoDoubleSlash(s: string) {
    forall k :: 0 <= k < |s| - 1 ==> !(s[k] == '/' && s[k + 1] == '/')
  }

  /** Between steps the input is used up or starts with a slash. */
  predicate AtSlash(t: string) { t == "" || t[0] == '/' }

  lemma {:induction false} RemoveLastJoin(stack: seq<string>, tail: string)
    requires stack != [] && Clean(stack) && '/' !in tail
    ensures RemoveLast(Join(stack[..|stack| - 1]) + "/" + tail) == Join(stack[..|stack| - 1])
    decreases |tail|
  {
    var base := Join(stack[..|stack| - 1]) + "/";
    if tail == "" {
      assert base + tail == base && base[|base| - 1] == '/';
    } else {
      var front := tail[..|tail| - 1];
      assert (base + tail)[..|base + tail| - 1] == base + front;
      assert (base + tail)[|base + tail| - 1] == tail[|tail| - 1];
      RemoveLastJoin(stack, front);
    }
  }

  lemma SkipEmptyPiece(stack: seq<string>, pieces: seq<string>)
    ensures Split("") == [""]
    ensures Fold(stack, [""] + pieces) == Fold(stack, pieces)
    ensures Fold(stack, [""]) == stack
  {
    assert ([""] + pieces)[1..] == pieces;
  }

  lemma FoldOne(stack: seq<string>, seg: string, pieces: seq<string>)
    ensures Fold(stack, [seg] + pieces) == Fold(Push(stack, seg), pieces)
    ensures Fold(stack, [seg]) == Push(stack, seg)
  {
    assert ([seg] + pieces)[1..] == pieces;
  }

  /** The first piece of the rest, and what folding it does. */
  lemma FoldFirst(stack: seq<string>, seg: string, rest: string)
    requires '/' !in seg && AtSlash(rest)
    ensures Fold(stack, Split("/" + seg + rest)) == Fold(Push(stack, seg), Split(rest))
  {
    assert "/" + seg + rest == "" + "/" + (seg + rest);
    SplitConcat("", seg + rest);
    SplitWhole(seg);
    if rest == "" {
      assert seg + rest == seg;
    } else {
      assert seg + rest == seg + "/" + rest[1..];
      SplitConcat(seg, rest[1..]);
      assert "" + "/" + rest[1..] == rest;
      SplitConcat("", rest[1..]);
      SkipEmptyPiece(Push(stack, seg), Split(rest[1..]));
    }
    SkipEmptyPiece(stack, Split(seg + rest));
    FoldOne(stack, seg, if rest == "" then [] else Split(rest[1..]));
  }

  lemma DotInput(rest: string)
    requires AtSlash(rest)
    ensures var input := "/" + "." + rest;
      !("../" <= input) && !("./" <= input)
      && (if rest == "" then input == "/." && !("/./" <= input) else "/./" <= input && input[2..] == rest)
  {
    var input := "/" + "." + rest;
    assert input[0] == '/' && input[1] == '.';
    if rest != "" {
      assert input[2] == '/';
    }
  }

  lemma DotRound(rest: string, output: string)
    requires AtSlash(rest)
    ensures RemoveDotSegments("/" + "." + rest, output) == RemoveDotSegments(if rest == "" then "/" else rest, output)
  {
    DotInput(rest);
  }

  lemma DotDotInput(rest: string)
    requires AtSlash(rest)
    ensures var input := "/" + ".." + rest;
      !("../" <= input) && !("./" <= input) && !("/./" <= input) && input != "/."
      && (if rest == "" then input == "/.." && !("/../" <= input) else "/../" <= input && input[3..] == rest)
  {
    var input := "/" + ".." + rest;
    assert input[0] == '/' && input[1] == '.' && input[2] == '.';
    if rest != "" {
      assert input[3] == '/';
    }
  }

  lemma DotDotRound(rest: string, stack: seq<string>)
    requires AtSlash(rest) && Clean(stack)
    ensures RemoveDotSegments("/" + ".." + rest, Join(stack)) ==
      RemoveDotSegments(if rest == "" then "/" else rest, Join(Push(stack, "..")))
  {
    DotDotInput(rest);
    if stack != [] {
      RemoveLastJoin(stack, stack[|stack| - 1]);
    }
  }

  lemma {:induction false} Until(seg: string, rest: string)
    requires '/' !in seg && AtSlash(rest)
    ensures UntilSlash(seg + rest) == |seg|
    decreases |seg|
  {
    if seg == "" {
      assert seg + rest == rest;
    } else {
      assert (seg + rest)[1..] == seg[1..] + rest;
      Until(seg[1..], rest);
    }
  }

  /** The segment is what stands in front of the first slash. */
  lemma SegmentIs(seg: string, rest: string, dots: string)
    requires '/' !in seg && AtSlash(rest) && '/' !in dots && dots + "/" <= seg + rest
    ensures seg == dots
  {
    Until(seg, rest);
    var tail := (seg + rest)[|dots|..];
    assert seg + rest == dots + tail;
    assert tail[0] == (dots + "/")[|dots|];
    Until(dots, tail);
    assert (seg + rest)[..|seg|] == seg && (dots + tail)[..|dots|] == dots;
  }

  /** A rest that is not empty puts a slash behind the segment. */
  lemma SlashAfter(seg: string, rest: string)
    requires AtSlash(rest)
    ensures if rest == "" then seg + rest == seg else '/' in seg + rest
  {
    if rest != "" {
      assert (seg + rest)[|seg|] == '/';
    }
  }

  lemma SegmentEndsAt(seg: string, rest: string, dots: string)
    requires '/' !in seg && AtSlash(rest) && '/' !in dots && "/" + dots == "/" + seg + rest
    ensures seg == dots
  {
    assert ("/" + dots)[1..] == dots && ("/" + seg + rest)[1..] == seg + rest;
    SlashAfter(seg, rest);
  }

  lemma PlainInput(seg: string, rest: string)
    requires '/' !in seg && AtSlash(rest) && seg != "." && seg != ".."
    ensures var input := "/" + seg + rest;
      && !("../" <= input) && !("./" <= input) && !("/./" <= input) && !("/../" <= input)
      && input != "/." && input != "/.."
      && input != "." && input != ".." && FirstSegment(input) == 1 + |seg|
  {
    var input := "/" + seg + rest;
    assert input[0] == '/' && input[1..] == seg + rest;
    Until(seg, rest);
    if "/./" <= input {
      SegmentIs(seg, rest, ".");
    }
    if "/../" <= input {
      SegmentIs(seg, rest, "..");
    }
    if input == "/." {
      SegmentEndsAt(seg, rest, ".");
    }
    if input == "/.." {
      SegmentEndsAt(seg, rest, "..");
    }
  }

  /** Step 2E. */
  lemma OneRound(input: string, output: string)
    requires input != ""
    requires !("../" <= input) && !("./" <= input) && !("/./" <= input) && !("/../" <= input)
    requires input != "/." && input != "/.." && input != "." && input != ".."
    ensures var n := FirstSegment(input);
      RemoveDotSegments(input, output) == RemoveDotSegments(input[n..], output + input[..n])
  {
    hide FirstSegment;
  }

  lemma PlainRound(seg: string, rest: string, output: string)
    requires '/' !in seg && AtSlash(rest) && (seg == "" ==> rest == "") && seg != "." && seg != ".."
    ensures RemoveDotSegments("/" + seg + rest, output) == RemoveDotSegments(rest, output + "/" + seg)
  {
    hide RemoveDotSegments, FirstSegment;
    var input := "/" + seg + rest;
    PlainInput(seg, rest);
    OneRound(input, output);
    assert input[..1 + |seg|] == "/" + seg;
    assert output + ("/" + seg) == output + "/" + seg;
    assert input[1 + |seg|..] == rest;
  }

  /** One round of the routine on input "/seg rest", by the kind of segment. */
  lemma Round(seg: string, rest: string, stack: seq<string>)
    requires '/' !in seg && AtSlash(rest) && Clean(stack) && (seg == "" ==> rest == "")
    ensures var input := "/" + seg + rest;
      if seg == "." then
        RemoveDotSegments(input, Join(stack)) == RemoveDotSegments(if rest == "" then "/" else rest, Join(stack))
      else if seg == ".." then
        RemoveDotSegments(input, Join(stack)) ==
        RemoveDotSegments(if rest == "" then "/" else rest, Join(Push(stack, "..")))
      else
        RemoveDotSegments(input, Join(stack)) == RemoveDotSegments(rest, Join(stack) + "/" + seg)
  {
    hide RemoveDotSegments, Join, Push;
    if seg == "." {
      DotRound(rest, Join(stack));
    } else if seg == ".." {
      DotDotRound(rest, stack);
    } else {
      PlainRound(seg, rest, Join(stack));
    }
  }

  /** Two slashes in a row are what the assumption excludes. */
  lemma EmptySegmentEnds(rest: string)
    requires AtSlash(rest)
    ensures NoDoubleSlash("/" + rest) ==> rest == ""
  {
    if rest != "" {
      var s := "/" + rest;
      assert s[0] == '/' && s[0 + 1] == '/';
    }
  }

  /** A lone slash at the end leaves a trailing slash, which goes. */
  lemma SlashAtEnd(stack: seq<string>)
    requires Clean(stack)
    ensures DropTrailingSlash(RemoveDotSegments("/", Join(stack))) == Render(stack)
    ensures Fold(stack, Split("/")) == stack
  {
    Round("", "", stack);
    assert "/" + "" + "" == "/";
    FoldFirst(stack, "", "");
    SkipEmptyPiece(stack, []);
    assert Join(stack) + "/" + "" == Join(stack) + "/";
    if stack != [] {
      SplitJoin(stack);
      assert (Join(stack) + "/")[..|Join(stack)|] == Join(stack);
    }
  }

  lemma JoinEndsClean(stack: seq<string>)
    requires Clean(stack)
    ensures DropTrailingSlash(if stack == [] then "/" else Join(stack)) == Render(stack)
  {
    if stack != [] {
      var last := stack[|stack| - 1];
      assert Join(stack)[|Join(stack)| - 1] == last[|last| - 1];
    }
  }

  lemma NothingLeft(stack: seq<string>)
    ensures Fold(stack, Split("")) == stack && RemoveDotSegments("", Join(stack)) == Join(stack)
  {
    SkipEmptyPiece(stack, []);
  }

  /** From any point between segments on, the routine and the fold agree up to the trailing slash. */
  lemma {:induction false} RemoveDotsIsFold(input: string, stack: seq<string>)
    requires AtSlash(input) && NoDoubleSlash(input) && Clean(stack) && (input == "" ==> stack != [])
    ensures DropTrailingSlash(RemoveDotSegments(input, Join(stack))) == Render(Fold(stack, Split(input)))
    decreases |input|
  {
    hide RemoveDotSegments, Split, Fold;
    if input == "" {
      NothingLeft(stack);
      JoinEndsClean(stack);
    } else {
      var n := FirstSegment(input);
      var seg, rest := input[1..n], input[n..];
      assert input == "/" + seg + rest;
      EmptySegmentEnds(rest);
      assert seg == "" ==> input == "/" + rest;
      forall k | 0 <= k < |rest| - 1 ensures !(rest[k] == '/' && rest[k + 1] == '/') {
        assert rest[k] == input[n + k] && rest[k + 1] == input[n + k + 1];
      }
      Round(seg, rest, stack);
      FoldFirst(stack, seg, rest);
      var next := Push(stack, seg);
      if seg == "" {
        SlashAtEnd(stack);
      } else if rest == "" && (seg == "." || seg == "..") {
        SlashAtEnd(next);
        NothingLeft(next);
      } else {
        if Keeps(seg) {
          assert next[..|next| - 1] == stack;
        }
        RemoveDotsIsFold(rest, next);
      }
    }
  }

  /** On rooted paths without empty segments, normalisation is remove_dot_segments with a
      trailing slash removed. */
  lemma NormalIsRemoveDotSegments(s: string)
    requires Rooted(s) && NoDoubleSlash(s)
    ensures Normal(s) == DropTrailingSlash(RemoveDotSegments(s, ""))
  {
    RemoveDotsIsFold(s, []);
  }
}
