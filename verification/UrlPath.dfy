/** What path normalisation means: a path is cut at its slashes, and the pieces are folded on a stack. */
module UrlPath {

  /** One more character in front. */
  function Glue(c: char, p: seq<string>): (r: seq<string>)
    requires |p| >= 1
    ensures |r| >= 1
    ensures (forall k :: 0 <= k < |p| ==> '/' !in p[k]) ==> forall k :: 0 <= k < |r| ==> '/' !in r[k]
  {
    if c == '/' then [""] + p else [[c] + p[0]] + p[1..]
  }

  /** The pieces between slashes, empty ones included. */
  function Split(s: string): (p: seq<string>)
    ensures |p| >= 1
    ensures forall k :: 0 <= k < |p| ==> '/' !in p[k]
  {
    if s == "" then [""]
    else
      Glue(s[0], Split(s[1..]))
  }

  lemma GlueConcat(c: char, x: seq<string>, y: seq<string>)
    requires |x| >= 1
    ensures Glue(c, x + y) == Glue(c, x) + y
  {
    if c == '/' {
      assert [""] + (x + y) == ([""] + x) + y;
    } else {
      assert (x + y)[1..] == x[1..] + y;
      assert [[c] + x[0]] + (x[1..] + y) == ([[c] + x[0]] + x[1..]) + y;
    }
  }

  /** Empty and "." pieces are dropped, ".." takes the newest piece off, any other goes on top. */
  function Push(stack: seq<string>, piece: string): seq<string> {
    if piece == "" || piece == "." then stack
    else if piece == ".." then if stack == [] then [] else stack[..|stack| - 1]
    else stack + [piece]
  }

  function Fold(stack: seq<string>, pieces: seq<string>): seq<string>
    decreases |pieces|
  {
    if pieces == [] then stack else Fold(Push(stack, pieces[0]), pieces[1..])
  }

  function Join(stack: seq<string>): string {
    if stack == [] then "" else Join(stack[..|stack| - 1]) + "/" + stack[|stack| - 1]
  }

  function Render(stack: seq<string>): string {
    if stack == [] then "/" else Join(stack)
  }

  /** The normal form of a path. */
  function Normal(s: string): string {
    Render(Fold([], Split(s)))
  }

  // ----- Limits -----

  const TEMP_SIZE := 512
  const MAX_SEGS := 128

  predicate Keeps(piece: string) { piece != "" && piece != "." && piece != ".." }

  /** The piece fits the temporary buffer and the stack of segment starts. */
  predicate Room(stack: seq<string>, piece: string) {
    Keeps(piece) ==> |Join(stack)| + |piece| + 1 < TEMP_SIZE && |stack| + 1 < MAX_SEGS
  }

  /** Every piece finds room when its turn comes. */
  predicate Fits(stack: seq<string>, pieces: seq<string>)
    decreases |pieces|
  {
    pieces == [] || (Room(stack, pieces[0]) && Fits(Push(stack, pieces[0]), pieces[1..]))
  }

  // ----- Cutting -----

  lemma {:induction false} SplitConcat(a: string, b: string)
    ensures Split(a + "/" + b) == Split(a) + Split(b)
  {
    if a == "" {
      assert a + "/" + b == "/" + b;
      assert ("/" + b)[1..] == b;
      assert Glue('/', Split(b)) == [""] + Split(b);
    } else {
      SplitConcat(a[1..], b);
      assert (a + "/" + b)[1..] == a[1..] + "/" + b;
      GlueConcat(a[0], Split(a[1..]), Split(b));
    }
  }

  lemma {:induction false} SplitWhole(s: string)
    requires '/' !in s
    ensures Split(s) == [s]
  {
    if s != "" {
      SplitWhole(s[1..]);
      assert [s[0]] + s[1..] == s;
    }
  }

  lemma {:induction false} FoldConcat(stack: seq<string>, a: seq<string>, b: seq<string>)
    ensures Fold(stack, a + b) == Fold(Fold(stack, a), b)
    decreases |a|
  {
    if a == [] {
      assert a + b == b;
    } else {
      assert (a + b)[1..] == a[1..] + b;
      FoldConcat(Push(stack, a[0]), a[1..], b);
    }
  }

  lemma {:induction false} FitsConcat(stack: seq<string>, a: seq<string>, b: seq<string>)
    ensures Fits(stack, a + b) <==> Fits(stack, a) && Fits(Fold(stack, a), b)
    decreases |a|
  {
    if a == [] {
      assert a + b == b;
    } else {
      assert (a + b)[1..] == a[1..] + b;
      FitsConcat(Push(stack, a[0]), a[1..], b);
    }
  }

  // ----- Clean stacks -----

  /** What the stack can hold. */
  predicate Clean(stack: seq<string>) {
    forall k :: 0 <= k < |stack| ==> Keeps(stack[k]) && '/' !in stack[k]
  }

  lemma {:induction false} FoldClean(stack: seq<string>, pieces: seq<string>)
    requires Clean(stack) && forall k :: 0 <= k < |pieces| ==> '/' !in pieces[k]
    ensures Clean(Fold(stack, pieces))
    decreases |pieces|
  {
    if pieces != [] {
      FoldClean(Push(stack, pieces[0]), pieces[1..]);
    }
  }

  /** Cutting a joined stack gives its segments back, behind an empty piece. */
  lemma {:induction false} SplitJoin(stack: seq<string>)
    requires Clean(stack)
    ensures Split(Join(stack)) == [""] + stack || stack == []
    ensures Join(stack) == "" <==> stack == []
    decreases |stack|
  {
    if stack != [] {
      var front, last := stack[..|stack| - 1], stack[|stack| - 1];
      SplitJoin(front);
      SplitConcat(Join(front), last);
      SplitWhole(last);
      assert front + [last] == stack;
    }
  }

  lemma {:induction false} FoldCleanPieces(stack: seq<string>, pieces: seq<string>)
    requires Clean(pieces)
    ensures Fold(stack, pieces) == stack + pieces
    decreases |pieces|
  {
    if pieces != [] {
      FoldCleanPieces(stack + [pieces[0]], pieces[1..]);
      assert stack + [pieces[0]] + pieces[1..] == stack + pieces;
    } else {
      assert stack + pieces == stack;
    }
  }

  /** Normalising a rendered stack folds to that stack. */
  lemma FoldRender(stack: seq<string>)
    requires Clean(stack)
    ensures Fold([], Split(Render(stack))) == stack
  {
    if stack == [] {
      assert Split("/") == [""] + Split("") == ["", ""];
      assert Fold([], ["", ""]) == Fold([], [""]) == [];
    } else {
      SplitJoin(stack);
      FoldCleanPieces([], stack);
      assert ([""] + stack)[1..] == stack;
      assert [] + stack == stack;
    }
  }

  // ----- The algebra of normal forms -----

  lemma NormalIdempotent(s: string)
    ensures Normal(Normal(s)) == Normal(s)
  {
    FoldClean([], Split(s));
    FoldRender(Fold([], Split(s)));
  }

  /** A path may be normalised in front of a slash first. */
  lemma NormalCompose(p: string, q: string)
    ensures Normal(p + "/" + q) == Normal(Normal(p) + "/" + q)
  {
    SplitConcat(p, q);
    SplitConcat(Normal(p), q);
    FoldConcat([], Split(p), Split(q));
    FoldConcat([], Split(Normal(p)), Split(q));
    FoldClean([], Split(p));
    FoldRender(Fold([], Split(p)));
  }

  lemma {:induction false} JoinLength(stack: seq<string>, k: nat)
    requires k <= |stack|
    ensures |Join(stack[..k])| <= |Join(stack)|
    decreases |stack|
  {
    if k < |stack| {
      assert stack[..|stack| - 1][..k] == stack[..k];
      JoinLength(stack[..|stack| - 1], k);
    } else {
      assert stack[..k] == stack;
    }
  }

  /** Normal forms find room: they only ever push, up to a stack that was reached before. */
  lemma {:induction false} CleanFits(stack: seq<string>, pieces: seq<string>)
    requires Clean(pieces) && |Join(stack + pieces)| < TEMP_SIZE && |stack + pieces| < MAX_SEGS
    ensures Fits(stack, pieces)
    decreases |pieces|
  {
    if pieces != [] {
      var next := stack + [pieces[0]];
      assert next + pieces[1..] == stack + pieces;
      JoinLength(stack + pieces, |next|);
      assert (stack + pieces)[..|next|] == next;
      assert next[..|next| - 1] == stack;
      CleanFits(next, pieces[1..]);
    }
  }

  /** A stack reached within the limits respects them. */
  lemma {:induction false} FitsBounds(stack: seq<string>, pieces: seq<string>)
    requires Fits(stack, pieces) && |Join(stack)| < TEMP_SIZE && |stack| < MAX_SEGS
    ensures |Join(Fold(stack, pieces))| < TEMP_SIZE && |Fold(stack, pieces)| < MAX_SEGS
    decreases |pieces|
  {
    if pieces != [] {
      var next := Push(stack, pieces[0]);
      if pieces[0] == ".." && stack != [] {
        JoinLength(stack, |stack| - 1);
      } else if Keeps(pieces[0]) {
        assert next[..|next| - 1] == stack;
      }
      FitsBounds(next, pieces[1..]);
    }
  }

  lemma RenderFits(stack: seq<string>)
    requires Clean(stack) && |Join(stack)| < TEMP_SIZE && |stack| < MAX_SEGS
    ensures Fits([], Split(Render(stack)))
  {
    if stack == [] {
      assert Split("/") == [""] + Split("") == ["", ""];
      assert Fits([], [""]) && Fits([], ["", ""]);
    } else {
      SplitJoin(stack);
      assert ([""] + stack)[1..] == stack;
      assert [] + stack == stack;
      CleanFits([], stack);
    }
  }

  /** Where p/q finds room, so do p alone and the normal form of p followed by q. */
  lemma NormalComposeFits(p: string, q: string)
    requires Fits([], Split(p + "/" + q))
    ensures Fits([], Split(p)) && Fits([], Split(Normal(p) + "/" + q))
  {
    var stack := Fold([], Split(p));
    SplitConcat(p, q);
    FitsConcat([], Split(p), Split(q));
    FitsBounds([], Split(p));
    FoldClean([], Split(p));
    RenderFits(stack);
    SplitConcat(Normal(p), q);
    FitsConcat([], Split(Normal(p)), Split(q));
    FoldRender(stack);
  }

  // ----- Characters -----

  predicate Without(pieces: seq<string>, c: char) { forall k :: 0 <= k < |pieces| ==> c !in pieces[k] }

  lemma {:induction false} SplitWithout(s: string, c: char)
    requires c !in s
    ensures Without(Split(s), c)
  {
    if s != "" {
      SplitWithout(s[1..], c);
    }
  }

  lemma {:induction false} FoldWithout(stack: seq<string>, pieces: seq<string>, c: char)
    requires Without(stack, c) && Without(pieces, c)
    ensures Without(Fold(stack, pieces), c)
    decreases |pieces|
  {
    if pieces != [] {
      FoldWithout(Push(stack, pieces[0]), pieces[1..], c);
    }
  }

  lemma {:induction false} JoinWithout(stack: seq<string>, c: char)
    requires Without(stack, c) && c != '/'
    ensures c !in Join(stack)
    decreases |stack|
  {
    if stack != [] {
      JoinWithout(stack[..|stack| - 1], c);
    }
  }

  /** Normalising adds no characters but slashes. */
  lemma NormalAddsNothing(s: string, c: char)
    requires c !in s && c != '/'
    ensures c !in Normal(s)
  {
    SplitWithout(s, c);
    FoldWithout([], Split(s), c);
    JoinWithout(Fold([], Split(s)), c);
  }

  // ----- Rooted paths shorter than the buffer -----

  predicate Rooted(s: string) { s != "" && s[0] == '/' }

  /** Some stretch of the path stacks up 128 segments. */
  ghost predicate TooDeep(s: string) {
    exists k :: 0 <= k <= |Split(s)| && |Fold([], Split(s)[..k])| >= MAX_SEGS
  }

  /** Bytes of the pieces, a slash in front of each. */
  function Weight(pieces: seq<string>): nat {
    if pieces == [] then 0 else 1 + |pieces[0]| + Weight(pieces[1..])
  }

  lemma {:induction false} SplitWeight(s: string)
    ensures Weight(Split(s)) == |s| + 1
  {
    if s != "" {
      SplitWeight(s[1..]);
    }
  }

  /** The stack never outgrows the input: what is joined was read. */
  lemma PushLength(stack: seq<string>, piece: string)
    ensures |Join(Push(stack, piece))| <= |Join(stack)| + 1 + |piece|
    ensures Keeps(piece) ==> Push(stack, piece) == stack + [piece]
    ensures Keeps(piece) ==> |Join(stack + [piece])| == |Join(stack)| + 1 + |piece|
  {
    if Keeps(piece) {
      assert (stack + [piece])[..|stack|] == stack;
    } else if piece == ".." && stack != [] {
      JoinLength(stack, |stack| - 1);
    }
  }

  /** With enough room for the bytes, only the depth can fail. */
  lemma {:induction false} FitsIsDepth(stack: seq<string>, pieces: seq<string>)
    requires |Join(stack)| + Weight(pieces) < TEMP_SIZE && |stack| < MAX_SEGS
    ensures Fits(stack, pieces) <==> forall k :: 0 <= k <= |pieces| ==> |Fold(stack, pieces[..k])| < MAX_SEGS
    decreases |pieces|
  {
    if pieces != [] {
      var next := Push(stack, pieces[0]);
      PushLength(stack, pieces[0]);
      forall k | 0 < k <= |pieces| ensures Fold(stack, pieces[..k]) == Fold(next, pieces[1..][..k - 1]) {
        assert pieces[..k][1..] == pieces[1..][..k - 1];
      }
      if |next| < MAX_SEGS {
        FitsIsDepth(next, pieces[1..]);
        if Fits(next, pieces[1..]) {
          forall k | 0 <= k <= |pieces| ensures |Fold(stack, pieces[..k])| < MAX_SEGS {
            if k > 0 {
              assert |Fold(next, pieces[1..][..k - 1])| < MAX_SEGS;
            }
          }
        } else {
          var k :| 0 <= k <= |pieces[1..]| && |Fold(next, pieces[1..][..k])| >= MAX_SEGS;
          assert Fold(stack, pieces[..k + 1]) == Fold(next, pieces[1..][..k]);
        }
      } else {
        assert pieces[1..][..0] == [];
        assert Fold(stack, pieces[..1]) == next;
      }
    }
  }

  lemma SplitRooted(s: string)
    requires Rooted(s)
    ensures Split(s) == [""] + Split(s[1..])
    ensures Fits([], Split(s)) <==> Fits([], Split(s[1..]))
  {
    assert ([""] + Split(s[1..]))[1..] == Split(s[1..]);
  }

  lemma SkipEmpty(rest: seq<string>, k: nat)
    requires 0 < k <= |rest| + 1
    ensures Fold([], ([""] + rest)[..k]) == Fold([], rest[..k - 1])
  {
    assert ([""] + rest)[..k] == [""] + rest[..k - 1];
    assert ([""] + rest[..k - 1])[1..] == rest[..k - 1];
  }

  /** A rooted path shorter than the buffer finds room unless it stacks up 128 segments: the byte limits never
      fire. */
  lemma RootedFitsExactly(s: string)
    requires Rooted(s) && |s| < TEMP_SIZE
    ensures Fits([], Split(s)) <==> !TooDeep(s)
  {
    var rest := Split(s[1..]);
    SplitWeight(s[1..]);
    FitsIsDepth([], rest);
    SplitRooted(s);
    hide Split;
    forall k | 0 < k <= |rest| + 1 ensures Fold([], Split(s)[..k]) == Fold([], rest[..k - 1]) {
      SkipEmpty(rest, k);
    }
    if TooDeep(s) {
      var k :| 0 <= k <= |rest| + 1 && |Fold([], Split(s)[..k])| >= MAX_SEGS;
      assert k > 0;
      assert |Fold([], rest[..k - 1])| >= MAX_SEGS;
    }
    if !Fits([], rest) {
      var k :| 0 <= k <= |rest| && |Fold([], rest[..k])| >= MAX_SEGS;
      assert |Fold([], Split(s)[..k + 1])| >= MAX_SEGS;
    }
  }

  lemma {:induction false} FoldLength(stack: seq<string>, pieces: seq<string>)
    ensures |Join(Fold(stack, pieces))| <= |Join(stack)| + Weight(pieces)
    decreases |pieces|
  {
    if pieces != [] {
      PushLength(stack, pieces[0]);
      FoldLength(Push(stack, pieces[0]), pieces[1..]);
    }
  }

  lemma {:induction false} RenderRooted(stack: seq<string>)
    ensures Rooted(Render(stack))
    decreases |stack|
  {
    if |stack| > 1 {
      RenderRooted(stack[..|stack| - 1]);
      assert Join(stack)[0] == Join(stack[..|stack| - 1])[0];
    } else if |stack| == 1 {
      assert Join(stack) == "" + "/" + stack[0];
    }
  }

  /** Normalisation never lengthens a rooted path. */
  lemma NormalNotLonger(s: string)
    requires Rooted(s)
    ensures |Normal(s)| <= |s| && Rooted(Normal(s))
  {
    var rest := Split(s[1..]);
    SplitWeight(s[1..]);
    assert Split(s)[1..] == rest;
    FoldLength([], rest);
    RenderRooted(Fold([], Split(s)));
  }
}
