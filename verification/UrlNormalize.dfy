/** Path normalisation in place, on a NUL-terminated buffer. */
module UrlNormalize {
  import opened Common
  import opened UrlPath

  predicate Terminated(a: seq<char>) { |CStr(a)| < |a| }

  lemma {:induction false} CStrIs(a: seq<char>, s: string)
    requires |s| < |a| && a[..|s|] == s && a[|s|] == '\0' && '\0' !in s
    ensures CStr(a) == s && Terminated(a)
    decreases |s|
  {
    if s != "" {
      assert a[0] == s[0];
      assert a[1..][..|s| - 1] == s[1..];
      CStrIs(a[1..], s[1..]);
    }
  }

  predicate Succeeds(s: string, maxLen: nat) {
    maxLen > 0 && Fits([], Split(s)) && |Normal(s)| + 1 <= maxLen
  }

  // ----- One segment of the rest at a time -----

  /** Between segments: the same outcome from the current stack and the rest as from the start. */
  ghost predicate SameOutcome(s: string, stack: seq<string>, rest: string) {
    && (Fits([], Split(s)) <==> Fits(stack, Split(rest)))
    && (Fits(stack, Split(rest)) ==> Fold([], Split(s)) == Fold(stack, Split(rest)))
  }

  lemma Started(s: string)
    ensures SameOutcome(s, [], s)
  {
  }

  lemma PassSlash(s: string, stack: seq<string>, rest: string)
    requires SameOutcome(s, stack, rest) && rest != "" && rest[0] == '/'
    ensures SameOutcome(s, stack, rest[1..])
  {
    var p := Split(rest[1..]);
    assert Split(rest) == [""] + p;
    assert ([""] + p)[1..] == p;
  }

  lemma OnePiece(stack: seq<string>, seg: string)
    ensures Fits(stack, [seg]) <==> Room(stack, seg)
    ensures Fold(stack, [seg]) == Push(stack, seg)
    ensures Fits(Push(stack, seg), [""]) && Fold(Push(stack, seg), [""]) == Push(stack, seg)
  {
  }

  /** Taking the segment in front of the rest. */
  lemma TakeSegment(s: string, stack: seq<string>, seg: string, rest: string)
    requires SameOutcome(s, stack, seg + rest) && '/' !in seg && (rest != "" ==> rest[0] == '/')
    ensures if Room(stack, seg) then SameOutcome(s, Push(stack, seg), rest) else !Fits([], Split(s))
  {
    SplitWhole(seg);
    if rest == "" {
      assert seg + rest == seg;
      assert Split("") == [""];
      OnePiece(stack, seg);
    } else {
      assert seg + rest == seg + "/" + rest[1..];
      SplitConcat(seg, rest[1..]);
      var p := Split(rest[1..]);
      assert Split(rest) == [""] + p;
      assert ([""] + p)[1..] == p;
      assert ([seg] + p)[1..] == p;
    }
  }

  lemma Finished(s: string, stack: seq<string>)
    requires SameOutcome(s, stack, "")
    ensures Fits([], Split(s)) && Normal(s) == Render(stack)
  {
    OnePiece(stack, "");
  }

  /** The temporary buffer holds the joined stack, and the start of every segment is known. */
  ghost predicate Holds(temp: seq<char>, starts: seq<nat>, stack: seq<string>) {
    && |temp| == TEMP_SIZE && |starts| == MAX_SEGS
    && |stack| < MAX_SEGS && |Join(stack)| < TEMP_SIZE && '\0' !in Join(stack) && (Join(stack) == "" <==> stack == [])
    && temp[..|Join(stack)|] == Join(stack)
    && forall k :: 0 <= k < |stack| ==> starts[k] == |Join(stack[..k])|
  }

  lemma HoldsTop(temp: seq<char>, starts: seq<nat>, stack: seq<string>)
    requires Holds(temp, starts, stack) && stack != []
    ensures starts[|stack| - 1] == |Join(stack[..|stack| - 1])| < TEMP_SIZE
  {
  }

  lemma HoldsPop(temp: seq<char>, starts: seq<nat>, stack: seq<string>, temp': seq<char>)
    requires Holds(temp, starts, stack) && stack != []
    requires var n := |Join(stack[..|stack| - 1])|; |temp'| == |temp| && n < |temp| && temp'[..n] == temp[..n]
    ensures Holds(temp', starts, stack[..|stack| - 1])
    ensures starts[|stack| - 1] == |Join(stack[..|stack| - 1])| < TEMP_SIZE
  {
    var front := stack[..|stack| - 1];
    forall k | 0 <= k < |front| ensures starts[k] == |Join(front[..k])| {
      assert front[..k] == stack[..k];
    }
    assert temp[..|Join(front)|] == Join(stack)[..|Join(front)|];
  }

  lemma HoldsPush(temp: seq<char>, starts: seq<nat>, stack: seq<string>, seg: string, temp': seq<char>)
    requires Holds(temp, starts, stack) && |temp'| == TEMP_SIZE
    requires |stack| + 1 < MAX_SEGS && |Join(stack)| + 1 + |seg| < TEMP_SIZE && '\0' !in seg
    requires temp'[..|Join(stack)| + 1 + |seg|] == temp[..|Join(stack)|] + "/" + seg
    ensures Holds(temp', starts[|stack| := |Join(stack)|], stack + [seg])
    ensures Join(stack + [seg]) == Join(stack) + "/" + seg
  {
    var next := stack + [seg];
    assert next[..|stack|] == stack;
    forall k | 0 <= k < |next| ensures starts[|stack| := |Join(stack)|][k] == |Join(next[..k])| {
      if k < |stack| {
        assert next[..k] == stack[..k];
      }
    }
  }

  // ----- The loops -----

  /** The buffer starts with `s` and its terminator. */
  ghost predicate Reads(a: seq<char>, s: string) {
    |s| < |a| && a[..|s|] == s && a[|s|] == '\0' && '\0' !in s
  }

  method SkipSlashes(path: array<char>, ghost s: string, ghost stack: seq<string>, start: nat, ghost whole: string)
      returns (i: nat)
    requires Reads(path[..], s) && start <= |s| && SameOutcome(whole, stack, s[start..])
    ensures start <= i <= |s| && (i < |s| ==> s[i] != '/') && SameOutcome(whole, stack, s[i..])
  {
    hide SameOutcome;
    i := start;
    while path[i] == '/'
      invariant start <= i <= |s| && SameOutcome(whole, stack, s[i..])
      decreases |s| - i
    {
      PassSlash(whole, stack, s[i..]);
      assert s[i..][1..] == s[i + 1..];
      i := i + 1;
    }
  }

  method ScanSegment(path: array<char>, ghost s: string, start: nat) returns (i: nat)
    requires Reads(path[..], s) && start < |s| && s[start] != '/'
    ensures start < i <= |s| && '/' !in s[start..i] && (i < |s| ==> s[i] == '/')
  {
    i := start;
    while path[i] != '\0' && path[i] != '/'
      invariant start <= i <= |s| && '/' !in s[start..i]
      invariant i == start ==> s[i] != '/'
      decreases |s| - i
    {
      assert s[start..i + 1] == s[start..i] + [s[i]];
      i := i + 1;
    }
  }

  method CopyChars(src: array<char>, from: nat, n: nat, dst: array<char>, at: nat)
    requires src != dst && from + n <= src.Length && at + n <= dst.Length
    modifies dst
    ensures dst[..at] == old(dst[..at]) && dst[at..at + n] == src[from..from + n]
    ensures dst[at + n..] == old(dst[at + n..])
  {
    for k := 0 to n
      invariant forall j :: at <= j < at + k ==> dst[j] == src[from + (j - at)]
      invariant forall j :: 0 <= j < dst.Length && !(at <= j < at + k) ==> dst[j] == old(dst[j])
    {
      dst[at + k] := src[from + k];
    }
  }

  /** Appends a slash and a segment to the temporary buffer. */
  method Append(path: array<char>, start: nat, n: nat, temp: array<char>, out: nat)
    requires path != temp && start + n <= path.Length && out + n + 1 < temp.Length
    modifies temp
    ensures temp[..out + 1 + n] == old(temp[..out]) + "/" + path[start..start + n]
  {
    temp[out] := '/';
    CopyChars(path, start, n, temp, out + 1);
    temp[out + 1 + n] := '\0';
    assert temp[..out + 1] == old(temp[..out]) + "/";
    assert temp[..out + 1 + n] == temp[..out + 1] + temp[out + 1..out + 1 + n];
  }

  /** The three kinds of segment. */
  lemma Kinds(stack: seq<string>, seg: string)
    requires seg != ""
    ensures Push(stack, seg) ==
      if seg == "." then stack
      else if seg == ".." then (if stack == [] then stack else stack[..|stack| - 1])
      else stack + [seg]
    ensures Room(stack, seg) <==>
      seg == "." || seg == ".." || (|Join(stack)| + |seg| + 1 < TEMP_SIZE && |stack| + 1 < MAX_SEGS)
  {
  }

  lemma IsDots(path: seq<char>, start: nat, n: nat, seg: string)
    requires start + n <= |path| && seg == path[start..start + n]
    ensures seg == "." <==> n == 1 && path[start] == '.'
    ensures seg == ".." <==> n == 2 && path[start] == '.' && path[start + 1] == '.'
  {
    assert n > 0 ==> seg[0] == path[start];
    assert n > 1 ==> seg[1] == path[start + 1];
  }

  method AppendSegment(path: array<char>, segStart: nat, segLen: nat, temp: array<char>, segStarts: array<nat>,
                       out: nat, segCount: nat, ghost stack: seq<string>, ghost seg: string) returns (ok: bool)
    requires path != temp && segStart + segLen <= path.Length
    requires seg == path[segStart..segStart + segLen] && '\0' !in seg
    requires Holds(temp[..], segStarts[..], stack) && out == |Join(stack)| && segCount == |stack|
    modifies temp, segStarts
    ensures ok <==> |Join(stack)| + |seg| + 1 < TEMP_SIZE && |stack| + 1 < MAX_SEGS
    ensures ok ==> Holds(temp[..], segStarts[..], stack + [seg]) && |Join(stack + [seg])| == out + 1 + segLen
  {
    hide Join;
    if out + segLen + 1 >= TEMP_SIZE {
      return false;
    }
    ghost var was := temp[..];
    ghost var starts: seq<nat> := segStarts[..];
    Append(path, segStart, segLen, temp, out);
    segStarts[segCount] := out;
    assert segStarts[..] == starts[|stack| := |Join(stack)|];
    if segCount + 1 >= MAX_SEGS {
      return false;
    }
    assert temp[..][..out + 1 + segLen] == was[..out] + "/" + seg;
    HoldsPush(was, starts, stack, seg, temp[..]);
    return true;
  }

  /** What one segment does to the buffer and the segment starts: nothing, take one off, or append;
      it is refused exactly when it finds no room. */
  method HandleSegment(path: array<char>, segStart: nat, segLen: nat, temp: array<char>, segStarts: array<nat>,
                       out: nat, segCount: nat, ghost stack: seq<string>, ghost seg: string)
      returns (ok: bool, out': nat, segCount': nat)
    requires path != temp && 0 < segLen && segStart + segLen <= path.Length
    requires seg == path[segStart..segStart + segLen] && '\0' !in seg
    requires Holds(temp[..], segStarts[..], stack) && out == |Join(stack)| && segCount == |stack|
    modifies temp, segStarts
    ensures ok <==> Room(stack, seg)
    ensures ok ==> var next := Push(stack, seg);
      Holds(temp[..], segStarts[..], next) && out' == |Join(next)| && segCount' == |next|
  {
    hide Join, Push, Room;
    Kinds(stack, seg);
    IsDots(path[..], segStart, segLen, seg);
    out', segCount' := out, segCount;
    if segLen == 1 && path[segStart] == '.' {
      return true, out', segCount';
    }
    if segLen == 2 && path[segStart] == '.' && path[segStart + 1] == '.' {
      if segCount > 0 {
        ghost var was := temp[..];
        HoldsTop(was, segStarts[..], stack);
        out' := segStarts[segCount - 1];
        temp[out'] := '\0';
        HoldsPop(was, segStarts[..], stack, temp[..]);
        segCount' := segCount - 1;
      }
      return true, out', segCount';
    }
    ok := AppendSegment(path, segStart, segLen, temp, segStarts, out, segCount, stack, seg);
    out', segCount' := out + 1 + segLen, segCount + 1;
  }

  lemma HoldsNothing(temp: seq<char>, starts: seq<nat>)
    requires |temp| == 512 && |starts| == 128
    ensures Holds(temp, starts, []) && Join([]) == ""
  {
  }

  lemma HoldsBounds(temp: seq<char>, starts: seq<nat>, stack: seq<string>)
    requires Holds(temp, starts, stack)
    ensures |temp| == TEMP_SIZE == 512 && |Join(stack)| < TEMP_SIZE && temp[..|Join(stack)|] == Join(stack)
    ensures '\0' !in Render(stack)
    ensures |Join(stack)| == 0 <==> stack == []
    ensures Render(stack) == if stack == [] then "/" else Join(stack)
  {
  }

  lemma ReadsItself(a: seq<char>)
    requires Terminated(a)
    ensures Reads(a, CStr(a))
  {
  }

  lemma SliceOfPrefix(a: seq<char>, n: nat, i: nat, j: nat)
    requires i <= j <= n <= |a|
    ensures a[i..j] == a[..n][i..j]
  {
  }

  lemma ReadsChar(a: seq<char>, s: string, i: nat)
    requires Reads(a, s) && i <= |s|
    ensures a[i] == '\0' <==> i == |s|
    ensures forall j :: i <= j <= |s| ==> a[i..j] == s[i..j] && '\0' !in s[i..j]
  {
    forall j | i <= j <= |s| ensures a[i..j] == s[i..j] && '\0' !in s[i..j] {
      SliceOfPrefix(a, |s|, i, j);
    }
  }

  lemma SucceedsMeans(s: string, maxLen: nat)
    ensures Succeeds(s, maxLen) <==> maxLen > 0 && Fits([], Split(s)) && |Normal(s)| + 1 <= maxLen
  {
  }

  /** Normalises the path in the buffer. It fails exactly when a segment finds no room on the way or the result does
      not fit `maxLen`, and then leaves the buffer alone. */
  method NormalizePath(path: array<char>, maxLen: nat) returns (ok: bool)
    requires Terminated(path[..]) && maxLen <= path.Length
    modifies path
    ensures ok <==> Succeeds(CStr(old(path[..])), maxLen)
    ensures ok ==> CStr(path[..]) == Normal(CStr(old(path[..])))
    ensures Terminated(path[..])
    ensures !ok ==> path[..] == old(path[..])
  {
    hide *;
    ghost var s := CStr(path[..]);
    SucceedsMeans(s, maxLen);
    if maxLen == 0 {
      return false;
    }
    ReadsItself(path[..]);
    var temp, segStarts := new char[512], new nat[128] (_ => 0);
    var out, i, segCount := 0, 0, 0;
    ghost var stack: seq<string> := [];
    Started(s);
    HoldsNothing(temp[..], segStarts[..]);
    assert s[0..] == s;
    while true
      invariant 0 <= i <= |s| && Reads(path[..], s) && path[..] == old(path[..])
      invariant SameOutcome(s, stack, s[i..])
      invariant Holds(temp[..], segStarts[..], stack) && out == |Join(stack)| && segCount == |stack|
      decreases |s| - i
    {
      i := SkipSlashes(path, s, stack, i, s);
      ReadsChar(path[..], s, i);
      if path[i] == '\0' {
        break;
      }
      var segStart := i;
      i := ScanSegment(path, s, segStart);
      ghost var seg := s[segStart..i];
      assert s[segStart..] == seg + s[i..];
      assert i < |s| ==> s[i..][0] == '/';
      TakeSegment(s, stack, seg, s[i..]);
      var fits;
      fits, out, segCount := HandleSegment(path, segStart, i - segStart, temp, segStarts, out, segCount, stack, seg);
      if !fits {
        return false;
      }
      stack := Push(stack, seg);
    }
    assert s[i..] == "";
    Finished(s, stack);
    HoldsBounds(temp[..], segStarts[..], stack);
    if out == 0 {
      temp[0] := '/';
      out := 1;
    }
    assert temp[..out] == Render(stack);
    if out + 1 > maxLen {
      return false;
    }
    CopyChars(temp, 0, out, path, 0);
    path[out] := '\0';
    CStrIs(path[..], Render(stack));
    return true;
  }
}
