/** The header line of a Gemini response. */
module Reply {
  import opened Common
  import opened Url
  import opened Gemtext

  // ----- Reading the line -----

  predicate EndsLine(s: string) { |s| >= 2 && s[|s| - 2] == '\r' && s[|s| - 1] == '\n' }

  /** Length of the header: up to the first line end after `n` characters, within a buffer of 1024. */
  function HeaderEnd(reply: string, n: nat): (end: Option<nat>)
    requires n <= |reply|
    ensures end.Some? ==> end.value <= |reply|
    decreases |reply| - n
  {
    if n + 1 >= 1024 || n == |reply| then None
    else if EndsLine(reply[..n + 1]) then Some(n + 1)
    else HeaderEnd(reply, n + 1)
  }

  /** The header is the shortest start of the reply that ends a line, if it has at most 1023 characters. */
  lemma {:induction false} HeaderEndIs(reply: string, n: nat)
    requires n <= |reply|
    ensures var h := HeaderEnd(reply, n);
      if h.Some? then
        n < h.value <= |reply| && h.value <= 1023 && EndsLine(reply[..h.value])
        && forall m :: n < m < h.value ==> !EndsLine(reply[..m])
      else forall m :: n < m <= |reply| && m <= 1023 ==> !EndsLine(reply[..m])
    decreases |reply| - n
  {
    if n + 1 < 1024 && n < |reply| && !EndsLine(reply[..n + 1]) {
      HeaderEndIs(reply, n + 1);
    }
  }

  /** The header ends behind the first carriage return with a line feed, within 1023 characters. */
  lemma HeaderEndAt(head: string, rest: string)
    requires forall k :: 0 <= k < |head| ==> !((head + "\r\n")[k] == '\r' && (head + "\r\n")[k + 1] == '\n')
    ensures HeaderEnd(head + "\r\n" + rest, 0) == if |head| + 2 <= 1023 then Some(|head| + 2) else None
  {
    hide HeaderEnd;
    var reply, line := head + "\r\n" + rest, head + "\r\n";
    HeaderEndIs(reply, 0);
    assert reply[..|line|] == line && EndsLine(line);
    forall m | 0 <= m < |line| ensures !EndsLine(reply[..m]) {
      assert reply[..m] == line[..m];
      if m >= 2 {
        assert line[..m][m - 2] == line[m - 2] && line[..m][m - 1] == line[m - 1];
      }
    }
    var end := HeaderEnd(reply, 0);
    if end.Some? {
      assert EndsLine(reply[..end.value]);
    }
  }

  /** Reads character by character; without a line end in time, or at the end of the data, it fails. */
  method ReadHeaderLine(reply: string) returns (length: Option<nat>)
    ensures length == HeaderEnd(reply, 0)
  {
    var n, prev := 0, '\0';
    while n + 1 < 1024
      invariant 0 <= n <= |reply| && n < 1024 && HeaderEnd(reply, n) == HeaderEnd(reply, 0)
      invariant prev == if n == 0 then '\0' else reply[n - 1]
    {
      if n == |reply| {
        return None;
      }
      var c := reply[n];
      n := n + 1;
      if prev == '\r' && c == '\n' {
        return Some(n);
      }
      prev := c;
    }
    return None;
  }

  // ----- Parsing the line -----

  /** Up to the end of the string or of the line. */
  function UpToEnd(s: string): string {
    if s == "" || s[0] == '\0' || (s[0] == '\r' && |s| > 1 && s[1] == '\n') then "" else [s[0]] + UpToEnd(s[1..])
  }

  datatype Header = Header(status: nat, meta: string)

  function ParseHeader(line: string): Option<Header> {
    var t := TrimLeft(line);
    if |t| < 2 || !IsDigit(t[0]) || !IsDigit(t[1]) then None
    else
      var meta := UpToEnd(TrimLeft(t[2..]));
      if |meta| >= 1024 then None else Some(Header(10 * Digit(t[0]) + Digit(t[1]), meta))
  }

  method ReadMeta(line: string, from: nat) returns (meta: Option<string>)
    requires from <= |line|
    ensures var m := UpToEnd(line[from..]); meta == if |m| >= 1024 then None else Some(m)
  {
    var i, m := from, "";
    while i < |line| && line[i] != '\0' && !(line[i] == '\r' && i + 1 < |line| && line[i + 1] == '\n')
      invariant from <= i <= |line| && m + UpToEnd(line[i..]) == UpToEnd(line[from..]) && |m| < 1024
    {
      assert line[i..][1..] == line[i + 1..];
      if |m| + 1 >= 1024 {
        assert |UpToEnd(line[from..])| >= 1024;
        return None;
      }
      m := m + [line[i]];
      i := i + 1;
    }
    assert UpToEnd(line[i..]) == "" && m + "" == m;
    return Some(m);
  }

  method ParseHeaderLine(line: string) returns (r: Option<Header>)
    ensures r == ParseHeader(line)
  {
    hide TrimLeft, IsDigit, Digit, UpToEnd;
    assert line[0..] == line;
    var i := SkipBlanks(line, 0);
    ghost var t := line[i..];
    if i >= |line| || !IsDigit(line[i]) {
      return None;
    }
    var tens := Digit(line[i]);
    i := i + 1;
    if i >= |line| || !IsDigit(line[i]) {
      return None;
    }
    var units := Digit(line[i]);
    i := i + 1;
    assert t[2..] == line[i..];
    i := SkipBlanks(line, i);
    var meta := ReadMeta(line, i);
    if meta == None {
      return None;
    }
    return Some(Header(10 * tens + units, meta.value));
  }

  // ----- What a server writes is read -----

  function HeaderLine(h: Header): string
    requires h.status < 100
  {
    [('0' as int + h.status / 10) as char, ('0' as int + h.status % 10) as char] + " " + h.meta + "\r\n"
  }

  /** A header that fits on a line. */
  predicate Sendable(h: Header) {
    && h.status < 100 && |h.meta| <= 1018
    && '\0' !in h.meta && '\r' !in h.meta && (h.meta != "" ==> !IsBlank(h.meta[0]))
  }

  /** A meta, and what it ends with: nothing, a NUL or the line end, of which it has none itself. */
  predicate MetaEnds(meta: string, ends: string) {
    && '\0' !in meta && (ends == "" || ends[0] == '\0' || "\r\n" <= ends)
    && forall k :: 0 <= k < |meta| ==> !("\r\n" <= (meta + ends)[k..])
  }

  lemma {:induction false} UpToEndIs(meta: string, ends: string)
    requires MetaEnds(meta, ends)
    ensures UpToEnd(meta + ends) == meta
  {
    var s := meta + ends;
    if meta == "" {
      assert s == ends;
    } else {
      assert s[1..] == meta[1..] + ends;
      forall k | 0 <= k < |meta[1..]| ensures !("\r\n" <= (meta[1..] + ends)[k..]) {
        assert (meta[1..] + ends)[k..] == s[k + 1..];
      }
      UpToEndIs(meta[1..], ends);
      assert !("\r\n" <= s[0..]) && s[0..] == s;
    }
  }

  lemma MetaOfOneLine(meta: string)
    requires '\0' !in meta && '\r' !in meta
    ensures MetaEnds(meta, "\r\n")
  {
    forall k | 0 <= k < |meta| ensures !("\r\n" <= (meta + "\r\n")[k..]) {
      assert (meta + "\r\n")[k..][0] == meta[k];
    }
  }

  lemma FirstOfMeta(h: Header)
    requires Sendable(h)
    ensures var s := h.meta + "\r\n"; s != "" && !IsBlank(s[0])
  {
  }

  lemma HeaderParses(h: Header)
    requires Sendable(h)
    ensures ParseHeader(HeaderLine(h)) == Some(h)
  {
    hide UpToEnd, MetaEnds;
    var line := HeaderLine(h);
    assert IsDigit(line[0]) && IsDigit(line[1]) && 10 * Digit(line[0]) + Digit(line[1]) == h.status;
    assert TrimLeft(line) == line;
    assert line[2..] == " " + (h.meta + "\r\n");
    FirstOfMeta(h);
    TrimLeftIs(" ", h.meta + "\r\n");
    MetaOfOneLine(h.meta);
    UpToEndIs(h.meta, "\r\n");
  }

  /** Blanks, two digits, blanks and the meta up to a line end, a NUL or the end of the text: a header line. */
  lemma HeaderShape(before: string, tens: nat, units: nat, between: string, meta: string, ends: string)
    requires AllBlank(before) && tens < 10 && units < 10 && AllBlank(between)
    requires MetaEnds(meta, ends) && (meta != "" ==> !IsBlank(meta[0]))
    ensures ParseHeader(before + (Decimal(tens) + Decimal(units) + (between + (meta + ends))))
         == if |meta| < 1024 then Some(Header(10 * tens + units, meta)) else None
  {
    hide UpToEnd, TrimLeft, AllBlank;
    var rest := meta + ends;
    var s := Decimal(tens) + Decimal(units) + (between + rest);
    assert s[0] == Decimal(tens)[0] && s[1] == Decimal(units)[0] && s[2..] == between + rest;
    assert !IsBlank(s[0]);
    TrimLeftIs(before, s);
    assert rest != "" ==> !IsBlank(rest[0]);
    TrimLeftIs(between, rest);
    UpToEndIs(meta, ends);
  }

  /** Without two digits behind the blanks there is no header. */
  lemma HeaderRefused(before: string, s: string)
    requires AllBlank(before) && (s != "" ==> !IsBlank(s[0]))
    requires |s| < 2 || !('0' <= s[0] <= '9') || !('0' <= s[1] <= '9')
    ensures ParseHeader(before + s) == None
  {
    hide TrimLeft, AllBlank, UpToEnd;
    TrimLeftIs(before, s);
  }

  lemma NoReturn(h: Header, k: nat)
    requires Sendable(h) && k < |HeaderLine(h)| - 2
    ensures HeaderLine(h)[k] != '\r'
  {
    if k >= 3 {
      assert HeaderLine(h)[k] == h.meta[k - 3];
    }
  }

  lemma NoEarlierEnd(h: Header, body: string, m: nat)
    requires Sendable(h) && m < |HeaderLine(h)|
    ensures !EndsLine((HeaderLine(h) + body)[..m])
  {
    var line := HeaderLine(h);
    if m >= 2 {
      NoReturn(h, m - 2);
      assert (line + body)[..m][m - 2] == line[m - 2];
    }
  }

  /** A header written by a server is read and parsed back, whatever follows it. */
  lemma ReplyReads(h: Header, body: string)
    requires Sendable(h)
    ensures var reply := HeaderLine(h) + body;
      && HeaderEnd(reply, 0) == Some(|HeaderLine(h)|)
      && ParseHeader(reply[..|HeaderLine(h)|]) == Some(h)
      && reply[|HeaderLine(h)|..] == body
  {
    hide ParseHeader, HeaderEnd;
    var line := HeaderLine(h);
    var reply := line + body;
    assert reply[..|line|] == line;
    HeaderParses(h);
    HeaderEndIs(reply, 0);
    assert EndsLine(reply[..|line|]);
    assert |line| <= 1023;
    var end := HeaderEnd(reply, 0);
    if end.Some? && end.value < |line| {
      NoEarlierEnd(h, body, end.value);
    }
  }
}
