/** Percent-encoding of user input and its place behind the question mark. */
module Query {
  import opened Common
  import opened Url

  type Bytes = s: string | forall k :: 0 <= k < |s| ==> s[k] as int < 256

  predicate IsUnreserved(c: char) {
    'A' <= c <= 'Z' || 'a' <= c <= 'z' || '0' <= c <= '9' || c == '-' || c == '.' || c == '_' || c == '~'
  }

  function Hex(n: nat): char
    requires n < 16
  {
    if n < 10 then '0' + n as char else 'A' + (n - 10) as char
  }

  function Escape(c: char): string
    requires c as int < 256
  {
    ['%', Hex(c as int / 16), Hex(c as int % 16)]
  }

  function EncodeChar(c: char): string
    requires c as int < 256
  {
    if IsUnreserved(c) then [c] else Escape(c)
  }

  function Encode(s: Bytes): string {
    if s == "" then "" else EncodeChar(s[0]) + Encode(s[1..])
  }

  predicate IsHex(c: char) { '0' <= c <= '9' || 'A' <= c <= 'F' || 'a' <= c <= 'f' }

  function HexValue(c: char): (n: nat)
    requires IsHex(c)
    ensures n < 16
  {
    if c <= '9' then (c - '0') as nat else if c <= 'F' then (c - 'A') as nat + 10 else (c - 'a') as nat + 10
  }

  /** The decoder of section 2.1 of RFC 3986; a percent sign without two hexadecimal digits stands for itself. */
  function Decode(s: string): string
    decreases |s|
  {
    if s == "" then ""
    else if s[0] == '%' && |s| >= 3 && IsHex(s[1]) && IsHex(s[2]) then
      [(16 * HexValue(s[1]) + HexValue(s[2])) as char] + Decode(s[3..])
    else [s[0]] + Decode(s[1..])
  }

  lemma HexBack(n: nat)
    requires n < 16
    ensures IsHex(Hex(n)) && HexValue(Hex(n)) == n
  {
  }

  lemma DecodeChar(c: char, rest: string)
    requires c as int < 256
    ensures Decode(EncodeChar(c) + rest) == [c] + Decode(rest)
  {
    if IsUnreserved(c) {
      assert ([c] + rest)[1..] == rest;
    } else {
      var s := Escape(c) + rest;
      assert s[0] == '%' && s[1] == Hex(c as int / 16) && s[2] == Hex(c as int % 16) && s[3..] == rest;
      HexBack(c as int / 16);
      HexBack(c as int % 16);
    }
  }

  /** Decoding gives every byte string back. */
  lemma {:induction false} DecodeEncode(s: Bytes)
    ensures Decode(Encode(s)) == s
    decreases |s|
  {
    if s != "" {
      DecodeChar(s[0], Encode(s[1..]));
      DecodeEncode(s[1..]);
    }
  }

  /** The encoded text holds nothing that could end the query or the request line. */
  lemma {:induction false} EncodeIsTame(s: Bytes)
    ensures forall c :: c in Encode(s) ==> IsUnreserved(c) || c == '%'
    decreases |s|
  {
    if s != "" {
      EncodeIsTame(s[1..]);
    }
  }

  const HEX_DIGITS := "0123456789ABCDEF"

  lemma HexDigit(n: nat)
    requires n < 16
    ensures Hex(n) == HEX_DIGITS[n]
  {
  }

  /** Letters, digits, hyphen, period, underscore and tilde stand for themselves; any other character for a percent sign
      and two upper-case hexadecimal digits. */
  lemma EncodedChar(c: char)
    requires c as int < 256
    ensures EncodeChar(c) ==
      if ('A' <= c <= 'Z') || ('a' <= c <= 'z') || ('0' <= c <= '9') || c in "-._~" then [c]
      else "%" + [HEX_DIGITS[c as int / 16]] + [HEX_DIGITS[c as int % 16]]
  {
    HexDigit(c as int / 16);
    HexDigit(c as int % 16);
    hide Hex;
  }

  lemma {:induction false} EncodeSplit(a: Bytes, b: Bytes)
    ensures Encode(a + b) == Encode(a) + Encode(b)
    decreases |a|
  {
    if a == "" {
      assert a + b == b;
    } else {
      assert (a + b)[1..] == a[1..] + b;
      EncodeSplit(a[1..], b);
    }
  }

  lemma EncodeNothing()
    ensures Encode("") == ""
  {
  }

  lemma EncodeSnoc(s: Bytes, c: char)
    requires c as int < 256
    ensures Encode(s + [c]) == Encode(s) + EncodeChar(c)
  {
    hide EncodeChar;
    var one: Bytes := [c];
    EncodeSplit(s, one);
    assert one[1..] == "";
    assert EncodeChar(c) + "" == EncodeChar(c);
  }

  lemma EncodeGrows(s: Bytes, i: nat)
    requires i <= |s|
    ensures |Encode(s)| >= |Encode(s[..i])|
  {
    hide Encode;
    var front: Bytes, back: Bytes := s[..i], s[i..];
    assert s == front + back;
    EncodeSplit(front, back);
  }

  lemma EncodeNext(s: Bytes, i: nat)
    requires i < |s|
    ensures Encode(s[..i + 1]) == Encode(s[..i]) + EncodeChar(s[i])
    ensures |Encode(s)| >= |Encode(s[..i + 1])|
  {
    hide Encode, EncodeChar;
    assert s[..i + 1] == s[..i] + [s[i]];
    EncodeSnoc(s[..i], s[i]);
    EncodeGrows(s, i + 1);
  }

  /** Encodes into a buffer; it succeeds exactly if the encoding and its terminator fit. */
  method EncodeQuery(input: Bytes, out: array<char>) returns (ok: bool)
    requires '\0' !in input
    modifies out
    ensures ok <==> |Encode(input)| < out.Length
    ensures ok ==> out[..|Encode(input)|] == Encode(input) && out[|Encode(input)|] == '\0'
  {
    hide IsUnreserved, Hex, Encode;
    EncodeNothing();
    if out.Length == 0 {
      return false;
    }
    var n, i := 0, 0;
    assert input[..0] == "";
    while i < |input|
      invariant 0 <= i <= |input| && n == |Encode(input[..i])| < out.Length
      invariant out[..n] == Encode(input[..i])
    {
      var c := input[i];
      EncodeNext(input, i);
      if IsUnreserved(c) {
        if n + 1 >= out.Length {
          return false;
        }
        out[n] := c;
        n := n + 1;
      } else {
        if n + 3 >= out.Length {
          return false;
        }
        out[n] := '%';
        out[n + 1] := Hex(c as int / 16);
        out[n + 2] := Hex(c as int % 16);
        n := n + 3;
      }
      i := i + 1;
    }
    assert input[..i] == input;
    out[n] := '\0';
    return true;
  }

  // ----- Putting a query on a URL -----

  const BUFFER := 512

  /** The URL with its query replaced, unless encoding or path get too long. */
  function ApplyQuery(base: Url, query: Bytes): Option<Url> {
    var encoded := Encode(query);
    var path := base.path[..IndexOf(base.path, '?')];
    if |encoded| >= BUFFER || |path| + 1 + |encoded| >= BUFFER then None
    else Some(base.(path := path + "?" + encoded))
  }

  lemma EncodedHasNoNul(s: Bytes)
    ensures forall k :: 0 <= k < |Encode(s)| ==> Encode(s)[k] != '\0'
  {
    EncodeIsTame(s);
    forall k | 0 <= k < |Encode(s)| ensures Encode(s)[k] != '\0' {
      assert Encode(s)[k] in Encode(s);
    }
  }

  method Apply(base: Url, query: Bytes) returns (r: Option<Url>)
    requires '\0' !in query
    ensures r == ApplyQuery(base, query)
  {
    hide Encode;
    var buf := new char[BUFFER];
    var ok := EncodeQuery(query, buf);
    if !ok {
      return None;
    }
    var n := 0;
    EncodedHasNoNul(query);
    while buf[n] != '\0'
      invariant 0 <= n <= |Encode(query)|
      decreases |Encode(query)| - n
    {
      n := n + 1;
    }
    assert buf[..n] == Encode(query);
    var end := FindChar(base.path, '?', |base.path|);
    assert base.path[..|base.path|] == base.path;
    if end + 1 + n >= BUFFER {
      return None;
    }
    return Some(base.(path := base.path[..end] + "?" + buf[..n]));
  }

  /** What stands in front of the first question mark stays, and the encoded query follows one. */
  lemma QueryBehindPath(base: Url, front: string, query: Bytes)
    requires '?' !in front && (base.path == front || front + "?" <= base.path)
    ensures ApplyQuery(base, query) ==
      if |front| + 1 + |Encode(query)| < 512 then Some(Url(base.host, base.port, front + "?" + Encode(query)))
      else None
  {
    hide Encode;
    var rest := base.path[|front|..];
    assert base.path == front + rest;
    IndexInConcat(front, rest, '?');
  }

  /** A second query replaces the first: applying both equals applying the last alone. */
  lemma LastQueryWins(base: Url, first: Bytes, second: Bytes)
    requires ApplyQuery(base, first).Some?
    ensures ApplyQuery(ApplyQuery(base, first).value, second) == ApplyQuery(base, second)
  {
    hide Encode;
    var path := base.path[..IndexOf(base.path, '?')];
    var once := ApplyQuery(base, first).value.path;
    assert once == path + ("?" + Encode(first));
    IndexInConcat(path, "?" + Encode(first), '?');
    assert once[..|path|] == path;
  }

  /** The query can be read back from the URL. */
  lemma QueryReadsBack(base: Url, query: Bytes)
    requires ApplyQuery(base, query).Some?
    ensures var path := ApplyQuery(base, query).value.path;
      IndexOf(path, '?') < |path| && Decode(path[IndexOf(path, '?') + 1..]) == query
  {
    hide Encode, Decode;
    var front := base.path[..IndexOf(base.path, '?')];
    var path := ApplyQuery(base, query).value.path;
    assert path == front + ("?" + Encode(query));
    IndexInConcat(front, "?" + Encode(query), '?');
    assert path[|front| + 1..] == Encode(query);
    DecodeEncode(query);
  }
}
