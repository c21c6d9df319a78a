/** Gemini URLs: parsing, resolving a link against a base, and printing. */
module Url {
  import opened Common
  import opened UrlPath
  import opened UrlNormalize

  datatype Url = Url(host: string, port: nat, path: string)

  const DEFAULT_PORT := 1965
  const HOST_SIZE := 256
  const PATH_SIZE := 512
  const SCHEME := "gemini://"

  // ----- What parsing means -----

  function ToLower(c: char): char {
    if 'A' <= c <= 'Z' then c - 'A' + 'a' else c
  }

  predicate EqualIgnoringCase(a: string, b: string) {
    |a| == |b| && forall k :: 0 <= k < |a| ==> ToLower(a[k]) == ToLower(b[k])
  }

  predicate HasScheme(raw: string): (yes: bool)
    ensures yes ==> |raw| >= 9
  {
    |raw| >= 9 && EqualIgnoringCase(raw[..9], SCHEME)
  }

  predicate Contains(s: string, part: string) {
    part <= s || (s != "" && Contains(s[1..], part))
  }

  /** Index of the first `c`, or the length. */
  function IndexOf(s: string, c: char): (k: nat)
    ensures k <= |s| && c !in s[..k]
    ensures k < |s| ==> s[k] == c
  {
    if s == "" || s[0] == c then 0
    else
      assert s[..1 + IndexOf(s[1..], c)] == [s[0]] + s[1..][..IndexOf(s[1..], c)];
      1 + IndexOf(s[1..], c)
  }

  predicate IsDigit(c: char) { '0' <= c <= '9' }

  predicate AllDigits(s: string) {
    s != "" && forall k :: 0 <= k < |s| ==> IsDigit(s[k])
  }

  function Digit(c: char): nat
    requires IsDigit(c)
  {
    (c - '0') as nat
  }

  function Value(s: string): nat
    requires forall k :: 0 <= k < |s| ==> IsDigit(s[k])
  {
    if s == "" then 0 else 10 * Value(s[..|s| - 1]) + Digit(s[|s| - 1])
  }

  /** Host and port of what stands behind the scheme. The digits of a port run to the end of the string,
      so a port followed by a path is refused. */
  function Authority(p: string): Option<(string, nat)> {
    var end := IndexOf(p, '/');
    var colon := IndexOf(p[..end], ':');
    if end == 0 || colon == 0 || colon >= HOST_SIZE then None
    else if colon == end then Some((p[..end], DEFAULT_PORT))
    else if !AllDigits(p[colon + 1..]) then None
    else
      var port := Value(p[colon + 1..end]);
      if port == 0 || port > 65535 then None else Some((p[..colon], port))
  }

  function PathOf(p: string): string {
    var end := IndexOf(p, '/');
    if end == |p| then "/" else p[end..]
  }

  function NormalPath(path: string): Option<string> {
    if |path| < PATH_SIZE && Succeeds(path, PATH_SIZE) then Some(Normal(path)) else None
  }

  function ParseUrl(raw: string): Option<Url> {
    if !HasScheme(raw) && Contains(raw, "://") then None
    else
      var p := if HasScheme(raw) then raw[9..] else raw;
      match Authority(p)
      case None => None
      case Some((host, port)) =>
        match NormalPath(PathOf(p))
        case None => None
        case Some(path) => Some(Url(host, port, path))
  }

  /** Index behind the last slash, or 0. */
  function BehindLastSlash(s: string): (k: nat)
    ensures k <= |s| && '/' !in s[k..]
    ensures k > 0 ==> s[k - 1] == '/'
  {
    if s == "" then 0
    else if s[|s| - 1] == '/' then |s|
    else
      var k := BehindLastSlash(s[..|s| - 1]);
      assert s[k..] == s[..|s| - 1][k..] + [s[|s| - 1]];
      k
  }

  /** The directory a relative link starts from. */
  function Directory(path: string): string {
    var k := BehindLastSlash(path);
    if k == 0 then "/" else path[..k]
  }

  function ResolveUrl(base: Url, link: string): Option<Url> {
    if link == "" then Some(base)
    else if HasScheme(link) then ParseUrl(link)
    else if Contains(link, "://") then None
    else if link[0] == '?' then
      if |base.path| + |link| >= PATH_SIZE then None else Some(base.(path := base.path + link))
    else
      var dir := if link[0] == '/' then "" else Directory(base.path);
      if |dir| >= PATH_SIZE || |dir + link| >= PATH_SIZE then None
      else
        match NormalPath(dir + link)
        case None => None
        case Some(path) => Some(base.(path := path))
  }

  function Decimal(n: nat): string {
    if n < 10 then [('0' as int + n) as char] else Decimal(n / 10) + [('0' as int + n % 10) as char]
  }

  /** The printed URL, or nothing when the buffer might not hold it. */
  function PrintUrl(u: Url, outMax: nat): string {
    if 9 + |u.host| + |u.path| + 16 >= outMax then ""
    else SCHEME + u.host + (if u.port != DEFAULT_PORT then ":" + Decimal(u.port) else "") + u.path
  }

  // ----- The parser as a program -----

  lemma {:induction false} IndexUnique(s: string, c: char, k: nat)
    requires k <= |s| && c !in s[..k] && (k < |s| ==> s[k] == c)
    ensures k == IndexOf(s, c)
  {
    if k > 0 {
      assert s[0] == s[..k][0];
      assert s[1..][..k - 1] == s[..k][1..];
      IndexUnique(s[1..], c, k - 1);
    }
  }

  method FindChar(s: string, c: char, end: nat) returns (k: nat)
    requires end <= |s|
    ensures k == IndexOf(s[..end], c)
  {
    k := 0;
    while k < end && s[k] != c
      invariant 0 <= k <= end && c !in s[..k]
    {
      k := k + 1;
    }
    IndexUnique(s[..end], c, k);
  }

  method CheckDigits(s: string, start: nat) returns (yes: bool)
    requires start <= |s|
    ensures yes <==> AllDigits(s[start..])
  {
    if start == |s| {
      return false;
    }
    var i := start;
    while i < |s|
      invariant start <= i <= |s| && forall k :: start <= k < i ==> IsDigit(s[k])
    {
      if !IsDigit(s[i]) {
        assert s[start..][i - start] == s[i];
        return false;
      }
      i := i + 1;
    }
    return true;
  }

  lemma {:induction false} ValueGrows(s: string, k: nat)
    requires k <= |s| && forall j :: 0 <= j < |s| ==> IsDigit(s[j])
    ensures Value(s[..k]) <= Value(s)
    decreases |s|
  {
    if k < |s| {
      assert s[..|s| - 1][..k] == s[..k];
      ValueGrows(s[..|s| - 1], k);
    } else {
      assert s[..k] == s;
    }
  }

  lemma ValueOfNothing(s: string)
    requires s == ""
    ensures Value(s) == 0
  {
  }

  lemma ValueNext(s: string, start: nat, i: nat)
    requires start <= i < |s| && forall k :: start <= k < i + 1 ==> IsDigit(s[k])
    ensures Value(s[start..i + 1]) == 10 * Value(s[start..i]) + Digit(s[i])
  {
    hide IsDigit;
    var t := s[start..i + 1];
    assert t[..|t| - 1] == s[start..i] && t[|t| - 1] == s[i];
  }

  lemma ValueStays(s: string, start: nat, i: nat, end: nat)
    requires start <= i <= end <= |s| && forall k :: start <= k < end ==> IsDigit(s[k])
    ensures Value(s[start..i]) <= Value(s[start..end])
  {
    hide Value, IsDigit;
    ValueGrows(s[start..end], i - start);
    assert s[start..end][..i - start] == s[start..i];
  }

  /** Reads a port and gives up as soon as it is out of range: later digits cannot bring it back. */
  method ReadPort(s: string, start: nat, end: nat) returns (value: nat)
    requires start <= end <= |s| && forall k :: start <= k < end ==> IsDigit(s[k])
    ensures value <= 65535 ==> value == Value(s[start..end])
    ensures value > 65535 ==> Value(s[start..end]) > 65535
  {
    hide Value, IsDigit;
    value := 0;
    var i := start;
    assert Value(s[start..start]) == 0 by {
      ValueOfNothing(s[start..start]);
    }
    while i < end
      invariant start <= i <= end && value == Value(s[start..i]) && value <= 65535
    {
      ValueNext(s, start, i);
      value := value * 10 + Digit(s[i]);
      i := i + 1;
      if value > 65535 {
        ValueStays(s, start, i, end);
        return;
      }
    }
  }

  method ReadAuthority(p: string) returns (r: Option<(string, nat)>)
    ensures r == Authority(p)
  {
    hide Value;
    var hostEnd := FindChar(p, '/', |p|);
    assert p[..|p|] == p;
    if hostEnd == 0 {
      return None;
    }
    var colon := FindChar(p, ':', hostEnd);
    if colon == 0 || colon >= HOST_SIZE {
      return None;
    }
    if colon == hostEnd {
      return Some((p[..hostEnd], DEFAULT_PORT));
    }
    var digits := CheckDigits(p, colon + 1);
    if !digits {
      return None;
    }
    assert forall k :: colon + 1 <= k < hostEnd ==> p[k] == p[colon + 1..][k - (colon + 1)];
    var port := ReadPort(p, colon + 1, hostEnd);
    if port == 0 || port > 65535 {
      return None;
    }
    return Some((p[..colon], port));
  }

  method ReadPath(p: string) returns (path: string)
    requires '\0' !in p
    ensures path == PathOf(p) && '\0' !in path
  {
    var end := FindChar(p, '/', |p|);
    assert p[..|p|] == p;
    path := if end == |p| then "/" else p[end..];
  }

  /** Copies a path into its buffer and normalises it there. */
  method NormalizeString(path: string) returns (r: Option<string>)
    requires '\0' !in path
    ensures r == NormalPath(path)
  {
    hide Succeeds, Normal, CStr, Terminated;
    if |path| >= PATH_SIZE {
      return None;
    }
    var buf := new char[PATH_SIZE](k => if 0 <= k < |path| then path[k] else '\0');
    assert buf[..][..|path|] == path;
    CStrIs(buf[..], path);
    var ok := NormalizePath(buf, PATH_SIZE);
    if !ok {
      return None;
    }
    return Some(CStr(buf[..]));
  }

  method Parse(raw: string) returns (r: Option<Url>)
    requires '\0' !in raw
    ensures r == ParseUrl(raw)
  {
    hide Contains, HasScheme, NormalPath, Authority, PathOf;
    var p := raw;
    if HasScheme(raw) {
      p := raw[9..];
    } else if Contains(raw, "://") {
      return None;
    }
    var authority := ReadAuthority(p);
    if authority == None {
      return None;
    }
    var path := ReadPath(p);
    var normal := NormalizeString(path);
    match normal {
      case None => return None;
      case Some(path) => return Some(Url(authority.value.0, authority.value.1, path));
    }
  }

  method FindLastSlash(s: string) returns (k: nat)
    ensures k == BehindLastSlash(s)
  {
    k := |s|;
    assert s[..|s|] == s;
    while k > 0 && s[k - 1] != '/'
      invariant k <= |s| && BehindLastSlash(s[..k]) == BehindLastSlash(s)
    {
      assert s[..k][..k - 1] == s[..k - 1];
      k := k - 1;
    }
  }

  method Resolve(base: Url, link: string) returns (r: Option<Url>)
    requires '\0' !in link && '\0' !in base.path
    ensures r == ResolveUrl(base, link)
  {
    hide ParseUrl, Contains, HasScheme, NormalPath, BehindLastSlash;
    if link == "" {
      return Some(base);
    }
    if HasScheme(link) {
      r := Parse(link);
      return;
    }
    if Contains(link, "://") {
      return None;
    }
    if link[0] == '?' {
      return if |base.path| + |link| >= PATH_SIZE then None else Some(base.(path := base.path + link));
    }
    var dir := "";
    if link[0] != '/' {
      var k := FindLastSlash(base.path);
      dir := if k == 0 then "/" else base.path[..k];
    }
    if |dir| >= PATH_SIZE || |dir| + |link| >= PATH_SIZE {
      return None;
    }
    var path := NormalizeString(dir + link);
    return if path.None? then None else Some(base.(path := path.value));
  }

  method MakeCurrentUrl(u: Url, outMax: nat) returns (out: string)
    ensures out == PrintUrl(u, outMax)
  {
    hide Decimal;
    out := "";
    if 9 + |u.host| + |u.path| + 16 >= outMax {
      return;
    }
    out := SCHEME + u.host;
    if u.port != DEFAULT_PORT {
      out := out + (":" + Decimal(u.port));
    }
    out := out + u.path;
    assert SCHEME + u.host + "" == SCHEME + u.host;
  }

  // ----- What every URL looks like -----

  /** A rooted path that fits its buffer, a host that fits its own, and a port that is missing only
      for the pages kept locally. */
  predicate UrlOk(u: Url) {
    && Rooted(u.path) && |u.path| < PATH_SIZE
    && 0 < |u.host| < HOST_SIZE && '/' !in u.host && ':' !in u.host
    && u.port <= 65535 && (u.port == 0 ==> u.host == "local")
  }

  lemma NormalPathOk(path: string)
    requires Rooted(path) && NormalPath(path).Some?
    ensures Rooted(NormalPath(path).value) && |NormalPath(path).value| < PATH_SIZE
  {
    NormalNotLonger(path);
  }

  lemma PrefixFree(s: string, c: char, k: nat, n: nat)
    requires k <= n <= |s| && c !in s[..n]
    ensures c !in s[..k] && s[..n][..k] == s[..k]
  {
    assert s[..n][..k] == s[..k];
  }

  lemma SlashIsNoDigit(s: string, start: nat, at: nat)
    requires start <= at < |s| && s[at] == '/'
    ensures !AllDigits(s[start..])
  {
    assert s[start..][at - start] == '/';
  }

  lemma AuthorityOk(p: string)
    requires Authority(p).Some?
    ensures var (host, port) := Authority(p).value;
      0 < |host| < HOST_SIZE && '/' !in host && ':' !in host && 0 < port <= 65535
    ensures Authority(p).value.1 == DEFAULT_PORT || IndexOf(p, '/') == |p|
  {
    hide Value, AllDigits;
    var end := IndexOf(p, '/');
    var colon := IndexOf(p[..end], ':');
    PrefixFree(p, '/', colon, end);
    PrefixFree(p, ':', colon, colon) by {
      assert p[..colon] == p[..end][..colon];
    }
    if colon < end < |p| {
      SlashIsNoDigit(p, colon + 1, end);
    }
  }

  lemma PathOfOk(p: string)
    ensures Rooted(PathOf(p))
  {
  }

  lemma ParseOk(raw: string)
    ensures ParseUrl(raw).Some? ==> UrlOk(ParseUrl(raw).value) && ParseUrl(raw).value.port > 0
  {
    hide Authority, NormalPath, PathOf;
    if ParseUrl(raw).Some? {
      var p := if HasScheme(raw) then raw[9..] else raw;
      AuthorityOk(p);
      PathOfOk(p);
      NormalPathOk(PathOf(p));
    }
  }

  lemma DirectoryRooted(path: string)
    requires Rooted(path)
    ensures Rooted(Directory(path))
  {
  }

  /** Resolving any link against a good base gives a good URL again. */
  lemma ResolveOk(base: Url, link: string)
    requires UrlOk(base)
    ensures ResolveUrl(base, link).Some? ==> UrlOk(ResolveUrl(base, link).value)
  {
    hide NormalPath, ParseUrl, Directory;
    if ResolveUrl(base, link).Some? && link != "" && !HasScheme(link) && link[0] != '?' {
      var dir := if link[0] == '/' then "" else Directory(base.path);
      DirectoryRooted(base.path);
      NormalPathOk(dir + link);
    }
    ParseOk(link);
  }

  // ----- What links resolve to -----

  /** The text holds "://" somewhere. */
  ghost predicate Absolute(s: string) { exists k :: 0 <= k <= |s| && "://" <= s[k..] }

  lemma {:induction false} ContainsIsAbsolute(s: string)
    ensures Contains(s, "://") <==> Absolute(s)
  {
    assert s[0..] == s;
    if s != "" {
      ContainsIsAbsolute(s[1..]);
      if Absolute(s[1..]) {
        var k :| 0 <= k <= |s[1..]| && "://" <= s[1..][k..];
        assert s[k + 1..] == s[1..][k..];
      }
      if Absolute(s) && !("://" <= s) {
        var k :| 0 <= k <= |s| && "://" <= s[k..];
        assert s[1..][k - 1..] == s[k..];
      }
    }
  }

  lemma SchemeIsAbsolute(s: string)
    ensures HasScheme(s) ==> Absolute(s)
  {
    if HasScheme(s) {
      forall k | 6 <= k < 9 ensures s[k] == SCHEME[k] {
        assert ToLower(s[..9][k]) == ToLower(SCHEME[k]);
      }
      assert "://" <= s[6..];
    }
  }

  lemma NormalPathExactly(path: string)
    requires Rooted(path)
    ensures NormalPath(path) == if |path| < 512 && !TooDeep(path) then Some(Normal(path)) else None
  {
    hide TooDeep, Normal, Fits;
    if |path| < 512 {
      RootedFitsExactly(path);
      NormalNotLonger(path);
    }
  }

  lemma BehindSlash(d: string, f: string)
    requires '/' !in f
    ensures Directory(d + "/" + f) == d + "/"
  {
    var path := d + "/" + f;
    var k := BehindLastSlash(path);
    hide BehindLastSlash;
    assert path[|d|] == '/';
    forall i | k <= i < |path| ensures path[i] != '/' {
      assert path[i] == path[k..][i - k];
    }
    forall i | |d| < i < |path| ensures path[i] != '/' {
      assert path[i] == f[i - |d| - 1];
    }
  }

  lemma SchemeItself(rest: string)
    ensures HasScheme(SCHEME + rest) && (SCHEME + rest)[9..] == rest
  {
    assert |SCHEME| == 9;
    assert (SCHEME + rest)[..9] == SCHEME;
  }

  /** Without a scheme a text is parsed as if it had one, unless it names another. */
  lemma NoScheme(raw: string)
    requires !(|raw| >= 9 && EqualIgnoringCase(raw[..9], "gemini://"))
    ensures ParseUrl(raw) == if Absolute(raw) then None else ParseUrl("gemini://" + raw)
  {
    hide Authority, NormalPath, PathOf, Contains, Absolute, EqualIgnoringCase;
    ContainsIsAbsolute(raw);
    SchemeItself(raw);
  }

  /** A link relative to a page in the directory `d` names a path in that directory. */
  lemma RelativeLink(base: Url, d: string, f: string, link: string)
    requires Rooted(base.path) && base.path == d + "/" + f && '/' !in f
    requires link != "" && link[0] != '/' && link[0] != '?' && !Absolute(link)
    ensures var path := d + "/" + link;
      ResolveUrl(base, link) ==
        if |path| < 512 && !TooDeep(path) then Some(Url(base.host, base.port, Normal(path))) else None
  {
    hide NormalPath, ParseUrl, HasScheme, Contains, Directory, Absolute, TooDeep, Normal;
    ContainsIsAbsolute(link);
    SchemeIsAbsolute(link);
    BehindSlash(d, f);
    var path := d + "/" + link;
    assert Rooted(path) by {
      assert path[0] == base.path[0];
    }
    NormalPathExactly(path);
  }

  /** On a page without any slash in its path, that is the root. */
  lemma LinkFromNowhere(base: Url, link: string)
    requires '/' !in base.path && link != "" && link[0] != '/' && link[0] != '?' && !Absolute(link)
    ensures var path := "/" + link;
      ResolveUrl(base, link) ==
        if |path| < 512 && !TooDeep(path) then Some(Url(base.host, base.port, Normal(path))) else None
  {
    hide NormalPath, ParseUrl, HasScheme, Contains, Absolute, TooDeep, Normal;
    ContainsIsAbsolute(link);
    SchemeIsAbsolute(link);
    NormalPathExactly("/" + link);
  }

  /** A link with a leading slash names a path whatever page it is on. */
  lemma RootedLink(base: Url, link: string)
    requires link != "" && link[0] == '/' && !Absolute(link)
    ensures ResolveUrl(base, link) ==
      if |link| < 512 && !TooDeep(link) then Some(Url(base.host, base.port, Normal(link))) else None
  {
    hide NormalPath, ParseUrl, HasScheme, Contains, Directory, Absolute, TooDeep, Normal;
    ContainsIsAbsolute(link);
    SchemeIsAbsolute(link);
    assert "" + link == link;
    NormalPathExactly(link);
  }

  /** A question mark and what follows it are appended as they are. */
  lemma QueryLink(base: Url, link: string)
    requires link != "" && link[0] == '?' && !Absolute(link)
    ensures ResolveUrl(base, link) ==
      if |base.path| + |link| < 512 then Some(Url(base.host, base.port, base.path + link)) else None
  {
    hide NormalPath, ParseUrl, Contains, Directory, Absolute, HasScheme;
    ContainsIsAbsolute(link);
    SchemeIsAbsolute(link);
  }

  lemma EmptyIsRelative()
    ensures !Absolute("")
  {
  }

  /** A link with a scheme is parsed by itself if that is gemini, in any spelling, and else refused. */
  lemma AbsoluteLink(base: Url, link: string)
    requires Absolute(link)
    ensures ResolveUrl(base, link) ==
      if |link| >= 9 && EqualIgnoringCase(link[..9], "gemini://") then ParseUrl(link) else None
  {
    hide NormalPath, ParseUrl, Contains, Directory, Absolute, EqualIgnoringCase;
    EmptyIsRelative();
    ContainsIsAbsolute(link);
  }

  lemma EmptyLink(base: Url)
    ensures ResolveUrl(base, "") == Some(base)
  {
  }

  // ----- Printing and parsing back -----

  lemma NormalPathAgain(path: string)
    requires NormalPath(path).Some? && Rooted(path)
    ensures NormalPath(NormalPath(path).value) == NormalPath(path)
  {
    NormalNotLonger(path);
    NormalIdempotent(path);
    FoldClean([], Split(path));
    FitsBounds([], Split(path));
    RenderFits(Fold([], Split(path)));
  }

  lemma {:induction false} IndexInConcat(a: string, b: string, c: char)
    requires c !in a && (b != "" ==> b[0] == c)
    ensures IndexOf(a + b, c) == |a|
  {
    assert (a + b)[..|a|] == a;
    IndexUnique(a + b, c, |a|);
  }

  lemma LongHost(host: string, path: string)
    requires |host| >= HOST_SIZE && '/' !in host && ':' !in host && Rooted(path)
    ensures Authority(host + path) == None
  {
    IndexInConcat(host, path, '/');
    assert (host + path)[..|host|] == host;
    assert host + "" == host;
    IndexInConcat(host, "", ':');
  }

  lemma PlainAuthority(host: string, path: string)
    requires 0 < |host| < HOST_SIZE && '/' !in host && ':' !in host && Rooted(path)
    ensures Authority(host + path) == Some((host, DEFAULT_PORT)) && PathOf(host + path) == path
  {
    IndexInConcat(host, path, '/');
    assert (host + path)[..|host|] == host;
    assert host + "" == host;
    IndexInConcat(host, "", ':');
  }

  lemma {:induction false} DecimalIsDigits(n: nat)
    ensures AllDigits(Decimal(n))
  {
    if n >= 10 {
      DecimalIsDigits(n / 10);
    }
  }

  lemma DecimalNoSlash(n: nat)
    ensures '/' !in Decimal(n)
  {
    hide Decimal;
    DecimalIsDigits(n);
  }

  lemma PortRefused(host: string, digits: string, path: string)
    requires 0 < |host| < HOST_SIZE && '/' !in host && ':' !in host && Rooted(path) && '/' !in digits
    ensures Authority(host + (":" + digits) + path) == None
  {
    var s := host + (":" + digits) + path;
    IndexInConcat(host + (":" + digits), path, '/');
    assert s[..|host| + 1 + |digits|] == host + (":" + digits);
    IndexInConcat(host, ":" + digits, ':');
    assert s[|host| + 1..][|digits|] == '/';
  }

  /** What stands behind the scheme in the printed form. */
  function Bare(u: Url): string {
    u.host + (if u.port != DEFAULT_PORT then ":" + Decimal(u.port) else "") + u.path
  }

  lemma PrintedIs(u: Url, outMax: nat)
    ensures PrintUrl(u, outMax) != "" <==> 9 + |u.host| + |u.path| + 16 < outMax
    ensures PrintUrl(u, outMax) != "" ==> PrintUrl(u, outMax) == SCHEME + Bare(u)
  {
    hide Decimal;
    var port := if u.port != DEFAULT_PORT then ":" + Decimal(u.port) else "";
    assert SCHEME + u.host + port + u.path == SCHEME + (u.host + port + u.path);
    assert |SCHEME + (u.host + port + u.path)| >= 9;
  }

  lemma ParsedIs(rest: string)
    ensures ParseUrl(SCHEME + rest) ==
      match Authority(rest)
      case None => None
      case Some((host, port)) =>
        match NormalPath(PathOf(rest))
        case None => None
        case Some(path) => Some(Url(host, port, path))
  {
    hide Authority, NormalPath, PathOf, HasScheme, Contains;
    SchemeItself(rest);
  }

  lemma {:induction false} ValueOfDecimal(n: nat)
    ensures AllDigits(Decimal(n)) && Value(Decimal(n)) == n
  {
    DecimalIsDigits(n);
    if n >= 10 {
      ValueOfDecimal(n / 10);
      var s := Decimal(n);
      assert s[..|s| - 1] == Decimal(n / 10);
    } else {
      assert Decimal(n)[..0] == "";
    }
  }

  lemma PortAuthority(host: string, port: nat)
    requires host != "" && '/' !in host && ':' !in host
    ensures Authority(host + ":" + Decimal(port)) ==
      if |host| < 256 && 0 < port <= 65535 then Some((host, port)) else None
    ensures PathOf(host + ":" + Decimal(port)) == "/"
  {
    hide Decimal, Value;
    var digits := Decimal(port);
    ValueOfDecimal(port);
    DecimalNoSlash(port);
    var p := host + ":" + digits;
    assert p == host + (":" + digits);
    IndexInConcat(host, ":" + digits, ':');
    assert '/' !in p;
    IndexUnique(p, '/', |p|);
    assert p[..|p|] == p && p[..|host|] == host && p[|host| + 1..|p|] == p[|host| + 1..] == digits;
  }

  lemma FoldCons(stack: seq<string>, piece: string, rest: seq<string>)
    ensures Fold(stack, [piece] + rest) == Fold(Push(stack, piece), rest)
    ensures Fits(stack, [piece] + rest) <==> Room(stack, piece) && Fits(Push(stack, piece), rest)
  {
    hide Push, Room;
    assert ([piece] + rest)[1..] == rest;
  }

  lemma FoldNothing(stack: seq<string>)
    ensures Fold(stack, []) == stack && Fits(stack, [])
  {
  }

  lemma JoinSnoc(stack: seq<string>, piece: string)
    ensures Join(stack + [piece]) == Join(stack) + "/" + piece && Join([]) == ""
  {
    assert (stack + [piece])[..|stack|] == stack;
  }

  lemma SlashIsNormal()
    ensures NormalPath("/") == Some("/")
  {
    hide Split, Fold, Fits, Join;
    assert "" + "/" + "" == "/";
    SplitConcat("", "");
    SplitWhole("");
    assert [""] + [""] == [""] + ([""] + []);
    FoldCons([], "", [""] + []);
    FoldCons([], "", []);
    FoldNothing([]);
    JoinSnoc([], "");
  }

  /** A host with a port of decimal digits is parsed to just these, for a port from 1 to 65535 and a host that fits. */
  lemma ExplicitPort(host: string, port: nat)
    requires host != "" && '/' !in host && ':' !in host
    ensures ParseUrl(SCHEME + (host + ":" + Decimal(port))) ==
      if |host| < 256 && 0 < port <= 65535 then Some(Url(host, port, "/")) else None
  {
    hide Authority, NormalPath, PathOf, Decimal;
    ParsedIs(host + ":" + Decimal(port));
    PortAuthority(host, port);
    SlashIsNormal();
  }

  /** A host and a path are parsed to the host, port 1965 and the path normalised. */
  lemma HostAndPath(host: string, path: string)
    requires host != "" && '/' !in host && ':' !in host && Rooted(path)
    ensures ParseUrl(SCHEME + (host + path)) ==
      if |host| < 256 && |path| < 512 && !TooDeep(path) then Some(Url(host, 1965, Normal(path))) else None
  {
    hide Authority, NormalPath, PathOf, TooDeep, Normal;
    ParsedIs(host + path);
    NormalPathExactly(path);
    if |host| < HOST_SIZE {
      PlainAuthority(host, path);
    } else {
      LongHost(host, path);
    }
  }

  lemma BareAuthority(u: Url)
    requires UrlOk(u)
    ensures u.port == DEFAULT_PORT ==> Authority(Bare(u)) == Some((u.host, u.port)) && PathOf(Bare(u)) == u.path
    ensures u.port != DEFAULT_PORT ==> Authority(Bare(u)) == None
  {
    hide Authority, PathOf, Decimal;
    if u.port == DEFAULT_PORT {
      assert u.host + "" + u.path == u.host + u.path;
      PlainAuthority(u.host, u.path);
    } else {
      DecimalNoSlash(u.port);
      PortRefused(u.host, Decimal(u.port), u.path);
    }
  }

  lemma UrlParts(u: Url, path: string)
    ensures Url(u.host, u.port, path) == u.(path := path)
    ensures u.(path := path) == u <==> path == u.path
  {
  }

  /** What the printed form of a page is parsed to: with the default port, the page with its path normalised; with
      any other port nothing, because the port is printed in front of the path. So it is parsed to the page itself
      if and only if the port is the default one and the path is normal. */
  lemma PrintedParsesBack(u: Url, outMax: nat)
    requires UrlOk(u) && PrintUrl(u, outMax) != ""
    ensures u.port == DEFAULT_PORT ==>
      ParseUrl(PrintUrl(u, outMax)) ==
        match NormalPath(u.path)
        case None => None
        case Some(path) => Some(u.(path := path))
    ensures u.port != DEFAULT_PORT ==> ParseUrl(PrintUrl(u, outMax)) == None
    ensures ParseUrl(PrintUrl(u, outMax)) == Some(u) <==> u.port == DEFAULT_PORT && NormalPath(u.path) == Some(u.path)
  {
    hide *;
    PrintedIs(u, outMax);
    ParsedIs(Bare(u));
    BareAuthority(u);
    if NormalPath(u.path).Some? {
      UrlParts(u, NormalPath(u.path).value);
    }
  }

  /** A parsed URL has no characters that were not in the text, but for a slash. */
  lemma ParseAddsNothing(raw: string, c: char)
    requires c !in raw && c != '/' && ParseUrl(raw).Some?
    ensures var u := ParseUrl(raw).value; c !in u.host && c !in u.path
  {
    hide HasScheme, Contains, AllDigits, Value, Succeeds, Normal;
    var p := if HasScheme(raw) then raw[9..] else raw;
    assert c !in p;
    NormalAddsNothing(PathOf(p), c);
  }

  /** A page fresh from the parser has a normal path. */
  lemma ParsedIsNormal(raw: string)
    requires ParseUrl(raw).Some?
    ensures var path := ParseUrl(raw).value.path; NormalPath(path) == Some(path)
  {
    hide Authority, NormalPath, PathOf, HasScheme;
    var p := if HasScheme(raw) then raw[9..] else raw;
    PathOfOk(p);
    NormalPathAgain(PathOf(p));
  }

  /** So has a page reached by a link, unless the link starts with a question mark or the base had none. */
  lemma ResolvedIsNormal(base: Url, link: string)
    requires UrlOk(base) && NormalPath(base.path) == Some(base.path)
    requires ResolveUrl(base, link).Some? && (link == "" || link[0] != '?')
    ensures var path := ResolveUrl(base, link).value.path; NormalPath(path) == Some(path)
  {
    hide ParseUrl, NormalPath, HasScheme, Contains, Directory;
    if link == "" {
    } else if HasScheme(link) {
      ParsedIsNormal(link);
    } else {
      var dir := if link[0] == '/' then "" else Directory(base.path);
      DirectoryRooted(base.path);
      NormalPathAgain(dir + link);
    }
  }

  lemma {:induction false} ContainsFirst(s: string, part: string)
    requires part != "" && part[0] !in s
    ensures !Contains(s, part)
  {
    if s != "" {
      ContainsFirst(s[1..], part);
    }
  }

  lemma QueryLinkResolves()
    ensures ResolveUrl(Url("h", 1965, "/"), "?a//b") == Some(Url("h", 1965, "/?a//b"))
    ensures UrlOk(Url("h", 1965, "/?a//b"))
  {
    hide NormalPath, ParseUrl;
    var link := "?a//b";
    assert !HasScheme(link);
    ContainsFirst(link, "://");
    assert "/" + link == "/?a//b";
  }

  lemma CutsOfQuery()
    ensures Split("/?a//b") == ["", "?a", "", "b"]
  {
    hide Split;
    assert "" + "/" + "?a//b" == "/?a//b" && "?a" + "/" + "/b" == "?a//b" && "" + "/" + "b" == "/b";
    SplitConcat("", "?a//b");
    SplitConcat("?a", "/b");
    SplitConcat("", "b");
    SplitWhole("");
    SplitWhole("?a");
    SplitWhole("b");
  }

  lemma EmptySegmentDrops()
    ensures NormalPath("/?a//b") == Some("/?a/b")
  {
    hide Split, Fold, Fits, Join;
    CutsOfQuery();
    assert ["", "?a", "", "b"] == [""] + (["?a"] + ([""] + (["b"] + [])));
    FoldCons([], "", ["?a"] + ([""] + (["b"] + [])));
    FoldCons([], "?a", [""] + (["b"] + []));
    assert [] + ["?a"] == ["?a"];
    FoldCons(["?a"], "", ["b"] + []);
    FoldCons(["?a"], "b", []);
    assert ["?a"] + ["b"] == ["?a", "b"];
    FoldNothing(["?a", "b"]);
    JoinSnoc([], "?a");
    JoinSnoc(["?a"], "b");
    assert "" + "/" + "?a" == "/?a" && "/?a" + "/" + "b" == "/?a/b";
  }

  lemma OneSegmentIsNormal(segment: string)
    requires Keeps(segment) && '/' !in segment && |segment| < 500
    ensures NormalPath("/" + segment) == Some("/" + segment)
  {
    hide Split, Fold, Fits, Join;
    assert "" + "/" + segment == "/" + segment;
    SplitConcat("", segment);
    SplitWhole("");
    SplitWhole(segment);
    assert [""] + [segment] == [""] + ([segment] + []);
    FoldCons([], "", [segment] + []);
    FoldCons([], segment, []);
    assert [] + [segment] == [segment];
    FoldNothing([segment]);
    JoinSnoc([], segment);
  }

  /** A link with a question mark can lead to a page whose printed form is parsed to another page. */
  lemma QueryLinkPrintsAnother()
    ensures var page := Url("h", 1965, "/?a//b");
      && ResolveUrl(Url("h", 1965, "/"), "?a//b") == Some(page) && UrlOk(page)
      && PrintUrl(page, 600) != "" && ParseUrl(PrintUrl(page, 600)) == Some(Url("h", 1965, "/?a/b"))
  {
    hide NormalPath, ParseUrl, PrintUrl;
    var page := Url("h", 1965, "/?a//b");
    QueryLinkResolves();
    EmptySegmentDrops();
    PrintedIs(page, 600);
    PrintedParsesBack(page, 600);
  }
}
