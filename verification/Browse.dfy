/** The browse loop: which URL is shown after every command. */
module Browse {
  import opened Common
  import opened Url

  const HISTORY_MAX := 32

  datatype State = State(current: Url, history: seq<Url>)

  /** Commands that touch the current URL. A link is whatever text the page held. */
  datatype Command = Home | Bookmarks | Back | Follow(link: string) | Typed(input: string)

  function ParseUserUrl(input: string): Option<Url> {
    if SCHEME <= input then ParseUrl(input)
    else if Contains(input, "://") then None
    else if |input| + 9 >= 600 then None
    else ParseUrl(SCHEME + input)
  }

  /** A full history forgets the page left. */
  function Remember(history: seq<Url>, u: Url): seq<Url> {
    if |history| >= HISTORY_MAX then history else history + [u]
  }

  function GoTo(s: State, u: Url): State {
    State(u, Remember(s.history, s.current))
  }

  function Next(s: State, c: Command): State {
    match c
    case Home => GoTo(s, Url("local", 0, "/homepage"))
    case Bookmarks => GoTo(s, Url("local", 0, "/bookmarks"))
    case Back =>
      if s.history == [] then s else State(s.history[|s.history| - 1], s.history[..|s.history| - 1])
    case Follow(link) =>
      (match ResolveUrl(s.current, link)
       case None => s
       case Some(u) => GoTo(s, u))
    case Typed(input) =>
      (match ParseUserUrl(input)
       case None => s
       case Some(u) => GoTo(s, u))
  }

  function Run(s: State, commands: seq<Command>): State
    decreases |commands|
  {
    if commands == [] then s else Run(Next(s, commands[0]), commands[1..])
  }

  // ----- The loop as a program -----

  class Browser {
    var current: Url
    var history: seq<Url>

    constructor (home: Url)
      ensures Shown() == State(home, [])
    {
      current, history := home, [];
    }

    ghost function Shown(): State
      reads this
    {
      State(current, history)
    }

    method Push()
      modifies this`history
      ensures history == Remember(old(history), current)
    {
      if |history| < HISTORY_MAX {
        history := history + [current];
      }
    }

    method Go(next: Url)
      modifies this
      ensures Shown() == GoTo(old(Shown()), next)
    {
      Push();
      current := next;
    }

    /** One turn of the loop. A link or an input that does not lead anywhere leaves everything as it is. */
    method Turn(c: Command)
      modifies this
      ensures Shown() == Next(old(Shown()), c)
    {
      hide ResolveUrl, ParseUserUrl, Remember;
      match c {
        case Home => Go(Url("local", 0, "/homepage"));
        case Bookmarks => Go(Url("local", 0, "/bookmarks"));
        case Back =>
          if history != [] {
            current := history[|history| - 1];
            history := history[..|history| - 1];
          }
        case Follow(link) =>
          var next := ResolveUrl(current, link);
          if next.Some? {
            Go(next.value);
          }
        case Typed(input) =>
          var next := ParseUserUrl(input);
          if next.Some? {
            Go(next.value);
          }
      }
    }
  }

  // ----- What the commands do -----

  /** What a user types is a URL with its scheme, or one without that is short enough. */
  lemma TypedUrl(input: string)
    ensures ParseUserUrl(input) ==
      if |input| >= 9 && input[..9] == "gemini://" then ParseUrl(input)
      else if Absolute(input) || |input| > 590 then None
      else ParseUrl("gemini://" + input)
  {
    hide ParseUrl, Absolute;
    ContainsIsAbsolute(input);
  }

  /** A command that leads somewhere shows that page and remembers the one left, unless 32 are remembered already. */
  lemma CommandLeads(s: State, c: Command, u: Url)
    requires match c
             case Home => u == Url("local", 0, "/homepage")
             case Bookmarks => u == Url("local", 0, "/bookmarks")
             case Back => false
             case Follow(link) => ResolveUrl(s.current, link) == Some(u)
             case Typed(input) => ParseUserUrl(input) == Some(u)
    ensures Next(s, c).current == u
    ensures Next(s, c).history == if |s.history| < 32 then s.history + [s.current] else s.history
  {
    hide ResolveUrl, ParseUserUrl;
  }

  /** A link or an input that leads nowhere changes nothing, nor does going back from the first page; else going back
      shows the newest page remembered, and forgets it. */
  lemma CommandStays(s: State, c: Command)
    ensures c.Follow? && ResolveUrl(s.current, c.link) == None ==> Next(s, c) == s
    ensures c.Typed? && ParseUserUrl(c.input) == None ==> Next(s, c) == s
    ensures c.Back? && s.history == [] ==> Next(s, c) == s
    ensures c.Back? && s.history != [] ==> Next(s, c).history + [Next(s, c).current] == s.history
  {
    hide ResolveUrl, ParseUserUrl;
  }

  // ----- Every run -----

  predicate StateOk(s: State) {
    UrlOk(s.current) && |s.history| <= HISTORY_MAX && forall k :: 0 <= k < |s.history| ==> UrlOk(s.history[k])
  }

  lemma NextOk(s: State, c: Command)
    requires StateOk(s)
    ensures StateOk(Next(s, c))
  {
    hide ResolveUrl, ParseUrl, Contains;
    match c
    case Home =>
    case Bookmarks =>
    case Back =>
    case Follow(link) => ResolveOk(s.current, link);
    case Typed(input) => ParseOk(input); ParseOk(SCHEME + input);
  }

  lemma {:induction false} RunOk(s: State, commands: seq<Command>)
    requires StateOk(s)
    ensures StateOk(Run(s, commands))
    decreases |commands|
  {
    hide StateOk, Next;
    if commands != [] {
      NextOk(s, commands[0]);
      RunOk(Next(s, commands[0]), commands[1..]);
    }
  }

  lemma OneOk(s: State)
    ensures StateOk(s) ==> UrlOk(s.current)
    ensures UrlOk(s.current) && s.history == [] ==> StateOk(s)
  {
  }

  /** From a start page that parses, every page ever shown has a rooted path under 512 bytes,
      and no port only on the local host. */
  lemma EveryPageOk(home: string, commands: seq<Command>)
    requires ParseUrl(home).Some?
    ensures UrlOk(Run(State(ParseUrl(home).value, []), commands).current)
  {
    hide ParseUrl, UrlOk, Run;
    ParseOk(home);
    var start := State(ParseUrl(home).value, []);
    OneOk(start);
    RunOk(start, commands);
    OneOk(Run(start, commands));
  }

  /** Going back after going somewhere returns to the page left, except from a full history:
      there it returns to an older page. */
  lemma BackReturns(s: State, u: Url)
    requires |s.history| <= HISTORY_MAX
    ensures Next(GoTo(s, u), Back) == s <==> |s.history| < HISTORY_MAX
  {
    if |s.history| < HISTORY_MAX {
      assert (s.history + [s.current])[..|s.history|] == s.history;
    } else {
      assert |Next(GoTo(s, u), Back).history| < |s.history|;
    }
  }
}
