/** A Gemini request: connections, certificate checks, redirects and questions, against any server. */
module Request {
  import opened Common
  import opened Url
  import opened Reply
  import Query
  import Tofu

  // ----- The world outside -----

  /** What happens on one connection. `rc`: result of connecting. `trusted`: the certificate was accepted, or else
      `reason` may say why not. `written`: result of writing the request. `reply`: all the bytes that arrive.
      `size(j)`: how many of them the j-th read of the body is given, between 1 and 512. */
  datatype Visit = Visit(rc: int, trusted: bool, reason: string, written: int, reply: string, size: nat -> nat)

  /** What the server does on its n-th connection. */
  type Server = nat -> Visit

  /** Whether the caller takes a chunk of the given length after so many bytes. */
  type Taker = (nat, nat) -> bool

  /** A line typed by the user. */
  type Typed = s: Query.Bytes | '\0' !in s

  // ----- What a request does -----

  datatype Event =
    | Connected(host: string, port: nat)
    | NotConnected
    | Accepted
    | Rejected
    | Sent(text: string)
    | Taken(chunk: string)
    | Refused(chunk: string)
    | Asked(prompt: string)
    | Closed
    | Redirected

  datatype Outcome =
    | Failed(tls: int, redirectLimit: bool, message: string)
    | Done(status: nat, meta: string, bodyLength: nat)

  type Events = seq<Event>

  function RequestText(u: Url): string { "gemini://" + u.host + u.path + "\r\n" }

  /** Size of the next chunk. */
  function Bounded(n: nat, available: nat): (k: nat)
    requires available > 0
    ensures 1 <= k <= available && k <= 512
  {
    var most := if available < 512 then available else 512;
    if n < 1 then 1 else if n > most then most else n
  }

  /** A read may bring any number of characters from 1 to 512 that is there. */
  lemma AnyChunk(n: nat, available: nat)
    requires 1 <= n <= available && n <= 512
    ensures Bounded(n, available) == n
  {
  }

  /** The chunks handed over until one is refused. */
  function Deliver(rest: string, v: Visit, j: nat, total: nat, takes: Taker): (Events, bool)
    decreases |rest|
  {
    if rest == "" then ([], true)
    else
      var k := Bounded(v.size(j), |rest|);
      if !takes(total, k) then ([Refused(rest[..k])], false)
      else
        var (events, ok) := Deliver(rest[k..], v, j + 1, total + k, takes);
        ([Taken(rest[..k])] + events, ok)
  }

  /** How a connection ends: with a result, a question or a redirect. */
  datatype After = Stop(outcome: Outcome) | Question(meta: string) | Elsewhere(meta: string)

  function Error(message: string): After { Stop(Failed(0, false, message)) }

  function Body(v: Visit, rest: string, h: Header, takes: Taker): (Events, After) {
    var (events, ok) := Deliver(rest, v, 0, 0, takes);
    var done := Stop(Done(h.status, h.meta, |rest| % 0x1_0000_0000));
    (events + [Closed], if ok then done else Error("body callback aborted"))
  }

  /** From the status on. A question or a redirect leaves the connection open. */
  function Answered(v: Visit, h: Header, rest: string, takes: Taker): (Events, After) {
    if 20 <= h.status < 30 then Body(v, rest, h, takes)
    else if 10 <= h.status < 20 then ([], Question(h.meta))
    else if 30 <= h.status < 40 then ([], Elsewhere(h.meta))
    else ([Closed], Stop(Done(h.status, h.meta, 0)))
  }

  function Replied(v: Visit, takes: Taker): (Events, After) {
    var end := HeaderEnd(v.reply, 0);
    if end.None? then ([Closed], Error("header read failed"))
    else
      var header := ParseHeader(v.reply[..end.value]);
      if header.None? then ([Closed], Error("header parse failed"))
      else Answered(v, header.value, v.reply[end.value..], takes)
  }

  function Trusted(v: Visit, u: Url, takes: Taker): (Events, After) {
    if |u.host| + |u.path| + 12 >= 768 then ([Closed], Error("request too long"))
    else
      var sent := [Sent(RequestText(u))];
      if v.written <= 0 then (sent + [Closed], Error("TLS write failed"))
      else
        var (events, after) := Replied(v, takes);
        (sent + events, after)
  }

  /** One connection. */
  function Talk(v: Visit, u: Url, takes: Taker): (Events, After) {
    if v.rc != 0 then ([NotConnected], Stop(Failed(v.rc, false, "TLS connect failed")))
    else if !v.trusted then
      var reason := if v.reason != "" then v.reason else "untrusted certificate";
      ([Connected(u.host, u.port), Rejected, Closed], Error(reason))
    else
      var (events, after) := Trusted(v, u, takes);
      ([Connected(u.host, u.port), Accepted] + events, after)
  }

  lemma {:induction false} StripIsPrefix(s: string)
    ensures |Tofu.Strip(s)| <= |s| && Tofu.Strip(s) == s[..|Tofu.Strip(s)|]
    decreases |s|
  {
    if s != "" && (s[|s| - 1] == '\n' || s[|s| - 1] == '\r') {
      StripIsPrefix(s[..|s| - 1]);
    } else {
      assert s[..|s|] == s;
    }
  }

  /** Without the newline that ended it. */
  function AnswerOf(line: Typed): Typed {
    StripIsPrefix(line);
    Tofu.Strip(line)
  }

  function Prompt(meta: string): string { (if meta != "" then meta else "Input:") + " " }

  /** The whole request, from the n-th connection on. */
  function Session(server: Server, n: nat, u: Url, redirects: nat, inputs: seq<Typed>, takes: Taker): (Events, Outcome)
    requires redirects <= 5
    decreases |inputs| + 5 - redirects
  {
    var (events, after) := Talk(server(n), u, takes);
    match after
    case Stop(outcome) => (events, outcome)
    case Question(meta) =>
      var asked := events + [Asked(Prompt(meta)), Closed];
      if inputs == [] then (asked, Failed(0, false, "input aborted"))
      else
        (match Query.ApplyQuery(u, AnswerOf(inputs[0]))
         case None => (asked, Failed(0, false, "query encoding failed"))
         case Some(next) =>
           var (more, outcome) := Session(server, n + 1, next, redirects, inputs[1..], takes);
           (asked + more, outcome))
    case Elsewhere(meta) =>
      if redirects >= 5 then (events + [Closed], Failed(0, false, "redirect limit exceeded"))
      else
        (match ResolveUrl(u, meta)
         case None => (events + [Closed], Failed(0, false, "redirect resolve failed"))
         case Some(next) =>
           var (more, outcome) := Session(server, n + 1, next, redirects + 1, inputs, takes);
           (events + [Closed, Redirected] + more, outcome))
  }

  // ----- Steps of a run -----

  /** What has been delivered, completed with the rest, is the whole delivery. */
  ghost predicate Delivering(trace: Events, rest: string, v: Visit, j: nat, p: nat, takes: Taker,
                             goal: (Events, bool)) {
    p <= |rest| && var d := Deliver(rest[p..], v, j, p, takes); trace + d.0 == goal.0 && d.1 == goal.1
  }

  lemma DeliverNext(trace: Events, rest: string, v: Visit, j: nat, p: nat, takes: Taker, goal: (Events, bool))
    requires p < |rest| && Delivering(trace, rest, v, j, p, takes, goal)
    ensures p + Bounded(v.size(j), |rest| - p) <= |rest|
    ensures var k := Bounded(v.size(j), |rest| - p);
      var chunk := rest[p..p + k];
      if takes(p, k) then Delivering(trace + [Taken(chunk)], rest, v, j + 1, p + k, takes, goal)
      else goal == (trace + [Refused(chunk)], false)
  {
    hide Bounded;
    var left := rest[p..];
    var k := Bounded(v.size(j), |left|);
    assert left[..k] == rest[p..p + k] && left[k..] == rest[p + k..];
    if takes(p, k) {
      var more := Deliver(left[k..], v, j + 1, p + k, takes).0;
      assert trace + ([Taken(left[..k])] + more) == trace + [Taken(left[..k])] + more;
    }
  }

  lemma WrappedSum(p: nat, k: nat)
    ensures (p % 0x1_0000_0000 + k) % 0x1_0000_0000 == (p + k) % 0x1_0000_0000
  {
  }

  lemma DeliverEnds(trace: Events, rest: string, v: Visit, j: nat, takes: Taker, goal: (Events, bool))
    requires Delivering(trace, rest, v, j, |rest|, takes, goal)
    ensures goal == (trace, true)
  {
    assert rest[|rest|..] == "" && trace + [] == trace;
  }

  lemma DeliverStarts(trace: Events, rest: string, v: Visit, takes: Taker)
    ensures var d := Deliver(rest, v, 0, 0, takes); Delivering(trace, rest, v, 0, 0, takes, (trace + d.0, d.1))
  {
    hide Deliver;
    assert rest[0..] == rest;
  }

  /** Nothing on a connection sets the redirect flag. */
  lemma TalkError(v: Visit, u: Url, takes: Taker)
    ensures var after := Talk(v, u, takes).1; after.Stop? && after.outcome.Failed? ==> !after.outcome.redirectLimit
  {
    hide Deliver, HeaderEnd, ParseHeader, RequestText;
  }

  /** What has happened, completed with the session from here on, is the whole run. */
  ghost predicate Along(trace: Events, server: Server, n: nat, u: Url, redirects: nat, inputs: seq<Typed>, takes: Taker,
                        goal: (Events, Outcome)) {
    redirects <= 5 && var s := Session(server, n, u, redirects, inputs, takes); trace + s.0 == goal.0 && s.1 == goal.1
  }

  lemma AlongStarts(trace: Events, server: Server, u: Url, inputs: seq<Typed>, takes: Taker)
    ensures var s := Session(server, 0, u, 0, inputs, takes);
      Along(trace, server, 0, u, 0, inputs, takes, (trace + s.0, s.1))
  {
    hide Session;
  }

  lemma AlongStops(trace: Events, server: Server, n: nat, u: Url, redirects: nat, inputs: seq<Typed>, takes: Taker,
                   goal: (Events, Outcome))
    requires Along(trace, server, n, u, redirects, inputs, takes, goal) && Talk(server(n), u, takes).1.Stop?
    ensures goal == (trace + Talk(server(n), u, takes).0, Talk(server(n), u, takes).1.outcome)
  {
    hide Talk;
  }

  lemma AlongAsks(trace: Events, server: Server, n: nat, u: Url, redirects: nat, inputs: seq<Typed>, takes: Taker,
                  goal: (Events, Outcome))
    requires Along(trace, server, n, u, redirects, inputs, takes, goal) && Talk(server(n), u, takes).1.Question?
    ensures var (events, after) := Talk(server(n), u, takes);
      var now := trace + events + [Asked(Prompt(after.meta))] + [Closed];
      if inputs == [] then goal == (now, Failed(0, false, "input aborted"))
      else
        match Query.ApplyQuery(u, AnswerOf(inputs[0]))
        case None => goal == (now, Failed(0, false, "query encoding failed"))
        case Some(next) => Along(now, server, n + 1, next, redirects, inputs[1..], takes, goal)
  {
    hide Talk, Query.ApplyQuery, AnswerOf, Prompt;
    var (events, after) := Talk(server(n), u, takes);
    var asked := [Asked(Prompt(after.meta)), Closed];
    assert asked == [Asked(Prompt(after.meta))] + [Closed];
    assert trace + (events + asked) == trace + events + [Asked(Prompt(after.meta))] + [Closed];
    if inputs != [] {
      var next := Query.ApplyQuery(u, AnswerOf(inputs[0]));
      if next.Some? {
        var more := Session(server, n + 1, next.value, redirects, inputs[1..], takes).0;
        assert trace + (events + asked + more) == trace + (events + asked) + more;
      }
    }
  }

  lemma AlongTurns(trace: Events, server: Server, n: nat, u: Url, redirects: nat, inputs: seq<Typed>, takes: Taker,
                   goal: (Events, Outcome))
    requires Along(trace, server, n, u, redirects, inputs, takes, goal) && Talk(server(n), u, takes).1.Elsewhere?
    ensures var (events, after) := Talk(server(n), u, takes);
      var now := trace + events + [Closed];
      if redirects >= 5 then goal == (now, Failed(0, false, "redirect limit exceeded"))
      else
        match ResolveUrl(u, after.meta)
        case None => goal == (now, Failed(0, false, "redirect resolve failed"))
        case Some(next) => Along(now + [Redirected], server, n + 1, next, redirects + 1, inputs, takes, goal)
  {
    hide Talk, ResolveUrl;
    var (events, after) := Talk(server(n), u, takes);
    assert trace + (events + [Closed]) == trace + events + [Closed];
    if redirects < 5 && ResolveUrl(u, after.meta).Some? {
      var more := Session(server, n + 1, ResolveUrl(u, after.meta).value, redirects + 1, inputs, takes).0;
      assert trace + (events + [Closed, Redirected] + more) == trace + events + [Closed] + [Redirected] + more;
    }
  }

  // ----- The client as a program -----

  class Client {
    var trace: Events
    var inputs: seq<Typed>
    var code: int
    var tlsErr: int
    var redirectLimit: bool
    var message: string

    constructor (inputs: seq<Typed>)
      ensures trace == [] && this.inputs == inputs
    {
      trace, this.inputs, code, tlsErr, redirectLimit, message := [], inputs, 0, 0, false, "";
    }

    /** The redirect flag is cleared with every error. */
    method SetError(code: int, tls: int, message: string)
      modifies this`code, this`tlsErr, this`redirectLimit, this`message
      ensures this.code == code && tlsErr == tls && !redirectLimit && this.message == message
    {
      this.code, tlsErr, redirectLimit, this.message := code, tls, false, message;
    }

    method Log(event: Event)
      modifies this`trace
      ensures trace == old(trace) + [event]
    {
      trace := trace + [event];
    }

    /** Hands the body over as it is read. The total is a 32-bit number. */
    method ReadBody(v: Visit, rest: string, takes: Taker) returns (ok: bool, total: nat)
      modifies this`trace
      ensures (trace, ok) == (old(trace) + Deliver(rest, v, 0, 0, takes).0, Deliver(rest, v, 0, 0, takes).1)
      ensures ok ==> total == |rest| % 0x1_0000_0000
    {
      hide *;
      var p, j := 0, 0;
      total := 0;
      ghost var goal := (trace + Deliver(rest, v, 0, 0, takes).0, Deliver(rest, v, 0, 0, takes).1);
      DeliverStarts(trace, rest, v, takes);
      while p < |rest|
        invariant 0 <= p <= |rest| && total == p % 0x1_0000_0000
        invariant Delivering(trace, rest, v, j, p, takes, goal)
      {
        DeliverNext(trace, rest, v, j, p, takes, goal);
        var k := Bounded(v.size(j), |rest| - p);
        if !takes(p, k) {
          Log(Refused(rest[p..p + k]));
          return false, total;
        }
        Log(Taken(rest[p..p + k]));
        WrappedSum(p, k);
        total := (total + k) % 0x1_0000_0000;
        p, j := p + k, j + 1;
      }
      DeliverEnds(trace, rest, v, j, takes, goal);
      return true, total;
    }

    method Answer(v: Visit, h: Header, rest: string, takes: Taker) returns (after: After)
      modifies this`trace
      ensures trace == old(trace) + Answered(v, h, rest, takes).0 && after == Answered(v, h, rest, takes).1
    {
      hide Deliver;
      if 20 <= h.status < 30 {
        var ok, total := ReadBody(v, rest, takes);
        Log(Closed);
        return if ok then Stop(Done(h.status, h.meta, total)) else Error("body callback aborted");
      }
      if 10 <= h.status < 20 {
        return Question(h.meta);
      }
      if 30 <= h.status < 40 {
        return Elsewhere(h.meta);
      }
      Log(Closed);
      return Stop(Done(h.status, h.meta, 0));
    }

    method Reply(v: Visit, takes: Taker) returns (after: After)
      modifies this`trace
      ensures trace == old(trace) + Replied(v, takes).0 && after == Replied(v, takes).1
    {
      hide Answered, HeaderEnd, ParseHeader;
      var end := ReadHeaderLine(v.reply);
      if end.None? {
        Log(Closed);
        return Error("header read failed");
      }
      var header := ParseHeaderLine(v.reply[..end.value]);
      if header.None? {
        Log(Closed);
        return Error("header parse failed");
      }
      after := Answer(v, header.value, v.reply[end.value..], takes);
    }

    method Converse(v: Visit, u: Url, takes: Taker) returns (after: After)
      modifies this`trace
      ensures trace == old(trace) + Talk(v, u, takes).0 && after == Talk(v, u, takes).1
    {
      hide Replied;
      if v.rc != 0 {
        Log(NotConnected);
        return Stop(Failed(v.rc, false, "TLS connect failed"));
      }
      Log(Connected(u.host, u.port));
      if !v.trusted {
        Log(Rejected);
        Log(Closed);
        return Error(if v.reason != "" then v.reason else "untrusted certificate");
      }
      Log(Accepted);
      if |u.host| + |u.path| + 12 >= 768 {
        Log(Closed);
        return Error("request too long");
      }
      Log(Sent(RequestText(u)));
      if v.written <= 0 {
        Log(Closed);
        return Error("TLS write failed");
      }
      after := Reply(v, takes);
    }

    method ReadAnswer() returns (answer: Option<Typed>)
      modifies this`inputs
      ensures if old(inputs) == [] then answer == None && inputs == []
        else answer == Some(AnswerOf(old(inputs)[0])) && inputs == old(inputs)[1..]
    {
      if inputs == [] {
        return None;
      }
      var line := inputs[0];
      inputs := inputs[1..];
      return Some(AnswerOf(line));
    }

    /** What the caller is told. */
    ghost predicate Reports(outcome: Outcome, ok: bool, status: nat, meta: string, bodyLength: nat)
      reads this
    {
      match outcome
      case Failed(tls, limit, text) => !ok && code == -1 && tlsErr == tls && redirectLimit == limit && message == text
      case Done(s, m, n) => ok && code == 0 && status == s && meta == m && bodyLength == n
    }

    method Finish(outcome: Outcome) returns (ok: bool, status: nat, meta: string, bodyLength: nat)
      requires code == 0 && (outcome.Failed? ==> !outcome.redirectLimit)
      modifies this`code, this`tlsErr, this`redirectLimit, this`message
      ensures Reports(outcome, ok, status, meta, bodyLength)
    {
      match outcome {
        case Failed(tls, _, text) =>
          SetError(-1, tls, text);
          return false, 0, "", 0;
        case Done(s, m, total) =>
          return true, s, m, total;
      }
    }

    method RequestStream(server: Server, u: Url, takes: Taker)
      returns (ok: bool, status: nat, meta: string, bodyLength: nat)
      modifies this
      ensures var (events, outcome) := Session(server, 0, u, 0, old(inputs), takes);
        trace == old(trace) + events && Reports(outcome, ok, status, meta, bodyLength)
    {
      hide *;
      code, tlsErr, redirectLimit, message := 0, 0, false, "";
      ok, status, meta, bodyLength := false, 0, "", 0;
      var current, redirects, n := u, 0, 0;
      ghost var s := Session(server, 0, u, 0, inputs, takes);
      ghost var goal := (trace + s.0, s.1);
      AlongStarts(trace, server, u, inputs, takes);
      while true
        invariant redirects <= 5 && code == 0
        invariant Along(trace, server, n, current, redirects, inputs, takes, goal)
        decreases |inputs| + 5 - redirects
      {
        ghost var before := trace;
        var after := Converse(server(n), current, takes);
        match after {
          case Stop(outcome) =>
            AlongStops(before, server, n, current, redirects, inputs, takes, goal);
            TalkError(server(n), current, takes);
            ok, status, meta, bodyLength := Finish(outcome);
            return;
          case Question(prompt) =>
            AlongAsks(before, server, n, current, redirects, inputs, takes, goal);
            Log(Asked(Prompt(prompt)));
            var answer := ReadAnswer();
            Log(Closed);
            if answer.None? {
              ok, status, meta, bodyLength := Finish(Failed(0, false, "input aborted"));
              return;
            }
            var next := Query.Apply(current, answer.value);
            if next.None? {
              ok, status, meta, bodyLength := Finish(Failed(0, false, "query encoding failed"));
              return;
            }
            current := next.value;
          case Elsewhere(link) =>
            AlongTurns(before, server, n, current, redirects, inputs, takes, goal);
            Log(Closed);
            if redirects >= 5 {
              redirectLimit := true;
              ok, status, meta, bodyLength := Finish(Failed(0, false, "redirect limit exceeded"));
              return;
            }
            redirects := redirects + 1;
            var next := ResolveUrl(current, link);
            if next.None? {
              ok, status, meta, bodyLength := Finish(Failed(0, false, "redirect resolve failed"));
              return;
            }
            Log(Redirected);
            current := next.value;
        }
        n := n + 1;
      }
    }
  }
}
