/** What one reply makes of a request: where it goes next, or how it ends, by the bytes of the reply. */
module RequestTurns {
  import opened Common
  import opened Url
  import opened Reply
  import opened Request

  /** The connection is made, trusted and asked for the page, and answers with this header and then these bytes. */
  predicate Answers(v: Visit, u: Url, h: Header, body: string) {
    && v.rc == 0 && v.trusted && |u.host| + |u.path| + 12 < 768 && v.written > 0
    && Sendable(h) && v.reply == HeaderLine(h) + body
  }

  /** What is seen of a connection up to its request. */
  function Asking(u: Url): Events {
    [Connected(u.host, u.port), Accepted, Sent("gemini://" + u.host + u.path + "\r\n")]
  }

  lemma JoinAsking(u: Url, more: Events)
    ensures [Connected(u.host, u.port), Accepted] + ([Sent(RequestText(u))] + more) == Asking(u) + more
  {
  }

  lemma TalkAnswers(v: Visit, u: Url, takes: Taker, h: Header, body: string)
    requires Answers(v, u, h, body)
    ensures Talk(v, u, takes) == (Asking(u) + Answered(v, h, body, takes).0, Answered(v, h, body, takes).1)
  {
    hide Answered, HeaderEnd, ParseHeader, HeaderLine, RequestText, Asking;
    ReplyReads(h, body);
    JoinAsking(u, Answered(v, h, body, takes).0);
  }

  lemma TalkAsks(v: Visit, u: Url, takes: Taker)
    requires v.rc == 0 && v.trusted && |u.host| + |u.path| + 12 < 768
    ensures Asking(u) <= Talk(v, u, takes).0
  {
    hide Replied, RequestText, Asking;
    JoinAsking(u, [Closed]);
    JoinAsking(u, Replied(v, takes).0);
  }

  lemma SessionTalks(server: Server, n: nat, u: Url, redirects: nat, inputs: seq<Typed>, takes: Taker)
    requires redirects <= 5
    ensures Talk(server(n), u, takes).0 <= Session(server, n, u, redirects, inputs, takes).0
  {
    hide Talk, Query.ApplyQuery, ResolveUrl, AnswerOf, Prompt;
  }

  lemma PrefixThen(a: Events, b: Events, c: Events)
    requires b <= c
    ensures a + b <= a + c
  {
    assert c == b + c[|b|..];
    assert a + c == (a + b) + c[|b|..];
  }

  /** A redirect goes where the meta says: the next connection is opened to the host and port the meta resolves to, and
      asks for that page. */
  lemma RedirectFollowed(server: Server, n: nat, u: Url, redirects: nat, inputs: seq<Typed>, takes: Taker,
                         h: Header, body: string, next: Url)
    requires redirects < 5 && Answers(server(n), u, h, body) && 30 <= h.status < 40
    requires ResolveUrl(u, h.meta) == Some(next)
    ensures var v := server(n + 1);
      var (events, outcome) := Session(server, n, u, redirects, inputs, takes);
      var (rest, last) := Session(server, n + 1, next, redirects + 1, inputs, takes);
      && events == Asking(u) + [Closed, Redirected] + rest && outcome == last
      && (v.rc == 0 && v.trusted && |next.host| + |next.path| + 12 < 768 ==>
            Asking(u) + [Closed, Redirected] + Asking(next) <= events)
  {
    hide Talk, ResolveUrl, Asking, HeaderLine, Sendable, Deliver;
    TalkAnswers(server(n), u, takes, h, body);
    assert Asking(u) + [] == Asking(u);
    SessionTalks(server, n + 1, next, redirects + 1, inputs, takes);
    var v := server(n + 1);
    if v.rc == 0 && v.trusted && |next.host| + |next.path| + 12 < 768 {
      TalkAsks(v, next, takes);
      PrefixThen(Asking(u) + [Closed, Redirected], Asking(next),
                 Session(server, n + 1, next, redirects + 1, inputs, takes).0);
    }
  }

  /** A redirect that cannot be followed ends the request. */
  lemma RedirectEnds(server: Server, n: nat, u: Url, redirects: nat, inputs: seq<Typed>, takes: Taker,
                     h: Header, body: string)
    requires redirects <= 5 && Answers(server(n), u, h, body) && 30 <= h.status < 40
    requires redirects == 5 || ResolveUrl(u, h.meta) == None
    ensures Session(server, n, u, redirects, inputs, takes) ==
      (Asking(u) + [Closed],
       Failed(0, false, if redirects == 5 then "redirect limit exceeded" else "redirect resolve failed"))
  {
    hide Talk, ResolveUrl, Asking, HeaderLine, Sendable, Deliver;
    TalkAnswers(server(n), u, takes, h, body);
    assert Asking(u) + [] == Asking(u);
  }

  // ----- Questions -----

  lemma {:induction false} StripIs(answer: string, ends: string)
    requires forall k :: 0 <= k < |ends| ==> ends[k] == '\n' || ends[k] == '\r'
    requires answer != "" ==> answer[|answer| - 1] != '\n' && answer[|answer| - 1] != '\r'
    ensures Tofu.Strip(answer + ends) == answer
    decreases |ends|
  {
    if ends == "" {
      assert answer + ends == answer;
    } else {
      var front := ends[..|ends| - 1];
      assert (answer + ends)[..|answer + ends| - 1] == answer + front;
      StripIs(answer, front);
    }
  }

  /** A typed line: the answer and the line end. */
  predicate Types(line: Typed, answer: Typed, ends: string) {
    && line == answer + ends
    && (forall k :: 0 <= k < |ends| ==> ends[k] == '\n' || ends[k] == '\r')
    && (answer != "" ==> answer[|answer| - 1] != '\n' && answer[|answer| - 1] != '\r')
  }

  lemma AnswerIs(line: Typed, answer: Typed, ends: string)
    requires Types(line, answer, ends)
    ensures AnswerOf(line) == answer
  {
    StripIs(answer, ends);
  }

  lemma JoinAsked(u: Url, prompt: string, more: Events)
    ensures Asking(u) + [] + [Asked(prompt), Closed] + more == Asking(u) + [Asked(prompt), Closed] + more
    ensures Asking(u) + [] + [Asked(prompt), Closed] == Asking(u) + [Asked(prompt), Closed]
  {
  }

  lemma LongPrompt(meta: string)
    ensures Prompt(meta) == if |meta| > 0 then meta + " " else "Input: "
  {
    assert "Input:" + " " == "Input: ";
  }

  /** A question is put with the meta for a prompt, and the answer is sent as the query of the same page: behind its
      path up to the first question mark, in a text that decodes to the answer. */
  lemma AnswerSent(server: Server, n: nat, u: Url, redirects: nat, inputs: seq<Typed>, takes: Taker,
                   h: Header, body: string, answer: Typed, ends: string, front: string, next: Url)
    requires redirects <= 5 && Answers(server(n), u, h, body) && 10 <= h.status < 20
    requires inputs != [] && Types(inputs[0], answer, ends)
    requires '?' !in front && (u.path == front || front + "?" <= u.path)
    requires |front| + 1 + |Query.Encode(answer)| < 512
    requires next == Url(u.host, u.port, front + "?" + Query.Encode(answer))
    ensures var v := server(n + 1);
      var (events, outcome) := Session(server, n, u, redirects, inputs, takes);
      var (rest, last) := Session(server, n + 1, next, redirects, inputs[1..], takes);
      var asked := Asking(u) + [Asked(if |h.meta| > 0 then h.meta + " " else "Input: "), Closed];
      && events == asked + rest && outcome == last && Query.Decode(Query.Encode(answer)) == answer
      && (v.rc == 0 && v.trusted && |next.host| + |next.path| + 12 < 768 ==> asked + Asking(next) <= events)
  {
    hide Talk, Asking, HeaderLine, Sendable, Deliver, Query.ApplyQuery, Query.Encode, Query.Decode, AnswerOf, Prompt,
         Types;
    TalkAnswers(server(n), u, takes, h, body);
    LongPrompt(h.meta);
    AnswerIs(inputs[0], answer, ends);
    Query.QueryBehindPath(u, front, answer);
    Query.DecodeEncode(answer);
    var rest := Session(server, n + 1, next, redirects, inputs[1..], takes).0;
    JoinAsked(u, Prompt(h.meta), rest);
    SessionTalks(server, n + 1, next, redirects, inputs[1..], takes);
    var v := server(n + 1);
    if v.rc == 0 && v.trusted && |next.host| + |next.path| + 12 < 768 {
      TalkAsks(v, next, takes);
      PrefixThen(Asking(u) + [Asked(Prompt(h.meta)), Closed], Asking(next), rest);
    }
  }

  /** A question that gets no answer, or one too long, ends the request. */
  lemma QuestionEnds(server: Server, n: nat, u: Url, redirects: nat, inputs: seq<Typed>, takes: Taker,
                     h: Header, body: string, answer: Typed, ends: string, front: string)
    requires redirects <= 5 && Answers(server(n), u, h, body) && 10 <= h.status < 20
    requires '?' !in front && (u.path == front || front + "?" <= u.path)
    requires inputs != [] ==> Types(inputs[0], answer, ends) && |front| + 1 + |Query.Encode(answer)| >= 512
    ensures Session(server, n, u, redirects, inputs, takes) ==
      (Asking(u) + [Asked(if |h.meta| > 0 then h.meta + " " else "Input: "), Closed],
       Failed(0, false, if inputs == [] then "input aborted" else "query encoding failed"))
  {
    hide Talk, Asking, HeaderLine, Sendable, Deliver, Query.ApplyQuery, Query.Encode, AnswerOf, Prompt, Types;
    TalkAnswers(server(n), u, takes, h, body);
    LongPrompt(h.meta);
    JoinAsked(u, Prompt(h.meta), []);
    if inputs != [] {
      AnswerIs(inputs[0], answer, ends);
      Query.QueryBehindPath(u, front, answer);
    }
  }

  // ----- Ends -----

  /** How a request ends whose connection does not get as far as a header. */
  lemma ConnectionEnds(server: Server, n: nat, u: Url, redirects: nat, inputs: seq<Typed>, takes: Taker)
    requires redirects <= 5
    ensures var v := server(n);
      var r := Session(server, n, u, redirects, inputs, takes);
      var joined := [Connected(u.host, u.port)];
      && (v.rc != 0 ==> r == ([NotConnected], Failed(v.rc, false, "TLS connect failed")))
      && (v.rc == 0 && !v.trusted ==>
            r == (joined + [Rejected, Closed],
                  Failed(0, false, if |v.reason| > 0 then v.reason else "untrusted certificate")))
      && (v.rc == 0 && v.trusted && |u.host| + |u.path| >= 756 ==>
            r == (joined + [Accepted, Closed], Failed(0, false, "request too long")))
      && (v.rc == 0 && v.trusted && |u.host| + |u.path| < 756 && v.written <= 0 ==>
            r == (Asking(u) + [Closed], Failed(0, false, "TLS write failed")))
  {
    hide Replied, RequestText, Asking;
    JoinAsking(u, [Closed]);
    assert [Connected(u.host, u.port)] + [Rejected, Closed] == [Connected(u.host, u.port), Rejected, Closed];
    assert [Connected(u.host, u.port)] + [Accepted, Closed] == [Connected(u.host, u.port), Accepted] + [Closed];
  }

  /** A reply without a line end in its first 1023 characters. */
  lemma NoHeaderEnds(server: Server, n: nat, u: Url, redirects: nat, inputs: seq<Typed>, takes: Taker)
    requires redirects <= 5
    requires var v := server(n); v.rc == 0 && v.trusted && |u.host| + |u.path| + 12 < 768 && v.written > 0
    requires forall m :: 0 <= m <= |server(n).reply| && m <= 1023 ==> !EndsLine(server(n).reply[..m])
    ensures Session(server, n, u, redirects, inputs, takes)
         == (Asking(u) + [Closed], Failed(0, false, "header read failed"))
  {
    hide HeaderEnd, ParseHeader, RequestText, Asking, Answered;
    HeaderEndIs(server(n).reply, 0);
    JoinAsking(u, [Closed]);
  }

  /** A header line that cannot be parsed. */
  lemma BadHeaderEnds(server: Server, n: nat, u: Url, redirects: nat, inputs: seq<Typed>, takes: Taker,
                      line: string, body: string)
    requires redirects <= 5 && ParseHeader(line) == None
    requires var v := server(n);
      v.rc == 0 && v.trusted && |u.host| + |u.path| + 12 < 768 && v.written > 0 && v.reply == line + body
    requires |line| <= 1023 && EndsLine(line) && forall m :: 0 <= m < |line| ==> !EndsLine(line[..m])
    ensures Session(server, n, u, redirects, inputs, takes)
         == (Asking(u) + [Closed], Failed(0, false, "header parse failed"))
  {
    hide HeaderEnd, ParseHeader, RequestText, Asking, Answered;
    var reply := server(n).reply;
    HeaderEndIs(reply, 0);
    assert reply[..|line|] == line;
    assert forall m :: 0 <= m < |line| ==> reply[..m] == line[..m];
    JoinAsking(u, [Closed]);
  }

  /** A reply of any other status ends the request with status and meta; of 20 to 29, once all of the body is
      taken. */
  lemma ReplyEnds(server: Server, n: nat, u: Url, redirects: nat, inputs: seq<Typed>, takes: Taker,
                  h: Header, body: string)
    requires redirects <= 5 && Answers(server(n), u, h, body) && !(10 <= h.status < 20) && !(30 <= h.status < 40)
    ensures var (events, outcome) := Session(server, n, u, redirects, inputs, takes);
      if !(20 <= h.status < 30) then
        events == Asking(u) + [Closed] && outcome == Done(h.status, h.meta, 0)
      else
        var (chunks, ok) := Deliver(body, server(n), 0, 0, takes);
        && events == Asking(u) + (chunks + [Closed])
        && outcome == if ok then Done(h.status, h.meta, |body| % 0x1_0000_0000)
                      else Failed(0, false, "body callback aborted")
  {
    hide Talk, Asking, HeaderLine, Sendable, Deliver;
    TalkAnswers(server(n), u, takes, h, body);
  }
}
