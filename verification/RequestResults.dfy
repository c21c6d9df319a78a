/** What a request returns, and what it asks for. */
module RequestResults {
  import opened Common
  import opened Url
  import opened Reply
  import opened Request
  import opened RequestRuns

  // ----- The body -----

  /** The chunks the caller took, put together. */
  function Delivered(events: Events): string {
    if events == [] then "" else (if events[0].Taken? then events[0].chunk else "") + Delivered(events[1..])
  }

  lemma {:induction false} DeliveredSplit(a: Events, b: Events)
    ensures Delivered(a + b) == Delivered(a) + Delivered(b)
    decreases |a|
  {
    if a == [] {
      assert a + b == b;
    } else {
      assert (a + b)[1..] == a[1..] + b;
      DeliveredSplit(a[1..], b);
      var first := if a[0].Taken? then a[0].chunk else "";
      assert first + (Delivered(a[1..]) + Delivered(b)) == first + Delivered(a[1..]) + Delivered(b);
    }
  }

  lemma DeliveredOne(e: Event)
    ensures Delivered([e]) == if e.Taken? then e.chunk else ""
  {
    assert [e][1..] == [];
    if e.Taken? {
      assert e.chunk + "" == e.chunk;
    }
  }

  lemma NothingDelivered()
    ensures Delivered([]) == ""
  {
  }

  /** The chunks are the body in order: all of it, or a start of it up to the refused chunk. */
  lemma {:induction false} DeliverIsBody(rest: string, v: Visit, j: nat, total: nat, takes: Taker)
    ensures var (events, ok) := Deliver(rest, v, j, total, takes);
      Delivered(events) <= rest && (ok ==> Delivered(events) == rest)
    decreases |rest|
  {
    hide Delivered, Bounded;
    if rest != "" {
      var k := Bounded(v.size(j), |rest|);
      var chunk := rest[..k];
      DeliveredOne(Refused(chunk));
      if takes(total, k) {
        DeliverIsBody(rest[k..], v, j + 1, total + k, takes);
        var more := Deliver(rest[k..], v, j + 1, total + k, takes).0;
        DeliveredOne(Taken(chunk));
        DeliveredSplit([Taken(chunk)], more);
        assert rest == chunk + rest[k..];
      }
    } else {
      NothingDelivered();
    }
  }

  // ----- The result -----

  /** The reply of the connection is this header and then this body. */
  predicate Replies(v: Visit, h: Header, body: string) {
    var end := HeaderEnd(v.reply, 0);
    end.Some? && ParseHeader(v.reply[..end.value]) == Some(h) && body == v.reply[end.value..]
  }

  /** What a finished request tells about its last connection. */
  ghost predicate Tells(v: Visit, outcome: Outcome, delivered: string) {
    outcome.Done? ==>
      exists body :: Replies(v, Header(outcome.status, outcome.meta), body)
        && if 20 <= outcome.status < 30 then delivered == body && outcome.bodyLength == |body| % 0x1_0000_0000
           else delivered == "" && outcome.bodyLength == 0
                && !(10 <= outcome.status < 20) && !(30 <= outcome.status < 40)
  }

  lemma BodyTells(v: Visit, h: Header, rest: string, takes: Taker)
    requires Replies(v, h, rest) && 20 <= h.status < 30
    ensures Tells(v, Body(v, rest, h, takes).1.outcome, Delivered(Body(v, rest, h, takes).0))
  {
    hide Replies, Deliver, Delivered;
    var events := Deliver(rest, v, 0, 0, takes).0;
    DeliverIsBody(rest, v, 0, 0, takes);
    DeliveredSplit(events, [Closed]);
    DeliveredOne(Closed);
    assert Delivered(events) + "" == Delivered(events);
  }

  lemma BodyStops(v: Visit, rest: string, h: Header, takes: Taker)
    ensures Body(v, rest, h, takes).1.Stop?
  {
  }

  lemma OtherTells(v: Visit, h: Header, rest: string)
    requires Replies(v, h, rest) && !(10 <= h.status < 40)
    ensures Tells(v, Done(h.status, h.meta, 0), "")
  {
    hide Replies;
  }

  lemma ErrorTells(v: Visit, outcome: Outcome, delivered: string)
    requires outcome.Failed?
    ensures Tells(v, outcome, delivered)
  {
  }

  lemma RepliedTells(v: Visit, takes: Taker)
    ensures var (events, after) := Replied(v, takes);
      if after.Stop? then Tells(v, after.outcome, Delivered(events)) else Delivered(events) == ""
  {
    hide HeaderEnd, ParseHeader, Body, Delivered, Tells;
    DeliveredOne(Closed);
    NothingDelivered();
    var end := HeaderEnd(v.reply, 0);
    if end.Some? {
      var header := ParseHeader(v.reply[..end.value]);
      if header.Some? {
        var h, rest := header.value, v.reply[end.value..];
        assert Replies(v, h, rest);
        BodyStops(v, rest, h, takes);
        if 20 <= h.status < 30 {
          BodyTells(v, h, rest, takes);
        } else if !(10 <= h.status < 40) {
          OtherTells(v, h, rest);
        }
      }
    }
    ErrorTells(v, Failed(0, false, "header read failed"), "");
    ErrorTells(v, Failed(0, false, "header parse failed"), "");
  }

  lemma TalkTells(v: Visit, u: Url, takes: Taker)
    ensures var (events, after) := Talk(v, u, takes);
      if after.Stop? then Tells(v, after.outcome, Delivered(events)) else Delivered(events) == ""
  {
    hide Replied, Delivered, Tells, RequestText;
    var sent := Sent(RequestText(u));
    var joined := [Connected(u.host, u.port), Accepted];
    DeliveredOne(sent);
    DeliveredOne(Connected(u.host, u.port));
    DeliveredOne(Accepted);
    DeliveredSplit([Connected(u.host, u.port)], [Accepted]);
    assert joined == [Connected(u.host, u.port)] + [Accepted];
    DeliveredSplit(joined, Trusted(v, u, takes).0);
    DeliveredSplit([sent], Replied(v, takes).0);
    assert "" + Delivered(Replied(v, takes).0) == Delivered(Replied(v, takes).0);
    RepliedTells(v, takes);
    var after := Talk(v, u, takes).1;
    if after.Stop? && after.outcome.Failed? {
      ErrorTells(v, after.outcome, Delivered(Talk(v, u, takes).0));
    }
  }

  lemma DoneConnects(v: Visit, u: Url, takes: Taker)
    requires var after := Talk(v, u, takes).1; after.Stop? && after.outcome.Done?
    ensures Opens(Talk(v, u, takes).0) == 1
  {
    hide Trusted, Opens;
    var joined := [Connected(u.host, u.port), Accepted];
    OneCounts(Connected(u.host, u.port));
    OneCounts(Accepted);
    TwoCounts(Connected(u.host, u.port), Accepted);
    TrustedCounts(v, u, takes);
    CountSplit(joined, Trusted(v, u, takes).0);
  }

  lemma QuietTail(events: Events, a: Event, b: Event)
    requires !a.Taken? && !b.Taken? && !a.Connected? && !b.Connected?
    ensures Delivered(events + [a, b]) == Delivered(events) && Opens(events + [a, b]) == Opens(events)
  {
    hide Delivered, Opens, Turns;
    assert [a, b] == [a] + [b];
    DeliveredSplit(events, [a, b]);
    DeliveredSplit([a], [b]);
    DeliveredOne(a);
    DeliveredOne(b);
    CountSplit(events, [a, b]);
    OneCounts(a);
    OneCounts(b);
    TwoCounts(a, b);
    assert Delivered(events) + "" == Delivered(events);
  }

  lemma AfterQuiet(before: Events, more: Events)
    requires Delivered(before) == "" && Opens(before) == 1
    ensures Delivered(before + more) == Delivered(more) && Opens(before + more) == 1 + Opens(more)
  {
    hide Delivered, Opens, Turns;
    DeliveredSplit(before, more);
    CountSplit(before, more);
    assert "" + Delivered(more) == Delivered(more);
  }

  /** A finished request reports the status and meta of its last connection; on success the body taken is
      exactly what followed the header, and its length is reported modulo 2^32. */
  lemma {:induction false} SessionTells(server: Server, n: nat, u: Url, redirects: nat, inputs: seq<Typed>,
                                        takes: Taker)
    requires redirects <= 5
    ensures var (events, outcome) := Session(server, n, u, redirects, inputs, takes);
      outcome.Done? ==> Opens(events) >= 1 && Tells(server(n + Opens(events) - 1), outcome, Delivered(events))
    decreases |inputs| + 5 - redirects
  {
    hide Talk, Tells, Opens, Turns, Delivered, Query.ApplyQuery, ResolveUrl, AnswerOf, Prompt;
    var (events, after) := Talk(server(n), u, takes);
    TalkCounts(server(n), u, takes);
    TalkTells(server(n), u, takes);
    match after
    case Stop(outcome) =>
      if outcome.Done? {
        DoneConnects(server(n), u, takes);
      }
    case Question(meta) =>
      var asked := events + [Asked(Prompt(meta)), Closed];
      QuietTail(events, Asked(Prompt(meta)), Closed);
      if inputs != [] {
        var next := Query.ApplyQuery(u, AnswerOf(inputs[0]));
        if next.Some? {
          SessionTells(server, n + 1, next.value, redirects, inputs[1..], takes);
          AfterQuiet(asked, Session(server, n + 1, next.value, redirects, inputs[1..], takes).0);
        }
      }
    case Elsewhere(meta) =>
      var closed := events + [Closed, Redirected];
      QuietTail(events, Closed, Redirected);
      if redirects < 5 {
        var next := ResolveUrl(u, meta);
        if next.Some? {
          SessionTells(server, n + 1, next.value, redirects + 1, inputs, takes);
          AfterQuiet(closed, Session(server, n + 1, next.value, redirects + 1, inputs, takes).0);
        }
      }
  }

  // ----- A buffer for the body -----

  /** The caller that copies the body into a buffer. Its count and its sum have 32 bits. */
  function Buffer(max: nat): Taker {
    (total, k) => (total % 0x1_0000_0000 + k) % 0x1_0000_0000 <= max
  }

  lemma NoWrap(total: nat, k: nat, max: nat)
    requires total <= max && k <= 512 && max + 512 < 0x1_0000_0000
    ensures Buffer(max)(total, k) <==> total + k <= max
  {
  }

  lemma {:induction false} BufferDelivers(rest: string, v: Visit, j: nat, total: nat, max: nat)
    requires total <= max && max + 512 < 0x1_0000_0000
    ensures Deliver(rest, v, j, total, Buffer(max)).1 <==> total + |rest| <= max
    decreases |rest|
  {
    hide Bounded, Buffer;
    if rest != "" {
      var k := Bounded(v.size(j), |rest|);
      NoWrap(total, k, max);
      if total + k <= max {
        BufferDelivers(rest[k..], v, j + 1, total + k, max);
      }
    }
  }

  /** However it arrives, a body is accepted just when it fits the buffer, if that ends more than a chunk below
      4 GiB. */
  lemma BufferHolds(v: Visit, h: Header, rest: string, max: nat)
    requires 20 <= h.status < 30 && max + 512 < 0x1_0000_0000
    ensures Answered(v, h, rest, Buffer(max)).1 ==
      if |rest| <= max then Stop(Done(h.status, h.meta, |rest| % 0x1_0000_0000)) else Error("body callback aborted")
  {
    hide Deliver, Buffer;
    BufferDelivers(rest, v, 0, 0, max);
  }

  lemma WrapTakes(total: nat, n: nat, max: nat)
    requires n > 0 && total + 512 * n == 0x1_0000_0000 && 0x1_0000_0000 <= max + 512
    ensures Buffer(max)(total, 512)
  {
  }

  /** Chunk by chunk up to 4 GiB, the last one wraps. */
  lemma {:induction false} WrapDelivers(rest: string, v: Visit, j: nat, total: nat, n: nat, max: nat)
    requires (forall i: nat :: v.size(i) == 512) && |rest| == 512 * n
    requires total + 512 * n == 0x1_0000_0000 && 0x1_0000_0000 <= max + 512
    ensures Deliver(rest, v, j, total, Buffer(max)).1
    decreases n
  {
    hide Buffer;
    if n > 0 {
      WrapTakes(total, n, max);
      WrapDelivers(rest[512..], v, j + 1, total + 512, n - 1, max);
    }
  }

  ghost predicate Accepts(v: Visit, h: Header, rest: string, max: nat) {
    Answered(v, h, rest, Buffer(max)).1 == Stop(Done(h.status, h.meta, |rest| % 0x1_0000_0000))
  }

  lemma WrapAccepts(v: Visit, h: Header, max: nat)
    requires (forall i: nat :: v.size(i) == 512) && 20 <= h.status < 30 && 0x1_0000_0000 <= max + 512
    ensures Accepts(v, h, seq(0x1_0000_0000, _ => 'x'), max)
  {
    hide Deliver, Buffer;
    WrapDelivers(seq(0x1_0000_0000, _ => 'x'), v, 0, 0, 8388608, max);
  }

  /** Exactly such buffers accept just the bodies that fit: any larger one is overrun by some body. */
  lemma BufferHoldsExactly(max: nat)
    requires 0 < max < 0x1_0000_0000
    ensures (forall v: Visit, h: Header, rest: string ::
               20 <= h.status < 30 ==> (Accepts(v, h, rest, max) <==> |rest| <= max))
       <==> max + 512 < 0x1_0000_0000
  {
    hide Answered, Buffer;
    if max + 512 < 0x1_0000_0000 {
      forall v: Visit, h: Header, rest: string | 20 <= h.status < 30
        ensures Accepts(v, h, rest, max) <==> |rest| <= max
      {
        BufferHolds(v, h, rest, max);
      }
    } else {
      var v, h := Visit(0, true, "", 0, "", _ => 512), Header(20, "");
      WrapAccepts(v, h, max);
      assert |seq(0x1_0000_0000, _ => 'x')| > max;
    }
  }

  // ----- The redirect limit -----

  /** No error ever carries the redirect flag, although the limit can be reached. */
  lemma {:induction false} FlagNeverSet(server: Server, n: nat, u: Url, redirects: nat, inputs: seq<Typed>,
                                        takes: Taker)
    requires redirects <= 5
    ensures var outcome := Session(server, n, u, redirects, inputs, takes).1; outcome.Failed? ==> !outcome.redirectLimit
    decreases |inputs| + 5 - redirects
  {
    hide Talk, Query.ApplyQuery, ResolveUrl, AnswerOf, Prompt;
    TalkError(server(n), u, takes);
    match Talk(server(n), u, takes).1
    case Stop(_) =>
    case Question(meta) =>
      if inputs != [] {
        var next := Query.ApplyQuery(u, AnswerOf(inputs[0]));
        if next.Some? {
          FlagNeverSet(server, n + 1, next.value, redirects, inputs[1..], takes);
        }
      }
    case Elsewhere(meta) =>
      if redirects < 5 {
        var next := ResolveUrl(u, meta);
        if next.Some? {
          FlagNeverSet(server, n + 1, next.value, redirects + 1, inputs, takes);
        }
      }
  }

  /** A connection that redirects to the same page. */
  predicate SendsBack(v: Visit) {
    v.rc == 0 && v.trusted && v.written > 0 && v.reply == HeaderLine(Header(30, ""))
  }

  lemma BackToSame(v: Visit, u: Url, takes: Taker)
    requires SendsBack(v) && |u.host| + |u.path| + 12 < 768
    ensures Talk(v, u, takes).1 == Elsewhere("")
  {
    hide HeaderEnd, ParseHeader, HeaderLine;
    var h := Header(30, "");
    ReplyReads(h, "");
    assert HeaderLine(h) + "" == HeaderLine(h);
  }

  /** Against a server that always redirects, the request ends at the limit, and the flag is not set. */
  lemma {:induction false} LimitReached(server: Server, n: nat, u: Url, redirects: nat, inputs: seq<Typed>,
                                        takes: Taker)
    requires redirects <= 5 && |u.host| + |u.path| + 12 < 768 && forall m :: SendsBack(server(m))
    ensures Session(server, n, u, redirects, inputs, takes).1 == Failed(0, false, "redirect limit exceeded")
    decreases 5 - redirects
  {
    hide Talk, SendsBack;
    BackToSame(server(n), u, takes);
    assert ResolveUrl(u, "") == Some(u);
    if redirects < 5 {
      LimitReached(server, n + 1, u, redirects + 1, inputs, takes);
    }
  }

  // ----- What is asked for -----

  /** A request sent is for a URL with a rooted path under 512 characters. */
  ghost predicate AsksWell(e: Event) {
    e.Sent? ==> exists u :: UrlOk(u) && e.text == RequestText(u)
  }

  ghost predicate AllAskWell(events: Events) { forall k :: 0 <= k < |events| ==> AsksWell(events[k]) }

  predicate Silent(events: Events) { forall k :: 0 <= k < |events| ==> !events[k].Sent? }

  lemma {:induction false} DeliverIsSilent(rest: string, v: Visit, j: nat, total: nat, takes: Taker)
    ensures Silent(Deliver(rest, v, j, total, takes).0)
    decreases |rest|
  {
    if rest != "" {
      var k := Bounded(v.size(j), |rest|);
      if takes(total, k) {
        DeliverIsSilent(rest[k..], v, j + 1, total + k, takes);
      }
    }
  }

  lemma RepliedIsSilent(v: Visit, takes: Taker)
    ensures Silent(Replied(v, takes).0)
  {
    hide Deliver, HeaderEnd, ParseHeader;
    var end := HeaderEnd(v.reply, 0);
    if end.Some? {
      DeliverIsSilent(v.reply[end.value..], v, 0, 0, takes);
    }
  }

  lemma SentAsksWell(u: Url)
    requires UrlOk(u)
    ensures AsksWell(Sent(RequestText(u)))
  {
    hide UrlOk, RequestText;
  }

  lemma QuietAsksWell(e: Event)
    requires !e.Sent?
    ensures AsksWell(e) && AllAskWell([e])
  {
  }

  lemma SilentAsksWell(events: Events)
    requires Silent(events)
    ensures AllAskWell(events)
  {
  }

  lemma AskSplit(a: Events, b: Events)
    requires AllAskWell(a) && AllAskWell(b)
    ensures AllAskWell(a + b)
  {
    hide AsksWell;
  }

  lemma TrustedAsksWell(v: Visit, u: Url, takes: Taker)
    requires UrlOk(u)
    ensures AllAskWell(Trusted(v, u, takes).0)
  {
    hide Replied, RequestText, UrlOk;
    var sent := [Sent(RequestText(u))];
    SentAsksWell(u);
    hide AsksWell;
    QuietAsksWell(Closed);
    RepliedIsSilent(v, takes);
    SilentAsksWell(Replied(v, takes).0);
    AskSplit(sent, Replied(v, takes).0);
    AskSplit(sent, [Closed]);
  }

  lemma TalkAsksWell(v: Visit, u: Url, takes: Taker)
    requires UrlOk(u)
    ensures AllAskWell(Talk(v, u, takes).0)
  {
    hide Trusted, AllAskWell, UrlOk;
    SilentAsksWell([NotConnected]);
    SilentAsksWell([Connected(u.host, u.port), Rejected, Closed]);
    SilentAsksWell([Connected(u.host, u.port), Accepted]);
    TrustedAsksWell(v, u, takes);
    AskSplit([Connected(u.host, u.port), Accepted], Trusted(v, u, takes).0);
  }

  /** Whatever the redirects and the answers, every request line asks for a well-formed URL. */
  lemma {:induction false} SessionAsksWell(server: Server, n: nat, u: Url, redirects: nat, inputs: seq<Typed>,
                                           takes: Taker)
    requires redirects <= 5 && UrlOk(u)
    ensures AllAskWell(Session(server, n, u, redirects, inputs, takes).0)
    decreases |inputs| + 5 - redirects
  {
    hide Talk, AllAskWell, UrlOk, Query.ApplyQuery, ResolveUrl, AnswerOf, Prompt;
    var (events, after) := Talk(server(n), u, takes);
    TalkAsksWell(server(n), u, takes);
    match after
    case Stop(_) =>
    case Question(meta) =>
      var asked := [Asked(Prompt(meta)), Closed];
      SilentAsksWell(asked);
      AskSplit(events, asked);
      if inputs != [] {
        QueryOk(u, AnswerOf(inputs[0]));
        var next := Query.ApplyQuery(u, AnswerOf(inputs[0]));
        if next.Some? {
          SessionAsksWell(server, n + 1, next.value, redirects, inputs[1..], takes);
          AskSplit(events + asked, Session(server, n + 1, next.value, redirects, inputs[1..], takes).0);
        }
      }
    case Elsewhere(meta) =>
      SilentAsksWell([Closed]);
      SilentAsksWell([Closed, Redirected]);
      AskSplit(events, [Closed]);
      AskSplit(events, [Closed, Redirected]);
      if redirects < 5 {
        ResolveOk(u, meta);
        var next := ResolveUrl(u, meta);
        if next.Some? {
          SessionAsksWell(server, n + 1, next.value, redirects + 1, inputs, takes);
          AskSplit(events + [Closed, Redirected], Session(server, n + 1, next.value, redirects + 1, inputs, takes).0);
        }
      }
  }
}
