/** What holds of every request, whatever the server and the user do. */
module RequestRuns {
  import opened UrlPath
  import opened Url
  import opened Reply
  import opened Request

  // ----- The order of events -----

  /** Between connections; connected; with an accepted certificate; with the request sent; with a rejected
      certificate. */
  datatype Phase = Idle | Open(host: string) | Cleared(host: string) | Waiting(host: string) | Barred | Wrong

  /** The request line for some path on the host; a rooted one when `rooted`. */
  ghost predicate AsksHost(rooted: bool, text: string, host: string) {
    exists path: string :: text == RequestText(Url(host, 0, path)) && (rooted ==> Rooted(path))
  }

  /** One request is sent on a connection, to the host it goes to, after its certificate is accepted; chunks and
      questions come only after that. */
  ghost function Advance(rooted: bool, p: Phase, e: Event): Phase {
    match e
    case Connected(host, _) => if p.Idle? then Open(host) else Wrong
    case NotConnected => if p.Idle? then Idle else Wrong
    case Accepted => if p.Open? then Cleared(p.host) else Wrong
    case Rejected => if p.Open? then Barred else Wrong
    case Sent(text) => if p.Cleared? && AsksHost(rooted, text, p.host) then Waiting(p.host) else Wrong
    case Taken(_) => if p.Waiting? then p else Wrong
    case Refused(_) => if p.Waiting? then p else Wrong
    case Asked(_) => if p.Waiting? then p else Wrong
    case Closed => if p.Idle? || p.Wrong? then Wrong else Idle
    case Redirected => if p.Idle? then Idle else Wrong
  }

  ghost function Follow(rooted: bool, p: Phase, events: Events): Phase
    decreases |events|
  {
    if events == [] then p else Follow(rooted, Advance(rooted, p, events[0]), events[1..])
  }

  lemma {:induction false} FollowSplit(rooted: bool, p: Phase, a: Events, b: Events)
    ensures Follow(rooted, p, a + b) == Follow(rooted, Follow(rooted, p, a), b)
    decreases |a|
  {
    hide Advance;
    if a == [] {
      assert a + b == b;
    } else {
      assert (a + b)[1..] == a[1..] + b;
      FollowSplit(rooted, Advance(rooted, p, a[0]), a[1..], b);
    }
  }

  lemma FollowOne(rooted: bool, p: Phase, e: Event)
    ensures Follow(rooted, p, [e]) == Advance(rooted, p, e)
  {
    hide Advance;
    assert [e][1..] == [];
  }

  lemma FollowTwo(rooted: bool, p: Phase, a: Event, b: Event)
    ensures Follow(rooted, p, [a, b]) == Advance(rooted, Advance(rooted, p, a), b)
  {
    hide Advance, Follow;
    assert [a, b] == [a] + [b];
    FollowSplit(rooted, p, [a], [b]);
    FollowOne(rooted, p, a);
    FollowOne(rooted, Advance(rooted, p, a), b);
  }

  lemma {:induction false} DeliverKeepsPhase(rooted: bool, p: Phase, rest: string, v: Visit, j: nat, total: nat,
                                             takes: Taker)
    requires p.Waiting?
    ensures Follow(rooted, p, Deliver(rest, v, j, total, takes).0) == p
    decreases |rest|
  {
    if rest != "" {
      var k := Bounded(v.size(j), |rest|);
      if takes(total, k) {
        DeliverKeepsPhase(rooted, p, rest[k..], v, j + 1, total + k, takes);
        var more := Deliver(rest[k..], v, j + 1, total + k, takes).0;
        FollowOne(rooted, p, Taken(rest[..k]));
        FollowSplit(rooted, p, [Taken(rest[..k])], more);
      } else {
        FollowOne(rooted, p, Refused(rest[..k]));
      }
    }
  }

  /** After the request, a connection either closes or waits for what the caller does next. */
  predicate EndsWell(p: Phase, after: After) { if after.Stop? then p.Idle? else p.Waiting? }

  lemma AnsweredEnds(rooted: bool, p: Phase, v: Visit, h: Header, rest: string, takes: Taker)
    requires p.Waiting?
    ensures EndsWell(Follow(rooted, p, Answered(v, h, rest, takes).0), Answered(v, h, rest, takes).1)
  {
    hide Deliver;
    if 20 <= h.status < 30 {
      var events := Deliver(rest, v, 0, 0, takes).0;
      DeliverKeepsPhase(rooted, p, rest, v, 0, 0, takes);
      FollowSplit(rooted, p, events, [Closed]);
    }
    FollowOne(rooted, p, Closed);
  }

  lemma RepliedEnds(rooted: bool, p: Phase, v: Visit, takes: Taker)
    requires p.Waiting?
    ensures EndsWell(Follow(rooted, p, Replied(v, takes).0), Replied(v, takes).1)
  {
    hide Answered, HeaderEnd, ParseHeader;
    FollowOne(rooted, p, Closed);
    var end := HeaderEnd(v.reply, 0);
    if end.Some? {
      var header := ParseHeader(v.reply[..end.value]);
      if header.Some? {
        AnsweredEnds(rooted, p, v, header.value, v.reply[end.value..], takes);
      }
    }
  }

  lemma RequestAsksHost(rooted: bool, u: Url)
    requires rooted ==> UrlOk(u)
    ensures AsksHost(rooted, RequestText(u), u.host)
  {
    assert RequestText(u) == RequestText(Url(u.host, 0, u.path));
  }

  lemma TrustedEnds(rooted: bool, v: Visit, u: Url, takes: Taker)
    requires rooted ==> UrlOk(u)
    ensures EndsWell(Follow(rooted, Cleared(u.host), Trusted(v, u, takes).0), Trusted(v, u, takes).1)
  {
    hide Replied, RequestText, UrlOk, AsksHost;
    var p, sent := Cleared(u.host), Sent(RequestText(u));
    RequestAsksHost(rooted, u);
    FollowOne(rooted, p, Closed);
    FollowTwo(rooted, p, sent, Closed);
    FollowOne(rooted, p, sent);
    assert [sent] + [Closed] == [sent, Closed];
    RepliedEnds(rooted, Waiting(u.host), v, takes);
    FollowSplit(rooted, p, [sent], Replied(v, takes).0);
  }

  lemma TalkEnds(rooted: bool, v: Visit, u: Url, takes: Taker)
    requires rooted ==> UrlOk(u)
    ensures EndsWell(Follow(rooted, Idle, Talk(v, u, takes).0), Talk(v, u, takes).1)
  {
    hide Trusted, Follow, UrlOk, AsksHost;
    var joined := Connected(u.host, u.port);
    FollowOne(rooted, Idle, NotConnected);
    FollowTwo(rooted, Idle, joined, Accepted);
    FollowTwo(rooted, Idle, joined, Rejected);
    FollowSplit(rooted, Idle, [joined, Rejected], [Closed]);
    FollowOne(rooted, Barred, Closed);
    assert [joined, Rejected] + [Closed] == [joined, Rejected, Closed];
    TrustedEnds(rooted, v, u, takes);
    FollowSplit(rooted, Idle, [joined, Accepted], Trusted(v, u, takes).0);
  }

  /** A query keeps the URL in shape. */
  lemma QueryOk(u: Url, query: Query.Bytes)
    requires UrlOk(u)
    ensures var next := Query.ApplyQuery(u, query); next.Some? ==> UrlOk(next.value)
  {
    hide Query.Encode;
    var k := IndexOf(u.path, '?');
    assert u.path[0] == '/';
    assert k > 0;
    var next := Query.ApplyQuery(u, query);
    if next.Some? {
      assert next.value.path[0] == u.path[0];
    }
  }

  /** Every run goes through the phases in order and ends with no connection open; from a well-formed URL on, every
      request is for a rooted path. */
  lemma {:induction false} SessionIsSafe(rooted: bool, server: Server, n: nat, u: Url, redirects: nat,
                                         inputs: seq<Typed>,
                                         takes: Taker)
    requires redirects <= 5 && (rooted ==> UrlOk(u))
    ensures Follow(rooted, Idle, Session(server, n, u, redirects, inputs, takes).0) == Idle
    decreases |inputs| + 5 - redirects
  {
    hide Talk, Follow, Query.ApplyQuery, ResolveUrl, AnswerOf, Prompt, UrlOk, AsksHost;
    var (events, after) := Talk(server(n), u, takes);
    TalkEnds(rooted, server(n), u, takes);
    var p := Follow(rooted, Idle, events);
    match after
    case Stop(_) =>
    case Question(meta) =>
      var asked := [Asked(Prompt(meta)), Closed];
      FollowTwo(rooted, p, Asked(Prompt(meta)), Closed);
      FollowSplit(rooted, Idle, events, asked);
      if inputs != [] {
        var next := Query.ApplyQuery(u, AnswerOf(inputs[0]));
        if next.Some? {
          if rooted {
            QueryOk(u, AnswerOf(inputs[0]));
          }
          SessionIsSafe(rooted, server, n + 1, next.value, redirects, inputs[1..], takes);
          FollowSplit(rooted, Idle, events + asked,
                      Session(server, n + 1, next.value, redirects, inputs[1..], takes).0);
        }
      }
    case Elsewhere(meta) =>
      FollowOne(rooted, p, Closed);
      FollowTwo(rooted, p, Closed, Redirected);
      FollowSplit(rooted, Idle, events, [Closed]);
      FollowSplit(rooted, Idle, events, [Closed, Redirected]);
      if redirects < 5 {
        var next := ResolveUrl(u, meta);
        if next.Some? {
          if rooted {
            ResolveOk(u, meta);
          }
          SessionIsSafe(rooted, server, n + 1, next.value, redirects + 1, inputs, takes);
          FollowSplit(rooted, Idle, events + [Closed, Redirected],
                      Session(server, n + 1, next.value, redirects + 1, inputs, takes).0);
        }
      }
  }

  // ----- What the order means -----

  function Opens(events: Events): nat {
    if events == [] then 0 else (if events[0].Connected? then 1 else 0) + Opens(events[1..])
  }

  function Closes(events: Events): nat {
    if events == [] then 0 else (if events[0].Closed? then 1 else 0) + Closes(events[1..])
  }

  function Held(p: Phase): nat { if p.Idle? then 0 else 1 }

  lemma {:induction false} WrongStays(rooted: bool, events: Events)
    ensures Follow(rooted, Wrong, events) == Wrong
  {
    if events != [] {
      WrongStays(rooted, events[1..]);
    }
  }

  lemma {:induction false} Balance(rooted: bool, p: Phase, events: Events)
    requires Follow(rooted, p, events) != Wrong
    ensures Held(p) + Opens(events) == Closes(events) + Held(Follow(rooted, p, events))
    decreases |events|
  {
    hide AsksHost;
    if events != [] {
      var next := Advance(rooted, p, events[0]);
      if next == Wrong {
        WrongStays(rooted, events[1..]);
      }
      Balance(rooted, next, events[1..]);
    }
  }

  lemma PrefixIsRight(rooted: bool, p: Phase, events: Events, k: nat)
    requires k <= |events| && Follow(rooted, p, events) != Wrong
    ensures Follow(rooted, p, events[..k]) != Wrong
  {
    hide Follow;
    assert events == events[..k] + events[k..];
    FollowSplit(rooted, p, events[..k], events[k..]);
    WrongStays(rooted, events[k..]);
  }

  lemma EmptyBalance()
    ensures Held(Idle) == 0
  {
  }

  /** At every moment of a run at most one connection is open, and at its end each has been closed once. */
  lemma OneConnection(server: Server, u: Url, inputs: seq<Typed>, takes: Taker, k: nat)
    ensures var events := Session(server, 0, u, 0, inputs, takes).0;
      && (k <= |events| ==> Closes(events[..k]) <= Opens(events[..k]) <= Closes(events[..k]) + 1)
      && Opens(events) == Closes(events)
  {
    hide Session, Follow, Opens, Closes, UrlOk;
    var events := Session(server, 0, u, 0, inputs, takes).0;
    SessionIsSafe(false, server, 0, u, 0, inputs, takes);
    Balance(false, Idle, events);
    if k <= |events| {
      PrefixIsRight(false, Idle, events, k);
      Balance(false, Idle, events[..k]);
    }
    EmptyBalance();
  }

  function Requests(events: Events): nat {
    if events == [] then 0 else (if events[0].Sent? then 1 else 0) + Requests(events[1..])
  }

  /** A connection on which nothing was sent yet. */
  function Unused(p: Phase): nat { if p.Open? || p.Cleared? then 1 else 0 }

  lemma {:induction false} RequestBalance(rooted: bool, p: Phase, events: Events)
    requires Follow(rooted, p, events) != Wrong
    ensures Requests(events) + Unused(Follow(rooted, p, events)) <= Opens(events) + Unused(p)
    decreases |events|
  {
    hide AsksHost;
    if events != [] {
      var next := Advance(rooted, p, events[0]);
      if next == Wrong {
        WrongStays(rooted, events[1..]);
      }
      RequestBalance(rooted, next, events[1..]);
    }
  }

  /** At every moment no more requests were sent than connections opened. */
  lemma OneRequestEach(server: Server, u: Url, inputs: seq<Typed>, takes: Taker, k: nat)
    requires k <= |Session(server, 0, u, 0, inputs, takes).0|
    ensures var events := Session(server, 0, u, 0, inputs, takes).0; Requests(events[..k]) <= Opens(events[..k])
  {
    hide Session, Follow, Opens, Requests, UrlOk;
    var events := Session(server, 0, u, 0, inputs, takes).0;
    SessionIsSafe(false, server, 0, u, 0, inputs, takes);
    PrefixIsRight(false, Idle, events, k);
    RequestBalance(false, Idle, events[..k]);
  }

  /** The connection to `host` was opened at `j`, and none was opened or closed since. */
  predicate OpenedAt(events: Events, j: nat, k: nat, host: string) {
    && j < k <= |events| && events[j].Connected? && events[j].host == host
    && forall m :: j < m < k ==> !events[m].Connected? && !events[m].Closed?
  }

  /** At `j` the certificate of that connection was accepted. */
  predicate ClearedBy(events: Events, j: nat, k: nat) {
    j < k <= |events| && events[j].Accepted? && forall m :: j < m < k ==> !events[m].Connected? && !events[m].Closed?
  }

  /** At `j` a request was sent, and since then no other, nor was a connection opened or closed. */
  predicate SentBy(events: Events, j: nat, k: nat) {
    && j < k <= |events| && events[j].Sent?
    && forall m :: j < m < k ==> !events[m].Connected? && !events[m].Closed? && !events[m].Sent?
  }

  /** A phase with a host comes from opening the connection to it, an accepted phase from its certificate, and
      waiting from a request. */
  ghost predicate Comes(events: Events, p: Phase) {
    && (p.Open? || p.Cleared? || p.Waiting? ==> exists j: nat :: OpenedAt(events, j, |events|, p.host))
    && (p.Cleared? || p.Waiting? ==> exists j: nat :: ClearedBy(events, j, |events|))
    && (p.Waiting? ==> exists j: nat :: SentBy(events, j, |events|))
  }

  lemma NothingComes(rooted: bool)
    ensures Comes([], Follow(rooted, Idle, []))
  {
  }

  lemma OpenedNow(front: Events, last: Event)
    requires last.Connected?
    ensures OpenedAt(front + [last], |front|, |front| + 1, last.host)
  {
  }

  lemma StillOpen(front: Events, last: Event, j: nat, host: string)
    requires OpenedAt(front, j, |front|, host) && !last.Connected? && !last.Closed?
    ensures OpenedAt(front + [last], j, |front| + 1, host)
  {
  }

  lemma ClearedNow(front: Events, last: Event)
    requires last.Accepted?
    ensures ClearedBy(front + [last], |front|, |front| + 1)
  {
  }

  lemma StillCleared(front: Events, last: Event, j: nat)
    requires ClearedBy(front, j, |front|) && !last.Connected? && !last.Closed?
    ensures ClearedBy(front + [last], j, |front| + 1)
  {
  }

  lemma SentNow(front: Events, last: Event)
    requires last.Sent?
    ensures SentBy(front + [last], |front|, |front| + 1)
  {
  }

  lemma StillSent(front: Events, last: Event, j: nat)
    requires SentBy(front, j, |front|) && !last.Connected? && !last.Closed? && !last.Sent?
    ensures SentBy(front + [last], j, |front| + 1)
  {
  }

  lemma StepComes(rooted: bool, front: Events, last: Event, p: Phase)
    requires Comes(front, p)
    ensures Comes(front + [last], Advance(rooted, p, last))
  {
    hide AsksHost, OpenedAt, ClearedBy, SentBy;
    var q := Advance(rooted, p, last);
    if q.Open? {
      OpenedNow(front, last);
    } else if q.Cleared? || q.Waiting? {
      var j: nat :| OpenedAt(front, j, |front|, p.host);
      StillOpen(front, last, j, p.host);
      if last.Accepted? {
        ClearedNow(front, last);
      } else {
        var i: nat :| ClearedBy(front, i, |front|);
        StillCleared(front, last, i);
      }
      if last.Sent? {
        SentNow(front, last);
      } else if q.Waiting? {
        var i: nat :| SentBy(front, i, |front|);
        StillSent(front, last, i);
      }
    }
  }

  lemma {:induction false} PhaseComes(rooted: bool, events: Events)
    ensures Comes(events, Follow(rooted, Idle, events))
    decreases |events|
  {
    hide Follow, Advance, Comes;
    if events == [] {
      NothingComes(rooted);
    } else {
      var front, last := events[..|events| - 1], events[|events| - 1];
      assert events == front + [last];
      FollowSplit(rooted, Idle, front, [last]);
      FollowOne(rooted, Follow(rooted, Idle, front), last);
      PhaseComes(rooted, front);
      StepComes(rooted, front, last, Follow(rooted, Idle, front));
    }
  }

  lemma SentEarlier(events: Events, j: nat, k: nat)
    requires k <= |events| && SentBy(events[..k], j, k)
    ensures SentBy(events, j, k)
  {
    assert forall m :: 0 <= m < k ==> events[..k][m] == events[m];
  }

  lemma OpenedEarlier(events: Events, j: nat, k: nat, host: string)
    requires k <= |events| && OpenedAt(events[..k], j, k, host)
    ensures OpenedAt(events, j, k, host)
  {
    assert forall m :: 0 <= m < k ==> events[..k][m] == events[m];
  }

  lemma ClearedEarlier(events: Events, j: nat, k: nat)
    requires k <= |events| && ClearedBy(events[..k], j, k)
    ensures ClearedBy(events, j, k)
  {
    assert forall m :: 0 <= m < k ==> events[..k][m] == events[m];
  }

  /** The phase in which event `k` of a run happens, and that it is in order. */
  lemma PhaseAt(rooted: bool, server: Server, u: Url, inputs: seq<Typed>, takes: Taker, k: nat)
    requires rooted ==> UrlOk(u)
    requires k < |Session(server, 0, u, 0, inputs, takes).0|
    ensures var events := Session(server, 0, u, 0, inputs, takes).0;
      var p := Follow(rooted, Idle, events[..k]);
      Comes(events[..k], p) && Advance(rooted, p, events[k]) != Wrong
  {
    hide Session, Follow, Comes, UrlOk, Advance;
    var events := Session(server, 0, u, 0, inputs, takes).0;
    SessionIsSafe(rooted, server, 0, u, 0, inputs, takes);
    PrefixIsRight(rooted, Idle, events, k + 1);
    assert events[..k + 1] == events[..k] + [events[k]];
    FollowSplit(rooted, Idle, events[..k], [events[k]]);
    FollowOne(rooted, Follow(rooted, Idle, events[..k]), events[k]);
    PhaseComes(rooted, events[..k]);
  }

  /** Nothing is sent before the certificate check accepts that connection. */
  lemma NothingSentUnchecked(server: Server, u: Url, inputs: seq<Typed>, takes: Taker, k: nat)
    requires var events := Session(server, 0, u, 0, inputs, takes).0; k < |events| && events[k].Sent?
    ensures var events := Session(server, 0, u, 0, inputs, takes).0; exists j: nat :: ClearedBy(events, j, k)
  {
    hide Session, Follow, ClearedBy, OpenedAt, UrlOk, AsksHost;
    var events := Session(server, 0, u, 0, inputs, takes).0;
    PhaseAt(false, server, u, inputs, takes, k);
    var j: nat :| ClearedBy(events[..k], j, |events[..k]|);
    ClearedEarlier(events, j, k);
  }

  /** No chunk is handed over and no question asked before the one request of that connection was sent. */
  lemma NothingTakenUnasked(server: Server, u: Url, inputs: seq<Typed>, takes: Taker, k: nat)
    requires var events := Session(server, 0, u, 0, inputs, takes).0;
      k < |events| && (events[k].Taken? || events[k].Refused? || events[k].Asked?)
    ensures var events := Session(server, 0, u, 0, inputs, takes).0; exists j: nat :: SentBy(events, j, k)
  {
    hide Session, Follow, ClearedBy, OpenedAt, SentBy, UrlOk, AsksHost;
    var events := Session(server, 0, u, 0, inputs, takes).0;
    PhaseAt(false, server, u, inputs, takes, k);
    var j: nat :| SentBy(events[..k], j, |events[..k]|);
    SentEarlier(events, j, k);
  }

  /** From a well-formed URL on, every request is for a rooted path on the host it was connected to. */
  lemma SentToItsHost(server: Server, u: Url, inputs: seq<Typed>, takes: Taker, k: nat)
    requires UrlOk(u)
    requires var events := Session(server, 0, u, 0, inputs, takes).0; k < |events| && events[k].Sent?
    ensures var events := Session(server, 0, u, 0, inputs, takes).0;
      exists j: nat, host :: OpenedAt(events, j, k, host) && AsksHost(true, events[k].text, host)
  {
    hide Session, Follow, ClearedBy, OpenedAt, UrlOk, AsksHost;
    var events := Session(server, 0, u, 0, inputs, takes).0;
    PhaseAt(true, server, u, inputs, takes, k);
    var host := Follow(true, Idle, events[..k]).host;
    var j: nat :| OpenedAt(events[..k], j, |events[..k]|, host);
    OpenedEarlier(events, j, k, host);
  }

  // ----- How many -----

  function Turns(events: Events): nat {
    if events == [] then 0 else (if events[0].Redirected? then 1 else 0) + Turns(events[1..])
  }

  lemma {:induction false} CountSplit(a: Events, b: Events)
    ensures Opens(a + b) == Opens(a) + Opens(b) && Turns(a + b) == Turns(a) + Turns(b)
    decreases |a|
  {
    if a == [] {
      assert a + b == b;
    } else {
      assert (a + b)[1..] == a[1..] + b;
      CountSplit(a[1..], b);
    }
  }

  lemma {:induction false} DeliverCounts(rest: string, v: Visit, j: nat, total: nat, takes: Taker)
    ensures var events := Deliver(rest, v, j, total, takes).0; Opens(events) == 0 && Turns(events) == 0
    decreases |rest|
  {
    if rest != "" {
      var k := Bounded(v.size(j), |rest|);
      if takes(total, k) {
        DeliverCounts(rest[k..], v, j + 1, total + k, takes);
        var more := Deliver(rest[k..], v, j + 1, total + k, takes).0;
        assert ([Taken(rest[..k])] + more)[1..] == more;
      } else {
        assert [Refused(rest[..k])][1..] == [];
      }
    }
  }

  lemma OneCounts(e: Event)
    ensures Opens([e]) == (if e.Connected? then 1 else 0) && Turns([e]) == if e.Redirected? then 1 else 0
  {
    assert [e][1..] == [];
  }

  lemma TwoCounts(a: Event, b: Event)
    ensures Opens([a, b]) == Opens([a]) + Opens([b]) && Turns([a, b]) == Turns([a]) + Turns([b])
  {
    hide Opens, Turns;
    assert [a, b] == [a] + [b];
    CountSplit([a], [b]);
  }

  lemma RepliedCounts(v: Visit, takes: Taker)
    ensures var events := Replied(v, takes).0; Opens(events) == 0 && Turns(events) == 0
  {
    hide HeaderEnd, ParseHeader, Deliver;
    OneCounts(Closed);
    var end := HeaderEnd(v.reply, 0);
    if end.Some? {
      var rest := v.reply[end.value..];
      DeliverCounts(rest, v, 0, 0, takes);
      CountSplit(Deliver(rest, v, 0, 0, takes).0, [Closed]);
    }
  }

  lemma TrustedCounts(v: Visit, u: Url, takes: Taker)
    ensures var events := Trusted(v, u, takes).0; Opens(events) == 0 && Turns(events) == 0
  {
    hide Replied, Opens, Turns;
    var sent := Sent(RequestText(u));
    OneCounts(Closed);
    OneCounts(sent);
    CountSplit([sent], [Closed]);
    RepliedCounts(v, takes);
    CountSplit([sent], Replied(v, takes).0);
  }

  lemma TalkCounts(v: Visit, u: Url, takes: Taker)
    ensures var (events, after) := Talk(v, u, takes);
      Opens(events) <= 1 && (!after.Stop? ==> Opens(events) == 1) && Turns(events) == 0
  {
    hide Trusted, Opens, Turns;
    var joined := Connected(u.host, u.port);
    OneCounts(NotConnected);
    OneCounts(joined);
    OneCounts(Accepted);
    OneCounts(Rejected);
    OneCounts(Closed);
    TwoCounts(joined, Accepted);
    TwoCounts(joined, Rejected);
    CountSplit([joined, Rejected], [Closed]);
    assert [joined, Rejected] + [Closed] == [joined, Rejected, Closed];
    TrustedCounts(v, u, takes);
    CountSplit([joined, Accepted], Trusted(v, u, takes).0);
  }

  lemma {:induction false} SessionCounts(server: Server, n: nat, u: Url, redirects: nat, inputs: seq<Typed>,
                                         takes: Taker)
    requires redirects <= 5
    ensures var events := Session(server, n, u, redirects, inputs, takes).0;
      Turns(events) <= 5 - redirects && Opens(events) <= 1 + Turns(events) + |inputs|
    decreases |inputs| + 5 - redirects
  {
    hide Talk, Opens, Turns, Query.ApplyQuery, ResolveUrl, AnswerOf, Prompt;
    var (events, after) := Talk(server(n), u, takes);
    TalkCounts(server(n), u, takes);
    OneCounts(Closed);
    match after
    case Stop(_) =>
    case Question(meta) =>
      var asked := [Asked(Prompt(meta)), Closed];
      OneCounts(Asked(Prompt(meta)));
      TwoCounts(Asked(Prompt(meta)), Closed);
      CountSplit(events, asked);
      if inputs != [] {
        var next := Query.ApplyQuery(u, AnswerOf(inputs[0]));
        if next.Some? {
          SessionCounts(server, n + 1, next.value, redirects, inputs[1..], takes);
          CountSplit(events + asked, Session(server, n + 1, next.value, redirects, inputs[1..], takes).0);
        }
      }
    case Elsewhere(meta) =>
      OneCounts(Redirected);
      TwoCounts(Closed, Redirected);
      CountSplit(events, [Closed]);
      CountSplit(events, [Closed, Redirected]);
      if redirects < 5 {
        var next := ResolveUrl(u, meta);
        if next.Some? {
          SessionCounts(server, n + 1, next.value, redirects + 1, inputs, takes);
          CountSplit(events + [Closed, Redirected], Session(server, n + 1, next.value, redirects + 1, inputs, takes).0);
        }
      }
  }

  /** At most five redirects are followed, and with k answers at most 6 + k connections are made. */
  lemma RequestIsBounded(server: Server, u: Url, inputs: seq<Typed>, takes: Taker)
    ensures var events := Session(server, 0, u, 0, inputs, takes).0;
      Turns(events) <= 5 && Opens(events) <= 6 + |inputs|
  {
    hide Session, Turns, Opens;
    SessionCounts(server, 0, u, 0, inputs, takes);
  }
}
