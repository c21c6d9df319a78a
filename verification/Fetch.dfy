/** A gemtext page fetched from a server and rendered as its chunks arrive. */
module Fetch {
  import opened Url
  import opened Reply
  import opened Request
  import opened RequestRuns
  import opened RequestResults
  import opened Wrap
  import opened Render

  /** The chunks handed over, in order. */
  function Chunks(events: Events): seq<string> {
    if events == [] then [] else (if events[0].Taken? then [events[0].chunk] else []) + Chunks(events[1..])
  }

  lemma {:induction false} ChunksJoin(events: Events)
    ensures Concat(Chunks(events)) == Delivered(events)
  {
    if events != [] {
      ChunksJoin(events[1..]);
      var more := Chunks(events[1..]);
      if events[0].Taken? {
        assert ([events[0].chunk] + more)[1..] == more;
      } else {
        assert [] + more == more;
        assert "" + Delivered(events[1..]) == Delivered(events[1..]);
      }
    }
  }

  /** The page after its chunks were fed one by one and the rest flushed. */
  function Shown(page: nat, chunks: seq<string>): (Stream, bool) {
    var (st, ok) := FedAll(page, BLANK, chunks);
    if ok then Flushed(page, st) else (st, false)
  }

  lemma ShownIsRendered(page: nat, chunks: seq<string>)
    ensures Shown(page, chunks) == Rendered(page, BLANK, Concat(chunks))
  {
    hide Fed, FedAll, Flushed;
    FeedChunks(page, BLANK, chunks);
  }

  /** Whatever the sizes of the reads, a page fetched with success is shown as the body that followed the header of
      the last connection, rendered in one piece. */
  lemma FetchedPageIsBody(page: nat, server: Server, u: Url, inputs: seq<Typed>, takes: Taker)
    requires var outcome := Session(server, 0, u, 0, inputs, takes).1; outcome.Done? && 20 <= outcome.status < 30
    ensures var (events, outcome) := Session(server, 0, u, 0, inputs, takes);
      Opens(events) >= 1 && exists body ::
        && Replies(server(Opens(events) - 1), Header(outcome.status, outcome.meta), body)
        && Shown(page, Chunks(events)) == Rendered(page, BLANK, body)
  {
    hide Session, Replies, Opens, Delivered, Chunks, Shown, Rendered;
    var (events, outcome) := Session(server, 0, u, 0, inputs, takes);
    SessionTells(server, 0, u, 0, inputs, takes);
    ChunksJoin(events);
    ShownIsRendered(page, Chunks(events));
  }

  // ----- The renderer decides which chunks are taken -----

  /** The caller that feeds each chunk to the renderer and refuses the one on which that fails. */
  function Renderer(page: nat, body: string): Taker {
    (total: nat, k: nat) => total + k <= |body| && Fed(page, BLANK, body[..total + k]).1
  }

  /** Feeding succeeds on every start of what it succeeds on. */
  lemma FedStart(page: nat, body: string, n: nat)
    requires n <= |body| && Fed(page, BLANK, body).1
    ensures Fed(page, BLANK, body[..n]).1
  {
    hide Fed;
    assert body == body[..n] + body[n..];
    FeedSplit(page, BLANK, body[..n], body[n..]);
  }

  lemma {:induction false} RendererDelivers(page: nat, body: string, v: Visit, j: nat, total: nat)
    requires total <= |body| && Fed(page, BLANK, body[..total]).1
    ensures Deliver(body[total..], v, j, total, Renderer(page, body)).1 <==> Fed(page, BLANK, body).1
    decreases |body| - total
  {
    hide Fed, Bounded;
    if total == |body| {
      assert body[..total] == body;
    } else {
      var rest := body[total..];
      var k := Bounded(v.size(j), |rest|);
      assert rest[k..] == body[total + k..];
      if Fed(page, BLANK, body[..total + k]).1 {
        RendererDelivers(page, body, v, j + 1, total + k);
      } else if Fed(page, BLANK, body).1 {
        FedStart(page, body, total + k);
      }
    }
  }

  lemma FedNothing(page: nat)
    ensures Fed(page, BLANK, "").1
  {
  }

  /** However it arrives, a page is fetched if and only if its body can be fed in one piece. */
  lemma FetchedExactly(page: nat, v: Visit, h: Header, body: string)
    requires 20 <= h.status < 30
    ensures Answered(v, h, body, Renderer(page, body)).1 ==
      if Fed(page, BLANK, body).1 then Stop(Done(h.status, h.meta, |body| % 0x1_0000_0000))
      else Error("body callback aborted")
  {
    hide Deliver, Fed, Renderer;
    assert body[0..] == body && body[..0] == "";
    FedNothing(page);
    RendererDelivers(page, body, v, 0, 0);
  }
}
