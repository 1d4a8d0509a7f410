/**
 * The retrieval half of src/containers/ucdp-container/ucdp_scraper.py:
 * `scrape_country`, which pages through the UCDP GED API and extends the
 * caller's event list in place, and `main`, which runs it for each country code
 * into one shared list before casting and aggregating.
 *
 * The HTTP call is a parameter `fetch` from a request to its response, with the
 * body already decoded; `raise_for_status` and `r.json()` become the error
 * outcomes below. Since `while True` may run forever, the loop takes a bound
 * `fuel` on the number of fetches and reports `OutOfFuel` when it is reached.
 */
module UcdpScraper {
  import opened Wrappers
  import opened UcdpEvents
  import opened UcdpAggregate

  const BaseUrl: string := "https://ucdpapi.pcr.uu.se/api/gedevents/25.1"
  const StartDate: string := "1989-01-01"
  const EndDate: string := "1991-12-31"
  const PageSize: int := 1000
  const GwCodes: seq<int> := [645, 700, 775, 540, 666]

  /** The query parameters of the first request for a country. */
  datatype Params = Params(country: int, startDate: string, endDate: string, pageSize: int)

  /** `requests.get(url, params=params)`; `params == None` sends the URL as it is. */
  datatype Request = Request(url: string, params: Option<Params>)

  /**
   * The decoded body. `Malformed` is a body whose decoding or reading raises:
   * not JSON, not an object, or a `Result` that is `null`. A `None` `result`
   * is an absent `Result` key.
   */
  datatype Body = Malformed | Page(result: Option<seq<RawEvent>>, nextPageUrl: Option<string>)

  datatype Response = Response(status: int, body: Body)

  datatype ScrapeError = HttpError(status: int) | BadPayload

  datatype Outcome = Done | Failed(error: ScrapeError) | OutOfFuel

  /** What a run did: the requests it sent, the events it appended, how it ended. */
  datatype Run = Run(requests: seq<Request>, events: seq<RawEvent>, outcome: Outcome)

  /** How the request after a page is built: as the source does, or following the cursor. */
  datatype Cursor = IgnoreCursor | FollowCursor

  function FirstRequest(country: int): Request {
    Request(BaseUrl, Some(Params(country, StartDate, EndDate, PageSize)))
  }

  /** `raise_for_status` raises for every 4xx and 5xx status: there is no retry. */
  predicate IsHttpError(status: int) {
    400 <= status < 600
  }

  /** `payload.get("Result", [])`: an absent key contributes nothing. */
  function PageEvents(b: Body): (evs: seq<RawEvent>)
    requires b.Page?
    ensures b.result.None? ==> evs == []
  {
    b.result.GetOr([])
  }

  /** `payload.get("NextPageUrl")` when it is truthy: absent, `null` and `""` all end the loop. */
  function NextCursor(b: Body): (next: Option<string>)
    requires b.Page?
    ensures next.None? <==> b.nextPageUrl.None? || b.nextPageUrl.value == ""
    ensures next.Some? ==> next.value == b.nextPageUrl.value && next.value != ""
  {
    match b.nextPageUrl
    case Some(u) => if u == "" then None else Some(u)
    case None => None
  }

  /**
   * The request after a page whose cursor is `url`. Line 51 sets `url` but line 41
   * never reads it, so as written the next request is `BASE_URL` with no parameters.
   */
  function NextRequest(policy: Cursor, url: string): Request {
    match policy
    case IgnoreCursor => Request(BaseUrl, None)
    case FollowCursor => Request(url, None)
  }

  /** The pagination loop of lines 40-52 from request `req`, with at most `fuel` fetches. */
  function Scrape(fetch: Request -> Response, policy: Cursor, req: Request, fuel: nat): (run: Run)
    ensures |run.requests| <= fuel
    ensures fuel > 0 ==> |run.requests| >= 1 && run.requests[0] == req
    decreases fuel
  {
    if fuel == 0 then Run([], [], OutOfFuel)
    else
      var resp := fetch(req);
      if IsHttpError(resp.status) then Run([req], [], Failed(HttpError(resp.status)))
      else if resp.body.Malformed? then Run([req], [], Failed(BadPayload))
      else
        match NextCursor(resp.body)
        case None => Run([req], PageEvents(resp.body), Done)
        case Some(url) =>
          var rest := Scrape(fetch, policy, NextRequest(policy, url), fuel - 1);
          Run([req] + rest.requests, PageEvents(resp.body) + rest.events, rest.outcome)
  }

  /** `main`'s loop over the country codes into one shared list; the first error ends the run. */
  function ScrapeCodes(fetch: Request -> Response, policy: Cursor, codes: seq<int>, fuel: nat): (run: Run)
    ensures run.outcome.Done? ==> |run.requests| >= |codes|
  {
    if codes == [] then Run([], [], Done)
    else
      var first := Scrape(fetch, policy, FirstRequest(codes[0]), fuel);
      if !first.outcome.Done? then first
      else
        var rest := ScrapeCodes(fetch, policy, codes[1..], fuel);
        Run(first.requests + rest.requests, first.events + rest.events, rest.outcome)
  }

  // ---------------------------------------------------------------------------
  // Properties of the loop

  /**
   * The server returns `pages` for the requests that `policy` builds from `req` on:
   * every response is a successful page and every page but the last has a cursor.
   */
  predicate Serves(fetch: Request -> Response, policy: Cursor, req: Request, pages: seq<Body>)
    decreases |pages|
  {
    && |pages| > 0
    && !IsHttpError(fetch(req).status)
    && fetch(req).body == pages[0]
    && pages[0].Page?
    && if |pages| == 1 then NextCursor(pages[0]).None?
       else NextCursor(pages[0]).Some? && Serves(fetch, policy, NextRequest(policy, NextCursor(pages[0]).value), pages[1..])
  }

  /** The events of several pages, in page order. */
  function PageResults(pages: seq<Body>): seq<RawEvent> {
    if pages == [] then []
    else (if pages[0].Page? then pages[0].result.GetOr([]) else []) + PageResults(pages[1..])
  }

  /**
   * The loop consumes exactly the pages served: it ends on the first page without
   * a cursor, fetches once per page, and appends the pages' events in API order.
   */
  lemma {:induction false} ScrapeReadsServedPages(fetch: Request -> Response, policy: Cursor, req: Request,
                                                   pages: seq<Body>, fuel: nat)
    requires Serves(fetch, policy, req, pages) && fuel >= |pages|
    ensures var run := Scrape(fetch, policy, req, fuel);
      run.outcome == Done && |run.requests| == |pages| && run.events == PageResults(pages)
    decreases |pages|
  {
    if |pages| > 1 {
      ScrapeReadsServedPages(fetch, policy, NextRequest(policy, NextCursor(pages[0]).value), pages[1..], fuel - 1);
    }
  }

  /** With the cursor followed, every page of a chain of any length is read. */
  lemma CursorFollowingReadsEveryPage(fetch: Request -> Response, country: int, pages: seq<Body>, fuel: nat)
    requires Serves(fetch, FollowCursor, FirstRequest(country), pages) && fuel >= |pages|
    ensures var run := Scrape(fetch, FollowCursor, FirstRequest(country), fuel);
      run.outcome == Done && |run.requests| == |pages| && run.events == PageResults(pages)
  {
    ScrapeReadsServedPages(fetch, FollowCursor, FirstRequest(country), pages, fuel);
  }

  /** Every request after the first is `BASE_URL` with no parameters. */
  predicate BareAfterFirst(requests: seq<Request>) {
    forall i :: 1 <= i < |requests| ==> requests[i] == Request(BaseUrl, None)
  }

  /** As written, every request after the first is `BASE_URL` with no parameters. */
  lemma {:induction false} AsWrittenRequestsAfterFirst(fetch: Request -> Response, req: Request, fuel: nat)
    ensures BareAfterFirst(Scrape(fetch, IgnoreCursor, req, fuel).requests)
    decreases fuel
  {
    if fuel > 0 {
      var resp := fetch(req);
      if !IsHttpError(resp.status) && resp.body.Page? && NextCursor(resp.body).Some? {
        var bare := Request(BaseUrl, None);
        AsWrittenRequestsAfterFirst(fetch, bare, fuel - 1);
        var rest := Scrape(fetch, IgnoreCursor, bare, fuel - 1);
        var run := Scrape(fetch, IgnoreCursor, req, fuel);
        assert run.requests == [req] + rest.requests;
        forall i | 1 <= i < |run.requests| ensures run.requests[i] == bare {
          assert run.requests[i] == rest.requests[i - 1];
        }
      }
    }
  }

  /** `n` copies of `s` one after another. */
  function Repeat(s: seq<RawEvent>, n: nat): seq<RawEvent> {
    if n == 0 then [] else s + Repeat(s, n - 1)
  }

  /**
   * Once the parameterless `BASE_URL` page has a cursor, the as-written loop asks
   * for it again and again: it never completes and re-appends that page each time.
   */
  lemma {:induction false} AsWrittenRepeatsBarePage(fetch: Request -> Response, fuel: nat)
    requires var resp := fetch(Request(BaseUrl, None));
      !IsHttpError(resp.status) && resp.body.Page? && NextCursor(resp.body).Some?
    ensures var run := Scrape(fetch, IgnoreCursor, Request(BaseUrl, None), fuel);
      run.outcome == OutOfFuel && |run.requests| == fuel
      && run.events == Repeat(PageEvents(fetch(Request(BaseUrl, None)).body), fuel)
    decreases fuel
  {
    if fuel > 0 {
      AsWrittenRepeatsBarePage(fetch, fuel - 1);
    }
  }

  /**
   * As written, a country whose first page has a cursor is finished only if the
   * parameterless `BASE_URL` page has none: the loop completes after at most two
   * fetches, or never.
   */
  lemma AsWrittenCompletesWithinTwoFetches(fetch: Request -> Response, country: int, fuel: nat)
    ensures var run := Scrape(fetch, IgnoreCursor, FirstRequest(country), fuel);
      run.outcome.Done? ==> |run.requests| <= 2
  {
    var resp := fetch(FirstRequest(country));
    if fuel > 1 && !IsHttpError(resp.status) && resp.body.Page? && NextCursor(resp.body).Some? {
      var bare := fetch(Request(BaseUrl, None));
      if !IsHttpError(bare.status) && bare.body.Page? && NextCursor(bare.body).Some? {
        AsWrittenRepeatsBarePage(fetch, fuel - 1);
      }
    }
  }

  /**
   * A country with a second page never completes as written when the unfiltered
   * first page of the API also has a cursor, as the second requires assumes.
   */
  lemma AsWrittenNeverCompletes(fetch: Request -> Response, country: int, fuel: nat)
    requires var first := fetch(FirstRequest(country));
      !IsHttpError(first.status) && first.body.Page? && NextCursor(first.body).Some?
    requires var bare := fetch(Request(BaseUrl, None));
      !IsHttpError(bare.status) && bare.body.Page? && NextCursor(bare.body).Some?
    requires fuel > 0
    ensures var run := Scrape(fetch, IgnoreCursor, FirstRequest(country), fuel);
      run.outcome == OutOfFuel
      && run.events == PageEvents(fetch(FirstRequest(country)).body)
                       + Repeat(PageEvents(fetch(Request(BaseUrl, None)).body), fuel - 1)
  {
    AsWrittenRepeatsBarePage(fetch, fuel - 1);
  }

  /**
   * Errors are not retried: a run that fails ends with the request whose response
   * failed, and an HTTP failure carries that response's status.
   */
  lemma {:induction false} FailureEndsRun(fetch: Request -> Response, policy: Cursor, req: Request, fuel: nat)
    ensures var run := Scrape(fetch, policy, req, fuel);
      run.outcome.Failed? ==>
        && run.requests != []
        && var last := fetch(run.requests[|run.requests| - 1]);
           (run.outcome.error.HttpError? <==> IsHttpError(last.status))
           && (run.outcome.error.HttpError? ==> run.outcome.error.status == last.status)
           && (run.outcome.error.BadPayload? ==> last.body.Malformed?)
    decreases fuel
  {
    if fuel > 0 {
      var run := Scrape(fetch, policy, req, fuel);
      var resp := fetch(req);
      if IsHttpError(resp.status) || resp.body.Malformed? {
        assert run.requests == [req];
      } else if NextCursor(resp.body).Some? {
        var url := NextCursor(resp.body).value;
        FailureEndsRun(fetch, policy, NextRequest(policy, url), fuel - 1);
        var rest := Scrape(fetch, policy, NextRequest(policy, url), fuel - 1);
        assert run.requests == [req] + rest.requests && run.outcome == rest.outcome;
        if rest.outcome.Failed? {
          assert run.requests[|rest.requests|] == rest.requests[|rest.requests| - 1];
        }
      }
    }
  }

  /**
   * Conversely, a response that fails ends the run at that very request: an HTTP
   * error status, or a body that is not a JSON object, is never followed by a retry.
   */
  lemma ErrorEndsRunAtRequest(fetch: Request -> Response, policy: Cursor, req: Request, fuel: nat)
    ensures fuel > 0 && IsHttpError(fetch(req).status) ==>
      Scrape(fetch, policy, req, fuel) == Run([req], [], Failed(HttpError(fetch(req).status)))
    ensures fuel > 0 && !IsHttpError(fetch(req).status) && fetch(req).body.Malformed? ==>
      Scrape(fetch, policy, req, fuel) == Run([req], [], Failed(BadPayload))
  {
  }

  /**
   * `from` got a successful page carrying a cursor, and `to` is the request that
   * cursor leads to under the policy.
   */
  predicate Leads(fetch: Request -> Response, policy: Cursor, from: Request, to: Request) {
    var resp := fetch(from);
    && !IsHttpError(resp.status) && resp.body.Page? && NextCursor(resp.body).Some?
    && to == NextRequest(policy, NextCursor(resp.body).value)
  }

  /**
   * The whole run, request by request: each request leads to the next; a completed
   * run ends on a successful page without a cursor, and a run out of fuel spent all of it.
   */
  lemma {:induction false} RunFollowsChain(fetch: Request -> Response, policy: Cursor, req: Request, fuel: nat)
    ensures var run := Scrape(fetch, policy, req, fuel);
      && (forall i :: 0 <= i < |run.requests| - 1 ==> Leads(fetch, policy, run.requests[i], run.requests[i + 1]))
      && (run.outcome.Done? ==>
            && run.requests != []
            && var last := fetch(run.requests[|run.requests| - 1]);
               !IsHttpError(last.status) && last.body.Page? && NextCursor(last.body).None?)
      && (run.outcome.OutOfFuel? ==> |run.requests| == fuel)
    decreases fuel
  {
    if fuel > 0 {
      var run := Scrape(fetch, policy, req, fuel);
      var resp := fetch(req);
      if !IsHttpError(resp.status) && resp.body.Page? && NextCursor(resp.body).Some? {
        var next := NextRequest(policy, NextCursor(resp.body).value);
        var rest := Scrape(fetch, policy, next, fuel - 1);
        RunFollowsChain(fetch, policy, next, fuel - 1);
        assert run.requests == [req] + rest.requests && run.outcome == rest.outcome;
        forall i | 0 <= i < |run.requests| - 1
          ensures Leads(fetch, policy, run.requests[i], run.requests[i + 1])
        {
          if i > 0 {
            assert run.requests[i] == rest.requests[i - 1] && run.requests[i + 1] == rest.requests[i];
          } else {
            assert run.requests[1] == rest.requests[0] == next;
          }
        }
        if run.outcome.Done? {
          assert run.requests[|run.requests| - 1] == rest.requests[|rest.requests| - 1];
        }
      } else {
        assert run.requests == [req];
      }
    }
  }

  /** `main` completes only when every country code's loop completes. */
  lemma {:induction false} ScrapeCodesDone(fetch: Request -> Response, policy: Cursor, codes: seq<int>, fuel: nat)
    ensures ScrapeCodes(fetch, policy, codes, fuel).outcome.Done? <==>
      forall i :: 0 <= i < |codes| ==> Scrape(fetch, policy, FirstRequest(codes[i]), fuel).outcome.Done?
  {
    if codes != [] {
      ScrapeCodesDone(fetch, policy, codes[1..], fuel);
      assert forall i :: 1 <= i < |codes| ==> codes[i] == codes[1..][i - 1];
    }
  }

  /**
   * One step of `ScrapeCodes` over the codes from `i` on, also stated after
   * `before`, the events gathered for the codes ahead of `i`.
   */
  lemma ScrapeCodesStep(fetch: Request -> Response, policy: Cursor, codes: seq<int>, i: int, fuel: nat,
                        before: seq<RawEvent>)
    requires 0 <= i < |codes|
    ensures var first := Scrape(fetch, policy, FirstRequest(codes[i]), fuel);
      var here := ScrapeCodes(fetch, policy, codes[i..], fuel);
      var next := ScrapeCodes(fetch, policy, codes[i + 1..], fuel);
      && (!first.outcome.Done? ==> here.outcome == first.outcome && here.events == first.events)
      && (first.outcome.Done? ==> here.outcome == next.outcome && here.events == first.events + next.events)
      && (first.outcome.Done? ==> before + here.events == (before + first.events) + next.events)
  {
    assert codes[i..][0] == codes[i] && codes[i..][1..] == codes[i + 1..];
  }

  /** The caller-owned `all_events` list that `scrape_country` extends in place. */
  class EventLog {
    var events: seq<RawEvent>

    constructor ()
      ensures events == []
    {
      events := [];
    }

    /**
     * `scrape_country(country, all_events)`: the earlier contents stay as a prefix
     * and the pages' events follow in API order. `policy` builds the request after
     * a page: `IgnoreCursor` as lines 41 and 51 do, `FollowCursor` as intended.
     */
    method ScrapeCountry(country: int, policy: Cursor, fetch: Request -> Response, fuel: nat)
      returns (outcome: Outcome, fetches: nat)
      modifies this
      ensures var run := Scrape(fetch, policy, FirstRequest(country), fuel);
        events == old(events) + run.events && outcome == run.outcome && fetches == |run.requests|
    {
      var req := FirstRequest(country);
      var remaining: nat := fuel;
      fetches := 0;
      ghost var full := Scrape(fetch, policy, req, fuel);
      ghost var rest := full;
      while true
        invariant remaining + fetches == fuel
        invariant rest == Scrape(fetch, policy, req, remaining)
        invariant |full.requests| == fetches + |rest.requests|
        invariant old(events) + full.events == events + rest.events
        invariant full.outcome == rest.outcome
        decreases remaining
      {
        if remaining == 0 {
          outcome := OutOfFuel;
          return;
        }
        var r := fetch(req);
        remaining, fetches := remaining - 1, fetches + 1;
        if IsHttpError(r.status) {
          assert rest == Run([req], [], Failed(HttpError(r.status)));
          outcome := Failed(HttpError(r.status));
          return;
        }
        if r.body.Malformed? {
          assert rest == Run([req], [], Failed(BadPayload));
          outcome := Failed(BadPayload);
          return;
        }
        var page := PageEvents(r.body);
        events := events + page;
        var next := NextCursor(r.body);
        if next.None? {
          assert rest == Run([req], page, Done);
          outcome := Done;
          return;
        }
        ghost var prev := req;
        req := NextRequest(policy, next.value);
        ghost var tail := Scrape(fetch, policy, req, remaining);
        assert rest == Run([prev] + tail.requests, page + tail.events, tail.outcome);
        rest := tail;
      }
    }

    /** `main`'s loop: every country code in order, each appending to this one list. */
    method ScrapeAll(codes: seq<int>, policy: Cursor, fetch: Request -> Response, fuel: nat) returns (outcome: Outcome)
      modifies this
      ensures var run := ScrapeCodes(fetch, policy, codes, fuel);
        events == old(events) + run.events && outcome == run.outcome
    {
      ghost var full := ScrapeCodes(fetch, policy, codes, fuel);
      ghost var rest := full;
      var i := 0;
      assert codes[0..] == codes;
      while i < |codes|
        invariant 0 <= i <= |codes|
        invariant rest == ScrapeCodes(fetch, policy, codes[i..], fuel)
        invariant old(events) + full.events == events + rest.events
        invariant full.outcome == rest.outcome
      {
        ghost var before := events;
        ScrapeCodesStep(fetch, policy, codes, i, fuel, before);
        var o, _ := ScrapeCountry(codes[i], policy, fetch, fuel);
        if !o.Done? {
          outcome := o;
          return;
        }
        rest := ScrapeCodes(fetch, policy, codes[i + 1..], fuel);
        i := i + 1;
      }
      outcome := Done;
    }
  }

  /** The events of several countries' page chains, country after country. */
  function AllPageResults(chains: seq<seq<Body>>): seq<RawEvent> {
    if chains == [] then [] else PageResults(chains[0]) + AllPageResults(chains[1..])
  }

  /**
   * With the cursor followed, `main`'s loop over countries whose page chains are
   * served completes and gathers every page of every country, in country order.
   */
  lemma {:induction false} ScrapeCodesReadsServedPages(fetch: Request -> Response, codes: seq<int>,
                                                       chains: seq<seq<Body>>, fuel: nat)
    requires |chains| == |codes|
    requires forall i :: 0 <= i < |codes| ==>
      Serves(fetch, FollowCursor, FirstRequest(codes[i]), chains[i]) && fuel >= |chains[i]|
    ensures var run := ScrapeCodes(fetch, FollowCursor, codes, fuel);
      run.outcome == Done && run.events == AllPageResults(chains)
  {
    if codes != [] {
      ScrapeReadsServedPages(fetch, FollowCursor, FirstRequest(codes[0]), chains[0], fuel);
      assert forall i :: 0 <= i < |codes| - 1 ==> codes[1..][i] == codes[i + 1] && chains[1..][i] == chains[i + 1];
      ScrapeCodesReadsServedPages(fetch, codes[1..], chains[1..], fuel);
    }
  }

  /** The events of each code's own loop, code after code. */
  function CodesEvents(fetch: Request -> Response, policy: Cursor, codes: seq<int>, fuel: nat): seq<RawEvent> {
    if codes == [] then []
    else Scrape(fetch, policy, FirstRequest(codes[0]), fuel).events + CodesEvents(fetch, policy, codes[1..], fuel)
  }

  /** When `main`'s loop completes, the shared list holds each code's events in code order. */
  lemma {:induction false} ScrapeCodesEvents(fetch: Request -> Response, policy: Cursor, codes: seq<int>, fuel: nat)
    requires ScrapeCodes(fetch, policy, codes, fuel).outcome.Done?
    ensures ScrapeCodes(fetch, policy, codes, fuel).events == CodesEvents(fetch, policy, codes, fuel)
  {
    if codes != [] {
      ScrapeCodesEvents(fetch, policy, codes[1..], fuel);
    }
  }

  /**
   * When `main`'s loop fails, it fails as the first country whose loop did not complete:
   * every earlier country completed.
   */
  lemma {:induction false} ScrapeCodesFirstFailure(fetch: Request -> Response, policy: Cursor, codes: seq<int>, fuel: nat)
    requires !ScrapeCodes(fetch, policy, codes, fuel).outcome.Done?
    ensures exists i :: (
      && 0 <= i < |codes|
      && ScrapeCodes(fetch, policy, codes, fuel).outcome == Scrape(fetch, policy, FirstRequest(codes[i]), fuel).outcome
      && forall j :: 0 <= j < i ==> Scrape(fetch, policy, FirstRequest(codes[j]), fuel).outcome.Done?)
  {
    var first := Scrape(fetch, policy, FirstRequest(codes[0]), fuel);
    if first.outcome.Done? {
      ScrapeCodesFirstFailure(fetch, policy, codes[1..], fuel);
      var i :| 0 <= i < |codes[1..]| &&
        ScrapeCodes(fetch, policy, codes[1..], fuel).outcome == Scrape(fetch, policy, FirstRequest(codes[1..][i]), fuel).outcome &&
        forall j :: 0 <= j < i ==> Scrape(fetch, policy, FirstRequest(codes[1..][j]), fuel).outcome.Done?;
      assert codes[1..][i] == codes[i + 1];
      forall j | 0 <= j < i + 1 ensures Scrape(fetch, policy, FirstRequest(codes[j]), fuel).outcome.Done? {
        if j > 0 {
          assert codes[j] == codes[1..][j - 1];
        }
      }
    } else {
      assert ScrapeCodes(fetch, policy, codes, fuel).outcome == first.outcome;
    }
  }

  /**
   * What `main` uploads: every code of `GW_CODES` scraped into one list, then the
   * frame cast in place by `cast_and_aggregate` as the raw table, and its aggregate.
   * The first failing country ends the run before anything is uploaded.
   */
  function Pipeline(fetch: Request -> Response, policy: Cursor, toDate: string -> Option<Date>, fuel: nat)
    : (r: Result<(seq<Row>, seq<CountryYear>), Outcome>)
    ensures r.Success? <==>
      forall i :: 0 <= i < |GwCodes| ==> Scrape(fetch, policy, FirstRequest(GwCodes[i]), fuel).outcome.Done?
    ensures r.Success? ==>
      r.value.0 == Cast(CodesEvents(fetch, policy, GwCodes, fuel), toDate) && r.value.1 == Aggregate(r.value.0)
    ensures r.Failure? ==> !r.error.Done? && exists i :: (
      && 0 <= i < |GwCodes|
      && r.error == Scrape(fetch, policy, FirstRequest(GwCodes[i]), fuel).outcome
      && forall j :: 0 <= j < i ==> Scrape(fetch, policy, FirstRequest(GwCodes[j]), fuel).outcome.Done?)
  {
    var run := ScrapeCodes(fetch, policy, GwCodes, fuel);
    ScrapeCodesDone(fetch, policy, GwCodes, fuel);
    if run.outcome.Done? then
      ScrapeCodesEvents(fetch, policy, GwCodes, fuel);
      var raw := Cast(run.events, toDate);
      Success((raw, Aggregate(raw)))
    else
      ScrapeCodesFirstFailure(fetch, policy, GwCodes, fuel);
      Failure(run.outcome)
  }

  /**
   * When the API serves every country's chain and the cursor is followed, `main` uploads
   * all their events, cast, and the aggregate of those rows.
   */
  lemma PipelineReadsEveryCountry(fetch: Request -> Response, toDate: string -> Option<Date>,
                                  chains: seq<seq<Body>>, fuel: nat)
    requires |chains| == |GwCodes|
    requires forall i :: 0 <= i < |GwCodes| ==>
      Serves(fetch, FollowCursor, FirstRequest(GwCodes[i]), chains[i]) && fuel >= |chains[i]|
    ensures Pipeline(fetch, FollowCursor, toDate, fuel) ==
      Success((Cast(AllPageResults(chains), toDate), CastAndAggregate(AllPageResults(chains), toDate)))
  {
    ScrapeCodesReadsServedPages(fetch, GwCodes, chains, fuel);
  }

  /**
   * `main` as written uploads nothing once some country has a second page and the
   * unfiltered first page of the API has a cursor: that country's loop never completes.
   */
  lemma MainAsWrittenNeverUploads(fetch: Request -> Response, toDate: string -> Option<Date>, k: int, fuel: nat)
    requires 0 <= k < |GwCodes|
    requires var first := fetch(FirstRequest(GwCodes[k]));
      !IsHttpError(first.status) && first.body.Page? && NextCursor(first.body).Some?
    requires var bare := fetch(Request(BaseUrl, None));
      !IsHttpError(bare.status) && bare.body.Page? && NextCursor(bare.body).Some?
    requires fuel > 0
    ensures Pipeline(fetch, IgnoreCursor, toDate, fuel).Failure?
  {
    AsWrittenNeverCompletes(fetch, GwCodes[k], fuel);
  }

  /** `main`, with a fresh list in place of `all_events = []`. */
  method RunPipeline(fetch: Request -> Response, policy: Cursor, toDate: string -> Option<Date>, fuel: nat)
    returns (r: Result<(seq<Row>, seq<CountryYear>), Outcome>)
    ensures r == Pipeline(fetch, policy, toDate, fuel)
  {
    var log := new EventLog();
    var outcome := log.ScrapeAll(GwCodes, policy, fetch, fuel);
    assert log.events == ScrapeCodes(fetch, policy, GwCodes, fuel).events;
    if !outcome.Done? {
      return Failure(outcome);
    }
    var raw := Cast(log.events, toDate);
    r := Success((raw, Aggregate(raw)));
  }
}
