/** Concrete runs of the scheduler and the crawl step on small inputs. */
module Scenarios {
  import opened Options
  import opened Ucl
  import opened Crawl

  /** MaxCalls = 2 and three requests enqueued at once: two are active and the third waits. */
  lemma TwoSlotsThreeRequests(a: PageRequest, b: PageRequest, c: PageRequest)
    ensures Get(Get(Get(NewCaller(2), a), b), c) == Caller(2, [c], [a, b])
  {
    GetIntoFreeSlot(NewCaller(2), a);
    GetIntoFreeSlot(Caller(2, [], [a]), b);
    assert [a] + [b] == [a, b];
    var full := Caller(2, [], [a, b]);
    assert TryStartNext(Caller(2, [c], [a, b])) == Caller(2, [c], [a, b]);
    assert Get(full, c) == Caller(2, [c], [a, b]);
  }

  /** With nothing queued and a free slot, Get starts the request at once. */
  lemma GetIntoFreeSlot(s: Caller, r: PageRequest)
    requires s.requests == [] && |s.jobs| < s.maxCalls
    ensures Get(s, r) == Caller(s.maxCalls, [], s.jobs + [r])
  {
    assert TryStartNext(s.(requests := [r])) == Caller(s.maxCalls, [], s.jobs + [r]);
  }

  /** The first completion of that state frees a slot and admits the waiting request. */
  lemma FirstCompletionAdmitsThird(a: PageRequest, b: PageRequest, c: PageRequest)
    ensures Next(Caller(2, [c], [a, b]), 0) == NextResult(Caller(2, [], [b, c]), Some(a))
  {
    var s := Caller(2, [c], [a, b]);
    var removed := s.(jobs := SwapRemove(s.jobs, 0));
    assert removed == Caller(2, [c], [b]) by { SwapRemoveHead(a, b); }
    assert TryStartNext(removed) == Caller(2, [], [b, c]) by { assert [b] + [c] == [b, c]; }
    assert Next(s, 0) == NextResult(TryStartNext(removed), Some(a));
  }

  /**
   With three slots, completing index 0 moves the last job into slot 0 and
   appends the admitted request, so the job in slot 1 stays there.
   */
  lemma MiddleSlotWaits(x: PageRequest, b: PageRequest, y: PageRequest, z: PageRequest, rest: seq<PageRequest>)
    ensures Next(Caller(3, [z] + rest, [x, b, y]), 0) == NextResult(Caller(3, rest, [y, b, z]), Some(x))
  {
    var s := Caller(3, [z] + rest, [x, b, y]);
    var jobs := [x, b, y];
    assert SwapRemove(jobs, 0) == [y, b] by {
      assert jobs[..0] + [jobs[2]] + jobs[1..2] == [y, b];
    }
    var removed := s.(jobs := [y, b]);
    assert TryStartNext(removed) == Caller(3, rest, [y, b, z]) by {
      assert ([z] + rest)[0] == z && ([z] + rest)[1..] == rest;
      assert [y, b] + [z] == [y, b, z];
    }
    assert Next(s, 0) == NextResult(TryStartNext(removed), Some(x));
  }

  lemma SwapRemoveHead(a: PageRequest, b: PageRequest)
    ensures SwapRemove([a, b], 0) == [b]
  {
    var s := [a, b];
    assert s[..0] + [s[1]] + s[1..1] == [b];
  }

  /** A page with two site-relative links and one external link at depth 0 < maxDepth = 1. */
  function SeedPage(): Fetched {
    Fetched(false, 200, false,
            [Some("/a"), Some("https://example.com/x"), Some("/b")],
            false)
  }

  /**
   Discovery on the seed page yields exactly the two site-relative links at
   depth 1; the external link is dropped.
   */
  lemma SeedPageLinks()
    ensures Discover(1, SeedRequest(), SeedPage().hrefs, {BaseURL})
         == [PageRequest(BaseURL + "/a", 1), PageRequest(BaseURL + "/b", 1)]
  {
    var hrefs := SeedPage().hrefs;
    var a, b := BaseURL + "/a", BaseURL + "/b";
    assert a != BaseURL by { assert |a| != |BaseURL|; }
    assert b != BaseURL by { assert |b| != |BaseURL|; }
    assert a != b by { ResolveInjective("/a", "/b"); }
    assert !AcceptHref(hrefs[1]);
    assert NewLinks(hrefs[2..], {BaseURL, a}) == [b];
    assert NewLinks(hrefs[1..], {BaseURL, a}) == [b];
    assert NewLinks(hrefs, {BaseURL}) == [a, b];
    var links := Discover(1, SeedRequest(), hrefs, {BaseURL});
    assert |links| == 2 && links[0] == PageRequest(a, 1) && links[1] == PageRequest(b, 1);
  }

  /** The same link twice on a page, or a link already called, is enqueued at most once. */
  lemma RepeatedLinkOnce(called: set<string>)
    ensures NewLinks([Some("/a"), None, Some(""), Some("/"), Some("/a")], called)
         == if BaseURL + "/a" in called then [] else [BaseURL + "/a"]
  {
    var hrefs: seq<Option<string>> := [Some("/a"), None, Some(""), Some("/"), Some("/a")];
    var u := BaseURL + "/a";
    assert !AcceptHref(hrefs[1]) && !AcceptHref(hrefs[2]) && !AcceptHref(hrefs[3]);
    var after := if u in called then called else called + {u};
    assert after == called + {u};
    assert Resolve(hrefs[4].value) == u;
    assert NewLinks(hrefs[5..], after) == [];
    assert NewLinks(hrefs[4..], after) == [];
    assert NewLinks(hrefs[3..], after) == [];
    assert NewLinks(hrefs[2..], after) == [];
    assert NewLinks(hrefs[1..], after) == [];
    if u in called {
      assert NewLinks(hrefs, called) == NewLinks(hrefs[1..], called);
    } else {
      assert NewLinks(hrefs, called) == [u] + NewLinks(hrefs[1..], after);
    }
  }

  /** Processing the seed page continues the crawl and records both links as called. */
  lemma SeedPageDiscovery()
    ensures var r := HandleResponse(1, Seed(1), 0, SeedPage());
            && r.outcome == Continue
            && r.links == [PageRequest(BaseURL + "/a", 1), PageRequest(BaseURL + "/b", 1)]
            && r.state.calledURLs == {BaseURL, BaseURL + "/a", BaseURL + "/b"}
  {
    var st := Seed(1);
    assert st.caller.jobs == [SeedRequest()];
    SeedPageStep(st);
  }

  /** The seed page processed from any state whose first active job is the seed and that has called only the base URL. */
  lemma SeedPageStep(st: CrawlState)
    requires st.caller.jobs != [] && st.caller.jobs[0] == SeedRequest() && st.calledURLs == {BaseURL}
    ensures var r := HandleResponse(1, st, 0, SeedPage());
            && r.outcome == Continue
            && r.links == [PageRequest(BaseURL + "/a", 1), PageRequest(BaseURL + "/b", 1)]
            && r.state.calledURLs == {BaseURL, BaseURL + "/a", BaseURL + "/b"}
  {
    var x, y := PageRequest(BaseURL + "/a", 1), PageRequest(BaseURL + "/b", 1);
    var r := HandleResponse(1, st, 0, SeedPage());
    assert Proceeds(st, SeedPage());
    assert r.outcome == Continue;
    assert r.links == [x, y] by { SeedPageLinks(); }
    assert r.state.calledURLs == {BaseURL} + Urls([x, y]);
    UrlsOfPair(x, y, {BaseURL});
  }

  lemma UrlsOfPair(x: PageRequest, y: PageRequest, called: set<string>)
    ensures called + Urls([x, y]) == called + {x.url, y.url}
  {
    var links := [x, y];
    assert links[0] == x && links[1] == y;
    assert x.url in Urls(links) && y.url in Urls(links);
    forall u | u in Urls(links) ensures u == x.url || u == y.url {
      var j :| 0 <= j < |links| && links[j].url == u;
    }
    assert Urls(links) == {x.url, y.url};
  }

  /** A 503 response to the seed, with nothing on the page. */
  function ServerError(): Fetched {
    Fetched(false, 503, false, [], false)
  }

  /**
   With one slot and the seed active, a 503 within the budget is counted and
   the seed is put back as the one active job.
   */
  lemma ServerErrorRetried(maxDepth: int, errors: int)
    requires errors + 1 < MaxErrors
    ensures var st := CrawlState(Caller(1, [], [SeedRequest()]), {BaseURL}, 0, errors);
            var r := HandleResponse(maxDepth, st, 0, ServerError());
            r.outcome == Continue && r.state == st.(currentErrors := errors + 1)
  {
    var seed := SeedRequest();
    var c := Caller(1, [], [seed]);
    assert SwapRemove(c.jobs, 0) == [];
    assert Next(c, 0) == NextResult(Caller(1, [], []), Some(seed));
    assert Get(Caller(1, [], []), seed) == c;
    assert Discover(maxDepth, seed, [], {BaseURL}) == [];
    assert GetAll(c, []) == c;
  }

  /** Five 503s in a row with MaxErrors = 5: four retries, then the fifth aborts. */
  lemma FiveServerErrors(maxDepth: int)
    ensures var st := Seed(1);
            var events := seq(5, _ => Event(0, ServerError()));
            && Drivable(maxDepth, st, events)
            && Loop(maxDepth, st, events).outcome == Fatal(TooManyErrors)
            && Loop(maxDepth, st, events).state.currentErrors == 5
  {
    var st := Seed(1);
    var e := Event(0, ServerError());
    var events := seq(5, _ => e);
    var s := [st, st.(currentErrors := 1), st.(currentErrors := 2), st.(currentErrors := 3), st.(currentErrors := 4)];
    ServerErrorRetried(maxDepth, 0);
    ServerErrorRetried(maxDepth, 1);
    ServerErrorRetried(maxDepth, 2);
    ServerErrorRetried(maxDepth, 3);
    assert Drivable(maxDepth, s[4], events[4..]);
    assert Drivable(maxDepth, s[3], events[3..]);
    assert Drivable(maxDepth, s[2], events[2..]);
    assert Drivable(maxDepth, s[1], events[1..]);
    assert Drivable(maxDepth, s[0], events);
    assert Loop(maxDepth, s[4], events[4..]).outcome == Fatal(TooManyErrors);
    assert Loop(maxDepth, s[3], events[3..]) == Loop(maxDepth, s[4], events[4..]);
    assert Loop(maxDepth, s[2], events[2..]) == Loop(maxDepth, s[3], events[3..]);
    assert Loop(maxDepth, s[1], events[1..]) == Loop(maxDepth, s[2], events[2..]);
    assert Loop(maxDepth, s[0], events) == Loop(maxDepth, s[1], events[1..]);
  }

  /** A 404 aborts on the spot, whatever the error count. */
  lemma NotFoundIsFatal(maxDepth: int, st: CrawlState, i: nat)
    requires st.caller.jobs != [] && i < |st.caller.jobs|
    ensures var r := HandleResponse(maxDepth, st, i, Fetched(false, 404, false, [], false));
            r.outcome == Fatal(ClientStatus(404)) && r.state.currentErrors == st.currentErrors
  {
  }
}
