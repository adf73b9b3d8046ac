/**
 The crawl loop of main.go: seeding, the handleResponse step and the driver
 loop that repeats it. A completed fetch is reduced to what handleResponse
 reads from it: a transport-error flag, the status code, whether goquery could
 parse the body, the href attributes of the page's anchors (None where the
 attribute is missing) and whether the page is an article page.
 */
module Crawl {
  import opened Options
  import opened Ucl

  /** The site the crawl starts at and stays on. */
  const BaseURL: string := "https://www.breakit.se"

  /** The error budget for server errors, shared by the whole run. */
  const MaxErrors: int := 5

  /** What the step reads from one completed response and its parsed document. */
  datatype Fetched = Fetched(
    transportError: bool,
    status: int,
    parseFailed: bool,
    hrefs: seq<Option<string>>,
    isArticle: bool)

  /** Why the crawl aborted: the condition log.Fatal reports. */
  datatype FatalReason = TransportFailure | ClientStatus(code: int) | TooManyErrors | ParseFailure

  datatype Outcome = Continue | Done | Fatal(reason: FatalReason)

  /** Everything handleResponse reads and writes besides the parsed page. */
  datatype CrawlState = CrawlState(
    caller: Caller,
    calledURLs: set<string>,
    totalArticles: int,
    currentErrors: int)

  /** The new state, the outcome, and the requests link discovery enqueued. */
  datatype StepResult = StepResult(state: CrawlState, outcome: Outcome, links: seq<PageRequest>)

  /** A 4xx status: the crawler treats it as its own fault and aborts. */
  predicate IsClientError(status: int) {
    400 <= status && status < 500
  }

  /** A status that is neither 200 nor 4xx: counted against the error budget and retried. */
  predicate IsServerError(status: int) {
    status != 200 && !IsClientError(status)
  }

  /**
   The response lets the crawl go on: there was a job to complete, no
   transport error, no 4xx, a body that parses, and either a 200 or a server
   error that still fits in the budget.
   */
  predicate Proceeds(st: CrawlState, f: Fetched) {
    && st.caller.jobs != []
    && !f.transportError
    && !IsClientError(f.status)
    && !f.parseFailed
    && (f.status == 200 || st.currentErrors + 1 < MaxErrors)
  }

  /** The seed request: the base URL at depth 0. */
  function SeedRequest(): PageRequest {
    PageRequest(BaseURL, 0)
  }

  /** The state before the first Next: seed enqueued and recorded as called. */
  function Seed(maxCalls: int): (st: CrawlState)
    ensures Outstanding(st.caller) == multiset{SeedRequest()}
    ensures st.caller.maxCalls == maxCalls
    ensures maxCalls >= 1 ==> st.caller.jobs == [SeedRequest()] && st.caller.requests == []
    ensures maxCalls < 1 ==> st.caller.jobs == [] && st.caller.requests == [SeedRequest()]
    ensures st.calledURLs == {BaseURL}
    ensures st.totalArticles == 0 && st.currentErrors == 0
  {
    CrawlState(Get(NewCaller(maxCalls), SeedRequest()), {BaseURL}, 0, 0)
  }

  // ---- Link discovery ----

  /** The href filter: present, not empty, not the root itself, site-relative. */
  function AcceptHref(href: Option<string>): (ok: bool)
    ensures ok <==> href.Some? && |href.value| >= 2 && href.value[0] == '/'
  {
    match href
    case None => false
    case Some(h) => h != "" && h != "/" && h[0] == '/'
  }

  /** An accepted link resolved against the base URL. */
  function Resolve(href: string): (url: string)
    ensures |url| == |BaseURL| + |href|
    ensures url[..|BaseURL|] == BaseURL && url[|BaseURL|..] == href
  {
    BaseURL + href
  }

  lemma ResolveInjective(a: string, b: string)
    ensures Resolve(a) == Resolve(b) <==> a == b
  {
    if Resolve(a) == Resolve(b) {
      assert a == Resolve(a)[|BaseURL|..];
    }
  }

  predicate Distinct(urls: seq<string>) {
    forall j, k :: 0 <= j < k < |urls| ==> urls[j] != urls[k]
  }

  /** Some accepted href of the page resolves to url. */
  predicate FromPage(hrefs: seq<Option<string>>, url: string) {
    exists k :: 0 <= k < |hrefs| && AcceptHref(hrefs[k]) && Resolve(hrefs[k].value) == url
  }

  /**
   Where url first appears on the page: the index of the first accepted
   href that resolves to it, or |hrefs| when none does.
   */
  function FirstIndex(hrefs: seq<Option<string>>, url: string): nat
    decreases |hrefs|
  {
    if hrefs == [] then 0
    else if AcceptHref(hrefs[0]) && Resolve(hrefs[0].value) == url then 0
    else 1 + FirstIndex(hrefs[1..], url)
  }

  /** FirstIndex is where url first appears: accepted there, and at no earlier accepted href. */
  lemma {:induction false} FirstIndexIsFirst(hrefs: seq<Option<string>>, url: string)
    ensures FirstIndex(hrefs, url) <= |hrefs|
    ensures FirstIndex(hrefs, url) < |hrefs| ==>
              AcceptHref(hrefs[FirstIndex(hrefs, url)]) && Resolve(hrefs[FirstIndex(hrefs, url)].value) == url
    ensures forall k :: 0 <= k < FirstIndex(hrefs, url) && AcceptHref(hrefs[k]) ==> Resolve(hrefs[k].value) != url
    decreases |hrefs|
  {
    if hrefs != [] && !(AcceptHref(hrefs[0]) && Resolve(hrefs[0].value) == url) {
      FirstIndexIsFirst(hrefs[1..], url);
      forall k | 1 <= k < |hrefs| ensures hrefs[k] == hrefs[1..][k - 1] { }
    }
  }

  /** The URLs are listed in the order of their first accepted anchor on the page. */
  predicate InDocumentOrder(hrefs: seq<Option<string>>, urls: seq<string>) {
    forall j, j' :: 0 <= j < j' < |urls| ==> FirstIndex(hrefs, urls[j]) < FirstIndex(hrefs, urls[j'])
  }

  /**
   URLs in document order on the rest of a page stay in order on the whole
   page, one position later, when the first href does not resolve to any
   of them.
   */
  lemma OrderTail(hrefs: seq<Option<string>>, tail: seq<string>)
    requires hrefs != [] && InDocumentOrder(hrefs[1..], tail)
    requires forall j :: 0 <= j < |tail| ==> !(AcceptHref(hrefs[0]) && Resolve(hrefs[0].value) == tail[j])
    ensures InDocumentOrder(hrefs, tail)
    ensures forall j :: 0 <= j < |tail| ==> FirstIndex(hrefs, tail[j]) == 1 + FirstIndex(hrefs[1..], tail[j])
  {
  }

  /** The first href's URL, followed by URLs in order on the rest of the page, is in order. */
  lemma OrderHead(hrefs: seq<Option<string>>, url: string, tail: seq<string>)
    requires hrefs != [] && AcceptHref(hrefs[0]) && Resolve(hrefs[0].value) == url
    requires InDocumentOrder(hrefs[1..], tail)
    requires forall j :: 0 <= j < |tail| ==> tail[j] != url
    ensures InDocumentOrder(hrefs, [url] + tail)
  {
    OrderTail(hrefs, tail);
    var urls := [url] + tail;
    forall j, j' | 0 <= j < j' < |urls|
      ensures FirstIndex(hrefs, urls[j]) < FirstIndex(hrefs, urls[j'])
    {
      assert urls[j'] == tail[j' - 1];
      if j > 0 { assert urls[j] == tail[j - 1]; }
    }
  }

  /**
   The URLs discovery enqueues from one page, in document order: every
   accepted href resolved, skipping those already called, earlier on the
   run or earlier on the same page.
   */
  function NewLinks(hrefs: seq<Option<string>>, called: set<string>): (urls: seq<string>)
    ensures Distinct(urls)
    ensures forall j :: 0 <= j < |urls| ==> urls[j] !in called
    ensures forall j :: 0 <= j < |urls| ==> FromPage(hrefs, urls[j])
    ensures forall k :: 0 <= k < |hrefs| && AcceptHref(hrefs[k]) ==>
              Resolve(hrefs[k].value) in called || Resolve(hrefs[k].value) in urls
    ensures InDocumentOrder(hrefs, urls)
    decreases |hrefs|
  {
    if hrefs == [] then []
    else
      var rest := hrefs[1..];
      if AcceptHref(hrefs[0]) && Resolve(hrefs[0].value) !in called then
        var url := Resolve(hrefs[0].value);
        var tail := NewLinks(rest, called + {url});
        FromPageTail(hrefs, tail);
        assert FromPage(hrefs, url) by { assert AcceptHref(hrefs[0]); }
        CoversTail(hrefs, called + {url}, tail);
        OrderHead(hrefs, url, tail);
        [url] + tail
      else
        var tail := NewLinks(rest, called);
        FromPageTail(hrefs, tail);
        CoversTail(hrefs, called, tail);
        OrderTail(hrefs, tail);
        tail
  }

  /** What comes from the rest of a page comes from the page. */
  lemma FromPageTail(hrefs: seq<Option<string>>, tail: seq<string>)
    requires hrefs != []
    requires forall j :: 0 <= j < |tail| ==> FromPage(hrefs[1..], tail[j])
    ensures forall j :: 0 <= j < |tail| ==> FromPage(hrefs, tail[j])
  {
    forall j | 0 <= j < |tail|
      ensures FromPage(hrefs, tail[j])
    {
      var k :| 0 <= k < |hrefs[1..]| && AcceptHref(hrefs[1..][k]) && Resolve(hrefs[1..][k].value) == tail[j];
      assert hrefs[k + 1] == hrefs[1..][k];
    }
  }

  /**
   If the rest of a page is covered by called and tail, and the head is
   accepted only if it is in called, then the whole page is.
   */
  lemma CoversTail(hrefs: seq<Option<string>>, called: set<string>, tail: seq<string>)
    requires hrefs != []
    requires AcceptHref(hrefs[0]) ==> Resolve(hrefs[0].value) in called
    requires forall k :: 0 <= k < |hrefs[1..]| && AcceptHref(hrefs[1..][k]) ==>
               Resolve(hrefs[1..][k].value) in called || Resolve(hrefs[1..][k].value) in tail
    ensures forall k :: 0 <= k < |hrefs| && AcceptHref(hrefs[k]) ==>
              Resolve(hrefs[k].value) in called || Resolve(hrefs[k].value) in tail
  {
    forall k | 0 <= k < |hrefs| && AcceptHref(hrefs[k])
      ensures Resolve(hrefs[k].value) in called || Resolve(hrefs[k].value) in tail
    {
      if k > 0 { assert hrefs[k] == hrefs[1..][k - 1]; }
    }
  }

  function Urls(reqs: seq<PageRequest>): (urls: set<string>)
    ensures forall j :: 0 <= j < |reqs| ==> reqs[j].url in urls
    ensures forall u :: u in urls ==> exists j :: 0 <= j < |reqs| && reqs[j].url == u
  {
    set j | 0 <= j < |reqs| :: reqs[j].url
  }

  /** Get each request in turn, as the Each callback does. */
  function GetAll(c: Caller, reqs: seq<PageRequest>): (r: Caller)
    ensures r.maxCalls == c.maxCalls
    ensures Outstanding(r) == Outstanding(c) + multiset(reqs)
    // the active jobs stay in place; the queue then reqs, in order, are admitted first and queued after
    ensures |c.jobs| <= |r.jobs| && r.jobs[..|c.jobs|] == c.jobs
    ensures c.requests + reqs == r.jobs[|c.jobs|..] + r.requests
    decreases |reqs|
  {
    if reqs == [] then
      assert c.requests + reqs == c.requests;
      c
    else
      var c1 := Get(c, reqs[0]);
      var r := GetAll(c1, reqs[1..]);
      AccountHead(Outstanding(c), Outstanding(c1), Outstanding(r), reqs);
      Extend(c.requests + [reqs[0]], reqs[1..], c.jobs, c1.jobs, r.jobs, c1.requests, r.requests);
      HeadTailAppend(c.requests, reqs);
      r
  }

  lemma HeadTailAppend<T>(q: seq<T>, s: seq<T>)
    requires s != []
    ensures q + [s[0]] + s[1..] == q + s
  {
    assert [s[0]] + s[1..] == s;
  }

  /**
   One more enqueue phase: if q is the jobs admitted beyond j0 followed by
   the queue q1, and the phase turns q1 + add into jobs admitted beyond j1
   and the queue q2, then q + add is everything admitted beyond j0 followed
   by q2.
   */
  lemma Extend<T>(q: seq<T>, add: seq<T>, j0: seq<T>, j1: seq<T>, j2: seq<T>, q1: seq<T>, q2: seq<T>)
    requires |j0| <= |j1| && j1[..|j0|] == j0
    requires |j1| <= |j2| && j2[..|j1|] == j1
    requires q == j1[|j0|..] + q1
    requires q1 + add == j2[|j1|..] + q2
    ensures |j0| <= |j2| && j2[..|j0|] == j0
    ensures q + add == j2[|j0|..] + q2
  {
    assert j2[..|j0|] == j2[..|j1|][..|j0|];
    assert j2[|j0|..] == j1[|j0|..] + j2[|j1|..] by {
      assert j2[|j0|..|j1|] == j1[|j0|..];
      assert j2[|j0|..] == j2[|j0|..|j1|] + j2[|j1|..];
    }
    calc {
      q + add;
      (j1[|j0|..] + q1) + add;
      j1[|j0|..] + (q1 + add);
      j1[|j0|..] + (j2[|j1|..] + q2);
      (j1[|j0|..] + j2[|j1|..]) + q2;
      j2[|j0|..] + q2;
    }
  }

  /** Bookkeeping for one step of GetAll: adding the head, then the tail, adds the whole list. */
  lemma AccountHead(before: multiset<PageRequest>, mid: multiset<PageRequest>, after: multiset<PageRequest>,
                    reqs: seq<PageRequest>)
    requires reqs != []
    requires mid == before + multiset{reqs[0]}
    requires after == mid + multiset(reqs[1..])
    ensures after == before + multiset(reqs)
  {
    assert multiset(reqs) == multiset{reqs[0]} + multiset(reqs[1..]) by {
      assert reqs == [reqs[0]] + reqs[1..];
    }
  }

  lemma {:induction false} GetAllPreservesValid(c: Caller, reqs: seq<PageRequest>)
    requires Valid(c)
    ensures Valid(GetAll(c, reqs))
    decreases |reqs|
  {
    if reqs != [] {
      GetPreservesValid(c, reqs[0]);
      GetAllPreservesValid(Get(c, reqs[0]), reqs[1..]);
    }
  }

  /** No two requests in the list carry the same URL. */
  predicate DistinctUrls(reqs: seq<PageRequest>) {
    forall j, k :: 0 <= j < k < |reqs| ==> reqs[j].url != reqs[k].url
  }

  /** Requests built one per URL keep the URLs' document order. */
  lemma LiftOrder(hrefs: seq<Option<string>>, urls: seq<string>, links: seq<PageRequest>)
    requires |links| == |urls|
    requires forall j :: 0 <= j < |urls| ==> links[j].url == urls[j]
    requires InDocumentOrder(hrefs, urls)
    ensures forall j, j' :: 0 <= j < j' < |links| ==>
              FirstIndex(hrefs, links[j].url) < FirstIndex(hrefs, links[j'].url)
  {
    forall j, j' | 0 <= j < j' < |links|
      ensures FirstIndex(hrefs, links[j].url) < FirstIndex(hrefs, links[j'].url)
    {
      assert links[j].url == urls[j] && links[j'].url == urls[j'];
    }
  }

  /** Requests built one per URL, all at depth d, carry the URLs' facts over to the requests. */
  lemma LiftToLinks(hrefs: seq<Option<string>>, called: set<string>, urls: seq<string>, d: int, links: seq<PageRequest>)
    requires |links| == |urls|
    requires forall j :: 0 <= j < |urls| ==> links[j].url == urls[j] && links[j].depth == d
    requires Distinct(urls)
    requires forall j :: 0 <= j < |urls| ==> urls[j] !in called && FromPage(hrefs, urls[j])
    requires forall k :: 0 <= k < |hrefs| && AcceptHref(hrefs[k]) ==>
               Resolve(hrefs[k].value) in called || Resolve(hrefs[k].value) in urls
    ensures DistinctUrls(links)
    ensures forall j :: 0 <= j < |links| ==> links[j].url !in called && FromPage(hrefs, links[j].url)
    ensures forall j :: 0 <= j < |links| ==> links[j].depth == d
    ensures forall k :: 0 <= k < |hrefs| && AcceptHref(hrefs[k]) ==>
              Resolve(hrefs[k].value) in called + Urls(links)
  {
    forall k | 0 <= k < |hrefs| && AcceptHref(hrefs[k])
      ensures Resolve(hrefs[k].value) in called + Urls(links)
    {
      var u := Resolve(hrefs[k].value);
      if u !in called {
        var j :| 0 <= j < |urls| && urls[j] == u;
        assert links[j].url == u;
      }
    }
  }

  /**
   Link discovery for one page: nothing from a page at depth maxDepth or
   deeper; otherwise the new URLs of the page, one level below it.
   */
  function Discover(maxDepth: int, parent: PageRequest, hrefs: seq<Option<string>>, called: set<string>)
    : (links: seq<PageRequest>)
    ensures parent.depth >= maxDepth ==> links == []
    ensures DistinctUrls(links)
    ensures forall j :: 0 <= j < |links| ==> links[j].url !in called && FromPage(hrefs, links[j].url)
    ensures forall j :: 0 <= j < |links| ==> links[j].depth == parent.depth + 1 <= maxDepth
    ensures parent.depth < maxDepth ==>
              forall k :: 0 <= k < |hrefs| && AcceptHref(hrefs[k]) ==>
                Resolve(hrefs[k].value) in called + Urls(links)
    // links follow the page's anchors in document order
    ensures forall j, j' :: 0 <= j < j' < |links| ==>
              FirstIndex(hrefs, links[j].url) < FirstIndex(hrefs, links[j'].url)
  {
    if parent.depth < maxDepth then
      var urls := NewLinks(hrefs, called);
      var links := seq(|urls|, j requires 0 <= j < |urls| => PageRequest(urls[j], parent.depth + 1));
      LiftToLinks(hrefs, called, urls, parent.depth + 1, links);
      LiftOrder(hrefs, urls, links);
      links
    else []
  }

  // ---- One step: handleResponse ----

  /**
   handleResponse for a completed job at index i: classify the response,
   charge the error budget and retry on a server error, then discover links
   and count the article. A retried page is still parsed and searched for
   links, as main.go does not return after re-enqueuing it.
   */
  function HandleResponse(maxDepth: int, st: CrawlState, i: nat, f: Fetched): (r: StepResult)
    requires st.caller.jobs != [] ==> i < |st.caller.jobs|
    ensures r.state.caller.maxCalls == st.caller.maxCalls
    // Done exactly when Next returns nil, and then nothing changes
    ensures r.outcome.Done? <==> st.caller.jobs == []
    ensures r.outcome.Done? ==> r.state == st && r.links == []
    // classification
    ensures r.outcome == Fatal(TransportFailure) <==> st.caller.jobs != [] && f.transportError
    ensures r.outcome.Fatal? && r.outcome.reason.ClientStatus? <==>
              st.caller.jobs != [] && !f.transportError && IsClientError(f.status)
    ensures r.outcome.Fatal? && r.outcome.reason.ClientStatus? ==> r.outcome.reason.code == f.status
    ensures r.outcome == Fatal(TooManyErrors) <==>
              st.caller.jobs != [] && !f.transportError && IsServerError(f.status)
              && st.currentErrors + 1 >= MaxErrors
    ensures r.outcome == Fatal(ParseFailure) <==>
              st.caller.jobs != [] && !f.transportError && !IsClientError(f.status)
              && (f.status == 200 || st.currentErrors + 1 < MaxErrors) && f.parseFailed
    ensures r.outcome.Continue? <==> Proceeds(st, f)
    // the error budget moves only on a server error, by exactly one
    ensures r.state.currentErrors == st.currentErrors +
              (if st.caller.jobs != [] && !f.transportError && IsServerError(f.status) then 1 else 0)
    // discovery runs on every continuing step, retried or not, and records what it enqueues
    ensures r.outcome.Continue? ==> r.links == Discover(maxDepth, st.caller.jobs[i], f.hrefs, st.calledURLs)
    ensures !r.outcome.Continue? ==> r.links == []
    ensures !r.outcome.Continue? ==> r.state.calledURLs == st.calledURLs
    ensures r.outcome.Continue? ==> r.state.calledURLs == st.calledURLs + Urls(r.links)
    // articles
    ensures r.state.totalArticles == st.totalArticles + (if r.outcome.Continue? && f.isArticle then 1 else 0)
  {
    var n := Next(st.caller, i);
    match n.response
    case None => StepResult(st.(caller := n.caller), Done, [])
    case Some(req) =>
      if f.transportError then
        StepResult(st.(caller := n.caller), Fatal(TransportFailure), [])
      else if IsClientError(f.status) then
        StepResult(st.(caller := n.caller), Fatal(ClientStatus(f.status)), [])
      else
        var errors := if f.status != 200 then st.currentErrors + 1 else st.currentErrors;
        if f.status != 200 && errors >= MaxErrors then
          StepResult(st.(caller := n.caller, currentErrors := errors), Fatal(TooManyErrors), [])
        else
          var retried := if f.status != 200 then Get(n.caller, req) else n.caller;
          if f.parseFailed then
            StepResult(CrawlState(retried, st.calledURLs, st.totalArticles, errors), Fatal(ParseFailure), [])
          else
            var links := Discover(maxDepth, req, f.hrefs, st.calledURLs);
            var articles := if f.isArticle then st.totalArticles + 1 else st.totalArticles;
            StepResult(CrawlState(GetAll(retried, links), st.calledURLs + Urls(links), articles, errors),
                       Continue, links)
  }

  /**
   What a continuing step does to the scheduler's outstanding work: the
   completed request leaves, comes back once if it is retried, and the
   discovered links join.
   */
  lemma StepConservation(maxDepth: int, st: CrawlState, i: nat, f: Fetched)
    requires Proceeds(st, f) && i < |st.caller.jobs|
    ensures Outstanding(HandleResponse(maxDepth, st, i, f).state.caller) + multiset{st.caller.jobs[i]}
              == Outstanding(st.caller)
                 + (if IsServerError(f.status) then multiset{st.caller.jobs[i]} else multiset{})
                 + multiset(HandleResponse(maxDepth, st, i, f).links)
  {
    var r := HandleResponse(maxDepth, st, i, f);
    var n := Next(st.caller, i);
    var done := st.caller.jobs[i];
    var retried := if f.status != 200 then Get(n.caller, done) else n.caller;
    var extra := if IsServerError(f.status) then multiset{done} else multiset{};
    assert r.state.caller == GetAll(retried, r.links);
    assert Outstanding(n.caller) + multiset{done} == Outstanding(st.caller);
    assert Outstanding(retried) == Outstanding(n.caller) + extra;
    AccountStep(Outstanding(st.caller), Outstanding(n.caller), Outstanding(retried),
                Outstanding(r.state.caller), multiset{done}, extra, multiset(r.links));
  }

  /**
   The scheduler side of a continuing step: complete job i, re-enqueue it
   when retry holds, then enqueue the links.
   */
  function StepCaller(c: Caller, i: nat, retry: bool, links: seq<PageRequest>): Caller
    requires i < |c.jobs|
  {
    var n := Next(c, i).caller;
    GetAll(if retry then Get(n, c.jobs[i]) else n, links)
  }

  /**
   The order StepCaller leaves the scheduler in, after Next has completed
   job i: the jobs active then keep their slots, and the queue left by Next,
   then the retried request, then the links, in order, are admitted first
   and queued after.
   */
  lemma StepCallerOrder(c: Caller, i: nat, retry: bool, links: seq<PageRequest>)
    requires i < |c.jobs|
    ensures |Next(c, i).caller.jobs| <= |StepCaller(c, i, retry, links).jobs|
    ensures StepCaller(c, i, retry, links).jobs[..|Next(c, i).caller.jobs|] == Next(c, i).caller.jobs
    ensures Next(c, i).caller.requests + (if retry then [c.jobs[i]] else []) + links
            == StepCaller(c, i, retry, links).jobs[|Next(c, i).caller.jobs|..] + StepCaller(c, i, retry, links).requests
  {
    var n := Next(c, i).caller;
    if retry {
      var m := Get(n, c.jobs[i]);
      var c3 := GetAll(m, links);
      assert StepCaller(c, i, retry, links) == c3;
      Extend(n.requests + [c.jobs[i]], links, n.jobs, m.jobs, c3.jobs, m.requests, c3.requests);
    } else {
      var c3 := GetAll(n, links);
      assert StepCaller(c, i, retry, links) == c3;
      assert n.requests + [] == n.requests;
    }
  }

  /**
   The order a continuing step leaves the scheduler in: the old queue, then
   the request itself on a server error, then the discovered links in
   document order are admitted first and queued after, while the surviving
   active jobs keep their slots. This is the order in which requests are
   admitted; which job completes next is the index Next is given.
   */
  lemma StepQueueOrder(maxDepth: int, st: CrawlState, i: nat, f: Fetched)
    requires Proceeds(st, f) && i < |st.caller.jobs|
    ensures HandleResponse(maxDepth, st, i, f).state.caller
            == StepCaller(st.caller, i, IsServerError(f.status), HandleResponse(maxDepth, st, i, f).links)
    ensures |Next(st.caller, i).caller.jobs| <= |HandleResponse(maxDepth, st, i, f).state.caller.jobs|
    ensures HandleResponse(maxDepth, st, i, f).state.caller.jobs[..|Next(st.caller, i).caller.jobs|]
            == Next(st.caller, i).caller.jobs
    ensures Next(st.caller, i).caller.requests
              + (if IsServerError(f.status) then [st.caller.jobs[i]] else [])
              + HandleResponse(maxDepth, st, i, f).links
            == HandleResponse(maxDepth, st, i, f).state.caller.jobs[|Next(st.caller, i).caller.jobs|..]
              + HandleResponse(maxDepth, st, i, f).state.caller.requests
  {
    StepCallerOrder(st.caller, i, IsServerError(f.status), HandleResponse(maxDepth, st, i, f).links);
  }

  /** Bookkeeping for one step: take one job out, put extra back, add the links. */
  lemma AccountStep<T>(before: multiset<T>, taken: multiset<T>, retried: multiset<T>, after: multiset<T>,
                       done: multiset<T>, extra: multiset<T>, links: multiset<T>)
    requires taken + done == before
    requires retried == taken + extra
    requires after == retried + links
    ensures after + done == before + extra + links
  {
  }

  // ---- The crawl invariant ----

  /** A request the crawl may hold: its URL is recorded and its depth is in range. */
  predicate Tracked(maxDepth: int, called: set<string>, req: PageRequest) {
    req.url in called && 0 <= req.depth && (req.depth == 0 || req.depth <= maxDepth)
  }

  /** What holds of every state the crawl reaches while it continues. */
  predicate CrawlInv(maxDepth: int, st: CrawlState) {
    && Valid(st.caller)
    && (forall req :: req in Outstanding(st.caller) ==> Tracked(maxDepth, st.calledURLs, req))
    && 0 <= st.currentErrors < MaxErrors
    && 0 <= st.totalArticles
  }

  lemma SeedEstablishesInv(maxDepth: int, maxCalls: int)
    ensures CrawlInv(maxDepth, Seed(maxCalls))
  {
    var st := Seed(maxCalls);
    assert Valid(NewCaller(maxCalls));
    GetPreservesValid(NewCaller(maxCalls), SeedRequest());
    forall req | req in Outstanding(st.caller)
      ensures Tracked(maxDepth, st.calledURLs, req)
    {
      assert req == SeedRequest();
    }
  }

  /** A step that does not abort keeps the crawl invariant. */
  lemma StepPreservesInv(maxDepth: int, st: CrawlState, i: nat, f: Fetched)
    requires CrawlInv(maxDepth, st)
    requires st.caller.jobs != [] ==> i < |st.caller.jobs|
    ensures !HandleResponse(maxDepth, st, i, f).outcome.Fatal? ==>
              CrawlInv(maxDepth, HandleResponse(maxDepth, st, i, f).state)
  {
    var r := HandleResponse(maxDepth, st, i, f);
    if r.outcome.Continue? {
      StepPreservesValid(maxDepth, st, i, f);
      StepKeepsTracked(maxDepth, st, i, f);
    }
  }

  lemma StepPreservesValid(maxDepth: int, st: CrawlState, i: nat, f: Fetched)
    requires Valid(st.caller)
    requires Proceeds(st, f) && i < |st.caller.jobs|
    ensures Valid(HandleResponse(maxDepth, st, i, f).state.caller)
  {
    var r := HandleResponse(maxDepth, st, i, f);
    var n := Next(st.caller, i);
    var done := st.caller.jobs[i];
    NextPreservesValid(st.caller, i);
    var retried := if f.status != 200 then Get(n.caller, done) else n.caller;
    if f.status != 200 { GetPreservesValid(n.caller, done); }
    GetAllPreservesValid(retried, r.links);
    assert r.state.caller == GetAll(retried, r.links);
  }

  lemma StepKeepsTracked(maxDepth: int, st: CrawlState, i: nat, f: Fetched)
    requires forall req :: req in Outstanding(st.caller) ==> Tracked(maxDepth, st.calledURLs, req)
    requires Proceeds(st, f) && i < |st.caller.jobs|
    ensures var r := HandleResponse(maxDepth, st, i, f);
            forall req :: req in Outstanding(r.state.caller) ==> Tracked(maxDepth, r.state.calledURLs, req)
  {
    var r := HandleResponse(maxDepth, st, i, f);
    var done := st.caller.jobs[i];
    assert done in Outstanding(st.caller);
    StepConservation(maxDepth, st, i, f);
    assert r.state.calledURLs == st.calledURLs + Urls(r.links);
    LinksTracked(maxDepth, st.calledURLs, r.links);
    forall req | req in Outstanding(r.state.caller)
      ensures Tracked(maxDepth, r.state.calledURLs, req)
    {
      assert req in Outstanding(r.state.caller) + multiset{done};
    }
  }

  /** Discovered links, once recorded, are tracked. */
  lemma LinksTracked(maxDepth: int, called: set<string>, links: seq<PageRequest>)
    requires forall j :: 0 <= j < |links| ==> 0 <= links[j].depth <= maxDepth
    ensures forall req :: req in multiset(links) ==> Tracked(maxDepth, called + Urls(links), req)
  {
    forall req | req in multiset(links)
      ensures Tracked(maxDepth, called + Urls(links), req)
    {
      var j :| 0 <= j < |links| && links[j] == req;
    }
  }

  // ---- The driver loop ----

  /** The environment's side of one iteration: which active job completes, and with what. */
  datatype Event = Event(index: nat, fetched: Fetched)

  /** Every event names an active job whenever one exists, up to the first non-continuing step. */
  predicate Drivable(maxDepth: int, st: CrawlState, events: seq<Event>)
    decreases |events|
  {
    events == [] ||
    ((st.caller.jobs != [] ==> events[0].index < |st.caller.jobs|)
     && (var r := HandleResponse(maxDepth, st, events[0].index, events[0].fetched);
         r.outcome.Continue? ==> Drivable(maxDepth, r.state, events[1..])))
  }

  /** Where a run of the loop ends, and every request link discovery enqueued on the way. */
  datatype CrawlResult = CrawlResult(state: CrawlState, outcome: Outcome, links: seq<PageRequest>)

  /**
   `for !handleResponse() {}`: step until Done or Fatal. When the events run
   out first the crawl is still running and the outcome is Continue.
   */
  function Loop(maxDepth: int, st: CrawlState, events: seq<Event>): (r: CrawlResult)
    requires Drivable(maxDepth, st, events)
    ensures r.state.caller.maxCalls == st.caller.maxCalls
    ensures st.calledURLs <= r.state.calledURLs
    ensures st.currentErrors <= r.state.currentErrors
    ensures st.totalArticles <= r.state.totalArticles
    ensures r.outcome.Done? ==> r.state.caller.jobs == []
    decreases |events|
  {
    if events == [] then CrawlResult(st, Continue, [])
    else
      var step := HandleResponse(maxDepth, st, events[0].index, events[0].fetched);
      if !step.outcome.Continue? then CrawlResult(step.state, step.outcome, step.links)
      else
        var rest := Loop(maxDepth, step.state, events[1..]);
        CrawlResult(rest.state, rest.outcome, step.links + rest.links)
  }

  /**
   Dedup and depth over a whole run: no URL is enqueued twice by discovery,
   none that was called before the run, every one is recorded as called, and
   none is deeper than maxDepth.
   */
  lemma {:induction false} LoopDedup(maxDepth: int, st: CrawlState, events: seq<Event>)
    requires Drivable(maxDepth, st, events)
    ensures FreshLinks(maxDepth, Loop(maxDepth, st, events).links, st.calledURLs, Loop(maxDepth, st, events).state.calledURLs)
    decreases |events|
  {
    if events != [] {
      var step := HandleResponse(maxDepth, st, events[0].index, events[0].fetched);
      StepFreshLinks(maxDepth, st, events[0].index, events[0].fetched);
      if step.outcome.Continue? {
        var rest := Loop(maxDepth, step.state, events[1..]);
        LoopDedup(maxDepth, step.state, events[1..]);
        JoinFreshLinks(maxDepth, step.links, rest.links, st.calledURLs, step.state.calledURLs, rest.state.calledURLs);
      }
    }
  }

  /**
   Links that are distinct, were not called before, are called after, and
   are no deeper than maxDepth.
   */
  predicate FreshLinks(maxDepth: int, links: seq<PageRequest>, before: set<string>, after: set<string>) {
    && DistinctUrls(links)
    && (forall j :: 0 <= j < |links| ==> links[j].url !in before)
    && (forall j :: 0 <= j < |links| ==> links[j].url in after)
    && (forall j :: 0 <= j < |links| ==> links[j].depth <= maxDepth)
  }

  lemma StepFreshLinks(maxDepth: int, st: CrawlState, i: nat, f: Fetched)
    requires st.caller.jobs != [] ==> i < |st.caller.jobs|
    ensures var r := HandleResponse(maxDepth, st, i, f);
            FreshLinks(maxDepth, r.links, st.calledURLs, r.state.calledURLs)
  {
    var r := HandleResponse(maxDepth, st, i, f);
    assert forall j :: 0 <= j < |r.links| ==> r.links[j].url in Urls(r.links);
  }

  lemma JoinFreshLinks(maxDepth: int, a: seq<PageRequest>, b: seq<PageRequest>,
                       before: set<string>, mid: set<string>, after: set<string>)
    requires FreshLinks(maxDepth, a, before, mid)
    requires FreshLinks(maxDepth, b, mid, after)
    requires before <= mid <= after
    ensures FreshLinks(maxDepth, a + b, before, after)
  {
    var links := a + b;
    forall j, k | 0 <= j < k < |links|
      ensures links[j].url != links[k].url
    {
      if k >= |a| {
        assert links[k] == b[k - |a|];
        if j < |a| {
          assert links[j] == a[j];
        } else {
          assert links[j] == b[j - |a|];
        }
      }
    }
  }

  /** A run that does not abort keeps the crawl invariant. */
  lemma {:induction false} LoopPreservesInv(maxDepth: int, st: CrawlState, events: seq<Event>)
    requires CrawlInv(maxDepth, st)
    requires Drivable(maxDepth, st, events)
    ensures !Loop(maxDepth, st, events).outcome.Fatal? ==> CrawlInv(maxDepth, Loop(maxDepth, st, events).state)
    decreases |events|
  {
    if events != [] {
      StepPreservesInv(maxDepth, st, events[0].index, events[0].fetched);
      var step := HandleResponse(maxDepth, st, events[0].index, events[0].fetched);
      if step.outcome.Continue? {
        LoopPreservesInv(maxDepth, step.state, events[1..]);
      }
    }
  }

  /** With MaxCalls >= 1, the crawl reports Done only when nothing is pending or active. */
  lemma DoneMeansDrained(maxDepth: int, st: CrawlState, events: seq<Event>)
    requires CrawlInv(maxDepth, st) && st.caller.maxCalls >= 1
    requires Drivable(maxDepth, st, events)
    ensures Loop(maxDepth, st, events).outcome.Done? ==>
              Outstanding(Loop(maxDepth, st, events).state.caller) == multiset{}
  {
    LoopPreservesInv(maxDepth, st, events);
  }

  /**
   The whole crawl from the seeded state: no URL is discovered twice and the
   base URL is never rediscovered, a run that does not abort keeps the crawl
   invariant, and with MaxCalls >= 1 a Done crawl has nothing left to do.
   */
  lemma CrawlFromSeed(maxDepth: int, maxCalls: int, events: seq<Event>)
    requires Drivable(maxDepth, Seed(maxCalls), events)
    ensures var r := Loop(maxDepth, Seed(maxCalls), events);
            && FreshLinks(maxDepth, r.links, {BaseURL}, r.state.calledURLs)
            && (!r.outcome.Fatal? ==> CrawlInv(maxDepth, r.state))
            && (r.outcome.Done? && maxCalls >= 1 ==> Outstanding(r.state.caller) == multiset{})
  {
    SeedEstablishesInv(maxDepth, maxCalls);
    LoopDedup(maxDepth, Seed(maxCalls), events);
    LoopPreservesInv(maxDepth, Seed(maxCalls), events);
    if maxCalls >= 1 {
      DoneMeansDrained(maxDepth, Seed(maxCalls), events);
    }
  }
}
