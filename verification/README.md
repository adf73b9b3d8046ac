# Depth-limited site crawler: scheduler and crawl step

This project models the two pieces of sequential bookkeeping in a Go web crawler that follows one site's links up to a depth limit and admits fetches in FIFO order.

- **The URL caller** (`ucl/ucl.go`, module `Ucl`) has two parts:
  - a FIFO queue of pending `PageRequest`s (`requests`);
  - an unordered list of active jobs (`jobs`), bounded by `MaxCalls`.

  `Get` appends to the queue and calls `tryStartNext`. `tryStartNext` promotes at most the head of the queue, and only when a slot is free. `Next` returns nil when nothing is active. Otherwise it swap-removes one completed job and calls `tryStartNext` again. A job is modelled as the `PageRequest` it carries. The job that completes is an index chosen by the environment.
- **The crawl step** (`main.go`, module `Crawl`) is the `handleResponse` closure, plus the seeding before it and the `for !handleResponse() {}` driver loop. The step does four things:
  - classifies a completed response: transport error, 4xx, other non-200, or 200;
  - charges the shared error budget (`currentErrors` against `maxErrors = 5`) and re-enqueues the request on a server error;
  - filters the page's `href`s, resolves them as `baseURL + href`, dedups them through `calledURLs`, and follows links only from pages below `maxDepth`;
  - counts article pages.

  The step is a total function from a state and a completed response to a new state and an outcome: `Continue`, `Done`, or `Fatal(reason)` for main.go's `log.Fatal`.

The modules are plain functions over immutable datatypes. Properties are stated as `ensures` clauses on the operations and as lemmas over traces:
- `Ucl.Execute` runs an interleaving of `Get` and `Next`;
- `Crawl.Loop` runs the driver loop over a sequence of completion events.

`scenarios.dfy` holds concrete runs: two slots and three requests, a seed page with relative and external links, five 503s in a row, and a 404.

## Model

| member | source | states |
|---|---|---|
| Ucl.TryStartNext | ucl/ucl.go:27-56 | No change when the queue is empty or no slot is free. Otherwise exactly the head of the queue moves to the end of the active list, only when `len(jobs) < MaxCalls`. Nothing is lost: pending + active is unchanged as a multiset. |
| Ucl.Get | ucl/ucl.go:59-62 | The old queue followed by the new request equals the requests admitted by this call (at most one) followed by the new queue. The request sits at the tail of the queue unless it was itself admitted into an empty queue. The active list grows by at most one. The outstanding multiset grows by exactly the request. |
| Ucl.SwapRemove | ucl/ucl.go:84-87 | The list shrinks by one. The survivors are the old jobs minus the removed one, as a multiset. Every other slot keeps its job, except that the last job moves into the freed slot. |
| Ucl.Next | ucl/ucl.go:65-93 | Returns nil exactly when `jobs` is empty, and then changes nothing. Otherwise it returns `jobs[i]`. Before re-promotion the active list is the swap-removed old list. At most the head of the queue is then admitted. Outstanding work plus the returned request equals the old outstanding work. |
| Ucl.GetPreservesValid | ucl/ucl.go:27-62 | `Get` keeps both the concurrency bound and the work-conserving property: no free slot while requests are pending. |
| Ucl.NextPreservesValid | ucl/ucl.go:65-93 | `Next` keeps the concurrency bound and the work-conserving property. |
| Ucl.NextNilMeansDrained | ucl/ucl.go:65-69 | With `MaxCalls >= 1`, in a valid caller, `Next` returning nil means the queue is empty as well as the active list. |
| Ucl.NoLoss | ucl/ucl.go:40-55 | Over any interleaving of `Get` and `Next`: the outstanding requests at the start plus everything passed to `Get` equal the outstanding requests at the end plus everything `Next` returned, as multisets. |
| Ucl.FifoAdmission | ucl/ucl.go:39-42 | Over any interleaving: the queue at the start plus the requests passed to `Get`, in order, equal the requests admitted to the active list, in admission order, followed by the final queue. |
| Ucl.ValidAlongTrace | ucl/ucl.go:33-36 | Over any interleaving, a valid caller stays valid: the active count never exceeds `MaxCalls`, and no slot is idle while work is pending. |
| Ucl.FromEmpty | ucl/ucl.go:20-25 | From the zero-value caller, three things hold after any interleaving: pending + active + returned equals everything submitted; admission is in submission order; the caller is valid. |
| Crawl.Seed | main.go:29-39 | The initial state holds exactly the base URL at depth 0 as outstanding work. The request is active when `MaxCalls >= 1` and pending otherwise. `calledURLs` is `{baseURL}`, and both counters are 0. |
| Crawl.SeedEstablishesInv | main.go:21-39 | The seeded state satisfies the crawl invariant. |
| Crawl.AcceptHref | main.go:79-96 | An href is accepted iff the attribute is present, has at least two characters and starts with `/`. This is equivalent to main.go's four checks: present, non-empty, not `/`, leading `/`. |
| Crawl.Resolve | main.go:99 | The resolved URL is the base URL followed by the href: exactly as many characters as the two together, with `baseURL` as prefix and the href as suffix. |
| Crawl.ResolveInjective | main.go:99 | `baseURL + href` is injective, so distinct hrefs resolve to distinct URLs. |
| Crawl.FirstIndexIsFirst | main.go:78-104 | `FirstIndex(hrefs, url)` is the position of the first href in the page that is accepted and resolves to `url`. No earlier accepted href resolves to it, and it is the number of hrefs when there is none. This is the document position the anchor loop reaches the URL at. |
| Crawl.NewLinks | main.go:78-104 | The URLs enqueued from one page have no duplicates. None of them was called before. Each comes from an accepted href of the page. Every accepted href's URL is either already called or among them. They are listed in document order: each URL's first accepted anchor (`FirstIndex`) comes strictly before the next URL's. |
| Crawl.Discover | main.go:77-111 | Nothing is discovered from a page at depth `>= maxDepth`. Below that depth, every discovered request has a fresh and distinct URL, comes from the page, and has depth parent + 1 `<= maxDepth`. Every accepted href ends up called. The requests follow the page's anchors in document order, by each URL's first accepted anchor. |
| Crawl.GetAll | main.go:106-109 | Enqueuing the discovered requests one by one adds exactly them to the outstanding work. The active jobs keep their slots. The old queue followed by the requests, in order, equals the requests admitted to the active list followed by the new queue: they join the FIFO queue in the order given, which `Discover` guarantees is document order. |
| Crawl.GetAllPreservesValid | main.go:106-109 | Enqueuing a sequence of requests keeps the scheduler invariant. |
| Crawl.HandleResponse | main.go:41-126 | Done iff `Next` returns nil, and then nothing changes. Fatal(TransportFailure) iff a job completed with a transport error. Fatal(ClientStatus(code)) iff there was no transport error and the status is in [400,500), whatever the error count, and `code` is that status. Fatal(TooManyErrors) iff the status is neither 200 nor 4xx and `currentErrors + 1 >= maxErrors`. `currentErrors` grows by exactly 1 on such a status and never otherwise. Fatal(ParseFailure) iff none of those holds and the body does not parse. The step continues iff none of these fatal cases holds and the body parses. A continuing step discovers links whether or not the request was retried, and records exactly the discovered URLs in `calledURLs`. `totalArticles` grows by 1 exactly when a continuing step sees an article page. |
| Crawl.StepCallerOrder | main.go:43-109 | Completing job i, re-enqueuing it when it is retried, then enqueuing the links keeps in place the jobs active after `Next`. The queue left by `Next`, then the retried request, then the links, in that order, are admitted first and queued after. |
| Crawl.StepQueueOrder | main.go:61-109 | On a step that proceeds, the scheduler is `Next`, then the retry `Get` on a server error, then `GetAll` of the links. So the retried request enters the FIFO queue before the page's links, and the links enter in document order. |
| Crawl.StepConservation | main.go:61-68 | On a step that proceeds (a job completed, no transport error, no 4xx, a parsed body, and a 200 or an in-budget server error), the outstanding work loses the completed request, regains it once if it was a server error, and gains exactly the discovered links. |
| Crawl.StepPreservesInv | main.go:41-126 | A step that does not abort keeps the crawl invariant. The invariant has four parts: a valid scheduler; every outstanding URL in `calledURLs`, with depth 0 or `<= maxDepth`; `0 <= currentErrors < maxErrors`; a non-negative article count. |
| Crawl.StepPreservesValid | main.go:41-109 | A continuing step keeps the scheduler's concurrency bound and work-conserving property. |
| Crawl.StepKeepsTracked | main.go:61-109 | After a continuing step, every outstanding request is recorded in `calledURLs` and is within the depth bound. |
| Crawl.StepFreshLinks | main.go:98-109 | A step's discovered links are distinct, were not called before the step, are called after it, and are no deeper than `maxDepth`. |
| Crawl.Loop | main.go:129-130 | Across the driver loop, `calledURLs`, `currentErrors` and `totalArticles` never decrease and `MaxCalls` is kept. The loop reports Done only when no job is active. |
| Crawl.LoopDedup | main.go:98-109 | Across the whole loop, discovery never enqueues a URL twice and never one called before the loop. It records all of them, and enqueues none deeper than `maxDepth`. |
| Crawl.LoopPreservesInv | main.go:128-130 | A run of the loop that does not abort ends in a state that satisfies the crawl invariant. |
| Crawl.DoneMeansDrained | main.go:43-47 | From an invariant state with `MaxCalls >= 1`, the crawl ends in Done only with nothing pending and nothing active. |
| Crawl.CrawlFromSeed | main.go:29-130 | From the seeded state, over any sequence of completions, three things hold. Discovery never enqueues a URL twice and never rediscovers the base URL. A crawl that does not abort keeps the crawl invariant. With `MaxCalls >= 1`, Done means nothing is pending or active. Retries are re-enqueues of an already-called URL, not discoveries. |
| Scenarios.TwoSlotsThreeRequests | ucl/ucl.go:59-62 | With `MaxCalls = 2`, three `Get`s leave the first two active and the third queued. |
| Scenarios.MiddleSlotWaits | ucl/ucl.go:84-90 | With three slots, completing index 0 returns the job in slot 0, moves the last job into slot 0 and appends the admitted request at the end. The job in slot 1 stays in slot 1. |
| Scenarios.FirstCompletionAdmitsThird | ucl/ucl.go:84-90 | The first completion in that state returns the first request, swap-removes it and admits the queued third. |
| Scenarios.SeedPageLinks | main.go:77-109 | At depth 0 with `maxDepth = 1`, a page with `/a`, an external URL and `/b` yields exactly `baseURL/a` and `baseURL/b` at depth 1. |
| Scenarios.RepeatedLinkOnce | main.go:80-103 | A missing, empty or root href is dropped. A link repeated on one page is enqueued once, and not at all if it was already called. |
| Scenarios.SeedPageDiscovery | main.go:33-111 | The first step from the seeded state on that page continues, enqueues the two links and records them as called. |
| Scenarios.ServerErrorRetried | main.go:61-68 | With one slot and the seed active, a 503 within the budget puts the seed back as the one active job and adds 1 to the count. |
| Scenarios.FiveServerErrors | main.go:22-68 | Five 503s in a row from the seeded state: four are retried and the fifth is Fatal(TooManyErrors), with `currentErrors = 5`. |
| Scenarios.NotFoundIsFatal | main.go:55-57 | A 404 is Fatal at once, whatever the error count, and the count does not change. |

## Left out

- `http.Get` and `*http.Response`: network I/O. A completed fetch is an input (`Crawl.Fetched`): a transport-error flag, an integer status, a parse-failure flag, the anchors' `href` attributes (None where missing) and the article flag.
- Goroutines and channels (ucl/ucl.go:38, 44-54, 74-82): the concurrency. A job is the request it carries, and completion is removal at a caller-chosen index. The Go loop's single-case `select` blocks on `jobs[0]`, so the program in practice always completes index 0. That is one instance of the model.
- goquery parsing and field extraction (main.go:71, 78-79, 114, 119-123): an external library. Its results are inputs, and a parse failure is `Fatal(ParseFailure)`. The printed date, title, preamble and body text are not modelled.
- Printing, flag parsing and `log.Fatal` (main.go:14-19, 51, 56, 64, 73, 132-133): plumbing. The flags `-p` and `-d` are the parameters `maxCalls` and `maxDepth`. `log.Fatal` is the `Fatal` outcome, and the state at that point is returned.
- Processing order: the model proves FIFO admission, not breadth-first processing. Because the Go loop always completes index 0 and swap-remove refills slot 0 from the end, with `MaxCalls >= 3` the jobs in slots 1 to `MaxCalls - 2` wait until the queue is empty (`Scenarios.MiddleSlotWaits`). A retried request also rejoins the queue behind links already queued (main.go:67). So a deeper page can be fetched before a shallower one, and a URL's recorded depth can exceed its link distance from the seed.
- `defer Body.Close()` (main.go:53): resource handling with no logical content.
- Termination and liveness of the whole crawl: these depend on when real fetches complete. `Crawl.Loop` runs over a finite sequence of completion events and reports `Continue` if they run out first.
- Ucl.NextNilMeansDrained: a `MaxCalls <= 0` caller never starts a job, so `Next` returns nil while requests are still pending. The drained property is stated only for `MaxCalls >= 1`. The bound and work-conserving invariants hold for every `MaxCalls`.
- Go's 64-bit `int` wrap-around for `totalArticles`, `currentErrors` and `Depth` is not modelled. `currentErrors` stays below 5, and a child depth is at most `maxDepth`. `totalArticles` would need 2^63 article pages to wrap.

A non-fatal non-200 response is re-enqueued and still parsed for links and checked for an article (main.go:61-71); nothing returns early after the retry. `Crawl.HandleResponse` states this: a continuing step's links are `Discover(...)` whatever its status. The retry goes onto the queue before the links (`Crawl.StepQueueOrder`).
