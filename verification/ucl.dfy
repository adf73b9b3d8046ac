/**
 The URL caller (package ucl): a FIFO queue of pending page requests and an
 unordered list of active jobs whose length is bounded by MaxCalls.

 An active job is modelled as the PageRequest it carries: the HTTP fetch and
 the goroutine/channel that delivers its result are not part of the model.
 Completion is a caller-chosen index into the active list.
 */
module Ucl {
  import opened Options

  /** A page to fetch and the link depth at which it was first found. */
  datatype PageRequest = PageRequest(url: string, depth: int)

  /** The scheduler state: pending queue `requests` and active list `jobs`. */
  datatype Caller = Caller(maxCalls: int, requests: seq<PageRequest>, jobs: seq<PageRequest>)

  /** What Next hands back: the new state and the completed request (None for nil). */
  datatype NextResult = NextResult(caller: Caller, response: Option<PageRequest>)

  /** A caller as the zero value of the Go struct with MaxCalls set. */
  function NewCaller(maxCalls: int): Caller {
    Caller(maxCalls, [], [])
  }

  /** Every request the caller still owes a result for, pending or active. */
  function Outstanding(c: Caller): multiset<PageRequest> {
    multiset(c.requests) + multiset(c.jobs)
  }

  predicate HasRoom(c: Caller) {
    |c.jobs| < c.maxCalls
  }

  /** The active count never exceeds MaxCalls (a non-positive MaxCalls admits nothing). */
  predicate WithinBound(c: Caller) {
    |c.jobs| <= c.maxCalls || c.jobs == []
  }

  /** No slot is idle while work is pending. */
  predicate WorkConserving(c: Caller) {
    HasRoom(c) ==> c.requests == []
  }

  /** The invariant every reachable caller satisfies. */
  predicate Valid(c: Caller) {
    WithinBound(c) && WorkConserving(c)
  }

  /**
   tryStartNext: promote the head of the queue into the active list when
   there is one and there is room; otherwise leave the caller as it is.
   */
  function TryStartNext(c: Caller): (r: Caller)
    ensures r.maxCalls == c.maxCalls
    ensures c.requests == [] ==> r == c
    ensures !HasRoom(c) ==> r == c
    // at most one request moves, and it is the head of the queue
    ensures |c.jobs| <= |r.jobs| <= |c.jobs| + 1
    ensures r.jobs[..|c.jobs|] == c.jobs
    ensures c.requests == r.jobs[|c.jobs|..] + r.requests
    // a job is started only when there was room for it
    ensures |r.jobs| > |c.jobs| ==> |c.jobs| < c.maxCalls && r.jobs[|c.jobs|] == c.requests[0]
    ensures |r.jobs| > |c.jobs| <==> c.requests != [] && HasRoom(c)
    ensures Outstanding(r) == Outstanding(c)
  {
    if |c.requests| == 0 then c
    else if |c.jobs| >= c.maxCalls then c
    else
      var request := c.requests[0];
      assert c.requests == [request] + c.requests[1..];
      c.(requests := c.requests[1..], jobs := c.jobs + [request])
  }

  /** Get: append the request at the tail of the queue, then try to start one job. */
  function Get(c: Caller, request: PageRequest): (r: Caller)
    ensures r.maxCalls == c.maxCalls
    ensures |c.jobs| <= |r.jobs| <= |c.jobs| + 1
    ensures r.jobs[..|c.jobs|] == c.jobs
    // the queue with the new request at its tail, minus at most its head
    ensures c.requests + [request] == r.jobs[|c.jobs|..] + r.requests
    ensures (r.requests != [] && r.requests[|r.requests| - 1] == request)
         || (c.requests == [] && r.jobs == c.jobs + [request])
    ensures Outstanding(r) == Outstanding(c) + multiset{request}
  {
    TryStartNext(c.(requests := c.requests + [request]))
  }

  /**
   Swap-remove as in Next: overwrite slot i with the last job and drop the last
   slot. The order of the survivors is not kept, their multiset is.
   */
  function SwapRemove(s: seq<PageRequest>, i: nat): (r: seq<PageRequest>)
    requires i < |s|
    ensures |r| == |s| - 1
    ensures multiset(r) + multiset{s[i]} == multiset(s)
    ensures forall j :: 0 <= j < |r| && j != i ==> r[j] == s[j]
    ensures i < |r| ==> r[i] == s[|s| - 1]
  {
    var last := |s| - 1;
    if i == last then
      assert multiset(s) == multiset(s[..last]) + multiset{s[last]} by {
        assert s == s[..last] + [s[last]];
      }
      s[..last]
    else
      var r := s[..i] + [s[last]] + s[i + 1..last];
      MoveLastInto(s, i, r);
      r
  }

  /** Moving the last element into slot i drops s[i] and keeps every other slot. */
  lemma MoveLastInto(s: seq<PageRequest>, i: nat, r: seq<PageRequest>)
    requires i < |s| - 1
    requires r == s[..i] + [s[|s| - 1]] + s[i + 1..|s| - 1]
    ensures |r| == |s| - 1
    ensures multiset(r) + multiset{s[i]} == multiset(s)
    ensures forall j :: 0 <= j < |r| && j != i ==> r[j] == s[j]
    ensures r[i] == s[|s| - 1]
  {
    var last := |s| - 1;
    assert multiset(r) + multiset{s[i]} == multiset(s) by {
      assert s == s[..i] + [s[i]] + s[i + 1..last] + [s[last]];
    }
    assert forall j :: 0 <= j < |r| && j != i ==> r[j] == s[j] by {
      forall j | 0 <= j < |r| && j != i
        ensures r[j] == s[j]
      {
        if j < i { assert r[j] == s[..i][j]; } else { assert r[j] == s[i + 1..last][j - i - 1]; }
      }
    }
  }

  /**
   Next: nil when nothing is active; otherwise remove the completed job at
   index i by swap-remove and try to start one pending request.
   */
  function Next(c: Caller, i: nat): (r: NextResult)
    requires c.jobs != [] ==> i < |c.jobs|
    ensures r.caller.maxCalls == c.maxCalls
    ensures r.response.None? <==> c.jobs == []
    ensures r.response.None? ==> r.caller == c
    ensures r.response.Some? ==>
              && r.response.value == c.jobs[i]
              && |c.jobs| - 1 <= |r.caller.jobs| <= |c.jobs|
              && r.caller.jobs[..|c.jobs| - 1] == SwapRemove(c.jobs, i)
              && c.requests == r.caller.jobs[|c.jobs| - 1..] + r.caller.requests
              && Outstanding(r.caller) + multiset{r.response.value} == Outstanding(c)
  {
    if |c.jobs| == 0 then NextResult(c, None)
    else
      var res := c.jobs[i];
      var removed := c.(jobs := SwapRemove(c.jobs, i));
      NextResult(TryStartNext(removed), Some(res))
  }

  lemma GetPreservesValid(c: Caller, request: PageRequest)
    requires Valid(c)
    ensures Valid(Get(c, request))
  {
    if HasRoom(c) {
      assert c.requests == [];
      assert Get(c, request).requests == [];
    }
  }

  lemma NextPreservesValid(c: Caller, i: nat)
    requires Valid(c)
    requires c.jobs != [] ==> i < |c.jobs|
    ensures Valid(Next(c, i).caller)
  {
    if c.jobs != [] {
      var removed := c.(jobs := SwapRemove(c.jobs, i));
      var r := TryStartNext(removed);
      if HasRoom(c) {
        assert c.requests == [];
      } else if c.requests != [] {
        assert |r.jobs| == |c.jobs|;
      }
    }
  }

  /** With MaxCalls >= 1, a valid caller whose Next reports nil has no pending work either. */
  lemma NextNilMeansDrained(c: Caller, i: nat)
    requires Valid(c) && c.maxCalls >= 1
    requires c.jobs != [] ==> i < |c.jobs|
    ensures Next(c, i).response.None? ==> c.requests == [] && c.jobs == []
  {
  }

  // ---- Interleavings of Get and Next ----

  /** One call on the caller: Get(request), or Next completing the job at index. */
  datatype Op = Enqueue(request: PageRequest) | Complete(index: nat)

  /** Every Complete in the trace names an active job when one exists. */
  predicate Admissible(c: Caller, ops: seq<Op>)
    decreases |ops|
  {
    ops == [] ||
    match ops[0]
    case Enqueue(request) => Admissible(Get(c, request), ops[1..])
    case Complete(i) =>
      (c.jobs != [] ==> i < |c.jobs|) && Admissible(Next(c, i).caller, ops[1..])
  }

  /** The requests passed to Get in the trace, in call order. */
  function Submitted(ops: seq<Op>): seq<PageRequest>
    decreases |ops|
  {
    if ops == [] then []
    else match ops[0]
      case Enqueue(request) => [request] + Submitted(ops[1..])
      case Complete(_) => Submitted(ops[1..])
  }

  /** The end of a trace: final caller, results Next returned, requests admitted in order. */
  datatype Trace = Trace(caller: Caller, returned: seq<PageRequest>, admitted: seq<PageRequest>)

  function Execute(c: Caller, ops: seq<Op>): (r: Trace)
    requires Admissible(c, ops)
    ensures r.caller.maxCalls == c.maxCalls
    decreases |ops|
  {
    if ops == [] then Trace(c, [], [])
    else match ops[0]
      case Enqueue(request) =>
        var c' := Get(c, request);
        var rest := Execute(c', ops[1..]);
        Trace(rest.caller, rest.returned, c'.jobs[|c.jobs|..] + rest.admitted)
      case Complete(i) =>
        var n := Next(c, i);
        var rest := Execute(n.caller, ops[1..]);
        if n.response.None? then rest
        else Trace(rest.caller, [n.response.value] + rest.returned,
                 n.caller.jobs[|c.jobs| - 1..] + rest.admitted)
  }

  /** No loss: what was outstanding plus what was submitted is what is outstanding plus what was returned. */
  lemma {:induction false} NoLoss(c: Caller, ops: seq<Op>)
    requires Admissible(c, ops)
    ensures Outstanding(c) + multiset(Submitted(ops))
         == Outstanding(Execute(c, ops).caller) + multiset(Execute(c, ops).returned)
    decreases |ops|
  {
    if ops != [] {
      match ops[0]
      case Enqueue(request) =>
        NoLoss(Get(c, request), ops[1..]);
        assert Submitted(ops) == [request] + Submitted(ops[1..]);
        AccountGet(Outstanding(c), request, Submitted(ops[1..]), Outstanding(Execute(c, ops).caller), Execute(c, ops).returned);
      case Complete(i) =>
        var n := Next(c, i);
        NoLoss(n.caller, ops[1..]);
        if n.response.Some? {
          AccountNext(Outstanding(n.caller), n.response.value, Submitted(ops[1..]),
                      Outstanding(Execute(n.caller, ops[1..]).caller), Execute(n.caller, ops[1..]).returned);
        }
    }
  }

  /** Bookkeeping for one Get in NoLoss. */
  lemma AccountGet(before: multiset<PageRequest>, request: PageRequest, later: seq<PageRequest>,
                   after: multiset<PageRequest>, returned: seq<PageRequest>)
    requires (before + multiset{request}) + multiset(later) == after + multiset(returned)
    ensures before + multiset([request] + later) == after + multiset(returned)
  {
    assert multiset([request] + later) == multiset{request} + multiset(later);
  }

  /** Bookkeeping for one Next that returned `done` in NoLoss. */
  lemma AccountNext(remaining: multiset<PageRequest>, done: PageRequest, later: seq<PageRequest>,
                    after: multiset<PageRequest>, returned: seq<PageRequest>)
    requires remaining + multiset(later) == after + multiset(returned)
    ensures (remaining + multiset{done}) + multiset(later) == after + multiset([done] + returned)
  {
    assert multiset([done] + returned) == multiset{done} + multiset(returned);
    calc {
      (remaining + multiset{done}) + multiset(later);
      (remaining + multiset(later)) + multiset{done};
      (after + multiset(returned)) + multiset{done};
    }
  }

  /** FIFO admission: the queue plus later submissions is exactly the admitted requests, in order, followed by the queue. */
  lemma {:induction false} FifoAdmission(c: Caller, ops: seq<Op>)
    requires Admissible(c, ops)
    ensures c.requests + Submitted(ops)
         == Execute(c, ops).admitted + Execute(c, ops).caller.requests
    decreases |ops|, 1
  {
    if ops != [] {
      match ops[0]
      case Enqueue(request) => FifoEnqueueStep(c, request, ops);
      case Complete(i) => FifoCompleteStep(c, i, ops);
    }
  }

  /** FifoAdmission for a trace that starts with Get. */
  lemma {:induction false} FifoEnqueueStep(c: Caller, request: PageRequest, ops: seq<Op>)
    requires ops != [] && ops[0] == Enqueue(request) && Admissible(c, ops)
    ensures c.requests + Submitted(ops) == Execute(c, ops).admitted + Execute(c, ops).caller.requests
    decreases |ops|, 0
  {
    var c' := Get(c, request);
    var rest := Execute(c', ops[1..]);
    ExecuteEnqueue(c, request, ops);
    FifoAdmission(c', ops[1..]);
    SubmittedEnqueue(request, ops);
    RegroupGet(c.requests, request, c'.jobs[|c.jobs|..], c'.requests, Submitted(ops[1..]),
               rest.admitted, rest.caller.requests);
  }

  lemma ExecuteEnqueue(c: Caller, request: PageRequest, ops: seq<Op>)
    requires ops != [] && ops[0] == Enqueue(request) && Admissible(c, ops)
    ensures Admissible(Get(c, request), ops[1..])
    ensures var rest := Execute(Get(c, request), ops[1..]);
            Execute(c, ops) == Trace(rest.caller, rest.returned, Get(c, request).jobs[|c.jobs|..] + rest.admitted)
  {
  }

  lemma SubmittedEnqueue(request: PageRequest, ops: seq<Op>)
    requires ops != [] && ops[0] == Enqueue(request)
    ensures Submitted(ops) == [request] + Submitted(ops[1..])
  {
  }

  /** FifoAdmission for a trace that starts with Next. */
  lemma {:induction false} FifoCompleteStep(c: Caller, i: nat, ops: seq<Op>)
    requires ops != [] && ops[0] == Complete(i) && Admissible(c, ops)
    ensures c.requests + Submitted(ops) == Execute(c, ops).admitted + Execute(c, ops).caller.requests
    decreases |ops|, 0
  {
    var n := Next(c, i);
    var rest := Execute(n.caller, ops[1..]);
    ExecuteComplete(c, i, ops);
    FifoAdmission(n.caller, ops[1..]);
    if n.response.Some? {
      Regroup(c.requests, n.caller.jobs[|c.jobs| - 1..], n.caller.requests, Submitted(ops[1..]),
              rest.admitted, rest.caller.requests);
    }
  }

  lemma ExecuteComplete(c: Caller, i: nat, ops: seq<Op>)
    requires ops != [] && ops[0] == Complete(i) && Admissible(c, ops)
    ensures c.jobs != [] ==> i < |c.jobs|
    ensures Admissible(Next(c, i).caller, ops[1..])
    ensures Submitted(ops) == Submitted(ops[1..])
    ensures var n := Next(c, i);
            var rest := Execute(n.caller, ops[1..]);
            Execute(c, ops) == if n.response.None? then rest
                               else Trace(rest.caller, [n.response.value] + rest.returned,
                                          n.caller.jobs[|c.jobs| - 1..] + rest.admitted)
  {
  }

  /** Sequence bookkeeping for a Get step in FifoAdmission. */
  lemma RegroupGet(front: seq<PageRequest>, request: PageRequest, moved: seq<PageRequest>, left: seq<PageRequest>,
                   later: seq<PageRequest>, admitted: seq<PageRequest>, final: seq<PageRequest>)
    requires front + [request] == moved + left
    requires left + later == admitted + final
    ensures front + ([request] + later) == (moved + admitted) + final
  {
    calc {
      front + ([request] + later);
      (front + [request]) + later;
      (moved + left) + later;
      moved + (left + later);
      moved + (admitted + final);
    }
  }

  /** Sequence bookkeeping for one step in FifoAdmission. */
  lemma Regroup(queue: seq<PageRequest>, moved: seq<PageRequest>, left: seq<PageRequest>,
                later: seq<PageRequest>, admitted: seq<PageRequest>, final: seq<PageRequest>)
    requires queue == moved + left
    requires left + later == admitted + final
    ensures queue + later == (moved + admitted) + final
  {
    calc {
      queue + later;
      (moved + left) + later;
      moved + (left + later);
      moved + (admitted + final);
    }
  }

  /** The concurrency bound and the work-conserving property hold after every Get and Next. */
  lemma {:induction false} ValidAlongTrace(c: Caller, ops: seq<Op>)
    requires Admissible(c, ops)
    requires Valid(c)
    ensures Valid(Execute(c, ops).caller)
    decreases |ops|
  {
    if ops != [] {
      match ops[0]
      case Enqueue(request) =>
        GetPreservesValid(c, request);
        ValidAlongTrace(Get(c, request), ops[1..]);
      case Complete(i) =>
        NextPreservesValid(c, i);
        ValidAlongTrace(Next(c, i).caller, ops[1..]);
    }
  }

  /** From a fresh caller, nothing is lost, admission is FIFO and the invariant holds. */
  lemma FromEmpty(maxCalls: int, ops: seq<Op>)
    requires Admissible(NewCaller(maxCalls), ops)
    ensures Outstanding(Execute(NewCaller(maxCalls), ops).caller)
            + multiset(Execute(NewCaller(maxCalls), ops).returned)
         == multiset(Submitted(ops))
    ensures Submitted(ops)
         == Execute(NewCaller(maxCalls), ops).admitted + Execute(NewCaller(maxCalls), ops).caller.requests
    ensures Valid(Execute(NewCaller(maxCalls), ops).caller)
  {
    NoLoss(NewCaller(maxCalls), ops);
    FifoAdmission(NewCaller(maxCalls), ops);
    ValidAlongTrace(NewCaller(maxCalls), ops);
  }
}
