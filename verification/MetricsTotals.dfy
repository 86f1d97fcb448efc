/**
 What the counters are once no call is in flight, read off the fields of the recorded requests.
 */
module MetricsTotals {
  import opened Metrics

  /** The recorded requests of one endpoint. */
  function RequestsFor(calls: seq<Call>, name: string): seq<Request> {
    if calls == [] then []
    else
      var front, last := RequestsFor(calls[..|calls| - 1], name), calls[|calls| - 1].req;
      if last.endpoint == name then front + [last] else front
  }

  function AllRequests(calls: seq<Call>): seq<Request> {
    seq(|calls|, k requires 0 <= k < |calls| => calls[k].req)
  }

  function Total(reqs: seq<Request>, field: Request -> int): int {
    if reqs == [] then 0 else Total(reqs[..|reqs| - 1], field) + field(reqs[|reqs| - 1])
  }

  /** How many of the requests are such. */
  function CountOf(reqs: seq<Request>, such: Request -> bool): nat {
    |Where(reqs, such)|
  }

  function Where(reqs: seq<Request>, such: Request -> bool): set<int> {
    set k | 0 <= k < |reqs| && such(reqs[k])
  }

  lemma CountOfOneMore(reqs: seq<Request>, r: Request, such: Request -> bool)
    ensures CountOf(reqs + [r], such) == CountOf(reqs, such) + if such(r) then 1 else 0
  {
    assert Where(reqs + [r], such) == Where(reqs, such) + if such(r) then {|reqs|} else {};
  }

  lemma {:induction false} CountIsTotal(reqs: seq<Request>, such: Request -> bool)
    ensures CountOf(reqs, such) == Total(reqs, (r: Request) => if such(r) then 1 else 0)
  {
    if reqs != [] {
      var n := |reqs| - 1;
      CountIsTotal(reqs[..n], such);
      CountOfOneMore(reqs[..n], reqs[n], such);
      assert reqs == reqs[..n] + [reqs[n]];
    }
  }

  lemma {:induction false} SameTotal(reqs: seq<Request>, f: Request -> int, g: Request -> int)
    requires forall r :: f(r) == g(r)
    ensures Total(reqs, f) == Total(reqs, g)
  {
    if reqs != [] {
      SameTotal(reqs[..|reqs| - 1], f, g);
    }
  }

  lemma {:induction false} TotalOverIs(calls: seq<Call>, name: string, c: Counter)
    ensures TotalOver(calls, name, c) == Total(RequestsFor(calls, name), (r: Request) => Amount(r, c))
  {
    if calls != [] {
      var front := calls[..|calls| - 1];
      TotalOverIs(front, name, c);
      var last, before := calls[|calls| - 1].req, RequestsFor(front, name);
      assert (before + [last])[..|before|] == before;
    }
  }

  lemma {:induction false} GlobalTotal(calls: seq<Call>, c: Counter)
    requires GlobalStage(c) < DONE && forall k :: 0 <= k < |calls| ==> calls[k].pc == DONE
    ensures Sum(calls, Global(c)) == Total(AllRequests(calls), (r: Request) => Amount(r, c))
  {
    if calls != [] {
      var n := |calls| - 1;
      GlobalTotal(calls[..n], c);
      assert AllRequests(calls)[..n] == AllRequests(calls[..n]);
    }
  }

  /** A total by counter is a total by field, or a number of requests. */
  lemma TotalByField(reqs: seq<Request>)
    ensures Total(reqs, (r: Request) => Amount(r, Requests)) == |reqs|
    ensures Total(reqs, (r: Request) => Amount(r, Rows)) == Total(reqs, (r: Request) => r.rows)
    ensures Total(reqs, (r: Request) => Amount(r, Duration)) == Total(reqs, (r: Request) => r.duration)
    ensures Total(reqs, (r: Request) => Amount(r, QueryTime)) == Total(reqs, (r: Request) => r.queryTime)
  {
    RequestTotal(reqs);
    SameTotal(reqs, (r: Request) => Amount(r, Rows), (r: Request) => r.rows);
    SameTotal(reqs, (r: Request) => Amount(r, Duration), (r: Request) => r.duration);
    SameTotal(reqs, (r: Request) => Amount(r, QueryTime), (r: Request) => r.queryTime);
  }

  lemma {:induction false} RequestTotal(reqs: seq<Request>)
    ensures Total(reqs, (r: Request) => Amount(r, Requests)) == |reqs|
  {
    if reqs != [] {
      RequestTotal(reqs[..|reqs| - 1]);
    }
  }

  lemma FailureTotals(reqs: seq<Request>)
    ensures Total(reqs, (r: Request) => Amount(r, Errors)) == CountOf(reqs, (r: Request) => r.error != "")
    ensures Total(reqs, (r: Request) => Amount(r, Timeouts)) == CountOf(reqs, (r: Request) => r.status == 504)
  {
    var failed, late := (r: Request) => r.error != "", (r: Request) => r.status == 504;
    CountIsTotal(reqs, failed);
    SameTotal(reqs, (r: Request) => Amount(r, Errors), (r: Request) => if failed(r) then 1 else 0);
    CountIsTotal(reqs, late);
    SameTotal(reqs, (r: Request) => Amount(r, Timeouts), (r: Request) => if late(r) then 1 else 0);
  }

  /** At rest an endpoint has counted its requests, those with an error and those that timed out,
      and added up their rows, durations and query times. */
  lemma QuiescentTotals(tr: seq<State>, n: nat, name: string, first: nat)
    requires IsTrace(tr) && n < |tr| && Quiescent(tr[n])
    requires first < |tr[n].calls| && tr[n].calls[first].req.endpoint == name
    ensures WellFormed(tr[n]) && name in tr[n].endpoints
    ensures var data, reqs := tr[n].data[tr[n].endpoints[name]], RequestsFor(tr[n].calls, name);
      && data.requestCount == |reqs|
      && data.errorCount == CountOf(reqs, (r: Request) => r.error != "")
      && data.timeoutCount == CountOf(reqs, (r: Request) => r.status == 504)
      && data.totalRows == Total(reqs, (r: Request) => r.rows)
      && data.totalDuration == Total(reqs, (r: Request) => r.duration)
      && data.totalQuery == Total(reqs, (r: Request) => r.queryTime)
  {
    QuiescentIsExact(tr, n, name, first);
    var data, reqs := tr[n].data[tr[n].endpoints[name]], RequestsFor(tr[n].calls, name);
    forall c ensures Get(data, c) == Total(reqs, (r: Request) => Amount(r, c)) {
      TotalOverIs(tr[n].calls, name, c);
    }
    assert data.requestCount == Get(data, Requests) && data.errorCount == Get(data, Errors);
    assert data.timeoutCount == Get(data, Timeouts) && data.totalRows == Get(data, Rows);
    assert data.totalDuration == Get(data, Duration) && data.totalQuery == Get(data, QueryTime);
    TotalByField(reqs);
    FailureTotals(reqs);
  }

  /** And the global counters have counted all requests. */
  lemma QuiescentGlobals(tr: seq<State>, n: nat)
    requires IsTrace(tr) && n < |tr| && Quiescent(tr[n])
    ensures var globals, reqs := tr[n].globals, AllRequests(tr[n].calls);
      && globals.requestCount == |reqs|
      && globals.errorCount == CountOf(reqs, (r: Request) => r.error != "")
      && globals.timeoutCount == CountOf(reqs, (r: Request) => r.status == 504)
  {
    InvAlways(tr, n);
    var globals, calls := tr[n].globals, tr[n].calls;
    assert globals.requestCount == Get(globals, Requests) && globals.errorCount == Get(globals, Errors);
    assert globals.timeoutCount == Get(globals, Timeouts);
    GlobalTotal(calls, Requests);
    GlobalTotal(calls, Errors);
    GlobalTotal(calls, Timeouts);
    TotalByField(AllRequests(calls));
    FailureTotals(AllRequests(calls));
  }

  /** The requests of an endpoint are those recorded for it, as often as they were. */
  lemma {:induction false} RequestsForAre(calls: seq<Call>, name: string, r: Request)
    ensures multiset(RequestsFor(calls, name))[r] == if r.endpoint == name then multiset(AllRequests(calls))[r] else 0
  {
    if calls != [] {
      var n := |calls| - 1;
      RequestsForAre(calls[..n], name, r);
      assert AllRequests(calls) == AllRequests(calls[..n]) + [calls[n].req];
    }
  }
}
