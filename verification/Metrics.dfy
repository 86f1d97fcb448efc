/**
 Recording request metrics without locks: every call to `Record` is a thread with a program
 counter, every atomic operation and every locked section is one step, and calls interleave in
 any way. What is proved holds of every reachable state.
 */
module Metrics {

  /** 2^63 - 1, the initial minimum. */
  const MAX_INT64: int := 0x7FFF_FFFF_FFFF_FFFF

  datatype Request = Request(endpoint: string, duration: int, queryTime: int, rows: int, error: string, status: int)

  datatype Counter = Requests | Rows | Duration | QueryTime | Errors | Timeouts

  /** What a request adds to a counter. */
  function Amount(r: Request, c: Counter): int {
    match c
    case Requests => 1
    case Rows => r.rows
    case Duration => r.duration
    case QueryTime => r.queryTime
    case Errors => if r.error != "" then 1 else 0
    case Timeouts => if r.status == 504 then 1 else 0
  }

  /** The counters of one endpoint; `max` and `min` are kept by compare-and-swap. */
  datatype EndpointData = EndpointData(
    requestCount: int, totalRows: int, totalDuration: int, totalQuery: int, errorCount: int, timeoutCount: int,
    max: int, min: int)

  function Get(d: EndpointData, c: Counter): int {
    match c
    case Requests => d.requestCount
    case Rows => d.totalRows
    case Duration => d.totalDuration
    case QueryTime => d.totalQuery
    case Errors => d.errorCount
    case Timeouts => d.timeoutCount
  }

  function Add(d: EndpointData, c: Counter, n: int): EndpointData {
    match c
    case Requests => d.(requestCount := d.requestCount + n)
    case Rows => d.(totalRows := d.totalRows + n)
    case Duration => d.(totalDuration := d.totalDuration + n)
    case QueryTime => d.(totalQuery := d.totalQuery + n)
    case Errors => d.(errorCount := d.errorCount + n)
    case Timeouts => d.(timeoutCount := d.timeoutCount + n)
  }

  const FRESH := EndpointData(0, 0, 0, 0, 0, 0, 0, MAX_INT64)

  /** Positions in `Record`. The global counters come first (0 to 2), then finding or creating
      the endpoint (3, 4), its counters (5 to 10), the loop for the maximum (11 load, 12 swap)
      and the loop for the minimum (13 load, 14 swap). */
  const LOOKUP := 3
  const CREATE := 4
  const LOAD_MAX := 11
  const LOAD_MIN := 13
  const DONE := 15

  /** The two compare-and-swap loops differ in which value beats which. */
  datatype Side = Max | Min

  function Load(side: Side): nat {
    if side == Max then LOAD_MAX else LOAD_MIN
  }

  predicate Beats(side: Side, a: int, b: int) {
    if side == Max then a > b else a < b
  }

  function Extreme(d: EndpointData, side: Side): int {
    if side == Max then d.max else d.min
  }

  function WithExtreme(d: EndpointData, side: Side, v: int): EndpointData {
    if side == Max then d.(max := v) else d.(min := v)
  }

  function GlobalStage(c: Counter): nat {
    match c case Requests => 0 case Errors => 1 case Timeouts => 2 case _ => DONE
  }

  function LocalStage(c: Counter): nat {
    match c
    case Requests => 5 case Rows => 6 case Duration => 7
    case QueryTime => 8 case Errors => 9 case Timeouts => 10
  }

  function GlobalAt(pc: nat): Counter
    requires pc < LOOKUP
    ensures GlobalStage(GlobalAt(pc)) == pc
  {
    if pc == 0 then Requests else if pc == 1 then Errors else Timeouts
  }

  function LocalAt(pc: nat): Counter
    requires CREATE < pc < LOAD_MAX
    ensures LocalStage(LocalAt(pc)) == pc
  {
    if pc == 5 then Requests else if pc == 6 then Rows else if pc == 7 then Duration
    else if pc == 8 then QueryTime else if pc == 9 then Errors else Timeouts
  }

  /** A call in progress: its request, position, endpoint data once found, and the value it
      loaded in the loop it is in. */
  datatype Call = Call(req: Request, pc: nat, ep: nat, seen: int)

  /** `data` holds every endpoint data object ever made and `names` for which endpoint. */
  datatype State = State(
    globals: EndpointData, endpoints: map<string, nat>, data: seq<EndpointData>, names: seq<string>, calls: seq<Call>)

  const INIT := State(FRESH, map[], [], [], [])

  ghost predicate WellFormed(s: State) {
    && |s.names| == |s.data|
    && (forall n :: n in s.endpoints ==> s.endpoints[n] < |s.data|)
    && (forall k :: 0 <= k < |s.calls| ==>
          s.calls[k].pc <= DONE && (s.calls[k].pc > CREATE ==> s.calls[k].ep < |s.data|))
  }

  function Moved(s: State, i: nat, c: Call): State
    requires i < |s.calls|
  {
    s.(calls := s.calls[i := c])
  }

  ghost function StepGlobal(s: State, i: nat): State
    requires i < |s.calls| && s.calls[i].pc < LOOKUP
  {
    var c := s.calls[i];
    Moved(s, i, c.(pc := c.pc + 1)).(globals := Add(s.globals, GlobalAt(c.pc), Amount(c.req, GlobalAt(c.pc))))
  }

  /** Under the read lock: take the endpoint if it is there. Under the write lock: look again,
      and only then create it. */
  ghost function StepFind(s: State, i: nat): State
    requires i < |s.calls| && LOOKUP <= s.calls[i].pc <= CREATE
  {
    var c := s.calls[i];
    var name := c.req.endpoint;
    if name in s.endpoints then Moved(s, i, c.(pc := 5, ep := s.endpoints[name]))
    else if c.pc == LOOKUP then Moved(s, i, c.(pc := CREATE))
    else Moved(s, i, c.(pc := 5, ep := |s.data|)).(
           endpoints := s.endpoints[name := |s.data|], data := s.data + [FRESH], names := s.names + [name])
  }

  ghost function StepCount(s: State, i: nat): State
    requires WellFormed(s) && i < |s.calls| && CREATE < s.calls[i].pc < LOAD_MAX
  {
    var c := s.calls[i];
    Moved(s, i, c.(pc := c.pc + 1)).(
      data := s.data[c.ep := Add(s.data[c.ep], LocalAt(c.pc), Amount(c.req, LocalAt(c.pc)))])
  }

  /** Load the extreme and leave the loop unless the duration beats it; then swap it in, or go
      back if it is no longer what was loaded. */
  ghost function StepExtreme(s: State, i: nat, side: Side): State
    requires WellFormed(s) && i < |s.calls| && Load(side) <= s.calls[i].pc <= Load(side) + 1
  {
    var c := s.calls[i];
    var d := s.data[c.ep];
    var v := Extreme(d, side);
    if c.pc == Load(side) then
      Moved(s, i, c.(seen := v, pc := if Beats(side, c.req.duration, v) then Load(side) + 1 else Load(side) + 2))
    else if v == c.seen then
      Moved(s, i, c.(pc := Load(side) + 2)).(data := s.data[c.ep := WithExtreme(d, side, c.req.duration)])
    else Moved(s, i, c.(pc := Load(side)))
  }

  function SideAt(pc: nat): Side {
    if pc < LOAD_MIN then Max else Min
  }

  /** One step of call `i`. */
  ghost function Step(s: State, i: nat): State
    requires WellFormed(s) && i < |s.calls| && s.calls[i].pc < DONE
  {
    var pc := s.calls[i].pc;
    if pc < LOOKUP then StepGlobal(s, i)
    else if pc <= CREATE then StepFind(s, i)
    else if pc < LOAD_MAX then StepCount(s, i)
    else StepExtreme(s, i, SideAt(pc))
  }

  function Begin(s: State, req: Request): State {
    s.(calls := s.calls + [Call(req, 0, 0, 0)])
  }

  // ----- sums over the calls

  /** What a call has contributed so far to a global counter, or to one of an endpoint. */
  datatype Weight = Global(c: Counter) | Local(id: nat, c: Counter)

  function Contribution(w: Weight, call: Call): int {
    match w
    case Global(c) => if call.pc > GlobalStage(c) then Amount(call.req, c) else 0
    case Local(id, c) => if call.pc > LocalStage(c) && call.ep == id then Amount(call.req, c) else 0
  }

  function Sum(calls: seq<Call>, w: Weight): int {
    if calls == [] then 0 else Sum(calls[..|calls| - 1], w) + Contribution(w, calls[|calls| - 1])
  }

  lemma {:induction false} SumUpdate(calls: seq<Call>, i: nat, c: Call, w: Weight)
    requires i < |calls|
    ensures Sum(calls[i := c], w) == Sum(calls, w) - Contribution(w, calls[i]) + Contribution(w, c)
    decreases |calls|
  {
    var n := |calls| - 1;
    var calls' := calls[i := c];
    if i == n {
      assert calls'[..n] == calls[..n];
    } else {
      assert calls'[..n] == calls[..n][i := c];
      SumUpdate(calls[..n], i, c, w);
    }
  }

  lemma SumAppend(calls: seq<Call>, c: Call, w: Weight)
    ensures Sum(calls + [c], w) == Sum(calls, w) + Contribution(w, c)
  {
    assert (calls + [c])[..|calls|] == calls;
  }

  lemma {:induction false} SumOfNothing(calls: seq<Call>, w: Weight)
    requires forall k :: 0 <= k < |calls| ==> Contribution(w, calls[k]) == 0
    ensures Sum(calls, w) == 0
  {
    if calls != [] {
      SumOfNothing(calls[..|calls| - 1], w);
    }
  }

  // ----- invariants

  /** The endpoint map and the data objects match one to one, and every call works on the data
      of its own endpoint: there is at most one data object per endpoint. */
  ghost predicate Named(s: State) {
    && WellFormed(s)
    && (forall n :: n in s.endpoints ==> s.names[s.endpoints[n]] == n)
    && (forall d :: 0 <= d < |s.names| ==> s.names[d] in s.endpoints && s.endpoints[s.names[d]] == d)
    && (forall k :: 0 <= k < |s.calls| && s.calls[k].pc > CREATE ==> s.names[s.calls[k].ep] == s.calls[k].req.endpoint)
  }

  /** Every counter is the sum of what the calls have contributed so far. */
  ghost predicate Counted(s: State) {
    && (forall c :: Get(s.globals, c) == Sum(s.calls, Global(c)))
    && (forall d, c :: 0 <= d < |s.data| ==> Get(s.data[d], c) == Sum(s.calls, Local(d, c)))
  }

  lemma NamedFind(s: State, i: nat)
    requires Named(s) && i < |s.calls| && LOOKUP <= s.calls[i].pc <= CREATE
    ensures Named(StepFind(s, i))
  {
  }

  lemma NamedElsewhere(s: State, s': State, i: nat)
    requires Named(s) && i < |s.calls| && |s'.calls| == |s.calls| && s'.calls == s.calls[i := s'.calls[i]]
    requires s'.endpoints == s.endpoints && s'.names == s.names && |s'.data| == |s.data|
    requires s'.calls[i].req == s.calls[i].req && s'.calls[i].pc <= DONE
    requires s'.calls[i].pc > CREATE ==> s.calls[i].pc > CREATE && s'.calls[i].ep == s.calls[i].ep
    ensures Named(s')
  {
  }

  lemma NamedStep(s: State, i: nat)
    requires Named(s) && i < |s.calls| && s.calls[i].pc < DONE
    ensures Named(Step(s, i))
  {
    var pc := s.calls[i].pc;
    if LOOKUP <= pc <= CREATE { NamedFind(s, i); } else { NamedElsewhere(s, Step(s, i), i); }
  }

  lemma CountedGlobal(s: State, i: nat)
    requires Named(s) && Counted(s) && i < |s.calls| && s.calls[i].pc < LOOKUP
    ensures Counted(StepGlobal(s, i))
  {
    var s', call := StepGlobal(s, i), s.calls[i];
    forall c ensures Get(s'.globals, c) == Sum(s'.calls, Global(c)) {
      SumUpdate(s.calls, i, s'.calls[i], Global(c));
    }
    forall d, c | 0 <= d < |s.data| ensures Get(s'.data[d], c) == Sum(s'.calls, Local(d, c)) {
      SumUpdate(s.calls, i, s'.calls[i], Local(d, c));
    }
  }

  lemma CountedFind(s: State, i: nat)
    requires Named(s) && Counted(s) && i < |s.calls| && LOOKUP <= s.calls[i].pc <= CREATE
    ensures Counted(StepFind(s, i))
  {
    var s' := StepFind(s, i);
    forall c ensures Get(s'.globals, c) == Sum(s'.calls, Global(c)) {
      SumUpdate(s.calls, i, s'.calls[i], Global(c));
    }
    forall d, c | 0 <= d < |s'.data| ensures Get(s'.data[d], c) == Sum(s'.calls, Local(d, c)) {
      if d < |s.data| {
        SumUpdate(s.calls, i, s'.calls[i], Local(d, c));
      } else {
        SumOfNothing(s'.calls, Local(d, c));
      }
    }
  }

  lemma CountedCount(s: State, i: nat)
    requires Named(s) && Counted(s) && i < |s.calls| && CREATE < s.calls[i].pc < LOAD_MAX
    ensures Counted(StepCount(s, i))
  {
    var s' := StepCount(s, i);
    forall c ensures Get(s'.globals, c) == Sum(s'.calls, Global(c)) {
      SumUpdate(s.calls, i, s'.calls[i], Global(c));
    }
    forall d, c | 0 <= d < |s.data| ensures Get(s'.data[d], c) == Sum(s'.calls, Local(d, c)) {
      SumUpdate(s.calls, i, s'.calls[i], Local(d, c));
    }
  }

  lemma CountedExtreme(s: State, i: nat, side: Side)
    requires Named(s) && Counted(s) && i < |s.calls| && Load(side) <= s.calls[i].pc <= Load(side) + 1
    ensures Counted(StepExtreme(s, i, side))
  {
    var s' := StepExtreme(s, i, side);
    forall w ensures Sum(s'.calls, w) == Sum(s.calls, w) {
      SumUpdate(s.calls, i, s'.calls[i], w);
      LateCallsContributeAlike(s.calls[i], s'.calls[i], w);
    }
    forall d, c | 0 <= d < |s.data| ensures Get(s'.data[d], c) == Get(s.data[d], c) {
    }
  }

  lemma LateCallsContributeAlike(a: Call, b: Call, w: Weight)
    requires a.req == b.req && a.ep == b.ep && LOAD_MAX <= a.pc <= DONE && LOAD_MAX <= b.pc <= DONE
    ensures Contribution(w, a) == Contribution(w, b)
  {
  }

  lemma CountedStep(s: State, i: nat)
    requires Named(s) && Counted(s) && i < |s.calls| && s.calls[i].pc < DONE
    ensures Counted(Step(s, i))
  {
    var pc := s.calls[i].pc;
    if pc < LOOKUP { CountedGlobal(s, i); }
    else if pc <= CREATE { CountedFind(s, i); }
    else if pc < LOAD_MAX { CountedCount(s, i); }
    else { CountedExtreme(s, i, SideAt(pc)); }
  }

  /** The call has left the loop for this extreme. */
  predicate Past(c: Call, d: nat, side: Side) {
    c.pc >= Load(side) + 2 && c.ep == d
  }

  ghost predicate Attained(s: State, d: nat, side: Side)
    requires d < |s.data|
  {
    exists k :: 0 <= k < |s.calls| && Past(s.calls[k], d, side) && s.calls[k].req.duration == Extreme(s.data[d], side)
  }

  /** The extreme of an endpoint is its initial value or the duration of a call past the loop,
      and never worse than the initial value. */
  ghost predicate ExtremeKnown(s: State, d: nat, side: Side)
    requires d < |s.data|
  {
    && !Beats(side, Extreme(FRESH, side), Extreme(s.data[d], side))
    && (Extreme(s.data[d], side) == Extreme(FRESH, side) || Attained(s, d, side))
  }

  /** The duration of a call past the loop does not beat the extreme; a call about to swap beats
      what it loaded, which is no better than the extreme now. */
  predicate CallConforms(data: seq<EndpointData>, c: Call, side: Side)
    requires c.pc > CREATE ==> c.ep < |data|
  {
    && (c.pc >= Load(side) + 2 ==> !Beats(side, c.req.duration, Extreme(data[c.ep], side)))
    && (c.pc == Load(side) + 1 ==>
          && Beats(side, c.req.duration, c.seen)
          && !Beats(side, c.seen, Extreme(data[c.ep], side)) && !Beats(side, Extreme(FRESH, side), c.seen))
  }

  ghost predicate ExtremeOk(s: State, side: Side)
    requires WellFormed(s)
  {
    && (forall d {:trigger ExtremeKnown(s, d, side)} :: 0 <= d < |s.data| ==> ExtremeKnown(s, d, side))
    && (forall k :: 0 <= k < |s.calls| ==> CallConforms(s.data, s.calls[k], side))
  }

  lemma StillAttained(s: State, s': State, d: nat, side: Side)
    requires d < |s.data| && d < |s'.data| && |s.calls| <= |s'.calls| && Attained(s, d, side)
    requires Extreme(s'.data[d], side) == Extreme(s.data[d], side)
    requires forall k :: 0 <= k < |s.calls| && Past(s.calls[k], d, side) ==>
      Past(s'.calls[k], d, side) && s'.calls[k].req == s.calls[k].req
    ensures Attained(s', d, side)
  {
    var k :| 0 <= k < |s.calls| && Past(s.calls[k], d, side) && s.calls[k].req.duration == Extreme(s.data[d], side);
    assert Past(s'.calls[k], d, side);
  }

  /** A step that leaves the extremes of existing endpoints and does not enter or leave the loop. */
  lemma ExtremeUntouched(s: State, s': State, i: nat, side: Side)
    requires WellFormed(s) && WellFormed(s') && ExtremeOk(s, side) && i < |s.calls|
    requires |s'.calls| == |s.calls| && s'.calls == s.calls[i := s'.calls[i]] && s'.calls[i].req == s.calls[i].req
    requires s.calls[i].pc > CREATE ==> s'.calls[i].ep == s.calls[i].ep
    requires |s.data| <= |s'.data|
    requires forall d :: 0 <= d < |s.data| ==> Extreme(s'.data[d], side) == Extreme(s.data[d], side)
    requires forall d :: |s.data| <= d < |s'.data| ==> s'.data[d] == FRESH
    requires s.calls[i].pc >= Load(side) + 2 <==> s'.calls[i].pc >= Load(side) + 2
    requires s'.calls[i].pc != Load(side) + 1
    ensures ExtremeOk(s', side)
  {
    forall d | 0 <= d < |s'.data| ensures ExtremeKnown(s', d, side) {
      if d < |s.data| {
        assert ExtremeKnown(s, d, side);
        if Attained(s, d, side) { StillAttained(s, s', d, side); }
      }
    }
  }

  /** A step of the loop itself: a swap only ever improves the extreme. */
  lemma ExtremeLoop(s: State, i: nat, side: Side)
    requires WellFormed(s) && ExtremeOk(s, side)
    requires i < |s.calls| && Load(side) <= s.calls[i].pc <= Load(side) + 1
    ensures WellFormed(StepExtreme(s, i, side)) && ExtremeOk(StepExtreme(s, i, side), side)
  {
    var s', c := StepExtreme(s, i, side), s.calls[i];
    assert CallConforms(s.data, c, side) && ExtremeKnown(s, c.ep, side);
    forall d | 0 <= d < |s'.data| ensures ExtremeKnown(s', d, side) {
      assert ExtremeKnown(s, d, side);
      if d == c.ep && c.pc > Load(side) && Extreme(s.data[d], side) == c.seen {
        assert Past(s'.calls[i], d, side);
      } else if Attained(s, d, side) {
        StillAttained(s, s', d, side);
      }
    }
    forall k | 0 <= k < |s'.calls| ensures CallConforms(s'.data, s'.calls[k], side) {
      assert CallConforms(s.data, s.calls[k], side);
    }
  }

  lemma ExtremeStep(s: State, i: nat, side: Side)
    requires Named(s) && ExtremeOk(s, side) && i < |s.calls| && s.calls[i].pc < DONE
    ensures Named(Step(s, i)) && ExtremeOk(Step(s, i), side)
  {
    NamedStep(s, i);
    if Load(side) <= s.calls[i].pc <= Load(side) + 1 {
      ExtremeLoop(s, i, side);
    } else {
      ExtremeUntouched(s, Step(s, i), i, side);
    }
  }

  // ----- every reachable state

  ghost predicate Inv(s: State) {
    Named(s) && Counted(s) && ExtremeOk(s, Max) && ExtremeOk(s, Min)
  }

  ghost predicate Next(s: State, s': State)
    requires WellFormed(s)
  {
    || (exists req :: s' == Begin(s, req))
    || (exists i :: 0 <= i < |s.calls| && s.calls[i].pc < DONE && s' == Step(s, i))
  }

  lemma ExtremeBegin(s: State, req: Request, side: Side)
    requires Named(s) && ExtremeOk(s, side)
    ensures Named(Begin(s, req)) && ExtremeOk(Begin(s, req), side)
  {
    var s' := Begin(s, req);
    forall d | 0 <= d < |s'.data| ensures ExtremeKnown(s', d, side) {
      assert ExtremeKnown(s, d, side);
      if Attained(s, d, side) { StillAttained(s, s', d, side); }
    }
    forall k | 0 <= k < |s'.calls| ensures CallConforms(s'.data, s'.calls[k], side) {
      if k < |s.calls| { assert CallConforms(s.data, s.calls[k], side); }
    }
  }

  lemma NextKeepsInv(s: State, s': State)
    requires Inv(s) && Next(s, s')
    ensures Inv(s')
  {
    if req :| s' == Begin(s, req) {
      forall w ensures Sum(s'.calls, w) == Sum(s.calls, w) {
        SumAppend(s.calls, Call(req, 0, 0, 0), w);
      }
      ExtremeBegin(s, req, Max);
      ExtremeBegin(s, req, Min);
    } else {
      var i :| 0 <= i < |s.calls| && s.calls[i].pc < DONE && s' == Step(s, i);
      CountedStep(s, i);
      ExtremeStep(s, i, Max);
      ExtremeStep(s, i, Min);
    }
  }

  ghost predicate NextAt(tr: seq<State>, n: nat)
    requires n + 1 < |tr|
  {
    WellFormed(tr[n]) && Next(tr[n], tr[n + 1])
  }

  ghost predicate IsTrace(tr: seq<State>) {
    tr != [] && tr[0] == INIT && forall n {:trigger NextAt(tr, n)} :: 0 <= n < |tr| - 1 ==> NextAt(tr, n)
  }

  lemma {:induction false} InvAlways(tr: seq<State>, n: nat)
    requires IsTrace(tr) && n < |tr|
    ensures Inv(tr[n])
  {
    if n > 0 {
      InvAlways(tr, n - 1);
      assert NextAt(tr, n - 1);
      NextKeepsInv(tr[n - 1], tr[n]);
    }
  }

  /** In every interleaving there is at most one data object per endpoint: no two have the same
      name, and calls for the same endpoint that have found it work on the same object. */
  lemma OneDataPerEndpoint(tr: seq<State>, n: nat, a: nat, b: nat)
    requires IsTrace(tr) && n < |tr|
    ensures a < b < |tr[n].names| ==> tr[n].names[a] != tr[n].names[b]
    ensures WellFormed(tr[n])
    ensures a < |tr[n].calls| && b < |tr[n].calls| && tr[n].calls[a].pc > CREATE && tr[n].calls[b].pc > CREATE ==>
      (tr[n].calls[a].ep == tr[n].calls[b].ep <==> tr[n].calls[a].req.endpoint == tr[n].calls[b].req.endpoint)
  {
    InvAlways(tr, n);
  }

  // ----- once no call is in flight

  ghost predicate Quiescent(s: State) {
    forall k :: 0 <= k < |s.calls| ==> s.calls[k].pc == DONE
  }

  /** The reference: what the recorded requests of one endpoint add up to. */
  function TotalOver(calls: seq<Call>, name: string, c: Counter): int {
    if calls == [] then 0
    else
      var last := calls[|calls| - 1].req;
      TotalOver(calls[..|calls| - 1], name, c) + if last.endpoint == name then Amount(last, c) else 0
  }

  lemma {:induction false} SumIsTotalOver(calls: seq<Call>, d: nat, name: string, c: Counter)
    requires forall k :: 0 <= k < |calls| ==>
      calls[k].pc == DONE && (calls[k].ep == d <==> calls[k].req.endpoint == name)
    ensures Sum(calls, Local(d, c)) == TotalOver(calls, name, c)
  {
    if calls != [] {
      SumIsTotalOver(calls[..|calls| - 1], d, name, c);
    }
  }

  lemma {:induction false} TotalBetween(calls: seq<Call>, name: string, lo: int, hi: int)
    requires forall k :: 0 <= k < |calls| && calls[k].req.endpoint == name ==> lo <= calls[k].req.duration <= hi
    ensures TotalOver(calls, name, Requests) * lo
         <= TotalOver(calls, name, Duration) <= TotalOver(calls, name, Requests) * hi
  {
    if calls != [] {
      var front, last := calls[..|calls| - 1], calls[|calls| - 1].req;
      TotalBetween(front, name, lo, hi);
      if last.endpoint == name {
        var n := TotalOver(front, name, Requests);
        assert (n + 1) * lo == n * lo + lo && (n + 1) * hi == n * hi + hi;
      }
    }
  }

  /** Once no call is in flight, every counter of an endpoint is exactly the total over its
      recorded requests, and its maximum and minimum are the largest and smallest of their
      durations and of the values these started from. */
  lemma QuiescentIsExact(tr: seq<State>, n: nat, name: string, first: nat)
    requires IsTrace(tr) && n < |tr| && Quiescent(tr[n])
    requires first < |tr[n].calls| && tr[n].calls[first].req.endpoint == name
    ensures WellFormed(tr[n]) && name in tr[n].endpoints
    ensures var data := tr[n].data[tr[n].endpoints[name]];
            && (forall c :: Get(data, c) == TotalOver(tr[n].calls, name, c))
            && IsLargest(tr[n].calls, name, 0, data.max) && IsSmallest(tr[n].calls, name, MAX_INT64, data.min)
            && data.requestCount * data.min <= data.totalDuration <= data.requestCount * data.max
  {
    InvAlways(tr, n);
    var s := tr[n];
    var d := s.calls[first].ep;
    assert s.names[d] == name && s.endpoints[name] == d;
    forall c ensures Get(s.data[d], c) == TotalOver(s.calls, name, c) {
      SumIsTotalOver(s.calls, d, name, c);
    }
    LargestAtRest(s, d, name);
    SmallestAtRest(s, d, name);
    TotalBetween(s.calls, name, s.data[d].min, s.data[d].max);
  }

  /** The largest of the durations of an endpoint and the initial value. */
  ghost predicate IsLargest(calls: seq<Call>, name: string, initial: int, v: int) {
    && (v == initial || exists k :: 0 <= k < |calls| && calls[k].req.endpoint == name && calls[k].req.duration == v)
    && initial <= v
    && (forall k :: 0 <= k < |calls| && calls[k].req.endpoint == name ==> calls[k].req.duration <= v)
  }

  ghost predicate IsSmallest(calls: seq<Call>, name: string, initial: int, v: int) {
    && (v == initial || exists k :: 0 <= k < |calls| && calls[k].req.endpoint == name && calls[k].req.duration == v)
    && v <= initial
    && (forall k :: 0 <= k < |calls| && calls[k].req.endpoint == name ==> v <= calls[k].req.duration)
  }

  lemma LargestAtRest(s: State, d: nat, name: string)
    requires Inv(s) && Quiescent(s) && d < |s.data| && s.names[d] == name
    ensures IsLargest(s.calls, name, 0, s.data[d].max)
  {
    forall k | 0 <= k < |s.calls| && s.calls[k].req.endpoint == name
      ensures s.calls[k].req.duration <= s.data[d].max
    {
      assert CallConforms(s.data, s.calls[k], Max);
    }
    assert ExtremeKnown(s, d, Max);
    if Attained(s, d, Max) {
      var k :| 0 <= k < |s.calls| && Past(s.calls[k], d, Max) && s.calls[k].req.duration == Extreme(s.data[d], Max);
      assert s.calls[k].req.endpoint == name;
    }
  }

  lemma SmallestAtRest(s: State, d: nat, name: string)
    requires Inv(s) && Quiescent(s) && d < |s.data| && s.names[d] == name
    ensures IsSmallest(s.calls, name, MAX_INT64, s.data[d].min)
  {
    forall k | 0 <= k < |s.calls| && s.calls[k].req.endpoint == name
      ensures s.data[d].min <= s.calls[k].req.duration
    {
      assert CallConforms(s.data, s.calls[k], Min);
    }
    assert ExtremeKnown(s, d, Min);
    if Attained(s, d, Min) {
      var k :| 0 <= k < |s.calls| && Past(s.calls[k], d, Min) && s.calls[k].req.duration == Extreme(s.data[d], Min);
      assert s.calls[k].req.endpoint == name;
    }
  }

  function RequestsOf(data: seq<EndpointData>): int {
    if data == [] then 0 else RequestsOf(data[..|data| - 1]) + data[|data| - 1].requestCount
  }

  /** Requests counted by the first `n` endpoints. */
  function SumOverData(calls: seq<Call>, n: nat): int {
    if n == 0 then 0 else SumOverData(calls, n - 1) + Sum(calls, Local(n - 1, Requests))
  }

  lemma {:induction false} SumOverDataAppend(calls: seq<Call>, c: Call, n: nat)
    requires c.pc == DONE
    ensures SumOverData(calls + [c], n) == SumOverData(calls, n) + if c.ep < n then 1 else 0
  {
    if n > 0 {
      SumOverDataAppend(calls, c, n - 1);
      SumAppend(calls, c, Local(n - 1, Requests));
    }
  }

  lemma {:induction false} EachCallCountedOnce(calls: seq<Call>, n: nat)
    requires forall k :: 0 <= k < |calls| ==> calls[k].pc == DONE && calls[k].ep < n
    ensures SumOverData(calls, n) == |calls| == Sum(calls, Global(Requests))
  {
    if calls == [] {
      NoCalls(n);
    } else {
      var front, last := calls[..|calls| - 1], calls[|calls| - 1];
      EachCallCountedOnce(front, n);
      SumOverDataAppend(front, last, n);
      assert front + [last] == calls;
    }
  }

  lemma {:induction false} NoCalls(n: nat)
    ensures SumOverData([], n) == 0
  {
    if n > 0 { NoCalls(n - 1); }
  }

  lemma {:induction false} RequestsOfData(calls: seq<Call>, data: seq<EndpointData>)
    requires forall d :: 0 <= d < |data| ==> data[d].requestCount == Sum(calls, Local(d, Requests))
    ensures RequestsOf(data) == SumOverData(calls, |data|)
  {
    if data != [] {
      RequestsOfData(calls, data[..|data| - 1]);
    }
  }

  /** Then the global request count is the sum over the endpoints, and the number of calls. */
  lemma GlobalCountIsSumOfEndpoints(tr: seq<State>, n: nat)
    requires IsTrace(tr) && n < |tr| && Quiescent(tr[n])
    ensures tr[n].globals.requestCount == RequestsOf(tr[n].data) == |tr[n].calls|
  {
    InvAlways(tr, n);
    var s := tr[n];
    forall d | 0 <= d < |s.data| ensures s.data[d].requestCount == Sum(s.calls, Local(d, Requests)) {
      assert Get(s.data[d], Requests) == Sum(s.calls, Local(d, Requests));
    }
    RequestsOfData(s.calls, s.data);
    EachCallCountedOnce(s.calls, |s.data|);
    assert Get(s.globals, Requests) == Sum(s.calls, Global(Requests));
  }

  // ----- progress

  /** A swap fails only because another call improved the extreme since it was loaded, and that
      call has left its loop. */
  lemma FailedSwapMeansProgress(s: State, i: nat, side: Side)
    requires Inv(s) && i < |s.calls| && s.calls[i].pc == Load(side) + 1
    requires Extreme(s.data[s.calls[i].ep], side) != s.calls[i].seen
    ensures Beats(side, Extreme(s.data[s.calls[i].ep], side), s.calls[i].seen)
    ensures Attained(s, s.calls[i].ep, side)
  {
    assert CallConforms(s.data, s.calls[i], side);
    assert ExtremeKnown(s, s.calls[i].ep, side);
  }

  /** Stages a call has left; both positions of a loop are one stage. */
  function StagesLeft(pc: nat): nat {
    if pc >= DONE then 0 else if pc >= LOAD_MIN then 2 else if pc >= LOAD_MAX then 4 else DONE - pc
  }

  /** Within a loop: a swap that will succeed, then a load, then a swap that will fail. */
  function LoopRank(data: seq<EndpointData>, c: Call): nat {
    if c.pc == LOAD_MAX || c.pc == LOAD_MIN then 1
    else if c.ep >= |data| then 0
    else if c.pc == LOAD_MAX + 1 then if data[c.ep].max == c.seen then 0 else 2
    else if c.pc == LOAD_MIN + 1 then if data[c.ep].min == c.seen then 0 else 2
    else 0
  }

  function AllStages(calls: seq<Call>): nat {
    if calls == [] then 0 else AllStages(calls[..|calls| - 1]) + StagesLeft(calls[|calls| - 1].pc)
  }

  function AllRanks(data: seq<EndpointData>, calls: seq<Call>): (r: nat)
    ensures r <= 2 * |calls|
  {
    if calls == [] then 0 else AllRanks(data, calls[..|calls| - 1]) + LoopRank(data, calls[|calls| - 1])
  }

  lemma {:induction false} AllStagesUpdate(calls: seq<Call>, i: nat, c: Call)
    requires i < |calls|
    ensures AllStages(calls[i := c]) == AllStages(calls) - StagesLeft(calls[i].pc) + StagesLeft(c.pc)
    decreases |calls|
  {
    var n := |calls| - 1;
    var calls' := calls[i := c];
    if i == n {
      assert calls'[..n] == calls[..n];
    } else {
      assert calls'[..n] == calls[..n][i := c];
      AllStagesUpdate(calls[..n], i, c);
    }
  }

  lemma {:induction false} AllRanksUpdate(data: seq<EndpointData>, calls: seq<Call>, i: nat, c: Call)
    requires i < |calls|
    ensures AllRanks(data, calls[i := c]) == AllRanks(data, calls) - LoopRank(data, calls[i]) + LoopRank(data, c)
    decreases |calls|
  {
    var n := |calls| - 1;
    var calls' := calls[i := c];
    if i == n {
      assert calls'[..n] == calls[..n];
    } else {
      assert calls'[..n] == calls[..n][i := c];
      AllRanksUpdate(data, calls[..n], i, c);
    }
  }

  /** An upper bound on the steps the calls can still take together. */
  function StepsLeft(s: State): nat {
    AllStages(s.calls) * (2 * |s.calls| + 1) + AllRanks(s.data, s.calls)
  }

  lemma StepsLeftByStage(a: nat, a': nat, n: nat, b: nat, b': nat)
    requires a' < a && b' <= 2 * n
    ensures a' * (2 * n + 1) + b' < a * (2 * n + 1) + b
  {
    assert (a - 1) * (2 * n + 1) == a * (2 * n + 1) - (2 * n + 1);
    assert a' * (2 * n + 1) <= (a - 1) * (2 * n + 1);
  }

  /** Every step, a failed swap included, uses one up. */
  lemma StepUsesOneUp(s: State, i: nat)
    requires Inv(s) && i < |s.calls| && s.calls[i].pc < DONE
    ensures StepsLeft(Step(s, i)) < StepsLeft(s)
  {
    var s' := Step(s, i);
    AllStagesUpdate(s.calls, i, s'.calls[i]);
    assert s'.calls == s.calls[i := s'.calls[i]];
    if StagesLeft(s'.calls[i].pc) < StagesLeft(s.calls[i].pc) {
      StepsLeftByStage(AllStages(s.calls), AllStages(s'.calls), |s.calls|,
                       AllRanks(s.data, s.calls), AllRanks(s'.data, s'.calls));
    } else {
      assert s'.data == s.data;
      AllRanksUpdate(s.data, s.calls, i, s'.calls[i]);
    }
  }

  /** A schedule: which call moves at each step, no new call beginning. */
  ghost predicate IsSchedule(s: State, schedule: seq<nat>)
    requires Inv(s)
    decreases |schedule|
  {
    schedule == [] ||
    (schedule[0] < |s.calls| && s.calls[schedule[0]].pc < DONE &&
     (StepKeepsInv(s, schedule[0]); IsSchedule(Step(s, schedule[0]), schedule[1..])))
  }

  lemma StepKeepsInv(s: State, i: nat)
    requires Inv(s) && i < |s.calls| && s.calls[i].pc < DONE
    ensures Inv(Step(s, i))
  {
    NextKeepsInv(s, Step(s, i));
  }

  /** Lock freedom: however the calls in flight are scheduled and however often swaps fail,
      they are all done after a bounded number of steps. */
  lemma {:induction false} SchedulesAreBounded(s: State, schedule: seq<nat>)
    requires Inv(s) && IsSchedule(s, schedule)
    ensures |schedule| <= StepsLeft(s)
    decreases |schedule|
  {
    if schedule != [] {
      StepKeepsInv(s, schedule[0]);
      StepUsesOneUp(s, schedule[0]);
      SchedulesAreBounded(Step(s, schedule[0]), schedule[1..]);
    }
  }
}
