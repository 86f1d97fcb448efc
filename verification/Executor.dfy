/**
 Running a workflow: the loop over steps, and the loop over the iterations of a block step.
 Executing a step, evaluating a condition and observing cancellation are foreign, so the host
 answers them arbitrarily, but as functions of what the code passes: the position and the
 results recorded so far.
 */
module Executor {
  import opened Decimal
  import opened Options

  datatype StepConfig = StepConfig(
    name: string, explicitType: string, stepType: string, disabled: bool, hasCondition: bool, onError: string)
  {
    predicate IsResponse() {
      explicitType == "response"
    }

    /** An unset policy means abort. */
    predicate Aborts() {
      onError == "" || onError == "abort"
    }

    function ResultName(i: nat): string {
      if name != "" then name else "step_" + ToDecimal(i)
    }
  }

  datatype StepResult = StepResult(name: string, stepType: string, success: bool, error: Option<string>, data: nat)

  type Results = map<string, StepResult>

  datatype Verdict = Holds | DoesNotHold | EvalError
  datatype RunOutcome = Returned(result: StepResult) | HardError(err: string)

  /** What became of a step the loop came to. */
  datatype Event =
    | Disabled
    | Cancelled
    | NotRun(verdict: Verdict)
    | Failed(err: string)
    | Ran(result: StepResult)

  /** The run ends here: cancellation, a hard error, or a failure whose policy is to abort. */
  predicate Stops(step: StepConfig, ev: Event) {
    ev.Cancelled? || ev.Failed? || (ev.Ran? && !ev.result.success && step.Aborts())
  }

  /** The results on record after the given events, later ones replacing earlier ones. */
  function Recorded(events: seq<Event>): Results {
    if events == [] then map[]
    else
      var r, ev := Recorded(events[..|events| - 1]), events[|events| - 1];
      if ev.Ran? then r[ev.result.name := ev.result] else r
  }

  /** Which answers a host gives: cancellation is observed only at top level. */
  datatype Host = Host(
    cancelled: nat -> bool,
    condition: (nat, Results) -> Verdict,
    run: (nat, Results) -> RunOutcome)

  /** What the step at position `i` does, given the results on record. */
  function EventAt(step: StepConfig, i: nat, host: Host, seen: Results): Event {
    if step.disabled then Disabled
    else if host.cancelled(i) then Cancelled
    else if step.hasCondition && host.condition(i, seen) != Holds then NotRun(host.condition(i, seen))
    else match host.run(i, seen)
      case HardError(err) => Failed(err)
      case Returned(r) => Ran(r.(name := step.ResultName(i), stepType := step.stepType))
  }

  /** A run as far as it got: the steps in order, each event caused by the results of the
      events before it, and none after an event that stops the run. */
  ghost predicate IsRun(steps: seq<StepConfig>, host: Host, events: seq<Event>)
    decreases |events|
  {
    events == [] ||
    var k := |events| - 1;
    && k < |steps|
    && IsRun(steps, host, events[..k])
    && !Stopped(steps, events[..k])
    && events[k] == EventAt(steps[k], k, host, Recorded(events[..k]))
  }

  /** The last event stops the run. */
  ghost predicate Stopped(steps: seq<StepConfig>, events: seq<Event>) {
    0 < |events| <= |steps| && Stops(steps[|events| - 1], events[|events| - 1])
  }

  ghost predicate IsWholeRun(steps: seq<StepConfig>, host: Host, events: seq<Event>) {
    IsRun(steps, host, events) && (|events| == |steps| || Stopped(steps, events))
  }

  /** What a run reports: nothing unless an event stopped it, and then that event's error. */
  function StopError(steps: seq<StepConfig>, events: seq<Event>): Option<string> {
    if events == [] || |events| > |steps| || !Stops(steps[|events| - 1], events[|events| - 1]) then None
    else match events[|events| - 1]
      case Cancelled => Some("context canceled")
      case Failed(err) => Some(err)
      case Ran(r) => r.error
      case _ => None
  }

  /** Every run can be completed. */
  lemma {:induction false} RunCompletes(steps: seq<StepConfig>, host: Host, events: seq<Event>)
    returns (all: seq<Event>)
    requires IsRun(steps, host, events) && |events| <= |steps|
    ensures IsWholeRun(steps, host, all)
    decreases |steps| - |events|
  {
    all := events;
    if |events| < |steps| && !Stopped(steps, events) {
      var ev := EventAt(steps[|events|], |events|, host, Recorded(events));
      RunOneMore(steps, host, events, ev);
      all := RunCompletes(steps, host, events + [ev]);
    }
  }

  lemma WholeRunExists(steps: seq<StepConfig>, host: Host)
    ensures exists all :: IsWholeRun(steps, host, all)
  {
    var all := RunCompletes(steps, host, []);
  }

  /** The run that the answers of the host determine. */
  ghost function WholeRun(steps: seq<StepConfig>, host: Host): seq<Event> {
    WholeRunExists(steps, host);
    var all :| IsWholeRun(steps, host, all);
    all
  }

  /** It is a whole run, and there is no other. */
  lemma IsTheRun(steps: seq<StepConfig>, host: Host, events: seq<Event>)
    ensures IsWholeRun(steps, host, events) <==> events == WholeRun(steps, host)
  {
    if IsWholeRun(steps, host, events) {
      WholeRunUnique(steps, host, events, WholeRun(steps, host));
    }
  }

  predicate RespondsWith(step: StepConfig, ev: Event) {
    ev.Ran? && ev.result.success && step.IsResponse()
  }

  /** Some executed step of explicit type response succeeded. */
  ghost predicate Responded(steps: seq<StepConfig>, events: seq<Event>) {
    exists k :: 0 <= k < |events| && k < |steps| && RespondsWith(steps[k], events[k])
  }

  datatype ExecuteResult = ExecuteResult(success: bool, error: Option<string>, responseSent: bool, steps: Results)

  lemma RunOneMore(steps: seq<StepConfig>, host: Host, events: seq<Event>, ev: Event)
    requires IsRun(steps, host, events) && !Stopped(steps, events) && |events| < |steps|
    requires ev == EventAt(steps[|events|], |events|, host, Recorded(events))
    ensures IsRun(steps, host, events + [ev])
    ensures Recorded(events + [ev])
         == if ev.Ran? then Recorded(events)[ev.result.name := ev.result] else Recorded(events)
  {
    assert (events + [ev])[..|events|] == events;
  }

  lemma RespondedOneMore(steps: seq<StepConfig>, events: seq<Event>, ev: Event)
    requires |events| < |steps|
    ensures Responded(steps, events + [ev]) <==> Responded(steps, events) || RespondsWith(steps[|events|], ev)
  {
    var more := events + [ev];
    assert more[|events|] == ev;
    if Responded(steps, events) {
      var k :| 0 <= k < |events| && RespondsWith(steps[k], events[k]);
      assert more[k] == events[k];
    }
  }

  /** One turn of the loop over the steps, up to the result of the step. */
  method TopStep(step: StepConfig, i: nat, host: Host, seen: Results) returns (ev: Event)
    ensures ev == EventAt(step, i, host, seen)
  {
    if step.disabled {
      return Disabled;
    }
    if host.cancelled(i) {
      return Cancelled;
    }
    if step.hasCondition {
      var shouldRun := host.condition(i, seen);
      if shouldRun != Holds {
        return NotRun(shouldRun);
      }
    }
    var outcome := host.run(i, seen);
    if outcome.HardError? {
      return Failed(outcome.err);
    }
    return Ran(outcome.result.(name := step.ResultName(i), stepType := step.stepType));
  }

  /** What the result says of the events: whether a response was sent, and the results. */
  ghost predicate Reports(steps: seq<StepConfig>, events: seq<Event>, result: ExecuteResult) {
    (result.responseSent <==> Responded(steps, events)) && result.steps == Recorded(events)
  }

  /** The result with the outcome of a step that ran. */
  function Noted(result: ExecuteResult, step: StepConfig, r: StepResult): ExecuteResult {
    result.(steps := result.steps[r.name := r], responseSent := result.responseSent || (step.IsResponse() && r.success))
  }

  lemma ReportsOneMore(steps: seq<StepConfig>, events: seq<Event>, ev: Event, result: ExecuteResult)
    requires |events| < |steps| && Reports(steps, events, result)
    ensures Reports(steps, events + [ev], if ev.Ran? then Noted(result, steps[|events|], ev.result) else result)
  {
    RespondedOneMore(steps, events, ev);
    assert (events + [ev])[..|events|] == events;
  }

  /** The final result: success exactly when nothing stopped the run, and its error. */
  ghost predicate Concludes(steps: seq<StepConfig>, events: seq<Event>, result: ExecuteResult) {
    && (result.success <==> !Stopped(steps, events)) && result.error == StopError(steps, events)
    && Reports(steps, events, result)
  }

  /** The executor's run is the one the host determines: success exactly when nothing stopped it,
      a response sent exactly when a step of explicit type response ran and succeeded, and the
      results reported equal to the results the conditions saw. */
  method Execute(steps: seq<StepConfig>, host: Host) returns (result: ExecuteResult, context: Results)
    ensures Concludes(steps, WholeRun(steps, host), result)
    ensures context == result.steps
  {
    result := ExecuteResult(false, None, false, map[]);
    context := map[];
    ghost var events := [];
    for i := 0 to |steps|
      invariant |events| == i && IsRun(steps, host, events) && !Stopped(steps, events)
      invariant !result.success && result.error == None && context == result.steps
      invariant Reports(steps, events, result)
    {
      var step := steps[i];
      var ev := TopStep(step, i, host, context);
      RunOneMore(steps, host, events, ev);
      ReportsOneMore(steps, events, ev, result);
      events := events + [ev];
      if ev.Cancelled? {
        IsTheRun(steps, host, events);
        return result.(error := Some("context canceled")), context;
      }
      if ev.Failed? {
        IsTheRun(steps, host, events);
        return result.(error := Some(ev.err)), context;
      }
      if ev.Ran? {
        context := context[ev.result.name := ev.result];
        result := result.(steps := result.steps[ev.result.name := ev.result]);
        if step.IsResponse() && ev.result.success {
          result := result.(responseSent := true);
        }
        if !ev.result.success && step.Aborts() {
          IsTheRun(steps, host, events);
          return result.(error := ev.result.error), context;
        }
      }
    }
    IsTheRun(steps, host, events);
    return result.(success := true), context;
  }

  /** A run consists of runs. */
  lemma {:induction false} PrefixIsRun(steps: seq<StepConfig>, host: Host, events: seq<Event>, n: nat)
    requires IsRun(steps, host, events) && n <= |events|
    ensures IsRun(steps, host, events[..n]) && |events| <= |steps|
    ensures n < |events| ==> !Stopped(steps, events[..n])
    ensures n < |events| ==> events[n] == EventAt(steps[n], n, host, Recorded(events[..n]))
    decreases |events|
  {
    if n == |events| {
      assert events[..n] == events;
    } else if n < |events| - 1 {
      var front := events[..|events| - 1];
      PrefixIsRun(steps, host, front, n);
      assert front[..n] == events[..n];
    }
  }

  /** Executed steps are enabled steps, in order and at most once each (an event belongs to the
      step at its position), and nothing follows a stop. */
  lemma OnlyEnabledStepsRun(steps: seq<StepConfig>, host: Host, events: seq<Event>, k: nat)
    requires IsRun(steps, host, events) && k < |events|
    ensures k < |steps|
    ensures events[k].Ran? ==> !steps[k].disabled && !host.cancelled(k)
    ensures Stops(steps[k], events[k]) ==> k == |events| - 1
  {
    PrefixIsRun(steps, host, events, k);
    PrefixIsRun(steps, host, events, k + 1);
  }

  /** A whole run comes to its end unstopped exactly when it has an event for every step and no
      event anywhere in it is a cancellation, a hard error or an aborting failure. */
  lemma UnstoppedIffNoStop(steps: seq<StepConfig>, host: Host, events: seq<Event>)
    requires IsWholeRun(steps, host, events)
    ensures !Stopped(steps, events) <==>
      |events| == |steps| && forall k :: 0 <= k < |events| ==> !Stops(steps[k], events[k])
  {
    forall k | 0 <= k < |events| && k < |steps| && Stops(steps[k], events[k]) ensures Stopped(steps, events) {
      OnlyEnabledStepsRun(steps, host, events, k);
    }
  }

  /** The host determines the run. */
  lemma {:induction false} RunUnique(steps: seq<StepConfig>, host: Host, a: seq<Event>, b: seq<Event>)
    requires IsRun(steps, host, a) && IsRun(steps, host, b) && |a| <= |b|
    ensures a == b[..|a|]
    decreases |a|
  {
    if a != [] {
      var k := |a| - 1;
      RunUnique(steps, host, a[..k], b);
      SameNextEvent(steps, host, a, b, k);
      assert a == a[..k] + [a[k]] && b[..|a|] == b[..k] + [b[k]];
    }
  }

  lemma SameNextEvent(steps: seq<StepConfig>, host: Host, a: seq<Event>, b: seq<Event>, k: nat)
    requires IsRun(steps, host, a) && IsRun(steps, host, b)
    requires k < |a| && k < |b| && a[..k] == b[..k]
    ensures a[k] == b[k]
  {
    PrefixIsRun(steps, host, a, k);
    PrefixIsRun(steps, host, b, k);
  }

  lemma WholeRunUnique(steps: seq<StepConfig>, host: Host, a: seq<Event>, b: seq<Event>)
    requires IsWholeRun(steps, host, a) && IsWholeRun(steps, host, b)
    ensures a == b
  {
    if |a| <= |b| { ShorterWholeRun(steps, host, a, b); } else { ShorterWholeRun(steps, host, b, a); }
  }

  lemma ShorterWholeRun(steps: seq<StepConfig>, host: Host, a: seq<Event>, b: seq<Event>)
    requires IsWholeRun(steps, host, a) && IsWholeRun(steps, host, b) && |a| <= |b|
    ensures a == b
  {
    RunUnique(steps, host, a, b);
    PrefixIsRun(steps, host, b, |a|);
    assert b[..|b|] == b;
  }

  /** Cancelling more often only cuts a run short: up to the cut, everything is as it was. */
  lemma CancellationOnlyCuts(steps: seq<StepConfig>, host: Host, cancelled': nat -> bool,
                             a: seq<Event>, b: seq<Event>)
    requires forall i :: host.cancelled(i) ==> cancelled'(i)
    requires IsWholeRun(steps, host, a) && IsWholeRun(steps, host.(cancelled := cancelled'), b)
    ensures b == a || (b != [] && |b| <= |a| && b == a[..|b| - 1] + [Cancelled])
  {
    var cut := host.(cancelled := cancelled');
    if b != [] && b[|b| - 1] == Cancelled {
      var front := b[..|b| - 1];
      PrefixIsRun(steps, cut, b, |front|);
      UncancelledRunIsRun(steps, host, cancelled', front);
      NotLonger(steps, host, front, a);
      RunUnique(steps, host, front, a);
      assert b == front + [Cancelled];
    } else {
      UncancelledRunIsRun(steps, host, cancelled', b);
      WholeRunUnique(steps, host, a, b);
    }
  }

  /** A run that was not cancelled is a run of the host that cancels less. */
  lemma {:induction false} UncancelledRunIsRun(steps: seq<StepConfig>, host: Host, cancelled': nat -> bool,
                                              b: seq<Event>)
    requires forall i :: host.cancelled(i) ==> cancelled'(i)
    requires IsRun(steps, host.(cancelled := cancelled'), b) && (b == [] || b[|b| - 1] != Cancelled)
    ensures IsRun(steps, host, b)
    decreases |b|
  {
    if b != [] {
      UncancelledRunIsRun(steps, host, cancelled', b[..|b| - 1]);
    }
  }

  /** A run that can go on is shorter than the whole run. */
  lemma NotLonger(steps: seq<StepConfig>, host: Host, front: seq<Event>, a: seq<Event>)
    requires IsRun(steps, host, front) && !Stopped(steps, front) && |front| < |steps|
    requires IsWholeRun(steps, host, a)
    ensures |front| < |a|
  {
    if |a| <= |front| {
      RunUnique(steps, host, a, front);
      PrefixIsRun(steps, host, front, |a|);
    }
  }

  // ----- block steps

  datatype Iteration = Iteration(index: nat, item: nat, success: bool, error: Option<string>, steps: Results)

  /** What the `iterate.over` expression gave; without one the block runs once over nil. */
  datatype Over = Once | Items(items: seq<nat>) | OverFailed(err: string)

  datatype BlockHost = BlockHost(
    cancelled: nat -> bool,
    condition: (nat, nat, Results) -> Verdict,
    run: (nat, nat, Results) -> RunOutcome)

  datatype BlockResult = BlockResult(
    success: bool, error: Option<string>, iterations: seq<Iteration>, successCount: nat, failureCount: nat)

  const NIL: nat := 0

  /** A nested step sees no cancellation, and only queries and calls are supported. */
  function NestedHost(steps: seq<StepConfig>, i: nat, host: BlockHost): Host {
    Host(_ => false,
         (j: nat, seen: Results) => host.condition(i, j, seen),
         (j: nat, seen: Results) =>
           if j < |steps| && !Nestable(steps[j]) then HardError("unsupported step type in block: " + steps[j].stepType)
           else host.run(i, j, seen))
  }

  predicate Nestable(step: StepConfig) {
    step.stepType == "query" || step.stepType == "httpcall"
  }

  predicate RanAndFailed(ev: Event) {
    ev.Ran? && !ev.result.success
  }

  ghost predicate AnyFailed(events: seq<Event>) {
    exists k :: 0 <= k < |events| && RanAndFailed(events[k])
  }

  /** The error of the last nested step that ran and failed. */
  function LastError(events: seq<Event>): Option<string> {
    if events == [] then None
    else
      var front, ev := events[..|events| - 1], events[|events| - 1];
      if RanAndFailed(ev) then ev.result.error else LastError(front)
  }

  ghost predicate EndsHard(events: seq<Event>) {
    events != [] && events[|events| - 1].Failed?
  }

  /** The run of the nested steps for the item at position `i`. */
  ghost function IterationRun(steps: seq<StepConfig>, i: nat, host: BlockHost): seq<Event> {
    WholeRun(steps, NestedHost(steps, i, host))
  }

  /** `iter` reports the run of the nested steps for one item: it succeeds exactly when no nested
      step that ran failed, whatever their policies. */
  ghost predicate IsIteration(steps: seq<StepConfig>, i: nat, item: nat, host: BlockHost, iter: Iteration) {
    var events := IterationRun(steps, i, host);
    && !EndsHard(events)
    && iter.index == i && iter.item == item && iter.steps == Recorded(events)
    && (iter.success <==> !AnyFailed(events)) && iter.error == LastError(events)
  }

  /** One turn of the loop over the nested steps, up to the result of the step. */
  method NestedStep(steps: seq<StepConfig>, i: nat, j: nat, host: BlockHost, seen: Results) returns (ev: Event)
    requires j < |steps|
    ensures ev == EventAt(steps[j], j, NestedHost(steps, i, host), seen)
  {
    var step := steps[j];
    if step.disabled {
      return Disabled;
    }
    if step.hasCondition {
      var shouldRun := host.condition(i, j, seen);
      if shouldRun != Holds {
        return NotRun(shouldRun);
      }
    }
    var outcome: RunOutcome;
    if Nestable(step) {
      outcome := host.run(i, j, seen);
    } else {
      outcome := HardError("unsupported step type in block: " + step.stepType);
    }
    if outcome.HardError? {
      return Failed(outcome.err);
    }
    return Ran(outcome.result.(name := step.ResultName(j), stepType := step.stepType));
  }

  /** What an iteration says of the nested events so far. */
  ghost predicate Tallies(iter: Iteration, i: nat, item: nat, events: seq<Event>) {
    && iter.index == i && iter.item == item && iter.steps == Recorded(events)
    && (iter.success <==> !AnyFailed(events)) && iter.error == LastError(events)
  }

  /** The iteration with the outcome of a nested step that ran. */
  function Tallied(iter: Iteration, r: StepResult): Iteration {
    var noted := iter.(steps := iter.steps[r.name := r]);
    if r.success then noted else noted.(success := false, error := r.error)
  }

  lemma TalliesOneMore(iter: Iteration, i: nat, item: nat, events: seq<Event>, ev: Event)
    requires Tallies(iter, i, item, events)
    ensures Tallies(if ev.Ran? then Tallied(iter, ev.result) else iter, i, item, events + [ev])
  {
    FailedOneMore(events, ev);
    assert (events + [ev])[..|events|] == events;
  }

  lemma NothingTallied(i: nat, item: nat)
    ensures Tallies(Iteration(i, item, true, None, map[]), i, item, [])
  {
  }

  lemma TalliedIsIteration(steps: seq<StepConfig>, i: nat, item: nat, host: BlockHost, iter: Iteration,
                           events: seq<Event>)
    requires Tallies(iter, i, item, events) && events == IterationRun(steps, i, host) && !EndsHard(events)
    ensures IsIteration(steps, i, item, host, iter)
  {
  }

  /** One iteration is a run of the nested steps; it succeeds exactly when no nested step that
      ran failed, whatever their policies, and it is dropped when one fails hard. */
  method RunIteration(steps: seq<StepConfig>, i: nat, item: nat, host: BlockHost)
    returns (iter: Iteration, hard: Option<string>)
    ensures hard.Some? <==> EndsHard(IterationRun(steps, i, host))
    ensures hard.Some? ==> FailsHard(steps, i, host, hard)
    ensures hard.None? ==> IsIteration(steps, i, item, host, iter)
  {
    iter := Iteration(i, item, true, None, map[]);
    hard := None;
    ghost var nested, events := NestedHost(steps, i, host), [];
    NothingTallied(i, item);
    for j := 0 to |steps|
      invariant |events| == j && IsRun(steps, nested, events) && !Stopped(steps, events) && !EndsHard(events)
      invariant Tallies(iter, i, item, events)
    {
      var ev := NestedStep(steps, i, j, host, iter.steps);
      NeverCancelled(steps, i, j, host, iter.steps);
      RunOneMore(steps, nested, events, ev);
      TalliesOneMore(iter, i, item, events, ev);
      events := events + [ev];
      if ev.Failed? {
        hard := Some(ev.err);
        IsTheRun(steps, nested, events);
        return;
      }
      if ev.Ran? {
        iter := iter.(steps := iter.steps[ev.result.name := ev.result]);
        if !ev.result.success {
          iter := iter.(success := false, error := ev.result.error);
          if steps[j].Aborts() {
            IsTheRun(steps, nested, events);
            TalliedIsIteration(steps, i, item, host, iter, events);
            return;
          }
        }
      }
    }
    IsTheRun(steps, nested, events);
    TalliedIsIteration(steps, i, item, host, iter, events);
  }

  lemma NeverCancelled(steps: seq<StepConfig>, i: nat, j: nat, host: BlockHost, seen: Results)
    requires j < |steps|
    ensures !EventAt(steps[j], j, NestedHost(steps, i, host), seen).Cancelled?
  {
  }

  lemma FailedOneMore(events: seq<Event>, ev: Event)
    ensures AnyFailed(events + [ev]) <==> AnyFailed(events) || RanAndFailed(ev)
    ensures LastError(events + [ev]) == if RanAndFailed(ev) then ev.result.error else LastError(events)
  {
    var more := events + [ev];
    assert more[..|events|] == events;
    assert more[|events|] == ev;
    if AnyFailed(events) {
      var k :| 0 <= k < |events| && RanAndFailed(events[k]);
      assert more[k] == events[k];
    }
  }

  function Successes(its: seq<Iteration>): nat {
    if its == [] then 0 else Successes(its[..|its| - 1]) + if its[|its| - 1].success then 1 else 0
  }

  /** How the loop over the items ended. */
  datatype Ending = Completed | Aborted | WasCancelled | FailedHard

  ghost predicate FailsHard(steps: seq<StepConfig>, i: nat, host: BlockHost, error: Option<string>) {
    var events := IterationRun(steps, i, host);
    EndsHard(events) && error == Some(events[|events| - 1].err)
  }

  /** How the loop ended, read off the result and the cancellation checks. */
  function EndingOf(policy: string, items: seq<nat>, host: BlockHost, result: BlockResult): Ending {
    if AbortPolicy(policy) && result.failureCount > 0 then Aborted
    else if |result.iterations| >= |items| then Completed
    else if host.cancelled(|result.iterations|) then WasCancelled
    else FailedHard
  }

  /** Why the loop ended, told by the result: the item it could not begin or finish, the
      iteration that failed, and the error reported for it. */
  ghost predicate Explains(policy: string, items: seq<nat>, steps: seq<StepConfig>, host: BlockHost,
                           result: BlockResult)
  {
    var n := |result.iterations|;
    match EndingOf(policy, items, host, result)
    case Completed => result.error == None
    case Aborted => n > 0 && !result.iterations[n - 1].success && result.error == result.iterations[n - 1].error
    case WasCancelled => result.error == Some("context canceled")
    case FailedHard => FailsHard(steps, n, host, result.error)
  }

  /** The recorded iterations are those of a prefix of the items, in order, each begun without
      cancellation. */
  ghost predicate CoverPrefix(items: seq<nat>, steps: seq<StepConfig>, host: BlockHost, its: seq<Iteration>) {
    && |its| <= |items|
    && forall k {:trigger CoversAt(items, steps, host, its, k)} ::
         0 <= k < |its| ==> CoversAt(items, steps, host, its, k)
  }

  ghost predicate CoversAt(items: seq<nat>, steps: seq<StepConfig>, host: BlockHost, its: seq<Iteration>, k: nat)
    requires k < |its| <= |items|
  {
    !host.cancelled(k) && IsIteration(steps, k, items[k], host, its[k])
  }

  /** Only the last can have failed. */
  ghost predicate FailsAtMostLast(its: seq<Iteration>) {
    forall k :: 0 <= k < |its| - 1 ==> its[k].success
  }

  ghost predicate AllSucceed(its: seq<Iteration>) {
    forall k :: 0 <= k < |its| ==> its[k].success
  }

  predicate AbortPolicy(onError: string) {
    onError == "" || onError == "abort"
  }

  lemma SuccessesOneMore(its: seq<Iteration>, it: Iteration)
    ensures Successes(its + [it]) == Successes(its) + if it.success then 1 else 0
  {
    assert (its + [it])[..|its|] == its;
  }

  lemma {:induction false} AllSucceeded(its: seq<Iteration>)
    ensures Successes(its) <= |its|
    ensures Successes(its) == |its| <==> AllSucceed(its)
  {
    if its != [] {
      var front := its[..|its| - 1];
      AllSucceeded(front);
      assert its == front + [its[|its| - 1]];
    }
  }

  lemma CoverOneMore(items: seq<nat>, steps: seq<StepConfig>, host: BlockHost, its: seq<Iteration>,
                     iter: Iteration)
    requires CoverPrefix(items, steps, host, its) && |its| < |items| && !host.cancelled(|its|)
    requires IsIteration(steps, |its|, items[|its|], host, iter)
    ensures CoverPrefix(items, steps, host, its + [iter])
  {
    var more := its + [iter];
    forall k | 0 <= k < |more| ensures CoversAt(items, steps, host, more, k) {
      if k < |its| {
        assert CoversAt(items, steps, host, its, k);
      }
    }
  }

  lemma LastMayFail(its: seq<Iteration>, iter: Iteration)
    ensures Successes(its) == |its| ==> FailsAtMostLast(its + [iter])
  {
    AllSucceeded(its);
  }

  /** What holds of the block result before and after every iteration: the counts add up to the
      recorded iterations, which cover a prefix of the items, and under the abort policy only
      the last can have failed. */
  ghost predicate Consistent(policy: string, items: seq<nat>, steps: seq<StepConfig>, host: BlockHost,
                             result: BlockResult)
  {
    CountsAdd(result.iterations, result.successCount, result.failureCount)
    && Covers(policy, items, steps, host, result.iterations)
  }

  ghost predicate CountsAdd(its: seq<Iteration>, successes: nat, failures: nat) {
    successes == Successes(its) && successes + failures == |its|
  }

  ghost predicate Covers(policy: string, items: seq<nat>, steps: seq<StepConfig>, host: BlockHost,
                         its: seq<Iteration>)
  {
    CoverPrefix(items, steps, host, its) && (AbortPolicy(policy) ==> FailsAtMostLast(its))
  }

  function Record(result: BlockResult, iter: Iteration): BlockResult {
    var r := result.(iterations := result.iterations + [iter]);
    if iter.success then r.(successCount := r.successCount + 1) else r.(failureCount := r.failureCount + 1)
  }

  lemma RecordKeepsConsistent(policy: string, items: seq<nat>, steps: seq<StepConfig>, host: BlockHost,
                              result: BlockResult, iter: Iteration)
    requires Consistent(policy, items, steps, host, result) && (AbortPolicy(policy) ==> result.failureCount == 0)
    requires |result.iterations| < |items| && !host.cancelled(|result.iterations|)
    requires IsIteration(steps, |result.iterations|, items[|result.iterations|], host, iter)
    ensures Consistent(policy, items, steps, host, Record(result, iter))
  {
    SuccessesOneMore(result.iterations, iter);
    CoverOneMore(items, steps, host, result.iterations, iter);
    LastMayFail(result.iterations, iter);
  }

  const NOTHING := BlockResult(false, None, [], 0, 0)

  lemma NothingIsConsistent(policy: string, items: seq<nat>, steps: seq<StepConfig>, host: BlockHost)
    ensures Consistent(policy, items, steps, host, NOTHING)
  {
  }

  /** The verdict and the error of the block are no part of the counts. */
  lemma VerdictKeepsConsistent(policy: string, items: seq<nat>, steps: seq<StepConfig>, host: BlockHost,
                               result: BlockResult, success: bool, error: Option<string>)
    requires Consistent(policy, items, steps, host, result)
    ensures Consistent(policy, items, steps, host, result.(success := success, error := error))
  {
  }

  /** The result the loop ends with before its verdict, and why it ended. */
  ghost predicate Ends(policy: string, items: seq<nat>, steps: seq<StepConfig>, host: BlockHost, result: BlockResult) {
    Consistent(policy, items, steps, host, result) && Explains(policy, items, steps, host, result)
  }

  lemma EndsCancelled(policy: string, items: seq<nat>, steps: seq<StepConfig>, host: BlockHost, result: BlockResult)
    requires Consistent(policy, items, steps, host, result) && (AbortPolicy(policy) ==> result.failureCount == 0)
    requires |result.iterations| < |items| && host.cancelled(|result.iterations|)
    ensures Ends(policy, items, steps, host, result.(error := Some("context canceled")))
    ensures EndingOf(policy, items, host, result.(error := Some("context canceled"))) != Completed
  {
  }

  lemma EndsHardAt(policy: string, items: seq<nat>, steps: seq<StepConfig>, host: BlockHost, result: BlockResult,
                   error: Option<string>)
    requires Consistent(policy, items, steps, host, result) && (AbortPolicy(policy) ==> result.failureCount == 0)
    requires |result.iterations| < |items| && !host.cancelled(|result.iterations|)
    requires FailsHard(steps, |result.iterations|, host, error)
    ensures Ends(policy, items, steps, host, result.(error := error))
    ensures EndingOf(policy, items, host, result.(error := error)) != Completed
  {
  }

  lemma EndsAborted(policy: string, items: seq<nat>, steps: seq<StepConfig>, host: BlockHost, result: BlockResult)
    requires Consistent(policy, items, steps, host, result) && AbortPolicy(policy) && result.failureCount > 0
    requires result.iterations != [] && !result.iterations[|result.iterations| - 1].success
    ensures Ends(policy, items, steps, host, result.(error := result.iterations[|result.iterations| - 1].error))
  {
  }

  lemma EndsCompleted(policy: string, items: seq<nat>, steps: seq<StepConfig>, host: BlockHost, result: BlockResult)
    requires Consistent(policy, items, steps, host, result) && (AbortPolicy(policy) ==> result.failureCount == 0)
    requires |result.iterations| == |items| && result.error == None
    ensures Ends(policy, items, steps, host, result)
  {
  }

  /** The verdict: success if nothing failed. */
  lemma VerdictOfEnd(policy: string, items: seq<nat>, steps: seq<StepConfig>, host: BlockHost, result: BlockResult)
    requires Ends(policy, items, steps, host, result)
    requires |result.iterations| == |items| || (AbortPolicy(policy) && result.failureCount > 0)
    ensures var r := result.(success := result.failureCount == 0);
      && Ends(policy, items, steps, host, r)
      && (r.success <==> EndingOf(policy, items, host, r) == Completed && r.failureCount == 0)
  {
    VerdictKeepsConsistent(policy, items, steps, host, result, result.failureCount == 0, result.error);
  }

  /** The loop over the items. At every exit the result is consistent, and every item is
      recorded unless the loop was aborted, cancelled or failed hard. */
  method RunItems(policy: string, items: seq<nat>, steps: seq<StepConfig>, host: BlockHost)
    returns (result: BlockResult)
    ensures Ends(policy, items, steps, host, result)
    ensures result.success <==> EndingOf(policy, items, host, result) == Completed && result.failureCount == 0
  {
    result := NOTHING;
    var onError := if policy != "" then policy else "abort";
    NothingIsConsistent(policy, items, steps, host);
    var i := 0;
    while i < |items|
      invariant |result.iterations| == i <= |items|
      invariant Consistent(policy, items, steps, host, result)
      invariant AbortPolicy(policy) ==> result.failureCount == 0
      invariant !result.success && result.error == None
    {
      if host.cancelled(i) {
        EndsCancelled(policy, items, steps, host, result);
        return result.(error := Some("context canceled"));
      }
      var iter, hard := RunIteration(steps, i, items[i], host);
      if hard.Some? {
        EndsHardAt(policy, items, steps, host, result, hard);
        return result.(error := hard);
      }
      RecordKeepsConsistent(policy, items, steps, host, result, iter);
      result := Record(result, iter);
      if !iter.success && onError == "abort" {
        EndsAborted(policy, items, steps, host, result);
        result := result.(error := iter.error);
        VerdictOfEnd(policy, items, steps, host, result);
        return result.(success := result.failureCount == 0);
      }
      i := i + 1;
    }
    EndsCompleted(policy, items, steps, host, result);
    VerdictOfEnd(policy, items, steps, host, result);
    return result.(success := result.failureCount == 0);
  }

  /** The block step: an iterate expression that is no array fails it without iterations; success
      means that every item was recorded and every iteration succeeded. */
  method ExecuteBlockStep(over: Over, policy: string, steps: seq<StepConfig>, host: BlockHost)
    returns (result: BlockResult)
    ensures over.OverFailed? ==> result == BlockResult(false, Some(over.err), [], 0, 0)
    ensures !over.OverFailed? ==> var items := if over.Once? then [NIL] else over.items;
      && Consistent(policy, items, steps, host, result) && Explains(policy, items, steps, host, result)
      && (result.success <==> |result.iterations| == |items| && AllSucceed(result.iterations))
  {
    if over.OverFailed? {
      return BlockResult(false, Some(over.err), [], 0, 0);
    }
    var items := if over.Once? then [NIL] else over.items;
    result := RunItems(policy, items, steps, host);
    AllSucceeded(result.iterations);
  }
}
