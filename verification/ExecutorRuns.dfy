/**
 What the events of a run are, in terms of the configuration of the steps and the answers of
 the host: which steps run, on what results, what is recorded of them, and where a run ends.
 */
module ExecutorRuns {
  import opened Decimal
  import opened Options
  import opened Executor

  /** What a step is, at its position in a run. A step runs exactly if it is enabled, the run is
      not cancelled and the step's condition, if it has one, holds of the results recorded so
      far; what it then returns is recorded under its configured name and type. */
  lemma StepRunsIff(steps: seq<StepConfig>, host: Host, events: seq<Event>, k: nat)
    requires IsRun(steps, host, events) && k < |events|
    ensures k < |steps|
    ensures events[k].Ran? || events[k].Failed? <==>
      && !steps[k].disabled && !host.cancelled(k)
      && (steps[k].hasCondition ==> host.condition(k, Recorded(events[..k])) == Holds)
    ensures events[k].Disabled? <==> steps[k].disabled
    ensures events[k].Cancelled? <==> !steps[k].disabled && host.cancelled(k)
    ensures events[k].NotRun? ==> events[k].verdict == host.condition(k, Recorded(events[..k])) != Holds
  {
    PrefixIsRun(steps, host, events, k);
  }

  lemma StepResultIs(steps: seq<StepConfig>, host: Host, events: seq<Event>, k: nat)
    requires IsRun(steps, host, events) && k < |events| && events[k].Ran?
    ensures k < |steps| && host.run(k, Recorded(events[..k])).Returned?
    ensures var r, ran := events[k].result, host.run(k, Recorded(events[..k])).result;
      && r.success == ran.success && r.error == ran.error && r.data == ran.data
      && r.name == (if steps[k].name != "" then steps[k].name else "step_" + ToDecimal(k))
      && r.stepType == steps[k].stepType
  {
    PrefixIsRun(steps, host, events, k);
  }

  lemma StepFailsHard(steps: seq<StepConfig>, host: Host, events: seq<Event>, k: nat)
    requires IsRun(steps, host, events) && k < |events| && events[k].Failed?
    ensures k < |steps| && host.run(k, Recorded(events[..k])) == HardError(events[k].err)
  {
    PrefixIsRun(steps, host, events, k);
  }

  // ----- what is on record

  /** The step with this name ran at `k` and at no later position. */
  predicate LastRunAt(events: seq<Event>, name: string, k: nat) {
    && k < |events| && events[k].Ran? && events[k].result.name == name
    && forall j :: k < j < |events| && events[j].Ran? ==> events[j].result.name != name
  }

  /** A name is on record exactly if a step ran under it, with the result of the last such step. */
  lemma {:induction false} RecordedIsLast(events: seq<Event>, name: string)
    ensures name in Recorded(events) <==> exists k :: 0 <= k < |events| && LastRunAt(events, name, k)
    ensures forall k: nat :: LastRunAt(events, name, k) ==>
      name in Recorded(events) && Recorded(events)[name] == events[k].result
  {
    if events != [] {
      var n := |events| - 1;
      var front := events[..n];
      RecordedIsLast(front, name);
      if events[n].Ran? && events[n].result.name == name {
        assert LastRunAt(events, name, n);
        forall k: nat | LastRunAt(events, name, k) ensures k == n {
        }
      } else {
        forall k: nat ensures LastRunAt(events, name, k) <==> LastRunAt(front, name, k) {
          LastRunOfFront(events, name, k);
        }
      }
    }
  }

  lemma LastRunOfFront(events: seq<Event>, name: string, k: nat)
    requires events != []
    requires var ev := events[|events| - 1]; !(ev.Ran? && ev.result.name == name)
    ensures LastRunAt(events, name, k) <==> LastRunAt(events[..|events| - 1], name, k)
  {
    var n := |events| - 1;
    var front := events[..n];
    assert forall j :: 0 <= j < n ==> front[j] == events[j];
    if LastRunAt(front, name, k) {
      forall j | k < j < |events| && events[j].Ran? ensures events[j].result.name != name {
        if j < n { assert front[j] == events[j]; }
      }
    }
  }

  // ----- where a run ends

  /** A whole run goes on to the last step unless its last event is a cancellation, a hard error
      or a failure whose policy is unset or abort; no earlier event is one of these. */
  lemma EndsWhereStopped(steps: seq<StepConfig>, host: Host, events: seq<Event>)
    requires IsWholeRun(steps, host, events)
    ensures |events| <= |steps|
    ensures forall k :: 0 <= k < |events| - 1 ==>
      && !events[k].Cancelled? && !events[k].Failed?
      && (events[k].Ran? && !events[k].result.success ==> steps[k].onError != "" && steps[k].onError != "abort")
    ensures |events| < |steps| ==> events != [] && var k := |events| - 1;
      || events[k].Cancelled? || events[k].Failed?
      || (events[k].Ran? && !events[k].result.success && (steps[k].onError == "" || steps[k].onError == "abort"))
  {
    PrefixIsRun(steps, host, events, |events|);
    forall k | 0 <= k < |events| - 1 ensures !Stops(steps[k], events[k]) {
      OnlyEnabledStepsRun(steps, host, events, k);
    }
  }

  /** The result of the executor: success, if the last event of the run does not stop it; the error
      of that event otherwise; and a response sent, if a step of explicit type response succeeded. */
  lemma ConclusionIs(steps: seq<StepConfig>, host: Host, events: seq<Event>, result: ExecuteResult)
    requires IsWholeRun(steps, host, events) && Concludes(steps, events, result)
    ensures |events| <= |steps| && (events == [] ==> result.success)
    ensures events != [] ==> var k := |events| - 1; match events[k]
      case Cancelled => !result.success && result.error == Some("context canceled")
      case Failed(err) => !result.success && result.error == Some(err)
      case Ran(r) =>
        var fails := !r.success && (steps[k].onError == "" || steps[k].onError == "abort");
        (result.success <==> !fails) && result.error == if fails then r.error else None
      case _ => result.success
    ensures result.success ==> result.error == None
    ensures result.responseSent <==>
      exists k :: 0 <= k < |events| && events[k].Ran? && events[k].result.success && steps[k].explicitType == "response"
  {
    PrefixIsRun(steps, host, events, |events|);
    assert forall k :: 0 <= k < |events| ==>
      (RespondsWith(steps[k], events[k]) <==>
       events[k].Ran? && events[k].result.success && steps[k].explicitType == "response");
  }

  // ----- nested steps

  /** A nested step runs exactly if it is enabled and its condition, if any, holds; cancellation
      is not observed between nested steps. */
  lemma NestedStepRunsIff(steps: seq<StepConfig>, i: nat, host: BlockHost, k: nat)
    requires k < |IterationRun(steps, i, host)|
    ensures var events := IterationRun(steps, i, host);
      && k < |steps| && !events[k].Cancelled? && (events[k].Disabled? <==> steps[k].disabled)
      && (events[k].Ran? || events[k].Failed? <==>
          !steps[k].disabled && (steps[k].hasCondition ==> host.condition(i, k, Recorded(events[..k])) == Holds))
      && (events[k].NotRun? ==> events[k].verdict == host.condition(i, k, Recorded(events[..k])) != Holds)
  {
    IsTheRun(steps, NestedHost(steps, i, host), IterationRun(steps, i, host));
    StepRunsIff(steps, NestedHost(steps, i, host), IterationRun(steps, i, host), k);
  }

  lemma NestedRunIs(steps: seq<StepConfig>, i: nat, host: BlockHost, k: nat, seen: Results)
    requires k < |steps|
    ensures NestedHost(steps, i, host).run(k, seen)
         == if steps[k].stepType == "query" || steps[k].stepType == "httpcall" then host.run(i, k, seen)
            else HardError("unsupported step type in block: " + steps[k].stepType)
  {
    var nested := NestedHost(steps, i, host);
    if !Nestable(steps[k]) {
      assert nested.run(k, seen).err == "unsupported step type in block: " + steps[k].stepType;
    }
  }

  /** Only queries and calls run; what they return is recorded under the configured name and type. */
  lemma NestedResultIs(steps: seq<StepConfig>, i: nat, host: BlockHost, k: nat)
    requires k < |IterationRun(steps, i, host)| && IterationRun(steps, i, host)[k].Ran?
    ensures var events := IterationRun(steps, i, host);
      && k < |steps| && (steps[k].stepType == "query" || steps[k].stepType == "httpcall")
      && host.run(i, k, Recorded(events[..k])).Returned?
      && var r, ran := events[k].result, host.run(i, k, Recorded(events[..k])).result;
      && r.success == ran.success && r.error == ran.error && r.data == ran.data
      && r.name == (if steps[k].name != "" then steps[k].name else "step_" + ToDecimal(k))
      && r.stepType == steps[k].stepType
  {
    IsTheRun(steps, NestedHost(steps, i, host), IterationRun(steps, i, host));
    StepResultIs(steps, NestedHost(steps, i, host), IterationRun(steps, i, host), k);
    NestedRunIs(steps, i, host, k, Recorded(IterationRun(steps, i, host)[..k]));
  }

  /** Any other type is a hard error. */
  lemma NestedFailsHard(steps: seq<StepConfig>, i: nat, host: BlockHost, k: nat)
    requires k < |IterationRun(steps, i, host)| && IterationRun(steps, i, host)[k].Failed?
    ensures k < |steps| && var events := IterationRun(steps, i, host);
      if steps[k].stepType == "query" || steps[k].stepType == "httpcall"
      then host.run(i, k, Recorded(events[..k])) == HardError(events[k].err)
      else events[k].err == "unsupported step type in block: " + steps[k].stepType
  {
    IsTheRun(steps, NestedHost(steps, i, host), IterationRun(steps, i, host));
    StepFailsHard(steps, NestedHost(steps, i, host), IterationRun(steps, i, host), k);
    NestedRunIs(steps, i, host, k, Recorded(IterationRun(steps, i, host)[..k]));
  }

  // ----- iterations

  /** An iteration reports the error of the last nested step that ran and failed. */
  lemma {:induction false} LastErrorIs(events: seq<Event>)
    ensures (forall k :: 0 <= k < |events| ==> !(events[k].Ran? && !events[k].result.success)) ==>
      LastError(events) == None
    ensures forall k ::
      (&& 0 <= k < |events| && events[k].Ran? && !events[k].result.success
       && forall j :: k < j < |events| ==> !(events[j].Ran? && !events[j].result.success)) ==>
      LastError(events) == events[k].result.error
  {
    if events != [] {
      var front := events[..|events| - 1];
      LastErrorIs(front);
      assert forall k :: 0 <= k < |front| ==> front[k] == events[k];
    }
  }

  /** An iteration is reported for its item, as a success exactly if no nested step that ran failed,
      and only if the run of its nested steps does not end in a hard error. */
  lemma IterationIs(steps: seq<StepConfig>, i: nat, item: nat, host: BlockHost, iter: Iteration)
    requires IsIteration(steps, i, item, host, iter)
    ensures var events := IterationRun(steps, i, host);
      && iter.index == i && iter.item == item && iter.steps == Recorded(events)
      && (iter.success <==> forall k :: 0 <= k < |events| && events[k].Ran? ==> events[k].result.success)
      && (iter.success ==> iter.error == None)
      && (events != [] ==> !events[|events| - 1].Failed?)
  {
    LastErrorIs(IterationRun(steps, i, host));
    assert forall k :: 0 <= k < |IterationRun(steps, i, host)| ==>
      (RanAndFailed(IterationRun(steps, i, host)[k]) <==>
       IterationRun(steps, i, host)[k].Ran? && !IterationRun(steps, i, host)[k].result.success);
  }

  /** The count of successes is the number of iterations that succeeded. */
  lemma {:induction false} SuccessesAre(its: seq<Iteration>)
    ensures Successes(its) == |set k | 0 <= k < |its| && its[k].success|
  {
    if its != [] {
      var n := |its| - 1;
      SuccessesAre(its[..n]);
      var was, now := set k | 0 <= k < n && its[..n][k].success, set k | 0 <= k < |its| && its[k].success;
      assert now == if its[n].success then was + {n} else was;
    }
  }

  /** The loop over the items, told without its exits: the iterations recorded are those of the
      first items, begun without cancellation; under the abort policy all but the last
      succeeded; and the next item is left out only for one of three reasons. */
  lemma BlockEnds(policy: string, items: seq<nat>, steps: seq<StepConfig>, host: BlockHost, result: BlockResult)
    requires Consistent(policy, items, steps, host, result) && Explains(policy, items, steps, host, result)
    ensures |result.iterations| <= |items|
    ensures forall k :: 0 <= k < |result.iterations| ==>
      result.iterations[k].index == k && result.iterations[k].item == items[k] && !host.cancelled(k)
    ensures policy == "" || policy == "abort" ==>
      forall k :: 0 <= k < |result.iterations| - 1 ==> result.iterations[k].success
    ensures |result.iterations| < |items| ==> var n := |result.iterations|;
      || ((policy == "" || policy == "abort") && n > 0 && !result.iterations[n - 1].success)
      || host.cancelled(n) || EndsHard(IterationRun(steps, n, host))
    ensures result.successCount + result.failureCount == |result.iterations|
    ensures result.successCount == |set k | 0 <= k < |result.iterations| && result.iterations[k].success|
  {
    SuccessesAre(result.iterations);
    forall k | 0 <= k < |result.iterations|
      ensures result.iterations[k].index == k && result.iterations[k].item == items[k] && !host.cancelled(k)
    {
      assert CoversAt(items, steps, host, result.iterations, k);
    }
  }
}
