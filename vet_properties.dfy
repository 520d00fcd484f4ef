/** Properties of the veto-evaluation step modelled in `VetCore`. */
module VetProperties {
  import opened Wrappers
  import opened Segments
  import opened OrderedDicts
  import opened VetCore

  // ---------------------------------------------------------------------------
  // The trigger veto

  /** The positions in `ts` of the triggers that survive the veto, in increasing order. */
  ghost function SurvivorIndices(active: seq<Segment>, ts: seq<Trigger>): seq<nat>
    decreases |ts|
  {
    if |ts| == 0 then []
    else
      var kept := SurvivorIndices(active, ts[..|ts| - 1]);
      if InList(active, ts[|ts| - 1].time) then kept else kept + [|ts| - 1]
  }

  /**
   * `after` is the subsequence of `ts` at positions `idx`: the positions rise
   * strictly, and a position is taken exactly when its trigger's time lies in
   * no active segment.
   */
  ghost predicate IsVetoSelection(active: seq<Segment>, ts: seq<Trigger>, after: seq<Trigger>, idx: seq<nat>) {
    && |idx| == |after|
    && (forall k | 0 <= k < |idx| :: idx[k] < |ts| && after[k] == ts[idx[k]])
    && (forall k, l | 0 <= k < l < |idx| :: idx[k] < idx[l])
    && (forall j | 0 <= j < |ts| :: j in idx <==> !InList(active, ts[j].time))
  }

  /** The survivors are exactly the unvetoed triggers, in their original relative order. */
  lemma {:induction false} SurvivorsAreVetoSelection(active: seq<Segment>, ts: seq<Trigger>)
    ensures IsVetoSelection(active, ts, Survivors(active, ts), SurvivorIndices(active, ts))
  {
    if |ts| > 0 {
      var n := |ts|;
      var init := ts[..n - 1];
      SurvivorsAreVetoSelection(active, init);
      var r0, idx0 := Survivors(active, init), SurvivorIndices(active, init);
      assert forall j | 0 <= j < n - 1 :: ts[j] == init[j];
      if !InList(active, ts[n - 1].time) {
        var r, idx := r0 + [ts[n - 1]], idx0 + [n - 1];
        assert Survivors(active, ts) == r && SurvivorIndices(active, ts) == idx;
        forall j | 0 <= j < n
          ensures j in idx <==> !InList(active, ts[j].time)
        {
          assert j in idx <==> j in idx0 || j == n - 1;
        }
      }
    }
  }

  /** Partition completeness: every trigger is kept or vetoed, never both, and nothing else is kept. */
  lemma SurvivorsPartition(active: seq<Segment>, ts: seq<Trigger>)
    ensures forall t | t in Survivors(active, ts) :: t in ts && !InList(active, t.time)
    ensures forall t | t in ts :: t in Survivors(active, ts) || InList(active, t.time)
    ensures |Survivors(active, ts)| <= |ts|
  {
    var r, idx := Survivors(active, ts), SurvivorIndices(active, ts);
    SurvivorsAreVetoSelection(active, ts);
    forall t | t in r
      ensures t in ts && !InList(active, t.time)
    {
      var k :| 0 <= k < |r| && r[k] == t;
      assert idx[k] in idx;
    }
    forall t | t in ts && !InList(active, t.time)
      ensures t in r
    {
      var j :| 0 <= j < |ts| && ts[j] == t;
      assert j in idx;
      var k :| 0 <= k < |idx| && idx[k] == j;
      assert r[k] == t;
    }
    SelectionLength(idx, |ts|);
  }

  /** A strictly increasing sequence of positions below `n` has at most `n` elements. */
  lemma {:induction false} SelectionLength(idx: seq<nat>, n: nat)
    requires forall k | 0 <= k < |idx| :: idx[k] < n
    requires forall k, l | 0 <= k < l < |idx| :: idx[k] < idx[l]
    ensures |idx| <= n
  {
    if |idx| > 0 {
      var last := idx[|idx| - 1];
      SelectionLength(idx[..|idx| - 1], last);
    }
  }

  /** When every trigger is vetoed, `after` is an empty table, which is not the same as no table. */
  lemma {:induction false} AllVetoedLeavesEmptyTable(f: Flag, ts: seq<Trigger>)
    requires forall j | 0 <= j < |ts| :: InList(f.active, ts[j].time)
    ensures After(f, Some(ts)) == Some([])
    decreases |ts|
  {
    if |ts| > 0 {
      AllVetoedLeavesEmptyTable(f, ts[..|ts| - 1]);
    }
  }

  /** The worked scenario: active `[10, 20)` and trigger times 5, 15, 25 leave the triggers at 5 and 25. */
  lemma VetoExample()
    ensures var ts := [Trigger(5.0, 0), Trigger(15.0, 1), Trigger(25.0, 2)];
            Survivors([Segment(10.0, 20.0)], ts) == [ts[0], ts[2]]
  {
    var active := [Segment(10.0, 20.0)];
    var ts := [Trigger(5.0, 0), Trigger(15.0, 1), Trigger(25.0, 2)];
    assert !InSegment(active[0], 5.0) && InSegment(active[0], 15.0) && !InSegment(active[0], 25.0);
    assert ts[..1][..0] == [];
    assert Survivors(active, ts[..1]) == [ts[0]];
    assert ts[..2][..1] == ts[..1];
    assert Survivors(active, ts[..2]) == [ts[0]];
    assert ts[..2] == ts[..|ts| - 1];
  }

  // ---------------------------------------------------------------------------
  // Metric lookup and the three-way dispatch

  /** A metric name lower-cases to "safety" exactly when it spells "safety" in any mix of cases. */
  lemma IsSafetyIff(name: string)
    ensures IsSafety(name) <==>
              |name| == 6 && forall i | 0 <= i < 6 :: name[i] == "safety"[i] || name[i] == "SAFETY"[i]
  {
    if |name| == 6 && forall i | 0 <= i < 6 :: name[i] == "safety"[i] || name[i] == "SAFETY"[i] {
      forall i | 0 <= i < 6
        ensures Lower(name)[i] == "safety"[i]
      {
        assert LowerChar(name[i]) == "safety"[i];
      }
    }
    if IsSafety(name) {
      forall i | 0 <= i < 6
        ensures name[i] == "safety"[i] || name[i] == "SAFETY"[i]
      {
        assert LowerChar(name[i]) == "safety"[i];
      }
    }
  }

  // ---------------------------------------------------------------------------
  // The metric loop

  /** Entry `j` is the first of `keys` whose turn of the loop fails. */
  ghost predicate FailsFirstAt(keys: seq<MetricKey>, j: int, step: Stepper) {
    && 0 <= j < |keys|
    && step(keys[j]).Failure?
    && forall i | 0 <= i < j :: step(keys[i]).Success?
  }

  /** The loop succeeds exactly when every entry resolves and its metric call returns. */
  lemma {:induction false} CollectSucceedsIff(keys: seq<MetricKey>, step: Stepper)
    ensures Collect(keys, step).Success? <==> forall j | 0 <= j < |keys| :: step(keys[j]).Success?
    decreases |keys|
  {
    if |keys| > 0 {
      var n := |keys|;
      var init, last := keys[..n - 1], keys[n - 1];
      CollectSucceedsIff(init, step);
      var acc := Collect(init, step);
      assert Collect(keys, step) == Extend(acc, last, step);
      if acc.Success? && step(last).Success? {
        forall j | 0 <= j < n
          ensures step(keys[j]).Success?
        {
          if j < n - 1 {
            assert keys[j] == init[j];
          }
        }
      } else if acc.Failure? {
        var j :| 0 <= j < n - 1 && step(init[j]).Failure?;
        assert keys[j] == init[j];
      }
    }
  }

  /**
   * Otherwise the loop fails with the error of the first entry whose lookup or
   * metric call fails; nothing is caught.
   */
  lemma {:induction false} CollectFailsFirst(keys: seq<MetricKey>, j: nat, step: Stepper)
    requires FailsFirstAt(keys, j, step)
    ensures Collect(keys, step) == Failure(step(keys[j]).error)
    decreases |keys|
  {
    var n := |keys|;
    var init, last := keys[..n - 1], keys[n - 1];
    assert Collect(keys, step) == Extend(Collect(init, step), last, step);
    if j < n - 1 {
      assert keys[j] == init[j];
      forall i | 0 <= i < j
        ensures step(init[i]).Success?
      {
        assert keys[i] == init[i];
      }
      CollectFailsFirst(init, j, step);
    } else {
      forall i | 0 <= i < n - 1
        ensures step(init[i]).Success?
      {
        assert keys[i] == init[i];
      }
      CollectSucceedsIff(init, step);
    }
  }

  /** A successful loop stores one entry per distinct identifier, at its first position in `keys`. */
  lemma {:induction false} CollectKeys(keys: seq<MetricKey>, step: Stepper)
    requires Collect(keys, step).Success?
    ensures Keys(Collect(keys, step).value) == FirstOccurrences(keys)
    decreases |keys|
  {
    if |keys| > 0 {
      var n := |keys|;
      var init, last := keys[..n - 1], keys[n - 1];
      var acc := Collect(init, step);
      assert Collect(keys, step) == Extend(acc, last, step);
      CollectKeys(init, step);
      assert Collect(keys, step).value == Set(acc.value, last, step(last).value);
    }
  }

  /**
   * In a successful loop every entry's call returned, and the entry of each
   * identifier holds the result of its metric call.
   */
  lemma {:induction false} CollectValues(keys: seq<MetricKey>, step: Stepper)
    requires Collect(keys, step).Success?
    ensures forall j | 0 <= j < |keys| ::
              step(keys[j]).Success? && Get(Collect(keys, step).value, keys[j]) == Some(step(keys[j]).value)
    decreases |keys|
  {
    if |keys| > 0 {
      var n := |keys|;
      var init, last := keys[..n - 1], keys[n - 1];
      var acc := Collect(init, step);
      assert Collect(keys, step) == Extend(acc, last, step);
      CollectValues(init, step);
      var out, v := acc.value, step(last).value;
      assert Collect(keys, step).value == Set(out, last, v);
      forall j | 0 <= j < n
        ensures step(keys[j]).Success? && Get(Set(out, last, v), keys[j]) == Some(step(keys[j]).value)
      {
        SetGet(out, last, v, keys[j]);
        if j < n - 1 {
          assert keys[j] == init[j];
        }
      }
    }
  }

  // ---------------------------------------------------------------------------
  // The whole evaluation

  /**
   * On success, `after` is absent exactly when no triggers were given and is
   * otherwise the veto survivors; the result keys are the distinct `metrics`
   * entries in first-occurrence order; and each entry holds what its metric
   * returned when called with the arguments the three-way rule picks, the
   * unfiltered triggers among them.
   */
  lemma EvaluationResults(flag: FlagInput, triggers: Option<seq<Trigger>>, metrics: seq<MetricKey>,
                          injections: Injections, registry: Registry, run: MetricRunner)
    requires Evaluation(flag, triggers, metrics, injections, registry, run).Success?
    ensures var (out, after) := Evaluation(flag, triggers, metrics, injections, registry, run).value;
            var f := ToFlag(flag);
            && (after.None? <==> triggers.None?)
            && (triggers.Some? ==> after == Some(Survivors(f.active, triggers.value)))
            && Keys(out) == FirstOccurrences(metrics)
            && Distinct(Keys(out))
            && forall j | 0 <= j < |metrics| ::
                 && Resolve(metrics[j], registry).Success?
                 && var m := Resolve(metrics[j], registry).value;
                    && run(Dispatch(m, f, triggers, after, injections)).Success?
                    && Get(out, metrics[j]) == Some(run(Dispatch(m, f, triggers, after, injections)).value)
  {
    var ctx := ContextOf(flag, triggers, injections, registry, run);
    CollectKeys(metrics, StepOf(ctx));
    CollectValues(metrics, StepOf(ctx));
    FirstOccurrencesSpec(metrics);
  }

  /** An entry whose name is not registered makes the evaluation fail, with that name if nothing failed before it. */
  lemma UnknownNameAborts(flag: FlagInput, triggers: Option<seq<Trigger>>, metrics: seq<MetricKey>,
                          injections: Injections, registry: Registry, run: MetricRunner, j: nat)
    requires j < |metrics| && metrics[j].Named? && metrics[j].name !in registry
    ensures Evaluation(flag, triggers, metrics, injections, registry, run).Failure?
    ensures (forall i | 0 <= i < j :: Step(metrics[i], ContextOf(flag, triggers, injections, registry, run)).Success?) ==>
              Evaluation(flag, triggers, metrics, injections, registry, run) == Failure(UnknownMetric(metrics[j].name))
  {
    var ctx := ContextOf(flag, triggers, injections, registry, run);
    CollectSucceedsIff(metrics, StepOf(ctx));
    assert StepOf(ctx)(metrics[j]).Failure?;
    if forall i | 0 <= i < j :: Step(metrics[i], ctx).Success? {
      assert FailsFirstAt(metrics, j, StepOf(ctx));
      CollectFailsFirst(metrics, j, StepOf(ctx));
    }
  }

  /** With the default `metrics`, a successful evaluation has exactly one entry, "deadtime". */
  lemma DefaultMetricsSingleEntry(flag: FlagInput, triggers: Option<seq<Trigger>>,
                                  injections: Injections, registry: Registry, run: MetricRunner)
    ensures var r := Evaluation(flag, triggers, DefaultMetrics, injections, registry, run);
            && (r.Success? ==> |r.value.0| == 1 && r.value.0[0].0 == Named("deadtime"))
            && ("deadtime" !in registry ==> r == Failure(UnknownMetric("deadtime")))
  {
    var ctx := ContextOf(flag, triggers, injections, registry, run);
    assert DefaultMetrics[..0] == [];
    if "deadtime" !in registry {
      assert FailsFirstAt(DefaultMetrics, 0, StepOf(ctx));
      CollectFailsFirst(DefaultMetrics, 0, StepOf(ctx));
    }
  }

  /** The worked scenario through the whole evaluation, with no metrics requested. */
  lemma EvaluationVetoExample(run: MetricRunner)
    ensures var ts := [Trigger(5.0, 0), Trigger(15.0, 1), Trigger(25.0, 2)];
            Evaluation(RawSegments([Segment(10.0, 20.0)]), Some(ts), [], NoInjections, map[], run)
              == Success(([], Some([ts[0], ts[2]])))
  {
    VetoExample();
  }
}
