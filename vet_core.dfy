/**
 * The veto-evaluation step of the vet toolkit (`evaluate_flag`): normalise the
 * flag, drop every trigger whose time lies in the flag's active segments, call
 * each requested metric with the inputs its kind asks for, and collect the
 * results in an insertion-ordered dictionary keyed by the caller's identifiers.
 */
module VetCore {
  import opened Wrappers
  import opened Segments
  import opened OrderedDicts

  /** A data-quality flag: the time it is active (bad) and the time it is known (defined). */
  datatype Flag = Flag(active: seq<Segment>, known: seq<Segment>)

  /** The `flag` argument: either a flag already, or raw segments for its active time. */
  datatype FlagInput = GivenFlag(flag: Flag) | RawSegments(segments: seq<Segment>)

  /**
   * One row of a trigger table. `time` is the row's `time` column; `row` stands
   * for the rest of the record, which the veto step carries along untouched.
   */
  datatype Trigger = Trigger(time: real, row: nat)

  /**
   * A metric object: its name, whether it asks for triggers, and `id`, which
   * tells apart distinct metric objects that share a name and capability.
   */
  datatype Metric = Metric(name: string, needsTriggers: bool, id: nat)

  /** An entry of the `metrics` argument: a registry name, or a metric object itself. */
  datatype MetricKey = Named(name: string) | Instance(metric: Metric)

  /** The metric registry, from name to metric. */
  type Registry = map<string, Metric>

  /** The `injections` argument: absent, a table of injections, or injection segments. */
  datatype Injections = NoInjections | InjectionTable(rows: seq<Trigger>) | InjectionSegments(segments: seq<Segment>)

  /** What a metric returns: a value with its unit and a description. */
  datatype MetricResult = MetricResult(value: real, unit: string, description: string)

  /**
   * A metric call with the arguments it was given. The three shapes are the
   * three ways the evaluator may call a metric.
   */
  datatype Call =
    | SafetyCall(metric: Metric, flag: Flag, injections: Injections)
    | TriggerCall(metric: Metric, flag: Flag, triggers: Option<seq<Trigger>>, after: Option<seq<Trigger>>)
    | FlagCall(metric: Metric, flag: Flag)

  /** What aborts an evaluation: a name missing from the registry, or what a metric raised, passed on unchanged. */
  datatype Error = UnknownMetric(name: string) | MetricRaised(reason: string)

  /** A metric implementation: the result of a call, or what the call raised. */
  type MetricRunner = Call -> Result<MetricResult, string>

  /** The `metrics` argument when the caller gives none. */
  const DefaultMetrics: seq<MetricKey> := [Named("deadtime")]

  /** Normalise the `flag` argument: raw segments become the active time of a flag with no known time. */
  function ToFlag(input: FlagInput): (f: Flag)
    ensures input.GivenFlag? ==> f == input.flag
    ensures input.RawSegments? ==> f.active == input.segments && f.known == []
  {
    match input
    case GivenFlag(flag) => flag
    case RawSegments(segs) => Flag(segs, [])
  }

  /** ASCII lower-casing of one character. */
  function LowerChar(c: char): char {
    if 'A' <= c <= 'Z' then (c as int + 32) as char else c
  }

  /** Lower-casing of a string, character by character. */
  function Lower(s: string): (r: string)
    ensures |r| == |s|
  {
    seq(|s|, i requires 0 <= i < |s| => LowerChar(s[i]))
  }

  /** The evaluator's one special name: a metric whose name lower-cases to "safety". */
  predicate IsSafety(name: string) {
    Lower(name) == "safety"
  }

  /** The triggers that survive the veto: those whose time is outside every active segment, in order. */
  function Survivors(active: seq<Segment>, ts: seq<Trigger>): seq<Trigger>
    decreases |ts|
  {
    if |ts| == 0 then []
    else
      var kept := Survivors(active, ts[..|ts| - 1]);
      if InList(active, ts[|ts| - 1].time) then kept else kept + [ts[|ts| - 1]]
  }

  /** The `after` table: absent when no triggers were given, else the survivors. */
  function After(f: Flag, triggers: Option<seq<Trigger>>): (after: Option<seq<Trigger>>)
    ensures after.None? <==> triggers.None?
  {
    match triggers
    case None => None
    case Some(ts) => Some(Survivors(f.active, ts))
  }

  /** Resolve a `metrics` entry: a metric object is used as given, a name is looked up. */
  function Resolve(key: MetricKey, registry: Registry): (r: Result<Metric, Error>)
    ensures key.Instance? ==> r == Success(key.metric)
    ensures key.Named? && key.name in registry ==> r == Success(registry[key.name])
    ensures key.Named? && key.name !in registry ==> r == Failure(UnknownMetric(key.name))
  {
    match key
    case Instance(m) => Success(m)
    case Named(name) => if name in registry then Success(registry[name]) else Failure(UnknownMetric(name))
  }

  /** The call the evaluator makes for metric `m`. */
  function Dispatch(m: Metric, f: Flag, triggers: Option<seq<Trigger>>, after: Option<seq<Trigger>>,
                    injections: Injections): (c: Call)
    ensures c.metric == m && c.flag == f
    ensures c.SafetyCall? <==> IsSafety(m.name)
    ensures c.SafetyCall? ==> c.injections == injections
    ensures c.TriggerCall? <==> !IsSafety(m.name) && m.needsTriggers
    ensures c.TriggerCall? ==> c.triggers == triggers && c.after == after
    ensures c.FlagCall? <==> !IsSafety(m.name) && !m.needsTriggers
  {
    if IsSafety(m.name) then SafetyCall(m, f, injections)
    else if m.needsTriggers then TriggerCall(m, f, triggers, after)
    else FlagCall(m, f)
  }

  /** Everything the metric loop reads, fixed for the whole loop. */
  datatype Context = Context(flag: Flag, triggers: Option<seq<Trigger>>, after: Option<seq<Trigger>>,
                             injections: Injections, registry: Registry, run: MetricRunner)

  /** One turn of the metric loop: resolve the entry, call the metric, keep its result or its error. */
  function Step(key: MetricKey, ctx: Context): Result<MetricResult, Error> {
    match Resolve(key, ctx.registry)
    case Failure(e) => Failure(e)
    case Success(m) =>
      match ctx.run(Dispatch(m, ctx.flag, ctx.triggers, ctx.after, ctx.injections))
      case Failure(reason) => Failure(MetricRaised(reason))
      case Success(v) => Success(v)
  }

  /** A turn of the metric loop as a function value, for the loop's own specification. */
  type Stepper = MetricKey -> Result<MetricResult, Error>

  /** The turn of the metric loop in context `ctx`. */
  function StepOf(ctx: Context): Stepper {
    key => Step(key, ctx)
  }

  /** One more turn of the metric loop after the turns that produced `acc`. */
  function Extend(acc: Result<Dict<MetricKey, MetricResult>, Error>, key: MetricKey, step: Stepper)
    : Result<Dict<MetricKey, MetricResult>, Error>
  {
    match acc
    case Failure(e) => Failure(e)
    case Success(out) =>
      match step(key)
      case Failure(e) => Failure(e)
      case Success(v) => Success(Set(out, key, v))
  }

  /** The metric loop over `keys`: results stored in order, stopping at the first error. */
  function Collect(keys: seq<MetricKey>, step: Stepper): Result<Dict<MetricKey, MetricResult>, Error>
    decreases |keys|
  {
    if |keys| == 0 then Success([])
    else Extend(Collect(keys[..|keys| - 1], step), keys[|keys| - 1], step)
  }

  /** The context in which `evaluate_flag` runs its metric loop. */
  function ContextOf(flag: FlagInput, triggers: Option<seq<Trigger>>, injections: Injections,
                     registry: Registry, run: MetricRunner): Context
  {
    var f := ToFlag(flag);
    Context(f, triggers, After(f, triggers), injections, registry, run)
  }

  /** What `evaluate_flag` returns: the ordered results and `after`, or the error that aborted it. */
  function Evaluation(flag: FlagInput, triggers: Option<seq<Trigger>>, metrics: seq<MetricKey>,
                      injections: Injections, registry: Registry, run: MetricRunner)
    : Result<(Dict<MetricKey, MetricResult>, Option<seq<Trigger>>), Error>
  {
    var ctx := ContextOf(flag, triggers, injections, registry, run);
    match Collect(metrics, StepOf(ctx))
    case Failure(e) => Failure(e)
    case Success(out) => Success((out, ctx.after))
  }

  /** Once the loop over a prefix has failed, the loop over the whole list fails with the same error. */
  lemma {:induction false} CollectFailureFinal(keys: seq<MetricKey>, n: nat, step: Stepper)
    requires n <= |keys|
    requires Collect(keys[..n], step).Failure?
    ensures Collect(keys, step) == Collect(keys[..n], step)
    decreases |keys| - n
  {
    if n < |keys| {
      var m := n + 1;
      assert keys[..m][..n] == keys[..n];
      CollectFailureFinal(keys, m, step);
    } else {
      assert keys[..n] == keys;
    }
  }

  /**
   * The veto loop of `evaluate_flag`: with no triggers `after` is absent;
   * otherwise it starts as an empty copy of the table and receives, in order,
   * every trigger whose time is not in the flag's active segments.
   */
  method ApplyVetoes(f: Flag, triggers: Option<seq<Trigger>>) returns (after: Option<seq<Trigger>>)
    ensures after == After(f, triggers)
  {
    if triggers.Some? {
      var ts := triggers.value;
      var kept: seq<Trigger> := [];  // the copied table holds no rows yet
      for i := 0 to |ts|
        invariant kept == Survivors(f.active, ts[..i])
      {
        assert ts[..i + 1][..i] == ts[..i];
        var t := ts[i];
        if InList(f.active, t.time) {
          continue;
        }
        kept := kept + [t];
      }
      assert ts[..|ts|] == ts;
      after := Some(kept);
    } else {
      after := None;
    }
  }

  /**
   * `evaluate_flag(flag, triggers, metrics, injections)`, with the registry and
   * the metric implementations as parameters. The two loops are those of the
   * source; the result is exactly `Evaluation`.
   */
  method EvaluateFlag(flag: FlagInput, triggers: Option<seq<Trigger>>, metrics: seq<MetricKey>,
                      injections: Injections, registry: Registry, run: MetricRunner)
    returns (r: Result<(Dict<MetricKey, MetricResult>, Option<seq<Trigger>>), Error>)
    ensures r == Evaluation(flag, triggers, metrics, injections, registry, run)
  {
    var f := ToFlag(flag);

    // the veto loop
    var after := ApplyVetoes(f, triggers);

    // the metric loop
    ghost var ctx := ContextOf(flag, triggers, injections, registry, run);
    assert ctx.flag == f && ctx.after == after;
    var out: Dict<MetricKey, MetricResult> := [];
    for i := 0 to |metrics|
      invariant Collect(metrics[..i], StepOf(ctx)) == Success(out)
    {
      assert metrics[..i + 1][..i] == metrics[..i];
      var key := metrics[i];
      assert Collect(metrics[..i + 1], StepOf(ctx)) == Extend(Success(out), key, StepOf(ctx));
      var m: Metric;
      match key {
        case Instance(given) =>
          m := given;
        case Named(name) =>
          if name !in registry {
            assert StepOf(ctx)(key) == Step(key, ctx) == Failure(UnknownMetric(name));
            CollectFailureFinal(metrics, i + 1, StepOf(ctx));
            return Failure(UnknownMetric(name));
          }
          m := registry[name];
      }
      assert Resolve(key, registry) == Success(m);
      var value: Result<MetricResult, string>;
      if IsSafety(m.name) {
        value := run(SafetyCall(m, f, injections));
      } else if m.needsTriggers {
        value := run(TriggerCall(m, f, triggers, after));
      } else {
        value := run(FlagCall(m, f));
      }
      assert value == run(Dispatch(m, f, triggers, after, injections));
      assert StepOf(ctx)(key) == Step(key, ctx);
      if value.Failure? {
        assert Step(key, ctx) == Failure(MetricRaised(value.error));
        CollectFailureFinal(metrics, i + 1, StepOf(ctx));
        return Failure(MetricRaised(value.error));
      }
      assert Step(key, ctx) == Success(value.value);
      out := Set(out, key, value.value);
    }
    assert metrics[..|metrics|] == metrics;
    return Success((out, after));
  }
}
