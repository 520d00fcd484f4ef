# Veto evaluation of a data-quality flag

This project models `evaluate_flag`, the core of the GWpy VET toolkit
(`gwpy/toolkits/vet/core.py`). Given a data-quality flag, an optional table of
event triggers, a list of metrics and optional injections, it

1. turns raw segments into a flag whose `active` time is those segments and
   whose `known` time is empty, and uses a flag as given;
2. when triggers are given, builds `after`: a new table that receives, in
   order, every trigger whose `time` is not inside an active segment
   (segments are half-open, `[start, end)`); with no triggers, `after` is
   `None`, which differs from an empty table;
3. resolves each entry of `metrics` (a metric object is used as given, a name
   is looked up in the registry) and calls it by a fixed three-way rule: a
   metric whose lower-cased name is `"safety"` gets `(flag, injections)`;
   otherwise one that needs triggers gets `(flag, triggers, after)`, with the
   unfiltered triggers; otherwise it gets `(flag)`;
4. stores each result in an insertion-ordered dictionary under the caller's
   own identifier, and returns the dictionary and `after`.

A failed lookup or a metric that raises aborts the whole evaluation; nothing
is caught.

Layout:

- `wrappers.dfy`: `Option` and `Result`.
- `segments.dfy`: segments, the membership predicate `InList` ("`t` lies in
  some segment of the list"), and `BisectContains`, a bisection search proved
  equal to `InList` on a coalesced list. The veto tests `t in flag.active`
  with `InList`. The segment library's own `in` bisects and assumes a
  coalesced list, so the two give the same answer only on coalesced lists;
  that agreement is what `BisectContains` proves.
- `ordered_dict.dfy`: `OrderedDict` as an association list. `Set` is
  `d[k] = v`: a key keeps its first position and takes the last value.
- `vet_core.dfy`: the entities (`Flag`, `Trigger`, `Metric`, `MetricKey`,
  `Call`, `Error`), the specification functions (`ToFlag`, `Survivors`,
  `After`, `Resolve`, `Dispatch`, `Step`, `Collect`, `Evaluation`) and the two
  loops as methods. `ApplyVetoes` is the trigger loop of lines 64-71.
  `EvaluateFlag` calls it and then runs the metric loop of lines 74-85. Both
  are proved equal to the specification functions.
- `vet_properties.dfy`: lemmas about the specification functions.

Inputs the code cannot see are parameters:

- The registry is a `map<string, Metric>`.
- The metric implementations are a function `run` from a `Call` to a
  `MetricResult` or a raised error.
- A `Call` records which of the three argument shapes a metric received and
  with which arguments, so the dispatch can be checked without modelling any
  metric's numerics.

An unknown name is reported only when the metric loop reaches it
(core.py:75-79). By then `after` has already been computed and every metric
listed before it has already been called. `CollectFailsFirst` states this.
A metric that raises aborts the evaluation with its own error, passed on
unchanged (`MetricRaised(reason)`).

## Model

| member | source | states |
|---|---|---|
| VetCore.ToFlag | gwpy/toolkits/vet/core.py:59-61 | a flag argument is used unchanged; raw segments become a flag whose active time is exactly those segments and whose known time is empty |
| Segments.BisectContains | gwpy/toolkits/vet/core.py:67 | on a coalesced segment list, bisection on the starts answers `t in segs` exactly as the half-open membership predicate does |
| VetCore.After | gwpy/toolkits/vet/core.py:63-71 | `after` is absent exactly when no triggers were given |
| VetCore.ApplyVetoes | gwpy/toolkits/vet/core.py:63-71 | the veto loop, starting from an empty copy and appending each trigger not in the active time, produces exactly the absent-or-survivors `after` |
| VetProperties.SurvivorsAreVetoSelection | gwpy/toolkits/vet/core.py:65-69 | `after` is the subsequence of the triggers at strictly increasing positions, and a position is kept exactly when its time lies in no active segment |
| VetProperties.SurvivorsPartition | gwpy/toolkits/vet/core.py:65-69 | every kept trigger is an input trigger outside the active time; every input trigger is kept or has its time inside an active segment; no more triggers come out than went in |
| VetProperties.AllVetoedLeavesEmptyTable | gwpy/toolkits/vet/core.py:64-71 | when every trigger is vetoed, `after` is an empty table, not the absent value |
| VetProperties.VetoExample | gwpy/toolkits/vet/core.py:65-69 | active `[10, 20)` with trigger times 5, 15, 25 keeps the triggers at 5 and 25, in that order |
| VetCore.Resolve | gwpy/toolkits/vet/core.py:76-79 | a metric object is used as given; a registered name gives the registry's metric; an unregistered name is an unknown-metric error |
| VetCore.Dispatch | gwpy/toolkits/vet/core.py:80-85 | the call is a safety call with the injections exactly when the name lower-cases to "safety"; otherwise a trigger call with the unfiltered triggers and `after` exactly when the metric needs triggers; otherwise a flag-only call; always for the resolved metric and the normalised flag |
| VetProperties.IsSafetyIff | gwpy/toolkits/vet/core.py:80 | a name lower-cases to "safety" exactly when it has six characters, each the lower- or upper-case letter of "safety" at that place |
| OrderedDicts.Set | gwpy/toolkits/vet/core.py:81-85 | assigning `out[key]` keeps the key order when the key is present and appends the key otherwise |
| OrderedDicts.SetGet | gwpy/toolkits/vet/core.py:81-85 | after `out[key] = v`, looking up `key` gives `v` and every other key reads as before |
| OrderedDicts.FirstOccurrencesSpec | gwpy/toolkits/vet/core.py:74-85 | the key list of the results has no repeats, holds exactly the identifiers given, and orders them by first occurrence in `metrics` |
| VetCore.CollectFailureFinal | gwpy/toolkits/vet/core.py:75-85 | once the loop has failed on a prefix of `metrics`, the whole loop fails with that same error, so returning at once is correct |
| VetProperties.CollectSucceedsIff | gwpy/toolkits/vet/core.py:75-85 | the metric loop succeeds exactly when every entry resolves and its metric call returns |
| VetProperties.CollectFailsFirst | gwpy/toolkits/vet/core.py:75-85 | if entry `j` is the first whose lookup or call fails, the evaluation fails with exactly that entry's error |
| VetProperties.CollectKeys | gwpy/toolkits/vet/core.py:74-85 | the result keys are the distinct identifiers of `metrics` in first-occurrence order |
| VetProperties.CollectValues | gwpy/toolkits/vet/core.py:81-85 | each identifier's entry holds the result of that identifier's metric call |
| VetCore.EvaluateFlag | gwpy/toolkits/vet/core.py:38-87 | the method with the source's two loops returns exactly the specified evaluation: the ordered results and `after`, or the first error |
| VetProperties.EvaluationResults | gwpy/toolkits/vet/core.py:59-87 | on success: `after` is absent exactly when no triggers were given and is otherwise the survivors; the keys are the distinct `metrics` entries in first-occurrence order with no repeats; every entry resolves and holds what its metric returned when called by the three-way rule with the unfiltered triggers and `after` |
| VetProperties.UnknownNameAborts | gwpy/toolkits/vet/core.py:75-79 | an unregistered name anywhere in `metrics` makes the evaluation fail, with that name's unknown-metric error when every entry before it succeeded |
| VetProperties.DefaultMetricsSingleEntry | gwpy/toolkits/vet/core.py:38 | with the default `['deadtime']`, a successful result has exactly one entry, keyed "deadtime", and an unregistered "deadtime" fails with its unknown-metric error |
| VetProperties.EvaluationVetoExample | gwpy/toolkits/vet/core.py:59-71 | raw segments `[10, 20)`, trigger times 5, 15, 25 and no metrics give empty results and `after` holding the triggers at 5 and 25 |

## Left out

- The time column is read without error. Reading it (`get_row_value`,
  `float`) can fail on a row that lacks a `time` column. That helper is not
  part of this model, so a trigger here always has a real `time`.
- GPS times are `real`, so floating-point rounding is not modelled.
- The registry is an exact-key map. Its implementation (`get_metric`, the
  registry module) is not part of this model, so a case-insensitive lookup is
  not modelled.
- Lower-casing is ASCII only. Python's `lower` is full Unicode. No other
  character lower-cases to a single letter of "safety", so the comparison
  with "safety" comes out the same.
- Metric computations are left out. A metric call is the opaque function
  `run`. Because `run` is a function, calls with equal arguments give equal
  results. A repeated identifier therefore holds its last result, which
  equals every earlier one. Metric objects whose results change between calls
  are not modelled.
- Mutation and aliasing of the trigger table are left out. Tables are
  immutable sequences, so "the input table is not modified" and "`after` is a
  new table" hold by construction.
- Any metric identifier that is not a Metric object is a name. Subclassing is
  not modelled, and neither are identifiers of other types.
- Flag names are left out. The other attributes of `DataQualityFlag` do not
  take part in the evaluation.
- The veto uses the membership predicate `InList` on whatever list the flag
  holds. The segment library's `in` bisects and assumes a coalesced list, so
  it matches `InList` only on coalesced lists (`BisectContains` proves that
  agreement). On a list that is not coalesced, such as `[10, 20)` followed by
  `[0, 5)` with a trigger at 15, the model vetoes the trigger while the
  library's bisection may keep it. The model does not require `active` to be
  coalesced, because the source does not check it.
- Segment construction is not modelled. A raw pair with start > end is kept
  as given and contains no time, so it vetoes nothing. The segment class,
  which is not part of this model, may reorder or reject such a pair.
- Segment-list union, intersection and padding are left out. They belong to
  the segment library and the flag-combination layer, and neither is part of
  this model. Only the membership test that the veto uses is modelled.
- All of `gwvet/tabs.py` is left out: configuration parsing, segment and
  trigger fetching, plots and HTML. This includes the `&`/`|` name join and
  the keyword arguments it passes that `evaluate_flag` does not accept.
