# GitLab pipeline exporter: aggregation core in Dafny

The exporter polls GitLab for the pipelines of a list of projects on the
`master` branch and turns them into Prometheus metric rows. This project
models the pure aggregation step that comes after the fetch, and proves what
it computes. That step has four parts:

- `gitlab_pipelines_total` emits one `(count, [project, "master"])` row per
  project of the fetched dictionary, in the dictionary's order.
- `only(data, status)` keeps every project and, for each one, the records
  with the requested status.
- `calculate_duration` gives a successful record the number of seconds from
  its creation to its last update. For any other status it raises
  `IncompletePipeline`.
- `find_applicable_buckets` and `gitlab_pipeline_duration_seconds` build the
  cumulative duration histogram. The fixed ladder is
  `180, 300, …, 2700, +Inf`. Each observation adds one to every bucket whose
  bound is strictly greater than it.

Layout:

- `sequences.dfy` (`Sequences`): the subsequence relation and distinctness.
- `pipelines.dfy` (`Pipelines`):
  - pipeline records;
  - the fetched dictionary, as a sequence of `(project, records)` entries with distinct keys (`IsDict`);
  - `CalculateDuration`;
  - `Only`.
- `buckets.dfy` (`Buckets`):
  - the ladder;
  - `FindApplicableBuckets`;
  - the decimal bucket names that `str(bucket)` produces.
- `metrics.dfy` (`Metrics`):
  - the two loop-based generators, as methods;
  - the specification functions the methods are proved against (`DurationRows`, `HistogramBuckets`, `CountBelow`);
  - the lemmas about those functions.

Python dictionaries keep insertion order. The local `counts` dictionaries are
modelled as a Dafny `map` plus a sequence of keys that records insertion
order. The final `for project in counts` loops walk that sequence.

Points of the code's behaviour worth stating:

- A project with no successful record gets no histogram row at all, not an
  all-zero one. This is because `counts[project]` is created only after a
  successful duration (lines 117-121).
- Bucket membership is strict (`duration < bound`), not `<=`.
- No histogram sum is computed (`sum_value=None`).
- There is no sticky error family. It is commented out.
- Records are not filtered by `ref` inside the counting function. The
  branch is a constant label.

## Model

| member | source | states |
|---|---|---|
| Pipelines.CalculateDuration | gitlab-prometheus-exporter.py:88-98 | `IncompletePipeline` exactly when the status is not `"success"`; otherwise the duration is `updated_at - created_at` |
| Pipelines.FilterStatus | gitlab-prometheus-exporter.py:139 | the kept records all come from the list, all have the requested status, and are no more than the list |
| Pipelines.Only | gitlab-prometheus-exporter.py:136-140 | the result has the same projects in the same order, and each project's list is its records filtered by status |
| Pipelines.FilterStatusIsSubsequence | gitlab-prometheus-exporter.py:139 | the filtered list is a subsequence of the original, so the order of the kept records is preserved |
| Pipelines.FilterStatusMultiplicity | gitlab-prometheus-exporter.py:139 | every record with the status is kept as many times as it occurs; no other record is kept |
| Pipelines.FilterStatusKeepsAll | gitlab-prometheus-exporter.py:139 | a list whose records all have the status is returned unchanged |
| Pipelines.OnlyIdempotent | gitlab-prometheus-exporter.py:136-140 | filtering twice by the same status equals filtering once |
| Pipelines.OnlyShrinks | gitlab-prometheus-exporter.py:136-140 | the result is still a dictionary (distinct keys), and no project's list gets longer |
| Buckets.Below | gitlab-prometheus-exporter.py:104 | `duration < float(bucket)`, true for every duration when the bound is `+Inf`; its properties are stated by `BelowUpward` and `FindApplicableBuckets` |
| Buckets.Finites | gitlab-prometheus-exporter.py:102 | the finite bounds of `DURATION_BUCKETS` (line 39) as ladder entries; with `+Inf` appended they form `Ladder`, the list built at lines 102 and 110, whose shape `LadderShape` states |
| Buckets.LadderShape | gitlab-prometheus-exporter.py:39 | the ladder has eleven bounds: the ten listed seconds in order, then `+Inf`; it is strictly ascending |
| Buckets.BelowUpward | gitlab-prometheus-exporter.py:104 | a duration below a bound is below every larger bound |
| Buckets.Applicable | gitlab-prometheus-exporter.py:103-105 | a bound is yielded if and only if it is in the list and the duration is below it |
| Buckets.FirstAbove | gitlab-prometheus-exporter.py:103-104 | the position of the first bound the duration is below: every earlier bound is not above the duration |
| Buckets.ApplicableIsSuffix | gitlab-prometheus-exporter.py:101-105 | on a strictly ascending list, the yielded bounds are the suffix starting at the first bound above the duration |
| Buckets.AllApplicable | gitlab-prometheus-exporter.py:101-105 | on an ascending list whose first bound is above the duration, every bound is yielded |
| Buckets.FindApplicableBuckets | gitlab-prometheus-exporter.py:101-105 | a ladder bound is yielded if and only if the duration is strictly below it |
| Buckets.FindApplicableBucketsSuffix | gitlab-prometheus-exporter.py:101-105 | for any duration, the yielded buckets are a non-empty suffix of the ladder that contains `+Inf` |
| Buckets.FindApplicableBucketsDistinct | gitlab-prometheus-exporter.py:126-127 | no bucket is yielded twice, so an observation adds at most one to each count |
| Buckets.FindApplicableBucketsExample | gitlab-prometheus-exporter.py:101-105 | a duration of 250 yields 300 through 2700 and `+Inf`, but not 180 |
| Buckets.DecimalString | gitlab-prometheus-exporter.py:131 | `str(n)` for a whole number; its properties are stated by `DecimalDigits`, `DecimalRoundTrip` and the two name lemmas |
| Buckets.BucketName | gitlab-prometheus-exporter.py:131 | `str(bucket)`: the decimal name of a finite bound, `"+Inf"` for the last; stated by `BucketNameInjective` and `LadderNames` |
| Buckets.DecimalDigits | gitlab-prometheus-exporter.py:131 | `str(n)` is a non-empty string of digits with no leading zero |
| Buckets.DecimalRoundTrip | gitlab-prometheus-exporter.py:131 | reading `str(n)` back as a decimal number gives `n` |
| Buckets.BucketNameInjective | gitlab-prometheus-exporter.py:130-131 | different bounds get different bucket names |
| Buckets.ThreeDigitNames | gitlab-prometheus-exporter.py:131 | the names of 180, 300, 600 and 900 |
| Buckets.FourDigitNames | gitlab-prometheus-exporter.py:131 | the names of 1200 through 2700 |
| Buckets.LadderNames | gitlab-prometheus-exporter.py:130-131 | the ladder's names in order are `"180"`, …, `"2700"`, `"+Inf"` |
| Metrics.GetOr | gitlab-prometheus-exporter.py:73 | `d.get(key, default)`: the stored value when the key is present, the default otherwise |
| Metrics.Labels | gitlab-prometheus-exporter.py:33-34 | the `[project, branch]` labels with the branch fixed to `Pipelines.Branch`, the constant `"master"` of line 34; used by the ensures of `PipelinesTotal` and `EmitTally` |
| Metrics.PipelinesTotal | gitlab-prometheus-exporter.py:69-78 | one row per project, in the dictionary's order; the count is the length of that project's list (zero for an empty one); labels are `[project, "master"]` |
| Metrics.InitBuckets | gitlab-prometheus-exporter.py:121-123 | afterwards every ladder bound has a count; existing counts are kept and new ones start at zero; no other key is added |
| Metrics.IncrementBuckets | gitlab-prometheus-exporter.py:126-127 | exactly the counts of the ladder bounds the duration is below go up by one; every other count is unchanged |
| Metrics.CountBelowSnoc | gitlab-prometheus-exporter.py:126-127 | one more observation adds one to a bound's count exactly when it is below that bound |
| Metrics.TallyObserve | gitlab-prometheus-exporter.py:121-127 | initialising and then incrementing moves the counts of the earlier observations to the counts of the observations with the new one added |
| Metrics.ObserveProject | gitlab-prometheus-exporter.py:112-127 | after one project's records, the project has no entry if none succeeded; otherwise its counts are the cumulative counts of its success durations, and it is appended to the insertion order |
| Metrics.PipelineDurationSeconds | gitlab-prometheus-exporter.py:108-133 | the emitted rows are exactly `DurationRows(data)` |
| Metrics.EmitHistogram | gitlab-prometheus-exporter.py:130-133 | the `(str(bucket), count)` pairs in ladder order with the project's labels; stated by `EmitTally` and `HistogramBucketsSpec` |
| Metrics.EmitTally | gitlab-prometheus-exporter.py:129-133 | emitting a tally gives the eleven named buckets of the cumulative histogram, labelled `[project, "master"]` |
| Metrics.SuccessDurations | gitlab-prometheus-exporter.py:113-118 | the durations of a project's records in order, skipping every record that raises `IncompletePipeline`; stated by `SuccessDurationsAreSuccessRecords` and `SuccessDurationsEmpty` |
| Metrics.SuccessDurationsAreSuccessRecords | gitlab-prometheus-exporter.py:113-118 | a project's observations are the elapsed times of exactly the records `only(data, "success")` keeps, in order |
| Metrics.SuccessDurationsEmpty | gitlab-prometheus-exporter.py:113-121 | a project has no observation if and only if none of its records succeeded |
| Metrics.SuccessDurationsOfFiltered | gitlab-prometheus-exporter.py:113-118 | removing the records that did not succeed changes no observation |
| Metrics.CountBelowMonotone | gitlab-prometheus-exporter.py:126-127 | a larger bound never counts fewer observations |
| Metrics.CountBelowInf | gitlab-prometheus-exporter.py:102-105 | the `+Inf` count is the number of observations |
| Metrics.HistogramBucketsSpec | gitlab-prometheus-exporter.py:129-133 | a histogram has the eleven buckets named in ladder order; each finite bucket counts the observations strictly below its bound; counts never decrease along the ladder; the `+Inf` bucket counts every observation |
| Metrics.HistogramRowInfCount | gitlab-prometheus-exporter.py:121-133 | a project's `+Inf` count is the number of its successful records |
| Metrics.DurationRowsFrom | gitlab-prometheus-exporter.py:112-133 | every emitted row is the histogram of some project that has a successful record |
| Metrics.DurationRowsCover | gitlab-prometheus-exporter.py:112-133 | every project with a successful record has its histogram row emitted |
| Metrics.DurationRowsOrder | gitlab-prometheus-exporter.py:129-133 | the rows' labels are a subsequence of the projects' labels, so rows follow the dictionary's order |
| Metrics.RowMeansSuccess | gitlab-prometheus-exporter.py:117-121 | a project whose labels appear on an emitted row has a successful record |
| Metrics.DurationRowsIffSuccess | gitlab-prometheus-exporter.py:112-133 | a project gets a histogram row if and only if it has at least one successful record |
| Metrics.DurationRowsIgnoreOthers | gitlab-prometheus-exporter.py:112-118 | the histogram of `only(data, "success")` equals the histogram of `data`, so non-success records never contribute |
| Metrics.DurationRowsExample | gitlab-prometheus-exporter.py:108-133 | for `"org/app"` with one success of 200 seconds and one failure: one row, 0 in bucket 180 and 1 in every bucket from 300 up |

## Left out

- `get_gitlab_pipelines` and `retrieve_gitlab_pipelines` (lines 51-66, 81-85) are left out. They are HTTP pagination and environment-driven project lists. The fetched dictionary is an input instead.
- `scrape` (lines 143-187) and the `prometheus_client` metric families are left out. They are thin wrappers over a library that is not part of this model. The rows the generators yield are modelled instead.
- `metrics.update` (line 180) is left out. The single atomic replace is a concurrency concern of the expositor.
- `Expositor.collect`, `start_http_server`, the registry loop and the sleep loop (lines 190-207) are left out. They are exposition plumbing.
- Timestamp parsing with `arrow.get` and the floating-point `total_seconds()` (lines 97-98) are left out. Timestamps and durations are whole seconds, as integers.
- Environment configuration and logging are left out.
- The error family and any sticky failure memory (lines 152-158, 183) are commented out in the source, so they are not modelled.
- Histogram sums are left out, because the source passes `sum_value=None` (line 176).
- Metrics.PipelinesTotal, Metrics.PipelineDurationSeconds: both require distinct project keys (`IsDict`). A Python dictionary cannot hold the same key twice.
- Metrics.ObserveProject, Metrics.InitBuckets, Metrics.IncrementBuckets: the source mutates `counts[project]` in place, through an alias. The model returns the updated inner map and stores it back under the project. The result is the same, but aliasing is not modelled.
