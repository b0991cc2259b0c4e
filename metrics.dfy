/** The metric families the exporter computes from the fetched pipelines:
    the per-project pipeline count and the pipeline duration histogram. */
module Metrics {
  import opened Sequences
  import opened Pipelines
  import opened Buckets

  /** A counter or gauge sample: its value and its `[project, branch]` labels. */
  datatype CounterSample = CounterSample(value: nat, labels: seq<string>)

  /** A histogram sample: a `(name, cumulative count)` pair per bucket, and
      its `[project, branch]` labels. No sum is exposed. */
  datatype HistogramSample = HistogramSample(buckets: seq<(string, nat)>, labels: seq<string>)

  /** `d.get(key, default)` on a dictionary. */
  function GetOr<K, V>(d: map<K, V>, key: K, default: V): (v: V)
    ensures key in d ==> v == d[key]
    ensures key !in d ==> v == default
  {
    if key in d then d[key] else default
  }

  /** The `[project, BRANCH]` labels of every sample. */
  function Labels(project: string): seq<string>
  {
    [project, Branch]
  }

  /** `gitlab_pipelines_total`: one sample per project of the dictionary, in
      its order, counting every record of that project (zero for none). */
  method PipelinesTotal(data: Data) returns (samples: seq<CounterSample>)
    requires IsDict(data)
    ensures |samples| == |data|
    ensures forall i :: 0 <= i < |data| ==>
              samples[i] == CounterSample(|data[i].pipelines|, Labels(data[i].project))
  {
    // `counts` is the dictionary's contents, `order` its insertion order.
    var counts: map<string, nat> := map[];
    var order: seq<string> := [];
    for i := 0 to |data|
      invariant order == Projects(data[..i])
      invariant forall p :: p in counts <==> p in order
      invariant forall k :: 0 <= k < i ==>
                  data[k].project in counts && counts[data[k].project] == |data[k].pipelines|
    {
      var project := data[i].project;
      var pipelines := data[i].pipelines;
      forall k | 0 <= k < i
        ensures data[k].project != project && order[k] == data[k].project
      {
        assert Projects(data)[k] == data[k].project && Projects(data)[i] == project;
      }
      var isNew := project !in counts;
      counts := counts[project := GetOr(counts, project, 0)];
      if isNew {
        order := order + [project];
      }
      ghost var before := counts;
      for j := 0 to |pipelines|
        invariant counts == before[project := j]
      {
        counts := counts[project := counts[project] + 1];
      }
      assert data[..i + 1] == data[..i] + [data[i]];
    }
    assert data[..|data|] == data;
    samples := [];
    for n := 0 to |order|
      invariant |samples| == n
      invariant forall k :: 0 <= k < n ==>
                  samples[k] == CounterSample(|data[k].pipelines|, Labels(data[k].project))
    {
      samples := samples + [CounterSample(counts[order[n]], Labels(order[n]))];
    }
  }

  /** The durations `calculate_duration` defines for `ps`, in order: one per
      successful record. */
  function SuccessDurations(ps: seq<Pipeline>): seq<int>
  {
    if ps == [] then []
    else
      SuccessDurations(ps[..|ps| - 1]) +
      match CalculateDuration(ps[|ps| - 1])
      case Seconds(d) => [d]
      case IncompletePipeline => []
  }

  /** The number of observations strictly below bound `b`. */
  function CountBelow(ds: seq<int>, b: Bound): nat
  {
    if ds == [] then 0
    else CountBelow(ds[..|ds| - 1], b) + (if Below(ds[|ds| - 1], b) then 1 else 0)
  }

  /** The bucket counts a project's observations `ds` should produce. */
  function Tally(ds: seq<int>): map<Bound, nat>
  {
    map b | b in Ladder :: CountBelow(ds, b)
  }

  /** Every ladder bound has a count. */
  predicate HasLadder(m: map<Bound, nat>)
  {
    forall b :: b in Ladder ==> b in m
  }

  /** The samples of one project's counts, bucket by bucket in ladder order,
      named `str(bucket)`. */
  function EmitHistogram(project: string, m: map<Bound, nat>): HistogramSample
    requires HasLadder(m)
  {
    HistogramSample(
      seq(|Ladder|, t requires 0 <= t < |Ladder| => (BucketName(Ladder[t]), m[Ladder[t]])),
      Labels(project))
  }

  /** The cumulative histogram of observations `ds` over the ladder. */
  function HistogramBuckets(ds: seq<int>): seq<(string, nat)>
  {
    seq(|Ladder|, t requires 0 <= t < |Ladder| => (BucketName(Ladder[t]), CountBelow(ds, Ladder[t])))
  }

  /** The histogram sample of one project. */
  function HistogramRow(e: Entry): HistogramSample
  {
    HistogramSample(HistogramBuckets(SuccessDurations(e.pipelines)), Labels(e.project))
  }

  /** The histogram samples of a dictionary: one per project that has an
      observation, in the dictionary's order. */
  function DurationRows(data: Data): seq<HistogramSample>
  {
    if data == [] then []
    else
      var last := data[|data| - 1];
      DurationRows(data[..|data| - 1]) +
      (if SuccessDurations(last.pipelines) == [] then [] else [HistogramRow(last)])
  }

  /** The bucket initialisation in `gitlab_pipeline_duration_seconds`: give
      every ladder bound a count, keeping the counts already there and
      starting new ones at zero. */
  method InitBuckets(m: map<Bound, nat>) returns (r: map<Bound, nat>)
    ensures r.Keys == m.Keys + set b | b in Ladder
    ensures forall b :: b in m ==> r[b] == m[b]
    ensures forall b :: b in Ladder && b !in m ==> r[b] == 0
  {
    r := m;
    for t := 0 to |Ladder|
      invariant forall b :: b in r <==> b in m || b in Ladder[..t]
      invariant forall b :: b in m ==> r[b] == m[b]
      invariant forall b :: b in r && b !in m ==> r[b] == 0
    {
      var bucket := Ladder[t];
      assert Ladder[..t + 1] == Ladder[..t] + [bucket];
      r := r[bucket := if bucket in r then r[bucket] else 0];
    }
    assert Ladder[..|Ladder|] == Ladder;
  }

  /** The bucket increment in `gitlab_pipeline_duration_seconds`: add one to
      the count of every bucket the duration falls into, and leave the others
      alone. */
  method IncrementBuckets(m: map<Bound, nat>, duration: int) returns (r: map<Bound, nat>)
    requires HasLadder(m)
    ensures r.Keys == m.Keys
    ensures forall b :: b in m ==> r[b] == if b in Ladder && Below(duration, b) then m[b] + 1 else m[b]
  {
    var applicable := FindApplicableBuckets(duration);
    FindApplicableBucketsDistinct(duration);
    r := m;
    for k := 0 to |applicable|
      invariant r.Keys == m.Keys
      invariant forall b :: b in m ==> r[b] == if b in applicable[..k] then m[b] + 1 else m[b]
    {
      var bucket := applicable[k];
      assert applicable[..k + 1] == applicable[..k] + [bucket];
      assert bucket !in applicable[..k];
      r := r[bucket := r[bucket] + 1];
    }
    assert applicable[..|applicable|] == applicable;
  }

  /** One more observation adds one to each count whose bound it is below. */
  lemma CountBelowSnoc(ds: seq<int>, d: int, b: Bound)
    ensures CountBelow(ds + [d], b) == CountBelow(ds, b) + (if Below(d, b) then 1 else 0)
  {
    assert (ds + [d])[..|ds|] == ds;
  }

  /** Recording a new observation `d` turns the counts of `ds` into the
      counts of `ds + [d]`. */
  lemma TallyObserve(init: map<Bound, nat>, counted: map<Bound, nat>, ds: seq<int>, d: int)
    requires init.Keys == (set b | b in Ladder) && counted.Keys == init.Keys
    requires forall b :: b in init ==> init[b] == CountBelow(ds, b)
    requires forall b :: b in init ==> counted[b] == if Below(d, b) then init[b] + 1 else init[b]
    ensures counted == Tally(ds + [d])
  {
    forall b | b in Ladder
      ensures counted[b] == CountBelow(ds + [d], b)
    {
      CountBelowSnoc(ds, d, b);
    }
  }

  /** The pass of `gitlab_pipeline_duration_seconds` over the records of one
      project whose key is not yet in `counts`: fold the durations of its
      successful records into its bucket counts. The project enters `counts`
      with its first successful record. */
  method ObserveProject(counts0: map<string, map<Bound, nat>>, order0: seq<string>,
                        project: string, pipelines: seq<Pipeline>)
    returns (counts: map<string, map<Bound, nat>>, order: seq<string>)
    requires project !in counts0
    ensures SuccessDurations(pipelines) == [] ==> counts == counts0 && order == order0
    ensures SuccessDurations(pipelines) != [] ==>
              counts == counts0[project := Tally(SuccessDurations(pipelines))] &&
              order == order0 + [project]
  {
    counts, order := counts0, order0;
    for j := 0 to |pipelines|
      invariant SuccessDurations(pipelines[..j]) == [] ==> counts == counts0 && order == order0
      invariant SuccessDurations(pipelines[..j]) != [] ==>
                  counts == counts0[project := Tally(SuccessDurations(pipelines[..j]))] &&
                  order == order0 + [project]
    {
      ghost var ds := SuccessDurations(pipelines[..j]);
      assert pipelines[..j + 1][..j] == pipelines[..j];
      match CalculateDuration(pipelines[j])
      case IncompletePipeline =>
        assert SuccessDurations(pipelines[..j + 1]) == ds;
      case Seconds(duration) =>
        assert SuccessDurations(pipelines[..j + 1]) == ds + [duration];
        var isNew := project !in counts;
        var buckets := GetOr(counts, project, map[]);
        buckets := InitBuckets(buckets);
        ghost var initialised := buckets;
        buckets := IncrementBuckets(buckets, duration);
        TallyObserve(initialised, buckets, ds, duration);
        counts := counts[project := buckets];
        if isNew {
          order := order + [project];
        }
    }
    assert pipelines[..|pipelines|] == pipelines;
  }

  /** `gitlab_pipeline_duration_seconds`: one histogram sample per project
      with an observation, in the dictionary's order. */
  method PipelineDurationSeconds(data: Data) returns (samples: seq<HistogramSample>)
    requires IsDict(data)
    ensures samples == DurationRows(data)
  {
    // `counts` is the dictionary's contents, `order` its insertion order.
    var counts: map<string, map<Bound, nat>> := map[];
    var order: seq<string> := [];
    for i := 0 to |data|
      invariant Emits(counts, order, DurationRows(data[..i]))
      invariant forall k :: i <= k < |data| ==> data[k].project !in counts
    {
      var project := data[i].project;
      ghost var counts0, order0 := counts, order;
      counts, order := ObserveProject(counts, order, project, data[i].pipelines);
      LaterProjectsDiffer(data, i);
      DurationRowsSnoc(data, i);
      if SuccessDurations(data[i].pipelines) != [] {
        EmitsSnoc(counts0, order0, DurationRows(data[..i]), project, SuccessDurations(data[i].pipelines));
      }
    }
    assert data[..|data|] == data;
    samples := [];
    ghost var rows := DurationRows(data);
    for n := 0 to |order|
      invariant |samples| == n
      invariant forall k :: 0 <= k < n ==> samples[k] == rows[k]
    {
      samples := samples + [EmitHistogram(order[n], counts[order[n]])];
    }
  }

  /** In a dictionary, no later entry has the key of entry `i`. */
  lemma LaterProjectsDiffer(data: Data, i: nat)
    requires IsDict(data) && i < |data|
    ensures forall k :: i < k < |data| ==> data[k].project != data[i].project
  {
    forall k | i < k < |data|
      ensures data[k].project != data[i].project
    {
      assert Projects(data)[k] == data[k].project && Projects(data)[i] == data[i].project;
    }
  }

  /** The rows of one more entry: those of the prefix, then that entry's row
      if it has an observation. */
  lemma DurationRowsSnoc(data: Data, i: nat)
    requires i < |data|
    ensures DurationRows(data[..i + 1]) ==
      DurationRows(data[..i]) + (if SuccessDurations(data[i].pipelines) == [] then [] else [HistogramRow(data[i])])
  {
    assert data[..i + 1][..i] == data[..i];
  }

  /** `order` lists the keys of `counts`, and emitting them in that order
      gives `rows`. */
  ghost predicate Emits(counts: map<string, map<Bound, nat>>, order: seq<string>, rows: seq<HistogramSample>)
  {
    (forall p :: p in counts <==> p in order) &&
    |order| == |rows| &&
    forall n :: 0 <= n < |order| ==>
      order[n] in counts && HasLadder(counts[order[n]]) && rows[n] == EmitHistogram(order[n], counts[order[n]])
  }

  /** A new project with observations `ds` adds its histogram row at the end. */
  lemma EmitsSnoc(counts: map<string, map<Bound, nat>>, order: seq<string>, rows: seq<HistogramSample>,
                  project: string, ds: seq<int>)
    requires Emits(counts, order, rows) && project !in counts
    ensures Emits(counts[project := Tally(ds)], order + [project],
                  rows + [HistogramSample(HistogramBuckets(ds), Labels(project))])
  {
    EmitTally(project, ds);
  }

  /** Emitting the counts of `ds` gives the cumulative histogram of `ds`. */
  lemma EmitTally(project: string, ds: seq<int>)
    ensures HasLadder(Tally(ds))
    ensures EmitHistogram(project, Tally(ds)) == HistogramSample(HistogramBuckets(ds), Labels(project))
  {
  }

  /** The elapsed times of records, in order. */
  function Elapsed(ps: seq<Pipeline>): (r: seq<int>)
    ensures |r| == |ps|
  {
    if ps == [] then []
    else Elapsed(ps[..|ps| - 1]) + [ps[|ps| - 1].updatedAt - ps[|ps| - 1].createdAt]
  }

  /** Some record of `ps` succeeded. */
  predicate HasSuccess(ps: seq<Pipeline>)
  {
    exists i :: 0 <= i < |ps| && ps[i].status == Success
  }

  /** The observations of a project are the elapsed times of exactly the
      records `only(data, "success")` keeps: failed, running and other records
      are skipped. */
  lemma {:induction false} SuccessDurationsAreSuccessRecords(ps: seq<Pipeline>)
    ensures SuccessDurations(ps) == Elapsed(FilterStatus(ps, Success))
  {
    if ps != [] {
      var init, last := ps[..|ps| - 1], ps[|ps| - 1];
      SuccessDurationsAreSuccessRecords(init);
      var f := FilterStatus(init, Success);
      SuccessDurationsLast(ps);
      if last.status == Success {
        ElapsedSnoc(f, last);
      }
    }
  }

  /** The last record adds its elapsed time exactly when it succeeded. */
  lemma SuccessDurationsLast(ps: seq<Pipeline>)
    requires ps != []
    ensures var init, last := ps[..|ps| - 1], ps[|ps| - 1];
      SuccessDurations(ps) == SuccessDurations(init) + (if last.status == Success then [last.updatedAt - last.createdAt] else []) &&
      FilterStatus(ps, Success) == FilterStatus(init, Success) + (if last.status == Success then [last] else [])
  {
  }

  /** One more record adds its elapsed time at the end. */
  lemma ElapsedSnoc(ps: seq<Pipeline>, p: Pipeline)
    ensures Elapsed(ps + [p]) == Elapsed(ps) + [p.updatedAt - p.createdAt]
  {
    assert (ps + [p])[..|ps|] == ps;
  }

  /** A project has no observation exactly when none of its records succeeded. */
  lemma {:induction false} SuccessDurationsEmpty(ps: seq<Pipeline>)
    ensures SuccessDurations(ps) == [] <==> !HasSuccess(ps)
  {
    if ps != [] {
      var init := ps[..|ps| - 1];
      SuccessDurationsEmpty(init);
      if HasSuccess(init) {
        var i :| 0 <= i < |init| && init[i].status == Success;
        assert ps[i] == init[i];
      }
      if HasSuccess(ps) {
        var i :| 0 <= i < |ps| && ps[i].status == Success;
        if i < |init| {
          assert init[i] == ps[i];
        }
      }
    }
  }

  /** Skipping the records that are not successful changes no observation. */
  lemma {:induction false} SuccessDurationsOfFiltered(ps: seq<Pipeline>)
    ensures SuccessDurations(FilterStatus(ps, Success)) == SuccessDurations(ps)
  {
    if ps != [] {
      var init, last := ps[..|ps| - 1], ps[|ps| - 1];
      SuccessDurationsOfFiltered(init);
      var f := FilterStatus(init, Success);
      if last.status == Success {
        assert (f + [last])[..|f|] == f;
      }
    }
  }

  /** A larger bound counts at least as many observations. */
  lemma {:induction false} CountBelowMonotone(ds: seq<int>, a: Bound, b: Bound)
    requires Precedes(a, b)
    ensures CountBelow(ds, a) <= CountBelow(ds, b)
  {
    if ds != [] {
      CountBelowMonotone(ds[..|ds| - 1], a, b);
      if Below(ds[|ds| - 1], a) {
        BelowUpward(ds[|ds| - 1], a, b);
      }
    }
  }

  /** Every observation is below `+Inf`. */
  lemma {:induction false} CountBelowInf(ds: seq<int>)
    ensures CountBelow(ds, Inf) == |ds|
  {
    if ds != [] {
      CountBelowInf(ds[..|ds| - 1]);
    }
  }

  /** A histogram lists the eleven buckets in ladder order under their
      decimal names; its counts are cumulative, never decrease along the
      ladder, and the `+Inf` count is the number of observations. */
  lemma HistogramBucketsSpec(ds: seq<int>)
    ensures |HistogramBuckets(ds)| == 11
    ensures seq(11, t requires 0 <= t < 11 => HistogramBuckets(ds)[t].0) ==
      ["180", "300", "600", "900", "1200", "1500", "1800", "2100", "2400", "2700", "+Inf"]
    ensures forall t :: 0 <= t < 10 ==>
              HistogramBuckets(ds)[t].1 == CountBelow(ds, Finite(DurationBuckets[t]))
    ensures forall s, t :: 0 <= s <= t < 11 ==> HistogramBuckets(ds)[s].1 <= HistogramBuckets(ds)[t].1
    ensures HistogramBuckets(ds)[10] == ("+Inf", |ds|)
  {
    LadderShape();
    LadderNames();
    CountBelowInf(ds);
    var h := HistogramBuckets(ds);
    forall s, t | 0 <= s <= t < 11
      ensures h[s].1 <= h[t].1
    {
      if s < t {
        CountBelowMonotone(ds, Ladder[s], Ladder[t]);
      }
    }
    assert seq(11, t requires 0 <= t < 11 => h[t].0) ==
      seq(|Ladder|, i requires 0 <= i < |Ladder| => BucketName(Ladder[i]));
  }

  /** The `+Inf` bucket of a project's sample counts its successful records. */
  lemma HistogramRowInfCount(e: Entry)
    ensures HistogramRow(e).buckets[10] == ("+Inf", |FilterStatus(e.pipelines, Success)|)
  {
    HistogramBucketsSpec(SuccessDurations(e.pipelines));
    SuccessDurationsAreSuccessRecords(e.pipelines);
  }

  /** The label pairs of histogram samples, in order. */
  function RowLabels(rows: seq<HistogramSample>): seq<seq<string>>
  {
    seq(|rows|, k requires 0 <= k < |rows| => rows[k].labels)
  }

  /** The label pairs of the projects of a dictionary, in order. */
  function EntryLabels(data: Data): seq<seq<string>>
  {
    seq(|data|, i requires 0 <= i < |data| => Labels(data[i].project))
  }

  /** Every histogram sample is the histogram of a project with a successful
      record. */
  lemma {:induction false} DurationRowsFrom(data: Data)
    ensures forall s :: s in DurationRows(data) ==>
              exists i :: 0 <= i < |data| && HasSuccess(data[i].pipelines) && s == HistogramRow(data[i])
  {
    if data != [] {
      var init, last := data[..|data| - 1], data[|data| - 1];
      DurationRowsFrom(init);
      SuccessDurationsEmpty(last.pipelines);
      forall s | s in DurationRows(data)
        ensures exists i :: 0 <= i < |data| && HasSuccess(data[i].pipelines) && s == HistogramRow(data[i])
      {
        if s in DurationRows(init) {
          var i :| 0 <= i < |init| && HasSuccess(init[i].pipelines) && s == HistogramRow(init[i]);
          assert data[i] == init[i];
        } else {
          assert s == HistogramRow(data[|data| - 1]);
        }
      }
    }
  }

  /** Every project with a successful record has its histogram sample. */
  lemma {:induction false} DurationRowsCover(data: Data)
    ensures forall i :: 0 <= i < |data| && HasSuccess(data[i].pipelines) ==>
              HistogramRow(data[i]) in DurationRows(data)
  {
    if data != [] {
      var init, last := data[..|data| - 1], data[|data| - 1];
      DurationRowsCover(init);
      SuccessDurationsEmpty(last.pipelines);
      forall i | 0 <= i < |data| && HasSuccess(data[i].pipelines)
        ensures HistogramRow(data[i]) in DurationRows(data)
      {
        if i < |init| {
          assert init[i] == data[i];
        }
      }
    }
  }

  /** Histogram samples come in the dictionary's order. */
  lemma {:induction false} DurationRowsOrder(data: Data)
    ensures IsSubsequence(RowLabels(DurationRows(data)), EntryLabels(data))
  {
    if data != [] {
      var init, last := data[..|data| - 1], data[|data| - 1];
      DurationRowsOrder(init);
      var rows, e := RowLabels(DurationRows(data)), EntryLabels(data);
      assert e[..|e| - 1] == EntryLabels(init);
      if SuccessDurations(last.pipelines) != [] {
        assert rows[..|rows| - 1] == RowLabels(DurationRows(init));
      } else {
        assert rows == RowLabels(DurationRows(init));
      }
    }
  }

  /** A project whose labels appear among the histogram samples has a
      successful record. */
  lemma {:induction false} RowMeansSuccess(data: Data, i: nat)
    requires IsDict(data) && i < |data|
    requires Labels(data[i].project) in RowLabels(DurationRows(data))
    ensures HasSuccess(data[i].pipelines)
  {
    var rows := DurationRows(data);
    DurationRowsFrom(data);
    var k :| 0 <= k < |rows| && RowLabels(rows)[k] == Labels(data[i].project);
    assert rows[k] in rows;
    var i' :| 0 <= i' < |data| && HasSuccess(data[i'].pipelines) && rows[k] == HistogramRow(data[i']);
    assert rows[k].labels == Labels(data[i'].project);
    assert Projects(data)[i] == Projects(data)[i'];
  }

  /** A project of a dictionary gets a histogram sample if and only if it has
      a successful record. */
  lemma {:induction false} DurationRowsIffSuccess(data: Data)
    requires IsDict(data)
    ensures forall i :: 0 <= i < |data| ==>
              (Labels(data[i].project) in RowLabels(DurationRows(data)) <==> HasSuccess(data[i].pipelines))
  {
    var rows := DurationRows(data);
    DurationRowsCover(data);
    forall i | 0 <= i < |data|
      ensures Labels(data[i].project) in RowLabels(rows) <==> HasSuccess(data[i].pipelines)
    {
      if HasSuccess(data[i].pipelines) {
        var k :| 0 <= k < |rows| && rows[k] == HistogramRow(data[i]);
        assert RowLabels(rows)[k] == Labels(data[i].project);
      }
      if Labels(data[i].project) in RowLabels(rows) {
        RowMeansSuccess(data, i);
      }
    }
  }

  /** The histogram of a dictionary is the histogram of its successful
      records alone. */
  lemma {:induction false} DurationRowsIgnoreOthers(data: Data)
    ensures DurationRows(Only(data, Success)) == DurationRows(data)
  {
    if data != [] {
      var init, last := data[..|data| - 1], data[|data| - 1];
      DurationRowsIgnoreOthers(init);
      var o := Only(data, Success);
      assert o[..|o| - 1] == Only(init, Success);
      SuccessDurationsOfFiltered(last.pipelines);
    }
  }

  /** One project with a successful record that took 200 seconds and a
      failed record: one histogram sample, with the observation in every
      bucket from 300 up. */
  lemma DurationRowsExample(t: int)
    ensures DurationRows([Entry("org/app", [Pipeline("success", t, t + 200), Pipeline("failed", t, t + 50)])]) ==
      [HistogramSample(
        [("180", 0), ("300", 1), ("600", 1), ("900", 1), ("1200", 1), ("1500", 1),
         ("1800", 1), ("2100", 1), ("2400", 1), ("2700", 1), ("+Inf", 1)],
        ["org/app", "master"])]
  {
    var ps := [Pipeline("success", t, t + 200), Pipeline("failed", t, t + 50)];
    var data := [Entry("org/app", ps)];
    assert ps[..1][..0] == [];
    assert SuccessDurations(ps[..1]) == [200];
    assert SuccessDurations(ps) == [200];
    assert data[..0] == [];
    assert DurationRows(data) == [HistogramRow(data[0])];
    var h := HistogramBuckets([200]);
    HistogramBucketsSpec([200]);
    LadderShape();
    assert [200][..0] == [];
    var expected: seq<(string, nat)> :=
      [("180", 0), ("300", 1), ("600", 1), ("900", 1), ("1200", 1), ("1500", 1),
       ("1800", 1), ("2100", 1), ("2400", 1), ("2700", 1), ("+Inf", 1)];
    forall k | 0 <= k < 11
      ensures h[k] == expected[k]
    {
      assert h[k].0 == seq(11, t requires 0 <= t < 11 => h[t].0)[k];
    }
    assert h == expected;
  }
}
