/** Pipeline records as fetched from GitLab, the per-record duration rule and
    the status filter `only`. */
module Pipelines {
  import opened Sequences

  /** The one branch whose pipelines are fetched and labelled. */
  const Branch: string := "master"

  /** The only status for which a duration is defined. */
  const Success: string := "success"

  /** One pipeline record, reduced to the fields the aggregation reads.
      Timestamps are whole seconds. */
  datatype Pipeline = Pipeline(status: string, createdAt: int, updatedAt: int)

  /** One item of the fetched dictionary: a project slug and its records. */
  datatype Entry = Entry(project: string, pipelines: seq<Pipeline>)

  /** The fetched dictionary, in its insertion order. */
  type Data = seq<Entry>

  /** The project slugs of a dictionary, in order. */
  function Projects(data: Data): seq<string>
  {
    seq(|data|, i requires 0 <= i < |data| => data[i].project)
  }

  /** A dictionary never holds the same key twice. */
  predicate IsDict(data: Data)
  {
    Distinct(Projects(data))
  }

  /** The outcome of `calculate_duration`: a duration in seconds, or the
      `IncompletePipeline` exception. */
  datatype Duration = Seconds(value: int) | IncompletePipeline

  /** Only a successful pipeline has a duration: the time from its creation
      to its last update. Any other status raises `IncompletePipeline`. */
  function CalculateDuration(p: Pipeline): (r: Duration)
    ensures r.IncompletePipeline? <==> p.status != Success
    ensures r.Seconds? ==> r.value == p.updatedAt - p.createdAt
  {
    if p.status != Success then IncompletePipeline
    else Seconds(p.updatedAt - p.createdAt)
  }

  /** The records of `ps` whose status is `status`, in their original order. */
  function FilterStatus(ps: seq<Pipeline>, status: string): (r: seq<Pipeline>)
    ensures |r| <= |ps|
    ensures forall p :: p in r ==> p in ps && p.status == status
  {
    if ps == [] then []
    else
      var rest := FilterStatus(ps[..|ps| - 1], status);
      if ps[|ps| - 1].status == status then rest + [ps[|ps| - 1]] else rest
  }

  /** `only(data, status)`: every project is kept, in order, with the records
      of the requested status. */
  function Only(data: Data, status: string): (r: Data)
    ensures |r| == |data| && Projects(r) == Projects(data)
    ensures forall i :: 0 <= i < |data| ==>
              r[i].project == data[i].project && r[i].pipelines == FilterStatus(data[i].pipelines, status)
  {
    if data == [] then []
    else
      var last := data[|data| - 1];
      var r := Only(data[..|data| - 1], status) + [Entry(last.project, FilterStatus(last.pipelines, status))];
      assert forall i :: 0 <= i < |data| ==> Projects(r)[i] == Projects(data)[i];
      r
  }

  /** The filter keeps the order of the records it retains. */
  lemma {:induction false} FilterStatusIsSubsequence(ps: seq<Pipeline>, status: string)
    ensures IsSubsequence(FilterStatus(ps, status), ps)
  {
    if ps != [] {
      var init := ps[..|ps| - 1];
      FilterStatusIsSubsequence(init, status);
      var rest := FilterStatus(init, status);
      if ps[|ps| - 1].status == status {
        var r := rest + [ps[|ps| - 1]];
        assert r[..|r| - 1] == rest;
      }
    }
  }

  /** Every record of the requested status is kept as often as it occurs,
      and nothing else is kept. */
  lemma {:induction false} FilterStatusMultiplicity(ps: seq<Pipeline>, status: string, x: Pipeline)
    ensures multiset(FilterStatus(ps, status))[x] == if x.status == status then multiset(ps)[x] else 0
  {
    if ps != [] {
      var init := ps[..|ps| - 1];
      FilterStatusMultiplicity(init, status, x);
      assert ps == init + [ps[|ps| - 1]];
    }
  }

  /** A sequence whose records all have the status is left as it is. */
  lemma {:induction false} FilterStatusKeepsAll(ps: seq<Pipeline>, status: string)
    requires forall p :: p in ps ==> p.status == status
    ensures FilterStatus(ps, status) == ps
  {
    if ps != [] {
      var init, last := ps[..|ps| - 1], ps[|ps| - 1];
      forall p | p in init
        ensures p.status == status
      {
        var k :| 0 <= k < |init| && init[k] == p;
        assert ps[k] == p;
      }
      FilterStatusKeepsAll(init, status);
      assert last in ps;
      assert ps == init + [last];
    }
  }

  /** Filtering twice by the same status is filtering once. */
  lemma OnlyIdempotent(data: Data, status: string)
    ensures Only(Only(data, status), status) == Only(data, status)
  {
    var once := Only(data, status);
    var twice := Only(once, status);
    assert Projects(twice) == Projects(data);
    forall i | 0 <= i < |data|
      ensures twice[i] == once[i]
    {
      FilterStatusKeepsAll(once[i].pipelines, status);
      assert twice[i].project == Projects(twice)[i] == Projects(once)[i] == once[i].project;
    }
  }

  /** Filtering keeps a valid dictionary valid and never lengthens a list. */
  lemma OnlyShrinks(data: Data, status: string)
    ensures IsDict(data) ==> IsDict(Only(data, status))
    ensures forall i :: 0 <= i < |data| ==> |Only(data, status)[i].pipelines| <= |data[i].pipelines|
  {
  }
}
