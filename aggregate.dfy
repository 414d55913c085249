/**
 * `fetch_jobs`: run the search for each region, collect the entries
 * (an error entry in place of a region whose search failed), dedupe,
 * and cap the list.
 */
module Aggregate {
  import opened Wrappers
  import opened Text
  import opened Urls
  import opened Extract
  import opened Duplicates

  /**
   * What the search for one region gave: the anchors of the result
   * page, or the message of the exception raised while fetching or
   * parsing it.
   */
  datatype SearchOutcome = Fetched(anchors: seq<Anchor>) | Failed(message: string)

  /** One configured region and the outcome of its search. */
  datatype RegionRun = RegionRun(region: string, outcome: SearchOutcome)

  const ErrorTitlePrefix: string := "[Error fetching results for "

  /** The placeholder entry that reports a failed region in the digest. */
  function ErrorEntry(region: string, message: string): (job: Job)
    ensures job.url == [] && job.domain == []
    ensures Contains(job.title, region)
  {
    var title := ErrorTitlePrefix + region + ": " + message + "]";
    assert OccursAt(title, region, |ErrorTitlePrefix|) by {
      assert title[|ErrorTitlePrefix|..|ErrorTitlePrefix| + |region|] == region;
    }
    ContainsFromOccurrence(title, region, |ErrorTitlePrefix|);
    Job(title, [], [])
  }

  /** The entries one region adds to `collected`. */
  function Contribution(lib: UrlLib, sites: seq<string>, run: RegionRun): seq<Job>
  {
    match run.outcome
    case Fetched(anchors) => Parsed(lib, sites, anchors)
    case Failed(message) => [ErrorEntry(run.region, message)]
  }

  /** The regions' contributions, one after the other in region order. */
  function Collected(lib: UrlLib, sites: seq<string>, runs: seq<RegionRun>): seq<Job>
    decreases |runs|
  {
    if runs == [] then []
    else
      var n := |runs| - 1;
      Collected(lib, sites, runs[..n]) + Contribution(lib, sites, runs[n])
  }

  /** Python's `xs[:limit]` for a limit that is not negative. */
  function Take(jobs: seq<Job>, limit: nat): (r: seq<Job>)
    ensures |r| <= limit && |r| <= |jobs| && r == jobs[..|r|]
    ensures |r| == limit || r == jobs
  {
    if limit < |jobs| then jobs[..limit] else jobs
  }

  /** `fetch_jobs` with the network calls replaced by their outcomes. */
  method FetchJobs(lib: UrlLib, sites: seq<string>, limit: nat, runs: seq<RegionRun>) returns (jobs: seq<Job>)
    ensures jobs == Take(Deduped(Collected(lib, sites, runs)), limit)
    ensures |jobs| <= limit && DistinctKeys(jobs)
  {
    var collected: seq<Job> := [];
    for i := 0 to |runs|
      invariant collected == Collected(lib, sites, runs[..i])
    {
      assert runs[..i + 1][..i] == runs[..i];
      var run := runs[i];
      match run.outcome {
        case Fetched(anchors) =>
          var items := ParseResults(lib, sites, anchors);
          collected := collected + items;
        case Failed(message) =>
          collected := collected + [ErrorEntry(run.region, message)];
      }
    }
    assert runs[..|runs|] == runs;
    var unique := Dedupe(collected);
    jobs := if limit < |unique| then unique[..limit] else unique;
    assert forall i, j :: 0 <= i < j < |jobs| ==> jobs[i] == unique[i] && jobs[j] == unique[j];
  }

  /** Regions are processed in list order: the collection splits along the region list. */
  lemma {:induction false} CollectedAppend(lib: UrlLib, sites: seq<string>, xs: seq<RegionRun>, ys: seq<RegionRun>)
    ensures Collected(lib, sites, xs + ys) == Collected(lib, sites, xs) + Collected(lib, sites, ys)
    decreases |ys|
  {
    if ys == [] {
      assert xs + ys == xs;
    } else {
      var n := |ys| - 1;
      assert (xs + ys)[..|xs + ys| - 1] == xs + ys[..n];
      assert (xs + ys)[|xs + ys| - 1] == ys[n];
      CollectedAppend(lib, sites, xs, ys[..n]);
    }
  }

  /**
   * A failed region contributes its error entry and nothing else, at
   * its place between the regions before and after it.
   */
  lemma FailedRegionContributesOne(lib: UrlLib, sites: seq<string>, before: seq<RegionRun>, region: string, message: string, after: seq<RegionRun>)
    ensures Collected(lib, sites, before + [RegionRun(region, Failed(message))] + after)
         == Collected(lib, sites, before) + [ErrorEntry(region, message)] + Collected(lib, sites, after)
  {
    var run := RegionRun(region, Failed(message));
    CollectedAppend(lib, sites, before + [run], after);
    CollectedAppend(lib, sites, before, [run]);
    assert [run][..0] == [];
  }

  /** A successful region contributes its parsed entries, in document order. */
  lemma FetchedRegionContributesParsed(lib: UrlLib, sites: seq<string>, before: seq<RegionRun>, region: string, anchors: seq<Anchor>, after: seq<RegionRun>)
    ensures Collected(lib, sites, before + [RegionRun(region, Fetched(anchors))] + after)
         == Collected(lib, sites, before) + Parsed(lib, sites, anchors) + Collected(lib, sites, after)
  {
    var run := RegionRun(region, Fetched(anchors));
    CollectedAppend(lib, sites, before + [run], after);
    CollectedAppend(lib, sites, before, [run]);
    assert [run][..0] == [];
  }

  /** The number of entries with an empty domain. */
  function DomainlessCount(jobs: seq<Job>): nat
    decreases |jobs|
  {
    if jobs == [] then 0
    else DomainlessCount(jobs[..|jobs| - 1]) + (if jobs[|jobs| - 1].domain == [] then 1 else 0)
  }

  function FailedCount(runs: seq<RegionRun>): nat
    decreases |runs|
  {
    if runs == [] then 0
    else FailedCount(runs[..|runs| - 1]) + (if runs[|runs| - 1].outcome.Failed? then 1 else 0)
  }

  lemma {:induction false} DomainlessCountAppend(xs: seq<Job>, ys: seq<Job>)
    ensures DomainlessCount(xs + ys) == DomainlessCount(xs) + DomainlessCount(ys)
    decreases |ys|
  {
    if ys == [] {
      assert xs + ys == xs;
    } else {
      var n := |ys| - 1;
      assert (xs + ys)[..|xs + ys| - 1] == xs + ys[..n];
      assert (xs + ys)[|xs + ys| - 1] == ys[n];
      DomainlessCountAppend(xs, ys[..n]);
    }
  }

  lemma {:induction false} AdmissibleHaveDomains(jobs: seq<Job>, sites: seq<string>)
    requires forall job :: job in jobs ==> Admissible(job, sites)
    ensures DomainlessCount(jobs) == 0
    decreases |jobs|
  {
    if jobs != [] {
      assert jobs[|jobs| - 1] in jobs;
      AdmissibleHaveDomains(jobs[..|jobs| - 1], sites);
    }
  }

  /**
   * Before deduplication, the entries without a domain are exactly the
   * error entries: one per failed region, since parsed entries always
   * have a domain.
   */
  lemma {:induction false} EveryFailureSurfaces(lib: UrlLib, sites: seq<string>, runs: seq<RegionRun>)
    ensures DomainlessCount(Collected(lib, sites, runs)) == FailedCount(runs)
    decreases |runs|
  {
    if runs != [] {
      var n := |runs| - 1;
      EveryFailureSurfaces(lib, sites, runs[..n]);
      DomainlessCountAppend(Collected(lib, sites, runs[..n]), Contribution(lib, sites, runs[n]));
      match runs[n].outcome {
        case Fetched(anchors) =>
          ParsedAdmissible(lib, sites, anchors);
          AdmissibleHaveDomains(Parsed(lib, sites, anchors), sites);
        case Failed(message) =>
          var e := ErrorEntry(runs[n].region, message);
          assert [e][..0] == [];
      }
    }
  }

  /**
   * A single region whose page holds two matching, non-duplicate
   * postings, with a cap of one, yields only the first of them.
   */
  lemma CapKeepsFirstSurvivor(lib: UrlLib, sites: seq<string>, a1: Anchor, a2: Anchor, j1: Job, j2: Job)
    requires Decide(lib, sites, a1) == Some(j1) && Decide(lib, sites, a2) == Some(j2)
    requires KeyOf(j1) != KeyOf(j2)
    ensures Take(Deduped(Collected(lib, sites, [RegionRun("Remote", Fetched([a1, a2]))])), 1) == [j1]
  {
    var run := RegionRun("Remote", Fetched([a1, a2]));
    assert [run][..0] == [];
    assert [a1, a2][..1] == [a1];
    assert [a1][..0] == [];
    assert Parsed(lib, sites, [a1]) == [j1];
    assert Parsed(lib, sites, [a1, a2]) == [j1, j2];
    assert [j1, j2][..1] == [j1];
    assert [j1][..0] == [];
    KeysOfSnoc([], j1);
  }
}
