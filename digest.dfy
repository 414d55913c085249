/**
 * The structure of the digest built by `build_email_html`: the jobs
 * grouped by domain, the groups ordered by size and then by name, or
 * the fallback message when there are no jobs.
 */
module Digest {
  import opened Text
  import opened Extract

  /** One domain heading with its list of jobs. */
  datatype Section = Section(domain: string, items: seq<Job>)

  /** The part of the body that depends on the jobs. */
  datatype Body = Listing(sections: seq<Section>) | Fallback(message: string)

  const NoResultsMessage: string := "No results found today."

  /** The jobs on one domain, in their original order. */
  function OfDomain(jobs: seq<Job>, domain: string): seq<Job>
    decreases |jobs|
  {
    if jobs == [] then []
    else
      var n := |jobs| - 1;
      OfDomain(jobs[..n], domain) + (if jobs[n].domain == domain then [jobs[n]] else [])
  }

  lemma {:induction false} OfDomainMembership(jobs: seq<Job>, domain: string, job: Job)
    ensures job in OfDomain(jobs, domain) <==> job in jobs && job.domain == domain
    decreases |jobs|
  {
    if jobs != [] {
      var n := |jobs| - 1;
      OfDomainMembership(jobs[..n], domain, job);
      assert jobs == jobs[..n] + [jobs[n]];
    }
  }

  function JobDomains(jobs: seq<Job>): set<string>
  {
    set job | job in jobs :: job.domain
  }

  function Domains(sections: seq<Section>): set<string>
  {
    set s | s in sections :: s.domain
  }

  predicate DistinctDomains(sections: seq<Section>)
  {
    forall i, j :: 0 <= i < j < |sections| ==> sections[i].domain != sections[j].domain
  }

  /** `x` is listed before `y`: more jobs, or as many and a smaller domain name. */
  predicate Before(x: Section, y: Section)
  {
    |x.items| > |y.items| || (|x.items| == |y.items| && StrLess(x.domain, y.domain))
  }

  /** Non-strictly ordered: no section is listed before one that precedes it. */
  predicate Sorted(sections: seq<Section>)
  {
    forall i, j :: 0 <= i < j < |sections| ==> !Before(sections[j], sections[i])
  }

  lemma BeforeAsymmetric(x: Section, y: Section)
    requires Before(x, y)
    ensures !Before(y, x)
  {
    if |x.items| == |y.items| {
      StrLessAsymmetric(x.domain, y.domain);
    }
  }

  lemma BeforeTotal(x: Section, y: Section)
    requires x.domain != y.domain
    ensures Before(x, y) || Before(y, x)
  {
    StrLessTotal(x.domain, y.domain);
  }

  lemma NotBeforeTransitive(a: Section, b: Section, c: Section)
    requires !Before(b, a) && !Before(c, b)
    ensures !Before(c, a)
  {
    if |c.items| == |a.items| {
      assert |b.items| == |a.items|;
      if c.domain != b.domain {
        StrLessTotal(c.domain, b.domain);
        if b.domain == a.domain {
          StrLessAsymmetric(a.domain, c.domain);
        } else {
          StrLessTotal(b.domain, a.domain);
          StrLessTransitive(a.domain, b.domain, c.domain);
          StrLessAsymmetric(a.domain, c.domain);
        }
      }
    }
  }

  /** Insert `x` in front of the first section that does not come before it. */
  function Insert(x: Section, sections: seq<Section>): (r: seq<Section>)
    ensures multiset(r) == multiset(sections) + multiset{x}
    decreases |sections|
  {
    if sections == [] then [x]
    else if Before(sections[0], x) then
      assert sections == [sections[0]] + sections[1..];
      [sections[0]] + Insert(x, sections[1..])
    else [x] + sections
  }

  lemma DomainsOfPermutation(a: seq<Section>, b: seq<Section>)
    requires multiset(a) == multiset(b)
    ensures Domains(a) == Domains(b)
  {
    forall s
      ensures s in a <==> s in b
    {
      assert s in a <==> s in multiset(a);
      assert s in b <==> s in multiset(b);
    }
  }

  lemma {:induction false} InsertSorted(x: Section, sections: seq<Section>)
    requires Sorted(sections)
    ensures Sorted(Insert(x, sections))
    decreases |sections|
  {
    if sections != [] {
      var head := sections[0];
      if Before(head, x) {
        var rest := Insert(x, sections[1..]);
        InsertSorted(x, sections[1..]);
        forall y | y in rest
          ensures !Before(y, head)
        {
          assert y in multiset(rest);
          if y == x {
            BeforeAsymmetric(head, x);
          } else {
            assert y in multiset(sections[1..]);
            assert y in sections[1..];
          }
        }
        assert forall i :: 0 < i < |[head] + rest| ==> ([head] + rest)[i] in rest;
      } else {
        forall i | 0 < i < |sections|
          ensures !Before(sections[i], x)
        {
          NotBeforeTransitive(x, head, sections[i]);
        }
      }
    }
  }

  lemma ConsDistinct(head: Section, rest: seq<Section>)
    requires DistinctDomains(rest) && head.domain !in Domains(rest)
    ensures DistinctDomains([head] + rest)
  {
    forall i, j | 0 < j < |rest| + 1 && i == 0
      ensures ([head] + rest)[i].domain != ([head] + rest)[j].domain
    {
      assert rest[j - 1] in rest;
    }
  }

  lemma TailDistinct(sections: seq<Section>)
    requires DistinctDomains(sections) && sections != []
    ensures DistinctDomains(sections[1..])
    ensures sections[0].domain !in Domains(sections[1..])
  {
    var tail := sections[1..];
    forall s | s in tail
      ensures s.domain != sections[0].domain
    {
      var k :| 0 <= k < |tail| && tail[k] == s;
      assert sections[k + 1] == s;
    }
  }

  lemma DomainsSnoc(sections: seq<Section>, x: Section)
    ensures Domains(sections + [x]) == Domains(sections) + {x.domain}
  {
    assert forall s :: s in sections + [x] <==> s in sections || s == x;
  }

  lemma {:induction false} InsertDistinct(x: Section, sections: seq<Section>)
    requires DistinctDomains(sections) && x.domain !in Domains(sections)
    ensures DistinctDomains(Insert(x, sections))
    decreases |sections|
  {
    if sections != [] && Before(sections[0], x) {
      var head, tail := sections[0], sections[1..];
      TailDistinct(sections);
      assert Domains(tail) <= Domains(sections) by {
        assert forall s :: s in tail ==> s in sections;
      }
      InsertDistinct(x, tail);
      var rest := Insert(x, tail);
      DomainsOfPermutation(rest, tail + [x]);
      DomainsSnoc(tail, x);
      assert head in sections;
      ConsDistinct(head, rest);
    } else if sections != [] {
      ConsDistinct(x, sections);
    }
  }

  /** Python's `sorted` with the key (-len(items), domain). */
  function SortSections(sections: seq<Section>): (r: seq<Section>)
    ensures Sorted(r)
    ensures multiset(r) == multiset(sections)
    ensures DistinctDomains(sections) ==> DistinctDomains(r)
    decreases |sections|
  {
    if sections == [] then []
    else
      var head, tail := sections[0], sections[1..];
      var sortedTail := SortSections(tail);
      InsertSorted(head, sortedTail);
      assert sections == [head] + tail;
      if DistinctDomains(sections) then
        TailDistinct(sections);
        DomainsOfPermutation(sortedTail, tail);
        InsertDistinct(head, sortedTail);
        Insert(head, sortedTail)
      else
        Insert(head, sortedTail)
  }

  lemma OfDomainSnoc(jobs: seq<Job>, job: Job, domain: string)
    ensures OfDomain(jobs + [job], domain) == OfDomain(jobs, domain) + (if job.domain == domain then [job] else [])
  {
    assert (jobs + [job])[..|jobs|] == jobs;
  }

  lemma JobDomainsSnoc(jobs: seq<Job>, job: Job)
    ensures JobDomains(jobs + [job]) == JobDomains(jobs) + {job.domain}
  {
    assert forall x :: x in jobs + [job] <==> x in jobs || x == job;
  }

  lemma AppendKeepsDistinct(order: seq<string>, d: string)
    requires forall k, l :: 0 <= k < l < |order| ==> order[k] != order[l]
    requires d !in order
    ensures forall k, l :: 0 <= k < l < |order + [d]| ==> (order + [d])[k] != (order + [d])[l]
  {
  }

  /** One `setdefault(...).append` keeps every list equal to its domain's jobs so far. */
  lemma GroupStep(prefix: seq<Job>, job: Job, groups: map<string, seq<Job>>)
    requires forall d :: d in groups ==> groups[d] == OfDomain(prefix, d)
    requires forall d :: d !in groups ==> OfDomain(prefix, d) == []
    ensures var list := if job.domain in groups then groups[job.domain] else [];
      var groups' := groups[job.domain := list + [job]];
      && (forall d :: d in groups' ==> groups'[d] == OfDomain(prefix + [job], d))
      && (forall d :: d !in groups' ==> OfDomain(prefix + [job], d) == [])
  {
    forall d {
      OfDomainSnoc(prefix, job, d);
    }
  }

  /**
   * The groups dictionary filled with `setdefault(...).append`: `order`
   * holds its keys in insertion order, `groups` the lists.
   */
  method GroupByDomain(jobs: seq<Job>) returns (order: seq<string>, groups: map<string, seq<Job>>)
    ensures groups.Keys == JobDomains(jobs)
    ensures forall d :: d in groups <==> d in order
    ensures forall i, j :: 0 <= i < j < |order| ==> order[i] != order[j]
    ensures forall d :: d in groups ==> groups[d] == OfDomain(jobs, d)
  {
    order, groups := [], map[];
    for i := 0 to |jobs|
      invariant groups.Keys == JobDomains(jobs[..i])
      invariant forall d :: d in groups <==> d in order
      invariant forall k, l :: 0 <= k < l < |order| ==> order[k] != order[l]
      invariant forall d :: d in groups ==> groups[d] == OfDomain(jobs[..i], d)
      invariant forall d :: d !in groups ==> OfDomain(jobs[..i], d) == []
    {
      var job := jobs[i];
      assert jobs[..i + 1] == jobs[..i] + [job];
      JobDomainsSnoc(jobs[..i], job);
      var list := if job.domain in groups then groups[job.domain] else [];
      if job.domain !in groups {
        AppendKeepsDistinct(order, job.domain);
        order := order + [job.domain];
      }
      GroupStep(jobs[..i], job, groups);
      groups := groups[job.domain := list + [job]];
    }
    assert jobs[..|jobs|] == jobs;
  }

  /** What the listing promises about the jobs it was built from. */
  predicate IsDigestOf(sections: seq<Section>, jobs: seq<Job>)
  {
    && (forall i, j :: 0 <= i < j < |sections| ==> Before(sections[i], sections[j]))
    && DistinctDomains(sections)
    && Domains(sections) == JobDomains(jobs)
    && (forall s :: s in sections ==> s.items == OfDomain(jobs, s.domain))
  }

  /**
   * The grouping and ordering of `build_email_html`: one section per
   * domain, largest first, ties by ascending domain; the fallback
   * message when there is nothing to list.
   */
  method BuildEmailBody(jobs: seq<Job>) returns (body: Body)
    ensures body.Fallback? <==> jobs == []
    ensures body.Fallback? ==> body.message == NoResultsMessage
    ensures body.Listing? ==> IsDigestOf(body.sections, jobs) && body.sections != []
  {
    var order, groups := GroupByDomain(jobs);
    var entries: seq<Section> := [];
    for k := 0 to |order|
      invariant |entries| == k
      invariant forall i :: 0 <= i < k ==> entries[i] == Section(order[i], groups[order[i]])
    {
      entries := entries + [Section(order[k], groups[order[k]])];
    }
    EntriesDescribeGroups(jobs, order, groups, entries);
    var sections := SortSections(entries);
    SortedEntriesAreDigest(jobs, entries);
    if sections != [] {
      body := Listing(sections);
    } else {
      body := Fallback(NoResultsMessage);
    }
  }

  /** Sorting the entries gives the listing, which is empty only when there are no jobs. */
  lemma SortedEntriesAreDigest(jobs: seq<Job>, entries: seq<Section>)
    requires DistinctDomains(entries)
    requires Domains(entries) == JobDomains(jobs)
    requires forall s :: s in entries ==> s.items == OfDomain(jobs, s.domain)
    ensures IsDigestOf(SortSections(entries), jobs)
    ensures SortSections(entries) == [] <==> jobs == []
  {
    var sections := SortSections(entries);
    DomainsOfPermutation(sections, entries);
    forall s | s in sections
      ensures s.items == OfDomain(jobs, s.domain)
    {
      assert s in multiset(entries);
    }
    forall i, j | 0 <= i < j < |sections|
      ensures Before(sections[i], sections[j])
    {
      BeforeTotal(sections[i], sections[j]);
    }
    assert jobs != [] ==> jobs[0].domain in Domains(sections) by {
      if jobs != [] {
        assert jobs[0] in jobs;
      }
    }
    assert sections != [] ==> sections[0].domain in JobDomains(jobs) by {
      if sections != [] {
        assert sections[0] in sections;
      }
    }
  }

  /** The `groups.items()` list: each domain once, with all of its jobs. */
  lemma EntriesDescribeGroups(jobs: seq<Job>, order: seq<string>, groups: map<string, seq<Job>>, entries: seq<Section>)
    requires groups.Keys == JobDomains(jobs)
    requires forall d :: d in groups <==> d in order
    requires forall i, j :: 0 <= i < j < |order| ==> order[i] != order[j]
    requires forall d :: d in groups ==> groups[d] == OfDomain(jobs, d)
    requires |entries| == |order|
    requires forall i :: 0 <= i < |order| ==> entries[i] == Section(order[i], groups[order[i]])
    ensures DistinctDomains(entries)
    ensures Domains(entries) == JobDomains(jobs)
    ensures forall s :: s in entries ==> s.items == OfDomain(jobs, s.domain)
  {
    forall d | d in groups
      ensures d in Domains(entries)
    {
      var i :| 0 <= i < |order| && order[i] == d;
      assert entries[i] in entries;
    }
  }

  /** The number of jobs listed over all sections. */
  function TotalItems(sections: seq<Section>): nat
    decreases |sections|
  {
    if sections == [] then 0 else |sections[0].items| + TotalItems(sections[1..])
  }

  /** How many entries of `ds` are `d`. */
  function Hits(ds: seq<string>, d: string): nat
    decreases |ds|
  {
    if ds == [] then 0 else (if ds[0] == d then 1 else 0) + Hits(ds[1..], d)
  }

  /** The number of jobs on the domains of `ds`, counted once per entry of `ds`. */
  function DomainSizes(ds: seq<string>, jobs: seq<Job>): nat
    decreases |ds|
  {
    if ds == [] then 0 else |OfDomain(jobs, ds[0])| + DomainSizes(ds[1..], jobs)
  }

  lemma {:induction false} DomainSizesSnoc(ds: seq<string>, jobs: seq<Job>, job: Job)
    ensures DomainSizes(ds, jobs + [job]) == DomainSizes(ds, jobs) + Hits(ds, job.domain)
    decreases |ds|
  {
    if ds != [] {
      OfDomainSnoc(jobs, job, ds[0]);
      DomainSizesSnoc(ds[1..], jobs, job);
    }
  }

  lemma {:induction false} HitsOfDistinct(ds: seq<string>, d: string)
    requires forall i, j :: 0 <= i < j < |ds| ==> ds[i] != ds[j]
    ensures Hits(ds, d) == if d in ds then 1 else 0
    decreases |ds|
  {
    if ds != [] {
      HitsOfDistinct(ds[1..], d);
      assert ds == [ds[0]] + ds[1..];
      if ds[0] == d {
        forall k | 0 <= k < |ds[1..]|
          ensures ds[1..][k] != d
        {
          assert ds[1..][k] == ds[k + 1];
        }
      }
    }
  }

  /** Summing the group sizes over distinct domains that cover every job counts each job once. */
  lemma {:induction false} DomainSizesCountJobs(ds: seq<string>, jobs: seq<Job>)
    requires forall i, j :: 0 <= i < j < |ds| ==> ds[i] != ds[j]
    requires forall job :: job in jobs ==> job.domain in ds
    ensures DomainSizes(ds, jobs) == |jobs|
    decreases |jobs|
  {
    if jobs == [] {
      DomainSizesOfNoJobs(ds);
    } else {
      var n := |jobs| - 1;
      assert jobs == jobs[..n] + [jobs[n]];
      DomainSizesCountJobs(ds, jobs[..n]);
      DomainSizesSnoc(ds, jobs[..n], jobs[n]);
      HitsOfDistinct(ds, jobs[n].domain);
    }
  }

  lemma {:induction false} DomainSizesOfNoJobs(ds: seq<string>)
    ensures DomainSizes(ds, []) == 0
    decreases |ds|
  {
    if ds != [] {
      DomainSizesOfNoJobs(ds[1..]);
    }
  }

  function DomainList(sections: seq<Section>): (ds: seq<string>)
    ensures |ds| == |sections|
    ensures forall i :: 0 <= i < |sections| ==> ds[i] == sections[i].domain
  {
    seq(|sections|, i requires 0 <= i < |sections| => sections[i].domain)
  }

  lemma {:induction false} TotalItemsAsDomainSizes(sections: seq<Section>, jobs: seq<Job>)
    requires forall s :: s in sections ==> s.items == OfDomain(jobs, s.domain)
    ensures TotalItems(sections) == DomainSizes(DomainList(sections), jobs)
    decreases |sections|
  {
    if sections != [] {
      assert sections[0] in sections;
      assert forall s :: s in sections[1..] ==> s in sections;
      TotalItemsAsDomainSizes(sections[1..], jobs);
      assert DomainList(sections)[1..] == DomainList(sections[1..]);
    }
  }

  /**
   * The listing is a partition of the jobs: every job is listed exactly
   * once, in the section of its own domain.
   */
  lemma DigestListsEveryJobOnce(sections: seq<Section>, jobs: seq<Job>)
    requires IsDigestOf(sections, jobs)
    ensures TotalItems(sections) == |jobs|
    ensures forall job :: job in jobs ==> exists i :: 0 <= i < |sections| && sections[i].domain == job.domain && job in sections[i].items
  {
    var ds := DomainList(sections);
    forall job | job in jobs
      ensures job.domain in ds
      ensures exists i :: 0 <= i < |sections| && sections[i].domain == job.domain && job in sections[i].items
    {
      assert job.domain in JobDomains(jobs);
      var s :| s in sections && s.domain == job.domain;
      var i :| 0 <= i < |sections| && sections[i] == s;
      assert ds[i] == job.domain;
      OfDomainMembership(jobs, job.domain, job);
    }
    TotalItemsAsDomainSizes(sections, jobs);
    DomainSizesCountJobs(ds, jobs);
  }

  /** A larger group is always listed before a smaller one. */
  lemma LargerGroupFirst(sections: seq<Section>, jobs: seq<Job>, i: nat, j: nat)
    requires IsDigestOf(sections, jobs)
    requires i < |sections| && j < |sections|
    requires |sections[i].items| > |sections[j].items|
    ensures i < j
  {
  }

  /** Groups of equal size are listed by ascending domain name. */
  lemma TieBrokenByDomain(sections: seq<Section>, jobs: seq<Job>, i: nat, j: nat)
    requires IsDigestOf(sections, jobs)
    requires i < |sections| && j < |sections|
    requires |sections[i].items| == |sections[j].items| && StrLess(sections[i].domain, sections[j].domain)
    ensures i < j
  {
    StrLessIrreflexive(sections[i].domain);
    StrLessAsymmetric(sections[i].domain, sections[j].domain);
  }
}
