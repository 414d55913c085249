/**
 * `dedupe`: keep the first entry for each (domain, lower-cased title)
 * key, in the order the entries come.
 */
module Duplicates {
  import opened Text
  import opened Extract

  /** Two entries are duplicates when their keys are equal, whatever their URLs. */
  type Key = (string, string)

  function KeyOf(job: Job): Key
  {
    (job.domain, Lower(job.title))
  }

  function KeysOf(jobs: seq<Job>): set<Key>
  {
    set job | job in jobs :: KeyOf(job)
  }

  predicate DistinctKeys(jobs: seq<Job>)
  {
    forall i, j :: 0 <= i < j < |jobs| ==> KeyOf(jobs[i]) != KeyOf(jobs[j])
  }

  lemma KeysOfSnoc(jobs: seq<Job>, job: Job)
    ensures KeysOf(jobs + [job]) == KeysOf(jobs) + {KeyOf(job)}
  {
    assert forall x :: x in jobs + [job] <==> x in jobs || x == job;
  }

  /**
   * The specification of the loop: the entries kept from a prefix,
   * extended by the next entry unless its key was already seen.
   */
  function Deduped(jobs: seq<Job>): (r: seq<Job>)
    ensures KeysOf(r) == KeysOf(jobs)
    ensures DistinctKeys(r)
    ensures |r| <= |jobs|
    decreases |jobs|
  {
    if jobs == [] then []
    else
      var n := |jobs| - 1;
      var kept := Deduped(jobs[..n]);
      assert jobs == jobs[..n] + [jobs[n]];
      KeysOfSnoc(jobs[..n], jobs[n]);
      KeysOfSnoc(kept, jobs[n]);
      if KeyOf(jobs[n]) in KeysOf(kept) then kept
      else
        assert forall i :: 0 <= i < |kept| ==> KeyOf(kept[i]) in KeysOf(kept);
        kept + [jobs[n]]
  }

  /** `dedupe`: a `seen` set of keys and an output list grown in place. */
  method Dedupe(results: seq<Job>) returns (unique: seq<Job>)
    ensures unique == Deduped(results)
    ensures DistinctKeys(unique) && KeysOf(unique) == KeysOf(results)
  {
    var seen: set<Key> := {};
    unique := [];
    for i := 0 to |results|
      invariant unique == Deduped(results[..i])
      invariant seen == KeysOf(unique)
    {
      assert results[..i + 1][..i] == results[..i];
      var key := KeyOf(results[i]);
      if key in seen {
        continue;
      }
      seen := seen + {key};
      KeysOfSnoc(unique, results[i]);
      unique := unique + [results[i]];
    }
    assert results[..|results|] == results;
  }

  /** No earlier entry has the same key as entry `i`. */
  predicate IsFirst(jobs: seq<Job>, i: nat)
    requires i < |jobs|
  {
    forall j :: 0 <= j < i ==> KeyOf(jobs[j]) != KeyOf(jobs[i])
  }

  /** Reference definition: the first `n` entries, filtered down to first occurrences. */
  function FirstOccurrences(jobs: seq<Job>, n: nat): seq<Job>
    requires n <= |jobs|
  {
    if n == 0 then []
    else FirstOccurrences(jobs, n - 1) + (if IsFirst(jobs, n - 1) then [jobs[n - 1]] else [])
  }

  lemma KeyInPrefix(jobs: seq<Job>, n: nat)
    requires n < |jobs|
    ensures KeyOf(jobs[n]) in KeysOf(jobs[..n]) <==> !IsFirst(jobs, n)
  {
    if !IsFirst(jobs, n) {
      var j :| 0 <= j < n && KeyOf(jobs[j]) == KeyOf(jobs[n]);
      assert jobs[..n][j] == jobs[j];
    }
    if KeyOf(jobs[n]) in KeysOf(jobs[..n]) {
      var x :| x in jobs[..n] && KeyOf(x) == KeyOf(jobs[n]);
      var j :| 0 <= j < n && jobs[..n][j] == x;
      assert KeyOf(jobs[j]) == KeyOf(jobs[n]);
    }
  }

  /**
   * What `dedupe` returns is exactly the subsequence of first
   * occurrences, in the input's order.
   */
  lemma {:induction false} DedupedIsFirstOccurrences(jobs: seq<Job>, n: nat)
    requires n <= |jobs|
    ensures Deduped(jobs[..n]) == FirstOccurrences(jobs, n)
  {
    if n > 0 {
      DedupedIsFirstOccurrences(jobs, n - 1);
      assert jobs[..n][..n - 1] == jobs[..n - 1];
      assert jobs[..n][n - 1] == jobs[n - 1];
      KeyInPrefix(jobs, n - 1);
    }
  }

  /** A list without duplicate keys passes through unchanged. */
  lemma {:induction false} DedupedOfDistinct(jobs: seq<Job>)
    requires DistinctKeys(jobs)
    ensures Deduped(jobs) == jobs
    decreases |jobs|
  {
    if jobs != [] {
      var n := |jobs| - 1;
      assert DistinctKeys(jobs[..n]);
      DedupedOfDistinct(jobs[..n]);
      KeyInPrefix(jobs, n);
      assert IsFirst(jobs, n);
      assert jobs == jobs[..n] + [jobs[n]];
    }
  }

  /** Deduplicating twice is the same as deduplicating once. */
  lemma DedupeIdempotent(jobs: seq<Job>)
    ensures Deduped(Deduped(jobs)) == Deduped(jobs)
  {
    DedupedOfDistinct(Deduped(jobs));
  }

  /** Entries whose titles differ only in letter case, on one domain, share a key. */
  lemma CaseInsensitiveTitles(a: Job, b: Job)
    requires a.domain == b.domain && Lower(a.title) == Lower(b.title)
    ensures Deduped([a, b]) == [a]
  {
    assert [a, b][..1] == [a];
    assert [a][..0] == [];
    KeysOfSnoc([], a);
  }
}
