/**
 * The filter loop of `parse_results`: each anchor of the result page,
 * already reduced to its link and its whitespace-collapsed text, is
 * turned into a job entry or dropped.
 */
module Extract {
  import opened Wrappers
  import opened Text
  import opened Urls

  /** An `<a>` element: its `href` ("" when absent) and its visible text. */
  datatype Anchor = Anchor(href: string, text: string)

  /** One search result: `{"title", "url", "domain"}`. */
  datatype Job = Job(title: string, url: string, domain: string)

  /** Titles shorter than this are too generic to be job titles. */
  const MinTitleLength: nat := 12
  const CacheHost: string := "webcache.googleusercontent.com"
  const PolicyPath: string := "/policies"

  /** Some allowed-site string occurs in the domain (none when there are no allowed sites). */
  predicate AllowedDomain(domain: string, allowed: seq<string>)
  {
    exists site :: site in allowed && Contains(domain, site)
  }

  /** A cache mirror or a policy page. */
  predicate IsNoise(url: string)
  {
    Contains(url, CacheHost) || Contains(url, PolicyPath)
  }

  /** What every entry the filter lets through satisfies. */
  predicate Admissible(job: Job, allowed: seq<string>)
  {
    && StartsWith(job.url, "http")
    && job.domain != []
    && AllowedDomain(job.domain, allowed)
    && !IsNoise(job.url)
    && |job.title| >= MinTitleLength
  }

  /** The entry an anchor would become if it passed every filter. */
  function Candidate(lib: UrlLib, a: Anchor): (job: Job)
    ensures job.title == a.text
    ensures job.url == CleanGoogleUrl(lib, a.href) && job.domain == DomainOf(lib, job.url)
  {
    var url := CleanGoogleUrl(lib, a.href);
    Job(a.text, url, DomainOf(lib, url))
  }

  /** One turn of the loop: the checks in the order the source makes them. */
  function Decide(lib: UrlLib, allowed: seq<string>, a: Anchor): (r: Option<Job>)
    ensures r.Some? <==> Admissible(Candidate(lib, a), allowed)
    ensures r.Some? ==> r.value == Candidate(lib, a)
  {
    var url := CleanGoogleUrl(lib, a.href);
    if !StartsWith(url, "http") then None
    else
      var d := DomainOf(lib, url);
      if d == [] || !AllowedDomain(d, allowed) then None
      else if IsNoise(url) then None
      else if |a.text| < MinTitleLength then None
      else Some(Job(a.text, url, d))
  }

  function AsSeq(r: Option<Job>): seq<Job>
  {
    match r
    case None => []
    case Some(job) => [job]
  }

  /** The entries of the anchors that pass, in document order. */
  function Parsed(lib: UrlLib, allowed: seq<string>, anchors: seq<Anchor>): seq<Job>
    decreases |anchors|
  {
    if anchors == [] then []
    else
      var n := |anchors| - 1;
      Parsed(lib, allowed, anchors[..n]) + AsSeq(Decide(lib, allowed, anchors[n]))
  }

  /** `parse_results` after the HTML parse: append each surviving entry to `results`. */
  method ParseResults(lib: UrlLib, allowed: seq<string>, anchors: seq<Anchor>) returns (results: seq<Job>)
    ensures results == Parsed(lib, allowed, anchors)
    ensures forall job :: job in results ==> Admissible(job, allowed)
  {
    results := [];
    for i := 0 to |anchors|
      invariant results == Parsed(lib, allowed, anchors[..i])
      invariant forall job :: job in results ==> Admissible(job, allowed)
    {
      assert anchors[..i + 1][..i] == anchors[..i];
      match Decide(lib, allowed, anchors[i])
      case None =>
      case Some(job) =>
        results := results + [job];
    }
    assert anchors[..|anchors|] == anchors;
  }

  /**
   * Each anchor is judged on its own: the result for a concatenation
   * is the concatenation of the results, so a rejected anchor never
   * changes what the others produce, and document order is kept.
   */
  lemma {:induction false} ParsedAppend(lib: UrlLib, allowed: seq<string>, xs: seq<Anchor>, ys: seq<Anchor>)
    ensures Parsed(lib, allowed, xs + ys) == Parsed(lib, allowed, xs) + Parsed(lib, allowed, ys)
    decreases |ys|
  {
    if ys == [] {
      assert xs + ys == xs;
    } else {
      var n := |ys| - 1;
      assert (xs + ys)[..|xs + ys| - 1] == xs + ys[..n];
      assert (xs + ys)[|xs + ys| - 1] == ys[n];
      ParsedAppend(lib, allowed, xs, ys[..n]);
    }
  }

  /** The entries that `decide` yields for the anchors, in order. */
  function Yielded(decide: Anchor -> Option<Job>, anchors: seq<Anchor>): seq<Job>
    decreases |anchors|
  {
    if anchors == [] then []
    else
      var n := |anchors| - 1;
      Yielded(decide, anchors[..n]) + AsSeq(decide(anchors[n]))
  }

  lemma {:induction false} ParsedIsYielded(lib: UrlLib, allowed: seq<string>, anchors: seq<Anchor>)
    ensures Parsed(lib, allowed, anchors) == Yielded(a => Decide(lib, allowed, a), anchors)
    decreases |anchors|
  {
    if anchors != [] {
      ParsedIsYielded(lib, allowed, anchors[..|anchors| - 1]);
    }
  }

  lemma {:induction false} YieldedMembership(decide: Anchor -> Option<Job>, anchors: seq<Anchor>, job: Job)
    ensures job in Yielded(decide, anchors) <==> exists a :: a in anchors && decide(a) == Some(job)
    decreases |anchors|
  {
    if anchors != [] {
      var n := |anchors| - 1;
      var init, last := anchors[..n], anchors[n];
      YieldedMembership(decide, init, job);
      assert anchors == init + [last];
      assert job in AsSeq(decide(last)) <==> decide(last) == Some(job);
      assert forall a :: a in anchors <==> a in init || a == last;
    }
  }

  /** An entry is produced exactly when some anchor passes the filter as that entry. */
  lemma ParsedMembership(lib: UrlLib, allowed: seq<string>, anchors: seq<Anchor>, job: Job)
    ensures job in Parsed(lib, allowed, anchors) <==> exists a :: a in anchors && Decide(lib, allowed, a) == Some(job)
  {
    var decide := a => Decide(lib, allowed, a);
    ParsedIsYielded(lib, allowed, anchors);
    YieldedMembership(decide, anchors, job);
    assert forall a :: decide(a) == Decide(lib, allowed, a);
  }

  /** Every entry passes all filters, and there are never more entries than anchors. */
  lemma {:induction false} ParsedAdmissible(lib: UrlLib, allowed: seq<string>, anchors: seq<Anchor>)
    ensures forall job :: job in Parsed(lib, allowed, anchors) ==> Admissible(job, allowed)
    ensures |Parsed(lib, allowed, anchors)| <= |anchors|
    decreases |anchors|
  {
    if anchors != [] {
      ParsedAdmissible(lib, allowed, anchors[..|anchors| - 1]);
    }
  }

  lemma ExampleHostHasNoWww(host: string)
    requires host == "example.bayt.com"
    ensures !Contains(host, Www)
  {
    ContainsPrefixFree(host, Www, []);
    assert host + [] == host;
  }

  lemma ExampleRedirectCleans(lib: UrlLib, href: string, url: string)
    requires href == RedirectPrefix + "q=https%3A%2F%2F" + "example.bayt.com%2Fjob%2F1&sa=U"
    requires lib.firstQ(href) == Some(url)
    ensures CleanGoogleUrl(lib, href) == url
  {
    assert href[..|RedirectPrefix|] == RedirectPrefix;
  }

  lemma ExampleHostAllowed(host: string, allowed: seq<string>)
    requires host == "example.bayt.com" && "bayt.com" in allowed
    ensures AllowedDomain(host, allowed)
  {
    assert OccursAt(host, "bayt.com", 8);
    ContainsFromOccurrence(host, "bayt.com", 8);
  }

  /** The only slashes of the URL are followed by '/', 'e' and 'j', never by 'p'. */
  /**
   * A URL whose only slashes are the "//" after the scheme and those of
   * a path shorter than `p` does not contain `p` when `p` starts with a
   * slash and then a character that follows neither slash.
   */
  lemma SlashesAvoid(scheme: string, name: string, path: string, p: string)
    requires |p| > 1 && |path| < |p| && p[0] == '/' && p[1] != '/'
    requires forall k :: 0 <= k < |scheme| ==> scheme[k] != '/'
    requires name != [] && name[0] != p[1]
    requires forall k :: 0 <= k < |name| ==> name[k] != '/'
    ensures !Contains(scheme + "//" + name + path, p)
  {
    ContainsPrefixFree(name, p, path);
    var host := ['/'] + (name + path);
    NotStartsWithAt(host, p, 1);
    ContainsSkip(host, p);
    var tail := ['/'] + host;
    NotStartsWithAt(tail, p, 1);
    ContainsSkip(tail, p);
    ContainsPrefixFree(scheme, p, tail);
    SlashesSplit(scheme, name, path);
  }

  lemma SlashesSplit(scheme: string, name: string, path: string)
    ensures scheme + "//" + name + path == scheme + (['/'] + (['/'] + (name + path)))
  {
  }

  lemma ExampleUrlAvoidsPolicies(url: string, host: string)
    requires host == "example.bayt.com" && url == "https://" + host + "/job/1"
    ensures !Contains(url, PolicyPath)
  {
    SlashesAvoid("https:", host, "/job/1", PolicyPath);
    assert "https://" == "https:" + "//";
  }

  /** The URL has no 'w', the first character of the cache host. */
  lemma ExampleUrlAvoidsCache(url: string, host: string)
    requires host == "example.bayt.com" && url == "https://" + host + "/job/1"
    ensures !Contains(url, CacheHost)
  {
    ContainsPrefixFree(url, CacheHost, []);
    assert url + [] == url;
  }

  /**
   * The redirect link of a matching posting becomes the entry with the
   * posting's URL, host and title.
   */
  lemma ParseRedirectExample(lib: UrlLib, allowed: seq<string>, a: Anchor, url: string, host: string)
    requires a.href == RedirectPrefix + "q=https%3A%2F%2F" + "example.bayt.com%2Fjob%2F1&sa=U"
    requires a.text == "Senior Planning Engineer Role"
    requires host == "example.bayt.com" && url == "https://" + host + "/job/1"
    requires lib.firstQ(a.href) == Some(url) && lib.netloc(url) == Some(host)
    requires "bayt.com" in allowed
    ensures Parsed(lib, allowed, [a]) == [Job(a.text, url, host)]
  {
    ExampleRedirectCleans(lib, a.href, url);
    ExampleHostHasNoWww(host);
    DomainOfPlainHost(lib, url);
    ExampleHostAllowed(host, allowed);
    ExampleUrlAvoidsPolicies(url, host);
    ExampleUrlAvoidsCache(url, host);
    assert url[..4] == "http";
    assert |a.text| >= MinTitleLength;
    assert Decide(lib, allowed, a) == Some(Job(a.text, url, host));
    assert [a][..0] == [];
  }

  /** A cache-mirror link is dropped whatever the allowed sites are. */
  lemma CacheLinkRejected(lib: UrlLib, allowed: seq<string>, a: Anchor)
    requires a.href == "https://" + CacheHost + "/search?q=x"
    ensures Parsed(lib, allowed, [a]) == []
  {
    var url := a.href;
    assert !StartsWith(url, RedirectPrefix) by {
      assert url[..5][0] == 'h';
    }
    assert url[8..8 + |CacheHost|] == CacheHost;
    ContainsFromOccurrence(url, CacheHost, 8);
    assert [a][..0] == [];
  }
  /** A four-character link text is too short to be a title. */
  lemma ShortTitleRejected(lib: UrlLib, allowed: seq<string>, a: Anchor)
    requires a.text == "Jobs"
    ensures Parsed(lib, allowed, [a]) == []
  {
    assert [a][..0] == [];
  }
}
