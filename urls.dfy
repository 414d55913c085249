/**
 * `clean_google_url` and `domain_of`: turning a search-result link into
 * the destination URL and the host used for filtering and grouping.
 *
 * The two pieces of `urllib.parse` they call are not modelled; they are
 * the fields of a `UrlLib` value passed in by the caller.
 */
module Urls {
  import opened Wrappers
  import opened Text

  /**
   * `netloc(url)` is `urlparse(url).netloc`, or None when `urlparse`
   * raises; `firstQ(href)` is `parse_qs(urlparse(href).query)["q"][0]`,
   * or None when the query has no `q` parameter.
   */
  datatype UrlLib = UrlLib(netloc: string -> Option<string>, firstQ: string -> Option<string>)

  /** The path of the search engine's redirect links. */
  const RedirectPrefix: string := "/url?"

  /** The text `domain_of` deletes from the host. */
  const Www: string := "www."

  /**
   * The destination of a link: the `q` parameter of a redirect link,
   * the link itself otherwise (an empty link stays empty).
   */
  function CleanGoogleUrl(lib: UrlLib, href: string): (url: string)
    ensures href == [] ==> url == []
    ensures url == href || (StartsWith(href, RedirectPrefix) && lib.firstQ(href) == Some(url))
    ensures StartsWith(href, RedirectPrefix) && lib.firstQ(href).Some? ==> url == lib.firstQ(href).value
  {
    if href == [] then []
    else if StartsWith(href, RedirectPrefix) then
      match lib.firstQ(href)
      case Some(q) => q
      case None => href
    else href
  }

  /** A link that is not a redirect, or a redirect without `q`, is kept as it is. */
  lemma CleanKeepsPlainLinks(lib: UrlLib, href: string)
    requires !StartsWith(href, RedirectPrefix) || lib.firstQ(href).None?
    ensures CleanGoogleUrl(lib, href) == href
  {
  }

  /** A URL that starts with "http" is its own destination: cleaning it again changes nothing. */
  lemma CleanFixesHttpUrls(lib: UrlLib, href: string)
    requires StartsWith(CleanGoogleUrl(lib, href), "http")
    ensures CleanGoogleUrl(lib, CleanGoogleUrl(lib, href)) == CleanGoogleUrl(lib, href)
  {
    var url := CleanGoogleUrl(lib, href);
    assert url[1] == 't';
    if |url| >= |RedirectPrefix| {
      assert url[..|RedirectPrefix|][1] != RedirectPrefix[1];
    }
  }

  /**
   * The host with every "www." removed; "" when the URL cannot be
   * parsed.
   */
  function DomainOf(lib: UrlLib, url: string): (d: string)
    ensures lib.netloc(url).None? ==> d == []
    ensures lib.netloc(url).Some? ==> |d| <= |lib.netloc(url).value|
  {
    match lib.netloc(url)
    case None => []
    case Some(host) => RemoveAll(host, Www)
  }

  /** A host without "www." is the domain as it is. */
  lemma DomainOfPlainHost(lib: UrlLib, url: string)
    requires lib.netloc(url).Some? && !Contains(lib.netloc(url).value, Www)
    ensures DomainOf(lib, url) == lib.netloc(url).value
  {
    RemoveAllWithoutOccurrence(lib.netloc(url).value, Www);
  }

  /**
   * Every "www." is removed, not only a leading one, and the single
   * left-to-right pass can leave a "www." made of the pieces around a
   * removed one.
   */
  lemma DomainOfRemovesEveryWww(lib: UrlLib, url: string, url': string)
    requires lib.netloc(url) == Some("jobs.www.bayt.com")
    requires lib.netloc(url') == Some("wwwww.w.")
    ensures DomainOf(lib, url) == "jobs.bayt.com"
    ensures DomainOf(lib, url') == "www."
  {
    RemoveAllInterior(lib.netloc(url).value, Www);
    RemoveAllMayLeaveOccurrence(lib.netloc(url').value, Www);
  }

  /**
   * A "www." anywhere in the host is removed: everything before the
   * first 'w' is kept, and the removal carries on after the "www.".
   */
  lemma DomainOfDropsInteriorWww(lib: UrlLib, url: string, pre: string, rest: string)
    requires lib.netloc(url) == Some(pre + Www + rest)
    requires forall k :: 0 <= k < |pre| ==> pre[k] != 'w'
    ensures DomainOf(lib, url) == pre + RemoveAll(rest, Www)
  {
    assert Www[0] == 'w';
    RemoveAllAfterFreePrefix(pre, Www, rest);
  }

  /** A leading "www." is stripped when the rest of the host has none. */
  lemma DomainOfStripsLeadingWww(lib: UrlLib, url: string, host: string)
    requires lib.netloc(url) == Some(Www + host)
    requires !Contains(host, Www)
    ensures DomainOf(lib, url) == host
  {
    RemoveAllLeading(Www, host);
    RemoveAllWithoutOccurrence(host, Www);
  }
}
