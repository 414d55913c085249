# Job alert scraper: verified model of the result pipeline

This project models, in Dafny, the list and string logic of a daily
job-alert batch script (`job_scraper.py`). The script searches for job
postings region by region, filters the result links down to allowed job
sites, removes duplicates, caps the list and groups it by site for an
e-mail digest. The model covers:

- `clean_google_url` and `domain_of` (module `Urls`): unwrap a `/url?q=...`
  redirect link, and take the URL's host with every `"www."` removed.
- the filter loop of `parse_results` (module `Extract`): each anchor,
  given as its `href` and text, becomes a `{title, url, domain}` entry or
  is dropped.
- `dedupe` (module `Duplicates`): keep the first entry per
  `(domain, lower(title))` key.
- the merge, dedupe and cap logic of `fetch_jobs` (module `Aggregate`): a
  failed region adds one error entry.
- the grouping, ordering and fallback choice of `build_email_html`
  (module `Digest`).

Module `Text` holds the Python string operations these rely on:
`startswith`, `in`, `replace(pat, "")`, ASCII `lower()` and string `<`.

The loops that grow a list, a set or a dict in the source are methods
with loop invariants. Each is proved equal to a recursive specification
function, and the properties are lemmas about those functions.
`urlparse(...).netloc` and the `q` lookup of `parse_qs` are not
interpreted. They are the two fields of a `UrlLib` value passed in by
the caller. Each region's search is an outcome value:
`Fetched(anchors)` or `Failed(message)`.

`domain_of` calls `.replace("www.", "")` (job_scraper.py:48), which
removes every occurrence of `"www."`, not only a leading one. The model
follows the code. `DomainOfDropsInteriorWww` states this for every host
with a `"www."` after a part without `'w'`, and `DomainOfRemovesEveryWww`
shows that `jobs.www.bayt.com` becomes `jobs.bayt.com`. It also shows
that `wwwww.w.` becomes `www.`: the single left-to-right pass can leave
a `"www."` in the result.

## Model

| member | source | states |
|---|---|---|
| Urls.CleanGoogleUrl | job_scraper.py:36-44 | an empty link gives ""; the result is the link itself or, for a `/url?` link with a `q` parameter, that parameter's first value |
| Urls.CleanKeepsPlainLinks | job_scraper.py:38-44 | a link not starting with `/url?`, or one without a `q` parameter, is returned unchanged |
| Urls.CleanFixesHttpUrls | job_scraper.py:36-44 | a cleaned URL starting with "http" is a fixed point of cleaning |
| Urls.DomainOf | job_scraper.py:46-50 | an unparsable URL has domain ""; otherwise the domain is never longer than the host (its value for a parsed host is the host's `replace("www.", "")`, stated for the host shapes in the four lemmas below) |
| Urls.DomainOfPlainHost | job_scraper.py:48 | for every host without "www.", the domain is the host as it is |
| Urls.DomainOfStripsLeadingWww | job_scraper.py:48 | for every host "www." + h where h has no "www.", the domain is h |
| Urls.DomainOfDropsInteriorWww | job_scraper.py:48 | for every host pre + "www." + rest where pre has no 'w', the domain is pre followed by rest with its own "www." removed, so a "www." in the middle is removed too |
| Urls.DomainOfRemovesEveryWww | job_scraper.py:48 | two fixed hosts: "jobs.www.bayt.com" gives "jobs.bayt.com", and "wwwww.w." gives "www.", so the one-pass removal can leave a new "www." |
| Text.StartsWithIffConcat | job_scraper.py:40 | Python's `s.startswith(p)` holds exactly when `s` is `p` followed by some rest |
| Text.Contains | job_scraper.py:70-73 | Python's `sub in s`: the empty string is in every string, and no string is in a shorter one |
| Text.ContainsIffOccurs | job_scraper.py:70-73 | Python's `sub in s` holds exactly when `sub` occurs at some index of `s` |
| Text.RemoveAll | job_scraper.py:48 | Python's `s.replace(pat, "")` is never longer than `s`, and is at least one copy of `pat` shorter whenever `pat` occurs in `s` |
| Text.RemoveAllWithoutOccurrence | job_scraper.py:48 | `replace(pat, "")` leaves a string without `pat` unchanged |
| Text.RemoveAllAfterFreePrefix | job_scraper.py:48 | in pre + pat + rest, where no character of pre can start `pat`, `replace` keeps pre, drops that `pat` and carries on in rest |
| Text.RemoveAllInterior | job_scraper.py:48 | `replace` removes an occurrence in the middle of the host |
| Text.RemoveAllMayLeaveOccurrence | job_scraper.py:48 | after `replace` the result may still contain the pattern |
| Text.Lower | job_scraper.py:85 | Python's `str.lower()` on ASCII: same length, every capital letter becomes its small letter, no capital is left, and every other character stays |
| Text.StrLess | job_scraper.py:113 | Python's `<` on strings: nothing sorts before the empty string |
| Text.StrLessProperPrefix | job_scraper.py:113 | a proper prefix sorts before the longer string |
| Text.StrLessAtFirstDifference | job_scraper.py:113 | past a common prefix, the first differing character decides the order by code point |
| Text.StrLessTotal | job_scraper.py:113 | two different domain names are ordered one way or the other |
| Text.StrLessTransitive | job_scraper.py:113 | the string order used by `sorted` is transitive |
| Extract.Decide | job_scraper.py:66-78 | an anchor yields an entry exactly when that entry starts with "http", has a non-empty domain containing an allowed site, is not a cache or policy URL and has a title of at least 12 characters |
| Extract.ParseResults | job_scraper.py:60-79 | the loop returns the filter of the mapped anchors, and every entry passes all the filters |
| Extract.ParsedAppend | job_scraper.py:63-79 | the result for a concatenation of anchors is the concatenation of the results, so document order is kept and a rejected anchor affects no other |
| Extract.ParsedMembership | job_scraper.py:63-79 | an entry is in the result if and only if some anchor passes the filter as that entry |
| Extract.ParsedAdmissible | job_scraper.py:67-78 | every entry satisfies every filter, and there are never more entries than anchors |
| Extract.ParseRedirectExample | job_scraper.py:63-78 | the redirect link of a bayt.com posting with a 29-character title becomes the entry with the posting's URL and host |
| Extract.CacheLinkRejected | job_scraper.py:73-74 | a webcache.googleusercontent.com link is dropped whatever the allowed sites |
| Extract.ShortTitleRejected | job_scraper.py:76-77 | an anchor with the text "Jobs" is dropped |
| Duplicates.Deduped | job_scraper.py:81-90 | the result has no two entries with equal keys, has exactly the input's keys, and is no longer than the input |
| Duplicates.Dedupe | job_scraper.py:81-90 | the loop over a `seen` set returns the specification's result |
| Duplicates.DedupedIsFirstOccurrences | job_scraper.py:84-90 | the result is the subsequence of entries whose key does not occur earlier, in input order |
| Duplicates.DedupedOfDistinct | job_scraper.py:84-89 | a list without duplicate keys is returned unchanged |
| Duplicates.DedupeIdempotent | job_scraper.py:81-90 | deduplicating twice gives the same list as deduplicating once |
| Duplicates.CaseInsensitiveTitles | job_scraper.py:85 | two entries on one domain whose titles differ only in letter case collapse to the first |
| Aggregate.ErrorEntry | job_scraper.py:100-101 | the error entry has an empty URL, an empty domain and a title containing the region name |
| Aggregate.Take | job_scraper.py:105 | the capped list is a prefix of the list, no longer than the cap, and the whole list when it is shorter than the cap |
| Aggregate.FetchJobs | job_scraper.py:92-105 | the result is the cap-length prefix of the deduplicated collection of all regions, is at most the cap long, and has no duplicate keys |
| Aggregate.CollectedAppend | job_scraper.py:94-99 | regions are processed in list order: the collection for a concatenation of regions is the concatenation of their collections |
| Aggregate.FailedRegionContributesOne | job_scraper.py:96-101 | a failed region contributes exactly its error entry, at its place among the regions |
| Aggregate.FetchedRegionContributesParsed | job_scraper.py:96-99 | a successful region contributes its parsed entries in document order |
| Aggregate.EveryFailureSurfaces | job_scraper.py:94-101 | before deduplication, the number of entries without a domain equals the number of failed regions |
| Aggregate.CapKeepsFirstSurvivor | job_scraper.py:92-105 | with one region, two matching non-duplicate anchors and a cap of 1, the result is the first anchor's entry alone |
| Digest.OfDomainMembership | job_scraper.py:110-111 | a job is in a domain's group if and only if it is among the jobs and has that domain |
| Digest.GroupByDomain | job_scraper.py:109-111 | the dict's keys are exactly the jobs' domains, the key list holds each of them once, and each group is its domain's jobs in their original order |
| Digest.InsertSorted | job_scraper.py:113 | inserting a group into an ordered list keeps it ordered |
| Digest.SortSections | job_scraper.py:113 | `sorted` gives an ordered permutation of the groups, and distinct domains stay distinct |
| Digest.EntriesDescribeGroups | job_scraper.py:111-113 | `groups.items()` lists each domain once, with all of its jobs |
| Digest.SortedEntriesAreDigest | job_scraper.py:113-120 | the sorted groups are strictly ordered by descending size and then ascending domain, cover exactly the jobs' domains, and are empty only when there are no jobs |
| Digest.BuildEmailBody | job_scraper.py:107-120 | no jobs gives the "No results found today." fallback and no sections; otherwise the sections are the ordered domain groups |
| Digest.DigestListsEveryJobOnce | job_scraper.py:109-115 | the groups partition the jobs: their sizes add up to the number of jobs, and each job is in the group of its own domain |
| Digest.LargerGroupFirst | job_scraper.py:113 | a larger group is always listed before a smaller one |
| Digest.TieBrokenByDomain | job_scraper.py:113 | groups of equal size are listed by ascending domain name |

## Left out

- `google_search` (job_scraper.py:52-58) is an HTTP request with a timeout and a status check. It is replaced by each region's outcome value. The query string built for it (job_scraper.py:95) only feeds that request and is not modelled.
- BeautifulSoup parsing and text extraction (job_scraper.py:61-65) are a foreign library. The model starts from the anchors' `href` and whitespace-collapsed text. An anchor without `href` is given as "".
- The internals of `urlparse` and `parse_qs` (percent-decoding, netloc rules) are library behaviour. They are uninterpreted functions in `UrlLib`.
- Exceptions raised inside `parse_results` are not modelled separately. A failure while fetching or parsing is the region's `Failed` outcome.
- `send_email_html` (job_scraper.py:127-135) is SMTP, TLS and MIME construction, all I/O.
- Environment settings (job_scraper.py:14-25) are process environment. The allowed sites and the cap are parameters.
- `time.sleep` (job_scraper.py:102) and the timestamps (job_scraper.py:108, 141) are wall-clock time and floats.
- The HTML markup and styling (job_scraper.py:114-124) are presentational. This includes the unescaped interpolation of titles. Only the grouping, the order and the fallback choice are modelled.
- Urls.DomainOf: its own contract states only the failure case and a length bound. Its body is `RemoveAll(host, "www.")`, and the lemmas state the value for these host shapes: no "www." (DomainOfPlainHost), a leading "www." with none after it (DomainOfStripsLeadingWww), a "www." after a part without 'w' (DomainOfDropsInteriorWww), and the two fixed hosts of DomainOfRemovesEveryWww. A host whose first "www." comes after a 'w' that does not start one, such as "aw.www.b", is covered by none of the lemmas; only the definition covers it.
- Digest.GroupByDomain: it does not state that the key list is in order of first appearance. That order is Python's dict insertion order, and the sort removes any effect it could have.
- Aggregate.FetchJobs: the cap is a `nat`. A negative `RESULTS_LIMIT` would make Python's slice drop entries from the end, which is not modelled.
- Text.Lower: only ASCII letters are lower-cased. Python's `str.lower` also folds other letters, so the model can find fewer duplicates than the source.
