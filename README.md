# Canada jobs aggregator — verified model of the job aggregation

The server of canada-jobs-fullstack answers `GET /api/jobs` with one JSON array
of postings (`company`, `title`, `location`, `apply_url`) gathered from a fixed,
ordered registry of 28 companies. Each registry entry carries one locator:

- A `lever_slug` entry is read from the Lever postings API. Its postings are
  filtered on `categories.location` naming "canada" and mapped to trimmed
  postings.
- A `gh_slug` entry is read from the Greenhouse board API, filtered the same
  way on `location.name`.
- A `url` entry is scraped: every `a[href]` whose trimmed text is non-empty,
  and whose text plus the text of its enclosing `li`/`div`/`tr` names
  "canada", becomes a posting. The title is the trimmed text before the first
  en dash, the location the trimmed text between the first and the second,
  and the apply URL the resolved href. The page's postings are then
  deduplicated by URL.

Each adapter catches every failure (network error, unexpected body, a
`TypeError` in a callback, an href the URL constructor rejects) and then
contributes an empty list. The handler visits the registry in order, picks
`lever_slug`, else `gh_slug`, else `url`, and appends each list to its
accumulator. It does not deduplicate across companies.

The Dafny model follows `server/index.js`:

- `outcomes.dfy`: `Option`, and `Completion` (a value or a thrown exception).
- `js_string.dfy`: `trim` with the full ECMAScript whitespace set,
  `toLowerCase`, `includes`, and `split` on one character, with its inverse
  `Join`.
- `js_array.dfy`: `filter`, `map` and a push loop whose callbacks may throw,
  and repeated `concat`.
- `jobs.dfy`: the posting record, JSON fields (missing, a string, or another
  value), a fetch that may fail, and the region test.
- `lever.dfy`, `greenhouse.dfy`, `generic_page.dfy`: the three adapters.
  `ParseGeneric` (with its two passes `CollectAnchors` and `DedupeByUrl`)
  and `GetHtmlJobs` are methods with the source's loops and `seen`
  dictionary. Each is proved equal to a
  specification function whose properties are proved as lemmas.
- `registry.dfy`: `COMPANIES`.
- `aggregator.dfy`: the `/api/jobs` loop as a method, proved equal to the
  concatenation of the per-company lists.
- `scenarios.dfy`: the Lever adapter on a one-posting array with padded
  fields.

The network is an input. A `Web` value gives the response each request URL
receives. Lever and Greenhouse URLs are built exactly as the source builds
them. An HTML page is given as its anchors in document order. The URL
constructor is a `Resolver` that may fail.

What the code does, which the model follows:

- A posting has four fields and no category field.
- Only the postings of one page are deduplicated, by URL, after all of its
  anchors are collected. Nothing is deduplicated across companies.
- A scraped location is the piece between the first and the second en dash,
  not everything after the first.
- A scraped title may be empty, when the text starts with an en dash.
- "canada" is the only region token.

Some definitions carry no contract of their own. Their meaning is stated by
the rows below that use them:

- `Jobs.InRegion` is the `toLowerCase().includes("canada")` test at
  server/index.js:60, 81 and 105.
- `GenericPage.Accepted` is the two tests of server/index.js:104-105: the
  trimmed text is not empty, and text plus context names the region.
- `GenericPage.PageJob` is the posting built at server/index.js:108-113.
- `GenericPage.LinksTo`, `GenericPage.HasAnchorFor` and
  `GenericPage.FirstAnchorsInOrder` name the first-seen-wins, document-order
  shape of a page's result (server/index.js:101-124).
- `Registry.Companies` is `COMPANIES` (server/index.js:18-50); its shape is
  stated by `Registry.RegistryShape`.
- `Lever.PostingsUrl` and `Greenhouse.BoardUrl` are the request URLs of
  server/index.js:56 and 77; the injectivity lemmas state what they keep.

## Model

| member | source | states |
|---|---|---|
| JsString.Trim | server/index.js:63-64 | the result has no whitespace at either end, is no longer than the input, and is empty exactly when the input is all whitespace |
| JsString.TrimToEmpty | server/index.js:102-104 | trimming gives the empty string iff every character is ECMAScript whitespace, which is when the `!snippet` test skips an anchor |
| JsString.TrimStart | server/index.js:63 | the result is a suffix of the input, everything dropped is ECMAScript whitespace, and the result does not start with whitespace |
| JsString.TrimEnd | server/index.js:63 | the result is a prefix of the input, everything dropped is whitespace, and the result does not end with whitespace |
| JsString.TrimBounds | server/index.js:102 | trim returns a slice of its argument, with only whitespace cut away on either side |
| JsString.Contains | server/index.js:60 | `includes` finds nothing longer than the string searched, finds the empty string in every string, and finds a string in itself |
| JsString.TrimOfTrimmed | server/index.js:111-112 | a string without whitespace at its ends is its own trim |
| JsString.TrimIdempotent | server/index.js:63-64 | trimming twice is the same as trimming once |
| JsString.TrimKeepsAbsence | server/index.js:111-112 | trimming never introduces a character, so an en dash-free piece stays en dash-free |
| JsString.TrimKeepsMatch | server/index.js:60-64 | if the lowercased string contains a needle with no whitespace in it, so does the lowercased trimmed string |
| JsString.TrimKeepsOccurrence | server/index.js:60-64 | an occurrence of such a needle lies inside the part trim keeps |
| JsString.OccurrenceInside | server/index.js:60-64 | a whitespace-free needle found in the lowercased string lies between the leading and the trailing whitespace |
| JsString.OccursInSlice | server/index.js:60-64 | an occurrence lying inside a slice is an occurrence in that slice, shifted by its start |
| JsString.Lower | server/index.js:60 | lowercasing keeps the length |
| JsString.LowerSlice | server/index.js:60 | lowercasing commutes with taking a slice |
| JsString.LowerKeepsWhitespace | server/index.js:60 | lowercasing leaves whitespace unchanged |
| JsString.FirstIndex | server/index.js:108 | the index of the first occurrence of the character, or the length when there is none |
| JsString.Split | server/index.js:108 | at least one piece, no piece holds the separator, and joining the pieces with the separator gives back the input |
| JsString.SplitJoin | server/index.js:108 | splitting the join of separator-free pieces gives back the pieces |
| JsString.SplitPieces | server/index.js:108-112 | the first piece is the text before the first separator; the second, when present, is the text from there to the next separator |
| JsArray.SubseqLength | server/index.js:59-60 | a subsequence is no longer than the sequence |
| JsArray.SubseqMembers | server/index.js:59-60 | every element of a subsequence is an element of the sequence |
| JsArray.SubseqSnoc | server/index.js:120-124 | appending keeps the subsequence relation |
| JsArray.Filter | server/index.js:59-60 | returns normally iff no callback throws; then the result is an order-preserving subsequence, holds only accepted elements, and holds every accepted element |
| JsArray.FilterCounts | server/index.js:59-60 | an accepted element occurs in the result exactly as often as in the input, a rejected one not at all |
| JsArray.Map | server/index.js:61-66 | returns normally iff no callback throws; then there is one result per element, the callback's value |
| JsArray.Collect | server/index.js:101-116 | when the push loop completes, no callback threw and at most one value was pushed per element |
| JsArray.CollectIndexed | server/index.js:101-116 | the loop pushes in element order: the k-th pushed value is the callback's value on the k-th element that pushes one, these positions strictly increase, and every element whose callback pushes appears among them |
| JsArray.PushedBefore | server/index.js:101-116 | an element before the one that pushed the p-th value pushes, if anything, one of the values before the p-th |
| JsArray.CollectThrows | server/index.js:101-116 | the push loop throws iff some callback throws |
| JsArray.CollectSources | server/index.js:101-116 | every pushed value is the value of a callback on some element, and every pushed callback value is in the result |
| JsArray.TotalLengthSnoc | server/index.js:142-153 | the total length grows by the length of the last list |
| JsArray.ConcatAll | server/index.js:141-153 | the concatenation is as long as all the lists together |
| JsArray.ConcatAllPrefix | server/index.js:152 | concatenating a prefix of the lists gives a prefix of the whole concatenation |
| JsArray.SliceAfterPrefix | server/index.js:152 | the part right after a prefix is the appended tail |
| JsArray.ConcatAllSegment | server/index.js:152 | the k-th list sits in the concatenation right after the lists before it |
| JsArray.ConcatAllMembers | server/index.js:152 | every element of the concatenation comes from one of the lists |
| Jobs.RegionSurvivesTrim | server/index.js:60-64 | a location that names the region still names it after trimming |
| Lever.PostingsUrlInjective | server/index.js:56 | distinct slugs are requested at distinct postings URLs |
| Lever.IsCanadian | server/index.js:60 | the filter callback throws exactly on a null posting or a location that is neither missing nor a string, and accepts exactly the postings whose location names the region |
| Lever.PostingJob | server/index.js:61-66 | the map callback returns iff text and location are both strings; the job then carries the company name, trimmed text and location, the posting's apply URL, and still names the region when the posting did |
| Lever.LeverJobs | server/index.js:55-71 | a failed request or a non-array body gives []; otherwise there are at most as many jobs as postings, each attributed to the name, trimmed, and naming the region |
| Lever.MappedJobsValid | server/index.js:61-66 | postings the filter accepted map to trimmed jobs of the company whose location still names the region |
| Lever.MalformedPostingEmpties | server/index.js:59-70 | one null posting, one non-string location, or one accepted posting without a string text empties the whole result |
| Lever.FilterKeepsCanadian | server/index.js:60 | without malformed postings the filter returns, and keeps exactly the postings whose location names the region |
| Lever.KeptMapNormally | server/index.js:61-66 | kept postings of a well-formed array all map without throwing |
| Lever.LeverSelection | server/index.js:59-66 | without malformed postings: the kept postings are an order-preserving subsequence holding each region-naming posting exactly as often as the input and no other; one job per kept posting, in that order, with trimmed text and location, the company name and the posting's apply URL |
| Greenhouse.BoardUrlInjective | server/index.js:77 | distinct slugs are requested at distinct board URLs |
| Greenhouse.LocatedInCanada | server/index.js:81 | the filter callback throws exactly when the location name is not a string, and accepts exactly the jobs whose location name names the region |
| Greenhouse.BoardJobPosting | server/index.js:82-87 | the map callback returns iff title and location name are both strings; the posting then carries the company name, trimmed title and location, the absolute URL, and still names the region when the job did |
| Greenhouse.GreenhouseJobs | server/index.js:76-92 | a failed request or a body without a jobs array gives []; otherwise there are at most as many postings as board jobs, each attributed, trimmed, and naming the region |
| Greenhouse.MappedPostingsValid | server/index.js:82-87 | accepted board jobs map to trimmed postings of the company whose location still names the region |
| Greenhouse.MalformedJobEmpties | server/index.js:80-91 | one job whose location name is not a string, or one accepted job whose title is not a string, empties the whole board |
| Greenhouse.FilterKeepsCanadian | server/index.js:81 | without malformed jobs the filter returns, and keeps exactly the jobs whose location name names the region |
| Greenhouse.KeptMapNormally | server/index.js:82-87 | kept jobs of a well-formed board all map without throwing |
| Greenhouse.GreenhouseSelection | server/index.js:80-87 | without malformed jobs: the kept jobs are an order-preserving subsequence holding each region-naming job exactly as often as the input and no other; one posting per kept job, in that order, with trimmed title and location name, the company name and the absolute URL |
| GenericPage.TitleOf | server/index.js:108-111 | the title is trimmed and holds no en dash |
| GenericPage.LocationOf | server/index.js:108-112 | the location is trimmed and holds no en dash |
| GenericPage.AnchorJob | server/index.js:102-114 | the callback throws iff the anchor is accepted (non-empty trimmed text, text plus context naming the region) and its href does not resolve; it pushes nothing iff the anchor is not accepted; a pushed posting carries the company name, trimmed fields and the resolved URL |
| GenericPage.AnchorYields | server/index.js:102-114 | the callback pushes a posting only for an accepted anchor with a resolvable href, and then exactly that anchor's title, location and resolved URL |
| GenericPage.AnchorJobSpec | server/index.js:102-114 | an anchor is skipped when its trimmed text is empty or text plus context does not name the region; otherwise an unresolvable href throws, and a resolvable one gives the text before the first en dash, the text up to the second, and the resolved URL |
| GenericPage.SnippetFields | server/index.js:108-112 | the trimmed first piece of the split snippet is its title and the trimmed second piece, or "", its location |
| GenericPage.CollectedJobsValid | server/index.js:101-116 | when the loop completes, every collected posting is the posting of some accepted anchor, attributed to the company and trimmed |
| GenericPage.CollectedJobsComplete | server/index.js:101-116 | when the loop completes, every accepted anchor's href resolved and its posting was collected |
| GenericPage.ThrowsIffUnresolved | server/index.js:104-107 | some callback throws iff some accepted anchor's href does not resolve |
| GenericPage.UrlsSnoc | server/index.js:121-122 | appending a posting adds exactly its URL to the URL set |
| GenericPage.FirstByUrl | server/index.js:118-124 | the dedupe keeps an order-preserving subsequence with no repeated URL and the same set of URLs |
| GenericPage.FirstUrlIndex | server/index.js:120-121 | the first position holding a given URL |
| GenericPage.FirstUrlIndexSnoc | server/index.js:120-123 | appending a posting does not move the first position of a URL already present |
| GenericPage.FirstUrlIndexLast | server/index.js:120-123 | a URL new to the list is first found at the appended posting |
| GenericPage.FirstByUrlKeepsFirst | server/index.js:119-124 | each posting the dedupe keeps is the first posting of the input with that URL |
| GenericPage.FirstByUrlKeepsOrder | server/index.js:119-124 | the kept postings come in the order of the first occurrences of their URLs in the input |
| GenericPage.FirstAnchorWithUrl | server/index.js:101-107 | the position, in document order, of the first accepted anchor whose href resolves to the URL: it resolves there and no earlier accepted anchor does |
| GenericPage.FirstPushedAnchor | server/index.js:101-121 | a collected posting whose URL no earlier collected posting has was pushed by the first accepted anchor resolving to that URL, and is that anchor's posting |
| GenericPage.NoEarlierAnchor | server/index.js:101-121 | no anchor before the one that pushed such a posting is accepted and resolves to its URL |
| GenericPage.LinksToPushes | server/index.js:104-114 | an accepted anchor resolving to a URL pushes its own posting, with that URL |
| GenericPage.DedupedPageOrder | server/index.js:101-124 | after the dedupe, each posting is the posting of the first accepted anchor resolving to its URL, and the postings follow the document order of those anchors |
| GenericPage.DistinctUnchanged | server/index.js:119-124 | a list without repeated URLs passes the dedupe unchanged |
| GenericPage.FirstByUrlIdempotent | server/index.js:119-124 | deduplicating twice is deduplicating once |
| GenericPage.GenericJobs | server/index.js:97-125 | parsing throws iff some non-empty, region-naming anchor has an href that does not resolve; otherwise each posting is the posting (title and location read off the trimmed text, resolved URL) of the first such anchor, in document order, that resolves to its URL; the postings follow the document order of those anchors; every such anchor's URL is among them; and the URLs are distinct, with the company name and trimmed fields |
| GenericPage.FirstAnchorWins | server/index.js:101-124 | when parsing succeeds, the posting of an accepted anchor that no earlier accepted anchor shares a resolved URL with is in the result: the first anchor seen for a URL wins |
| GenericPage.FirstInOrderPresent | server/index.js:118-124 | in a list of first-anchor postings holding a URL, the posting of that URL's first anchor is present |
| GenericPage.GenericJobsThrow | server/index.js:104-107 | one non-empty, region-naming anchor whose href does not resolve makes the whole parse throw |
| GenericPage.ParseGeneric | server/index.js:97-125 | the anchor loop with early throw, then the dedupe, returns exactly `GenericJobs` |
| GenericPage.CollectAnchors | server/index.js:101-116 | the anchor loop, with its early exit when an href does not resolve, returns exactly the push loop's result `Collect` |
| GenericPage.DedupeByUrl | server/index.js:118-124 | the `seen`-dictionary filter returns exactly `FirstByUrl` of its input |
| GenericPage.HtmlJobs | server/index.js:127-135 | a failed request, or some non-empty, region-naming anchor whose href does not resolve, gives []; otherwise every accepted anchor's URL is in the result; each posting is that of the first accepted anchor of the fetched page resolving to its URL, in the document order of those anchors, with distinct URLs, the company name and trimmed fields |
| GenericPage.GetHtmlJobs | server/index.js:127-135 | fetching the page at its own URL and parsing it with that URL as base gives exactly `HtmlJobs` |
| Registry.AdapterFor | server/index.js:144-150 | the Lever adapter iff the entry has a Lever slug, the Greenhouse adapter iff it has a Greenhouse slug and no Lever slug, and, for an entry with one locator, the page scraper iff it has a URL |
| Registry.RegistryShape | server/index.js:18-50 | 28 entries, each with exactly one locator: two Lever, then two Greenhouse, then 24 HTML pages |
| Aggregator.CompanyJobs | server/index.js:143-150 | a company's list carries its name and trimmed fields; lists from the two APIs name the region; a page's list has distinct URLs and holds only postings of accepted anchors of the fetched page; a failed request contributes nothing |
| Aggregator.AggregateLength | server/index.js:141-153 | the response is exactly as long as all the company lists together |
| Aggregator.AggregateSegment | server/index.js:142-153 | the k-th company's list sits unchanged in the response right after the lists of the companies before it |
| Aggregator.AggregateProvenance | server/index.js:142-153 | every posting in the response belongs to some company's list and carries its name; it names the region if that company uses an API, and it is the posting of an accepted anchor of the company's fetched page if the company is scraped |
| Aggregator.JobsHandler | server/index.js:140-155 | the handler's loop over `COMPANIES` with its three-way dispatch returns exactly the registry-order concatenation, of the summed length |
| Scenarios.TrimPadded | server/index.js:63-64 | a word with one space on each side trims to the word |
| Scenarios.RegionSurvivesPadding | server/index.js:60 | padding a location with spaces keeps the region in it |
| Scenarios.FilterOne | server/index.js:60 | filtering one accepted element keeps it |
| Scenarios.MapOne | server/index.js:61-66 | mapping one element gives the callback's value |
| Scenarios.LeverOne | server/index.js:59-66 | a one-posting array whose posting is accepted and mapped to a job yields exactly that job |
| Scenarios.LeverTrimsPadding | server/index.js:59-66 | a posting with padded text and a padded region-naming location gives one job with both fields bare and the posting's apply URL |

## Left out

- The Express application, CORS, JSON body parsing, `app.listen` and the
  port are not modelled; `JobsHandler` returns the array the handler sends.
- axios and its 10-second timeout: every request is an input that either
  yields a decoded body or fails (`Fetched.Err`). Timeouts and network errors
  are both failures.
- cheerio: the HTML parse, `$("a[href]")`, `.text()` and `closest` are
  replaced by their result, the list of anchors with href, own text and
  context text.
- The WHATWG URL constructor is the `Resolver` parameter. Its parsing rules
  are not modelled, only that it either gives a URL string or throws.
- Console logging and the `async`/`await` sequencing are left out. The
  handler awaits each company before the next, which the sequential loop
  keeps.
- client/src/App.js is not part of this model.
- JsString.Lower: lowercases ASCII letters only. No other character
  lowercases to one of the letters of "canada", and the lowercased text is
  only searched, never returned. So the region test is unaffected.
- Lever.LeverJobs and Greenhouse.GreenhouseJobs: the apply URL is modelled
  as a string, although the source copies whatever JSON value
  `applyUrl`/`absolute_url` holds, including a missing one.
- A Lever array element that is a primitive other than null is modelled as
  a posting with every field missing. The source's filter drops such an
  element, since its optional chain yields undefined, and the model's
  filter drops it too, since its location is missing.
- A Greenhouse body whose `jobs` property is not an array is modelled as a
  body without a jobs array. In the source, calling `filter` on it throws
  and the adapter returns [], as in the model.
- GenericPage.DedupeByUrl: `seen` is a map from URL to true. Keys such as
  `__proto__` that a plain JavaScript object treats specially are not
  modelled. A resolved absolute URL never is one.
