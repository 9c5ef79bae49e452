/** The `/api/jobs` handler: every registry entry in order through its
    adapter, the lists concatenated. There is no deduplication across
    companies. */
module Aggregator {
  import opened Outcomes
  import opened JsArray
  import opened Jobs
  import opened Lever
  import opened Greenhouse
  import opened GenericPage
  import opened Registry

  /** The network in one run of the handler: the response each request URL
      gets, one function per kind of response body. */
  datatype Web = Web(
    lever: string -> Fetched<PostingsBody>,
    greenhouse: string -> Fetched<BoardBody>,
    page: string -> Fetched<seq<Anchor>>)

  /** The request the handler makes for `c` fails. */
  predicate FetchFailed(c: Company, web: Web) {
    match AdapterFor(c)
    case LeverApi => web.lever(PostingsUrl(c.leverSlug)).Err?
    case GreenhouseApi => web.greenhouse(BoardUrl(c.ghSlug)).Err?
    case HtmlPage => web.page(c.url).Err?
  }

  /** The list company `c` contributes, from the one adapter its entry
      selects. Every posting carries the company's name and trimmed fields;
      those from the two JSON APIs are located in Canada, those from a page
      have distinct URLs and each is the posting of an accepted anchor of the
      fetched page; and a failed request contributes nothing. */
  function CompanyJobs(c: Company, web: Web, resolve: Resolver): (r: seq<JobPosting>)
    ensures forall j :: j in r ==> j.company == c.name && Normalized(j)
    ensures AdapterFor(c) != HtmlPage ==> forall j :: j in r ==> InRegion(j.location)
    ensures AdapterFor(c) == HtmlPage ==> UrlsDistinct(r)
    ensures AdapterFor(c) == HtmlPage ==> forall j | j in r ::
      web.page(c.url).Ok? && FromAnchor(j, web.page(c.url).data, c.url, c.name, resolve)
    ensures FetchFailed(c, web) ==> r == []
  {
    match AdapterFor(c)
    case LeverApi => LeverJobs(c.name, web.lever(PostingsUrl(c.leverSlug)))
    case GreenhouseApi => GreenhouseJobs(c.name, web.greenhouse(BoardUrl(c.ghSlug)))
    case HtmlPage => HtmlJobs(c.name, c.url, web.page(c.url), resolve)
  }

  /** The handler's per-company step for one run. */
  function CompanyStep(web: Web, resolve: Resolver): Company -> seq<JobPosting> {
    c => CompanyJobs(c, web, resolve)
  }

  /** The accumulator `all` after the entries `cs`: each list appended in
      turn. */
  function Aggregate(cs: seq<Company>, web: Web, resolve: Resolver): seq<JobPosting> {
    ConcatAll(cs, CompanyStep(web, resolve))
  }

  /** The number of postings the entries `cs` contribute together. */
  function TotalJobs(cs: seq<Company>, web: Web, resolve: Resolver): nat {
    TotalLength(cs, CompanyStep(web, resolve))
  }

  /** Nothing is dropped or merged across companies: the aggregate is exactly
      as long as all the lists together. */
  lemma AggregateLength(cs: seq<Company>, web: Web, resolve: Resolver)
    ensures |Aggregate(cs, web, resolve)| == TotalJobs(cs, web, resolve)
  {
  }

  /** Registry order is kept: the list of the k-th entry sits in the
      aggregate right after the lists of the entries before it. */
  lemma AggregateSegment(cs: seq<Company>, k: nat, web: Web, resolve: Resolver)
    requires k < |cs|
    ensures TotalJobs(cs[..k], web, resolve) + |CompanyJobs(cs[k], web, resolve)| == TotalJobs(cs[..k + 1], web, resolve)
    ensures TotalJobs(cs[..k + 1], web, resolve) <= |Aggregate(cs, web, resolve)|
    ensures Aggregate(cs, web, resolve)[TotalJobs(cs[..k], web, resolve)..TotalJobs(cs[..k + 1], web, resolve)]
         == CompanyJobs(cs[k], web, resolve)
  {
    ConcatAllSegment(cs, k, CompanyStep(web, resolve));
  }

  /** Every posting in the aggregate comes from the list of some entry: it
      names that entry's company, it is located in Canada when the entry
      uses one of the JSON APIs, and it is the posting of an accepted anchor
      of the fetched page when the entry is a page. */
  lemma AggregateProvenance(cs: seq<Company>, web: Web, resolve: Resolver)
    ensures forall j :: j in Aggregate(cs, web, resolve) ==>
      exists k :: 0 <= k < |cs| && j in CompanyJobs(cs[k], web, resolve) && j.company == cs[k].name
        && (AdapterFor(cs[k]) != HtmlPage ==> InRegion(j.location))
        && (AdapterFor(cs[k]) == HtmlPage ==>
              web.page(cs[k].url).Ok? && FromAnchor(j, web.page(cs[k].url).data, cs[k].url, cs[k].name, resolve))
  {
    ConcatAllMembers(cs, CompanyStep(web, resolve));
  }

  /** The `/api/jobs` handler: for each entry of `COMPANIES` pick the adapter
      (`lever_slug`, else `gh_slug`, else `url`), run it, and append its list
      to `all`. */
  method JobsHandler(web: Web, resolve: Resolver) returns (all: seq<JobPosting>)
    ensures all == Aggregate(Companies, web, resolve)
    ensures |all| == TotalJobs(Companies, web, resolve)
  {
    all := [];
    for i := 0 to |Companies|
      invariant all == ConcatAll(Companies[..i], CompanyStep(web, resolve))
    {
      var comp := Companies[i];
      var list: seq<JobPosting> := [];
      if comp.leverSlug != "" {
        list := LeverJobs(comp.name, web.lever(PostingsUrl(comp.leverSlug)));
      } else if comp.ghSlug != "" {
        list := GreenhouseJobs(comp.name, web.greenhouse(BoardUrl(comp.ghSlug)));
      } else {
        list := GetHtmlJobs(comp.name, comp.url, web.page, resolve);
      }
      assert Companies[..i + 1][..i] == Companies[..i];
      all := all + list;
    }
    assert Companies[..|Companies|] == Companies;
    AggregateLength(Companies, web, resolve);
  }
}
