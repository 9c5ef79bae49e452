/** The generic HTML fallback: `parseGeneric`, which turns the anchors of a
    page into postings and removes repeated URLs, and `getHtmlJobs`, which
    fetches the page and turns every failure into an empty list. The DOM
    traversal is replaced by its result, the page's anchors in document
    order. */
module GenericPage {
  import opened Outcomes
  import opened JsString
  import opened JsArray
  import opened Jobs

  /** An `a[href]` element: its `href` attribute, its own text (before
      trimming) and the text of its nearest enclosing `li`, `div` or `tr`
      (empty when there is none). */
  datatype Anchor = Anchor(href: string, text: string, context: string)

  /** `new URL(href, base).href`, or None when the URL constructor throws. */
  type Resolver = (string, string) -> Option<string>

  /** The separator between title and location, U+2013 EN DASH. */
  const EnDash: char := '\U{2013}'

  // ---------------------------------------------------------------------
  // One anchor
  // ---------------------------------------------------------------------

  /** The anchor passes both tests of the callback: its trimmed text is not
      empty, and that text followed by the context names the region. */
  predicate Accepted(a: Anchor) {
    var snippet := Trim(a.text);
    snippet != "" && InRegion(snippet + a.context)
  }

  /** An accepted anchor whose href the URL constructor rejects. */
  predicate Unresolved(a: Anchor, baseUrl: string, resolve: Resolver) {
    Accepted(a) && resolve(a.href, baseUrl).None?
  }

  /** What the `each` callback does with one anchor: nothing (None), push a
      posting, or throw because the href does not resolve. Only an accepted
      anchor reaches the URL constructor. */
  function AnchorJob(a: Anchor, baseUrl: string, name: string, resolve: Resolver): (r: Completion<Option<JobPosting>>)
    ensures r == Throw <==> Unresolved(a, baseUrl, resolve)
    ensures r == Normal(None) <==> !Accepted(a)
    ensures r.Normal? && r.value.Some? ==>
      && r.value.value.company == name && Normalized(r.value.value)
      && r.value.value.applyUrl == resolve(a.href, baseUrl).value
  {
    var snippet := Trim(a.text);
    if snippet == "" then Normal(None)
    else if !InRegion(snippet + a.context) then Normal(None)
    else
      match resolve(a.href, baseUrl)
      case None => Throw
      case Some(link) =>
        var parts := Split(snippet, EnDash);
        Normal(Some(JobPosting(name, Trim(parts[0]), Trim(if |parts| > 1 then parts[1] else ""), link)))
  }

  /** The title read off a snippet: the trimmed text before the first en-dash. */
  function TitleOf(snippet: string): (r: string)
    ensures Trimmed(r) && EnDash !in r
  {
    var i := FirstIndex(snippet, EnDash);
    TrimKeepsAbsence(snippet[..i], EnDash);
    Trim(snippet[..i])
  }

  /** The location read off a snippet: the trimmed text between the first and
      the second en-dash, empty when there is no en-dash. */
  function LocationOf(snippet: string): (r: string)
    ensures Trimmed(r) && EnDash !in r
  {
    var i := FirstIndex(snippet, EnDash);
    if i == |snippet| then ""
    else
      var rest := snippet[i + 1..];
      var k := FirstIndex(rest, EnDash);
      TrimKeepsAbsence(rest[..k], EnDash);
      Trim(rest[..k])
  }

  /** The posting an accepted anchor with a resolvable href yields. */
  function PageJob(a: Anchor, baseUrl: string, name: string, resolve: Resolver): JobPosting
    requires resolve(a.href, baseUrl).Some?
  {
    var snippet := Trim(a.text);
    JobPosting(name, TitleOf(snippet), LocationOf(snippet), resolve(a.href, baseUrl).value)
  }

  /** An anchor is skipped when its trimmed text is empty or when its text
      and context together do not name the region; otherwise its href must
      resolve, and the posting has the title before the first en-dash, the
      location between the first and the second, and the resolved URL. */
  lemma AnchorJobSpec(a: Anchor, baseUrl: string, name: string, resolve: Resolver)
    ensures var snippet := Trim(a.text);
      AnchorJob(a, baseUrl, name, resolve) ==
        if snippet == "" || !InRegion(snippet + a.context) then Normal(None)
        else if resolve(a.href, baseUrl).None? then Throw
        else Normal(Some(JobPosting(name, TitleOf(snippet), LocationOf(snippet), resolve(a.href, baseUrl).value)))
  {
    SnippetFields(Trim(a.text));
  }

  /** The two trimmed pieces the source reads off a split snippet are its
      title and its location. */
  lemma SnippetFields(snippet: string)
    ensures var parts := Split(snippet, EnDash);
      && Trim(parts[0]) == TitleOf(snippet)
      && Trim(if |parts| > 1 then parts[1] else "") == LocationOf(snippet)
  {
    SplitPieces(snippet, EnDash);
  }

  // ---------------------------------------------------------------------
  // All anchors, then the URL dedupe
  // ---------------------------------------------------------------------

  /** The `each` callback for one page. */
  function AnchorStep(baseUrl: string, name: string, resolve: Resolver): Anchor -> Completion<Option<JobPosting>> {
    a => AnchorJob(a, baseUrl, name, resolve)
  }

  /** `j` is the posting of some accepted anchor of the page. */
  predicate FromAnchor(j: JobPosting, anchors: seq<Anchor>, baseUrl: string, name: string, resolve: Resolver) {
    exists i :: 0 <= i < |anchors| && Accepted(anchors[i]) && resolve(anchors[i].href, baseUrl).Some?
      && j == PageJob(anchors[i], baseUrl, name, resolve)
  }

  /** The callback pushes a posting exactly for an accepted anchor whose href
      resolves, and that posting is the anchor's. */
  lemma AnchorYields(a: Anchor, baseUrl: string, name: string, resolve: Resolver)
    ensures var r := AnchorJob(a, baseUrl, name, resolve);
      r.Normal? && r.value.Some? ==>
        Accepted(a) && resolve(a.href, baseUrl).Some? && r.value.value == PageJob(a, baseUrl, name, resolve)
    ensures Accepted(a) && resolve(a.href, baseUrl).Some? ==>
      AnchorJob(a, baseUrl, name, resolve) == Normal(Some(PageJob(a, baseUrl, name, resolve)))
  {
    AnchorJobSpec(a, baseUrl, name, resolve);
  }

  /** When the `each` loop completes, every collected posting is the posting
      of an accepted anchor, so it is attributed to `name` and trimmed. */
  lemma CollectedJobsValid(anchors: seq<Anchor>, baseUrl: string, name: string, resolve: Resolver)
    requires Collect(anchors, AnchorStep(baseUrl, name, resolve)).Normal?
    ensures forall j | j in Collect(anchors, AnchorStep(baseUrl, name, resolve)).value ::
      j.company == name && Normalized(j) && FromAnchor(j, anchors, baseUrl, name, resolve)
  {
    var step := AnchorStep(baseUrl, name, resolve);
    var jobs := Collect(anchors, step).value;
    CollectSources(anchors, step);
    forall k | 0 <= k < |jobs|
      ensures jobs[k].company == name && Normalized(jobs[k]) && FromAnchor(jobs[k], anchors, baseUrl, name, resolve)
    {
      var i :| 0 <= i < |anchors| && step(anchors[i]) == Normal(Some(jobs[k]));
      assert AnchorJob(anchors[i], baseUrl, name, resolve) == Normal(Some(jobs[k]));
      AnchorYields(anchors[i], baseUrl, name, resolve);
    }
  }

  /** When the `each` loop completes, every accepted anchor's href resolved
      and its posting was collected. */
  lemma CollectedJobsComplete(anchors: seq<Anchor>, baseUrl: string, name: string, resolve: Resolver)
    requires Collect(anchors, AnchorStep(baseUrl, name, resolve)).Normal?
    ensures forall i | 0 <= i < |anchors| && Accepted(anchors[i]) ::
      resolve(anchors[i].href, baseUrl).Some?
      && PageJob(anchors[i], baseUrl, name, resolve) in Collect(anchors, AnchorStep(baseUrl, name, resolve)).value
  {
    var step := AnchorStep(baseUrl, name, resolve);
    var jobs := Collect(anchors, step).value;
    CollectThrows(anchors, step);
    CollectSources(anchors, step);
    forall i | 0 <= i < |anchors| && Accepted(anchors[i])
      ensures resolve(anchors[i].href, baseUrl).Some? && PageJob(anchors[i], baseUrl, name, resolve) in jobs
    {
      assert step(anchors[i]) == AnchorJob(anchors[i], baseUrl, name, resolve);
      AnchorYields(anchors[i], baseUrl, name, resolve);
    }
  }

  /** The URLs of a list of postings. */
  function Urls(jobs: seq<JobPosting>): set<string> {
    set j | j in jobs :: j.applyUrl
  }

  /** No two postings share a URL. */
  predicate UrlsDistinct(jobs: seq<JobPosting>) {
    forall i, k :: 0 <= i < k < |jobs| ==> jobs[i].applyUrl != jobs[k].applyUrl
  }

  lemma UrlsSnoc(jobs: seq<JobPosting>, job: JobPosting)
    ensures Urls(jobs + [job]) == Urls(jobs) + {job.applyUrl}
  {
    assert forall j :: j in jobs + [job] <==> j in jobs || j == job;
  }

  /** The filter with the `seen` dictionary: a posting stays when no earlier
      posting has its URL. The result keeps the input order, has no repeated
      URL, and loses no URL. */
  function FirstByUrl(jobs: seq<JobPosting>): (r: seq<JobPosting>)
    ensures Subseq(r, jobs)
    ensures UrlsDistinct(r)
    ensures Urls(r) == Urls(jobs)
    decreases |jobs|
  {
    if jobs == [] then []
    else
      var init := jobs[..|jobs| - 1];
      var last := jobs[|jobs| - 1];
      var kept := FirstByUrl(init);
      assert jobs == init + [last];
      SubseqSnoc(kept, init, last);
      UrlsSnoc(init, last);
      UrlsSnoc(kept, last);
      if last.applyUrl in Urls(init) then kept
      else
        assert forall i :: 0 <= i < |kept| ==> kept[i] in kept;
        kept + [last]
  }

  /** The dedupe of a list extended by one posting: the posting stays exactly
      when its URL is new, and the URL set grows by its URL. */
  lemma FirstByUrlPrefix(jobs: seq<JobPosting>, i: nat)
    requires i < |jobs|
    ensures FirstByUrl(jobs[..i + 1]) ==
      if jobs[i].applyUrl in Urls(jobs[..i]) then FirstByUrl(jobs[..i]) else FirstByUrl(jobs[..i]) + [jobs[i]]
    ensures Urls(jobs[..i + 1]) == Urls(jobs[..i]) + {jobs[i].applyUrl}
  {
    assert jobs[..i + 1][..i] == jobs[..i];
    assert jobs[..i + 1] == jobs[..i] + [jobs[i]];
    UrlsSnoc(jobs[..i], jobs[i]);
  }

  /** Index of the first posting with URL `u`. */
  function FirstUrlIndex(jobs: seq<JobPosting>, u: string): (k: nat)
    requires u in Urls(jobs)
    ensures k < |jobs| && jobs[k].applyUrl == u
    ensures forall m :: 0 <= m < k ==> jobs[m].applyUrl != u
  {
    if jobs[0].applyUrl == u then 0
    else
      assert u in Urls(jobs[1..]) by {
        var j :| j in jobs && j.applyUrl == u;
        assert j in jobs[1..];
      }
      1 + FirstUrlIndex(jobs[1..], u)
  }

  /** Appending a posting does not move the first position of a URL that was
      already present. */
  lemma FirstUrlIndexSnoc(init: seq<JobPosting>, last: JobPosting, u: string)
    requires u in Urls(init)
    ensures u in Urls(init + [last]) && FirstUrlIndex(init + [last], u) == FirstUrlIndex(init, u)
  {
    var jobs := init + [last];
    UrlsSnoc(init, last);
    var k1 := FirstUrlIndex(jobs, u);
    var k2 := FirstUrlIndex(init, u);
    assert jobs[k2] == init[k2];
    assert k1 <= k2;
    assert init[k1] == jobs[k1];
  }

  /** A URL first seen in the appended posting is first found at its position. */
  lemma FirstUrlIndexLast(init: seq<JobPosting>, last: JobPosting)
    requires last.applyUrl !in Urls(init)
    ensures last.applyUrl in Urls(init + [last]) && FirstUrlIndex(init + [last], last.applyUrl) == |init|
  {
    var jobs := init + [last];
    UrlsSnoc(init, last);
    forall m | 0 <= m < |init|
      ensures jobs[m].applyUrl != last.applyUrl
    {
      assert jobs[m] == init[m] && init[m] in init;
    }
  }

  /** Each posting the dedupe keeps is the first one with its URL. */
  lemma {:induction false} FirstByUrlKeepsFirst(jobs: seq<JobPosting>)
    ensures forall i :: 0 <= i < |FirstByUrl(jobs)| ==>
      && FirstByUrl(jobs)[i].applyUrl in Urls(jobs)
      && FirstByUrl(jobs)[i] == jobs[FirstUrlIndex(jobs, FirstByUrl(jobs)[i].applyUrl)]
    decreases |jobs|
  {
    if jobs != [] {
      var init := jobs[..|jobs| - 1];
      var last := jobs[|jobs| - 1];
      FirstByUrlKeepsFirst(init);
      assert jobs == init + [last];
      var kept := FirstByUrl(init);
      forall i | 0 <= i < |kept|
        ensures kept[i].applyUrl in Urls(jobs)
        ensures kept[i] == jobs[FirstUrlIndex(jobs, kept[i].applyUrl)]
      {
        FirstUrlIndexSnoc(init, last, kept[i].applyUrl);
      }
      if last.applyUrl !in Urls(init) {
        FirstUrlIndexLast(init, last);
        assert FirstByUrl(jobs) == kept + [last];
      }
    }
  }

  /** The kept postings come in the order of the first occurrences of their
      URLs. */
  lemma {:induction false} FirstByUrlKeepsOrder(jobs: seq<JobPosting>)
    ensures forall i, k :: 0 <= i < k < |FirstByUrl(jobs)| ==>
      FirstUrlIndex(jobs, FirstByUrl(jobs)[i].applyUrl) < FirstUrlIndex(jobs, FirstByUrl(jobs)[k].applyUrl)
    decreases |jobs|
  {
    if jobs != [] {
      var init := jobs[..|jobs| - 1];
      var last := jobs[|jobs| - 1];
      FirstByUrlKeepsOrder(init);
      assert jobs == init + [last];
      var kept := FirstByUrl(init);
      forall i | 0 <= i < |kept|
        ensures kept[i].applyUrl in Urls(jobs)
        ensures FirstUrlIndex(jobs, kept[i].applyUrl) == FirstUrlIndex(init, kept[i].applyUrl) < |init|
      {
        FirstUrlIndexSnoc(init, last, kept[i].applyUrl);
      }
      if last.applyUrl !in Urls(init) {
        FirstUrlIndexLast(init, last);
        assert FirstByUrl(jobs) == kept + [last];
      }
    }
  }

  /** A list without repeated URLs is left as it is. */
  lemma {:induction false} DistinctUnchanged(jobs: seq<JobPosting>)
    requires UrlsDistinct(jobs)
    ensures FirstByUrl(jobs) == jobs
    decreases |jobs|
  {
    if jobs != [] {
      var init := jobs[..|jobs| - 1];
      var last := jobs[|jobs| - 1];
      DistinctUnchanged(init);
      forall j | j in init
        ensures j.applyUrl != last.applyUrl
      {
        var m :| 0 <= m < |init| && init[m] == j;
        assert jobs[m] == j;
      }
      assert jobs == init + [last];
    }
  }

  /** Removing repeated URLs a second time changes nothing. */
  lemma FirstByUrlIdempotent(jobs: seq<JobPosting>)
    ensures FirstByUrl(FirstByUrl(jobs)) == FirstByUrl(jobs)
  {
    DistinctUnchanged(FirstByUrl(jobs));
  }

  // ---------------------------------------------------------------------
  // Document order and the first anchor per URL
  // ---------------------------------------------------------------------

  /** The anchor is accepted and its href resolves to `u`. */
  predicate LinksTo(a: Anchor, baseUrl: string, resolve: Resolver, u: string) {
    Accepted(a) && resolve(a.href, baseUrl) == Some(u)
  }

  /** Some accepted anchor of the page resolves to `u`. */
  predicate HasAnchorFor(anchors: seq<Anchor>, baseUrl: string, resolve: Resolver, u: string) {
    exists i :: 0 <= i < |anchors| && LinksTo(anchors[i], baseUrl, resolve, u)
  }

  /** `LinksTo` as a test on one anchor. */
  function LinksToUrl(baseUrl: string, resolve: Resolver, u: string): Anchor -> bool {
    a => LinksTo(a, baseUrl, resolve, u)
  }

  /** The position, in document order, of the first accepted anchor that
      resolves to `u`. */
  function FirstAnchorWithUrl(anchors: seq<Anchor>, baseUrl: string, resolve: Resolver, u: string): (m: nat)
    requires HasAnchorFor(anchors, baseUrl, resolve, u)
    ensures m < |anchors| && LinksTo(anchors[m], baseUrl, resolve, u)
    ensures forall i | 0 <= i < m :: !LinksTo(anchors[i], baseUrl, resolve, u)
  {
    var test := LinksToUrl(baseUrl, resolve, u);
    assert forall i | 0 <= i < |anchors| :: test(anchors[i]) == LinksTo(anchors[i], baseUrl, resolve, u);
    FirstWhere(anchors, test)
  }

  /** An anchor before the one that pushed the p-th posting, which no earlier
      posting shares a URL with, does not resolve to that URL: had it been
      accepted and resolved there, it would have pushed an earlier posting
      with that URL. */
  lemma NoEarlierAnchor(anchors: seq<Anchor>, baseUrl: string, name: string, resolve: Resolver, idx: seq<nat>, p: nat, i: nat)
    requires Collect(anchors, AnchorStep(baseUrl, name, resolve)).Normal?
    requires PushedFrom(anchors, AnchorStep(baseUrl, name, resolve), Collect(anchors, AnchorStep(baseUrl, name, resolve)).value, idx)
    requires p < |idx| && i < idx[p]
    requires var jobs := Collect(anchors, AnchorStep(baseUrl, name, resolve)).value;
      forall q | 0 <= q < p :: jobs[q].applyUrl != jobs[p].applyUrl
    ensures !LinksTo(anchors[i], baseUrl, resolve, Collect(anchors, AnchorStep(baseUrl, name, resolve)).value[p].applyUrl)
  {
    var step := AnchorStep(baseUrl, name, resolve);
    var jobs := Collect(anchors, step).value;
    PushedBefore(anchors, step, jobs, idx, p, i);
    assert step(anchors[i]) == AnchorJob(anchors[i], baseUrl, name, resolve);
    LinksToPushes(anchors[i], baseUrl, name, resolve, jobs[p].applyUrl);
  }

  /** An anchor that links to `u` pushes its posting, whose URL is `u`. */
  lemma LinksToPushes(a: Anchor, baseUrl: string, name: string, resolve: Resolver, u: string)
    ensures LinksTo(a, baseUrl, resolve, u) ==>
      && AnchorJob(a, baseUrl, name, resolve) == Normal(Some(PageJob(a, baseUrl, name, resolve)))
      && PageJob(a, baseUrl, name, resolve).applyUrl == u
  {
    AnchorYields(a, baseUrl, name, resolve);
  }

  /** Each of `jobs` is the posting of the first accepted anchor of the page
      that resolves to its URL, and those anchors come in document order. */
  predicate FirstAnchorsInOrder(jobs: seq<JobPosting>, anchors: seq<Anchor>, baseUrl: string, name: string, resolve: Resolver) {
    && (forall k | 0 <= k < |jobs| ::
          && HasAnchorFor(anchors, baseUrl, resolve, jobs[k].applyUrl)
          && jobs[k] == PageJob(anchors[FirstAnchorWithUrl(anchors, baseUrl, resolve, jobs[k].applyUrl)], baseUrl, name, resolve))
    && (forall k, l | 0 <= k < l < |jobs| ::
          FirstAnchorWithUrl(anchors, baseUrl, resolve, jobs[k].applyUrl)
            < FirstAnchorWithUrl(anchors, baseUrl, resolve, jobs[l].applyUrl))
  }

  /** A collected posting whose URL no earlier collected posting has is the
      posting of the first accepted anchor resolving to that URL, and that
      anchor is the one that pushed it. */
  lemma FirstPushedAnchor(anchors: seq<Anchor>, baseUrl: string, name: string, resolve: Resolver, idx: seq<nat>, p: nat)
    requires Collect(anchors, AnchorStep(baseUrl, name, resolve)).Normal?
    requires PushedFrom(anchors, AnchorStep(baseUrl, name, resolve), Collect(anchors, AnchorStep(baseUrl, name, resolve)).value, idx)
    requires p < |Collect(anchors, AnchorStep(baseUrl, name, resolve)).value|
    requires var jobs := Collect(anchors, AnchorStep(baseUrl, name, resolve)).value;
      forall q | 0 <= q < p :: jobs[q].applyUrl != jobs[p].applyUrl
    ensures var jobs := Collect(anchors, AnchorStep(baseUrl, name, resolve)).value;
      && HasAnchorFor(anchors, baseUrl, resolve, jobs[p].applyUrl)
      && FirstAnchorWithUrl(anchors, baseUrl, resolve, jobs[p].applyUrl) == idx[p]
      && jobs[p] == PageJob(anchors[idx[p]], baseUrl, name, resolve)
  {
    var step := AnchorStep(baseUrl, name, resolve);
    var jobs := Collect(anchors, step).value;
    var u := jobs[p].applyUrl;
    assert step(anchors[idx[p]]) == AnchorJob(anchors[idx[p]], baseUrl, name, resolve);
    AnchorYields(anchors[idx[p]], baseUrl, name, resolve);
    assert LinksTo(anchors[idx[p]], baseUrl, resolve, u);
    forall i | 0 <= i < idx[p]
      ensures !LinksTo(anchors[i], baseUrl, resolve, u)
    {
      NoEarlierAnchor(anchors, baseUrl, name, resolve, idx, p, i);
    }
  }

  /** The deduplicated postings of a page follow document order, and each is
      the posting of the first accepted anchor resolving to its URL. */
  lemma DedupedPageOrder(anchors: seq<Anchor>, baseUrl: string, name: string, resolve: Resolver)
    requires Collect(anchors, AnchorStep(baseUrl, name, resolve)).Normal?
    ensures FirstAnchorsInOrder(FirstByUrl(Collect(anchors, AnchorStep(baseUrl, name, resolve)).value), anchors, baseUrl, name, resolve)
  {
    var step := AnchorStep(baseUrl, name, resolve);
    var jobs := Collect(anchors, step).value;
    var r := FirstByUrl(jobs);
    var idx := CollectIndexed(anchors, step);
    FirstByUrlKeepsFirst(jobs);
    FirstByUrlKeepsOrder(jobs);
    forall k | 0 <= k < |r|
      ensures HasAnchorFor(anchors, baseUrl, resolve, r[k].applyUrl)
      ensures FirstAnchorWithUrl(anchors, baseUrl, resolve, r[k].applyUrl) == idx[FirstUrlIndex(jobs, r[k].applyUrl)]
      ensures r[k] == PageJob(anchors[FirstAnchorWithUrl(anchors, baseUrl, resolve, r[k].applyUrl)], baseUrl, name, resolve)
    {
      FirstPushedAnchor(anchors, baseUrl, name, resolve, idx, FirstUrlIndex(jobs, r[k].applyUrl));
    }
  }

  // ---------------------------------------------------------------------
  // parseGeneric and getHtmlJobs
  // ---------------------------------------------------------------------

  /** No accepted anchor has an href the URL constructor rejects. */
  predicate Resolves(anchors: seq<Anchor>, baseUrl: string, resolve: Resolver) {
    forall i | 0 <= i < |anchors| :: !Unresolved(anchors[i], baseUrl, resolve)
  }

  /** The parse throws exactly when an accepted anchor's href does not
      resolve. */
  lemma ThrowsIffUnresolved(anchors: seq<Anchor>, baseUrl: string, name: string, resolve: Resolver)
    ensures (exists i :: 0 <= i < |anchors| && AnchorJob(anchors[i], baseUrl, name, resolve) == Throw)
        <==> !Resolves(anchors, baseUrl, resolve)
  {
    if !Resolves(anchors, baseUrl, resolve) {
      var i :| 0 <= i < |anchors| && Unresolved(anchors[i], baseUrl, resolve);
      assert AnchorJob(anchors[i], baseUrl, name, resolve) == Throw;
    }
  }

  /** What `parseGeneric` returns, or Throw when it throws. It throws exactly
      when some accepted anchor's href does not resolve; otherwise each
      posting it returns is the posting of the first accepted anchor that
      resolves to its URL, the postings follow the document order of those
      anchors, every accepted anchor's URL is among them, and no URL
      repeats. */
  function GenericJobs(anchors: seq<Anchor>, baseUrl: string, name: string, resolve: Resolver): (r: Completion<seq<JobPosting>>)
    ensures r == Throw <==> !Resolves(anchors, baseUrl, resolve)
    ensures r.Normal? ==> UrlsDistinct(r.value)
    ensures r.Normal? ==> forall j | j in r.value ::
      j.company == name && Normalized(j) && FromAnchor(j, anchors, baseUrl, name, resolve)
    ensures r.Normal? ==> forall i | 0 <= i < |anchors| && Accepted(anchors[i]) ::
      resolve(anchors[i].href, baseUrl).Some? && PageJob(anchors[i], baseUrl, name, resolve).applyUrl in Urls(r.value)
    ensures r.Normal? ==> FirstAnchorsInOrder(r.value, anchors, baseUrl, name, resolve)
  {
    var step := AnchorStep(baseUrl, name, resolve);
    CollectThrows(anchors, step);
    ThrowsIffUnresolved(anchors, baseUrl, name, resolve);
    match Collect(anchors, step)
    case Throw => Throw
    case Normal(jobs) =>
      CollectedJobsValid(anchors, baseUrl, name, resolve);
      CollectedJobsComplete(anchors, baseUrl, name, resolve);
      DedupedPageOrder(anchors, baseUrl, name, resolve);
      SubseqMembers(FirstByUrl(jobs), jobs);
      Normal(FirstByUrl(jobs))
  }

  /** First seen wins: the posting of an accepted anchor that no earlier
      accepted anchor shares a resolved URL with is in the result. */
  lemma FirstAnchorWins(anchors: seq<Anchor>, baseUrl: string, name: string, resolve: Resolver, i: nat)
    requires GenericJobs(anchors, baseUrl, name, resolve).Normal?
    requires i < |anchors| && Accepted(anchors[i]) && resolve(anchors[i].href, baseUrl).Some?
    requires forall h | 0 <= h < i :: !LinksTo(anchors[h], baseUrl, resolve, resolve(anchors[i].href, baseUrl).value)
    ensures PageJob(anchors[i], baseUrl, name, resolve) in GenericJobs(anchors, baseUrl, name, resolve).value
  {
    var r := GenericJobs(anchors, baseUrl, name, resolve).value;
    FirstInOrderPresent(r, anchors, baseUrl, name, resolve, i);
  }

  /** In a list of first-anchor postings that holds the URL of an anchor with
      no earlier anchor resolving to that URL, that anchor's posting is
      present. */
  lemma FirstInOrderPresent(jobs: seq<JobPosting>, anchors: seq<Anchor>, baseUrl: string, name: string, resolve: Resolver, i: nat)
    requires FirstAnchorsInOrder(jobs, anchors, baseUrl, name, resolve)
    requires i < |anchors| && Accepted(anchors[i]) && resolve(anchors[i].href, baseUrl).Some?
    requires PageJob(anchors[i], baseUrl, name, resolve).applyUrl in Urls(jobs)
    requires forall h | 0 <= h < i :: !LinksTo(anchors[h], baseUrl, resolve, resolve(anchors[i].href, baseUrl).value)
    ensures PageJob(anchors[i], baseUrl, name, resolve) in jobs
  {
    var u := resolve(anchors[i].href, baseUrl).value;
    var j :| j in jobs && j.applyUrl == u;
    var k :| 0 <= k < |jobs| && jobs[k] == j;
    assert LinksTo(anchors[i], baseUrl, resolve, u);
    assert FirstAnchorWithUrl(anchors, baseUrl, resolve, u) == i;
  }

  /** `parseGeneric(html, baseUrl, name)`: one pass over the anchors pushing
      postings, which a throwing callback ends, then one pass dropping every
      posting whose URL the `seen` dictionary already holds. */
  method ParseGeneric(anchors: seq<Anchor>, baseUrl: string, name: string, resolve: Resolver)
    returns (r: Completion<seq<JobPosting>>)
    ensures r == GenericJobs(anchors, baseUrl, name, resolve)
  {
    var collected := CollectAnchors(anchors, baseUrl, name, resolve);
    if collected.Throw? {
      return Throw;
    }
    var kept := DedupeByUrl(collected.value);
    r := Normal(kept);
    GenericJobsOf(anchors, baseUrl, name, resolve, collected.value);
  }

  /** The first pass of `parseGeneric`: the `each` callback on every anchor in
      document order, pushing onto `jobs`, until an href fails to resolve. */
  method CollectAnchors(anchors: seq<Anchor>, baseUrl: string, name: string, resolve: Resolver)
    returns (r: Completion<seq<JobPosting>>)
    ensures r == Collect(anchors, AnchorStep(baseUrl, name, resolve))
  {
    var jobs: seq<JobPosting> := [];
    ghost var step := AnchorStep(baseUrl, name, resolve);
    for i := 0 to |anchors|
      invariant Collect(anchors[..i], step) == Normal(jobs)
    {
      CollectPrefixStep(anchors, i, step, jobs);
      var a := anchors[i];
      ghost var outcome := AnchorJob(a, baseUrl, name, resolve);
      assert step(a) == outcome;
      var snippet := Trim(a.text);
      var context := a.context;
      if snippet == "" {
        assert outcome == Normal(None);
        continue;
      }
      if InRegion(snippet + context) {
        var link := resolve(a.href, baseUrl);
        if link.None? {
          assert step(anchors[i]) == Throw;
          CollectThrows(anchors, step);
          return Throw;
        }
        var parts := Split(snippet, EnDash);
        var job := JobPosting(name, Trim(parts[0]), Trim(if |parts| > 1 then parts[1] else ""), link.value);
        assert outcome == Normal(Some(job));
        jobs := jobs + [job];
      } else {
        assert outcome == Normal(None);
      }
    }
    assert anchors[..|anchors|] == anchors;
    r := Normal(jobs);
  }

  /** `GenericJobs` throws once one accepted anchor's href does not resolve. */
  lemma GenericJobsThrow(anchors: seq<Anchor>, i: nat, baseUrl: string, name: string, resolve: Resolver)
    requires i < |anchors| && Unresolved(anchors[i], baseUrl, resolve)
    ensures GenericJobs(anchors, baseUrl, name, resolve) == Throw
  {
  }

  /** `GenericJobs` once the anchor loop is known to have finished. */
  lemma GenericJobsOf(anchors: seq<Anchor>, baseUrl: string, name: string, resolve: Resolver, jobs: seq<JobPosting>)
    requires Collect(anchors, AnchorStep(baseUrl, name, resolve)) == Normal(jobs)
    ensures GenericJobs(anchors, baseUrl, name, resolve) == Normal(FirstByUrl(jobs))
  {
  }

  /** The second pass of `parseGeneric`: the filter that keeps a posting only
      when the `seen` dictionary does not yet hold its URL, and then records
      the URL there. */
  method DedupeByUrl(jobs: seq<JobPosting>) returns (kept: seq<JobPosting>)
    ensures kept == FirstByUrl(jobs)
  {
    var seen: map<string, bool> := map[];
    kept := [];
    for i := 0 to |jobs|
      invariant kept == FirstByUrl(jobs[..i])
      invariant seen.Keys == Urls(jobs[..i])
      invariant forall u :: u in seen ==> seen[u]
    {
      var job := jobs[i];
      FirstByUrlPrefix(jobs, i);
      if job.applyUrl in seen && seen[job.applyUrl] {
        continue;
      }
      seen := seen[job.applyUrl := true];
      kept := kept + [job];
    }
    assert jobs[..|jobs|] == jobs;
  }

  /** `getHtmlJobs(name, url)` given the response to its request: the
      postings of the page, or the empty list when the request fails or
      `parseGeneric` throws. Every posting returned is that of the first
      accepted anchor of the fetched page resolving to its URL, in document
      order, and when the parse succeeds every accepted anchor's URL is among
      them. */
  function HtmlJobs(name: string, url: string, response: Fetched<seq<Anchor>>, resolve: Resolver): (r: seq<JobPosting>)
    ensures response.Err? ==> r == []
    ensures response.Ok? && !Resolves(response.data, url, resolve) ==> r == []
    ensures response.Ok? && Resolves(response.data, url, resolve) ==>
      forall i | 0 <= i < |response.data| && Accepted(response.data[i]) ::
        resolve(response.data[i].href, url).Some? && PageJob(response.data[i], url, name, resolve).applyUrl in Urls(r)
    ensures response.Ok? ==> FirstAnchorsInOrder(r, response.data, url, name, resolve)
    ensures UrlsDistinct(r)
    ensures forall j | j in r ::
      j.company == name && Normalized(j) && response.Ok? && FromAnchor(j, response.data, url, name, resolve)
  {
    match response
    case Err => []
    case Ok(anchors) =>
      match GenericJobs(anchors, url, name, resolve)
      case Throw => []
      case Normal(jobs) => jobs
  }

  /** `getHtmlJobs(name, url)`: fetch the page with `fetch`, parse it, and
      absorb every failure. */
  method GetHtmlJobs(name: string, url: string, fetch: string -> Fetched<seq<Anchor>>, resolve: Resolver)
    returns (jobs: seq<JobPosting>)
    ensures jobs == HtmlJobs(name, url, fetch(url), resolve)
  {
    var response := fetch(url);
    if response.Err? {
      return [];
    }
    var parsed := ParseGeneric(response.data, url, name, resolve);
    if parsed.Throw? {
      return [];
    }
    jobs := parsed.value;
  }
}
