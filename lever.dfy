/** The Lever adapter `getLeverJobs`: a filter/map chain over the postings
    array inside a try/catch that turns every failure into an empty list. */
module Lever {
  import opened Outcomes
  import opened JsString
  import opened JsArray
  import opened Jobs

  /** One element of the postings array. `location` is the value of
      `categories?.location`: Missing when either `categories` or its
      `location` is absent or null, or when `categories` is not an object.
      A primitive element other than null reads as a posting with every
      field Missing. */
  datatype Posting = NullPosting | Posting(text: Field, location: Field, applyUrl: string)

  /** The decoded response body: an array of postings, or anything else. */
  datatype PostingsBody = Postings(posts: seq<Posting>) | NotAnArray

  /** The request URL for a company's Lever slug. */
  function PostingsUrl(slug: string): string {
    "https://api.lever.co/v0/postings/" + slug + "?limit=200"
  }

  /** Distinct slugs are sent to distinct URLs. */
  lemma PostingsUrlInjective(a: string, b: string)
    ensures PostingsUrl(a) == PostingsUrl(b) ==> a == b
  {
    if PostingsUrl(a) == PostingsUrl(b) {
      var head := "https://api.lever.co/v0/postings/";
      assert a == PostingsUrl(a)[|head|..|PostingsUrl(a)| - 10];
      assert b == PostingsUrl(b)[|head|..|PostingsUrl(b)| - 10];
    }
  }

  /** The filter callback `post.categories?.location?.toLowerCase().includes("canada")`:
      reading a property of null throws, an absent location yields undefined
      (falsy), and a location that is not a string has no toLowerCase. */
  function IsCanadian(p: Posting): (r: Completion<bool>)
    ensures r == Throw <==> p.NullPosting? || p.location.NonText?
    ensures r == Normal(true) <==> Canadian(p)
  {
    match p
    case NullPosting => Throw
    case Posting(_, location, _) =>
      match location
      case Missing => Normal(false)
      case Text(s) => Normal(InRegion(s))
      case NonText => Throw
  }

  /** The map callback: `text.trim()` and `categories.location.trim()` throw
      unless both are strings. */
  function PostingJob(name: string, p: Posting): (r: Completion<JobPosting>)
    ensures r.Normal? <==> p.Posting? && p.text.Text? && p.location.Text?
    ensures r.Normal? ==> r.value.company == name && Normalized(r.value) && r.value.applyUrl == p.applyUrl
    ensures r.Normal? && Canadian(p) ==> InRegion(r.value.location)
  {
    match p
    case NullPosting => Throw
    case Posting(text, location, applyUrl) =>
      if text.Text? && location.Text? then
        RegionSurvivesTrim(location.s);
        Normal(JobPosting(name, Trim(text.s), Trim(location.s), applyUrl))
      else Throw
  }

  /** The map callback for the company `name`. */
  function ToJob(name: string): Posting -> Completion<JobPosting> {
    p => PostingJob(name, p)
  }

  /** A posting whose location is a string naming the region. */
  predicate Canadian(p: Posting) {
    p.Posting? && p.location.Text? && InRegion(p.location.s)
  }

  /** A posting that makes the chain throw: null, a location that is not a
      string, or a Canadian posting whose text is not a string. */
  predicate Malformed(p: Posting) {
    || p.NullPosting?
    || p.location.NonText?
    || (Canadian(p) && !p.text.Text?)
  }

  /** `getLeverJobs(name, slug)` given the response to its request. A failed
      request or a body that is not an array yields the empty list; otherwise
      there is at most one posting per input element, each attributed to
      `name`, trimmed, and located in Canada. */
  function LeverJobs(name: string, response: Fetched<PostingsBody>): (r: seq<JobPosting>)
    ensures response.Err? || response.data.NotAnArray? ==> r == []
    ensures response.Ok? && response.data.Postings? ==> |r| <= |response.data.posts|
    ensures forall j :: j in r ==> j.company == name && Normalized(j) && InRegion(j.location)
  {
    match response
    case Err => []
    case Ok(NotAnArray) => []
    case Ok(Postings(posts)) =>
      match Filter(posts, IsCanadian)
      case Throw => []
      case Normal(kept) =>
        match Map(kept, ToJob(name))
        case Throw => []
        case Normal(jobs) =>
          SubseqLength(kept, posts);
          MappedJobsValid(name, kept, jobs);
          jobs
  }

  /** Postings accepted by the filter map to jobs of `name` that are trimmed
      and whose location still names the region. */
  lemma MappedJobsValid(name: string, kept: seq<Posting>, jobs: seq<JobPosting>)
    requires forall p :: p in kept ==> IsCanadian(p) == Normal(true)
    requires |jobs| == |kept| && forall i :: 0 <= i < |kept| ==> ToJob(name)(kept[i]) == Normal(jobs[i])
    ensures forall j :: j in jobs ==> j.company == name && Normalized(j) && InRegion(j.location)
  {
    forall i | 0 <= i < |jobs|
      ensures jobs[i].company == name && Normalized(jobs[i]) && InRegion(jobs[i].location)
    {
      assert kept[i] in kept;
      RegionSurvivesTrim(kept[i].location.s);
    }
  }

  /** One malformed posting anywhere in the array empties the whole result. */
  lemma MalformedPostingEmpties(name: string, posts: seq<Posting>, i: int)
    requires 0 <= i < |posts| && Malformed(posts[i])
    ensures LeverJobs(name, Ok(Postings(posts))) == []
  {
    var p := posts[i];
    var filtered := Filter(posts, IsCanadian);
    if filtered.Normal? {
      assert IsCanadian(p) == Normal(true);
      assert p in filtered.value;
      assert !ToJob(name)(p).Normal?;
    }
  }

  /** The postings the filter keeps are those whose location names the
      region; when none is malformed, the filter does not throw. */
  lemma FilterKeepsCanadian(posts: seq<Posting>)
    requires forall i :: 0 <= i < |posts| ==> !Malformed(posts[i])
    ensures Filter(posts, IsCanadian).Normal?
    ensures forall i :: 0 <= i < |posts| ==>
      (posts[i] in Filter(posts, IsCanadian).value <==> Canadian(posts[i]))
  {
    assert forall i :: 0 <= i < |posts| ==> IsCanadian(posts[i]).Normal?;
  }

  /** Kept postings of a well-formed array all map without throwing. */
  lemma KeptMapNormally(name: string, kept: seq<Posting>, posts: seq<Posting>)
    requires forall i :: 0 <= i < |posts| ==> !Malformed(posts[i])
    requires forall p :: p in kept ==> p in posts && IsCanadian(p) == Normal(true)
    ensures forall i :: 0 <= i < |kept| ==> ToJob(name)(kept[i]).Normal?
  {
    forall i | 0 <= i < |kept|
      ensures ToJob(name)(kept[i]).Normal?
    {
      var p := kept[i];
      assert p in kept;
      var k :| 0 <= k < |posts| && posts[k] == p;
      assert !Malformed(posts[k]);
    }
  }

  /** Without malformed postings the result lists, in input order, one job
      per posting whose location names the region, and no other. `kept` is
      that order-preserving selection. */
  lemma LeverSelection(name: string, posts: seq<Posting>) returns (kept: seq<Posting>)
    requires forall i :: 0 <= i < |posts| ==> !Malformed(posts[i])
    ensures Subseq(kept, posts)
    ensures forall i :: 0 <= i < |posts| ==>
      (posts[i] in kept <==> Canadian(posts[i]))
    ensures forall p | p in posts :: multiset(kept)[p] == if Canadian(p) then multiset(posts)[p] else 0
    ensures var r := LeverJobs(name, Ok(Postings(posts)));
      && |r| == |kept|
      && forall i :: 0 <= i < |kept| ==>
           && kept[i].Posting? && kept[i].text.Text? && kept[i].location.Text?
           && r[i] == JobPosting(name, Trim(kept[i].text.s), Trim(kept[i].location.s), kept[i].applyUrl)
  {
    FilterKeepsCanadian(posts);
    kept := Filter(posts, IsCanadian).value;
    SubseqMembers(kept, posts);
    FilterCounts(posts, IsCanadian);
    KeptMapNormally(name, kept, posts);
    var jobs := Map(kept, ToJob(name)).value;
    assert LeverJobs(name, Ok(Postings(posts))) == jobs;
    forall i | 0 <= i < |kept|
      ensures && kept[i].Posting? && kept[i].text.Text? && kept[i].location.Text?
              && jobs[i] == JobPosting(name, Trim(kept[i].text.s), Trim(kept[i].location.s), kept[i].applyUrl)
    {
      assert ToJob(name)(kept[i]) == Normal(jobs[i]);
    }
  }
}
