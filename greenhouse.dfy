/** The Greenhouse adapter `getGreenhouseJobs`: a filter/map chain over the
    `jobs` array of the board inside a try/catch that turns every failure
    into an empty list. */
module Greenhouse {
  import opened Outcomes
  import opened JsString
  import opened JsArray
  import opened Jobs

  /** One element of the board's `jobs` array. `locationName` is the value
      of `location.name`; a job that is null, not an object, or has no
      `location` object reads as one whose `locationName` is Missing, since
      all of these make the filter callback throw alike. */
  datatype BoardJob = BoardJob(title: Field, locationName: Field, absoluteUrl: string)

  /** The decoded response body: an object with a `jobs` array, or anything
      else (null, no `jobs`, `jobs` not an array). */
  datatype BoardBody = Board(jobs: seq<BoardJob>) | NoJobsArray

  /** The request URL for a company's Greenhouse slug. */
  function BoardUrl(slug: string): string {
    "https://boards-api.greenhouse.io/v1/boards/" + slug + "/jobs"
  }

  /** Distinct slugs are sent to distinct URLs. */
  lemma BoardUrlInjective(a: string, b: string)
    ensures BoardUrl(a) == BoardUrl(b) ==> a == b
  {
    if BoardUrl(a) == BoardUrl(b) {
      var head := "https://boards-api.greenhouse.io/v1/boards/";
      assert a == BoardUrl(a)[|head|..|BoardUrl(a)| - 5];
      assert b == BoardUrl(b)[|head|..|BoardUrl(b)| - 5];
    }
  }

  /** The filter callback `job.location.name.toLowerCase().includes("canada")`:
      no optional chaining, so anything but a string name throws. */
  function LocatedInCanada(job: BoardJob): (r: Completion<bool>)
    ensures r == Throw <==> !job.locationName.Text?
    ensures r == Normal(true) <==> Canadian(job)
  {
    if job.locationName.Text? then Normal(InRegion(job.locationName.s)) else Throw
  }

  /** The map callback: `title.trim()` and `location.name.trim()` throw unless
      both are strings. */
  function BoardJobPosting(name: string, job: BoardJob): (r: Completion<JobPosting>)
    ensures r.Normal? <==> job.title.Text? && job.locationName.Text?
    ensures r.Normal? ==> r.value.company == name && Normalized(r.value) && r.value.applyUrl == job.absoluteUrl
    ensures r.Normal? && Canadian(job) ==> InRegion(r.value.location)
  {
    if job.title.Text? && job.locationName.Text? then
      RegionSurvivesTrim(job.locationName.s);
      Normal(JobPosting(name, Trim(job.title.s), Trim(job.locationName.s), job.absoluteUrl))
    else Throw
  }

  /** The map callback for the company `name`. */
  function ToPosting(name: string): BoardJob -> Completion<JobPosting> {
    job => BoardJobPosting(name, job)
  }

  /** A job whose location name is a string naming the region. */
  predicate Canadian(job: BoardJob) {
    job.locationName.Text? && InRegion(job.locationName.s)
  }

  /** A job that makes the chain throw: its location name is not a string
      (unlike Lever, an absent location is an error here), or it is Canadian
      and its title is not a string. */
  predicate Malformed(job: BoardJob) {
    !job.locationName.Text? || (Canadian(job) && !job.title.Text?)
  }

  /** `getGreenhouseJobs(name, slug)` given the response to its request. A
      failed request or a body without a jobs array yields the empty list;
      otherwise there is at most one posting per job, each attributed to
      `name`, trimmed, and located in Canada. */
  function GreenhouseJobs(name: string, response: Fetched<BoardBody>): (r: seq<JobPosting>)
    ensures response.Err? || response.data.NoJobsArray? ==> r == []
    ensures response.Ok? && response.data.Board? ==> |r| <= |response.data.jobs|
    ensures forall j :: j in r ==> j.company == name && Normalized(j) && InRegion(j.location)
  {
    match response
    case Err => []
    case Ok(NoJobsArray) => []
    case Ok(Board(jobs)) =>
      match Filter(jobs, LocatedInCanada)
      case Throw => []
      case Normal(kept) =>
        match Map(kept, ToPosting(name))
        case Throw => []
        case Normal(postings) =>
          SubseqLength(kept, jobs);
          MappedPostingsValid(name, kept, postings);
          postings
  }

  /** Jobs accepted by the filter map to postings of `name` that are trimmed
      and whose location still names the region. */
  lemma MappedPostingsValid(name: string, kept: seq<BoardJob>, postings: seq<JobPosting>)
    requires forall job :: job in kept ==> LocatedInCanada(job) == Normal(true)
    requires |postings| == |kept| && forall i :: 0 <= i < |kept| ==> ToPosting(name)(kept[i]) == Normal(postings[i])
    ensures forall j :: j in postings ==> j.company == name && Normalized(j) && InRegion(j.location)
  {
    forall i | 0 <= i < |postings|
      ensures postings[i].company == name && Normalized(postings[i]) && InRegion(postings[i].location)
    {
      assert kept[i] in kept;
      RegionSurvivesTrim(kept[i].locationName.s);
    }
  }

  /** One malformed job anywhere on the board empties the whole result. */
  lemma MalformedJobEmpties(name: string, jobs: seq<BoardJob>, i: int)
    requires 0 <= i < |jobs| && Malformed(jobs[i])
    ensures GreenhouseJobs(name, Ok(Board(jobs))) == []
  {
    var job := jobs[i];
    var filtered := Filter(jobs, LocatedInCanada);
    if filtered.Normal? {
      assert LocatedInCanada(job) == Normal(true);
      assert job in filtered.value;
      assert !ToPosting(name)(job).Normal?;
    }
  }

  /** The jobs the filter keeps are the Canadian ones; when none is
      malformed, the filter does not throw. */
  lemma FilterKeepsCanadian(jobs: seq<BoardJob>)
    requires forall i :: 0 <= i < |jobs| ==> !Malformed(jobs[i])
    ensures Filter(jobs, LocatedInCanada).Normal?
    ensures forall i :: 0 <= i < |jobs| ==>
      (jobs[i] in Filter(jobs, LocatedInCanada).value <==> Canadian(jobs[i]))
  {
    assert forall i :: 0 <= i < |jobs| ==> LocatedInCanada(jobs[i]).Normal?;
  }

  /** Kept jobs of a well-formed board all map without throwing. */
  lemma KeptMapNormally(name: string, kept: seq<BoardJob>, jobs: seq<BoardJob>)
    requires forall i :: 0 <= i < |jobs| ==> !Malformed(jobs[i])
    requires forall job :: job in kept ==> job in jobs && LocatedInCanada(job) == Normal(true)
    ensures forall i :: 0 <= i < |kept| ==> ToPosting(name)(kept[i]).Normal?
  {
    forall i | 0 <= i < |kept|
      ensures ToPosting(name)(kept[i]).Normal?
    {
      var job := kept[i];
      assert job in kept;
      var k :| 0 <= k < |jobs| && jobs[k] == job;
      assert !Malformed(jobs[k]);
    }
  }

  /** Without malformed jobs the result lists, in board order, one posting per
      Canadian job, and no other. `kept` is that order-preserving selection. */
  lemma GreenhouseSelection(name: string, jobs: seq<BoardJob>) returns (kept: seq<BoardJob>)
    requires forall i :: 0 <= i < |jobs| ==> !Malformed(jobs[i])
    ensures Subseq(kept, jobs)
    ensures forall i :: 0 <= i < |jobs| ==> (jobs[i] in kept <==> Canadian(jobs[i]))
    ensures forall job | job in jobs :: multiset(kept)[job] == if Canadian(job) then multiset(jobs)[job] else 0
    ensures var r := GreenhouseJobs(name, Ok(Board(jobs)));
      && |r| == |kept|
      && forall i :: 0 <= i < |kept| ==>
           && kept[i].title.Text? && kept[i].locationName.Text?
           && r[i] == JobPosting(name, Trim(kept[i].title.s), Trim(kept[i].locationName.s), kept[i].absoluteUrl)
  {
    FilterKeepsCanadian(jobs);
    kept := Filter(jobs, LocatedInCanada).value;
    SubseqMembers(kept, jobs);
    FilterCounts(jobs, LocatedInCanada);
    KeptMapNormally(name, kept, jobs);
    var postings := Map(kept, ToPosting(name)).value;
    assert GreenhouseJobs(name, Ok(Board(jobs))) == postings;
    forall i | 0 <= i < |kept|
      ensures && kept[i].title.Text? && kept[i].locationName.Text?
              && postings[i] == JobPosting(name, Trim(kept[i].title.s), Trim(kept[i].locationName.s), kept[i].absoluteUrl)
    {
      assert ToPosting(name)(kept[i]) == Normal(postings[i]);
    }
  }
}
