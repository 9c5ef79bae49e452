/** The record every adapter produces, and the pieces of input shared by the
    adapters. */
module Jobs {
  import opened JsString

  /** The one region token the filters look for, in lower case. */
  const Region: string := "canada"

  /** A property of a decoded JSON object as the adapters read it: absent
      (undefined or null), a string, or some other JSON value. */
  datatype Field = Missing | Text(s: string) | NonText

  /** The outcome of one `axios.get`: the decoded body, or a failure (transport
      error, timeout, non-2xx status). */
  datatype Fetched<+T> = Ok(data: T) | Err

  /** One posting as the endpoint returns it: `{company, title, location,
      apply_url}`. */
  datatype JobPosting = JobPosting(company: string, title: string, location: string, applyUrl: string)

  /** The case-insensitive region test `s.toLowerCase().includes("canada")`. */
  predicate InRegion(s: string) {
    Contains(Lower(s), Region)
  }

  /** Title and location carry no whitespace at their ends. */
  predicate Normalized(j: JobPosting) {
    Trimmed(j.title) && Trimmed(j.location)
  }

  /** Trimming a location cannot remove the region token. */
  lemma RegionSurvivesTrim(s: string)
    ensures InRegion(s) ==> InRegion(Trim(s))
  {
    if InRegion(s) {
      TrimKeepsMatch(s, Region);
    }
  }
}
