/** The Lever adapter on a one-posting array: what trimming does to padded fields. */
module Scenarios {
  import opened Outcomes
  import opened JsString
  import opened JsArray
  import opened Jobs
  import opened Lever

  /** A filter over one element the callback accepts keeps that element. */
  lemma FilterOne<T>(x: T, keep: T -> Completion<bool>)
    requires keep(x) == Normal(true)
    ensures Filter([x], keep) == Normal([x])
  {
    var xs := [x];
    assert xs[0] == x && xs[1..] == [];
    assert Filter(xs[1..], keep) == Normal([]);
    assert Filter(xs, keep) == Normal([x] + []);
    assert [x] + [] == [x];
  }

  /** A map over one element yields the callback's value. */
  lemma MapOne<T, U>(x: T, f: T -> Completion<U>, y: U)
    requires f(x) == Normal(y)
    ensures Map([x], f) == Normal([y])
  {
    var xs := [x];
    assert xs[0] == x && xs[1..] == [];
    assert Map(xs[1..], f) == Normal([]);
    assert Map(xs, f) == Normal([y] + []);
    assert [y] + [] == [y];
  }

  /** Padding a string with spaces keeps the region in it. */
  lemma RegionSurvivesPadding(s: string)
    requires InRegion(s)
    ensures InRegion([' '] + s + [' '])
  {
    var padded := [' '] + s + [' '];
    var i :| 0 <= i <= |Lower(s)| - |Region| && OccursAt(Lower(s), Region, i);
    assert padded[1..|s| + 1] == s;
    LowerSlice(padded, 1, |s| + 1);
    OccursInWhole(Lower(padded), Region, i, 1, |s| + 1);
  }

  /** An occurrence in a slice is an occurrence in the whole, shifted. */
  lemma OccursInWhole(hay: string, needle: string, i: int, lo: nat, hi: nat)
    requires lo <= hi <= |hay| && OccursAt(hay[lo..hi], needle, i)
    ensures OccursAt(hay, needle, i + lo)
  {
    var n := |needle|;
    var inner := hay[lo..hi][i..i + n];
    assert inner == needle;
    forall k | 0 <= k < n
      ensures hay[i + lo..i + lo + n][k] == needle[k]
    {
      assert inner[k] == hay[lo + i + k];
    }
    assert hay[i + lo..i + lo + n] == needle;
  }

  /** Trimming a word padded by one space on each side yields the word. */
  lemma TrimPadded(w: string)
    requires w != [] && !IsWhitespace(w[0]) && !IsWhitespace(w[|w| - 1])
    ensures Trim([' '] + w + [' ']) == w
  {
    var s := [' '] + w + [' '];
    var t := w + [' '];
    assert s[0] == ' ' && s[1..] == t;
    assert t[0] == w[0];
    assert TrimStart(t) == t;
    assert TrimStart(s) == t;
    assert t[|t| - 1] == ' ' && t[..|t| - 1] == w;
    assert TrimEnd(w) == w;
    assert TrimEnd(t) == w;
  }

  /** The adapter's result once its filter and map are known to return. */
  lemma LeverJobsOf(name: string, posts: seq<Posting>, kept: seq<Posting>, jobs: seq<JobPosting>)
    requires Filter(posts, IsCanadian) == Normal(kept)
    requires Map(kept, ToJob(name)) == Normal(jobs)
    ensures LeverJobs(name, Ok(Postings(posts))) == jobs
  {
  }

  /** A one-posting array whose posting the filter accepts and the map turns
      into `job` yields exactly `job`. */
  lemma LeverOne(name: string, p: Posting, job: JobPosting)
    requires IsCanadian(p) == Normal(true) && PostingJob(name, p) == Normal(job)
    ensures LeverJobs(name, Ok(Postings([p]))) == [job]
  {
    FilterOne(p, IsCanadian);
    MapOne(p, ToJob(name), job);
    LeverJobsOf(name, [p], [p], [job]);
  }

  /** A Lever posting whose text and region-naming location are padded by
      one space on each side comes out as one job with both fields bare. */
  lemma LeverTrimsPadding(name: string, title: string, place: string, url: string)
    requires title != [] && !IsWhitespace(title[0]) && !IsWhitespace(title[|title| - 1])
    requires place != [] && !IsWhitespace(place[0]) && !IsWhitespace(place[|place| - 1])
    requires InRegion(place)
    ensures LeverJobs(name, Ok(Postings([Posting(Text([' '] + title + [' ']), Text([' '] + place + [' ']), url)])))
         == [JobPosting(name, title, place, url)]
  {
    var p := Posting(Text([' '] + title + [' ']), Text([' '] + place + [' ']), url);
    var job := JobPosting(name, title, place, url);
    assert IsCanadian(p) == Normal(true) by {
      RegionSurvivesPadding(place);
    }
    assert PostingJob(name, p) == Normal(job) by {
      TrimPadded(title);
      TrimPadded(place);
    }
    LeverOne(name, p, job);
  }
}
