/** The fixed, ordered roster of companies and the choice of adapter for each. */
module Registry {

  /** A registry entry. A locator the entry does not carry is the empty
      string, which JavaScript treats as falsy just like an absent property. */
  datatype Company = Company(name: string, leverSlug: string, ghSlug: string, url: string)

  function LeverCompany(name: string, slug: string): Company { Company(name, slug, "", "") }
  function GreenhouseCompany(name: string, slug: string): Company { Company(name, "", slug, "") }
  function PageCompany(name: string, url: string): Company { Company(name, "", "", url) }

  /** The companies served by the HTML fallback, as (name, page URL), in
      registry order. */
  const PageSites: seq<(string, string)> := [
    ("Apple", "https://jobs.apple.com/en-us/search?location=Canada"),
    ("Meta", "https://www.metacareers.com/jobs?location=Canada"),
    ("Google", "https://careers.google.com/jobs/results/?location=Canada"),
    ("Airbnb", "https://careers.airbnb.com/positions/?locations=Canada"),
    ("OpenAI", "https://openai.com/careers/"),
    ("Anthropic", "https://www.anthropic.com/careers"),
    ("Databricks", "https://databricks.com/company/careers/open-positions?region=Canada"),
    ("Snowflake", "https://careers.snowflake.com/"),
    ("LinkedIn", "https://www.linkedin.com/company/linkedin/jobs/"),
    ("Uber", "https://www.uber.com/global/en/careers/list/?location=Canada"),
    ("Grammarly", "https://www.grammarly.com/careers"),
    ("Snap", "https://snap.com/en-US/jobs"),
    ("Roblox", "https://corp.roblox.com/careers/"),
    ("Stripe", "https://stripe.com/jobs"),
    ("Two Sigma", "https://www.twosigma.com/careers"),
    ("HRT", "https://www.hudsonrivertrading.com/careers"),
    ("Plaid", "https://plaid.com/careers/"),
    ("ByteDance", "https://jobs.bytedance.com/"),
    ("Cruise", "https://getcruise.com/careers"),
    ("Netflix", "https://jobs.netflix.com/"),
    ("Twitter", "https://careers.twitter.com/"),
    ("Rippling", "https://www.rippling.com/careers"),
    ("Twitch", "https://www.twitch.tv/jobs"),
    ("Brex", "https://brex.com/careers")
  ]

  /** `COMPANIES`, in registry order: two Lever boards, two Greenhouse boards,
      then the HTML pages. */
  const Companies: seq<Company> :=
    [ LeverCompany("Notion", "notion"),
      LeverCompany("Figma", "figma"),
      GreenhouseCompany("Pinterest", "pinterest"),
      GreenhouseCompany("Airtable", "airtable") ]
    + seq(|PageSites|, i requires 0 <= i < |PageSites| => PageCompany(PageSites[i].0, PageSites[i].1))

  /** The three adapters. */
  datatype Adapter = LeverApi | GreenhouseApi | HtmlPage

  /** The handler's dispatch: `lever_slug` wins over `gh_slug`, which wins
      over `url`. */
  function AdapterFor(c: Company): (a: Adapter)
    ensures a == LeverApi <==> c.leverSlug != ""
    ensures a == GreenhouseApi <==> c.leverSlug == "" && c.ghSlug != ""
    ensures OneLocator(c) ==> (a == HtmlPage <==> c.url != "")
  {
    if c.leverSlug != "" then LeverApi
    else if c.ghSlug != "" then GreenhouseApi
    else HtmlPage
  }

  /** The entry carries exactly one locator, so the precedence of the
      dispatch never has to break a tie. */
  predicate OneLocator(c: Company) {
    if c.leverSlug != "" then c.ghSlug == "" && c.url == ""
    else if c.ghSlug != "" then c.url == ""
    else c.url != ""
  }

  /** Every HTML entry has a page URL. */
  lemma PageSitesHaveUrls()
    ensures |PageSites| == 24
    ensures forall i | 0 <= i < |PageSites| :: PageSites[i].1 != ""
  {
  }

  /** Every entry of the registry carries exactly one locator; the first two
      use Lever, the next two Greenhouse and the other 24 the HTML fallback. */
  lemma RegistryShape()
    ensures |Companies| == 28
    ensures forall i | 0 <= i < |Companies| :: OneLocator(Companies[i])
    ensures forall i | 0 <= i < |Companies| ::
      AdapterFor(Companies[i]) == if i < 2 then LeverApi else if i < 4 then GreenhouseApi else HtmlPage
  {
    PageSitesHaveUrls();
    forall i | 0 <= i < |Companies|
      ensures OneLocator(Companies[i])
      ensures AdapterFor(Companies[i]) == if i < 2 then LeverApi else if i < 4 then GreenhouseApi else HtmlPage
    {
      if 4 <= i {
        assert Companies[i] == PageCompany(PageSites[i - 4].0, PageSites[i - 4].1);
      }
    }
  }
}
