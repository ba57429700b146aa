/** The Adzuna provider adapter (fetch_adzuna.js): reading a search result
    into the common posting shape and its description text. */
module Adzuna {
  import opened Wrappers
  import opened JsText
  import opened Posting

  /** An object that carries only a `display_name`. */
  datatype Named = Named(displayName: Option<string>)  // display_name

  /** One element of the response's `results`. */
  datatype Job = Job(
    id: Option<string>,           // id
    redirectUrl: Option<string>,  // redirect_url
    title: Option<string>,        // title
    company: Option<Named>,       // company
    location: Option<Named>,      // location
    country: Option<string>,      // country
    created: Option<string>,      // created
    description: Option<string>)  // description

  /** `x?.display_name` */
  function DisplayName(x: Option<Named>): (r: Option<string>)
    ensures r.Some? <==> x.Some? && x.value.displayName.Some?
    ensures r.Some? ==> r == x.value.displayName
  {
    match x
    case None => None
    case Some(n) => n.displayName
  }

  /** The country when the job does not give one. */
  const DefaultCountry: string := "US"

  /** `normalizeAdzunaPosting`. */
  function Normalize(job: Option<Job>): (r: NormalizedPosting)
    ensures r.source == "adzuna" && r.date_expires == None
    ensures HasNoLower(r.country)
    ensures job == None ==>
              && r.source_job_id == r.source_url == r.title == r.company == None
              && r.location_raw == r.date_posted == None
              && r.country == "US"
    ensures job.Some? ==>
              var j := job.value;
              && r.source_job_id == j.id
              && r.source_url == j.redirectUrl
              && r.title == j.title
              && r.company == DisplayName(j.company)
              && r.location_raw == DisplayName(j.location)
              && r.date_posted == j.created
              && r.country == ToUpper(j.country.GetOr("US"))
  {
    ToUpperFixpoints(DefaultCountry);
    match job
    case None =>
      NormalizedPosting("adzuna", None, None, None, None, None, ToUpper(DefaultCountry), None, None)
    case Some(j) =>
      ToUpperFixpoints(j.country.GetOr(DefaultCountry));
      NormalizedPosting("adzuna", j.id, j.redirectUrl, j.title, DisplayName(j.company),
                        DisplayName(j.location), ToUpper(j.country.GetOr(DefaultCountry)),
                        j.created, None)
  }

  /** The country is upper-cased: a job without one is `"US"`, and a job
      whose country is already upper-case keeps it unchanged. */
  lemma NormalizeCountry(job: Option<Job>)
    ensures (job == None || job.value.country == None) ==> Normalize(job).country == "US"
    ensures (job.Some? && job.value.country.Some? && HasNoLower(job.value.country.value))
            ==> Normalize(job).country == job.value.country.value
  {
    ToUpperFixpoints(DefaultCountry);
    if job.Some? && job.value.country.Some? {
      ToUpperFixpoints(job.value.country.value);
    }
  }

  /** `extractAdzunaDescription`. */
  function ExtractDescription(job: Option<Job>): (r: string)
    ensures job.Some? && job.value.description.Some? ==> r == job.value.description.value
    ensures (job == None || job.value.description == None) ==> r == ""
  {
    match job
    case None => ""
    case Some(j) => j.description.GetOr("")
  }
}
