/** The canonical record every provider adapter produces. */
module Posting {
  import opened Wrappers

  /** A posting in the common shape; `None` is the JSON `null` the
      adapters write for a missing upstream field. */
  datatype NormalizedPosting = NormalizedPosting(
    source: string,
    source_job_id: Option<string>,
    source_url: Option<string>,
    title: Option<string>,
    company: Option<string>,
    location_raw: Option<string>,
    country: string,
    date_posted: Option<string>,
    date_expires: Option<string>)
}
