/** The enrichment assembler (index.js): identity key, one enriched record
    per provider item, and the batch each provider's records are written as. */
module Enrich {
  import opened Wrappers
  import opened JsText
  import opened Posting
  import opened KeywordScan
  import Usajobs
  import Adzuna
  import ScanScenario

  // ---------------------------------------------------------------------
  // jobUid
  // ---------------------------------------------------------------------

  predicate IsLowerHexDigit(c: char) {
    ('0' <= c <= '9') || ('a' <= c <= 'f')
  }

  /** A SHA-256 digest as `digest("hex")` writes it: 64 lower-case hex
      digits. */
  type Digest = s: string | |s| == 64 && forall k :: 0 <= k < |s| ==> IsLowerHexDigit(s[k])
    witness seq(64, _ => '0')

  /** How a template literal renders a string-or-null value. */
  function Render(v: Option<string>): (r: string)
    ensures v.Some? ==> r == v.value
    ensures r == "null" <==> v == None || v == Some("null")
  {
    match v
    case None => "null"
    case Some(s) => s
  }

  /** The string jobUid hashes: `${source}:${sourceJobId}`. */
  function UidInput(source: string, sourceJobId: Option<string>): (r: string)
    ensures |r| == |source| + 1 + |Render(sourceJobId)|
    ensures r[..|source|] == source && r[|source|] == ':'
    ensures r[|source| + 1..] == Render(sourceJobId)
  {
    source + ":" + Render(sourceJobId)
  }

  /** `jobUid`: the SHA-256 digest of the hash input. The hash function is
      a parameter: any fixed function from strings to digests. */
  function JobUid(sha256: string -> Digest, source: string, sourceJobId: Option<string>): (r: Digest)
    ensures r == sha256(source + ":" + Render(sourceJobId))
  {
    sha256(UidInput(source, sourceJobId))
  }

  /** The hash input identifies the (source, id) pair: for one source,
      different ids give different inputs; and when no source contains a
      colon, different sources give different inputs too. */
  lemma UidInputInjective(s1: string, id1: Option<string>, s2: string, id2: Option<string>)
    ensures s1 == s2 ==> (UidInput(s1, id1) == UidInput(s2, id2) <==> Render(id1) == Render(id2))
    ensures (':' !in s1 && ':' !in s2) ==>
              (UidInput(s1, id1) == UidInput(s2, id2) <==> s1 == s2 && Render(id1) == Render(id2))
  {
    if s1 == s2 {
      assert UidInput(s1, id1) == s1 + (":" + Render(id1));
      assert UidInput(s2, id2) == s1 + (":" + Render(id2));
      if UidInput(s1, id1) == UidInput(s2, id2) {
        assert Render(id1) == (s1 + (":" + Render(id1)))[|s1| + 1..];
      }
    }
    if ':' !in s1 && ':' !in s2 {
      SplitAtSeparator(s1, Render(id1), s2, Render(id2), ':');
    }
  }

  /** A null id is rendered as the text `null`, so it shares its key with
      the id string "null"; any other two different ids get different keys. */
  lemma UidOfNullId(sha256: string -> Digest, source: string, id: Option<string>)
    ensures JobUid(sha256, source, None) == JobUid(sha256, source, Some("null"))
    ensures UidInput(source, None) == UidInput(source, id) <==> id == None || id == Some("null")
  {
    UidInputInjective(source, None, source, id);
  }

  /** The ids "123" and "124" of one provider get different hash inputs. */
  lemma DistinctIdsExample()
    ensures UidInput("adzuna", Some("123")) != UidInput("adzuna", Some("124"))
  {
    UidInputInjective("adzuna", Some("123"), "adzuna", Some("124"));
    assert Render(Some("123"))[2] != Render(Some("124"))[2];
  }

  // ---------------------------------------------------------------------
  // The enriched record
  // ---------------------------------------------------------------------

  /** One enriched posting. The normalised fields, which the source spreads
      into the record, are kept together in `posting`. */
  datatype EnrichedPosting = EnrichedPosting(
    ingest_ts: string,
    job_uid: Digest,
    posting: NormalizedPosting,
    description_clean: string,
    keyword_signals: KeywordSignalReport)

  /** The body of the per-item callback: everything derived from the
      adapter's normalised record and raw description. */
  function Assemble(normalized: NormalizedPosting, descriptionRaw: string, ingestTs: string,
                    sha256: string -> Digest): (r: EnrichedPosting)
    ensures r.ingest_ts == ingestTs && r.posting == normalized
    ensures r.job_uid == sha256(normalized.source + ":" + Render(normalized.source_job_id))
    ensures r.description_clean == CleanText(Some(descriptionRaw)) && IsClean(r.description_clean)
    ensures r.keyword_signals == ScanJobDescription(Some(descriptionRaw))
    ensures r.keyword_signals == ScanJobDescription(Some(r.description_clean))
  {
    ScanCleanedText(Some(descriptionRaw));
    EnrichedPosting(
      ingestTs,
      JobUid(sha256, normalized.source, normalized.source_job_id),
      normalized,
      CleanText(Some(descriptionRaw)),
      ScanJobDescription(Some(descriptionRaw)))
  }

  // ---------------------------------------------------------------------
  // USAJOBS batch
  // ---------------------------------------------------------------------

  /** `SearchResult` of a USAJOBS response. */
  datatype UsajobsSearchResult = UsajobsSearchResult(
    searchResultItems: Option<seq<Option<Usajobs.Item>>>)  // SearchResultItems

  /** A USAJOBS search response. */
  datatype UsajobsResponse = UsajobsResponse(
    searchResult: Option<UsajobsSearchResult>)  // SearchResult

  /** `usajobsJson?.SearchResult?.SearchResultItems ?? []` */
  function UsajobsItems(json: Option<UsajobsResponse>): (r: seq<Option<Usajobs.Item>>)
    ensures json.Some? && json.value.searchResult.Some? && json.value.searchResult.value.searchResultItems.Some?
            ==> r == json.value.searchResult.value.searchResultItems.value
    ensures (json == None || json.value.searchResult == None
             || json.value.searchResult.value.searchResultItems == None) ==> r == []
  {
    match json
    case None => []
    case Some(resp) =>
      match resp.searchResult
      case None => []
      case Some(sr) => sr.searchResultItems.GetOr([])
  }

  /** The callback of `usajobsItems.map`. */
  function EnrichUsajobsItem(item: Option<Usajobs.Item>, ingestTs: string,
                             sha256: string -> Digest): (r: EnrichedPosting)
    ensures r.posting == Usajobs.Normalize(item)
    ensures r.posting.source == "usajobs" && r.posting.country == "US"
    ensures r.job_uid == sha256(UidInput("usajobs", r.posting.source_job_id))
    ensures r.description_clean == CleanText(Some(Usajobs.ExtractDescription(item)))
    ensures r.keyword_signals == ScanJobDescription(Some(r.description_clean))
    ensures r.ingest_ts == ingestTs
  {
    var normalized := Usajobs.Normalize(item);
    Assemble(normalized, Usajobs.ExtractDescription(item), ingestTs, sha256)
  }

  /** `usajobsItems.map(...)`: one record per item, in order. */
  function EnrichUsajobs(json: Option<UsajobsResponse>, ingestTs: string,
                         sha256: string -> Digest): (r: seq<EnrichedPosting>)
    ensures |r| == |UsajobsItems(json)|
    ensures forall i :: 0 <= i < |r| ==> r[i] == EnrichUsajobsItem(UsajobsItems(json)[i], ingestTs, sha256)
    ensures forall i :: 0 <= i < |r| ==> r[i].ingest_ts == ingestTs
  {
    var items := UsajobsItems(json);
    seq(|items|, i requires 0 <= i < |items| => EnrichUsajobsItem(items[i], ingestTs, sha256))
  }

  // ---------------------------------------------------------------------
  // Adzuna batch
  // ---------------------------------------------------------------------

  /** An Adzuna search response. */
  datatype AdzunaResponse = AdzunaResponse(results: Option<seq<Option<Adzuna.Job>>>)

  /** `adzunaJson?.results ?? []` */
  function AdzunaJobs(json: Option<AdzunaResponse>): (r: seq<Option<Adzuna.Job>>)
    ensures json.Some? && json.value.results.Some? ==> r == json.value.results.value
    ensures (json == None || json.value.results == None) ==> r == []
  {
    match json
    case None => []
    case Some(resp) => resp.results.GetOr([])
  }

  /** The callback of `adzunaJobs.map`. */
  function EnrichAdzunaJob(job: Option<Adzuna.Job>, ingestTs: string,
                           sha256: string -> Digest): (r: EnrichedPosting)
    ensures r.posting == Adzuna.Normalize(job)
    ensures r.posting.source == "adzuna" && HasNoLower(r.posting.country)
    ensures r.job_uid == sha256(UidInput("adzuna", r.posting.source_job_id))
    ensures r.description_clean == CleanText(Some(Adzuna.ExtractDescription(job)))
    ensures r.keyword_signals == ScanJobDescription(Some(r.description_clean))
    ensures r.ingest_ts == ingestTs
  {
    var normalized := Adzuna.Normalize(job);
    Assemble(normalized, Adzuna.ExtractDescription(job), ingestTs, sha256)
  }

  /** `adzunaJobs.map(...)`: one record per job, in order. */
  function EnrichAdzuna(json: Option<AdzunaResponse>, ingestTs: string,
                        sha256: string -> Digest): (r: seq<EnrichedPosting>)
    ensures |r| == |AdzunaJobs(json)|
    ensures forall i :: 0 <= i < |r| ==> r[i] == EnrichAdzunaJob(AdzunaJobs(json)[i], ingestTs, sha256)
    ensures forall i :: 0 <= i < |r| ==> r[i].ingest_ts == ingestTs
  {
    var jobs := AdzunaJobs(json);
    seq(|jobs|, i requires 0 <= i < |jobs| => EnrichAdzunaJob(jobs[i], ingestTs, sha256))
  }

  /** Every record of the list carries the timestamp `ts`. */
  predicate AllStamped(rs: seq<EnrichedPosting>, ts: string) {
    forall i :: 0 <= i < |rs| ==> rs[i].ingest_ts == ts
  }

  /** Two lists stamped with one timestamp concatenate to one list stamped
      with it. */
  lemma StampedConcat(us: seq<EnrichedPosting>, az: seq<EnrichedPosting>, ts: string)
    requires AllStamped(us, ts) && AllStamped(az, ts)
    ensures AllStamped(us + az, ts)
  {
    forall i | 0 <= i < |us + az|
      ensures (us + az)[i].ingest_ts == ts
    {
      if i < |us| {
        assert (us + az)[i] == us[i];
      } else {
        assert (us + az)[i] == az[i - |us|];
      }
    }
  }

  /** Every record of a run, from either provider, carries the same
      timestamp, and a response without an item list gives no records. */
  lemma BatchesShareIngestTs(u: Option<UsajobsResponse>, a: Option<AdzunaResponse>, ingestTs: string,
                             sha256: string -> Digest)
    ensures AllStamped(EnrichUsajobs(u, ingestTs, sha256) + EnrichAdzuna(a, ingestTs, sha256), ingestTs)
    ensures (u == None || u.value.searchResult == None
             || u.value.searchResult.value.searchResultItems == None) ==> EnrichUsajobs(u, ingestTs, sha256) == []
    ensures (a == None || a.value.results == None) ==> EnrichAdzuna(a, ingestTs, sha256) == []
  {
    var us := EnrichUsajobs(u, ingestTs, sha256);
    var az := EnrichAdzuna(a, ingestTs, sha256);
    assert AllStamped(us, ingestTs);
    assert AllStamped(az, ingestTs);
    StampedConcat(us, az, ingestTs);
  }

  /** An Adzuna job with every field but the location. */
  const JobWithoutLocation: Adzuna.Job :=
    Adzuna.Job(Some("123"), Some("https://example.test/123"), Some("Engineer"),
               Some(Adzuna.Named(Some("Acme"))), None, Some("gb"),
               Some("2024-01-01T00:00:00Z"), Some("Build things"))

  /** An Adzuna job without a location still yields a full record:
      `location_raw` is null (as `date_expires` always is for Adzuna), and
      the other fields come from the job. */
  lemma MissingLocationExample(ingestTs: string, sha256: string -> Digest)
    ensures var r := EnrichAdzunaJob(Some(JobWithoutLocation), ingestTs, sha256);
            && r.posting.location_raw == None
            && r.posting.date_expires == None
            && r.posting.source_job_id == Some("123")
            && r.posting.source_url == Some("https://example.test/123")
            && r.posting.title == Some("Engineer")
            && r.posting.company == Some("Acme")
            && r.posting.country == "GB"
            && r.posting.date_posted == Some("2024-01-01T00:00:00Z")
            && r.job_uid == sha256("adzuna:123")
            && r.description_clean == "build" + " " + "things"
  {
    assert ToUpper("gb") == "GB";
    assert UidInput("adzuna", Some("123")) == "adzuna:123";
    MissingLocationDescription(ingestTs, sha256);
  }

  /** The description of that job, cleaned. */
  lemma MissingLocationDescription(ingestTs: string, sha256: string -> Digest)
    ensures EnrichAdzunaJob(Some(JobWithoutLocation), ingestTs, sha256).description_clean
         == "build" + " " + "things"
  {
    assert Adzuna.ExtractDescription(Some(JobWithoutLocation)) == "Build things";
    ScanScenario.DescriptionCleaned();
  }

  // ---------------------------------------------------------------------
  // The batch written per provider
  // ---------------------------------------------------------------------

  /** `ingestTs.slice(0, 13)`: the timestamp cut to the hour
      (`YYYY-MM-DDTHH` for an ISO-8601 timestamp). */
  function HourOf(ingestTs: string): (r: string)
    ensures |ingestTs| >= 13 ==> |r| == 13
    ensures |ingestTs| < 13 ==> r == ingestTs
    ensures r == ingestTs[..|r|]
  {
    if |ingestTs| <= 13 then ingestTs else ingestTs[..13]
  }

  /** The object path a provider's batch is written to. */
  function BatchPath(source: string, ingestTs: string): (r: string)
    ensures r == "enriched/" + (source + ['/'] + PartitionSuffix(ingestTs))
  {
    var h := HourOf(ingestTs);
    assert "/ingest_ts=" == ['/'] + "ingest_ts=";
    assert "enriched/" + source + "/ingest_ts=" + h + "/batch.json"
        == "enriched/" + (source + ['/'] + ("ingest_ts=" + (h + "/batch.json")));
    "enriched/" + source + "/ingest_ts=" + h + "/batch.json"
  }

  /** The part of a batch path after the provider name and its slash: the
      hour partition and the file name. */
  function PartitionSuffix(ingestTs: string): (r: string)
    ensures |r| == 21 + |HourOf(ingestTs)|
    ensures r[..10] == "ingest_ts=" && r[|r| - 11..] == "/batch.json"
    ensures r[10..|r| - 11] == HourOf(ingestTs)
  {
    "ingest_ts=" + (HourOf(ingestTs) + "/batch.json")
  }

  lemma PartitionSuffixInjective(t1: string, t2: string)
    ensures PartitionSuffix(t1) == PartitionSuffix(t2) <==> HourOf(t1) == HourOf(t2)
  {
    CancelPrefix("ingest_ts=", HourOf(t1) + "/batch.json", HourOf(t2) + "/batch.json");
    CancelSuffix(HourOf(t1), HourOf(t2), "/batch.json");
  }

  /** A batch path names one partition per provider and hour: for
      provider names without `/`, two paths are equal exactly when the
      providers are equal and the timestamps fall in the same hour. */
  lemma BatchPathPartition(s1: string, t1: string, s2: string, t2: string)
    requires '/' !in s1 && '/' !in s2
    ensures BatchPath(s1, t1) == BatchPath(s2, t2) <==> s1 == s2 && HourOf(t1) == HourOf(t2)
  {
    var x1 := PartitionSuffix(t1);
    var x2 := PartitionSuffix(t2);
    CancelPrefix("enriched/", s1 + ['/'] + x1, s2 + ['/'] + x2);
    SplitAtSeparator(s1, x1, s2, x2, '/');
    PartitionSuffixInjective(t1, t2);
  }

  /** The document written for one provider's run. */
  datatype Batch = Batch(ingest_ts: string, source: string, results: seq<EnrichedPosting>)

  /** The path and document of the USAJOBS write. */
  function UsajobsBatch(json: Option<UsajobsResponse>, ingestTs: string,
                        sha256: string -> Digest): (r: (string, Batch))
    ensures r.0 == BatchPath("usajobs", ingestTs)
    ensures r.1.ingest_ts == ingestTs && r.1.source == "usajobs"
    ensures r.1.results == EnrichUsajobs(json, ingestTs, sha256)
  {
    (BatchPath("usajobs", ingestTs), Batch(ingestTs, "usajobs", EnrichUsajobs(json, ingestTs, sha256)))
  }

  /** The path and document of the Adzuna write. */
  function AdzunaBatch(json: Option<AdzunaResponse>, ingestTs: string,
                       sha256: string -> Digest): (r: (string, Batch))
    ensures r.0 == BatchPath("adzuna", ingestTs)
    ensures r.1.ingest_ts == ingestTs && r.1.source == "adzuna"
    ensures r.1.results == EnrichAdzuna(json, ingestTs, sha256)
  {
    (BatchPath("adzuna", ingestTs), Batch(ingestTs, "adzuna", EnrichAdzuna(json, ingestTs, sha256)))
  }
}
