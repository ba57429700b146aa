# Job-posting enrichment engine, modelled in Dafny

This project models the provider-agnostic core of a job-ingestion service.
That core turns the raw items of two job boards, USAJOBS and Adzuna, into
enriched records. Each record carries:

- a canonical posting;
- an identity key;
- a cleaned description;
- a keyword-signal report that scores the text for AI/automation and
  offshoring vocabulary.

Modules, one concern each:

- `Wrappers` (`wrappers.dfy`): `Option`, standing for JavaScript's
  `null`/`undefined`. `GetOr` is `??`.
- `JsText` (`jstext.dfy`): the JavaScript string built-ins the core relies on.
  These are the `\s` whitespace class, `trim`/`trimStart`/`trimEnd`,
  `toLowerCase`/`toUpperCase` and `Array.prototype.join`.
- `KeywordScan` (`keyword_scan.dfy`): `keywordScan.js`. It holds the two
  lexicons, `cleanText`, `escapeRegex`, the regular expressions `findMatches`
  builds, `findMatches` itself (a method with a loop, as in the source),
  `bucketize` and `scanJobDescription`. The regular expressions are read by a
  small interpreter for the only fragment the scanner produces: literal
  characters, escaped special characters and `\b`. The interpreter is proved
  equivalent to a direct statement of the matching rule (`KeywordMatches`).
- `ScanScenario` (`scan_scenario.dfy`): scanning text made of plain words
  separated by single spaces. This gives the worked example "We use RPA and LLM
  heavily, no offshoring here". Its text is written as its nine words joined by
  single spaces. Two smaller examples follow: `<b>Hi</b>  there` cleans to
  `hi there`, and `Build things` cleans to `build things`. Expected results
  there are written as concatenations (`"hi" + " " + "there"`), which denote
  the same strings.
- `Posting` (`posting.dfy`): the canonical `NormalizedPosting` record.
- `Usajobs` (`usajobs.dfy`): `fetch_usajobs.js`, that is
  `extractUsajobsDescription` and `normalizeUsajobsPosting`.
- `Adzuna` (`adzuna.dfy`): `fetch_adzuna.js`, that is `normalizeAdzunaPosting`
  and `extractAdzunaDescription`.
- `Enrich` (`enrich.dfy`): `index.js`. It holds the `jobUid` hash input, the
  per-item `.map` callbacks, the empty-list defaults, the batch path and the
  document each provider's batch is written as.

Two modelling notes:

- A USAJOBS item whose `MatchedObjectDescriptor` is missing still keeps its
  `MatchedObjectId` as `source_job_id` (fetch_usajobs.js:51). Only the fields
  read from the descriptor become null.
- The batch path built at index.js:65 and index.js:96 is a plain string, and
  it is modelled (`Enrich.BatchPath`).

## Model

| member | source | states |
|---|---|---|
| KeywordScan.LexiconsHaveNoDuplicates | keywordScan.js:1-28 | neither lexicon lists a phrase twice |
| KeywordScan.StripTags | keywordScan.js:33 | no complete `<...>` tag is left, and every character other than a space comes from the input |
| KeywordScan.StripTagsFixpoint | keywordScan.js:33 | text without a complete tag is left unchanged |
| KeywordScan.StripTagsPlain | keywordScan.js:33 | text without a `<` is copied unchanged, whatever follows it |
| KeywordScan.StripTagsOneTag | keywordScan.js:33 | a `<`, a run without `>` and the first `>` become exactly one space, and stripping goes on after that `>` |
| KeywordScan.StripTagsReplacesTag | keywordScan.js:33 | for `a` without `<` and `t` without `>`, `a<t>b` strips to `a`, one space, then `b` stripped |
| KeywordScan.StripTwoTags | keywordScan.js:33 | two tags around plain text each become one space, and the text between and after them is kept |
| KeywordScan.CollapseSpaces | keywordScan.js:34 | whitespace is left only as single plain spaces, never two in a row; the result is never longer, and a leading whitespace run becomes one space |
| KeywordScan.CollapseSpacesKeepsText | keywordScan.js:34 | the non-whitespace characters are kept, in order |
| KeywordScan.CollapseSpacesChars | keywordScan.js:34 | every character of the result other than a space comes from the input |
| KeywordScan.CollapseSpacesKeepsTagFree | keywordScan.js:33-34 | collapsing after stripping cannot rebuild a tag, since it only writes spaces |
| KeywordScan.CollapseSpacesFixpoint | keywordScan.js:34 | text whose whitespace is already collapsed is unchanged |
| KeywordScan.CollapseSpacesPlain | keywordScan.js:34 | text without whitespace is copied unchanged, whatever follows it |
| KeywordScan.CollapseSpacesLeadingRun | keywordScan.js:34 | a whole leading run of whitespace, of any length, becomes one space |
| KeywordScan.CollapseSpacesRun | keywordScan.js:34 | a word, then a maximal whitespace run, then the rest: the word is kept, the run becomes one space, and the rest is collapsed in turn |
| KeywordScan.TrimStartRun | keywordScan.js:35 | trimming the start of a whitespace run followed by text not starting with whitespace gives exactly that text |
| KeywordScan.TrimStartKeepsText | keywordScan.js:35 | trimming the start drops whitespace only |
| JsText.IsSpaceClass | keywordScan.js:34-35 | `JsText.IsSpace` is JavaScript's `\s`: on ASCII it holds exactly for the space and tab through carriage return, and no letter, digit or `_` is whitespace |
| JsText.TrimStart | keywordScan.js:35 | the result is a suffix that does not start with whitespace, and everything dropped is whitespace |
| JsText.TrimEnd | keywordScan.js:35 | the result is a prefix that does not end with whitespace, and everything dropped is whitespace |
| JsText.Trim | keywordScan.js:35 | the result is a slice of the input with no whitespace at either end, and only whitespace is cut from either side |
| JsText.TrimFixpoint | keywordScan.js:35 | text without whitespace at either end is its own trimmed form |
| JsText.ToLower | keywordScan.js:36 | same length, each character lower-cased |
| JsText.ToLowerFixpoints | keywordScan.js:36 | the result has no upper-case letter, and a string is its own lower-case form exactly when it has none |
| KeywordScan.CleanText | keywordScan.js:30-37 | null, undefined or empty input gives `""`; every result is clean: lower-case, no complete tag, whitespace only as single spaces, none at either end |
| KeywordScan.CleanTextFixpoints | keywordScan.js:30-37 | `cleanText` leaves a string unchanged exactly when it is clean |
| KeywordScan.CleanTextIdempotent | keywordScan.js:30-37 | `cleanText(cleanText(s)) == cleanText(s)` |
| KeywordScan.EscapeRegex | keywordScan.js:39-41 | never shorter; empty only for empty input; a string without special characters (every lexicon phrase) is unchanged; a string with one gains a backslash |
| KeywordScan.EscapeChar | keywordScan.js:40 | one escaped character reads back as a pattern matching that character literally; it ends with the character and has a backslash before it exactly when it is special |
| KeywordScan.ParseEscapedChar | keywordScan.js:40 | one escaped character reads back as that literal character |
| KeywordScan.ParseEscaped | keywordScan.js:39-41 | an escaped string followed by any pattern reads as the literal text followed by that pattern |
| KeywordScan.EscapeRegexIsLiteral | keywordScan.js:39-41 | escaping makes any keyword a pattern that matches exactly its own text |
| KeywordScan.ParsePattern | keywordScan.js:49-52 | a pattern reads as at most one atom per character, and a pattern with no regular-expression special character reads as exactly its literal characters |
| KeywordScan.MatchFrom | keywordScan.js:51-52 | a match starting at `i` consumes one text character per literal atom and never runs past the end; the empty pattern matches anywhere |
| KeywordScan.RegexTest | keywordScan.js:54 | `test` succeeds only for a pattern of the fragment whose literal characters fit in the text, and the empty pattern succeeds on every text |
| KeywordScan.KeywordPattern | keywordScan.js:47-52 | the pattern built for a keyword reads as the literal keyword, between two `\b` assertions when the keyword has at most 3 characters and bare otherwise |
| KeywordScan.ParseBoundary | keywordScan.js:51 | the pattern `\b` reads as one word-boundary assertion |
| KeywordScan.ParseBoundaryThen | keywordScan.js:51 | `\b` in front of a pattern adds one word-boundary assertion in front of what it reads as |
| KeywordScan.MatchLiteral | keywordScan.js:47-54 | a literal pattern matches at a position exactly when the text spells the keyword there |
| KeywordScan.KeywordPatternMeansMatch | keywordScan.js:47-54 | the regular expression built for a keyword matches the text exactly when the keyword occurs: as a whole word (`\b` on both sides) if it has at most 3 characters, anywhere otherwise |
| KeywordScan.KeywordAtomsMatchAt | keywordScan.js:49-54 | at one position, the keyword's pattern matches exactly when the keyword occurs there, with a word boundary on both sides for a keyword of at most 3 characters |
| KeywordScan.WholeWordMeansNonWordNeighbours | keywordScan.js:50-51 | for a keyword that starts and ends with a word character, `\b` on both sides means that neither neighbour is in `[A-Za-z0-9_]` and that the string end counts as a non-word neighbour |
| KeywordScan.ShortKeywordsNeedWholeWords | keywordScan.js:49-54 | `msp` is not found in `mspaint`, `llm` not in `llms`, `llm` is found in `we use llm daily`, and `offshore` is found inside `offshored` |
| KeywordScan.FindMatches | keywordScan.js:43-58 | the loop collects exactly the lexicon keywords that match, each once (set semantics), never more than the lexicon holds |
| KeywordScan.MatchedKeywords | keywordScan.js:44-57 | what the loop collects is duplicate-free, no longer than the lexicon, and holds a keyword exactly when it is in the lexicon and matches |
| KeywordScan.MatchedIsFilter | keywordScan.js:43-58 | for a lexicon without repeats, the result is the lexicon filtered by the matching rule, in lexicon order |
| KeywordScan.Bucketize | keywordScan.js:60-65 | 0 is none, 1 is low, 2 to 3 is medium, 4 and above is high (a negative score falls in low) |
| KeywordScan.BucketizeMonotone | keywordScan.js:60-65 | a higher score never gives a lower level |
| KeywordScan.LevelNamesDistinct | keywordScan.js:61-64 | the four levels have four different names: none, low, medium, high |
| KeywordScan.ScanJobDescription | keywordScan.js:67-86 | the report scans the cleaned text; per lexicon, count == score == number found (at most 12 and 11); the level is the bucket of the score; the found list is the lexicon filtered by the matching rule, without duplicates |
| KeywordScan.ScanCleanedText | keywordScan.js:67-68 | scanning the cleaned description gives the same report as scanning the raw one |
| ScanScenario.SentenceShape | keywordScan.js:33-35 | plain words joined by single spaces contain no `<` and no whitespace run, and have no whitespace at either end |
| ScanScenario.CleanSentence | keywordScan.js:30-37 | cleaning plain words joined by single spaces only lower-cases them |
| ScanScenario.LowerSentence | keywordScan.js:36 | lower-casing such a sentence lower-cases each word |
| ScanScenario.WordMatches | keywordScan.js:49-54 | a word inside a sentence that starts and ends with a word character matches as a keyword |
| ScanScenario.OccurrenceWithinWord | keywordScan.js:52 | a space-free piece occurring in a sentence occurs within one of its words |
| ScanScenario.PieceMissing | keywordScan.js:49-54 | a keyword does not match when a space-free piece of it fits in no word |
| ScanScenario.CharMissing | keywordScan.js:49-54 | keywords containing a character that no word has do not match |
| ScanScenario.KeywordsMatchingAppend | keywordScan.js:46-55 | filtering a lexicon in two parts gives the two results concatenated |
| ScanScenario.KeywordsMatchingNone | keywordScan.js:46-55 | a lexicon with no matching keyword gives an empty list |
| ScanScenario.ExampleCleaned | keywordScan.js:30-37 | the example cleans to `we use rpa and llm heavily, no offshoring here` |
| ScanScenario.ExampleHits | keywordScan.js:49-54 | `rpa`, `llm` and `offshoring` match the cleaned example |
| ScanScenario.ExampleAiMisses | keywordScan.js:3-12 | no AI phrase other than `llm` and `rpa` matches the cleaned example |
| ScanScenario.ExampleNotWithT | keywordScan.js:4-7 | `generative ai`, `automation` and `automated` do not match the example, which has no `t` once cleaned |
| ScanScenario.ExampleNotOffshore | keywordScan.js:17 | `offshore` does not match the example, although `offshoring` contains its first seven letters |
| ScanScenario.ExamplePieceMisses | keywordScan.js:21-26 | `nearshore`, `vendor` and `msp` do not match the example |
| ScanScenario.ExampleOffshoringMisses | keywordScan.js:19-27 | no offshoring phrase after `offshoring` matches the example |
| ScanScenario.AiFoundAtEnds | keywordScan.js:70 | when only `llm` and `rpa` match, the AI list found is `[llm, rpa]` |
| ScanScenario.OffshoringFoundAlone | keywordScan.js:71 | when only `offshoring` matches, the offshoring list found is `[offshoring]` |
| ScanScenario.ExampleReport | keywordScan.js:67-86 | "We use RPA and LLM heavily, no offshoring here" gives AI `[llm, rpa]` with score 2 (medium) and offshoring `[offshoring]` with score 1 (low) |
| ScanScenario.TaggedCleaned | keywordScan.js:30-37 | `<b>Hi</b>  there` cleans to `hi there`: each tag becomes a space, the space runs collapse, the ends are trimmed and the text is lower-cased |
| ScanScenario.TaggedStripped | keywordScan.js:33 | stripping `<b>Hi</b>  there` gives a space, `Hi`, a space and `  there` |
| ScanScenario.CollapseTwoWords | keywordScan.js:34 | a space, a word, a whitespace run and a word collapse to a space, the word, one space and the word |
| ScanScenario.TaggedCollapsed | keywordScan.js:34 | the stripped example collapses to ` Hi there` |
| ScanScenario.TaggedTrimmed | keywordScan.js:35-36 | trimming and lower-casing ` Hi there` gives `hi there` |
| ScanScenario.HiThereLowered | keywordScan.js:36 | `Hi there` lower-cases to `hi there` |
| ScanScenario.CleanTwoWords | keywordScan.js:30-37 | two plain words joined by a space clean to the two lower-cased words joined by a space |
| ScanScenario.DescriptionCleaned | keywordScan.js:30-37 | `Build things` cleans to `build things` |
| ScanScenario.BuildThingsCleaned | keywordScan.js:30-37 | cleaning `Build things` only lower-cases its two words |
| ScanScenario.BuildThingsLowered | keywordScan.js:36 | `Build` lower-cases to `build` and `things` is already lower-case |
| Usajobs.DescriptorOf | fetch_usajobs.js:35 | `item?.MatchedObjectDescriptor` is present exactly when the item and its descriptor are, and is then that descriptor |
| Usajobs.DetailsOf | fetch_usajobs.js:37-40 | `d?.UserArea?.Details` is null when the descriptor or user area is missing, and otherwise is the user area's details |
| Usajobs.Sections | fetch_usajobs.js:35-40 | the four sections, in the order summary, duties, requirements, qualifications: each is the upstream text when present and `""` otherwise, and all four are `""` when the item, descriptor, user area or details are missing |
| Usajobs.KeepNonEmpty | fetch_usajobs.js:43 | `.filter(Boolean)` keeps exactly the non-empty strings and drops nothing else |
| Usajobs.KeepNonEmptyOne | fetch_usajobs.js:43 | a one-element list keeps its element exactly when it is non-empty |
| Usajobs.KeepNonEmptyAppend | fetch_usajobs.js:43 | filtering distributes over concatenation, so order and repeats of the kept strings are those of the input |
| Usajobs.KeepNonEmptyAllEmpty | fetch_usajobs.js:43 | a list of empty strings filters to nothing |
| JsText.Join | fetch_usajobs.js:44 | joining nothing gives `""`, one part gives that part, and any non-empty part makes the result non-empty |
| JsText.JoinContainsParts | fetch_usajobs.js:44 | every part occurs, unchanged, as a slice of the joined string |
| Usajobs.ExtractDescription | fetch_usajobs.js:34-45 | each of the four sections occurs, unchanged, in the description |
| Usajobs.SectionsInDescription | fetch_usajobs.js:42-44 | every part, empty or not, occurs in the non-empty parts joined by a blank line |
| Usajobs.ExtractDescriptionEmpty | fetch_usajobs.js:34-45 | the description is `""` exactly when every section is missing or empty; a null item gives `""` |
| Usajobs.ExtractAllSections | fetch_usajobs.js:42-44 | with four non-empty sections, the description is summary, duties, requirements, qualifications, separated by `"\n\n"` |
| Usajobs.SplitJoin | fetch_usajobs.js:44 | splitting at blank lines undoes the join for parts with no blank line inside and no line break at the end |
| Usajobs.ExtractDescriptionSections | fetch_usajobs.js:42-44 | the description splits back into exactly the non-empty sections, in order, so no empty section sits between separators |
| Usajobs.Normalize | fetch_usajobs.js:47-60 | `source` is always `usajobs` and `country` always `US`; each other field is the upstream value when present and null otherwise; a missing item or descriptor gives null for every descriptor field |
| Adzuna.DisplayName | fetch_adzuna.js:35-36 | `x?.display_name` is present exactly when the object and its display name are, and is then that name |
| Adzuna.Normalize | fetch_adzuna.js:29-41 | `source` is always `adzuna` and `date_expires` always null; `company`/`location_raw` come from the nested `display_name`; `country` is the upper-cased country or `US`, so it has no lower-case letter; a null job gives all-null fields with `US` |
| Adzuna.NormalizeCountry | fetch_adzuna.js:37 | a missing country becomes `US`, and an already upper-case country is kept unchanged |
| JsText.ToUpperFixpoints | fetch_adzuna.js:37 | upper-casing leaves no lower-case letter, is idempotent, and leaves a string unchanged exactly when it has no lower-case letter |
| JsText.ToUpper | fetch_adzuna.js:37 | same length, each character upper-cased |
| Adzuna.ExtractDescription | fetch_adzuna.js:43-45 | the job's description unchanged, or `""` when the job or its description is absent |
| Enrich.Render | index.js:23 | a present id is rendered as itself; the rendering is `null` exactly for a null id or the id `"null"` |
| Enrich.UidInput | index.js:23 | the hash input is the source, then `:`, then the rendered id |
| Enrich.JobUid | index.js:20-24 | the key is the hash of `${source}:${sourceJobId}` |
| Enrich.UidInputInjective | index.js:23 | for one source the hash input is equal exactly when the rendered ids are; for sources without `:`, exactly when sources and rendered ids are |
| Enrich.UidOfNullId | index.js:20-24 | a null id is rendered `null`, so it gets the same key as the id `"null"`, and its hash input differs from that of every other id |
| Enrich.DistinctIdsExample | index.js:23 | the Adzuna ids `123` and `124` give different hash inputs |
| Enrich.Assemble | index.js:55-61 | a record keeps the run's timestamp and the normalised posting; its key hashes `source:id`; `description_clean` is the cleaned raw description and is clean; the signals scan the raw description and equal the scan of the cleaned one |
| Enrich.UsajobsItems | index.js:49 | `SearchResult.SearchResultItems` when the response, its `SearchResult` and the list are all present; `[]` when any of them is missing |
| Enrich.EnrichUsajobsItem | index.js:50-62 | a USAJOBS record's posting is `normalizeUsajobsPosting(item)`, its key hashes `usajobs:id`, and its text and signals come from `extractUsajobsDescription(item)` |
| Enrich.EnrichUsajobs | index.js:49-62 | one record per item, in order, each with the run's timestamp |
| Enrich.AdzunaJobs | index.js:80 | the response's `results` when both are present; `[]` when either is missing |
| Enrich.EnrichAdzunaJob | index.js:81-93 | an Adzuna record's posting is `normalizeAdzunaPosting(job)` with an upper-case country, its key hashes `adzuna:id`, and its text and signals come from `extractAdzunaDescription(job)` |
| Enrich.EnrichAdzuna | index.js:80-93 | one record per job, in order, each with the run's timestamp |
| Enrich.BatchesShareIngestTs | index.js:49-93 | every record of a run, from either provider, carries the same `ingest_ts`; a missing response, `SearchResult`, `SearchResultItems` or `results` gives no records |
| Enrich.MissingLocationExample | index.js:81-93 | an Adzuna job without a location yields a full record: `location_raw` null and `date_expires` null (as for every Adzuna job), id, URL, title, company and posting date taken from the job, `gb` upper-cased to `GB`, the key hashing `adzuna:123`, and `Build things` cleaned to `build things` |
| Enrich.MissingLocationDescription | index.js:83-90 | the cleaned description of that job is `build things` |
| Enrich.HourOf | index.js:65 | `slice(0, 13)`: 13 characters of a long enough timestamp, the whole timestamp otherwise, always a prefix |
| Enrich.PartitionSuffix | index.js:65 | the part after the provider is `ingest_ts=`, the hour, then `/batch.json` |
| Enrich.PartitionSuffixInjective | index.js:65 | two such parts are equal exactly when the hours are |
| Enrich.BatchPath | index.js:65 | the path is `enriched/`, the provider, `/`, then the partition part for the hour of the timestamp |
| Enrich.BatchPathPartition | index.js:65 | for provider names without `/`, two batch paths are equal exactly when the providers and the hour-truncated timestamps are equal |
| Enrich.UsajobsBatch | index.js:64-67 | the USAJOBS write goes to `enriched/usajobs/ingest_ts=<hour>/batch.json` with the run's timestamp, source `usajobs` and the enriched records |
| Enrich.AdzunaBatch | index.js:95-98 | the Adzuna write goes to `enriched/adzuna/ingest_ts=<hour>/batch.json` with the run's timestamp, source `adzuna` and the enriched records |

## Left out

- `fetchUsajobs` (fetch_usajobs.js:1-32) and `fetchAdzuna` (fetch_adzuna.js:1-27): these are network I/O and environment reads. Their contract is to throw when a credential is missing or the response is not OK. The response is a parameter of the model (`Enrich.UsajobsResponse`, `Enrich.AdzunaResponse`).
- `writeJsonToGCS` and the storage client (index.js:17-18, 27-32): a foreign library. The model stops at the path and the document to be written (`Enrich.UsajobsBatch`, `Enrich.AdzunaBatch`). The JSON text formatting is library behaviour and is also left out.
- `run()` plumbing:
  - The clock read at index.js:37 becomes the `ingestTs` parameter.
  - The check at index.js:35, which throws when `INGESTION_BUCKET` is not set, is not modelled: the bucket belongs to the storage client, which is left out.
  - The query parameters and their environment defaults (index.js:42-47, 72-78), the console output (index.js:100-102) and the error handler that exits the process (index.js:105-108) are not modelled.
- Enrich.JobUid: SHA-256 itself is a parameter, `sha256`. It is any fixed function from strings to 64 lower-case hex digits, so only the hash input is modelled.
- JsText.ToLower: only ASCII letters change case. JavaScript also maps other Unicode letters.
- JsText.ToUpper: only ASCII letters change case. JavaScript also maps other Unicode letters.
- KeywordScan.RegexTest: only the fragment of regular expressions the scanner builds is interpreted: literal characters, escaped special characters and `\b`. Any other pattern reads as `None`. `KeywordScan.EscapeRegexIsLiteral` shows every keyword's pattern falls in the fragment.
- Upstream values that are not strings or null are not modelled. Examples are a numeric `id` rendered by a template literal, or an array-valued USAJOBS section, which `join` would stringify. Every upstream field is an optional string.
- Enrich.EnrichedPosting: the normalised fields, which the source spreads into the record, are kept as one nested `posting` field. Field order and flattening in the written JSON are not modelled.
- The `./sources/usajobs.js` and `./sources/adzuna.js` modules imported at index.js:5-15 are not part of this model. `fetch_usajobs.js` and `fetch_adzuna.js` are taken to be them.
- Usajobs.ExtractDescriptionSections: the split-back property is stated only for sections with no blank line inside and no line break at the end. A blank line inside a section cannot be told apart from a separator, and neither can a line break that ends a section and meets the separator.
- Enrich.UidInputInjective: keys of different sources are shown distinct only for source names without `:`. Both sources the engine uses qualify.
