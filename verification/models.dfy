/** The records of the candidate pipeline (jcmars/backend/models.py). */
module Models {
  import opened Wrappers

  /** One search: the four identity fields plus the ranking knobs. */
  datatype SearchQuery = SearchQuery(
    year: int,
    regionName: string,
    position: string,
    keywords: Option<string>,
    minConfidence: real,
    maxResults: int)

  /** An aggregated candidate. `confidenceScore` and `rank` are filled in by
      the ranker; `evidenceSources` and `contextSnippets` run in parallel, in
      discovery order, and may repeat a URL. */
  datatype Candidate = Candidate(
    name: string,
    regionName: string,
    organizationName: string,
    position: string,
    year: int,
    confidenceScore: real,
    rank: int,
    evidenceSources: seq<string>,
    contextSnippets: seq<string>,
    fullTitle: string,
    verified: bool)
}
