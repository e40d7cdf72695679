/** The parts of a TMDB search response that the backdrop extraction looks at. */
module TmdbSearch {
  import opened Types

  /** One hit of a search; `backdrop_path` may be missing or null (`None`). */
  datatype SearchItem = SearchItem(backdropPath: Option<string>)

  /** The response body: `Missing` when it is null or undefined; otherwise its `results`
      field, which may itself be missing or null. */
  datatype SearchResult = Missing | Response(results: Option<seq<SearchItem>>)

  /** What the search request produced: it threw (network or HTTP error), or it returned a body. */
  datatype SearchOutcome = SearchThrew | SearchReturned(body: SearchResult)

  datatype MediaKind = Movie | Tv

  /** The body is present and has a non-empty `results` list: there is a first hit. */
  predicate HasFirstHit(r: SearchResult)
  {
    r.Response? && r.results.Some? && |r.results.value| > 0
  }

  function FirstHit(r: SearchResult): SearchItem
    requires HasFirstHit(r)
  {
    r.results.value[0]
  }
}
