/** tests/thumbnail_generation/tmdb.js: the stand-alone copy of the backdrop extraction. */
module Tmdb {
  import opened Types
  import opened TmdbSearch
  import ImageGenerator

  const ImageBase := "https://image.tmdb.org/t/p/w780"

  /** Backdrop image URL of the first hit. */
  function ExtractBackdrop(result: SearchResult): (url: Option<string>)
    ensures !HasFirstHit(result) ==> url.None?
    ensures HasFirstHit(result) && !Truthy(FirstHit(result).backdropPath) ==> url.None?
    ensures HasFirstHit(result) && Truthy(FirstHit(result).backdropPath) ==>
      url == Some(ImageBase + FirstHit(result).backdropPath.value)
  {
    match result
    case Missing => None
    case Response(None) => None
    case Response(Some(items)) =>
      if items == [] then None
      else match items[0].backdropPath
        case None => None
        case Some(path) => if path == "" then None else Some(ImageBase + path)
  }

  /** The outcome depends on the first hit alone. */
  lemma FirstHitDecides(r1: SearchResult, r2: SearchResult)
    requires HasFirstHit(r1) && HasFirstHit(r2) && FirstHit(r1) == FirstHit(r2)
    ensures ExtractBackdrop(r1) == ExtractBackdrop(r2)
  {
  }

  /** A found backdrop is always a w780 TMDB image URL. */
  lemma BackdropUnderImageBase(r: SearchResult)
    ensures ExtractBackdrop(r).Some? ==>
      "https://image.tmdb.org/t/p/w780" <= ExtractBackdrop(r).value
      && |ExtractBackdrop(r).value| > |"https://image.tmdb.org/t/p/w780"|
  {
  }

  /** This copy and the one in lib/imageGenerator.ts agree on every input. */
  lemma AgreesWithLibrary(r: SearchResult)
    ensures ExtractBackdrop(r) == ImageGenerator.ExtractBackdrop(r)
  {
  }
}
