/** lib/imageGenerator.ts: pick a backdrop from a TMDB search, download it under public/ and
    return its public path. The search and the download are oracles. */
module ImageGenerator {
  import opened Types
  import opened TmdbSearch

  const ImageBase := "https://image.tmdb.org/t/p/w780"

  /** The first hit's backdrop as a full image URL, or `None`. */
  function ExtractBackdrop(result: SearchResult): (url: Option<string>)
    ensures url.None? <==> !HasFirstHit(result) || !Truthy(FirstHit(result).backdropPath)
    ensures url.Some? ==> url.value == ImageBase + FirstHit(result).backdropPath.value
  {
    if result.Missing? || result.results.None? || |result.results.value| == 0 then None
    else
      var item := result.results.value[0];
      if !Truthy(item.backdropPath) then None
      else Some(ImageBase + item.backdropPath.value)
  }

  /** Only the first hit is consulted. */
  lemma ExtractBackdropFirstHitOnly(r1: SearchResult, r2: SearchResult)
    requires HasFirstHit(r1) && HasFirstHit(r2) && FirstHit(r1) == FirstHit(r2)
    ensures ExtractBackdrop(r1) == ExtractBackdrop(r2)
  {
  }

  // ---- path.extname, for POSIX paths ----

  /** The position of the last `c` in `s`, or -1 when there is none. */
  function LastIndexOf(s: string, c: char): (k: int)
    ensures -1 <= k < |s|
    ensures k >= 0 ==> s[k] == c
    ensures forall j | k < j < |s| :: s[j] != c
  {
    if s == [] then -1
    else if s[|s| - 1] == c then |s| - 1
    else LastIndexOf(s[..|s| - 1], c)
  }

  /** `p` without the slashes it ends with. */
  function TrimTrailingSlashes(p: string): (q: string)
    ensures |q| <= |p| && q == p[..|q|]
    ensures q == [] || q[|q| - 1] != '/'
    ensures forall j | |q| <= j < |p| :: p[j] == '/'
  {
    if p == [] || p[|p| - 1] != '/' then p
    else TrimTrailingSlashes(p[..|p| - 1])
  }

  /** The last path segment, trailing slashes ignored. */
  function BaseName(p: string): (b: string)
    ensures '/' !in b
  {
    var q := TrimTrailingSlashes(p);
    q[LastIndexOf(q, '/') + 1..]
  }

  /** `path.extname`: the last segment's suffix from its last `.`; empty when the segment has
      no dot, when its only dot is its first character, and for the segment "..". */
  function Extname(p: string): (ext: string)
    // there is an extension exactly when the last segment has a dot after its first character
    // and is not ".."
    ensures var b := BaseName(p);
      ext != "" <==> (exists k | 0 < k < |b| :: b[k] == '.') && b != ".."
    ensures ext != "" ==> ext[0] == '.' && '.' !in ext[1..] && '/' !in ext
    ensures ext != "" ==> |ext| < |BaseName(p)| && BaseName(p)[|BaseName(p)| - |ext|..] == ext
  {
    var b := BaseName(p);
    var d := LastIndexOf(b, '.');
    if d <= 0 || b == ".." then "" else b[d..]
  }

  /** For a URL that ends in `/<stem>.<suffix>`, as TMDB backdrop paths do, the extension
      is `.<suffix>`. */
  lemma ExtnameOfFileUrl(dir: string, stem: string, suffix: string)
    requires stem != [] && '/' !in stem && '.' !in stem
    requires '/' !in suffix && '.' !in suffix
    ensures Extname(dir + "/" + stem + "." + suffix) == "." + suffix
  {
    var p := dir + "/" + stem + "." + suffix;
    assert p[|p| - 1] != '/' by {
      if suffix == [] { assert p[|p| - 1] == '.'; } else { assert p[|p| - 1] == suffix[|suffix| - 1]; }
    }
    assert TrimTrailingSlashes(p) == p;
    var k := LastIndexOf(p, '/');
    assert p[|dir|] == '/';
    forall j | |dir| < j < |p| ensures p[j] != '/' {
      if j <= |dir| + |stem| { assert p[j] == stem[j - |dir| - 1]; }
      else if j > |dir| + |stem| + 1 { assert p[j] == suffix[j - |dir| - |stem| - 2]; }
    }
    assert k == |dir|;
    var b := BaseName(p);
    assert b == stem + "." + suffix;
    var d := LastIndexOf(b, '.');
    assert b[|stem|] == '.';
    forall j | |stem| < j < |b| ensures b[j] != '.' {
      assert b[j] == suffix[j - |stem| - 1];
    }
    assert d == |stem|;
    assert b != ".." by { assert b[0] == stem[0]; }
    assert b[d..] == "." + suffix;
  }

  // ---- the output file name ----

  /** Lowercasing of ASCII letters; every other character is left as it is. */
  function LowerAscii(c: char): char
  {
    if 'A' <= c <= 'Z' then (c as int + 32) as char else c
  }

  function ToLowerCase(s: string): (r: string)
    ensures |r| == |s| && forall i | 0 <= i < |s| :: r[i] == LowerAscii(s[i])
  {
    if s == [] then [] else [LowerAscii(s[0])] + ToLowerCase(s[1..])
  }

  /** Every space becomes an underscore. */
  function ReplaceSpaces(s: string): (r: string)
    ensures |r| == |s| && forall i | 0 <= i < |s| :: r[i] == if s[i] == ' ' then '_' else s[i]
  {
    if s == [] then [] else [if s[0] == ' ' then '_' else s[0]] + ReplaceSpaces(s[1..])
  }

  /** The query part of the file name, character by character. */
  lemma FileStemShape(query: string)
    ensures var stem := ReplaceSpaces(ToLowerCase(query));
      && |stem| == |query|
      && (forall i | 0 <= i < |query| :: stem[i] == if query[i] == ' ' then '_' else LowerAscii(query[i]))
      && (forall i | 0 <= i < |query| :: stem[i] != ' ' && !('A' <= stem[i] <= 'Z'))
  {
    var lower := ToLowerCase(query);
    var stem := ReplaceSpaces(lower);
    forall i | 0 <= i < |query| ensures stem[i] == if query[i] == ' ' then '_' else LowerAscii(query[i]) {
      assert stem[i] == if lower[i] == ' ' then '_' else lower[i];
    }
  }

  /** The name of the written file: the query, lowercased with spaces turned into
      underscores, and then the URL's extension. It is as long as both together and has no
      space and no upper-case ASCII letter before the extension. */
  function OutputFileName(query: string, backdropUrl: string): (name: string)
    ensures |name| == |query| + |Extname(backdropUrl)|
    ensures name[|query|..] == Extname(backdropUrl)
    ensures forall i | 0 <= i < |query| :: name[i] == if query[i] == ' ' then '_' else LowerAscii(query[i])
    ensures forall i | 0 <= i < |query| :: name[i] != ' ' && !('A' <= name[i] <= 'Z')
  {
    var stem := ReplaceSpaces(ToLowerCase(query));
    FileStemShape(query);
    assert (stem + Extname(backdropUrl))[|query|..] == Extname(backdropUrl);
    stem + Extname(backdropUrl)
  }

  // ---- generateImage ----

  /** What `generateImage` does: throws (the search failed), or resolves to a path or null. */
  datatype ImageOutcome = ImageThrew | ImageResolved(path: Option<string>)

  /** `search(query, kind)` is what `searchTMDB(query, kind)` yields; `download(url)` says
      whether fetching `url` and writing it under public/ succeeded. */
  function GenerateImage(query: string, kind: MediaKind,
                         search: (string, MediaKind) -> SearchOutcome,
                         download: string -> bool): (r: ImageOutcome)
    ensures r.ImageThrew? <==> search(query, kind).SearchThrew?
    ensures r.ImageResolved? && r.path.Some? <==>
      && search(query, kind).SearchReturned?
      && ExtractBackdrop(search(query, kind).body).Some?
      && download(ExtractBackdrop(search(query, kind).body).value)
    ensures r.ImageResolved? && r.path.Some? ==>
      r.path.value == "/" + OutputFileName(query, ExtractBackdrop(search(query, kind).body).value)
  {
    match search(query, kind)
    case SearchThrew => ImageThrew
    case SearchReturned(body) =>
      var backdropUrl := ExtractBackdrop(body);
      if backdropUrl.Some? then
        if download(backdropUrl.value) then ImageResolved(Some("/" + OutputFileName(query, backdropUrl.value)))
        else ImageResolved(None)
      else ImageResolved(None)
  }

  /** Without a backdrop the result is null whatever the download would have done:
      no download is attempted. */
  lemma NoBackdropNoDownload(query: string, kind: MediaKind, search: (string, MediaKind) -> SearchOutcome,
                             download1: string -> bool, download2: string -> bool)
    requires search(query, kind).SearchReturned? && ExtractBackdrop(search(query, kind).body).None?
    ensures GenerateImage(query, kind, search, download1) == ImageResolved(None)
    ensures GenerateImage(query, kind, search, download1) == GenerateImage(query, kind, search, download2)
  {
  }
}
