/** `GET /api/generate-images`: fill in the missing image URLs of movie and TV trends. */
module ImageBackfill {
  import opened Types
  import opened Store
  import opened TmdbSearch
  import opened ImageGenerator

  /** The query's filter: a movie or TV trend with at least one NULL image URL. */
  function Selected(t: Trend): (b: bool)
    // a row with both URLs set is never picked, and a picked row has a side the loop resolves
    ensures t.optionAImageUrl.Some? && t.optionBImageUrl.Some? ==> !b
    ensures b ==> !Truthy(t.optionAImageUrl) || !Truthy(t.optionBImageUrl)
  {
    (t.category == "movies" || t.category == "tv-shows")
    && (t.optionAImageUrl.None? || t.optionBImageUrl.None?)
  }

  function SelectedIds(rows: map<string, Trend>): (ids: set<string>)
    ensures forall id :: id in ids <==> id in rows && Selected(rows[id])
  {
    set id | id in rows && Selected(rows[id])
  }

  /** The media-kind hint passed to the image search. */
  function KindFor(category: string): (k: MediaKind)
    ensures k == Tv <==> category == "tv-shows"
    ensures k == Movie <==> category != "tv-shows"
  {
    if category == "tv-shows" then Tv else Movie
  }

  datatype FillOutcome = FillThrew | Filled(row: Trend)

  /** The loop body for one row: a side whose URL is falsy is resolved with `GenerateImage`,
      the A side first; a search that throws ends the whole route. */
  function FillRow(t: Trend, search: (string, MediaKind) -> SearchOutcome, download: string -> bool): (r: FillOutcome)
    ensures var genA := GenerateImage(t.optionA, KindFor(t.category), search, download);
      var genB := GenerateImage(t.optionB, KindFor(t.category), search, download);
      r.FillThrew? <==> (!Truthy(t.optionAImageUrl) && genA.ImageThrew?) || (!Truthy(t.optionBImageUrl) && genB.ImageThrew?)
    // only the two image fields change
    ensures r.Filled? ==> SameIdentity(t, r.row) && r.row.votesA == t.votesA && r.row.votesB == t.votesB
    // a URL that is set is never replaced
    ensures r.Filled? && Truthy(t.optionAImageUrl) ==> r.row.optionAImageUrl == t.optionAImageUrl
    ensures r.Filled? && Truthy(t.optionBImageUrl) ==> r.row.optionBImageUrl == t.optionBImageUrl
    // a missing one gets what the image generator resolved for that option and kind
    ensures r.Filled? && !Truthy(t.optionAImageUrl) ==>
      GenerateImage(t.optionA, KindFor(t.category), search, download) == ImageResolved(r.row.optionAImageUrl)
    ensures r.Filled? && !Truthy(t.optionBImageUrl) ==>
      GenerateImage(t.optionB, KindFor(t.category), search, download) == ImageResolved(r.row.optionBImageUrl)
  {
    var kind := KindFor(t.category);
    var a := if Truthy(t.optionAImageUrl) then ImageResolved(t.optionAImageUrl)
             else GenerateImage(t.optionA, kind, search, download);
    if a.ImageThrew? then FillThrew
    else
      var b := if Truthy(t.optionBImageUrl) then ImageResolved(t.optionBImageUrl)
               else GenerateImage(t.optionB, kind, search, download);
      if b.ImageThrew? then FillThrew
      else Filled(t.(optionAImageUrl := a.path, optionBImageUrl := b.path))
  }

  /** The table after a run in which no search threw: every selected row whose update did
      not fail holds its filled version; every other row is as it was. */
  function Backfilled(rows: map<string, Trend>, search: (string, MediaKind) -> SearchOutcome,
                      download: string -> bool, updateFails: set<string>): (r: map<string, Trend>)
    ensures r.Keys == rows.Keys
    // only the image URLs of a row ever change
    ensures forall id | id in rows ::
      SameIdentity(rows[id], r[id]) && r[id].votesA == rows[id].votesA && r[id].votesB == rows[id].votesB
    // a row that is not selected, or whose update failed, is as it was
    ensures forall id | id in rows && (!Selected(rows[id]) || id in updateFails) :: r[id] == rows[id]
    // a URL that was set stays set to the same value
    ensures forall id | id in rows && Truthy(rows[id].optionAImageUrl) :: r[id].optionAImageUrl == rows[id].optionAImageUrl
    ensures forall id | id in rows && Truthy(rows[id].optionBImageUrl) :: r[id].optionBImageUrl == rows[id].optionBImageUrl
  {
    map id | id in rows ::
      if Selected(rows[id]) && id !in updateFails && FillRow(rows[id], search, download).Filled?
      then FillRow(rows[id], search, download).row
      else rows[id]
  }

  /** Every image the generator is asked for resolves to a path. */
  ghost predicate AlwaysResolves(search: (string, MediaKind) -> SearchOutcome, download: string -> bool)
  {
    forall q, k :: GenerateImage(q, k, search, download).ImageResolved? && GenerateImage(q, k, search, download).path.Some?
  }

  /** With a generator that always resolves, a filled row has both URLs. */
  lemma FillRowCompletes(t: Trend, search: (string, MediaKind) -> SearchOutcome, download: string -> bool)
    requires AlwaysResolves(search, download)
    ensures FillRow(t, search, download).Filled?
    ensures FillRow(t, search, download).row.optionAImageUrl.Some?
    ensures FillRow(t, search, download).row.optionBImageUrl.Some?
  {
    var g := GenerateImage(t.optionA, KindFor(t.category), search, download);
    var h := GenerateImage(t.optionB, KindFor(t.category), search, download);
    assert g.ImageResolved? && g.path.Some?;
    assert h.ImageResolved? && h.path.Some?;
  }

  /** A table with nothing selected is left as it is. */
  lemma NothingSelectedNoChange(rows: map<string, Trend>, search: (string, MediaKind) -> SearchOutcome,
                                download: string -> bool, updateFails: set<string>)
    requires SelectedIds(rows) == {}
    ensures Backfilled(rows, search, download, updateFails) == rows
  {
    var r := Backfilled(rows, search, download, updateFails);
    forall id | id in rows ensures r[id] == rows[id] {
      assert id !in SelectedIds(rows);
    }
  }

  /** When every image resolves to a path and no update fails, a run leaves nothing to
      select, so running again changes nothing. */
  lemma BackfillConverges(rows: map<string, Trend>, search: (string, MediaKind) -> SearchOutcome,
                          download: string -> bool)
    requires AlwaysResolves(search, download)
    ensures SelectedIds(Backfilled(rows, search, download, {})) == {}
    ensures Backfilled(Backfilled(rows, search, download, {}), search, download, {}) == Backfilled(rows, search, download, {})
  {
    var once := Backfilled(rows, search, download, {});
    forall id | id in once ensures !Selected(once[id]) {
      FillRowCompletes(rows[id], search, download);
    }
    NothingSelectedNoChange(once, search, download, {});
  }

  datatype BackfillResponse =
    | NothingToUpdate   // 200 "No trends to update."
    | Complete          // 200 "Image generation complete."
    | BackfillFailed    // 500 "Failed to generate images"

  /** The loop body up to the update: resolve the falsy sides of `trend`, the A side first,
      with the kind its category calls for. `threw` is a search throwing, which leaves the
      route. */
  method ResolveImages(trend: Trend, search: (string, MediaKind) -> SearchOutcome, download: string -> bool)
    returns (threw: bool, imageA: Option<string>, imageB: Option<string>)
    ensures threw <==> FillRow(trend, search, download).FillThrew?
    ensures !threw ==>
      FillRow(trend, search, download) == Filled(trend.(optionAImageUrl := imageA, optionBImageUrl := imageB))
  {
    var kind := KindFor(trend.category);
    imageA, imageB := trend.optionAImageUrl, trend.optionBImageUrl;
    if !Truthy(imageA) {
      var generated := GenerateImage(trend.optionA, kind, search, download);
      if generated.ImageThrew? {
        return true, imageA, imageB;
      }
      imageA := generated.path;
    }
    if !Truthy(imageB) {
      var generated := GenerateImage(trend.optionB, kind, search, download);
      if generated.ImageThrew? {
        return true, imageA, imageB;
      }
      imageB := generated.path;
    }
    threw := false;
  }

  /** A table part-way through the loop has each row untouched or replaced by its fill, so
      the active flags and categories are those of the queried table. */
  lemma PartialFillKeepsOneActive(queried: map<string, Trend>, current: map<string, Trend>, done: set<string>,
                                  search: (string, MediaKind) -> SearchOutcome, download: string -> bool,
                                  updateFails: set<string>)
    requires current.Keys == queried.Keys && done <= queried.Keys
    requires forall id | id in done :: FillRow(queried[id], search, download).Filled?
    requires forall id | id in queried ::
      current[id] == if id in done && id !in updateFails then FillRow(queried[id], search, download).row else queried[id]
    ensures AtMostOneActivePerCategory(queried) ==> AtMostOneActivePerCategory(current)
  {
    forall id | id in queried ensures SameIdentity(queried[id], current[id]) {
    }
  }

  /** The loop over the selected rows, taken in an unspecified order: resolve each row's
      missing images and write them unless its update fails. A search that throws ends the
      loop at once (`threw`). `done` is the rows handled so far; each holds its fill unless its
      update failed, and every other row is as it was. */
  method FillSelected(store: TrendStore, selected: set<string>, search: (string, MediaKind) -> SearchOutcome,
                      download: string -> bool, updateFails: set<string>)
    returns (threw: bool, ghost done: set<string>)
    requires store.Valid() && selected <= store.rows.Keys
    modifies store
    ensures store.Valid() && store.rows.Keys == old(store.rows).Keys
    ensures done <= selected && (!threw ==> done == selected)
    ensures forall id | id in done :: FillRow(old(store.rows)[id], search, download).Filled?
    ensures forall id | id in old(store.rows) ::
      store.rows[id] == if id in done && id !in updateFails then FillRow(old(store.rows)[id], search, download).row
                        else old(store.rows)[id]
    ensures threw ==> exists id | id in selected :: FillRow(old(store.rows)[id], search, download).FillThrew?
  {
    ghost var queried := store.rows;
    var todo := selected;
    done := {};
    while todo != {}
      invariant todo + done == selected && todo !! done
      invariant store.Valid() && store.rows.Keys == queried.Keys
      invariant forall id | id in done :: FillRow(queried[id], search, download).Filled?
      invariant forall id | id in queried ::
        store.rows[id] == if id in done && id !in updateFails then FillRow(queried[id], search, download).row else queried[id]
      decreases todo
    {
      var id :| id in todo;
      var imageA, imageB;
      threw, imageA, imageB := ResolveImages(store.rows[id], search, download);
      if threw {
        return;
      }
      if id !in updateFails {
        store.UpdateImages(id, imageA, imageB);
      }
      todo := todo - {id};
      done := done + {id};
    }
    threw := false;
  }

  /** The route handler. `queryFails` is the selecting query reporting an error and
      `updateFails` the rows whose update reports one; the order in which the query returns
      the selected rows is left open. */
  method Get(store: TrendStore, search: (string, MediaKind) -> SearchOutcome, download: string -> bool,
             queryFails: bool, updateFails: set<string>) returns (resp: BackfillResponse)
    requires store.Valid()
    modifies store
    ensures store.Valid()
    ensures AtMostOneActivePerCategory(old(store.rows)) ==> AtMostOneActivePerCategory(store.rows)
    ensures queryFails ==> resp == BackfillFailed && store.rows == old(store.rows)
    ensures resp == NothingToUpdate <==> !queryFails && SelectedIds(old(store.rows)) == {}
    ensures resp == NothingToUpdate ==> store.rows == old(store.rows)
    // a search that throws for a selected row ends the route with the 500 response
    ensures !queryFails && (exists id | id in SelectedIds(old(store.rows)) :: FillRow(old(store.rows)[id], search, download).FillThrew?) ==>
      resp == BackfillFailed
    // the run completes unless a search throws for some selected row
    ensures resp == Complete <==>
      && !queryFails && SelectedIds(old(store.rows)) != {}
      && forall id | id in SelectedIds(old(store.rows)) :: FillRow(old(store.rows)[id], search, download).Filled?
    // a complete run has handled every selected row, failed updates notwithstanding
    ensures resp == Complete ==> store.rows == Backfilled(old(store.rows), search, download, updateFails)
    // in every case: each row is untouched or holds its fill, and only selected rows are written
    ensures store.rows.Keys == old(store.rows).Keys
    ensures forall id | id in store.rows ::
      || store.rows[id] == old(store.rows)[id]
      || (id in SelectedIds(old(store.rows)) && id !in updateFails
          && FillRow(old(store.rows)[id], search, download) == Filled(store.rows[id]))
  {
    if queryFails {
      return BackfillFailed;
    }
    ghost var queried := store.rows;
    var selected := SelectedIds(store.rows);
    if selected == {} {
      return NothingToUpdate;
    }
    var threw;
    ghost var done;
    threw, done := FillSelected(store, selected, search, download, updateFails);
    PartialFillKeepsOneActive(queried, store.rows, done, search, download, updateFails);
    if threw {
      return BackfillFailed;
    }
    assert store.rows == Backfilled(queried, search, download, updateFails);
    resp := Complete;
  }
}
