/** The `trends` table as an in-memory store, with the two column updates the routes issue. */
module Store {
  import opened Types

  /** The `trends` table: every row under its primary key `id`. */
  class TrendStore {
    var rows: map<string, Trend>

    /** What the table keeps: rows are found under their own id, their primary key. Nothing
        in the app stops a category from having two active rows; the updates below keep a
        table with at most one active row per category that way. */
    ghost predicate Valid()
      reads this
    {
      KeysAreIds(rows)
    }

    constructor (initial: map<string, Trend>)
      requires KeysAreIds(initial)
      ensures Valid() && rows == initial
    {
      rows := initial;
    }

    /** The vote route's update: writes the two counters of the row with that id; an id
        that matches no row changes nothing. */
    method UpdateVotes(id: string, votesA: int, votesB: int)
      requires Valid()
      modifies this
      ensures Valid()
      ensures AtMostOneActivePerCategory(old(rows)) ==> AtMostOneActivePerCategory(rows)
      ensures id in old(rows) ==> rows == old(rows)[id := old(rows)[id].(votesA := votesA, votesB := votesB)]
      ensures id !in old(rows) ==> rows == old(rows)
    {
      if id in rows {
        rows := rows[id := rows[id].(votesA := votesA, votesB := votesB)];
      }
    }

    /** The backfill's update: writes the two image columns of the row with that id; an id
        that matches no row changes nothing. */
    method UpdateImages(id: string, imageA: Option<string>, imageB: Option<string>)
      requires Valid()
      modifies this
      ensures Valid()
      ensures AtMostOneActivePerCategory(old(rows)) ==> AtMostOneActivePerCategory(rows)
      ensures id in old(rows) ==>
        rows == old(rows)[id := old(rows)[id].(optionAImageUrl := imageA, optionBImageUrl := imageB)]
      ensures id !in old(rows) ==> rows == old(rows)
    {
      if id in rows {
        rows := rows[id := rows[id].(optionAImageUrl := imageA, optionBImageUrl := imageB)];
      }
    }
  }
}
