/** The records of the `trends` table and small helper wrappers. */
module Types {

  datatype Option<+T> = None | Some(value: T)

  /** A row of the `trends` table. `createdAt` is the creation timestamp as a number,
      which is what the listing orders by. An image URL is `None` while it is SQL NULL. */
  datatype Trend = Trend(
    id: string,
    category: string,
    optionA: string,
    optionB: string,
    optionAImageUrl: Option<string>,
    optionBImageUrl: Option<string>,
    votesA: int,
    votesB: int,
    createdAt: int,
    active: bool)

  /** JavaScript truthiness of a nullable string: null and "" are both falsy. */
  predicate Truthy(s: Option<string>)
  {
    s.Some? && s.value != ""
  }

  /** Every row is stored under its own id. */
  ghost predicate KeysAreIds(rows: map<string, Trend>)
  {
    forall id | id in rows :: rows[id].id == id
  }

  /** Vote counters are never negative. */
  ghost predicate CountersNonNegative(rows: map<string, Trend>)
  {
    forall id | id in rows :: rows[id].votesA >= 0 && rows[id].votesB >= 0
  }

  /** At most one active row per category. */
  ghost predicate AtMostOneActivePerCategory(rows: map<string, Trend>)
  {
    forall i, j | i in rows && j in rows && rows[i].active && rows[j].active
      && rows[i].category == rows[j].category :: i == j
  }

  ghost predicate WellFormed(rows: map<string, Trend>)
  {
    KeysAreIds(rows) && CountersNonNegative(rows) && AtMostOneActivePerCategory(rows)
  }

  /** The fields that neither the vote nor the image backfill ever write. */
  predicate SameIdentity(t: Trend, u: Trend)
  {
    t.id == u.id && t.category == u.category && t.optionA == u.optionA && t.optionB == u.optionB
    && t.createdAt == u.createdAt && t.active == u.active
  }
}
