/** `GET /api/trends`: the active trends, newest first, keyed by category (first one wins). */
module Trends {
  import opened Types
  import opened Store

  datatype ListResponse =
    | TrendsByCategory(byCategory: map<string, Trend>)   // 200
    | FetchFailed                                        // 500 "Failed to fetch trends"

  /** Rows ordered by `created_at`, newest first. */
  ghost predicate NewestFirst(s: seq<Trend>)
  {
    forall i, j | 0 <= i < j < |s| :: s[i].createdAt >= s[j].createdAt
  }

  /** No two rows of `s` share a category unless they are the same row. */
  ghost predicate OnePerCategory(s: seq<Trend>)
  {
    forall i, j | 0 <= i < |s| && 0 <= j < |s| && s[i].category == s[j].category :: s[i] == s[j]
  }

  /** The query's filter on the `active` flag: the active rows, in the order they came. */
  function ActiveRows(s: seq<Trend>): (r: seq<Trend>)
    ensures forall t :: t in r <==> t in s && t.active
    ensures |r| <= |s|
  {
    if s == [] then []
    else if s[0].active then [s[0]] + ActiveRows(s[1..])
    else ActiveRows(s[1..])
  }

  lemma NewestFirstTail(s: seq<Trend>)
    requires NewestFirst(s) && s != []
    ensures NewestFirst(s[1..])
    ensures forall t | t in s :: t.createdAt <= s[0].createdAt
  {
    forall i, j | 0 <= i < j < |s[1..]| ensures s[1..][i].createdAt >= s[1..][j].createdAt {
      assert s[1..][i] == s[i + 1] && s[1..][j] == s[j + 1];
    }
    forall t | t in s ensures t.createdAt <= s[0].createdAt {
      var k :| 0 <= k < |s| && s[k] == t;
      assert k == 0 || s[0].createdAt >= s[k].createdAt;
    }
  }

  lemma NewestFirstCons(x: Trend, r: seq<Trend>)
    requires NewestFirst(r) && forall t | t in r :: t.createdAt <= x.createdAt
    ensures NewestFirst([x] + r)
  {
    var s := [x] + r;
    forall i, j | 0 <= i < j < |s| ensures s[i].createdAt >= s[j].createdAt {
      assert s[j] == r[j - 1];
      if i > 0 {
        assert s[i] == r[i - 1];
      } else {
        assert r[j - 1] in r;
      }
    }
  }

  /** Filtering keeps the query's ordering. */
  lemma {:induction false} ActiveRowsNewestFirst(s: seq<Trend>)
    requires NewestFirst(s)
    ensures NewestFirst(ActiveRows(s))
  {
    if s != [] {
      NewestFirstTail(s);
      ActiveRowsNewestFirst(s[1..]);
      if s[0].active {
        NewestFirstCons(s[0], ActiveRows(s[1..]));
      }
    }
  }

  /** Reference definition: the first row of `s` whose category is `c`. */
  function FirstOfCategory(s: seq<Trend>, c: string): (r: Option<Trend>)
    ensures r.Some? ==> r.value in s && r.value.category == c
    ensures r.None? <==> forall t | t in s :: t.category != c
  {
    if s == [] then None
    else if s[0].category == c then Some(s[0])
    else FirstOfCategory(s[1..], c)
  }

  /** In a newest-first sequence the first row of a category is the most recent one. */
  lemma {:induction false} FirstOfCategoryIsNewest(s: seq<Trend>, c: string)
    requires NewestFirst(s) && FirstOfCategory(s, c).Some?
    ensures forall t | t in s && t.category == c :: t.createdAt <= FirstOfCategory(s, c).value.createdAt
  {
    NewestFirstTail(s);
    if s[0].category != c {
      FirstOfCategoryIsNewest(s[1..], c);
      forall t | t in s && t.category == c ensures t.createdAt <= FirstOfCategory(s, c).value.createdAt {
        assert t in s[1..] by { assert t != s[0]; }
      }
    }
  }

  lemma {:induction false} FirstOfCategoryAppend(s: seq<Trend>, t: Trend, c: string)
    ensures FirstOfCategory(s + [t], c) ==
      if FirstOfCategory(s, c).Some? then FirstOfCategory(s, c)
      else if t.category == c then Some(t) else None
  {
    if s == [] {
      assert s + [t] == [t];
      assert [t][1..] == [];
    } else {
      assert (s + [t])[0] == s[0];
      assert (s + [t])[1..] == s[1..] + [t];
      FirstOfCategoryAppend(s[1..], t, c);
    }
  }

  /** What the `forEach` leaves in `trendsByCategory` after visiting `s` in order:
      a row is stored only when its category has no entry yet. */
  function FirstPerCategory(s: seq<Trend>): (m: map<string, Trend>)
    // every stored row is a row of `s` under its own category, and the keys are exactly the
    // categories occurring in `s`
    ensures forall c | c in m :: m[c] in s && m[c].category == c
    ensures m.Keys == set t | t in s :: t.category
  {
    if s == [] then map[]
    else
      var init, t := s[..|s| - 1], s[|s| - 1];
      assert s == init + [t];
      var m := FirstPerCategory(init);
      if t.category in m then m else m[t.category := t]
  }

  /** Each category of `s` maps to its first row in `s`, and nothing else is a key. */
  lemma {:induction false} FirstPerCategoryIsFirst(s: seq<Trend>)
    ensures forall c :: c in FirstPerCategory(s) <==> FirstOfCategory(s, c).Some?
    ensures forall c | c in FirstPerCategory(s) :: FirstOfCategory(s, c) == Some(FirstPerCategory(s)[c])
  {
    if s != [] {
      var init, t := s[..|s| - 1], s[|s| - 1];
      assert s == init + [t];
      FirstPerCategoryIsFirst(init);
      forall c ensures FirstOfCategory(s, c) ==
        if FirstOfCategory(init, c).Some? then FirstOfCategory(init, c)
        else if t.category == c then Some(t) else None
      {
        FirstOfCategoryAppend(init, t, c);
      }
    }
  }

  /** When no category repeats, every row of `s` is stored. */
  lemma OnePerCategoryKeepsAll(s: seq<Trend>)
    requires OnePerCategory(s)
    ensures FirstPerCategory(s).Values == set t | t in s
  {
    var m := FirstPerCategory(s);
    forall t | t in s ensures t in m.Values {
      assert t.category in m;
      var i :| 0 <= i < |s| && s[i] == t;
      var j :| 0 <= j < |s| && s[j] == m[t.category];
      assert m[t.category] == t;
    }
  }

  /** The rows of a table with at most one active row per category, in any order, have no two
      active rows sharing a category. */
  lemma ActiveRowsOnePerCategory(rows: map<string, Trend>, table: seq<Trend>)
    requires AtMostOneActivePerCategory(rows)
    requires forall t :: t in table <==> t in rows.Values
    ensures OnePerCategory(ActiveRows(table))
  {
    var r := ActiveRows(table);
    forall i, j | 0 <= i < |r| && 0 <= j < |r| && r[i].category == r[j].category ensures r[i] == r[j] {
      assert r[i] in table && r[j] in table;
      var ki :| ki in rows && rows[ki] == r[i];
      var kj :| kj in rows && rows[kj] == r[j];
    }
  }

  /** What the listing promises about the map built from the active rows of a newest-first
      `table`, whether or not a category has several active rows. */
  lemma ListingProperties(table: seq<Trend>)
    requires NewestFirst(table)
    ensures var m := FirstPerCategory(ActiveRows(table));
      // every stored trend is active, comes from the table and sits under its own category
      && (forall c | c in m :: m[c].active && m[c] in table && m[c].category == c)
      // the categories are exactly those with an active trend
      && m.Keys == (set t | t in table && t.active :: t.category)
      // each category holds the first of its active trends in the query's order ...
      && (forall c | c in m :: FirstOfCategory(ActiveRows(table), c) == Some(m[c]))
      // ... which is its most recent one
      && (forall c, t | c in m && t in table && t.active && t.category == c :: t.createdAt <= m[c].createdAt)
  {
    var trends := ActiveRows(table);
    var m := FirstPerCategory(trends);
    FirstPerCategoryIsFirst(trends);
    ActiveRowsNewestFirst(table);
    forall c | c in m
      ensures forall t | t in trends && t.category == c :: t.createdAt <= m[c].createdAt
    {
      FirstOfCategoryIsNewest(trends, c);
    }
  }

  /** Over a table with at most one active row per category, the listing returns every
      active row. */
  lemma ListingReturnsAllActive(rows: map<string, Trend>, table: seq<Trend>)
    requires AtMostOneActivePerCategory(rows)
    requires forall t :: t in table <==> t in rows.Values
    ensures FirstPerCategory(ActiveRows(table)).Values == set t | t in rows.Values && t.active
  {
    ActiveRowsOnePerCategory(rows, table);
    OnePerCategoryKeepsAll(ActiveRows(table));
  }

  /** Two active rows of one category: the listing keeps the newer and drops the older. */
  lemma NewerActiveRowWins(newer: Trend, older: Trend)
    requires newer.active && older.active && newer.category == older.category
    requires newer.createdAt > older.createdAt
    ensures var m := FirstPerCategory(ActiveRows([newer, older]));
      m.Keys == {newer.category} && m[newer.category] == newer
  {
    var table := [newer, older];
    assert ActiveRows(table) == table by {
      assert table[1..] == [older];
      assert ActiveRows([older]) == [older] by { assert [older][1..] == []; }
    }
    assert table[..1] == [newer];
    assert FirstPerCategory([newer]) == map[newer.category := newer] by {
      assert [newer][..0] == [];
    }
  }

  /** The `forEach` over the query's rows: a row is stored under its category unless that
      category already has an entry. */
  method GroupByCategory(trends: seq<Trend>) returns (byCategory: map<string, Trend>)
    ensures byCategory == FirstPerCategory(trends)
  {
    byCategory := map[];
    var i := 0;
    while i < |trends|
      invariant 0 <= i <= |trends|
      invariant byCategory == FirstPerCategory(trends[..i])
    {
      var t := trends[i];
      assert trends[..i + 1][..i] == trends[..i];
      if t.category !in byCategory {
        byCategory := byCategory[t.category := t];
      }
      i := i + 1;
    }
    assert trends[..i] == trends;
  }

  /** The route handler over the rows the active-trends query returns. `queryFails` is the
      store reporting an error. `table` is the store's rows as the query orders them, by
      `created_at` descending, so newest first. */
  method Get(store: TrendStore, table: seq<Trend>, queryFails: bool) returns (resp: ListResponse)
    requires store.Valid()
    requires NewestFirst(table) && forall t :: t in table <==> t in store.rows.Values
    ensures queryFails <==> resp == FetchFailed
    ensures resp.TrendsByCategory? ==> resp.byCategory == FirstPerCategory(ActiveRows(table))
    // every stored trend is active, comes from the store and sits under its own category
    ensures resp.TrendsByCategory? ==> forall c | c in resp.byCategory ::
      resp.byCategory[c].active && resp.byCategory[c] in table && resp.byCategory[c].category == c
    // the categories are exactly those with an active trend
    ensures resp.TrendsByCategory? ==> resp.byCategory.Keys == set t | t in table && t.active :: t.category
    // first one wins: each category holds the first of its active trends in the query's order ...
    ensures resp.TrendsByCategory? ==> forall c | c in resp.byCategory ::
      FirstOfCategory(ActiveRows(table), c) == Some(resp.byCategory[c])
    // ... which is the most recent one
    ensures resp.TrendsByCategory? ==> forall c, t | c in resp.byCategory && t in table && t.active && t.category == c ::
      t.createdAt <= resp.byCategory[c].createdAt
    // with one active trend per category in the store, all of them are returned
    ensures resp.TrendsByCategory? && AtMostOneActivePerCategory(store.rows) ==>
      resp.byCategory.Values == set t | t in store.rows.Values && t.active
  {
    if queryFails {
      return FetchFailed;
    }
    var byCategory := GroupByCategory(ActiveRows(table));
    ListingProperties(table);
    if AtMostOneActivePerCategory(store.rows) {
      ListingReturnsAllActive(store.rows, table);
    }
    resp := TrendsByCategory(byCategory);
  }
}
