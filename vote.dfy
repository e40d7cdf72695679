/** `POST /api/vote`: validate the body, look the trend up, raise one counter, return the row. */
module Vote {
  import opened Types
  import opened Store

  datatype Side = A | B

  /** The parsed JSON body. `Unparsable` is a body whose reading fails: one that is not JSON,
      and also the JSON `null`, since taking its fields apart throws as well; both end in the
      handler's catch. A field that is absent from the body is `None`. */
  datatype Body = Unparsable | Body(trendId: Option<string>, choice: Option<string>)

  datatype Response =
    | InvalidRequest           // 400 "Invalid request"
    | TrendNotFound            // 404 "Trend not found"
    | RecordFailed             // 500 "Failed to record vote"
    | RetrieveFailed           // 500 "Failed to retrieve updated trend"
    | Updated(trend: Trend)    // 200, the row as stored after the vote

  function Status(r: Response): (code: int)
    ensures code == 200 <==> r.Updated?
    ensures code == 400 <==> r.InvalidRequest?
    ensures code == 404 <==> r.TrendNotFound?
    ensures code == 500 <==> r.RecordFailed? || r.RetrieveFailed?
  {
    match r
    case InvalidRequest => 400
    case TrendNotFound => 404
    case RecordFailed => 500
    case RetrieveFailed => 500
    case Updated(_) => 200
  }

  /** The validation guard: a truthy `trendId` and a `choice` that is "a" or "b". */
  function ParseChoice(trendId: Option<string>, choice: Option<string>): (side: Option<Side>)
    ensures side == Some(A) <==> Truthy(trendId) && choice == Some("a")
    ensures side == Some(B) <==> Truthy(trendId) && choice == Some("b")
    ensures side.None? <==> !Truthy(trendId) || (choice != Some("a") && choice != Some("b"))
  {
    if !Truthy(trendId) || !Truthy(choice) || choice.value !in ["a", "b"] then None
    else if choice.value == "a" then Some(A)
    else Some(B)
  }

  /** A request that passed validation: the id to vote on and the side. */
  datatype Ballot = Ballot(trendId: string, side: Side)

  /** The body as far as the handler accepts it: parsed, and through the validation guard. */
  function Validate(body: Body): (b: Option<Ballot>)
    ensures b.Some? <==> body.Body? && ParseChoice(body.trendId, body.choice).Some?
    ensures b.Some? ==> Some(b.value.trendId) == body.trendId && Some(b.value.side) == ParseChoice(body.trendId, body.choice)
  {
    if body.Unparsable? then None
    else match ParseChoice(body.trendId, body.choice)
      case None => None
      case Some(side) => Some(Ballot(body.trendId.value, side))
  }

  /** The row after the vote: `updatedVotes` merged into the fetched row. */
  function Increment(t: Trend, side: Side): (u: Trend)
    ensures SameIdentity(t, u)
    ensures u.optionAImageUrl == t.optionAImageUrl && u.optionBImageUrl == t.optionBImageUrl
    ensures side == A ==> u.votesA == t.votesA + 1 && u.votesB == t.votesB
    ensures side == B ==> u.votesB == t.votesB + 1 && u.votesA == t.votesA
  {
    var votesA := if side == A then t.votesA + 1 else t.votesA;
    var votesB := if side == B then t.votesB + 1 else t.votesB;
    t.(votesA := votesA, votesB := votesB)
  }

  /** A vote adds exactly one to the total and lowers no counter. */
  lemma IncrementAddsOne(t: Trend, side: Side)
    ensures Increment(t, side).votesA + Increment(t, side).votesB == t.votesA + t.votesB + 1
    ensures Increment(t, side).votesA >= t.votesA && Increment(t, side).votesB >= t.votesB
  {
  }

  /** Applying a vote to a well-formed table leaves it well-formed. */
  lemma VoteKeepsWellFormed(rows: map<string, Trend>, id: string, side: Side)
    requires WellFormed(rows) && id in rows
    ensures WellFormed(rows[id := Increment(rows[id], side)])
  {
    var rows' := rows[id := Increment(rows[id], side)];
    forall i, j | i in rows' && j in rows' && rows'[i].active && rows'[j].active
      && rows'[i].category == rows'[j].category
      ensures i == j
    {
      assert rows'[i].active == rows[i].active && rows'[i].category == rows[i].category;
      assert rows'[j].active == rows[j].active && rows'[j].category == rows[j].category;
    }
  }

  /** What the store answers to the counter update. The route writes with the regular client,
      so a row-level security policy can filter the row out of the UPDATE: the store then
      reports no error and writes nothing. */
  datatype UpdateOutcome =
    | UpdateError      // the store reports an error
    | UpdateApplied    // the row is written
    | UpdateFiltered   // no error, but no row was written

  /** The route handler. `fetchFails` and `selectFails` are the lookup and the re-read
      reporting an error; `update` is the store's answer to the update. */
  method Post(store: TrendStore, body: Body, fetchFails: bool, update: UpdateOutcome, selectFails: bool)
    returns (resp: Response)
    requires store.Valid()
    modifies store
    ensures store.Valid()
    // a body that cannot be parsed is caught by the outer handler
    ensures body.Unparsable? ==> resp == RecordFailed && store.rows == old(store.rows)
    // malformed input: 400, nothing written
    ensures body.Body? && Validate(body).None? ==> resp == InvalidRequest && store.rows == old(store.rows)
    // unknown id, or a failed lookup: 404, nothing written
    ensures Validate(body).Some? && (fetchFails || Validate(body).value.trendId !in old(store.rows)) ==>
      resp == TrendNotFound && store.rows == old(store.rows)
    // failed update: 500, nothing written
    ensures Validate(body).Some? && !fetchFails && Validate(body).value.trendId in old(store.rows) && update == UpdateError ==>
      resp == RecordFailed && store.rows == old(store.rows)
    // a filtered update: nothing written, and the re-read returns the row as it was, as a success
    ensures Validate(body).Some? && !fetchFails && Validate(body).value.trendId in old(store.rows) && update == UpdateFiltered ==>
      store.rows == old(store.rows)
      && resp == (if selectFails then RetrieveFailed else Updated(old(store.rows)[Validate(body).value.trendId]))
    // the update went through: exactly one counter of that one row moved
    ensures Validate(body).Some? && !fetchFails && Validate(body).value.trendId in old(store.rows) && update == UpdateApplied ==>
      var b := Validate(body).value;
      var row := Increment(old(store.rows)[b.trendId], b.side);
      && store.rows == old(store.rows)[b.trendId := row]
      && resp == (if selectFails then RetrieveFailed else Updated(row))
    // a successful response carries the stored row
    ensures resp.Updated? ==> resp.trend.id in store.rows && store.rows[resp.trend.id] == resp.trend
    // counters never go down, and non-negative counters stay non-negative
    ensures store.rows.Keys == old(store.rows).Keys
    ensures forall id | id in old(store.rows) ::
      store.rows[id].votesA >= old(store.rows)[id].votesA && store.rows[id].votesB >= old(store.rows)[id].votesB
    ensures CountersNonNegative(old(store.rows)) ==> CountersNonNegative(store.rows)
    ensures AtMostOneActivePerCategory(old(store.rows)) ==> AtMostOneActivePerCategory(store.rows)
  {
    if body.Unparsable? {
      return RecordFailed;
    }
    var ballot := Validate(body);
    if ballot.None? {
      return InvalidRequest;
    }
    var id, side := ballot.value.trendId, ballot.value.side;
    if fetchFails || id !in store.rows {
      return TrendNotFound;
    }
    var trend := store.rows[id];
    var votesA := if side == A then trend.votesA + 1 else trend.votesA;
    var votesB := if side == B then trend.votesB + 1 else trend.votesB;
    if update == UpdateError {
      return RecordFailed;
    }
    if update == UpdateApplied {
      store.UpdateVotes(id, votesA, votesB);
      assert store.rows[id] == Increment(trend, side);
    }
    if selectFails {
      return RetrieveFailed;
    }
    resp := Updated(store.rows[id]);
  }
}
