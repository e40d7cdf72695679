/** components/MinimalistDuel.tsx: the client state of the duel screen. */
module Duel {
  import opened Types
  import opened Vote

  /** The category ids, in carousel order. */
  const Categories: seq<string> := ["tv-shows", "movies", "cricket", "anime", "music"]

  /** The category after `i`, going round from the last to the first. */
  function NextIndex(i: int): (j: int)
    requires 0 <= i < |Categories|
    ensures 0 <= j < |Categories|
    ensures j == if i == |Categories| - 1 then 0 else i + 1
  {
    (i + 1) % |Categories|
  }

  /** The category before `i`, going round from the first to the last. */
  function PreviousIndex(i: int): (j: int)
    requires 0 <= i < |Categories|
    ensures 0 <= j < |Categories|
    ensures j == if i == 0 then |Categories| - 1 else i - 1
  {
    (i - 1 + |Categories|) % |Categories|
  }

  /** Previous undoes next, and next undoes previous. */
  lemma PreviousUndoesNext(i: int)
    requires 0 <= i < |Categories|
    ensures PreviousIndex(NextIndex(i)) == i
    ensures NextIndex(PreviousIndex(i)) == i
  {
  }

  /** The index after `n` presses of "Next". */
  function Advance(i: int, n: nat): (j: int)
    requires 0 <= i < |Categories|
    ensures 0 <= j < |Categories|
  {
    if n == 0 then i else NextIndex(Advance(i, n - 1))
  }

  lemma {:induction false} AdvanceIsModular(i: int, n: nat)
    requires 0 <= i < |Categories|
    ensures Advance(i, n) == (i + n) % |Categories|
  {
    if n > 0 {
      AdvanceIsModular(i, n - 1);
      var k := (i + n - 1) % |Categories|;
      assert i + n - 1 == (i + n - 1) / |Categories| * |Categories| + k;
      assert NextIndex(k) == (i + n) % |Categories|;
    }
  }

  /** Pressing "Next" once per category comes back to the start. */
  lemma FullCycle(i: int)
    requires 0 <= i < |Categories|
    ensures Advance(i, |Categories|) == i
  {
    AdvanceIsModular(i, |Categories|);
  }

  /** Division rounded down, for either sign of the divisor. */
  function FloorDiv(a: int, b: int): int
    requires b != 0
  {
    if b > 0 then a / b else (-a) / (-b)
  }

  lemma QuotientBounds(a: int, b: int, k: nat)
    requires b > 0 && 0 <= a < k * b
    ensures 0 <= a / b < k
  {
    var q := a / b;
    assert q * b <= a;
    assert q * b < k * b;
    assert (k - q) * b > 0;
  }

  /** The share of one side in whole percent: 50 when nobody has voted, otherwise its share
      of the total rounded to the nearest percent, in exact arithmetic (round half up). */
  function VotePercentage(votesA: int, votesB: int, option: Side): (p: int)
    ensures votesA + votesB == 0 ==> p == 50
    ensures votesA >= 0 && votesB >= 0 ==> 0 <= p <= 100
  {
    var total := votesA + votesB;
    if total == 0 then 50
    else
      var votes := if option == A then votesA else votesB;
      var p := FloorDiv(200 * votes + total, 2 * total);
      assert votesA >= 0 && votesB >= 0 ==> 0 <= p <= 100 by {
        if votesA >= 0 && votesB >= 0 {
          assert 0 <= 200 * votes + total < 101 * (2 * total);
          QuotientBounds(200 * votes + total, 2 * total, 101);
        }
      }
      p
  }

  /** What the vote request came back with: the fetch threw, or a response with its `ok`
      flag and its JSON body (`None` when reading the body threw). */
  datatype VoteReply = FetchThrew | Replied(ok: bool, body: Option<Trend>)

  /** A vote in flight: the trend and side posted, and the category on screen at the click. */
  datatype VoteRequest = VoteRequest(trendId: string, choice: Side, category: string)

  /** The component's state. */
  class DuelScreen {
    var currentCategoryIndex: int
    var trends: map<string, Trend>
    var loading: bool
    var voting: bool

    ghost predicate Valid()
      reads this
    {
      0 <= currentCategoryIndex < |Categories|
    }

    constructor ()
      ensures Valid()
      ensures currentCategoryIndex == 0 && trends == map[] && loading && !voting
    {
      currentCategoryIndex := 0;
      trends := map[];
      loading := true;
      voting := false;
    }

    function CurrentCategory(): string
      reads this
      requires Valid()
    {
      Categories[currentCategoryIndex]
    }

    /** `fetchTrends`: store what `/api/trends` returned (`None` when the fetch or the JSON
        parse threw) and stop showing "Loading...". The body is stored whatever the status:
        the 500 reply's error object holds no category, which is `Some(map[])` here. */
    method FetchTrends(reply: Option<map<string, Trend>>)
      requires Valid()
      modifies this
      ensures Valid() && !loading
      ensures trends == if reply.Some? then reply.value else old(trends)
      ensures currentCategoryIndex == old(currentCategoryIndex) && voting == old(voting)
    {
      if reply.Some? {
        trends := reply.value;
      }
      loading := false;
    }

    method NextCategory()
      requires Valid()
      modifies this
      ensures Valid() && currentCategoryIndex == NextIndex(old(currentCategoryIndex))
      ensures trends == old(trends) && voting == old(voting) && loading == old(loading)
    {
      currentCategoryIndex := NextIndex(currentCategoryIndex);
    }

    method PreviousCategory()
      requires Valid()
      modifies this
      ensures Valid() && currentCategoryIndex == PreviousIndex(old(currentCategoryIndex))
      ensures trends == old(trends) && voting == old(voting) && loading == old(loading)
    {
      currentCategoryIndex := PreviousIndex(currentCategoryIndex);
    }

    /** A click on one of the category dots. */
    method SelectCategory(idx: int)
      requires Valid() && 0 <= idx < |Categories|
      modifies this
      ensures Valid() && currentCategoryIndex == idx
      ensures trends == old(trends) && voting == old(voting) && loading == old(loading)
    {
      currentCategoryIndex := idx;
    }

    /** The first half of `handleVote`, up to the request: with a trend on screen and no vote
        in flight, mark the vote as in flight and return what is posted. The category is the
        one on screen at the click; the reply is merged under it even if the screen has moved
        on by then. */
    method StartVote(choice: Side) returns (request: Option<VoteRequest>)
      requires Valid()
      modifies this
      ensures Valid()
      ensures currentCategoryIndex == old(currentCategoryIndex) && trends == old(trends) && loading == old(loading)
      // no trend on screen, or a vote in flight: the click is ignored
      ensures request.None? <==> old(CurrentCategory() !in trends || voting)
      ensures request.None? ==> voting == old(voting)
      // otherwise the vote is in flight and names the trend on screen
      ensures request.Some? ==>
        && voting
        && request.value == VoteRequest(old(trends[CurrentCategory()]).id, choice, old(CurrentCategory()))
    {
      var category := Categories[currentCategoryIndex];
      if category !in trends || voting {
        return None;
      }
      voting := true;
      request := Some(VoteRequest(trends[category].id, choice, category));
    }

    /** The second half: the reply has arrived. An `ok` reply with a body replaces the entry of
        the category the vote was cast in and schedules the move to the next category; in every
        case the vote is no longer in flight. Returns whether the move was scheduled. */
    method FinishVote(request: VoteRequest, reply: VoteReply) returns (advanceScheduled: bool)
      requires Valid()
      modifies this
      ensures Valid() && !voting
      ensures currentCategoryIndex == old(currentCategoryIndex) && loading == old(loading)
      ensures advanceScheduled <==> reply.Replied? && reply.ok && reply.body.Some?
      ensures trends == if advanceScheduled then old(trends)[request.category := reply.body.value] else old(trends)
    {
      advanceScheduled := false;
      if reply.Replied? && reply.ok && reply.body.Some? {
        trends := trends[request.category := reply.body.value];
        advanceScheduled := true;
      }
      voting := false;
    }

    /** A click whose reply arrives before anything else happens on the screen: `post(id,
        choice)` is the reply to the POST to /api/vote. */
    method HandleVote(choice: Side, post: (string, Side) -> VoteReply) returns (advanceScheduled: bool)
      requires Valid()
      modifies this
      ensures Valid()
      ensures currentCategoryIndex == old(currentCategoryIndex) && loading == old(loading)
      // no trend on screen, or a vote in flight: nothing happens
      ensures old(CurrentCategory() !in trends || voting) ==>
        trends == old(trends) && voting == old(voting) && !advanceScheduled
      // otherwise only the current category's entry may change, and `voting` ends false
      ensures old(CurrentCategory() in trends && !voting) ==>
        var reply := post(old(trends[CurrentCategory()]).id, choice);
        var accepted := reply.Replied? && reply.ok && reply.body.Some?;
        && !voting
        && trends == (if accepted then old(trends)[old(CurrentCategory()) := reply.body.value] else old(trends))
        && advanceScheduled == accepted
    {
      var request := StartVote(choice);
      if request.None? {
        return false;
      }
      var reply := post(request.value.trendId, request.value.choice);
      advanceScheduled := FinishVote(request.value, reply);
    }
  }
}
