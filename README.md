# Trend voting: a Dafny model

This project models the logic of a small trend-voting web app. The app keeps a `trends` table:
each row is a pair of competing options in one category (TV shows, movies, cricket, anime,
music), with two vote counters, two optional image URLs, a creation time and an `active`
flag. The model covers:

- **Vote route** (`POST /api/vote`): validates the body, looks the row up, raises one
  counter and returns the stored row. Every error response is modelled.
- **Listing route** (`GET /api/trends`): takes the active rows, newest first, and keeps the
  first row per category.
- **Image backfill route** (`GET /api/generate-images`): picks movie and TV rows with a NULL
  image URL and fills the missing sides through the image generator.
- **Image generator**: picks the first TMDB backdrop, builds the output file name, and
  returns the public path. A second copy of the backdrop picker lives in the thumbnail test
  helper.
- **Duel screen**: category navigation, the vote percentage, and the vote handler's guard
  and merge.
- **Intro typewriter**: one character per step, a pause after the first part, and a single
  completion.

Modules, one per source file:

| module | file | source |
|---|---|---|
| `Types` | types.dfy | types/index.ts (the `Trend` record) |
| `Store` | store.dfy | the `trends` table and the two column updates the routes issue |
| `Vote` | vote.dfy | app/api/vote/route.ts |
| `Trends` | trends.dfy | app/api/trends/route.ts |
| `ImageBackfill` | backfill.dfy | app/api/generate-images/route.ts |
| `TmdbSearch` | tmdb_search.dfy | the shape of a TMDB search response |
| `ImageGenerator` | image_generator.dfy | lib/imageGenerator.ts |
| `Tmdb` | tmdb.dfy | tests/thumbnail_generation/tmdb.js |
| `Duel` | duel.dfy | components/MinimalistDuel.tsx |
| `StartupIntro` | intro.dfy | components/StartupIntro.tsx |

The table is a class, `Store.TrendStore`, over a map from id to row. The vote and backfill
handlers are methods that change that store. Its `Valid()` invariant says every row sits
under its own id. Nothing in the code stops a category from having two active rows, so the
model allows it. Both handlers keep a table with at most one active row per category that
way. The listing's first-one-wins rule decides which row is returned when there are two.

External effects are parameters:
- each store call's failure is a boolean (the backfill's per-row update failures are a set of ids), and the vote's update has a third answer: no error but no row written;
- `searchTMDB` is a function from (query, media kind) to "threw" or a response body;
- the download-and-write step is a function from URL to success;
- the vote handler's `fetch` is a function from (id, choice) to the reply;
- `Math.random()` in the typewriter is a nondeterministic choice in [60, 140].

Behaviours of the code worth knowing, all stated by the model:
- **Votes are not atomic.** The vote route reads the row and writes back the new counts, so
  concurrent votes can lose updates. The model is sequential and claims nothing about
  concurrency.
- **A failed re-read still counts the vote.** Once the update has succeeded, a failing
  re-read returns 500 although the vote is already stored. `Vote.Post` states exactly that.
- **A filtered vote still looks successful.** The vote route updates with the regular client,
  and its own comment says this only works once the row-level security policy allows it. A
  policy that filters the row out of the UPDATE reports no error and writes nothing. The
  route then re-reads the unchanged row and returns it with 200, and the duel screen merges
  it and moves on. `Vote.Post` states this case as well.
- **A failed search stops the backfill.** Only update failures are caught per row. A TMDB
  search that throws (it sits outside `generateImage`'s `try`) ends the route with a 500.
  Rows handled before it keep their new URLs. `ImageBackfill.Get` states both outcomes.
- **An empty-string URL is re-resolved.** The query selects rows with a NULL URL. The loop
  re-resolves any falsy URL, so an empty string is resolved again when the row is selected
  for its other side.
- **There is no regeneration.** The cron route (app/api/cron/route.ts) is a stub that only
  returns success, and nothing writes `HistoryItem` rows, so there is nothing to model.

## Model

| member | source | states |
|---|---|---|
| `Vote.Status` | app/api/vote/route.ts:8-57 | 200 exactly for a returned row, 400 for an invalid request, 404 for a missing trend, 500 for a failed update, a failed re-read or an unparsable body |
| `Vote.ParseChoice` | app/api/vote/route.ts:8-10 | the request passes the guard exactly when `trendId` is truthy and `choice` is "a" or "b", and the side is the one named |
| `Vote.Validate` | app/api/vote/route.ts:6-10 | a body is accepted exactly when it parses and passes the guard; the ballot carries its id and side |
| `Vote.Increment` | app/api/vote/route.ts:25-28 | the chosen counter goes up by exactly one, the other counter and every other field stay the same |
| `Vote.IncrementAddsOne` | app/api/vote/route.ts:25-28 | a vote adds one to the total and lowers no counter |
| `Vote.VoteKeepsWellFormed` | app/api/vote/route.ts:25-34 | voting on a row of a well-formed table (ids as keys, non-negative counters, one active row per category) keeps it well-formed |
| `Vote.Post` | app/api/vote/route.ts:4-59 | 500 and no change for an unparsable body; 400 and no change for an invalid one; 404 and no change for an unknown id or failed lookup; 500 and no change for a failed update; no change for an update a row-level security policy filters out, with the unchanged row returned as a 200 (or 500 if the re-read fails); otherwise only that row's counters change, by one vote, and the reply is the stored row, or 500 if the re-read fails; counters never decrease, non-negative counters stay non-negative, and a table with at most one active row per category stays so |
| `Store.TrendStore.UpdateVotes` | app/api/vote/route.ts:31-34 | writes only the two counters of the row with that id; an unknown id changes nothing; ids stay keys, and a table with at most one active row per category stays so |
| `Store.TrendStore.UpdateImages` | app/api/generate-images/route.ts:32-35 | writes only the two image URLs of the row with that id; an unknown id changes nothing; ids stay keys, and a table with at most one active row per category stays so |
| `Trends.ActiveRows` | app/api/trends/route.ts:7-10 | a row is in the result exactly when it is in the table and active |
| `Trends.ActiveRowsNewestFirst` | app/api/trends/route.ts:10-11 | filtering on `active` keeps the newest-first order |
| `Trends.FirstOfCategory` | app/api/trends/route.ts:18-21 | the reference definition of "first row of a category": a row of the input with that category, absent exactly when no row has it |
| `Trends.FirstOfCategoryIsNewest` | app/api/trends/route.ts:11-21 | in a newest-first sequence, the first row of a category is at least as recent as every row of that category |
| `Trends.FirstPerCategoryIsFirst` | app/api/trends/route.ts:16-22 | the map the loop builds has a key exactly for the categories present, and each key holds the first row of its category |
| `Trends.FirstPerCategory` | app/api/trends/route.ts:16-22 | every stored row is a row of the input, stored under its own category, and the keys are exactly the input's categories |
| `Trends.GroupByCategory` | app/api/trends/route.ts:16-22 | the loop's map is the one `FirstPerCategory` describes: a row is stored only when its category has no entry yet |
| `Trends.OnePerCategoryKeepsAll` | app/api/trends/route.ts:18-22 | when no category repeats, the map's values are exactly the input's rows |
| `Trends.ActiveRowsOnePerCategory` | app/api/trends/route.ts:7-11 | listing the rows of a table that keeps at most one active row per category gives no two active rows of one category |
| `Trends.ListingProperties` | app/api/trends/route.ts:7-22 | over any newest-first table, also one with several active rows in a category: every value is active, a row of the table under its own category; the keys are exactly the categories with an active row; each value is the first active row of its category in the query's order, and so its most recent one |
| `Trends.ListingReturnsAllActive` | app/api/trends/route.ts:7-22 | over a table with at most one active row per category, the values are all its active rows |
| `Trends.NewerActiveRowWins` | app/api/trends/route.ts:11-21 | of two active rows in one category, the listing keeps the newer and drops the older |
| `Trends.Get` | app/api/trends/route.ts:4-29 | 500 exactly on a store error; otherwise every value is active, comes from the table and sits under its own category, the keys are exactly the categories with an active row, each value is the first active row of its category in the query's order and so its most recent one, and when the store has at most one active row per category every active row is returned |
| `ImageGenerator.ExtractBackdrop` | lib/imageGenerator.ts:20-25 | null exactly when there is no body, no `results`, an empty `results` or a missing or empty first `backdrop_path`; otherwise the image base followed by the first hit's path |
| `ImageGenerator.ExtractBackdropFirstHitOnly` | lib/imageGenerator.ts:21-24 | two responses with the same first hit give the same result: later hits are never consulted |
| `ImageGenerator.Extname` | lib/imageGenerator.ts:39 | there is an extension exactly when the last path segment has a `.` after its first character and is not `..`; it is then the segment's suffix from its last `.`: a `.` followed by no other `.` and no `/` |
| `ImageGenerator.ExtnameOfFileUrl` | lib/imageGenerator.ts:39 | for a URL ending in `/stem.suffix` the extension is `.suffix` |
| `ImageGenerator.ToLowerCase` | lib/imageGenerator.ts:40 | same length, each character lowercased (ASCII) |
| `ImageGenerator.ReplaceSpaces` | lib/imageGenerator.ts:40 | same length, each space turned into `_`, every other character kept |
| `ImageGenerator.FileStemShape` | lib/imageGenerator.ts:40 | the query part of the name has the query's length, each space as `_` and each other character lowercased, so no space and no upper-case ASCII letter |
| `ImageGenerator.OutputFileName` | lib/imageGenerator.ts:39-40 | the file name is as long as the query plus the extension, ends with the extension, and before it holds the query lowercased with spaces as `_`, so no space and no upper-case ASCII letter |
| `ImageGenerator.GenerateImage` | lib/imageGenerator.ts:27-61 | throws exactly when the search throws; gives a path exactly when a backdrop was found and its download succeeded, and that path is `/` followed by the output file name; null otherwise |
| `ImageGenerator.NoBackdropNoDownload` | lib/imageGenerator.ts:29-60 | without a backdrop the result is null whatever the download would do, so no download is attempted |
| `Tmdb.ExtractBackdrop` | tests/thumbnail_generation/tmdb.js:19-24 | null when there is no first hit or its `backdrop_path` is missing or empty; otherwise the image base followed by that path |
| `Tmdb.FirstHitDecides` | tests/thumbnail_generation/tmdb.js:21-23 | the result depends only on the first element of `results` |
| `Tmdb.BackdropUnderImageBase` | tests/thumbnail_generation/tmdb.js:5-23 | a non-null result begins with `https://image.tmdb.org/t/p/w780` and is longer than it |
| `Tmdb.AgreesWithLibrary` | tests/thumbnail_generation/tmdb.js:19-24 | this copy and the one in lib/imageGenerator.ts:20-25 return the same on every input |
| `ImageBackfill.Selected` | app/api/generate-images/route.ts:11-12 | a row with both image URLs set is never picked, and a picked row has a side whose URL is falsy, so the loop resolves at least one image for it |
| `ImageBackfill.SelectedIds` | app/api/generate-images/route.ts:8-12 | a row is selected exactly when its category is "movies" or "tv-shows" and one of its image URLs is NULL |
| `ImageBackfill.KindFor` | app/api/generate-images/route.ts:25-29 | the media kind is TV exactly when the category is "tv-shows", and movie otherwise |
| `ImageBackfill.FillRow` | app/api/generate-images/route.ts:21-30 | throws exactly when a side that needs resolving throws; otherwise only the image URLs change, a set URL is kept, and a missing one becomes what the generator resolves for that option with the category's kind |
| `ImageBackfill.ResolveImages` | app/api/generate-images/route.ts:21-30 | the loop body's two resolutions: reports a throw exactly when `FillRow` throws, and otherwise yields the URLs of the row `FillRow` fills |
| `ImageBackfill.FillSelected` | app/api/generate-images/route.ts:20-40 | the loop: after it, the handled rows hold their fill unless their update failed and every other row is as it was; it stops early only when a selected row's search throws, and otherwise has handled every selected row |
| `ImageBackfill.PartialFillKeepsOneActive` | app/api/generate-images/route.ts:20-40 | a table part-way through the loop keeps at most one active row per category if the queried table did |
| `ImageBackfill.Backfilled` | app/api/generate-images/route.ts:20-40 | the table after a run with no throw keeps its keys; only image URLs ever change; a row that is not selected or whose update failed is as it was; a URL that was set stays as it was |
| `ImageBackfill.NothingSelectedNoChange` | app/api/generate-images/route.ts:16-40 | a table with nothing selected comes out of a run unchanged |
| `ImageBackfill.FillRowCompletes` | app/api/generate-images/route.ts:21-30 | with a generator that always resolves, a row is filled and both its URLs are set |
| `ImageBackfill.BackfillConverges` | app/api/generate-images/route.ts:11-12 | when every image resolves and no update fails, one run leaves no row selected, so a second run changes nothing |
| `ImageBackfill.Get` | app/api/generate-images/route.ts:6-48 | 500 and no change on a query error; "No trends to update." exactly when nothing is selected, and then no change; 500 whenever a search throws for a selected row; completes exactly when no selected row's search throws, and then every selected row whose update succeeded holds its fill while failed updates leave their row as it was; in every outcome each row is untouched or holds its fill; ids stay keys, and a table with at most one active row per category stays so |
| `Duel.NextIndex` | components/MinimalistDuel.tsx:61 | stays in [0, 5); the successor, wrapping from the last category to the first |
| `Duel.PreviousIndex` | components/MinimalistDuel.tsx:62 | stays in [0, 5); the predecessor, wrapping from the first category to the last |
| `Duel.PreviousUndoesNext` | components/MinimalistDuel.tsx:61-62 | previous after next, and next after previous, give back the index |
| `Duel.Advance` | components/MinimalistDuel.tsx:61 | any number of "Next" presses stays in [0, 5) |
| `Duel.AdvanceIsModular` | components/MinimalistDuel.tsx:61 | `n` presses of "Next" move from `i` to `(i + n) mod 5` |
| `Duel.FullCycle` | components/MinimalistDuel.tsx:61 | five presses of "Next" come back to the start |
| `Duel.VotePercentage` | components/MinimalistDuel.tsx:64-68 | 50 for either side when both counts are zero; within [0, 100] for non-negative counts |
| `Duel.DuelScreen.constructor` | components/MinimalistDuel.tsx:16-19 | first category, no trends, loading, not voting |
| `Duel.DuelScreen.FetchTrends` | components/MinimalistDuel.tsx:28-38 | stores the fetched map when there is one, and always stops loading |
| `Duel.DuelScreen.NextCategory` | components/MinimalistDuel.tsx:61 | moves to the next index and changes nothing else |
| `Duel.DuelScreen.PreviousCategory` | components/MinimalistDuel.tsx:62 | moves to the previous index and changes nothing else |
| `Duel.DuelScreen.SelectCategory` | components/MinimalistDuel.tsx:86 | moves to the clicked index and changes nothing else |
| `Duel.DuelScreen.StartVote` | components/MinimalistDuel.tsx:40-48 | a click is ignored exactly when no trend is on screen or a vote is in flight; otherwise the vote is marked in flight and the request names the trend on screen, the side and the category on screen; nothing else changes |
| `Duel.DuelScreen.FinishVote` | components/MinimalistDuel.tsx:49-58 | when the reply arrives: an `ok` reply with a body replaces the entry of the category the vote was cast in, even if the screen has moved on, and schedules the move to the next category exactly then; the vote is no longer in flight; the index is untouched |
| `Duel.DuelScreen.HandleVote` | components/MinimalistDuel.tsx:40-59 | does nothing when no trend is on screen or a vote is in progress; otherwise posts the current trend's id and choice, replaces only the current category's entry when the reply is ok with a body, schedules the move to the next category exactly then, and always ends with `voting` false |
| `StartupIntro.FullTextLayout` | components/StartupIntro.tsx:13-17 | the full text is part 1, an empty line, then part 2 (59 + 2 + 19 = 80 characters) |
| `StartupIntro.Step` | components/StartupIntro.tsx:30-57 | a step keeps the text on screen equal to the first `index` characters and never lets `index` exceed the full length; it types exactly one character while any remain, and once everything is on screen it only sets the finished flag |
| `StartupIntro.CompletionAtMostOnce` | components/StartupIntro.tsx:50-56 | over any number of steps `onComplete` is scheduled at most once, and once the finished flag is set nothing changes any more |
| `StartupIntro.RunFromReset` | components/StartupIntro.tsx:24-56 | from the reset, `n` steps have typed the first `min(n, 80)` characters, and `onComplete` has been scheduled once exactly when `n` exceeds 80 |
| `StartupIntro.Typewriter.constructor` | components/StartupIntro.tsx:10-20 | empty text, index 0, not finished |
| `StartupIntro.Typewriter.TypeCharacter` | components/StartupIntro.tsx:30-58 | the new state is one step of the old; while characters remain the next delay is 1200 right after the last character of part 1 and otherwise in [60, 140]; `onComplete` is scheduled after 2000 only on the first call after everything is typed; afterwards no timer is set |
| `StartupIntro.Typewriter.Mount` | components/StartupIntro.tsx:22-61 | resets text, index and flag, then types the first character and schedules the next within [60, 140] |

## Left out

- The vote's read-then-write race. Concurrent votes can lose updates; the model is one call at a time and claims no atomicity.
- The network, storage and filesystem calls: the Supabase client, `searchTMDB` and the streamed download and file write. Their outcomes are parameters. lib/supabase.ts is not part of this model.
- ImageGenerator.GenerateImage: the search and download oracles are fixed functions of their arguments, so one run gets the same answer for the same query and kind every time.
- ImageGenerator.GenerateImage: the download oracle sees only the URL, while the file is written to `public/` plus the name made from the query. A `/` in the query (a title such as "Face/Off") names a sub-directory, and `../` escapes `public/`. Neither how that write fails nor where it lands is modelled.
- ImageGenerator.GenerateImage: `pipe` does not pass an error of the download stream on to the file writer, so such an error can leave the wait for `finish` or `error` pending for ever and the call never returns. The download oracle only answers success or failure, so this non-termination is not modelled.
- ImageBackfill.Get: the rows are taken in an unspecified order, and the route's log lines are not modelled.
- Trends.Get: the table's newest-first order is a precondition, not a sort. `created_at` is a number and not an ISO string.
- Trends.FirstPerCategory: the route's map is a plain JavaScript object, so a category named like an `Object.prototype` member (`constructor`, `toString`, `__proto__`) already reads as present and is never stored. The model stores it. The five category ids of the app are not such names.
- Vote.Increment: the counters are unbounded integers. In the code `votes_a + 1` is a JavaScript number, which stops growing past 2^53, and the column's own integer width is not part of the source; neither limit is modelled.
- Vote.Validate: `trendId` is a string or absent. A JSON number or other non-string id is not modelled.
- `.single()` failing because two rows share an id: the map keyed by primary key excludes it.
- ImageGenerator.ExtractBackdrop and Tmdb.ExtractBackdrop: a null element inside `results` makes the JavaScript throw; the model has no null items.
- ImageGenerator.ToLowerCase: lowercases ASCII letters only. JavaScript's `toLowerCase` also maps non-ASCII letters.
- ImageGenerator.Extname: POSIX paths only (Node's `path.extname` on its default platform).
- Duel.VotePercentage: computes `Math.round` in exact arithmetic (round half up) rather than on doubles. Only the zero case and the [0, 100] bound are claimed.
- Duel.DuelScreen.FinishVote: scheduling the move to the next category is a returned flag; the 1.5 s timer itself is not modelled. Reading the reply's JSON body is folded into the reply (`None` when it throws).
- Duel.DuelScreen.HandleVote: a click whose reply arrives before anything else happens. The wait itself is `StartVote` followed later by `FinishVote`, between which navigation, the trend fetch and further clicks may run.
- React rendering, animation and batched state updates, the timer durations as real time, the cleanup's `clearTimeout`, and the `sessionStorage` check in app/page.tsx.
- The disabled cron route (app/api/cron/route.ts) and the `HistoryItem` type: no code regenerates trends or writes history.
- lib/openrouter.ts (an HTTP client) and the thumbnail download scripts (tests/thumbnail_generation/tmdb_run.js, thumbnail_generation/tmdb_run.js). Their file-name rule is the one modelled for lib/imageGenerator.ts.
- Styling and configuration files: no logic.
