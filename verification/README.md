# Daily Sunnah — checklist state and move fallback

A Dafny model of the deterministic logic of the Daily Sunnah single-page
application: the Sunnah checklist kept by the main view (`App.tsx`) and the
move-validation and fallback logic of the tic-tac-toe move service
(`services/geminiService.ts`).

- `Sunnah` (sunnah.dfy) — the catalogue items (`SunnahItem`, `Category`),
  toggling an item's completion, the list of completed ids the view persists,
  rebuilding the list from a saved id list at start-up, the category filter
  (সব, "all", or one category) and the index of the Sunnah of the day.
- `Moves` (moves.dfy) — the board of `SquareValue`s, the opponent's symbol,
  the board description written into the prompt (with a reader proving it
  loses nothing), the acceptance test for the model's candidate move, the
  list of available cells, and the two fallbacks: the first available cell
  for an unacceptable candidate, a random available cell after a failed
  request.
- `Seqs` (seqs.dfy) — order-preserving filtering, the positions it keeps,
  and element-wise mapping, shared by the toggle, the category filter, the
  completed-id list and the available cells.
- `Text` (text.dfy) — decimal numerals, `join` with a separator, and their
  readers. `Opt` (opt.dfy) — the option type standing for `undefined`.

Modelling choices:

- `completed` is an optional field of `SunnahItem` (types.ts:13), so it is an
  `Option<bool>`. An item counts as done when the field is `true`; an absent
  field counts as not done, as JavaScript truthiness makes it. Toggling twice
  therefore restores every item's done state, but restores the item itself
  only when the flag was present: an absent flag comes back as `false`
  (`ToggleTwiceMaterialisesAbsentFlag`).
- The saved value is taken as an already-parsed `Option<seq<int>>`: `None`
  when nothing is stored.
- The date is passed in as year, zero-based month and day of month. JavaScript's
  `%` keeps the sign of the dividend, so `JsRemainder` models it explicitly. An
  empty catalogue makes the index `NaN`, modelled as `None`. A read outside the
  catalogue gives `undefined`, also modelled as `None`.
- The model's reply is reduced to `Failed` or `Parsed(candidate)`. `Failed`
  covers everything that throws inside the `try`: the request, an empty
  answer, unparsable JSON, and reading `move` from a `null` answer. A candidate
  is a finite number (a `real`) or anything else. A literal too large for a
  double parses to an infinity; it counts as "anything else", which loses no
  behaviour because the test at services/geminiService.ts:59 rejects an
  infinity like every value outside 0..8. Only a whole number can index a
  cell, so a fraction is never accepted.
- A throw while constructing the client, before the `try`, is outside the
  model: `ChooseMove` starts where the `try` begins.
- `Math.random()` is a parameter `rand` with `0.0 <= rand < 1.0`.
  `RandomAvailableReachesEveryEmptyCell` shows every empty cell can be drawn.
- `available[0]` and `available[k]` on an empty list give `undefined`, modelled
  as `None`. The board may have any length, as the service accepts any array.
  No precondition asks for an empty cell: `ChooseMove` proves a move comes
  back exactly when there is one.
- Unparsable JSON in the model's answer throws, so it takes the random
  fallback. Only a parsed but unacceptable `move` takes the first-available
  fallback.

## Model

| member | source | states |
|---|---|---|
| Sunnah.Toggle | App.tsx:45-49 | length and order are kept; only `completed` can change; items with another id are untouched; items with the id get a present flag whose done state is the negation of the old one |
| Sunnah.ToggleTwiceRestoresDone | App.tsx:46-48 | toggling the same id twice gives every item back its done state and all other fields |
| Sunnah.ToggleInvolution | App.tsx:46-48 | when the items carrying the id have a `completed` flag (the others need not), toggling that id twice returns the identical list |
| Sunnah.ToggleTwiceMaterialisesAbsentFlag | App.tsx:47 | an item whose optional `completed` is absent comes back from two toggles with `completed` false, so exact restoration needs the flag present |
| Sunnah.ToggleCommutesWithFilter | App.tsx:71-74 | filtering then toggling equals toggling then filtering, for every filter and id |
| Sunnah.ToggleSavedIds | App.tsx:45-49 | with unique ids, a toggle adds or removes exactly its own id among the completed ids and leaves every other id's membership alone |
| Sunnah.CompletedIds | App.tsx:41 | an id is saved iff some item carries it and is done |
| Sunnah.CompletedIdsInListOrder | App.tsx:41 | the saved ids are the ids at the done positions, in increasing position order |
| Sunnah.Restore | App.tsx:11-21 | with no saved data the catalogue is returned unchanged; otherwise the catalogue element-wise, all other fields kept, each flag present and true iff the item's id occurs in the saved list |
| Sunnah.SaveRestoreRoundTrip | App.tsx:14-17 | with unique catalogue ids, restoring the saved ids of any list shaped like the catalogue gives each item back with its done state |
| Sunnah.RoundTripNeedsUniqueIds | App.tsx:17 | two catalogue items sharing an id, one done and one not, come back both done: the round trip needs unique ids |
| Sunnah.RestoreSaveFixpoint | App.tsx:40-43 | restoring saved ids and saving again writes the same id list |
| Sunnah.RestoreThenSave | App.tsx:15-18 | the first write after start-up holds exactly the saved ids that still name a catalogue item |
| Sunnah.FilterItems | App.tsx:71-74 | the "all" filter returns the list unchanged; a category filter returns only items of that category and every such item |
| Sunnah.FilterItemsIsSubsequence | App.tsx:73 | a category filter returns the items at exactly the positions of that category, in increasing order |
| Sunnah.JsRemainder | App.tsx:36 | the remainder differs from the dividend by a multiple of the divisor, lies in [0, n) for a non-negative dividend and in (-n, 0] for a negative one |
| Sunnah.DailyIndex | App.tsx:34-37 | no index for an empty catalogue; otherwise congruent to year + month + date and in [0, count) when that sum is non-negative |
| Sunnah.DailySunnah | App.tsx:38 | an item is highlighted iff the catalogue is non-empty and the JavaScript remainder of year + month + date is non-negative; it is the catalogue item at a position congruent to that sum; there always is one for a non-empty catalogue and non-negative date parts |
| Moves.Opponent | services/geminiService.ts:12 | the opponent's symbol is the other symbol |
| Moves.EntriesFrom | services/geminiService.ts:11 | one entry per cell, in index order, each "<index>: <cell>" with `empty` for an empty cell |
| Moves.DescriptionRoundTrip | services/geminiService.ts:11 | the entries joined by ", " are empty only for an empty board and read back as exactly the board they were written from |
| Moves.Describe | services/geminiService.ts:11 | the prompt's board text is empty only for an empty board and an independent reader recovers the board from it |
| Moves.AcceptableNamesEmptyCell | services/geminiService.ts:59 | the acceptance test passes exactly for candidates equal to the index of an empty cell among cells 0..8 |
| Moves.Available | services/geminiService.ts:64 | exactly the indices of the empty cells, strictly increasing |
| Moves.FirstAvailable | services/geminiService.ts:63-65 | a result exists iff the board has an empty cell, and it is the smallest empty index |
| Moves.RandomPosition | services/geminiService.ts:70 | a draw in [0, 1) scaled by n and floored lands in [0, n) |
| Moves.RandomAvailable | services/geminiService.ts:66-70 | a result exists iff the board has an empty cell, and it is an element of the available list, so an empty cell |
| Moves.RandomAvailableReachesEveryEmptyCell | services/geminiService.ts:70 | every empty cell is the result for some draw |
| Moves.ChooseMove | services/geminiService.ts:59-70 | a move is returned iff the board has an empty cell, and it names an empty cell (0..8 on a nine-cell board); an acceptable candidate is returned as is; an unacceptable one yields the smallest empty index; a failed request yields an available index |
| Moves.CandidateReturnedOnlyIfAcceptable | services/geminiService.ts:59-61 | on a nine-cell board a whole-number candidate comes back unchanged only if it passed the acceptance test |

## Left out

- The request to the text model, its prompt and the handling of its answer up to `move` (services/geminiService.ts:28-57), and all of services/aiService.ts: opaque network calls. Their outcome inside the `try` is the `Reply` input.
- Client construction (services/geminiService.ts:8) sits outside the `try`: a throw there rejects the returned promise, so no move comes back and neither fallback runs. `ChooseMove` and its contract cover only the paths that reach the `try`.
- `localStorage` reads and writes (App.tsx:12, 42) and `JSON.parse`/`JSON.stringify` of the stored value: I/O. The model works on the id list itself.
- Corrupt stored data: `JSON.parse` at App.tsx:14 is not guarded, so corrupt data throws instead of counting as "nothing completed". Following the code, this case is not modelled as a recovery.
- An empty stored string counts as "no saved data" because of the truthiness test at App.tsx:13; the model's `None` stands for both.
- `new Date()` (App.tsx:35): the clock. Year, month and day are parameters.
- `Math.random()` (services/geminiService.ts:70): a parameter in [0, 1). Floating-point rounding of `rand * length` is not modelled; the product is exact.
- The `console.error` logging (services/geminiService.ts:67): a side effect with no bearing on the result.
- React state, hooks, the explanation and search handlers, loading flags and all rendering (App.tsx:51-325): view code.
- The tic-tac-toe win/draw evaluator, turn state machine and score tally: none of the files in this model contains them.
