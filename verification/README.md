# Year-guessing game: evaluator and round state machine

This project models the core of a browser game in which the player guesses the
four-digit year of a historical event in at most four attempts. Each guess is
scored digit by digit with the Wordle rule for repeated digits. An arrow says
whether the answer lies earlier or later. One hint per row is revealed as the
round goes on, and the round is kept in a single save slot across reloads.

The model has four modules:

- `Types` (`types.dfy`) holds the cell and game statuses, the puzzle record with
  exactly four hints, and the saved snapshot.
- `Puzzles` (`puzzles.dfy`) holds the seven-entry catalog. It proves the
  catalog facts the game relies on: distinct ids, four-digit years, and at least
  six puzzles left after excluding any one id.
- `GameLogic` (`game_logic.dfy`) holds the evaluator and the daily index.
  - `EvaluateGuess` runs as the code does: a count map over the target, then a
    pass over exact positions, then a left-to-right pass over the rest, on an
    array of cells and a `map<char, int>`.
  - It is proved equal to the reference score `Evaluation`. At position i,
    `Evaluation` gives `Correct` on an exact match. Otherwise it gives `Present`
    when fewer earlier non-matching positions hold the same digit than the
    target has left over for it.
  - Lemmas about `Evaluation` state the Wordle properties: correct exactly on a
    match, correct plus present equal to the minimum of the two counts, present
    given to the leftmost positions, and a digit missing from the target always
    absent.
- `App` (`app.dfy`) holds the screen as a class `Game`.
  - Its fields are the React state (puzzle, guesses, typed buffer, status,
    toast) plus the save slot.
  - It has one method per handler and a named constructor `Mount` for the load
    and save effects.
  - The rows derivation is specified by `BoardRow`. The round rule is the
    predicate `RoundInvariant`, which every handler keeps.

## Model

| member | source | states |
|---|---|---|
| Puzzles.WithoutId | App.tsx:54 | the filter never lengthens the catalog; which entries it keeps is stated by `WithoutIdMembers` |
| Puzzles.WithoutIdMembers | App.tsx:54 | the filter keeps exactly the catalog entries whose id differs from the excluded one |
| Puzzles.FindById | App.tsx:23 | the lookup finds an entry exactly when some entry has the id, and what it finds is a catalog entry with that id |
| Puzzles.WithoutIdDropsAtMostOne | App.tsx:54 | with distinct ids, excluding one id removes at most one entry |
| Puzzles.FindOwnId | App.tsx:23 | with distinct ids, looking up an entry's own id returns that very entry |
| Puzzles.CatalogIds | data/puzzles.ts:4-89 | the catalog has seven entries, pairwise distinct ids, and the first entry has id "1" |
| Puzzles.CatalogYears | data/puzzles.ts:4-89 | every catalog year is exactly four ASCII digits |
| Puzzles.AvailableNonEmpty | App.tsx:54-55 | excluding any id leaves at least six puzzles, none of them with that id |
| Puzzles.LookupOwnId | App.tsx:23 | every catalog entry is found again by its id |
| GameLogic.Evaluation | utils/gameLogic.ts:8-39 | a score has exactly four entries and each is `Correct`, `Present` or `Absent` |
| GameLogic.CountCharacters | utils/gameLogic.ts:12-17 | the count map has a key exactly for each character of the target, holding its number of occurrences |
| GameLogic.FirstPassStep | utils/gameLogic.ts:20-25 | a first-pass decrement happens only on a key that is present, and it keeps the map equal to occurrences minus the exact matches so far |
| GameLogic.SecondPassStep | utils/gameLogic.ts:28-36 | in the second pass a non-matching position is `Present` exactly when its digit's count is above zero, and the decrement keeps the count map in step |
| GameLogic.MarkExactPositions | utils/gameLogic.ts:19-25 | after the first pass the cells are `Correct` exactly at matching positions and `Absent` elsewhere, and every count is the leftover, never negative |
| GameLogic.MarkPresentAt | utils/gameLogic.ts:28-35 | one second-pass step changes only cell i, to its reference verdict, and keeps the count map equal to the leftover counts, never negative |
| GameLogic.MarkPresentPositions | utils/gameLogic.ts:27-36 | after the second pass every cell holds the reference verdict; correct cells are never overwritten |
| GameLogic.EvaluateGuess | utils/gameLogic.ts:8-39 | the evaluator returns exactly the reference score, including all `Absent` on a length mismatch |
| GameLogic.CorrectIffMatch | utils/gameLogic.ts:20-29 | position i is `Correct` if and only if guess and target agree at i |
| GameLogic.FallbackAllAbsent | utils/gameLogic.ts:9 | when either string is not four characters long, all four entries are `Absent` |
| GameLogic.MarkedPrefix | utils/gameLogic.ts:15-36 | over any prefix, the marked positions of a digit are its exact matches plus as many misplaced ones as the leftover count allows |
| GameLogic.MarkedIsMinimum | utils/gameLogic.ts:15-36 | for every digit, the positions marked `Correct` or `Present` number exactly the minimum of its counts in guess and target |
| GameLogic.PresentIsLeftmost | utils/gameLogic.ts:28-35 | among non-matching positions holding the same digit, if a later one is `Present` then so is every earlier one |
| GameLogic.AbsentFromTarget | utils/gameLogic.ts:28-35 | a digit that does not occur in the target is always `Absent` |
| GameLogic.SelfIsAllCorrect | utils/gameLogic.ts:20-25 | any four-character string scored against itself is all `Correct` |
| GameLogic.ReversedYearIsAllPresent | utils/gameLogic.ts:8-39 | "4321" against "1234" is all `Present` |
| GameLogic.RepeatedDigitExample | utils/gameLogic.ts:8-39 | "1122" against "1111" is `Correct`, `Correct`, `Absent`, `Absent` |
| GameLogic.LeftmostTakesTheLastOne | utils/gameLogic.ts:28-36 | "1100" against "2019" gives `Present` only to the leftmost misplaced 1, since the target has a single 1 |
| GameLogic.JsRemainder | utils/gameLogic.ts:44 | the remainder takes the sign of the dividend, is smaller in size than the divisor, and differs from the dividend by a multiple of the divisor |
| GameLogic.JsRemainderSigns | utils/gameLogic.ts:44 | the remainder is odd in the dividend and ignores the divisor's sign, unlike the Euclidean one |
| GameLogic.DateSeed | utils/gameLogic.ts:43 | for a real month and day the seed reads back as year, then month (index plus 1) as two decimal digits, then day as two decimal digits |
| GameLogic.DailyPuzzleId | utils/gameLogic.ts:41-45 | the index is NaN exactly when the count is zero, lies in [0, count) for a real date and a positive count, and differs from the date seed by a multiple of the count |
| GameLogic.SeedSeparatesDates | utils/gameLogic.ts:43 | distinct calendar dates give distinct seeds |
| App.Available | App.tsx:54 | the puzzles a new game may move to number at least six, all from the catalog, none with the current id |
| App.LeadingDigits | App.tsx:104-108 | the digits `parseInt` reads are the longest prefix made of ASCII digits |
| App.ParseInt | App.tsx:104-108 | `parseInt` yields NaN exactly when the string does not start with a digit |
| App.ParseDigitString | App.tsx:104-108 | a non-empty string of digits is read in full |
| App.NumeralInjective | App.tsx:108-111 | two digit strings of equal length with the same numeric value are the same string |
| App.Compare | App.tsx:108-111 | the arrow is `Later` exactly when both values are numbers and the guess is smaller, `Earlier` exactly when it is larger |
| App.CompareYears | App.tsx:108-111 | for four-digit years the arrow is the year itself exactly when the strings are equal, and `Later`/`Earlier` follow the numeric order |
| App.PadEnd | App.tsx:121 | the padded string keeps its prefix and is filled with spaces up to four characters |
| App.BoardRow | App.tsx:102-136 | every row carries the puzzle's hint of the same index and four cells |
| App.SubmittedRow | App.tsx:107-118 | a submitted row shows its guess, verdicts in every cell with `Correct` exactly where it matches the year, and the arrow in numeric order |
| App.TypingRow | App.tsx:119-125 | during play the row after the guesses shows the typed digits padded to four, `Tbd` for each typed digit and `Empty` after, with no arrow |
| App.IsHintVisible | App.tsx:155 | during play a hint is shown exactly when its row is at most the row being typed; once the round is over every hint is shown |
| App.HintVisibility | App.tsx:155 | the shown hints always form a prefix of the four rows |
| App.RoundOutcome | App.tsx:63-80 | under the round rule, won iff the year was guessed, lost iff four guesses all missed, playing iff fewer than four missed |
| App.SubmitKeepsRound | App.tsx:70-77 | appending a four-digit guess keeps the round rule, with the win check before the fourth-attempt check |
| App.Game.Mount | App.tsx:12-46 | mounting shows a restored snapshot with a known id as it stands, a new game off puzzle "1" on an empty slot, and the initial state for an unreadable snapshot or unknown id; the slot then holds the current snapshot |
| App.Game.StartNewGame | App.tsx:53-61 | the new puzzle is the picked one among those with a different id, and the round, buffer and toast are reset and saved |
| App.Game.OnEnter | App.tsx:63-80 | nothing changes once the round is over; a short buffer only raises the toast; otherwise the buffer is appended, the status follows the win-then-fourth-attempt rule, the buffer is cleared and the snapshot saved; the round rule is kept |
| App.Game.OnDelete | App.tsx:82-85 | during play the last typed digit is dropped and an empty buffer stays empty; nothing else changes |
| App.Game.OnDigit | App.tsx:87-90 | a digit is appended only during play with fewer than four typed, so the buffer never exceeds four digits |
| App.Game.Rows | App.tsx:102-136 | the loop builds exactly the four rows `BoardRow` specifies, scoring each submitted guess with the evaluator |
| App.Reload | App.tsx:18-46 | a screen mounted on the slot a catalog screen wrote comes back on the same puzzle, guesses and status, with an empty buffer and the slot unchanged; it is valid whenever the screen that wrote the slot was |
| App.SubmittedRowScore | App.tsx:73-77 | on a valid round a submitted row is all `Correct` exactly when it is the last row of a won round |

## Left out

- The hint and explanation texts of the catalog are display prose that no rule reads, so they stand as empty strings; the titles are kept.
- Rendering, CSS, animations and the cell and keyboard components are presentation only. The keyboard's only fact, that it emits single digits, is the precondition of `OnDigit`.
- The toast's two-second timer is not modelled. `OnEnter` sets the toast, and `StartNewGame` and `Mount` clear it.
- The keydown listener is not modelled. The handlers it calls are modelled directly.
- React's batched, asynchronous state updates, the memoised callbacks and their stale closures are not modelled. Each handler is one atomic transition, and the save effect is part of the handler that changes puzzle, guesses or status.
- Browser storage and JSON are not modelled. The slot is an `Option<Stored>`. `None` stands for a missing or empty value. `Unreadable` stands for a value whose parse or field access throws.
- A readable snapshot is assumed to be well typed: a string id, a list of strings and one of the three statuses. A JSON value of another shape, such as `{"puzzleId":"2"}` with no guesses, is not modelled; in the code it is restored unchecked and the render then fails reading its guesses (App.tsx:107). A well-typed snapshot is restored as it stands, with no check, as the code does. If its guesses break the round rule, the screen is not `Valid`, and `Mount` promises `Valid` only for a consistent snapshot.
- `Math.random` is not modelled; the chosen index is the `pick` argument. The clock is not modelled; the date is passed to `DailyPuzzleId` as full year, 0-based month index and day.
- `parseInt` is modelled only on leading ASCII digits. Leading whitespace, a sign, the `0x` prefix and the precision limits of floating point are not modelled. On a `Valid` screen every guess is four digits, so none of these arise there. A restored snapshot may hold a guess such as `"+123"` or `" 123"`. JavaScript reads it as 123, but the model reads it as NaN and shows the arrow as for an equal year. Such a screen is not `Valid`.
- Strings are sequences of characters. UTF-16 surrogate pairs, which make `length` and `for ... of` disagree, are not modelled.
- `getDailyPuzzleId` is not called by the screen. It is modelled on its own.
- The evaluator's three loops are split into three methods, one per loop, on the same array and map.
- In these places the model follows the code where a reader might expect otherwise:
  - Enter checks only the buffer's length, not that it holds digits.
  - An unreadable snapshot or an unknown id keeps the initial state instead of starting a new game.
  - Hint i is shown as soon as row i is the row being typed.
  - There is no fallback for a catalog with fewer than two entries, which the fixed catalog never has.
